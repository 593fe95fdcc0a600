# Crossword generator and Minesweeper AI, modelled in Dafny

This project models two small constraint-solving programs and proves properties
of the model.

**Crossword generator** (`crossword/generate.py`, class `CrosswordCreator`)

- A crossword puzzle has slots (variables), a vocabulary and the overlaps between
  crossing slots.
- The generator gives every slot the whole vocabulary as its domain.
- It then enforces node consistency: only words of the slot's length remain.
- It enforces arc consistency with AC-3, which uses `revise` on a queue of arcs.
- Finally it runs a backtracking search. The search picks the unassigned slot
  with the fewest remaining values, ties broken towards the most neighbours. It
  tries that slot's values least-constraining first, and searches on from an
  extension only when it is consistent. A rejected value stays bound until the
  next candidate overwrites it.
- `letter_grid` draws an assignment into a height × width grid of letters.

**Minesweeper** (`minesweeper/minesweeper.py`)

- The board answers `is_mine`, `nearby_mines` and `won`.
- A `Sentence` states that exactly `count` of a set of cells are mines.
- The `MinesweeperAI` keeps the cells it has played, the cells it knows to be
  mines and to be safe, and a list of sentences (its knowledge).
- `add_knowledge` records a revealed cell and its count, in the five steps the
  source numbers.
  1. It marks the cell played.
  2. It marks the cell safe.
  3. It adds a sentence about the cell's unknown neighbours.
  4. It hands every known safe and known mine of each sentence over to the
     sets of known cells.
  5. It adds the difference sentence `B - A = countB - countA` for every pair
     where `A`'s cells are a subset of `B`'s, unless that sentence is already
     known.
- `make_safe_move` and `make_random_move` pick the next cell to play.

## Layout

- `wrappers.dfy` (module `Wrappers`): `Option`.
- `crossword.dfy` (module `Crossword`): the puzzle structure.
  - Slots are `Variable(i, j, direction, length)`.
  - A `Crossword` value has its height, width, slots, vocabulary and overlaps.
  - The file defines the cell each letter of a slot occupies.
  - `crossword/crossword.py` is not part of this model. The structure it builds
    is given as a value, and `WellFormed` states what the generator relies on:
    - every overlap is recorded in both directions;
    - neighbours are the slots with a recorded overlap;
    - the offsets lie inside both slots;
    - slots that share a cell have that overlap recorded.
- `csp.dfy` (module `Csp`): the constraint problem as value-level functions and
  the lemmas about them.
  - `Revised` is the domain `revise` leaves.
  - `ArcConsistent`/`ArcsConsistent` are arc consistency for one arc and for
    all arcs.
  - `IsSolution` is a complete, consistent assignment.
  - `RuledOut` is the least-constraining-value score.
  - `SortBy` is a stable insertion sort, used as the specification of the
    ordering.
- `generate.dfy` (module `Generate`): class `CrosswordCreator`.
  - Its `domains` field is a `map` that the methods update in place.
  - The source's loops are `while` loops with invariants, with four
    exceptions:
    - the domain comprehension of `__init__` is a map comprehension;
    - the empty grid of `letter_grid` is a `seq` comprehension;
    - the neighbour filter of `order_domain_values` is the set difference
      `Neighbors(x) - A.Keys`;
    - its sort is the recursive insertion sort `SortBy`.
  - `FirstAccepted(cw, A, x, values, k)` is the index of the first candidate
    from k on that `consistent` accepts. It states which value the candidate
    loop of `backtrack` settles on.
  - An assignment that `backtrack` mutates is held in an `AssignmentBox`
    object.
- `minesweeper.dfy` (module `Minesweeper`): classes `Minesweeper`, `Sentence`
  and `MinesweeperAI`.
  - The AI's knowledge is a `seq<Sentence>` of objects that are updated in
    place.
  - Its meaning is stated through the value snapshot `Facts()`.
  - `Holds(mines, safes, facts, M)` says a mine layout `M` agrees with
    everything the AI knows.
  - `Resolved(facts, mined, cleared)` is the knowledge after cells are marked.
  - `Inferred(facts, n)` says every sentence from index `n` on is a subset
    difference of two earlier ones.
  - `Yield(fact)` is what step 4 takes from one sentence, `Turn` adds it to
    what a pass has marked so far, and `Pass` is what a whole pass marks.
    `PassTrace` records a pass sentence by sentence.
  - `Unrevealed(cell, …)` is the set of neighbours step 3 puts in its sentence.
  - `Observed(facts, cell, count, …)` is the knowledge after steps 1 to 3.

## Model

| member | source | states |
|---|---|---|
| Crossword.CellsDistinct | crossword/generate.py:28-32 | two letters of one slot that land in the same cell are the same letter position, so a word never overwrites its own letters |
| Crossword.OverlapsSymmetric | crossword/generate.py:120-127 | an overlap (x, y) recorded with offsets (a, b) is also recorded as (y, x) with offsets (b, a), and x and y are each other's neighbours |
| Csp.NodeConsistentFits | crossword/generate.py:97-108 | once every domain holds only words of its slot's length, every overlap offset indexes inside every candidate word, so `i[v1]` and `j[v2]` in revise cannot fail |
| Csp.ShrunkFits | crossword/generate.py:132-134 | shrinking domains keeps every overlap offset inside every candidate |
| Csp.ReviseSound | crossword/generate.py:110-135 | the revised domain of x is a subset of the old one, and x is arc consistent with y afterwards |
| Csp.ReviseIdempotent | crossword/generate.py:110-135 | revising the same arc a second time removes nothing more |
| Csp.ReverseArcSurvives | crossword/generate.py:155-159 | pruning x against y keeps the arc (y, x) consistent, which is why ac3 re-queues only the neighbours of x other than y |
| Csp.ReviseKeepsCoverage | crossword/generate.py:153-159 | after one pop-and-revise step with re-queueing, every arc not waiting in the queue is still arc consistent |
| Csp.CoveredAll | crossword/generate.py:153-160 | when the queue is empty, every arc of the puzzle is consistent |
| Csp.EntriesShrink | crossword/generate.py:155-159 | a revision that removes a word lowers the total number of (slot, word) pairs, so ac3 terminates |
| Csp.NodeConsistencyKeepsSolution | crossword/generate.py:97-108 | a solution drawn from the old domains is still drawn from the node-consistent domains |
| Csp.ReviseKeepsSolution | crossword/generate.py:124-134 | a solution drawn from the old domains is still drawn from them after revise prunes x against y |
| Csp.PruningComposes | crossword/generate.py:89-93 | two pruning steps that each shrink the domains and keep every solution compose into one that does both |
| Csp.SharedCellAgrees | crossword/generate.py:174-191 | in a consistent assignment, two slots whose letters occupy the same cell write the same letter there |
| Csp.InsertBy | crossword/generate.py:215 | inserting into a list sorted by key gives a sorted permutation of the list plus the new word |
| Csp.SortBy | crossword/generate.py:215 | the result is a permutation of the input, sorted by ascending key |
| Generate.FewerUnassigned | crossword/generate.py:244-249 | binding a new slot lowers the number of unassigned slots, so backtrack terminates |
| Generate.CrosswordCreator.constructor | crossword/generate.py:9-17 | every slot's domain is the whole vocabulary |
| Generate.CrosswordCreator.EnforceNodeConsistency | crossword/generate.py:97-108 | each domain becomes exactly its words of the slot's length, with the same keys, and the result is node consistent |
| Generate.CrosswordCreator.Revise | crossword/generate.py:110-135 | the domain of x becomes `Revised` and nothing else changes; x is then arc consistent with y; the result is true iff the domain of x shrank; without an overlap it is false |
| Generate.CrosswordCreator.InitialArcs | crossword/generate.py:146-150 | the queue holds exactly the arcs (v1, v2) with v2 a neighbour of v1 |
| Generate.CrosswordCreator.RequeueNeighbors | crossword/generate.py:158-159 | the queue gains exactly the arcs (z, x) for the neighbours z of x other than y, at the front, with the old queue kept behind them |
| Generate.CrosswordCreator.Ac3 | crossword/generate.py:137-160 | the domains only shrink and every solution survives; false implies some domain that had words at entry is now empty; true implies that no domain that had words at entry was emptied; true from the full arc list implies every arc is arc consistent; true from a given list gives arc consistency when that list covered the arcs not already consistent |
| Generate.CrosswordCreator.Ac3Step | crossword/generate.py:153-159 | one pop, revise and re-queue step keeps the domains shrinking and every solution; an emptied domain is reported, and when none is reported no domain that had words before the step is empty after it; coverage of the arcs outside the queue is kept |
| Generate.CrosswordCreator.RevisePrunes | crossword/generate.py:110-135 | a revision shrinks the domains and keeps every solution of the puzzle |
| Generate.CrosswordCreator.AssignmentComplete | crossword/generate.py:162-172 | true iff every slot is assigned and every assigned word of a slot is in the vocabulary |
| Generate.CrosswordCreator.IsConsistent | crossword/generate.py:174-191 | true iff every word has its slot's length, no word is used twice, and every overlap agrees |
| Generate.CrosswordCreator.SelectUnassignedVariable | crossword/generate.py:218-233 | None iff every slot is assigned; otherwise an unassigned slot with the fewest remaining values, ties broken towards the most neighbours, preferred over every other unassigned slot |
| Generate.CrosswordCreator.CountRuledOut | crossword/generate.py:205-213 | the count equals the number of (neighbour, candidate) pairs that the word rules out among the unassigned neighbours |
| Generate.CrosswordCreator.ScoreCandidates | crossword/generate.py:200-214 | the candidate list is a permutation of the domain, and each score equals `RuledOut` |
| Generate.CrosswordCreator.OrderDomainValues | crossword/generate.py:193-216 | the result is a permutation of the domain of x, in ascending order of the number of values each word rules out |
| Generate.CrosswordCreator.Backtrack | crossword/generate.py:235-253 | the assignment only grows by slots bound to words of their domains; a result is the same assignment object, complete, and consistent unless it was already complete on entry; an assignment complete on entry is returned unchanged |
| Generate.CrosswordCreator.TryValues | crossword/generate.py:246-253 | a result is complete and consistent and binds x to one of the values; when `consistent` rejects every value, None comes back and only x may differ from the entry assignment (bound to the last value); when the first value `consistent` accepts completes the assignment outright, that assignment is returned |
| Generate.CrosswordCreator.TryStep | crossword/generate.py:247-252 | one turn of the candidate loop: until the first accepted value only x differs from the entry assignment; success binds x to this value and can only come at or after the first accepted value, returning the assignment with it when it is a solution outright; after a failure the first accepted value, if already passed, was no solution outright |
| Generate.CrosswordCreator.TryValue | crossword/generate.py:247-252 | a rejected value stays bound and None comes back; an accepted value that fails is unbound again; a success extends the assignment with x bound to the value; a value that completes the assignment consistently is returned at once; the assignment apart from x only grows by slots bound to domain words |
| Generate.AcceptedAt | crossword/generate.py:249-250 | the candidate `FirstAccepted` names, when there is one, makes the assignment consistent |
| Generate.RejectedBefore | crossword/generate.py:249-250 | every candidate before the one `FirstAccepted` names makes the assignment inconsistent |
| Generate.FirstAcceptedFrom | crossword/generate.py:248-253 | resuming the scan at any candidate up to the first accepted one finds the same candidate |
| Generate.CandidateOutcome | crossword/generate.py:247-253 | what `TryValue` promises for candidate n keeps the candidate loop's invariant: only x changed until the first accepted candidate, and that candidate was no solution outright once passed |
| Generate.CrosswordCreator.Solve | crossword/generate.py:89-95 | the domains end node consistent, shrunk and still holding every solution; they are arc consistent or some domain is empty; a result is a complete, consistent assignment drawn from the final domains |
| Generate.CrosswordCreator.LetterGrid | crossword/generate.py:19-33 | the grid is height × width; a cell holds a letter iff some assigned word covers it, and that letter comes from a word covering it; for a consistent assignment every word's letters all appear in their cells |
| Generate.CrosswordCreator.DrawWord | crossword/generate.py:29-32 | drawing one word records every one of its letters and keeps the drawing invariant |
| Generate.CrosswordCreator.DrawnAll | crossword/generate.py:27-33 | once every letter is drawn, the grid holds exactly the covered cells, each with a covering word's letter, and every letter of a consistent assignment sits in its cell |
| Minesweeper.NeighboursAtMostEight | minesweeper/minesweeper.py:67-72 | a cell has at most eight neighbours |
| Minesweeper.Wrap | minesweeper/minesweeper.py:52-54 | an index in [-n, n) selects the same row or column as Python's negative indexing: the index itself or the index plus n |
| Minesweeper.Minesweeper.constructor | minesweeper/minesweeper.py:11-35 | the board has the given height, width and mines, and no mine is found yet |
| Minesweeper.Minesweeper.IsMine | minesweeper/minesweeper.py:52-54 | true iff the cell, after Python's negative-index wrap, is a mine |
| Minesweeper.Minesweeper.NearbyMines | minesweeper/minesweeper.py:56-79 | the count equals the number of mines among the eight neighbours of the cell, and is at most 8 |
| Minesweeper.Minesweeper.Won | minesweeper/minesweeper.py:81-85 | true iff the flagged mines are exactly the mines |
| Minesweeper.Sentence.constructor | minesweeper/minesweeper.py:95-97 | the sentence holds the given cells and count |
| Minesweeper.Sentence.MarkMine | minesweeper/minesweeper.py:125-132 | the cell leaves the sentence, and the count drops by one iff the cell was in it |
| Minesweeper.Sentence.MarkSafe | minesweeper/minesweeper.py:134-139 | the cell leaves the sentence and the count is unchanged |
| Minesweeper.Sentence.KnownMines | minesweeper/minesweeper.py:105-113 | the known mines are all of the sentence's cells when its count equals their number, and none otherwise; `KnownMinesSound` proves they are mines |
| Minesweeper.Sentence.KnownSafes | minesweeper/minesweeper.py:115-123 | the known safes are all of the sentence's cells when its count is zero, and none otherwise; `KnownSafesSound` proves they are free of mines |
| Minesweeper.KnownMinesSound | minesweeper/minesweeper.py:105-113 | in a true sentence the known mines are cells of the sentence and really are mines |
| Minesweeper.KnownSafesSound | minesweeper/minesweeper.py:115-123 | in a true sentence the known safes are cells of the sentence and really are free of mines |
| Minesweeper.MarkMineKeepsTruth | minesweeper/minesweeper.py:125-132 | removing a real mine and lowering the count (only when it was present) keeps a sentence true |
| Minesweeper.MarkSafeKeepsTruth | minesweeper/minesweeper.py:134-139 | removing a cell without a mine keeps a sentence true |
| Minesweeper.SubsetInference | minesweeper/minesweeper.py:224-226 | if A ⊆ B and both sentences are true, then B - A with count countB - countA is true |
| Minesweeper.NewSentenceTruth | minesweeper/minesweeper.py:188-201 | the sentence built from the unknown in-bounds neighbours and the revealed count is true iff no neighbour is already a known mine |
| Minesweeper.MineInEach | minesweeper/minesweeper.py:169-170 | every sentence of the list is updated as by Sentence.mark_mine, and no other object changes |
| Minesweeper.SafeInEach | minesweeper/minesweeper.py:179-180 | every sentence of the list is updated as by Sentence.mark_safe, and no other object changes |
| Minesweeper.ResolvedNothing | minesweeper/minesweeper.py:162-180 | marking no cells changes no sentence |
| Minesweeper.ResolvedTwice | minesweeper/minesweeper.py:203-215 | marking cells in two rounds gives the same knowledge as marking them all at once, provided the second round's mines are new |
| Minesweeper.ResolvedKeepsTruth | minesweeper/minesweeper.py:162-180 | marking real mines as mines and mine-free cells as safe keeps all the knowledge true |
| Minesweeper.EntailsChain | minesweeper/minesweeper.py:203-215 | conclusions drawn in two successive rounds of hand-over follow from the knowledge at the start |
| Minesweeper.DerivedTrue | minesweeper/minesweeper.py:217-230 | every sentence obtained by repeated subset differences is true whenever the sentences it came from are true |
| Minesweeper.InferredKeepsTruth | minesweeper/minesweeper.py:217-230 | appending subset-difference sentences keeps the whole knowledge true |
| Minesweeper.InferenceKeepsTruth | minesweeper/minesweeper.py:203-230 | steps 4 and 5 together (the hand-over of entailed cells, then subset inference) keep the knowledge true |
| Minesweeper.ObservationTruth | minesweeper/minesweeper.py:184-201 | after steps 1 to 3 the knowledge is still true when the revealed cell is mine-free, its count is right and no neighbour is a known mine |
| Minesweeper.MinesweeperAI.constructor | minesweeper/minesweeper.py:146-160 | the board size is stored; moves, mines, safes and knowledge start empty |
| Minesweeper.MinesweeperAI.MarkMine | minesweeper/minesweeper.py:162-170 | the cell joins the mines; every sentence drops it (lowering its count when it was present); nothing else changes |
| Minesweeper.MinesweeperAI.MarkSafe | minesweeper/minesweeper.py:172-180 | the cell joins the safes; every sentence drops it with its count kept; nothing else changes |
| Minesweeper.MinesweeperAI.MarkAllSafe | minesweeper/minesweeper.py:207-208 | marking a set of cells safe one by one adds all of them to the safes and resolves the knowledge against them as one batch |
| Minesweeper.MinesweeperAI.MarkAllMines | minesweeper/minesweeper.py:213-214 | marking a set of cells as mines one by one adds all of them to the mines and resolves the knowledge against them as one batch |
| Minesweeper.MinesweeperAI.HandOverSafes | minesweeper/minesweeper.py:205-208 | the safes grow by exactly the sentence's known safes (all its cells when its count is 0); mines, list and moves are unchanged; the knowledge is resolved against exactly those cells, and they follow from the old knowledge |
| Minesweeper.MinesweeperAI.HandOverMines | minesweeper/minesweeper.py:211-214 | the mines grow by exactly the sentence's known mines (all its cells when its count equals its size); safes, list and moves are unchanged; the knowledge is resolved against exactly those cells, which follow from the old knowledge and are not among the safes |
| Minesweeper.MinesweeperAI.DeduceFrom | minesweeper/minesweeper.py:205-214 | the mines and safes grow by exactly `Yield` of the sentence: its known safes, then the known mines of what is left of it once those are marked; the knowledge is resolved against exactly the new cells, and they follow from the old knowledge |
| Minesweeper.YieldAtOnce | minesweeper/minesweeper.py:105-123 | what one sentence yields in step 4 is its known mines and its known safes as it stood, since a sentence with known safes has no known mines left once they are marked |
| Minesweeper.MinesweeperAI.Deduce | minesweeper/minesweeper.py:203-214 | one pass in list order: the returned trace records, before each sentence's turn, what the pass has marked, and each turn adds what that sentence yields once resolved against the earlier marks; the mines and safes grow by exactly the trace's last entry; the sentences are resolved against exactly those cells, and they follow from the old knowledge |
| Minesweeper.TraceIsPass | minesweeper/minesweeper.py:203-214 | a pass's trace ends in `Pass`, the recursive definition of what one pass over the sentences marks |
| Minesweeper.MinesweeperAI.DeduceStep | minesweeper/minesweeper.py:203-214 | one turn of the pass: what the pass has marked grows by exactly `Turn` of sentence i, that is what sentence i yields once resolved against the earlier marks; the knowledge stays resolved against exactly the marked cells, and they still follow from the knowledge at the start of the pass |
| Minesweeper.MinesweeperAI.Contains | minesweeper/minesweeper.py:228 | true iff a sentence with these cells and this count is already known |
| Minesweeper.MinesweeperAI.ConsiderPair | minesweeper/minesweeper.py:220-230 | if sentence i's cells are a subset of those of a different sentence j, their difference is known afterwards; the knowledge only grows by subset differences |
| Minesweeper.MinesweeperAI.InferFrom | minesweeper/minesweeper.py:218-230 | every difference of sentence i with a sentence known at the start of the inner loop is known afterwards |
| Minesweeper.MinesweeperAI.InferFromSubsets | minesweeper/minesweeper.py:217-230 | the knowledge only grows, and every added sentence is a subset difference of earlier ones; for every pair of sentences present at the start with the first's cells inside the second's, their difference is known afterwards; mines, safes and moves are unchanged |
| Minesweeper.MinesweeperAI.InferStep | minesweeper/minesweeper.py:217-230 | one outer iteration extends the set of covered pairs by one row |
| Minesweeper.MinesweeperAI.UnknownNeighbours | minesweeper/minesweeper.py:188-199 | exactly the in-bounds neighbours of the cell that are neither safe nor mines |
| Minesweeper.MinesweeperAI.Push | minesweeper/minesweeper.py:201 | a fresh sentence with the given cells and count is appended, and nothing else changes |
| Minesweeper.MinesweeperAI.AppendSentence | minesweeper/minesweeper.py:201 | the sentence is appended iff it has cells, and the old sentences stay |
| Minesweeper.MinesweeperAI.Observe | minesweeper/minesweeper.py:184-201 | the cell is played and safe and the mines are unchanged; the knowledge becomes `Observed`: the old sentences with the cell resolved as safe, followed, when there is any, by the sentence over the unrevealed neighbours (on the board, neither safe nor mine) with the revealed count; the knowledge remains true for every layout consistent with the reveal |
| Minesweeper.MinesweeperAI.Conclude | minesweeper/minesweeper.py:203-230 | steps 4 and 5: the mines and safes grow by exactly what one pass over the sentences marks (its trace); the old sentences stay, resolved against exactly those cells; every appended sentence is a subset difference of earlier ones; for every pair of the resolved old sentences with the first's cells inside the second's, their difference is known; true knowledge stays true |
| Minesweeper.MinesweeperAI.AddKnowledge | minesweeper/minesweeper.py:182-230 | the cell is played and safe; mines, safes and knowledge only grow; every mine layout consistent with the old knowledge and the reveal is still consistent with all the new knowledge; conversely, when the cell had unrevealed neighbours, every layout on the board consistent with the new knowledge has exactly `count` plus the number of its known-mine neighbours of mines around the cell; steps 4 and 5 happen: the new mines and safes are what one pass over the `Observed` knowledge marks (a trace exists), those sentences stay resolved against exactly them, every appended sentence is a subset difference, and every subset pair among them has its difference known |
| Minesweeper.RevealedCount | minesweeper/minesweeper.py:188-199 | on a layout agreeing with the known cells, the mines around a cell are those among its unrevealed neighbours plus its neighbours known to be mines |
| Minesweeper.SettleReverse | minesweeper/minesweeper.py:125-139 | a sentence resolved against real mines and mine-free cells is true only if the sentence before resolving was true |
| Minesweeper.ObservedCount | minesweeper/minesweeper.py:188-214 | whatever steps 4 and 5 make of the step-3 sentence, a layout on which it still holds has `count` plus the known-mine neighbours of mines around the cell |
| Minesweeper.MinesweeperAI.MakeSafeMove | minesweeper/minesweeper.py:253-258 | a returned cell is known safe and not yet played; None iff every safe cell has been played |
| Minesweeper.MinesweeperAI.MakeRandomMove | minesweeper/minesweeper.py:270-276 | a returned cell is on the board, not a known mine and not played, and is the first such cell in row-major order; None iff every cell is a known mine or played |

## Left out

- `CrosswordCreator.print`, `save` and `main`
  (crossword/generate.py:35-87 and 256 onwards) are terminal and image output.
- crossword/crossword.py is not part of this model. It reads the structure and
  word files, and its `Crossword`/`Variable` classes are given as the
  `Crossword` value with `WellFormed`.
- Random mine placement in `Minesweeper.__init__`
  (minesweeper/minesweeper.py:26-32) is randomness. The constructor takes the
  mine set as a parameter. `Minesweeper.print` is output.
- `Sentence.__str__` is output. `Sentence.__eq__` is `SameAs`, and on the value
  level it is tuple equality in `Facts()`.
- Index errors are excluded by preconditions where the source would raise:
  - `Revise` requires `OffsetsFit` for its arc, and `CountRuledOut` requires
    `OffsetsInRange` for all arcs (`i[v1]` and `j[v2]` in range);
  - `LetterGrid` requires `FitsGrid`;
  - `IsMine` requires indices in `[-n, n)`.
- Generate.CrosswordCreator.IsConsistent: the source may index a word whose
  length has not been checked yet, and then it raises. The model skips that
  comparison and returns false later, when that word's length check fails.
  The model therefore returns false for every input on which the source
  raises this way.
- Generate.CrosswordCreator.Solve: the result of `ac3` is ignored, as in the
  source. The contract says the domains end arc consistent or with an empty
  domain, but not which of the two holds.
- Generate.CrosswordCreator.Backtrack: soundness only. A returned assignment is
  complete and consistent. There is no claim that None means no solution
  exists: the source pops the binding only after a failed recursive call, so a
  rejected value stays bound while the next value overwrites it.
- Generate.CrosswordCreator.TryValues: the same gap as Backtrack. The contract
  fixes what happens when every value is rejected and when the first accepted
  value is a solution outright. When that value needs a deeper search, it
  says only that a result is sound, not that a failure means no value works.
- Generate.CrosswordCreator.TryValue: the same gap as Backtrack. A failed
  deeper search is not tied to the absence of a solution.
- Sentence.MarkMine and Sentence.MarkSafe: the local `cell = Sentence(...)`
  assignments have no effect and are not modelled.
- Iteration order over Python sets is unspecified. Whenever the source
  iterates a set, the model picks any element (`:|`), and contracts hold for
  every order. The same applies to `make_safe_move`, the neighbour loop of
  `order_domain_values` and the domain loops.
- `letter_grid` and `consistent` iterate the assignment, a dict, which keeps
  insertion order (crossword/generate.py:27, 179 and 182). The model iterates
  in any order. `consistent` returns the same answer in every order. Only
  `LetterGrid` on an assignment whose words conflict in a shared cell could
  differ: the source keeps the letter written last, and the model states only
  that the cell holds the letter of some word covering it.
- The default arguments `height=8, width=8, mines=8` of `Minesweeper` and
  `height=8, width=8` of `MinesweeperAI` (minesweeper/minesweeper.py:11 and
  146) are dropped: the constructors take every value explicitly.
- Minesweeper.MinesweeperAI.AddKnowledge: the knowledge is kept true only when
  no neighbour of the revealed cell is already a known mine. The source builds
  the new sentence from the unknown neighbours but does not lower the count by
  the known mines among them. `NewSentenceTruth` proves that the new sentence
  is true exactly in that case. The same restriction applies to
  Minesweeper.MinesweeperAI.Observe. The converse clause of AddKnowledge shows
  the effect: every layout the new knowledge admits has `count` plus the
  known-mine neighbours of mines around the cell, not `count`.
- Minesweeper.MinesweeperAI.InferFromSubsets, and likewise
  Minesweeper.MinesweeperAI.Conclude and the completeness clause of
  Minesweeper.MinesweeperAI.AddKnowledge: completeness is stated for
  pairs of sentences present when the step starts. The inner loop also visits
  sentences appended during the step, and those pairs are covered only by the
  soundness clause.
- `make_random_move` takes the first free cell in row-major order, as the
  source does, not a random one.
