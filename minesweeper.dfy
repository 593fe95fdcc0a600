/**
 * The Minesweeper board and the knowledge base of the playing AI: sentences
 * "`count` of these `cells` are mines", the cells known to be safe or mines,
 * and the inference that adds sentences as moves reveal numbers.
 */
module Minesweeper {
  import opened Wrappers

  /** A board cell (row, column). */
  type Cell = (int, int)

  /** The up to eight cells around c (not c itself), ignoring the board's edges. */
  function Neighbours(c: Cell): set<Cell>
  {
    set i, j | c.0 - 1 <= i <= c.0 + 1 && c.1 - 1 <= j <= c.1 + 1 && (i, j) != c :: (i, j)
  }

  lemma NeighboursAtMostEight(c: Cell)
    ensures |Neighbours(c)| <= 8
  {
    var (r, k) := c;
    var row0 := {(r - 1, k - 1), (r - 1, k), (r - 1, k + 1)};
    var row1 := {(r, k - 1), (r, k + 1)};
    var row2 := {(r + 1, k - 1), (r + 1, k), (r + 1, k + 1)};
    assert Neighbours(c) == row0 + row1 + row2;
    assert |row0 + row1 + row2| <= |row0| + |row1| + |row2|;
  }

  predicate InBounds(c: Cell, height: nat, width: nat)
  {
    0 <= c.0 < height && 0 <= c.1 < width
  }

  // ----- The game -----

  /** A board of the given size whose mines are given (random placement is not modelled). */
  class Minesweeper {
    const height: nat
    const width: nat
    const mines: set<Cell>
    const board: seq<seq<bool>>
    var minesFound: set<Cell>

    /** The board marks exactly the mines, and the mines lie on the board. */
    ghost predicate Valid()
    {
      |board| == height &&
      (forall i :: 0 <= i < height ==> |board[i]| == width) &&
      (forall i, j :: 0 <= i < height && 0 <= j < width ==> (board[i][j] <==> (i, j) in mines)) &&
      (forall c :: c in mines ==> InBounds(c, height, width))
    }

    constructor (height: nat, width: nat, mines: set<Cell>)
      requires forall c :: c in mines ==> InBounds(c, height, width)
      ensures Valid() && this.height == height && this.width == width && this.mines == mines
      ensures minesFound == {}
    {
      this.height, this.width, this.mines := height, width, mines;
      board := seq(height, i => seq(width, j => (i, j) in mines));
      minesFound := {};
    }

    /**
     * Whether the cell holds a mine. Indices count from the end when
     * negative, as list indexing does; beyond that the lookup fails.
     */
    function IsMine(cell: Cell): (mine: bool)
      requires Valid()
      requires -(height as int) <= cell.0 < height && -(width as int) <= cell.1 < width
      ensures mine <==> (Wrap(cell.0, height), Wrap(cell.1, width)) in mines
    {
      board[Wrap(cell.0, height)][Wrap(cell.1, width)]
    }

    /** The number of mines in the cells around `cell`. */
    method NearbyMines(cell: Cell) returns (count: nat)
      requires Valid()
      ensures count == |Neighbours(cell) * mines|
      ensures count <= 8
    {
      ghost var counted: set<Cell> := {};
      count := 0;
      var i := cell.0 - 1;
      while i < cell.0 + 2
        invariant cell.0 - 1 <= i <= cell.0 + 2
        invariant forall c :: c in counted <==> c in Neighbours(cell) && c in mines && c.0 < i
        invariant count == |counted|
        decreases cell.0 + 2 - i
      {
        var j := cell.1 - 1;
        while j < cell.1 + 2
          invariant cell.1 - 1 <= j <= cell.1 + 2
          invariant forall c :: c in counted <==>
            c in Neighbours(cell) && c in mines && (c.0 < i || (c.0 == i && c.1 < j))
          invariant count == |counted|
          decreases cell.1 + 2 - j
        {
          if (i, j) != cell && 0 <= i < height && 0 <= j < width && board[i][j] {
            counted := counted + {(i, j)};
            count := count + 1;
          }
          j := j + 1;
        }
        i := i + 1;
      }
      assert counted == Neighbours(cell) * mines;
      NeighboursAtMostEight(cell);
      SubsetSize(counted, Neighbours(cell));
    }

    /** The game is won once the flagged cells are exactly the mines. */
    function Won(): (won: bool)
      reads this
      ensures won <==> minesFound <= mines && mines <= minesFound
    {
      minesFound == mines
    }
  }

  /** A negative index counted from the end of a sequence of length n. */
  function Wrap(k: int, n: nat): (r: nat)
    requires -(n as int) <= k < n
    ensures r < n && (r == k || r == k + n)
  {
    if k < 0 then k + n else k
  }

  // ----- Sentences -----

  /** The sentence "exactly `count` of `cells` are mines" holds on the mine set M. */
  ghost predicate Describes(cells: set<Cell>, count: int, M: set<Cell>)
  {
    |cells * M| == count
  }

  /** All cells of a sentence are mines when its count is its number of cells; otherwise none is known. */
  function MinesIn(fact: (set<Cell>, int)): set<Cell>
  {
    if fact.1 == |fact.0| then fact.0 else {}
  }

  /** All cells of a sentence are safe when its count is zero; otherwise none is known. */
  function SafesIn(fact: (set<Cell>, int)): set<Cell>
  {
    if fact.1 == 0 then fact.0 else {}
  }

  /** A logical statement about the board: `count` of `cells` are mines. */
  class Sentence {
    var cells: set<Cell>
    var count: int

    constructor (cells: set<Cell>, count: int)
      ensures this.cells == cells && this.count == count
    {
      this.cells, this.count := cells, count;
    }

    /** Two sentences are equal when they say the same thing. */
    predicate SameAs(other: Sentence)
      reads this, other
    {
      cells == other.cells && count == other.count
    }

    /** The cells that must all be mines: every cell, when the count equals their number. */
    function KnownMines(): (r: set<Cell>)
      reads this
      ensures r <= cells
      ensures r != {} ==> r == cells && count == |cells|
      ensures count == |cells| ==> r == cells
    {
      MinesIn((cells, count))
    }

    /** The cells that must all be safe: every cell, when the count is zero. */
    function KnownSafes(): (r: set<Cell>)
      reads this
      ensures r <= cells
      ensures r != {} ==> r == cells && count == 0
      ensures count == 0 ==> r == cells
    {
      SafesIn((cells, count))
    }

    /** Drops a known mine from the sentence, and one from its count. */
    method MarkMine(cell: Cell)
      modifies this
      ensures cells == old(cells) - {cell}
      ensures count == if cell in old(cells) then old(count) - 1 else old(count)
    {
      if cell in cells {
        cells := cells - {cell};
        count := count - 1;
      }
    }

    /** Drops a known safe cell from the sentence. */
    method MarkSafe(cell: Cell)
      modifies this
      ensures cells == old(cells) - {cell} && count == old(count)
    {
      if cell in cells {
        cells := cells - {cell};
      }
    }
  }

  /** A true sentence's known mines are mines. */
  lemma KnownMinesSound(s: Sentence, M: set<Cell>)
    requires Describes(s.cells, s.count, M)
    ensures s.KnownMines() <= s.cells
    ensures s.KnownMines() <= M
  {
    if s.count == |s.cells| {
      SubsetOfSameSize(s.cells * M, s.cells);
    }
  }

  /** A true sentence's known safe cells are not mines. */
  lemma KnownSafesSound(s: Sentence, M: set<Cell>)
    requires Describes(s.cells, s.count, M)
    ensures s.KnownSafes() <= s.cells
    ensures s.KnownSafes() !! M
  {
    if s.count == 0 {
      forall c | c in s.cells ensures c !in M {
        assert c !in s.cells * M;
      }
    }
  }

  lemma SubsetSize(a: set<Cell>, b: set<Cell>)
    requires a <= b
    ensures |a| <= |b|
  {
    assert b == a + (b - a);
  }

  lemma SubsetOfSameSize(a: set<Cell>, b: set<Cell>)
    requires a <= b && |a| == |b|
    ensures a == b
  {
    assert |b - a| == |b| - |a|;
  }

  /** Dropping a mine and lowering the count keeps a true sentence true. */
  lemma MarkMineKeepsTruth(cells: set<Cell>, count: int, M: set<Cell>, c: Cell)
    requires Describes(cells, count, M) && c in M
    ensures Describes(cells - {c}, if c in cells then count - 1 else count, M)
  {
    if c in cells {
      assert (cells - {c}) * M == cells * M - {c};
    } else {
      assert (cells - {c}) * M == cells * M;
    }
  }

  /** Dropping a safe cell keeps a true sentence true. */
  lemma MarkSafeKeepsTruth(cells: set<Cell>, count: int, M: set<Cell>, c: Cell)
    requires Describes(cells, count, M) && c !in M
    ensures Describes(cells - {c}, count, M)
  {
    assert (cells - {c}) * M == cells * M;
  }

  /** Subset inference: if cells1 is within cells2, their difference holds the difference of the counts. */
  lemma SubsetInference(cells1: set<Cell>, count1: int, cells2: set<Cell>, count2: int, M: set<Cell>)
    requires Describes(cells1, count1, M) && Describes(cells2, count2, M) && cells1 <= cells2
    ensures Describes(cells2 - cells1, count2 - count1, M)
  {
    assert cells2 * M == (cells2 - cells1) * M + cells1 * M;
    assert (cells2 - cells1) * M !! cells1 * M;
  }

  /**
   * The sentence built for a revealed cell: its unknown neighbours on the
   * board with the revealed count. It is true exactly when no neighbour was
   * already a known mine, since the count is not lowered by those.
   */
  lemma NewSentenceTruth(cell: Cell, count: int, st: set<Cell>, mines: set<Cell>, safes: set<Cell>,
                         M: set<Cell>, height: nat, width: nat)
    requires forall c :: c in M ==> InBounds(c, height, width)
    requires mines <= M && safes !! M
    requires count == |Neighbours(cell) * M|
    requires forall c :: c in st <==> c in Neighbours(cell) && InBounds(c, height, width) && c !in safes && c !in mines
    ensures Describes(st, count, M) <==> Neighbours(cell) !! mines
  {
    var around := Neighbours(cell) * M;
    var flagged := Neighbours(cell) * mines;
    assert around == st * M + flagged;
    assert st * M !! flagged;
    if !(Neighbours(cell) !! mines) {
      var c :| c in Neighbours(cell) && c in mines;
      assert c in flagged;
    }
  }

  /** What a list of sentences says, as (cells, count) values. */
  ghost function FactsOf(ks: seq<Sentence>): seq<(set<Cell>, int)>
    reads ks
  {
    seq(|ks|, i requires 0 <= i < |ks| reads ks => (ks[i].cells, ks[i].count))
  }

  /** Sentence.MarkMine on every sentence of the list, in order. */
  method MineInEach(ks: seq<Sentence>, cell: Cell)
    requires Distinct(ks)
    modifies set s | s in ks
    ensures forall k :: 0 <= k < |ks| ==>
      ks[k].cells == old(ks[k].cells) - {cell} && ks[k].count == old(ks[k].count) - |old(ks[k].cells) * {cell}|
  {
    var i := 0;
    while i < |ks|
      invariant 0 <= i <= |ks|
      invariant forall k :: 0 <= k < i ==>
        ks[k].cells == old(ks[k].cells) - {cell} && ks[k].count == old(ks[k].count) - |old(ks[k].cells) * {cell}|
      invariant forall k :: i <= k < |ks| ==> ks[k].cells == old(ks[k].cells) && ks[k].count == old(ks[k].count)
      decreases |ks| - i
    {
      MeetOne(ks[i].cells, cell);
      ks[i].MarkMine(cell);
      i := i + 1;
    }
  }

  /** Sentence.MarkSafe on every sentence of the list, in order. */
  method SafeInEach(ks: seq<Sentence>, cell: Cell)
    requires Distinct(ks)
    modifies set s | s in ks
    ensures forall k :: 0 <= k < |ks| ==> ks[k].cells == old(ks[k].cells) - {cell} && ks[k].count == old(ks[k].count)
  {
    var i := 0;
    while i < |ks|
      invariant 0 <= i <= |ks|
      invariant forall k :: 0 <= k < i ==> ks[k].cells == old(ks[k].cells) - {cell} && ks[k].count == old(ks[k].count)
      invariant forall k :: i <= k < |ks| ==> ks[k].cells == old(ks[k].cells) && ks[k].count == old(ks[k].count)
      decreases |ks| - i
    {
      ks[i].MarkSafe(cell);
      i := i + 1;
    }
  }

  /** The list says exactly the given facts. */
  lemma FactsAre(ks: seq<Sentence>, facts: seq<(set<Cell>, int)>)
    requires |ks| == |facts| && forall k :: 0 <= k < |ks| ==> ks[k].cells == facts[k].0 && ks[k].count == facts[k].1
    ensures FactsOf(ks) == facts
  {
  }

  /** Known mines, known safe cells and sentences that are all true on the mine set M. */
  ghost predicate Holds(mines: set<Cell>, safes: set<Cell>, facts: seq<(set<Cell>, int)>, M: set<Cell>)
  {
    mines <= M && safes !! M && forall i :: 0 <= i < |facts| ==> Describes(facts[i].0, facts[i].1, M)
  }

  /**
   * The sentences once the cells of `mined` are known to be mines and those
   * of `cleared` known to be safe: those cells leave every sentence, and each
   * count drops by the mines that left it.
   */
  function Resolved(facts: seq<(set<Cell>, int)>, mined: set<Cell>, cleared: set<Cell>): seq<(set<Cell>, int)>
  {
    seq(|facts|, i requires 0 <= i < |facts| => Settle(facts[i], mined, cleared))
  }

  function Settle(fact: (set<Cell>, int), mined: set<Cell>, cleared: set<Cell>): (set<Cell>, int)
  {
    (fact.0 - mined - cleared, fact.1 - |fact.0 * mined|)
  }

  /** Learning nothing changes no sentence. */
  lemma ResolvedNothing(facts: seq<(set<Cell>, int)>)
    ensures Resolved(facts, {}, {}) == facts
  {
    forall i | 0 <= i < |facts| ensures Resolved(facts, {}, {})[i] == facts[i] {
      assert facts[i].0 * {} == {};
    }
  }

  /** Resolving in two steps is resolving once, when the later mines were not already resolved. */
  lemma ResolvedTwice(facts: seq<(set<Cell>, int)>, m1: set<Cell>, s1: set<Cell>, m2: set<Cell>, s2: set<Cell>)
    requires m2 !! m1 + s1
    ensures Resolved(Resolved(facts, m1, s1), m2, s2) == Resolved(facts, m1 + m2, s1 + s2)
  {
    var r, t := Resolved(Resolved(facts, m1, s1), m2, s2), Resolved(facts, m1 + m2, s1 + s2);
    forall i | 0 <= i < |facts| ensures r[i] == t[i] {
      SettleTwice(facts[i], m1, s1, m2, s2);
    }
  }

  lemma SettleTwice(fact: (set<Cell>, int), m1: set<Cell>, s1: set<Cell>, m2: set<Cell>, s2: set<Cell>)
    requires m2 !! m1 + s1
    ensures Settle(Settle(fact, m1, s1), m2, s2) == Settle(fact, m1 + m2, s1 + s2)
  {
    var c := fact.0;
    assert c - m1 - s1 - m2 - s2 == c - (m1 + m2) - (s1 + s2);
    assert (c - m1 - s1) * m2 == c * m2;
    assert c * (m1 + m2) == c * m1 + c * m2;
    assert c * m1 !! c * m2;
  }

  /** Resolving true mines and truly safe cells keeps everything known true. */
  lemma ResolvedKeepsTruth(mines: set<Cell>, safes: set<Cell>, facts: seq<(set<Cell>, int)>, M: set<Cell>,
                           mined: set<Cell>, cleared: set<Cell>)
    requires Holds(mines, safes, facts, M) && mined <= M && cleared !! M
    ensures Holds(mines + mined, safes + cleared, Resolved(facts, mined, cleared), M)
  {
    var r := Resolved(facts, mined, cleared);
    forall i | 0 <= i < |r| ensures Describes(r[i].0, r[i].1, M) {
      var c := facts[i].0;
      assert c * M == (c - mined - cleared) * M + c * mined;
      assert (c - mined - cleared) * M !! c * mined;
    }
  }

  /** A mark of one cell meets a sentence in that cell or in nothing. */
  lemma MeetOne(cells: set<Cell>, c: Cell)
    ensures |cells * {c}| == if c in cells then 1 else 0
  {
    if c in cells {
      assert cells * {c} == {c};
    } else {
      assert cells * {c} == {};
    }
  }

  /**
   * Everything true on every mine set that makes (mines, safes, facts) true
   * marks the cells mines' as mines and safes' as safe.
   */
  ghost predicate Entails(mines: set<Cell>, safes: set<Cell>, facts: seq<(set<Cell>, int)>,
                          mines': set<Cell>, safes': set<Cell>)
  {
    forall M :: Holds(mines, safes, facts, M) ==> mines' <= M && safes' !! M
  }

  /** A sound deduction followed by one sound on what it left is sound. */
  lemma EntailsChain(m0: set<Cell>, s0: set<Cell>, f0: seq<(set<Cell>, int)>,
                     m1: set<Cell>, s1: set<Cell>, m2: set<Cell>, s2: set<Cell>)
    requires m0 <= m1 && s0 <= s1
    requires Entails(m0, s0, f0, m1, s1)
    requires Entails(m1, s1, Resolved(f0, m1 - m0, s1 - s0), m2, s2)
    ensures Entails(m0, s0, f0, m2, s2)
  {
    forall M | Holds(m0, s0, f0, M) ensures m2 <= M && s2 !! M {
      ResolvedKeepsTruth(m0, s0, f0, M, m1 - m0, s1 - s0);
      assert m0 + (m1 - m0) == m1 && s0 + (s1 - s0) == s1;
    }
  }

  /**
   * What step 4 takes from one sentence: its known safe cells, then the
   * known mines of what is left of it once those are resolved.
   */
  function Yield(fact: (set<Cell>, int)): (r: (set<Cell>, set<Cell>))
    ensures r.0 <= fact.0 && r.1 <= fact.0
  {
    var cleared := SafesIn(fact);
    (MinesIn(Settle(fact, {}, cleared)), cleared)
  }

  /** The mines and safe cells marked after one more sentence's turn, `marked` being those marked before it. */
  function Turn(fact: (set<Cell>, int), marked: (set<Cell>, set<Cell>)): (set<Cell>, set<Cell>)
  {
    var y := Yield(Settle(fact, marked.0, marked.1));
    (marked.0 + y.0, marked.1 + y.1)
  }

  /**
   * The mines and safe cells step 4 has marked once it has gone through
   * the sentences from position k on, `marked` having been marked before:
   * each sentence, resolved against what was marked before its turn,
   * yields its cells in list order.
   */
  function Pass(facts: seq<(set<Cell>, int)>, k: nat, marked: (set<Cell>, set<Cell>)): (set<Cell>, set<Cell>)
    decreases |facts| - k
  {
    if k >= |facts| then marked else Pass(facts, k + 1, Turn(facts[k], marked))
  }

  /** `marks[k]` is what a pass over `facts` has marked before the turn of sentence k, for k up to n. */
  ghost predicate TracedUpTo(facts: seq<(set<Cell>, int)>, marks: seq<(set<Cell>, set<Cell>)>, n: nat)
  {
    n <= |facts| && |marks| == n + 1 && marks[0] == ({}, {}) &&
    forall k :: 0 <= k < n ==> marks[k + 1] == Turn(facts[k], marks[k])
  }

  /** The trace of a whole pass. */
  ghost predicate PassTrace(facts: seq<(set<Cell>, int)>, marks: seq<(set<Cell>, set<Cell>)>)
  {
    TracedUpTo(facts, marks, |facts|)
  }

  /** A trace grows by the next sentence's turn. */
  lemma TraceExtends(facts: seq<(set<Cell>, int)>, marks: seq<(set<Cell>, set<Cell>)>, n: nat)
    requires TracedUpTo(facts, marks, n) && n < |facts|
    ensures TracedUpTo(facts, marks + [Turn(facts[n], marks[n])], n + 1)
  {
    var next := marks + [Turn(facts[n], marks[n])];
    forall k | 0 <= k < n + 1 ensures next[k + 1] == Turn(facts[k], next[k]) {
      assert next[k] == marks[k];
    }
  }

  /** A pass's trace ends in what the pass marks. */
  lemma {:induction false} TraceIsPass(facts: seq<(set<Cell>, int)>, marks: seq<(set<Cell>, set<Cell>)>, k: nat)
    requires PassTrace(facts, marks) && k <= |facts|
    ensures Pass(facts, k, marks[k]) == marks[|facts|]
    decreases |facts| - k
  {
    if k < |facts| {
      TraceIsPass(facts, marks, k + 1);
    }
  }

  /**
   * Taking the mines after the safe cells are resolved yields what the
   * sentence as it stood already showed: a sentence never has both.
   */
  lemma YieldAtOnce(fact: (set<Cell>, int))
    ensures Yield(fact) == (MinesIn(fact), SafesIn(fact))
  {
  }

  /** Adding cells new to `now` to everything marked since `start`. */
  lemma MarkedSince(start: set<Cell>, now: set<Cell>, added: set<Cell>)
    requires start <= now && added !! now
    ensures (now + added) - now == added && (now - start) + added == (now + added) - start
  {
  }

  /** One sentence's turn, seen from the marks made since the pass began at `m0`, `s0`. */
  lemma TurnSince(fact: (set<Cell>, int), m0: set<Cell>, s0: set<Cell>, m1: set<Cell>, s1: set<Cell>, y: (set<Cell>, set<Cell>))
    requires m0 <= m1 && s0 <= s1 && y.0 !! m1 && y.1 !! s1
    requires y == Yield(Settle(fact, m1 - m0, s1 - s0))
    ensures Turn(fact, (m1 - m0, s1 - s0)) == ((m1 + y.0) - m0, (s1 + y.1) - s0)
  {
    MarkedSince(m0, m1, y.0);
    MarkedSince(s0, s1, y.1);
  }

  /** A resolved sentence that is true came from a sentence that was true, when the resolved cells were right. */
  lemma SettleReverse(fact: (set<Cell>, int), mined: set<Cell>, cleared: set<Cell>, M: set<Cell>)
    requires Describes(Settle(fact, mined, cleared).0, Settle(fact, mined, cleared).1, M)
    requires mined <= M && cleared !! M
    ensures Describes(fact.0, fact.1, M)
  {
    var c := fact.0;
    assert c * M == (c - mined - cleared) * M + c * mined;
    assert (c - mined - cleared) * M !! c * mined;
  }

  /** Step 5's new sentence from two earlier ones: distinct, the first's cells within the second's. */
  predicate Comparable(a: (set<Cell>, int), b: (set<Cell>, int))
  {
    a != b && a.0 <= b.0
  }

  function Difference(a: (set<Cell>, int), b: (set<Cell>, int)): (set<Cell>, int)
  {
    (b.0 - a.0, b.1 - a.1)
  }

  /** facts[k] is the difference of two comparable sentences before it. */
  ghost predicate DerivedAt(facts: seq<(set<Cell>, int)>, k: nat)
    requires k < |facts|
  {
    exists p, q :: 0 <= p < k && 0 <= q < k && Comparable(facts[p], facts[q]) && facts[k] == Difference(facts[p], facts[q])
  }

  /** Every sentence from position n on was derived, and none repeats an earlier one. */
  ghost predicate Inferred(facts: seq<(set<Cell>, int)>, n: nat)
  {
    n <= |facts| && forall k :: n <= k < |facts| ==> DerivedAt(facts, k) && facts[k] !in facts[..k]
  }

  /** Appending a new difference keeps the tail derived. */
  lemma InferredExtend(facts: seq<(set<Cell>, int)>, n: nat, p: nat, q: nat)
    requires Inferred(facts, n) && p < |facts| && q < |facts| && Comparable(facts[p], facts[q])
    requires Difference(facts[p], facts[q]) !in facts
    ensures Inferred(facts + [Difference(facts[p], facts[q])], n)
  {
    var r := facts + [Difference(facts[p], facts[q])];
    forall k | n <= k < |r| ensures DerivedAt(r, k) && r[k] !in r[..k] {
      assert r[..k] == if k < |facts| then facts[..k] else facts;
      if k < |facts| {
        var p', q' :| 0 <= p' < k && 0 <= q' < k && Comparable(facts[p'], facts[q']) && facts[k] == Difference(facts[p'], facts[q']);
        assert r[p'] == facts[p'] && r[q'] == facts[q'];
      } else {
        assert r[p] == facts[p] && r[q] == facts[q];
      }
    }
  }

  /** Derived sentences are true wherever the sentences they came from are. */
  lemma {:induction false} DerivedTrue(facts: seq<(set<Cell>, int)>, n: nat, k: nat, M: set<Cell>)
    requires Inferred(facts, n) && k < |facts|
    requires forall i :: 0 <= i < n ==> Describes(facts[i].0, facts[i].1, M)
    ensures Describes(facts[k].0, facts[k].1, M)
    decreases k
  {
    if k >= n {
      var p, q :| 0 <= p < k && 0 <= q < k && Comparable(facts[p], facts[q]) && facts[k] == Difference(facts[p], facts[q]);
      DerivedTrue(facts, n, p, M);
      DerivedTrue(facts, n, q, M);
      SubsetInference(facts[p].0, facts[p].1, facts[q].0, facts[q].1, M);
    }
  }

  /** The difference of every comparable pair (p, q) with p < upto and q < n of f0 is in facts. */
  ghost predicate CoversPairs(f0: seq<(set<Cell>, int)>, upto: nat, n: nat, facts: seq<(set<Cell>, int)>)
    requires upto <= n <= |f0|
  {
    forall p, q :: 0 <= p < upto && 0 <= q < n && Comparable(f0[p], f0[q]) ==> Difference(f0[p], f0[q]) in facts
  }

  /** Coverage survives growth of the list and extends by one row. */
  lemma CoversGrow(f0: seq<(set<Cell>, int)>, i: nat, n: nat, before: seq<(set<Cell>, int)>, after: seq<(set<Cell>, int)>)
    requires i < n <= |f0| && CoversPairs(f0, i, n, before) && before <= after
    requires forall q :: 0 <= q < n && Comparable(f0[i], f0[q]) ==> Difference(f0[i], f0[q]) in after
    ensures CoversPairs(f0, i + 1, n, after)
  {
    forall p, q | 0 <= p < i + 1 && 0 <= q < n && Comparable(f0[p], f0[q]) ensures Difference(f0[p], f0[q]) in after {
      if p < i {
        var k :| 0 <= k < |before| && before[k] == Difference(f0[p], f0[q]);
        assert after[k] == before[k];
      }
    }
  }

  /** Inference on a true knowledge base leaves it true. */
  lemma InferredKeepsTruth(mines: set<Cell>, safes: set<Cell>, facts: seq<(set<Cell>, int)>, n: nat, M: set<Cell>)
    requires Inferred(facts, n) && Holds(mines, safes, facts[..n], M)
    ensures Holds(mines, safes, facts, M)
  {
    forall k | 0 <= k < |facts| ensures Describes(facts[k].0, facts[k].1, M) {
      forall i | 0 <= i < n ensures Describes(facts[i].0, facts[i].1, M) {
        assert facts[..n][i] == facts[i];
      }
      DerivedTrue(facts, n, k, M);
    }
  }

  /** A true sentence added to true knowledge keeps it true. */
  lemma HoldsAppend(mines: set<Cell>, safes: set<Cell>, facts: seq<(set<Cell>, int)>, fact: (set<Cell>, int), M: set<Cell>)
    requires Holds(mines, safes, facts, M) && Describes(fact.0, fact.1, M)
    ensures Holds(mines, safes, facts + [fact], M)
  {
  }

  /**
   * Steps 4 and 5 keep true knowledge true: a sound deduction resolved into
   * the sentences, followed by sentences derived from them.
   */
  lemma InferenceKeepsTruth(m1: set<Cell>, s1: set<Cell>, f1: seq<(set<Cell>, int)>,
                            m2: set<Cell>, s2: set<Cell>, f2: seq<(set<Cell>, int)>, f3: seq<(set<Cell>, int)>, M: set<Cell>)
    requires Holds(m1, s1, f1, M) && m1 <= m2 && s1 <= s2
    requires Entails(m1, s1, f1, m2, s2) && f2 == Resolved(f1, m2 - m1, s2 - s1)
    requires f2 <= f3 && Inferred(f3, |f2|)
    ensures Holds(m2, s2, f3, M)
  {
    ResolvedKeepsTruth(m1, s1, f1, M, m2 - m1, s2 - s1);
    assert m1 + (m2 - m1) == m2 && s1 + (s2 - s1) == s2;
    assert f3[..|f2|] == f2;
    InferredKeepsTruth(m2, s2, f3, |f2|, M);
  }

  /** The cells around `cell` on the board that are neither known safe nor known mines. */
  function Unrevealed(cell: Cell, height: nat, width: nat, safes: set<Cell>, mines: set<Cell>): set<Cell>
  {
    set c | c in Neighbours(cell) && InBounds(c, height, width) && c !in safes && c !in mines
  }

  /**
   * The knowledge after steps 1 to 3 of taking in `count` at `cell`: every
   * sentence drops the cell, then the sentence over the cell's unknown
   * neighbours follows when there are any.
   */
  function Observed(facts: seq<(set<Cell>, int)>, cell: Cell, count: int, height: nat, width: nat,
                    safes: set<Cell>, mines: set<Cell>): seq<(set<Cell>, int)>
  {
    Resolved(facts, {}, {cell}) +
    var unknown := Unrevealed(cell, height, width, safes + {cell}, mines);
    if |unknown| > 0 then [(unknown, count)] else []
  }

  /**
   * On a board whose known mines and safe cells are right, the mines around
   * `cell` are those among its unrevealed neighbours plus its neighbours
   * already known to be mines.
   */
  lemma RevealedCount(cell: Cell, height: nat, width: nat, safes: set<Cell>, mines: set<Cell>, M: set<Cell>)
    requires forall c :: c in M ==> InBounds(c, height, width)
    requires mines <= M && safes !! M
    ensures |Neighbours(cell) * M| == |Unrevealed(cell, height, width, safes, mines) * M| + |Neighbours(cell) * mines|
  {
    var unknown := Unrevealed(cell, height, width, safes, mines) * M;
    var flagged := Neighbours(cell) * mines;
    assert Neighbours(cell) * M == unknown + flagged;
    assert unknown !! flagged;
  }

  /**
   * Whatever steps 4 and 5 later make of the sentence over the unrevealed
   * neighbours, a board on which it still holds has `count` mines among
   * those neighbours, and so `count` plus the known mines around the cell.
   */
  lemma ObservedCount(cell: Cell, count: int, height: nat, width: nat, safes: set<Cell>, mines: set<Cell>,
                      mined: set<Cell>, cleared: set<Cell>, M: set<Cell>)
    requires forall c :: c in M ==> InBounds(c, height, width)
    requires mines <= M && safes !! M && mined <= M && cleared !! M
    requires var fact := Settle((Unrevealed(cell, height, width, safes, mines), count), mined, cleared); Describes(fact.0, fact.1, M)
    ensures |Neighbours(cell) * M| == count + |Neighbours(cell) * mines|
  {
    SettleReverse((Unrevealed(cell, height, width, safes, mines), count), mined, cleared, M);
    RevealedCount(cell, height, width, safes, mines, M);
  }

  /**
   * Steps 1 to 3 keep true knowledge true when the count is revealed from a
   * safe cell with no neighbour already known to be a mine.
   */
  lemma ObservationTruth(cell: Cell, count: int, unknown: set<Cell>, mines: set<Cell>, safes: set<Cell>,
                         facts: seq<(set<Cell>, int)>, M: set<Cell>, height: nat, width: nat)
    requires Holds(mines, safes, facts, M) && cell !in M && Neighbours(cell) !! mines
    requires forall c :: c in M ==> InBounds(c, height, width)
    requires count == |Neighbours(cell) * M|
    requires forall c :: c in unknown <==> c in Neighbours(cell) && InBounds(c, height, width) && c !in safes + {cell} && c !in mines
    ensures Holds(mines, safes + {cell}, Resolved(facts, {}, {cell}) + if |unknown| > 0 then [(unknown, count)] else [], M)
  {
    ResolvedKeepsTruth(mines, safes, facts, M, {}, {cell});
    if |unknown| > 0 {
      NewSentenceTruth(cell, count, unknown, mines, safes + {cell}, M, height, width);
      HoldsAppend(mines, safes + {cell}, Resolved(facts, {}, {cell}), (unknown, count), M);
    }
  }

  /** Cell a comes before cell b, row by row. */
  predicate RowMajorBefore(a: Cell, b: Cell)
  {
    a.0 < b.0 || (a.0 == b.0 && a.1 < b.1)
  }

  /** No two positions of the list hold the same sentence object. */
  ghost predicate Distinct(ks: seq<Sentence>)
  {
    forall i, j :: 0 <= i < j < |ks| ==> ks[i] != ks[j]
  }

  /** The AI player: the moves made, the cells known safe or mined, and its sentences. */
  class MinesweeperAI {
    const height: nat
    const width: nat
    var movesMade: set<Cell>
    var mines: set<Cell>
    var safes: set<Cell>
    var knowledge: seq<Sentence>

    /** Sentences are separate objects, and none mentions a cell already known. */
    ghost predicate Valid()
      reads this, knowledge
    {
      Distinct(knowledge) &&
      forall i :: 0 <= i < |knowledge| ==> knowledge[i].cells !! mines + safes
    }

    /** What the AI holds, as values. */
    ghost function Facts(): seq<(set<Cell>, int)>
      reads this, knowledge
    {
      FactsOf(knowledge)
    }

    /** Everything the AI holds is true on the mine set M. */
    ghost predicate Truthful(M: set<Cell>)
      reads this, knowledge
    {
      Holds(mines, safes, Facts(), M)
    }

    /**
     * Since the facts f0 with mines m0 and safes s0, exactly the cells of
     * `mined` were marked mines and those of `cleared` safe.
     */
    ghost predicate Marked(m0: set<Cell>, s0: set<Cell>, f0: seq<(set<Cell>, int)>, mined: set<Cell>, cleared: set<Cell>)
      reads this, knowledge
    {
      Valid() && mines == m0 + mined && safes == s0 + cleared && Facts() == Resolved(f0, mined, cleared)
    }

    /**
     * The list still starts with the sentences k0, which still say f0, and
     * what follows position n was derived from what came before it.
     */
    ghost predicate Extended(k0: seq<Sentence>, f0: seq<(set<Cell>, int)>, n: nat)
      reads this, knowledge
    {
      Valid() && k0 <= knowledge && f0 <= Facts() && |f0| == |k0| && Inferred(Facts(), n)
    }

    /** A cell on the board not known to be safe or a mine. */
    predicate Unknown(c: Cell)
      reads this
    {
      InBounds(c, height, width) && c !in safes && c !in mines
    }

    /** The revealed count of `cell` is its number of neighbouring mines in M, a safe cell of the board. */
    ghost predicate Reveals(cell: Cell, count: int, M: set<Cell>)
    {
      OnBoard(M) && cell !in M && count == |Neighbours(cell) * M|
    }

    /** The mines of M lie on this AI's board. */
    ghost predicate OnBoard(M: set<Cell>)
    {
      forall c :: c in M ==> InBounds(c, height, width)
    }

    constructor (height: nat, width: nat)
      ensures this.height == height && this.width == width
      ensures movesMade == {} && mines == {} && safes == {} && knowledge == []
      ensures Valid()
    {
      this.height, this.width := height, width;
      movesMade, mines, safes, knowledge := {}, {}, {}, [];
    }

    /** Records a mine and removes it from every sentence, lowering their counts. */
    method MarkMine(cell: Cell)
      requires Valid()
      modifies this, knowledge
      ensures Valid() && knowledge == old(knowledge)
      ensures mines == old(mines) + {cell} && safes == old(safes) && movesMade == old(movesMade)
      ensures Facts() == Resolved(old(Facts()), {cell}, {})
    {
      ghost var f0 := Facts();
      mines := mines + {cell};
      MineInEach(knowledge, cell);
      FactsAre(knowledge, Resolved(f0, {cell}, {}));
    }

    /** Records a safe cell and removes it from every sentence. */
    method MarkSafe(cell: Cell)
      requires Valid()
      modifies this, knowledge
      ensures Valid() && knowledge == old(knowledge)
      ensures safes == old(safes) + {cell} && mines == old(mines) && movesMade == old(movesMade)
      ensures Facts() == Resolved(old(Facts()), {}, {cell})
    {
      ghost var f0 := Facts();
      safes := safes + {cell};
      SafeInEach(knowledge, cell);
      FactsAre(knowledge, Resolved(f0, {}, {cell}));
    }

    /** One more cell marked safe after the cells `done`. */
    method MarkSafeAfter(c: Cell, ghost m0: set<Cell>, ghost s0: set<Cell>, ghost f0: seq<(set<Cell>, int)>, ghost done: set<Cell>)
      requires Marked(m0, s0, f0, {}, done)
      modifies this, knowledge
      ensures knowledge == old(knowledge) && movesMade == old(movesMade)
      ensures Marked(m0, s0, f0, {}, done + {c})
    {
      MarkSafe(c);
      ResolvedTwice(f0, {}, done, {}, {c});
    }

    /** One more cell marked a mine after the cells `done`. */
    method MarkMineAfter(c: Cell, ghost m0: set<Cell>, ghost s0: set<Cell>, ghost f0: seq<(set<Cell>, int)>, ghost done: set<Cell>)
      requires Marked(m0, s0, f0, done, {}) && c !in done
      modifies this, knowledge
      ensures knowledge == old(knowledge) && movesMade == old(movesMade)
      ensures Marked(m0, s0, f0, done + {c}, {})
    {
      MarkMine(c);
      ResolvedTwice(f0, done, {}, {c}, {});
    }

    /** Marks every cell of `cells` safe, in any order. */
    method MarkAllSafe(cells: set<Cell>)
      requires Valid()
      modifies this, knowledge
      ensures Valid() && knowledge == old(knowledge)
      ensures safes == old(safes) + cells && mines == old(mines) && movesMade == old(movesMade)
      ensures Facts() == Resolved(old(Facts()), {}, cells)
    {
      ghost var f0 := Facts();
      ResolvedNothing(f0);
      var done := {};
      while done != cells
        invariant done <= cells && knowledge == old(knowledge) && movesMade == old(movesMade)
        invariant Marked(old(mines), old(safes), f0, {}, done)
        decreases |cells - done|
      {
        var c :| c in cells - done;
        MarkSafeAfter(c, old(mines), old(safes), f0, done);
        done := done + {c};
      }
    }

    /** Marks every cell of `cells` a mine, in any order. */
    method MarkAllMines(cells: set<Cell>)
      requires Valid()
      modifies this, knowledge
      ensures Valid() && knowledge == old(knowledge)
      ensures mines == old(mines) + cells && safes == old(safes) && movesMade == old(movesMade)
      ensures Facts() == Resolved(old(Facts()), cells, {})
    {
      ghost var f0 := Facts();
      ResolvedNothing(f0);
      var done := {};
      while done != cells
        invariant done <= cells && knowledge == old(knowledge) && movesMade == old(movesMade)
        invariant Marked(old(mines), old(safes), f0, done, {})
        decreases |cells - done|
      {
        var c :| c in cells - done;
        MarkMineAfter(c, old(mines), old(safes), f0, done);
        done := done + {c};
      }
    }

    /** Step 4, first half for one sentence: its known safe cells are marked safe. */
    method HandOverSafes(i: nat)
      requires Valid() && i < |knowledge|
      modifies this, knowledge
      ensures knowledge == old(knowledge) && movesMade == old(movesMade) && mines == old(mines)
      ensures safes == old(safes) + old(knowledge[i].KnownSafes()) && old(knowledge[i].KnownSafes()) == SafesIn(old(Facts())[i])
      ensures Marked(old(mines), old(safes), old(Facts()), {}, SafesIn(old(Facts())[i]))
      ensures Entails(old(mines), old(safes), old(Facts()), mines, safes)
    {
      ghost var m0, s0, f0 := mines, safes, Facts();
      var safe := knowledge[i].KnownSafes();
      forall M | Holds(m0, s0, f0, M) ensures safe !! M {
        assert f0[i] == (knowledge[i].cells, knowledge[i].count);
        KnownSafesSound(knowledge[i], M);
      }
      assert safe <= knowledge[i].cells;
      MarkAllSafe(safe);
      assert safes - s0 == safe;
    }

    /** Step 4, second half for one sentence: its known mines are marked mines. */
    method HandOverMines(i: nat)
      requires Valid() && i < |knowledge|
      modifies this, knowledge
      ensures knowledge == old(knowledge) && movesMade == old(movesMade) && safes == old(safes)
      ensures mines == old(mines) + old(knowledge[i].KnownMines()) && old(knowledge[i].KnownMines()) == MinesIn(old(Facts())[i])
      ensures MinesIn(old(Facts())[i]) !! old(mines) + safes
      ensures Marked(old(mines), old(safes), old(Facts()), MinesIn(old(Facts())[i]), {})
      ensures Entails(old(mines), old(safes), old(Facts()), mines, safes)
    {
      ghost var m0, s0, f0 := mines, safes, Facts();
      var mined := knowledge[i].KnownMines();
      forall M | Holds(m0, s0, f0, M) ensures mined <= M {
        assert f0[i] == (knowledge[i].cells, knowledge[i].count);
        KnownMinesSound(knowledge[i], M);
      }
      assert mined <= knowledge[i].cells;
      MarkAllMines(mined);
      assert mines - m0 == mined;
    }

    /** Step 4 for one sentence: its known safe cells, then its known mines as it then stands. */
    method DeduceFrom(i: nat) returns (ghost y: (set<Cell>, set<Cell>))
      requires Valid() && i < |knowledge|
      modifies this, knowledge
      ensures knowledge == old(knowledge) && movesMade == old(movesMade)
      ensures y == Yield(old(Facts())[i])
      ensures mines == old(mines) + y.0 && safes == old(safes) + y.1
      ensures y.0 !! old(mines) + safes && y.1 !! old(safes)
      ensures Marked(old(mines), old(safes), old(Facts()), y.0, y.1)
      ensures Entails(old(mines), old(safes), old(Facts()), mines, safes)
    {
      ghost var m0, s0, f0 := mines, safes, Facts();
      y := Yield(f0[i]);
      HandOverSafes(i);
      ghost var s1, f1 := safes, Facts();
      assert f1[i] == Settle(f0[i], {}, y.1);
      HandOverMines(i);
      ResolvedTwice(f0, {}, y.1, y.0, {});
      assert {} + y.0 == y.0 && y.1 + {} == y.1;
      assert s1 - s0 == y.1 && mines - m0 == y.0;
      EntailsChain(m0, s0, f0, m0, s1, mines, safes);
    }

    /** Step 4: every sentence in turn, in list order, hands over its known safe cells and mines. */
    method Deduce() returns (ghost marks: seq<(set<Cell>, set<Cell>)>)
      requires Valid()
      modifies this, knowledge
      ensures knowledge == old(knowledge) && movesMade == old(movesMade)
      ensures old(mines) <= mines && old(safes) <= safes
      ensures Marked(old(mines), old(safes), old(Facts()), mines - old(mines), safes - old(safes))
      ensures Entails(old(mines), old(safes), old(Facts()), mines, safes)
      ensures PassTrace(old(Facts()), marks) && marks[|old(Facts())|] == (mines - old(mines), safes - old(safes))
    {
      ghost var m0, s0, f0 := mines, safes, Facts();
      ResolvedNothing(f0);
      assert mines - m0 == {} && safes - s0 == {};
      marks := [({}, {})];
      var i := 0;
      while i < |knowledge|
        invariant 0 <= i <= |knowledge|
        invariant knowledge == old(knowledge) && movesMade == old(movesMade)
        invariant m0 <= mines && s0 <= safes
        invariant Marked(m0, s0, f0, mines - m0, safes - s0)
        invariant Entails(m0, s0, f0, mines, safes)
        invariant TracedUpTo(f0, marks, i) && marks[i] == (mines - m0, safes - s0)
        decreases |knowledge| - i
      {
        DeduceStep(i, m0, s0, f0);
        TraceExtends(f0, marks, i);
        marks := marks + [(mines - m0, safes - s0)];
        i := i + 1;
      }
    }

    /** One turn of step 4's loop, composed with the turns before it. */
    method DeduceStep(i: nat, ghost m0: set<Cell>, ghost s0: set<Cell>, ghost f0: seq<(set<Cell>, int)>)
      requires i < |knowledge| && m0 <= mines && s0 <= safes
      requires Marked(m0, s0, f0, mines - m0, safes - s0) && Entails(m0, s0, f0, mines, safes)
      modifies this, knowledge
      ensures knowledge == old(knowledge) && movesMade == old(movesMade)
      ensures m0 <= mines && s0 <= safes
      ensures Marked(m0, s0, f0, mines - m0, safes - s0) && Entails(m0, s0, f0, mines, safes)
      ensures i < |f0| && (mines - m0, safes - s0) == Turn(f0[i], (old(mines) - m0, old(safes) - s0))
    {
      ghost var m1, s1 := mines, safes;
      assert Facts()[i] == Settle(f0[i], m1 - m0, s1 - s0);
      ghost var y := DeduceFrom(i);
      StepCompose(m0, s0, f0, m1, s1, y);
      TurnSince(f0[i], m0, s0, m1, s1, y);
    }

    /** The marks of one turn, added to those made since the pass began. */
    lemma StepCompose(m0: set<Cell>, s0: set<Cell>, f0: seq<(set<Cell>, int)>, m1: set<Cell>, s1: set<Cell>, y: (set<Cell>, set<Cell>))
      requires m0 <= m1 && s0 <= s1 && y.0 !! m1 + s1 && y.1 !! s1
      requires Entails(m0, s0, f0, m1, s1)
      requires Marked(m1, s1, Resolved(f0, m1 - m0, s1 - s0), y.0, y.1)
      requires Entails(m1, s1, Resolved(f0, m1 - m0, s1 - s0), mines, safes)
      ensures m0 <= mines && s0 <= safes
      ensures Marked(m0, s0, f0, mines - m0, safes - s0) && Entails(m0, s0, f0, mines, safes)
    {
      ResolvedTwice(f0, m1 - m0, s1 - s0, y.0, y.1);
      MarkedSince(m0, m1, y.0);
      MarkedSince(s0, s1, y.1);
      EntailsChain(m0, s0, f0, m1, s1, mines, safes);
    }

    /** Whether some sentence says exactly `count` of `cells` are mines (list membership by value). */
    method Contains(cells: set<Cell>, count: int) returns (found: bool)
      ensures found <==> (cells, count) in Facts()
    {
      found := false;
      var k := 0;
      while k < |knowledge| && !found
        invariant 0 <= k <= |knowledge|
        invariant found ==> 0 < k && knowledge[k - 1].cells == cells && knowledge[k - 1].count == count
        invariant !found ==> forall j :: 0 <= j < k ==> Facts()[j] != (cells, count)
        decreases |knowledge| - k
      {
        found := knowledge[k].cells == cells && knowledge[k].count == count;
        k := k + 1;
      }
      if found {
        assert Facts()[k - 1] == (cells, count);
      }
    }

    /**
     * One pair of step 5: when sentence i differs from sentence j and its
     * cells lie within j's, their difference is appended unless some
     * sentence already says it.
     */
    method ConsiderPair(i: nat, j: nat, ghost k0: seq<Sentence>, ghost f0: seq<(set<Cell>, int)>, ghost n: nat)
      requires Extended(k0, f0, n) && i < |k0| && j < |k0|
      modifies this
      ensures mines == old(mines) && safes == old(safes) && movesMade == old(movesMade)
      ensures Extended(k0, f0, n) && old(Facts()) <= Facts()
      ensures Comparable(f0[i], f0[j]) ==> Difference(f0[i], f0[j]) in Facts()
    {
      assert Facts()[i] == f0[i] && Facts()[j] == f0[j];
      if !knowledge[i].SameAs(knowledge[j]) && knowledge[i].cells <= knowledge[j].cells {
        var cells, count := knowledge[j].cells - knowledge[i].cells, knowledge[j].count - knowledge[i].count;
        var found := Contains(cells, count);
        if !found {
          ghost var before := Facts();
          assert cells !! mines + safes && (cells, count) == Difference(before[i], before[j]);
          InferredExtend(before, n, i, j);
          Push(cells, count);
        }
      }
    }

    /** Step 5's inner loop for sentence i, against every sentence listed when it starts. */
    method InferFrom(i: nat, ghost k0: seq<Sentence>, ghost f0: seq<(set<Cell>, int)>, ghost n: nat)
      requires Extended(k0, f0, n) && i < |k0|
      modifies this
      ensures mines == old(mines) && safes == old(safes) && movesMade == old(movesMade)
      ensures Extended(k0, f0, n) && old(Facts()) <= Facts()
      ensures forall q :: 0 <= q < |old(knowledge)| && Comparable(f0[i], old(Facts())[q]) ==>
        Difference(f0[i], old(Facts())[q]) in Facts()
    {
      ghost var k1, f1 := knowledge, Facts();
      var m := |knowledge|;
      var j := 0;
      while j < m
        invariant 0 <= j <= m == |k1| == |f1|
        invariant mines == old(mines) && safes == old(safes) && movesMade == old(movesMade)
        invariant Extended(k0, f0, n) && Extended(k1, f1, n)
        invariant forall q :: 0 <= q < j && Comparable(f0[i], f1[q]) ==> Difference(f0[i], f1[q]) in Facts()
        decreases m - j
      {
        ghost var before := Facts();
        ConsiderPair(i, j, k1, f1, n);
        assert f1[i] == f0[i];
        forall q | 0 <= q < j && Comparable(f0[i], f1[q]) ensures Difference(f0[i], f1[q]) in Facts() {
          assert Difference(f0[i], f1[q]) in before;
        }
        j := j + 1;
      }
    }

    /**
     * Step 5: for every sentence listed at the start and every sentence
     * listed when its turn comes, the difference of a distinct sentence
     * whose cells lie within another's is added unless already known.
     */
    method InferFromSubsets()
      requires Valid()
      modifies this
      ensures Valid() && mines == old(mines) && safes == old(safes) && movesMade == old(movesMade)
      ensures old(knowledge) <= knowledge && old(Facts()) <= Facts()
      ensures Inferred(Facts(), |old(knowledge)|)
      ensures forall p, q :: 0 <= p < |old(knowledge)| && 0 <= q < |old(knowledge)| && Comparable(old(Facts())[p], old(Facts())[q]) ==>
        Difference(old(Facts())[p], old(Facts())[q]) in Facts()
    {
      ghost var k0, f0 := knowledge, Facts();
      var n := |knowledge|;
      var i := 0;
      while i < n
        invariant 0 <= i <= n == |k0|
        invariant mines == old(mines) && safes == old(safes) && movesMade == old(movesMade)
        invariant Extended(k0, f0, n) && CoversPairs(f0, i, n, Facts())
        decreases n - i
      {
        InferStep(i, k0, f0, n);
        i := i + 1;
      }
    }

    /** One turn of step 5's outer loop, composed with the turns before it. */
    method InferStep(i: nat, ghost k0: seq<Sentence>, ghost f0: seq<(set<Cell>, int)>, ghost n: nat)
      requires Extended(k0, f0, n) && i < n == |k0| && CoversPairs(f0, i, n, Facts())
      modifies this
      ensures mines == old(mines) && safes == old(safes) && movesMade == old(movesMade)
      ensures Extended(k0, f0, n) && CoversPairs(f0, i + 1, n, Facts())
    {
      ghost var before := Facts();
      InferFrom(i, k0, f0, n);
      assert forall q :: 0 <= q < n ==> before[q] == f0[q];
      CoversGrow(f0, i, n, before, Facts());
    }

    /** Step 3's cells: the neighbours of `cell` on the board not yet known safe or mined. */
    method UnknownNeighbours(cell: Cell) returns (unknown: set<Cell>)
      ensures forall c :: c in unknown <==> c in Neighbours(cell) && Unknown(c)
    {
      unknown := {};
      var i := cell.0 - 1;
      while i < cell.0 + 2
        invariant cell.0 - 1 <= i <= cell.0 + 2
        invariant forall c :: c in unknown <==> c in Neighbours(cell) && Unknown(c) && c.0 < i
        decreases cell.0 + 2 - i
      {
        var j := cell.1 - 1;
        while j < cell.1 + 2
          invariant cell.1 - 1 <= j <= cell.1 + 2
          invariant forall c :: c in unknown <==>
            c in Neighbours(cell) && Unknown(c) && (c.0 < i || (c.0 == i && c.1 < j))
          decreases cell.1 + 2 - j
        {
          if (i, j) != cell && 0 <= i < height && 0 <= j < width && (i, j) !in safes && (i, j) !in mines {
            unknown := unknown + {(i, j)};
          }
          j := j + 1;
        }
        i := i + 1;
      }
    }

    /** A new sentence goes at the end of the list. */
    method Push(cells: set<Cell>, count: int)
      requires Valid() && cells !! mines + safes
      modifies this
      ensures Valid() && mines == old(mines) && safes == old(safes) && movesMade == old(movesMade)
      ensures old(knowledge) <= knowledge && |knowledge| == |old(knowledge)| + 1 && fresh(knowledge[|old(knowledge)|])
      ensures Facts() == old(Facts()) + [(cells, count)]
    {
      var sentence := new Sentence(cells, count);
      knowledge := knowledge + [sentence];
    }

    /** Step 3's sentence is added when it has any cells. */
    method AppendSentence(cells: set<Cell>, count: int)
      requires Valid() && cells !! mines + safes
      modifies this
      ensures Valid() && mines == old(mines) && safes == old(safes) && movesMade == old(movesMade)
      ensures old(knowledge) <= knowledge && forall k :: |old(knowledge)| <= k < |knowledge| ==> fresh(knowledge[k])
      ensures Facts() == old(Facts()) + if |cells| > 0 then [(cells, count)] else []
    {
      if |cells| > 0 {
        Push(cells, count);
      }
    }

    /**
     * Steps 1 to 3 of taking in a revealed count: the move is recorded, the
     * cell marked safe, and a sentence over its unknown neighbours added
     * (when there are any) with the count as revealed.
     */
    method Observe(cell: Cell, count: int)
      requires Valid()
      modifies this, knowledge
      ensures Valid()
      ensures movesMade == old(movesMade) + {cell} && mines == old(mines) && safes == old(safes) + {cell}
      ensures old(knowledge) <= knowledge && forall k :: |old(knowledge)| <= k < |knowledge| ==> fresh(knowledge[k])
      ensures Facts() == Observed(old(Facts()), cell, count, height, width, old(safes), old(mines))
      ensures forall M :: Holds(old(mines), old(safes), old(Facts()), M) && Reveals(cell, count, M) && Neighbours(cell) !! old(mines) ==>
        Truthful(M)
    {
      ghost var m0, s0, f0 := mines, safes, Facts();
      movesMade := movesMade + {cell};
      MarkSafe(cell);
      ghost var f1 := Facts();
      var unknown := UnknownNeighbours(cell);
      AppendSentence(unknown, count);
      assert unknown == Unrevealed(cell, height, width, s0 + {cell}, m0);
      ghost var f2 := Resolved(f0, {}, {cell}) + if |unknown| > 0 then [(unknown, count)] else [];
      assert Facts() == f2 && mines == m0 && safes == s0 + {cell};
      forall M | Holds(m0, s0, f0, M) && Reveals(cell, count, M) && Neighbours(cell) !! m0 ensures Holds(m0, s0 + {cell}, f2, M) {
        ObservationTruth(cell, count, unknown, m0, s0, f0, M, height, width);
      }
    }

    /**
     * Steps 4 and 5 of taking in a revealed count: every sentence held
     * before is still held, resolved against the cells newly known, and
     * whatever was true of the knowledge before is true of it after.
     */
    method Conclude() returns (ghost marks: seq<(set<Cell>, set<Cell>)>)
      requires Valid()
      modifies this, knowledge
      ensures Valid() && movesMade == old(movesMade)
      ensures old(mines) <= mines && old(safes) <= safes && old(knowledge) <= knowledge
      ensures PassTrace(old(Facts()), marks) && marks[|old(Facts())|] == (mines - old(mines), safes - old(safes))
      ensures |old(Facts())| <= |Facts()|
      ensures Facts()[..|old(Facts())|] == Resolved(old(Facts()), mines - old(mines), safes - old(safes))
      ensures Inferred(Facts(), |old(Facts())|)
      ensures forall p, q :: 0 <= p < |old(Facts())| && 0 <= q < |old(Facts())| && Comparable(Facts()[p], Facts()[q]) ==>
        Difference(Facts()[p], Facts()[q]) in Facts()
      ensures forall M :: Holds(old(mines), old(safes), old(Facts()), M) ==> Truthful(M)
    {
      ghost var m1, s1, f1 := mines, safes, Facts();
      marks := Deduce();
      ghost var f2 := Facts();
      InferFromSubsets();
      forall M | Holds(m1, s1, f1, M) ensures Truthful(M) {
        InferenceKeepsTruth(m1, s1, f1, mines, safes, f2, Facts(), M);
      }
    }

    /**
     * The board reports `count` mines around the safe cell `cell`: steps 1
     * to 3, then steps 4 and 5 once each.
     */
    method AddKnowledge(cell: Cell, count: int)
      requires Valid()
      modifies this, knowledge
      ensures Valid()
      ensures movesMade == old(movesMade) + {cell} && cell in safes
      ensures old(mines) <= mines && old(safes) <= safes && old(knowledge) <= knowledge
      ensures forall M :: Holds(old(mines), old(safes), old(Facts()), M) && Reveals(cell, count, M) && Neighbours(cell) !! old(mines) ==>
        Truthful(M)
      ensures Unrevealed(cell, height, width, old(safes) + {cell}, old(mines)) != {} ==>
        forall M :: OnBoard(M) && Truthful(M) ==> |Neighbours(cell) * M| == count + |Neighbours(cell) * old(mines)|
      ensures var f1 := Observed(old(Facts()), cell, count, height, width, old(safes), old(mines));
        exists marks :: PassTrace(f1, marks) && marks[|f1|] == (mines - old(mines), safes - (old(safes) + {cell}))
      ensures var f1 := Observed(old(Facts()), cell, count, height, width, old(safes), old(mines));
        |f1| <= |Facts()| && Facts()[..|f1|] == Resolved(f1, mines - old(mines), safes - (old(safes) + {cell}))
      ensures Inferred(Facts(), |Observed(old(Facts()), cell, count, height, width, old(safes), old(mines))|)
      ensures var f1 := Observed(old(Facts()), cell, count, height, width, old(safes), old(mines));
        forall p, q :: 0 <= p < |f1| && 0 <= q < |f1| && Comparable(Facts()[p], Facts()[q]) ==>
          Difference(Facts()[p], Facts()[q]) in Facts()
    {
      ghost var m0, s0, f0 := mines, safes, Facts();
      Observe(cell, count);
      ghost var m1, s1, f1 := mines, safes, Facts();
      ghost var marks := Conclude();
      ghost var unknown := Unrevealed(cell, height, width, s0 + {cell}, m0);
      if unknown != {} {
        ghost var n := |f0|;
        assert f1[n] == (unknown, count);
        assert Facts()[n] == Facts()[..|f1|][n] == Settle(f1[n], mines - m1, safes - s1);
        forall M | OnBoard(M) && Truthful(M) ensures |Neighbours(cell) * M| == count + |Neighbours(cell) * m0| {
          assert Describes(Facts()[n].0, Facts()[n].1, M);
          ObservedCount(cell, count, height, width, s1, m1, mines - m1, safes - s1, M);
        }
      }
    }

    /** A cell known safe and not yet played, if there is one. */
    method MakeSafeMove() returns (move: Option<Cell>)
      ensures move.Some? ==> move.value in safes && move.value !in movesMade
      ensures move.None? <==> safes <= movesMade
    {
      if c :| c in safes && c !in movesMade {
        move := Some(c);
      } else {
        move := None;
      }
    }

    /**
     * The first cell in row-major order that is neither a known mine nor
     * already played, if there is one.
     */
    method MakeRandomMove() returns (move: Option<Cell>)
      ensures move.Some? ==> InBounds(move.value, height, width) && move.value !in mines && move.value !in movesMade
      ensures move.Some? ==> forall c :: InBounds(c, height, width) && RowMajorBefore(c, move.value) ==> c in mines || c in movesMade
      ensures move.None? <==> forall c :: InBounds(c, height, width) ==> c in mines || c in movesMade
    {
      var i := 0;
      while i < height
        invariant 0 <= i <= height
        invariant forall c :: InBounds(c, height, width) && c.0 < i ==> c in mines || c in movesMade
        decreases height - i
      {
        var j := 0;
        while j < width
          invariant 0 <= j <= width
          invariant forall c :: InBounds(c, height, width) && (c.0 < i || (c.0 == i && c.1 < j)) ==> c in mines || c in movesMade
          decreases width - j
        {
          if (i, j) !in mines && (i, j) !in movesMade {
            return Some((i, j));
          }
          j := j + 1;
        }
        i := i + 1;
      }
      return None;
    }
  }
}
