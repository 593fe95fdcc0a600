/**
 * What the crossword solver computes, stated as functions and predicates over
 * domains (slot -> candidate words) and assignments (slot -> word), with the
 * lemmas that the solver's correctness rests on.
 */
module Csp {
  import opened Crossword

  type Domains = map<Variable, set<Word>>
  type Assignment = map<Variable, Word>

  /** A directed arc (x, y): make x consistent with y. */
  type Arc = (Variable, Variable)

  // ----- Node consistency -----

  /** The words of `words` that fit a slot of length `n`. */
  function OfLength(words: set<Word>, n: nat): set<Word>
  {
    set w | w in words && |w| == n
  }

  /** Every candidate has the length of its slot. */
  ghost predicate NodeConsistent(D: Domains)
  {
    forall v, w :: v in D && w in D[v] ==> |w| == v.length
  }

  /** The words of x and y are long enough to be read at the overlap of (x, y). */
  ghost predicate OffsetsFit(cw: Crossword, D: Domains, x: Variable, y: Variable)
    requires x in D && y in D
  {
    (x, y) in cw.overlaps ==>
      (forall w :: w in D[x] ==> cw.overlaps[(x, y)].0 < |w|) &&
      (forall w :: w in D[y] ==> cw.overlaps[(x, y)].1 < |w|)
  }

  /** Every overlap can be read in every candidate: no index error is possible. */
  ghost predicate OffsetsInRange(cw: Crossword, D: Domains)
  {
    forall x, y :: x in D && y in D ==> OffsetsFit(cw, D, x, y)
  }

  /** Domains only ever lose words. */
  ghost predicate Shrunk(before: Domains, after: Domains)
  {
    after.Keys == before.Keys && forall v :: v in after ==> after[v] <= before[v]
  }

  /** No domain that had words before has been emptied. */
  ghost predicate NoneEmptied(before: Domains, after: Domains)
  {
    forall v :: v in before && before[v] != {} ==> v in after && after[v] != {}
  }

  /** Replacing one domain by a non-empty set, or by itself, empties nothing. */
  lemma UpdateEmptiesNothing(before: Domains, x: Variable, words: set<Word>)
    requires x in before && (words != {} || words == before[x])
    ensures NoneEmptied(before, before[x := words])
  {
  }

  lemma NoneEmptiedChain(a: Domains, b: Domains, c: Domains)
    requires NoneEmptied(a, b) && NoneEmptied(b, c)
    ensures NoneEmptied(a, c)
  {
  }

  /** Once node consistent, a well-formed puzzle can read every overlap. */
  lemma NodeConsistentFits(cw: Crossword, D: Domains)
    requires cw.WellFormed() && NodeConsistent(D)
    ensures OffsetsInRange(cw, D)
  {
  }

  /** Shrinking domains keeps every overlap readable. */
  lemma ShrunkFits(cw: Crossword, before: Domains, after: Domains)
    requires OffsetsInRange(cw, before) && Shrunk(before, after)
    ensures OffsetsInRange(cw, after)
  {
    forall x, y | x in after && y in after ensures OffsetsFit(cw, after, x, y) {
      assert OffsetsFit(cw, before, x, y);
    }
  }

  // ----- Arc consistency -----

  /** Word `j` supports word `i` across offsets (a, b): they differ and agree there. */
  predicate Supports(i: Word, j: Word, a: nat, b: nat)
  {
    i != j && a < |i| && b < |j| && i[a] == j[b]
  }

  predicate HasSupport(i: Word, ys: set<Word>, a: nat, b: nat)
  {
    exists j :: j in ys && Supports(i, j, a, b)
  }

  /** The domain of x once made arc consistent with y. */
  function Revised(cw: Crossword, D: Domains, x: Variable, y: Variable): set<Word>
    requires x in D && y in D
  {
    if (x, y) in cw.overlaps then
      set i | i in D[x] && HasSupport(i, D[y], cw.overlaps[(x, y)].0, cw.overlaps[(x, y)].1)
    else D[x]
  }

  /** Every candidate of x has a supporting candidate in y. */
  ghost predicate ArcConsistent(cw: Crossword, D: Domains, x: Variable, y: Variable)
    requires x in D && y in D
  {
    (x, y) in cw.overlaps ==>
      forall i :: i in D[x] ==> HasSupport(i, D[y], cw.overlaps[(x, y)].0, cw.overlaps[(x, y)].1)
  }

  /** All directed arcs of the puzzle: (x, y) for every y crossing x. */
  ghost function AllArcs(cw: Crossword): set<Arc>
  {
    set x, y | x in cw.variables && y in cw.Neighbors(x) :: (x, y)
  }

  ghost predicate ArcsConsistent(cw: Crossword, D: Domains)
  {
    forall x, y :: (x, y) in AllArcs(cw) && x in D && y in D ==> ArcConsistent(cw, D, x, y)
  }

  /** Revision only removes words, and afterwards the arc (x, y) holds. */
  lemma ReviseSound(cw: Crossword, D: Domains, x: Variable, y: Variable)
    requires x in D && y in D && x != y
    ensures Revised(cw, D, x, y) <= D[x]
    ensures ArcConsistent(cw, D[x := Revised(cw, D, x, y)], x, y)
  {
  }

  /** A second revision against an unchanged domain of y removes nothing more. */
  lemma ReviseIdempotent(cw: Crossword, D: Domains, x: Variable, y: Variable)
    requires x in D && y in D && x != y
    ensures Revised(cw, D[x := Revised(cw, D, x, y)], x, y) == Revised(cw, D, x, y)
  {
  }

  /**
   * The words revision removes from x support no word of y, so the reverse
   * arc (y, x) survives the revision of (x, y).
   */
  lemma ReverseArcSurvives(cw: Crossword, D: Domains, x: Variable, y: Variable)
    requires cw.WellFormed() && x in D && y in D && x != y
    requires ArcConsistent(cw, D, y, x)
    ensures ArcConsistent(cw, D[x := Revised(cw, D, x, y)], y, x)
  {
    if (y, x) in cw.overlaps {
      OverlapsSymmetric(cw, y, x);
      var R := Revised(cw, D, x, y);
      var (b, a) := cw.overlaps[(y, x)];
      forall j | j in D[y] ensures HasSupport(j, R, b, a) {
        var i :| i in D[x] && Supports(j, i, b, a);
        assert Supports(i, j, a, b);
        assert i in R;
      }
    }
  }

  /** Every arc of the puzzle that is not waiting in `queue` holds in D. */
  ghost predicate CoveredExcept(cw: Crossword, D: Domains, queue: seq<Arc>)
  {
    forall a :: a in AllArcs(cw) && a !in queue ==>
      a.0 in D && a.1 in D && ArcConsistent(cw, D, a.0, a.1)
  }

  /** Pruning from `before` to `after` kept every word that a solution uses. */
  ghost predicate KeepsSolutions(cw: Crossword, before: Domains, after: Domains)
  {
    forall A :: IsSolution(cw, A) && Within(A, before) ==> Within(A, after)
  }

  /**
   * The AC-3 worklist step: after popping (x, y) and revising it, every arc
   * outside the new queue still holds, provided the queue keeps the rest and,
   * when x lost a word, gains (z, x) for every other neighbour z of x.
   */
  lemma ReviseKeepsCoverage(cw: Crossword, D: Domains, x: Variable, y: Variable, rest: seq<Arc>, queue: seq<Arc>)
    requires cw.WellFormed() && cw.variables <= D.Keys && x in D && y in D && x != y
    requires CoveredExcept(cw, D, rest + [(x, y)])
    requires forall a :: a in rest ==> a in queue
    requires Revised(cw, D, x, y) != D[x] ==> forall z :: z in cw.Neighbors(x) && z != y ==> (z, x) in queue
    ensures CoveredExcept(cw, D[x := Revised(cw, D, x, y)], queue)
  {
    var D' := D[x := Revised(cw, D, x, y)];
    forall a | a in AllArcs(cw) && a !in queue
      ensures a.0 in D' && a.1 in D' && ArcConsistent(cw, D', a.0, a.1)
    {
      var (p, q) := a;
      assert a !in rest;
      if a == (x, y) {
        ReviseSound(cw, D, x, y);
      } else if q == x && p == y {
        assert a !in rest + [(x, y)];
        ReverseArcSurvives(cw, D, x, y);
      } else if q == x {
        assert a !in rest + [(x, y)];
        OverlapsSymmetric(cw, p, x);
        assert Revised(cw, D, x, y) == D[x];
        assert D' == D;
      } else {
        assert a !in rest + [(x, y)];
        assert ArcConsistent(cw, D, p, q);
      }
    }
  }

  /** With nothing left in the queue, every arc holds. */
  lemma CoveredAll(cw: Crossword, D: Domains)
    requires CoveredExcept(cw, D, [])
    ensures ArcsConsistent(cw, D)
  {
  }

  /** The (variable, word) pairs still possible; AC-3 terminates because this set shrinks. */
  ghost function Entries(D: Domains): set<(Variable, Word)>
  {
    set v, w | v in D && w in D[v] :: (v, w)
  }

  lemma EntriesShrink(D: Domains, x: Variable, s: set<Word>)
    requires x in D && s < D[x]
    ensures Entries(D[x := s]) < Entries(D)
  {
    var w :| w in D[x] && w !in s;
    assert (x, w) in Entries(D);
  }

  // ----- Assignments -----

  /** Every slot holds a word of the vocabulary. */
  ghost predicate Complete(cw: Crossword, A: Assignment)
  {
    forall v :: v in cw.variables ==> v in A && A[v] in cw.words
  }

  /** The letters of wx and wy at offsets `o` can be read and differ. */
  predicate Disagree(wx: Word, wy: Word, o: Offsets)
  {
    o.0 < |wx| && o.1 < |wy| && wx[o.0] != wy[o.1]
  }

  /** Lengths fit, no word is used twice, and crossing slots agree. */
  ghost predicate Consistent(cw: Crossword, A: Assignment)
  {
    (forall v :: v in A ==> |A[v]| == v.length) &&
    (forall v, w :: v in A && w in A && v != w ==> A[v] != A[w]) &&
    (forall v, w :: v in A && w in A && v != w && (v, w) in cw.overlaps ==>
       !Disagree(A[v], A[w], cw.overlaps[(v, w)]))
  }

  ghost predicate IsSolution(cw: Crossword, A: Assignment)
  {
    Complete(cw, A) && Consistent(cw, A)
  }

  /** Every assigned word is still a candidate of its slot. */
  ghost predicate Within(A: Assignment, D: Domains)
  {
    forall v :: v in A ==> v in D && A[v] in D[v]
  }

  /** Node consistency never removes a word that a solution uses. */
  lemma NodeConsistencyKeepsSolution(cw: Crossword, D: Domains, A: Assignment)
    requires IsSolution(cw, A) && Within(A, D)
    ensures Within(A, map v | v in D :: OfLength(D[v], v.length))
  {
  }

  /** Revision never removes a word that a solution uses. */
  lemma ReviseKeepsSolution(cw: Crossword, D: Domains, x: Variable, y: Variable, A: Assignment)
    requires cw.WellFormed() && x in D && y in D && x != y
    requires x in cw.variables && y in cw.variables
    requires IsSolution(cw, A) && Within(A, D)
    ensures Within(A, D[x := Revised(cw, D, x, y)])
  {
    if (x, y) in cw.overlaps {
      var (a, b) := cw.overlaps[(x, y)];
      assert Supports(A[x], A[y], a, b);
    }
  }

  /** Two successive prunings are one pruning. */
  lemma PruningComposes(cw: Crossword, D0: Domains, D1: Domains, D2: Domains)
    requires Shrunk(D0, D1) && Shrunk(D1, D2)
    requires KeepsSolutions(cw, D0, D1) && KeepsSolutions(cw, D1, D2)
    ensures Shrunk(D0, D2) && KeepsSolutions(cw, D0, D2)
  {
  }

  /** In a consistent assignment two slots sharing a grid cell write the same letter there. */
  lemma SharedCellAgrees(cw: Crossword, A: Assignment, v: Variable, k: nat, w: Variable, l: nat)
    requires cw.WellFormed() && Consistent(cw, A) && A.Keys <= cw.variables
    requires v in A && w in A && k < |A[v]| && l < |A[w]| && Cell(v, k) == Cell(w, l)
    ensures A[v][k] == A[w][l]
  {
    if v != w {
      assert (v, w) in cw.overlaps && cw.overlaps[(v, w)] == (k, l);
      assert !Disagree(A[v], A[w], (k, l));
    }
  }

  // ----- Search heuristics -----

  /**
   * How many candidates of unassigned neighbours of `x` the word `word` rules
   * out: pairs (neighbour, candidate) whose letter differs at the overlap.
   */
  ghost function RuledOut(cw: Crossword, D: Domains, x: Variable, word: Word, A: Assignment): nat
  {
    |RuledOutPairs(cw, D, x, word, A)|
  }

  ghost function RuledOutPairs(cw: Crossword, D: Domains, x: Variable, word: Word, A: Assignment): set<(Variable, Word)>
  {
    set n, w | n in cw.Neighbors(x) && n !in A && n in D && w in D[n] &&
               (x, n) in cw.overlaps && Disagree(word, w, cw.overlaps[(x, n)]) :: (n, w)
  }

  /** v is at least as good a pick as w: fewer candidates, or as many and at least as many neighbours. */
  predicate PreferredOver(cw: Crossword, D: Domains, v: Variable, w: Variable)
    requires v in D && w in D
  {
    |D[v]| < |D[w]| || (|D[v]| == |D[w]| && |cw.Neighbors(v)| >= |cw.Neighbors(w)|)
  }

  /** Every word of s has a key. */
  predicate Keyed(s: seq<Word>, key: map<Word, nat>)
  {
    forall x :: x in s ==> x in key
  }

  predicate SortedBy(s: seq<Word>, key: map<Word, nat>)
    requires Keyed(s, key)
  {
    forall p, q :: 0 <= p < q < |s| ==> key[s[p]] <= key[s[q]]
  }

  /** Every word of s has a key of at least k. */
  predicate KeysAtLeast(k: nat, s: seq<Word>, key: map<Word, nat>)
    requires Keyed(s, key)
  {
    forall q :: 0 <= q < |s| ==> k <= key[s[q]]
  }

  /** A word whose key bounds a sorted sequence from below can go in front of it. */
  lemma SortedCons(h: Word, s: seq<Word>, key: map<Word, nat>)
    requires h in key && Keyed(s, key)
    requires SortedBy(s, key) && KeysAtLeast(key[h], s, key)
    ensures SortedBy([h] + s, key)
  {
    forall p, q | 0 <= p < q < |[h] + s| ensures key[([h] + s)[p]] <= key[([h] + s)[q]] {
      if p > 0 {
        assert ([h] + s)[p] == s[p - 1] && ([h] + s)[q] == s[q - 1];
      } else {
        assert ([h] + s)[q] == s[q - 1];
      }
    }
  }

  /** A lower bound on the keys of s and of w is one on any rearrangement of s with w. */
  lemma KeysAtLeastMoved(k: nat, s: seq<Word>, w: Word, r: seq<Word>, key: map<Word, nat>)
    requires w in key && Keyed(s, key) && Keyed(r, key)
    requires KeysAtLeast(k, s, key) && k <= key[w]
    requires multiset(r) == multiset(s) + multiset{w}
    ensures KeysAtLeast(k, r, key)
  {
    forall q | 0 <= q < |r| ensures k <= key[r[q]] {
      assert r[q] in multiset(r);
      if r[q] != w {
        assert r[q] in multiset(s);
        var p :| 0 <= p < |s| && s[p] == r[q];
      }
    }
  }

  /** Putting the head of s back in front of a rearrangement of its tail and w rearranges s and w. */
  lemma ConsMultiset(s: seq<Word>, rest: seq<Word>, w: Word)
    requires s != [] && multiset(rest) == multiset(s[1..]) + multiset{w}
    ensures multiset([s[0]] + rest) == multiset(s) + multiset{w}
  {
    assert s == [s[0]] + s[1..];
  }

  /** Insert w into a sorted sequence, before the first element whose key is not smaller. */
  function InsertBy(w: Word, s: seq<Word>, key: map<Word, nat>): (r: seq<Word>)
    requires w in key && Keyed(s, key) && SortedBy(s, key)
    ensures multiset(r) == multiset(s) + multiset{w}
    ensures Keyed(r, key) && SortedBy(r, key)
  {
    if s == [] || key[w] <= key[s[0]] then
      SortedCons(w, s, key);
      [w] + s
    else
      var rest := InsertBy(w, s[1..], key);
      KeysAtLeastMoved(key[s[0]], s[1..], w, rest, key);
      SortedCons(s[0], rest, key);
      ConsMultiset(s, rest, w);
      [s[0]] + rest
  }

  /** A stable insertion sort of `s`, ascending by `key`. */
  function SortBy(s: seq<Word>, key: map<Word, nat>): (r: seq<Word>)
    requires Keyed(s, key)
    ensures multiset(r) == multiset(s)
    ensures Keyed(r, key) && SortedBy(r, key)
  {
    if s == [] then []
    else
      assert s == [s[0]] + s[1..];
      InsertBy(s[0], SortBy(s[1..], key), key)
  }
}
