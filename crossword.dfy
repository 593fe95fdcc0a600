/**
 * The puzzle structure that the crossword solver consumes: its slots
 * ("variables"), its vocabulary and the overlap map between crossing slots.
 * The loader that builds it from a structure file and a word list is not part
 * of this model; a structure is given as a value.
 */
module Crossword {

  datatype Direction = Across | Down

  /** A slot of the grid: start row `i`, start column `j`, direction, length. */
  datatype Variable = Variable(i: nat, j: nat, direction: Direction, length: nat)

  type Word = string

  /** Character offsets (offset in the first slot, offset in the second). */
  type Offsets = (nat, nat)

  /** The grid cell holding character `k` of slot `v`. */
  function Cell(v: Variable, k: nat): (int, int)
  {
    (v.i + (if v.direction == Down then k else 0),
     v.j + (if v.direction == Across then k else 0))
  }

  /** Different letters of one slot occupy different cells, so a word never overwrites itself. */
  lemma CellsDistinct(v: Variable, k: nat, l: nat)
    requires Cell(v, k) == Cell(v, l)
    ensures k == l
  {
    if v.direction == Down {
      assert Cell(v, k).0 == v.i + k && Cell(v, l).0 == v.i + l;
    } else {
      assert Cell(v, k).1 == v.j + k && Cell(v, l).1 == v.j + l;
    }
  }

  /**
   * A puzzle: grid size, slots, vocabulary and overlaps. A pair of slots
   * missing from `overlaps` is a pair whose overlap is None.
   */
  datatype Crossword = Crossword(
    height: nat,
    width: nat,
    variables: set<Variable>,
    words: set<Word>,
    overlaps: map<(Variable, Variable), Offsets>)
  {
    /** The slots that cross `v`. */
    function Neighbors(v: Variable): set<Variable>
    {
      set w | w in variables && w != v && (v, w) in overlaps
    }

    /** Every recorded overlap is between two distinct slots and names one shared cell. */
    ghost predicate OverlapsRecorded()
    {
      forall p :: p in overlaps ==>
        p.0 in variables && p.1 in variables && p.0 != p.1 &&
        overlaps[p].0 < p.0.length && overlaps[p].1 < p.1.length &&
        Cell(p.0, overlaps[p].0) == Cell(p.1, overlaps[p].1)
    }

    /** Every cell shared by two distinct slots is recorded, at its offsets. */
    ghost predicate CrossingsRecorded()
    {
      forall v, w, a: nat, b: nat {:trigger Cell(v, a), Cell(w, b)} ::
        v in variables && w in variables && v != w &&
        a < v.length && b < w.length && Cell(v, a) == Cell(w, b) ==>
          (v, w) in overlaps && overlaps[(v, w)] == (a, b)
    }

    /** What the structure loader establishes once and never re-derives. */
    ghost predicate WellFormed()
    {
      OverlapsRecorded() && CrossingsRecorded()
    }
  }

  /** The overlap relation is symmetric, with the offsets swapped. */
  lemma OverlapsSymmetric(cw: Crossword, x: Variable, y: Variable)
    requires cw.WellFormed() && (x, y) in cw.overlaps
    ensures (y, x) in cw.overlaps
    ensures cw.overlaps[(y, x)] == (cw.overlaps[(x, y)].1, cw.overlaps[(x, y)].0)
    ensures x in cw.Neighbors(y) && y in cw.Neighbors(x)
  {
    var (a, b) := cw.overlaps[(x, y)];
    assert Cell(y, b) == Cell(x, a);
  }
}
