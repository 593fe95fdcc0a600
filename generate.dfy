/**
 * The crossword constraint-satisfaction solver: a domain per slot, node
 * consistency, AC-3 arc consistency and backtracking search with the MRV /
 * degree and least-constraining-value heuristics.
 */
module Generate {
  import opened Wrappers
  import opened Crossword
  import opened Csp

  /** The assignment dictionary that backtracking search shares across its recursive calls. */
  class AssignmentBox {
    var contents: Assignment

    constructor ()
      ensures contents == map[]
    {
      contents := map[];
    }
  }

  /** Every earlier binding is still there, with the same word. */
  ghost predicate Extends(before: Assignment, after: Assignment)
  {
    forall v :: v in before ==> v in after && after[v] == before[v]
  }

  /**
   * The index of the first candidate for x, from index k on, that leaves `A`
   * consistent when bound; |values| when there is none.
   */
  ghost function FirstAccepted(cw: Crossword, A: Assignment, x: Variable, values: seq<Word>, k: nat): (j: nat)
    requires k <= |values|
    ensures k <= j <= |values|
    decreases |values| - k
  {
    if k == |values| then k
    else if Consistent(cw, A[x := values[k]]) then k
    else FirstAccepted(cw, A, x, values, k + 1)
  }

  /** The first accepted candidate, when there is one, is accepted. */
  lemma {:induction false} AcceptedAt(cw: Crossword, A: Assignment, x: Variable, values: seq<Word>, k: nat)
    requires k <= |values|
    ensures var j := FirstAccepted(cw, A, x, values, k); j < |values| ==> Consistent(cw, A[x := values[j]])
    decreases |values| - k
  {
    if k < |values| && !Consistent(cw, A[x := values[k]]) {
      AcceptedAt(cw, A, x, values, k + 1);
    }
  }

  /** Every candidate before the first accepted one is rejected. */
  lemma {:induction false} RejectedBefore(cw: Crossword, A: Assignment, x: Variable, values: seq<Word>, k: nat, i: nat)
    requires k <= |values| && k <= i < FirstAccepted(cw, A, x, values, k)
    ensures !Consistent(cw, A[x := values[i]])
    decreases i - k
  {
    if k < i {
      RejectedBefore(cw, A, x, values, k + 1, i);
    }
  }

  /** Starting the scan at any index up to the first accepted candidate finds the same candidate. */
  lemma {:induction false} FirstAcceptedFrom(cw: Crossword, A: Assignment, x: Variable, values: seq<Word>, k: nat, i: nat)
    requires k <= |values| && k <= i <= FirstAccepted(cw, A, x, values, k)
    ensures FirstAccepted(cw, A, x, values, i) == FirstAccepted(cw, A, x, values, k)
    decreases i - k
  {
    if k < i {
      FirstAcceptedFrom(cw, A, x, values, k + 1, i);
    }
  }

  /** Rebinding x changes nothing outside x. */
  lemma Rebind(A: Assignment, x: Variable, w: Word, rest: Assignment)
    requires A - {x} == rest
    ensures A[x := w] == rest[x := w] && A[x := w] - {x} == rest
  {
    assert A[x := w] == rest[x := w];
    assert A[x := w] - {x} == rest;
  }

  /**
   * What iteration n of the candidate loop leaves behind, given what
   * `TryValue` promises about binding values[n] in the assignment `before`.
   * Until the first accepted candidate only x differs from `entry`; after
   * it, that candidate was not a solution outright.
   */
  lemma CandidateOutcome(cw: Crossword, entry: Assignment, x: Variable, values: seq<Word>, n: nat,
                         before: Assignment, after: Assignment, found: bool)
    requires n < |values|
    requires n <= FirstAccepted(cw, entry, x, values, 0) ==> before - {x} == entry
    requires var j := FirstAccepted(cw, entry, x, values, 0); j < n ==> !IsSolution(cw, entry[x := values[j]])
    requires found ==> Extends(before[x := values[n]], after)
    requires !Consistent(cw, before[x := values[n]]) ==> !found && after == before[x := values[n]]
    requires IsSolution(cw, before[x := values[n]]) ==> found && after == before[x := values[n]]
    ensures found ==> x in after && after[x] == values[n] && FirstAccepted(cw, entry, x, values, 0) <= n
    ensures found && FirstAccepted(cw, entry, x, values, 0) == n && IsSolution(cw, entry[x := values[n]]) ==>
      after == entry[x := values[n]]
    ensures var j := FirstAccepted(cw, entry, x, values, 0);
      !found ==> (n + 1 <= j ==> after - {x} == entry) && (j < n + 1 ==> !IsSolution(cw, entry[x := values[j]]))
  {
    var j := FirstAccepted(cw, entry, x, values, 0);
    if n <= j {
      Rebind(before, x, values[n], entry);
      FirstAcceptedFrom(cw, entry, x, values, 0, n);
    }
  }

  lemma FewerUnassigned(vars: set<Variable>, before: set<Variable>, after: set<Variable>, v: Variable)
    requires before + {v} <= after && v in vars && v !in before
    ensures |vars - after| < |vars - before|
  {
    var small, big := vars - after, vars - before;
    assert small <= big - {v};
    assert big - {v} == small + ((big - {v}) - small);
  }

  class CrosswordCreator {
    const crossword: Crossword
    var domains: Domains

    /** Every slot has a domain, and domains hold vocabulary words only. */
    ghost predicate Valid()
      reads this
    {
      domains.Keys == crossword.variables &&
      forall v :: v in domains ==> domains[v] <= crossword.words
    }

    /** Each slot starts with its own copy of the whole vocabulary. */
    constructor (crossword: Crossword)
      ensures Valid() && this.crossword == crossword
      ensures domains == map v | v in crossword.variables :: crossword.words
    {
      this.crossword := crossword;
      domains := map v | v in crossword.variables :: crossword.words;
    }

    /** Removes from every domain the words whose length differs from the slot's. */
    method EnforceNodeConsistency()
      requires Valid()
      modifies this
      ensures Valid() && NodeConsistent(domains)
      ensures domains.Keys == old(domains).Keys
      ensures forall v :: v in domains ==> domains[v] == OfLength(old(domains)[v], v.length)
    {
      var todo := domains.Keys;
      while todo != {}
        invariant todo <= domains.Keys && domains.Keys == old(domains).Keys
        invariant forall v :: v in domains && v !in todo ==> domains[v] == OfLength(old(domains)[v], v.length)
        invariant forall v :: v in todo ==> domains[v] == old(domains)[v]
        invariant Valid()
        decreases todo
      {
        var variable :| variable in todo;
        var words := domains[variable];
        var wtr: set<Word> := {};
        var rest := words;
        while rest != {}
          invariant rest <= words
          invariant forall w :: w in wtr <==> w in words && w !in rest && |w| != variable.length
          decreases rest
        {
          var word :| word in rest;
          if |word| != variable.length {
            wtr := wtr + {word};
          }
          rest := rest - {word};
        }
        assert words - wtr == OfLength(words, variable.length);
        domains := domains[variable := words - wtr];
        todo := todo - {variable};
      }
    }

    /**
     * Makes x arc consistent with y: removes from x's domain every word that
     * no other word of y's domain matches at the overlap. Reports whether a
     * word was removed.
     */
    method Revise(x: Variable, y: Variable) returns (revised: bool)
      requires Valid() && x in domains && y in domains && x != y
      requires OffsetsFit(crossword, domains, x, y)
      modifies this
      ensures Valid()
      ensures domains == old(domains)[x := Revised(crossword, old(domains), x, y)]
      ensures ArcConsistent(crossword, domains, x, y)
      ensures revised <==> domains[x] < old(domains)[x]
      ensures !revised ==> domains == old(domains)
      ensures (x, y) !in crossword.overlaps ==> !revised
    {
      revised := false;
      if (x, y) !in crossword.overlaps {
        assert domains[x := domains[x]] == domains;
      } else {
        var (v1, v2) := crossword.overlaps[(x, y)];
        var toRemove: set<Word> := {};
        var pending := domains[x];
        while pending != {}
          invariant pending <= domains[x] && domains == old(domains)
          invariant forall i :: i in toRemove <==> i in domains[x] && i !in pending && !HasSupport(i, domains[y], v1, v2)
          decreases pending
        {
          var i :| i in pending;
          var overlaps := false;
          var candidates := domains[y];
          while candidates != {}
            invariant candidates <= domains[y]
            invariant overlaps ==> HasSupport(i, domains[y], v1, v2)
            invariant !overlaps ==> forall j :: j in domains[y] && j !in candidates ==> !Supports(i, j, v1, v2)
            decreases candidates
          {
            var j :| j in candidates;
            if i != j && i[v1] == j[v2] {
              overlaps := true;
              break;
            }
            candidates := candidates - {j};
          }
          if !overlaps {
            toRemove := toRemove + {i};
          }
          pending := pending - {i};
        }
        assert domains[x] - toRemove == Revised(crossword, domains, x, y);
        if toRemove == {} {
          assert domains[x] - toRemove == domains[x];
          assert domains[x := domains[x]] == domains;
        } else {
          var gone :| gone in toRemove;
          assert gone !in domains[x] - toRemove;
          domains := domains[x := domains[x] - toRemove];
          revised := true;
        }
      }
    }

    /** The arcs AC-3 starts from when given none: (v1, v2) for every v2 crossing v1. */
    method InitialArcs() returns (arcs: seq<Arc>)
      ensures forall a :: a in arcs <==> a in AllArcs(crossword)
    {
      arcs := [];
      var vars := crossword.variables;
      while vars != {}
        invariant vars <= crossword.variables
        invariant forall a :: a in arcs <==> a in AllArcs(crossword) && a.0 !in vars
        decreases vars
      {
        var v1 :| v1 in vars;
        var ns := crossword.Neighbors(v1);
        while ns != {}
          invariant ns <= crossword.Neighbors(v1)
          invariant forall a :: a in arcs <==>
            (a in AllArcs(crossword) && a.0 !in vars) ||
            (a.0 == v1 && a.1 in crossword.Neighbors(v1) && a.1 !in ns)
          decreases ns
        {
          var v2 :| v2 in ns;
          arcs := [(v1, v2)] + arcs;
          ns := ns - {v2};
        }
        vars := vars - {v1};
      }
    }

    /** Pushes on the left of `queue` the arc (z, x) for every neighbour z of x other than y. */
    method RequeueNeighbors(queue: seq<Arc>, x: Variable, y: Variable) returns (q: seq<Arc>)
      ensures forall a :: a in q <==> a in queue || (a.1 == x && a.0 in crossword.Neighbors(x) && a.0 != y)
      ensures |q| >= |queue| && q[|q| - |queue|..] == queue
    {
      q := queue;
      var zs := crossword.Neighbors(x) - {y};
      while zs != {}
        invariant zs <= crossword.Neighbors(x) - {y}
        invariant |q| >= |queue| && q[|q| - |queue|..] == queue
        invariant forall a :: a in q <==> a in queue || (a.1 == x && a.0 in crossword.Neighbors(x) - {y} - zs)
        decreases zs
      {
        var z :| z in zs;
        q := [(z, x)] + q;
        zs := zs - {z};
      }
    }

    /** The arcs of `queue` are pairs of distinct slots of the puzzle. */
    ghost predicate PuzzleArcs(queue: seq<Arc>)
    {
      forall a :: a in queue ==> a.0 in crossword.variables && a.1 in crossword.variables && a.0 != a.1
    }

    /**
     * AC-3 over a double-ended worklist: pops an arc from the right, revises
     * it, fails as soon as a revised domain is empty, and otherwise pushes on
     * the left the arcs (z, x) of the other neighbours z of x.
     */
    method Ac3(arcs: Option<seq<Arc>>) returns (ok: bool)
      requires Valid() && crossword.WellFormed() && OffsetsInRange(crossword, domains)
      requires arcs.Some? ==> PuzzleArcs(arcs.value)
      modifies this
      ensures Valid() && OffsetsInRange(crossword, domains)
      ensures Shrunk(old(domains), domains) && KeepsSolutions(crossword, old(domains), domains)
      ensures !ok ==> exists v :: v in domains && domains[v] == {} && old(domains)[v] != {}
      ensures ok ==> NoneEmptied(old(domains), domains)
      ensures ok && arcs.None? ==> ArcsConsistent(crossword, domains)
      ensures ok && arcs.Some? && CoveredExcept(crossword, old(domains), arcs.value) ==>
        ArcsConsistent(crossword, domains)
    {
      var queue: seq<Arc>;
      if arcs.None? {
        queue := InitialArcs();
      } else {
        queue := arcs.value;
      }
      ghost var covered := CoveredExcept(crossword, domains, queue);
      while queue != []
        invariant Valid() && OffsetsInRange(crossword, domains) && PuzzleArcs(queue)
        invariant Shrunk(old(domains), domains) && KeepsSolutions(crossword, old(domains), domains)
        invariant covered ==> CoveredExcept(crossword, domains, queue)
        invariant NoneEmptied(old(domains), domains)
        decreases Entries(domains), |queue|
      {
        ghost var before := domains;
        var emptied;
        queue, emptied := Ac3Step(queue, covered);
        PruningComposes(crossword, old(domains), before, domains);
        if !emptied {
          NoneEmptiedChain(old(domains), before, domains);
        }
        if emptied {
          ghost var v :| v in domains && domains[v] == {} && before[v] != {};
          assert v in old(domains) && before[v] <= old(domains)[v];
          return false;
        }
      }
      if covered {
        CoveredAll(crossword, domains);
      }
      return true;
    }

    /**
     * One turn of the AC-3 loop: pops the rightmost arc (x, y) and revises it;
     * if x lost words, reports whether its domain is now empty and, if not,
     * queues (z, x) for the other neighbours z of x.
     */
    method Ac3Step(queue: seq<Arc>, ghost covered: bool) returns (next: seq<Arc>, emptied: bool)
      requires Valid() && crossword.WellFormed() && OffsetsInRange(crossword, domains)
      requires queue != [] && PuzzleArcs(queue)
      requires covered ==> CoveredExcept(crossword, domains, queue)
      modifies this
      ensures Valid() && OffsetsInRange(crossword, domains) && PuzzleArcs(next)
      ensures Shrunk(old(domains), domains) && KeepsSolutions(crossword, old(domains), domains)
      ensures emptied ==> exists v :: v in domains && domains[v] == {} && old(domains)[v] != {}
      ensures !emptied ==> NoneEmptied(old(domains), domains)
      ensures !emptied ==> covered ==> CoveredExcept(crossword, domains, next)
      ensures !emptied ==>
        (Entries(domains) < Entries(old(domains)) || (domains == old(domains) && |next| < |queue|))
    {
      var (x, y) := queue[|queue| - 1];
      var rest := queue[..|queue| - 1];
      assert queue == rest + [(x, y)];
      next, emptied := rest, false;
      assert OffsetsFit(crossword, domains, x, y);
      var changed := Revise(x, y);
      RevisePrunes(old(domains), x, y);
      ShrunkFits(crossword, old(domains), domains);
      if changed {
        EntriesShrink(old(domains), x, domains[x]);
        if |domains[x]| == 0 {
          emptied := true;
          assert domains[x] == {} && old(domains)[x] != {};
          return;
        }
        next := RequeueNeighbors(rest, x, y);
      }
      UpdateEmptiesNothing(old(domains), x, domains[x]);
      if covered {
        ReviseKeepsCoverage(crossword, old(domains), x, y, rest, next);
      }
    }

    /** One revision inside AC-3 only shrinks domains and keeps every solution's words. */
    lemma RevisePrunes(before: Domains, x: Variable, y: Variable)
      requires crossword.WellFormed() && x in before && y in before && x != y
      requires x in crossword.variables && y in crossword.variables
      requires domains == before[x := Revised(crossword, before, x, y)]
      ensures Shrunk(before, domains)
      ensures KeepsSolutions(crossword, before, domains)
    {
      ReviseSound(crossword, before, x, y);
      forall A | IsSolution(crossword, A) && Within(A, before) ensures Within(A, domains) {
        ReviseKeepsSolution(crossword, before, x, y, A);
      }
    }

    /** Whether every slot holds a word of the vocabulary. */
    method AssignmentComplete(A: Assignment) returns (complete: bool)
      ensures complete <==> Complete(crossword, A)
    {
      var todo := crossword.variables;
      while todo != {}
        invariant todo <= crossword.variables
        invariant forall v :: v in crossword.variables && v !in todo ==> v in A && A[v] in crossword.words
        decreases todo
      {
        var variable :| variable in todo;
        if variable !in A || A[variable] !in crossword.words {
          return false;
        }
        todo := todo - {variable};
      }
      return true;
    }

    /**
     * Whether the words fit: each has its slot's length, no two slots hold the
     * same word, and crossing slots agree on their shared letter. An overlap
     * offset past the end of a word is not compared; such a word already has
     * the wrong length.
     */
    method IsConsistent(A: Assignment) returns (ok: bool)
      ensures ok <==> Consistent(crossword, A)
    {
      var xs := A.Keys;
      while xs != {}
        invariant xs <= A.Keys
        invariant forall v :: v in A && v !in xs ==> |A[v]| == v.length
        invariant forall v, w :: v in A && v !in xs && w in A && v != w ==> A[v] != A[w]
        invariant forall v, w :: v in A && v !in xs && w in A && v != w && (v, w) in crossword.overlaps ==>
          !Disagree(A[v], A[w], crossword.overlaps[(v, w)])
        decreases xs
      {
        var vx :| vx in xs;
        var wx := A[vx];
        if vx.length != |wx| {
          return false;
        }
        var ys := A.Keys;
        while ys != {}
          invariant ys <= A.Keys
          invariant forall w :: w in A && w !in ys && vx != w ==> wx != A[w]
          invariant forall w :: w in A && w !in ys && vx != w && (vx, w) in crossword.overlaps ==>
            !Disagree(wx, A[w], crossword.overlaps[(vx, w)])
          decreases ys
        {
          var vy :| vy in ys;
          var wy := A[vy];
          if vx != vy {
            if wx == wy {
              return false;
            }
            if (vx, vy) in crossword.overlaps {
              var (a, b) := crossword.overlaps[(vx, vy)];
              if a < |wx| && b < |wy| && wx[a] != wy[b] {
                return false;
              }
            }
          }
          ys := ys - {vy};
        }
        xs := xs - {vx};
      }
      return true;
    }

    /**
     * The unassigned slot with the fewest candidates, ties broken towards the
     * slot with the most neighbours; None when every slot is assigned.
     */
    method SelectUnassignedVariable(A: Assignment) returns (r: Option<Variable>)
      requires Valid()
      ensures r.None? <==> crossword.variables <= A.Keys
      ensures r.Some? ==> r.value in crossword.variables && r.value !in A
      ensures r.Some? ==> forall v :: v in crossword.variables && v !in A ==>
        PreferredOver(crossword, domains, r.value, v)
    {
      r := None;
      var todo := crossword.variables;
      while todo != {}
        invariant todo <= crossword.variables
        invariant r.None? <==> crossword.variables - todo <= A.Keys
        invariant r.Some? ==> r.value in crossword.variables && r.value !in A && r.value !in todo
        invariant r.Some? ==> forall v :: v in crossword.variables && v !in todo && v !in A ==>
          PreferredOver(crossword, domains, r.value, v)
        decreases todo
      {
        var variable :| variable in todo;
        if variable !in A {
          if r.None? || !PreferredOver(crossword, domains, r.value, variable) {
            r := Some(variable);
          }
        }
        todo := todo - {variable};
      }
    }


    /**
     * How many candidates of the unassigned neighbours of x the word `word`
     * rules out: one for every (neighbour, candidate) pair whose letter at
     * the overlap differs.
     */
    method CountRuledOut(x: Variable, word: Word, A: Assignment) returns (count: nat)
      requires Valid() && x in domains && word in domains[x] && OffsetsInRange(crossword, domains)
      ensures count == RuledOut(crossword, domains, x, word, A)
    {
      ghost var all := RuledOutPairs(crossword, domains, x, word, A);
      ghost var counted: set<(Variable, Word)> := {};
      count := 0;
      var todo := crossword.Neighbors(x) - A.Keys;
      while todo != {}
        invariant todo <= crossword.Neighbors(x) - A.Keys
        invariant forall p :: p in counted <==> p in all && p.0 !in todo
        invariant count == |counted|
        decreases todo
      {
        var neighbor :| neighbor in todo;
        assert OffsetsFit(crossword, domains, x, neighbor);
        var (a, b) := crossword.overlaps[(x, neighbor)];
        var candidates := domains[neighbor];
        while candidates != {}
          invariant candidates <= domains[neighbor]
          invariant forall p :: p in counted <==>
            p in all && (p.0 !in todo || (p.0 == neighbor && p.1 !in candidates))
          invariant count == |counted|
          decreases candidates
        {
          var w :| w in candidates;
          if word[a] != w[b] {
            assert (neighbor, w) in all && (neighbor, w) !in counted;
            counted := counted + {(neighbor, w)};
            count := count + 1;
          }
          candidates := candidates - {w};
        }
        todo := todo - {neighbor};
      }
      assert counted == all;
    }

    /**
     * The candidates of x, least constraining first: a permutation of its
     * domain, ascending by how many neighbour candidates each rules out.
     */
    method OrderDomainValues(x: Variable, A: Assignment) returns (r: seq<Word>)
      requires Valid() && x in crossword.variables && OffsetsInRange(crossword, domains)
      ensures multiset(r) == multiset(domains[x])
      ensures forall p, q :: 0 <= p < q < |r| ==>
        RuledOut(crossword, domains, x, r[p], A) <= RuledOut(crossword, domains, x, r[q], A)
    {
      var words, key := ScoreCandidates(x, A);
      r := SortBy(words, key);
    }

    /** Lists the candidates of x, each scored by how many neighbour candidates it rules out. */
    method ScoreCandidates(x: Variable, A: Assignment) returns (words: seq<Word>, key: map<Word, nat>)
      requires Valid() && x in crossword.variables && OffsetsInRange(crossword, domains)
      ensures multiset(words) == multiset(domains[x]) && Keyed(words, key)
      ensures forall w :: w in key ==> key[w] == RuledOut(crossword, domains, x, w, A)
    {
      words, key := [], map[];
      var todo := domains[x];
      while todo != {}
        invariant todo <= domains[x]
        invariant multiset(words) + multiset(todo) == multiset(domains[x])
        invariant Keyed(words, key)
        invariant forall w :: w in key ==> key[w] == RuledOut(crossword, domains, x, w, A)
        decreases todo
      {
        var word :| word in todo;
        var n := CountRuledOut(x, word, A);
        assert multiset(todo) == multiset(todo - {word}) + multiset{word};
        words := words + [word];
        key := key[word := n];
        todo := todo - {word};
      }
    }

    /** Assigned slots are slots of the puzzle, holding words of the vocabulary. */
    ghost predicate Placed(A: Assignment)
    {
      A.Keys <= crossword.variables && forall v :: v in A ==> A[v] in crossword.words
    }

    /** `after` keeps every binding of `before`, and binds new slots to candidates of their domains only. */
    ghost predicate Grows(before: Assignment, after: Assignment)
      reads this
    {
      Extends(before, after) &&
      forall v :: v in after && v !in before ==> v in domains && after[v] in domains[v]
    }

    lemma GrowsTransitive(a: Assignment, b: Assignment, c: Assignment)
      requires Grows(a, b) && Grows(b, c)
      ensures Grows(a, c)
    {
    }

    /** Binding x to one of its candidates grows the assignment without x. */
    lemma GrowsByBinding(a: Assignment, x: Variable, w: Word)
      requires x in domains && w in domains[x]
      ensures Grows(a - {x}, a[x := w])
    {
    }

    /** Valid, and every overlap can be read in every candidate: what the search relies on. */
    ghost predicate Searchable()
      reads this
    {
      Valid() && OffsetsInRange(crossword, domains)
    }

    /**
     * Backtracking search on the shared assignment in `box`: returns `box`
     * once it is complete, or null. Picks the next slot and tries its
     * candidates in order.
     */
    method Backtrack(box: AssignmentBox) returns (r: AssignmentBox?)
      requires Searchable() && Placed(box.contents)
      modifies box
      decreases |crossword.variables - box.contents.Keys|, 3
      ensures Placed(box.contents) && Grows(old(box.contents), box.contents)
      ensures r != null ==> r == box && Complete(crossword, box.contents)
      ensures r != null ==> box.contents == old(box.contents) || Consistent(crossword, box.contents)
      ensures Complete(crossword, old(box.contents)) ==> r == box && box.contents == old(box.contents)
    {
      var complete := AssignmentComplete(box.contents);
      if complete {
        return box;
      }
      var variable := SelectUnassignedVariable(box.contents);
      assert variable.Some?;
      var values := OrderDomainValues(variable.value, box.contents);
      forall w | w in values ensures w in domains[variable.value] {
        assert w in multiset(values);
      }
      r := TryValues(box, variable.value, values);
    }

    /**
     * The candidate loop of the search: tries each value for x in turn and
     * stops at the first that leads to a complete assignment.
     */
    method TryValues(box: AssignmentBox, x: Variable, values: seq<Word>) returns (r: AssignmentBox?)
      requires Searchable() && Placed(box.contents)
      requires x in crossword.variables && x !in box.contents
      requires forall w :: w in values ==> w in domains[x]
      modifies box
      decreases |crossword.variables - box.contents.Keys|, 2
      ensures Placed(box.contents) && Grows(old(box.contents), box.contents)
      ensures r != null ==> r == box && Complete(crossword, box.contents) && Consistent(crossword, box.contents)
      ensures r != null ==> x in box.contents && box.contents[x] in values
      ensures var j := FirstAccepted(crossword, old(box.contents), x, values, 0);
        j == |values| ==> r == null && box.contents - {x} == old(box.contents)
      ensures var j := FirstAccepted(crossword, old(box.contents), x, values, 0);
        j < |values| && IsSolution(crossword, old(box.contents)[x := values[j]]) ==> r == box && box.contents == old(box.contents)[x := values[j]]
    {
      ghost var entry := box.contents;
      ghost var j := FirstAccepted(crossword, entry, x, values, 0);
      ghost var solved := j < |values| && IsSolution(crossword, entry[x := values[j]]);
      var n := 0;
      while n < |values|
        invariant 0 <= n <= |values|
        invariant Placed(box.contents) && Grows(entry, box.contents)
        invariant n <= j ==> box.contents - {x} == entry
        invariant j < n ==> !solved
        decreases |values| - n
      {
        r := TryStep(box, x, values, n, entry);
        if r != null {
          return;
        }
        n := n + 1;
      }
      return null;
    }

    /** Iteration n of the candidate loop of `TryValues`, entered with the assignment `entry`. */
    method TryStep(box: AssignmentBox, x: Variable, values: seq<Word>, n: nat, ghost entry: Assignment)
      returns (r: AssignmentBox?)
      requires Searchable() && Placed(box.contents)
      requires x in crossword.variables && x !in entry && n < |values|
      requires forall w :: w in values ==> w in domains[x]
      requires Grows(entry, box.contents)
      requires n <= FirstAccepted(crossword, entry, x, values, 0) ==> box.contents - {x} == entry
      requires var j := FirstAccepted(crossword, entry, x, values, 0); j < n ==> !IsSolution(crossword, entry[x := values[j]])
      modifies box
      decreases |crossword.variables - entry.Keys|, 1
      ensures Placed(box.contents) && Grows(entry, box.contents)
      ensures r != null ==> r == box && Complete(crossword, box.contents) && Consistent(crossword, box.contents)
      ensures r != null ==> x in box.contents && box.contents[x] == values[n] && FirstAccepted(crossword, entry, x, values, 0) <= n
      ensures r != null && FirstAccepted(crossword, entry, x, values, 0) == n && IsSolution(crossword, entry[x := values[n]]) ==>
        box.contents == entry[x := values[n]]
      ensures var j := FirstAccepted(crossword, entry, x, values, 0);
        r == null ==> (n + 1 <= j ==> box.contents - {x} == entry) && (j < n + 1 ==> !IsSolution(crossword, entry[x := values[j]]))
    {
      ghost var before := box.contents;
      r := TryValue(box, x, values[n], entry.Keys);
      GrowsTransitive(entry, before - {x}, box.contents);
      CandidateOutcome(crossword, entry, x, values, n, before, box.contents, r != null);
    }

    /**
     * One candidate: binds x to `value` and, when the assignment is then
     * consistent, searches on. The binding is removed only after a search
     * that failed, so an inconsistent candidate stays bound until the next
     * one overwrites it.
     */
    method TryValue(box: AssignmentBox, x: Variable, value: Word, ghost searched: set<Variable>)
      returns (r: AssignmentBox?)
      requires Searchable() && Placed(box.contents)
      requires x in crossword.variables && value in domains[x]
      requires searched <= box.contents.Keys && x !in searched
      modifies box
      decreases |crossword.variables - searched|, 0
      ensures Placed(box.contents) && Grows(old(box.contents) - {x}, box.contents)
      ensures r != null ==> r == box && Complete(crossword, box.contents) && Consistent(crossword, box.contents)
      ensures r != null ==> Extends(old(box.contents)[x := value], box.contents)
      ensures !Consistent(crossword, old(box.contents)[x := value]) ==> r == null && box.contents == old(box.contents)[x := value]
      ensures r == null && Consistent(crossword, old(box.contents)[x := value]) ==> x !in box.contents
      ensures IsSolution(crossword, old(box.contents)[x := value]) ==> r == box && box.contents == old(box.contents)[x := value]
    {
      GrowsByBinding(box.contents, x, value);
      box.contents := box.contents[x := value];
      var ok := IsConsistent(box.contents);
      if ok {
        FewerUnassigned(crossword.variables, searched, box.contents.Keys, x);
        ghost var bound := box.contents;
        r := Backtrack(box);
        GrowsTransitive(old(box.contents) - {x}, bound, box.contents);
        if r != null {
          return;
        }
        box.contents := box.contents - {x};
      }
      r := null;
    }

    /**
     * Node consistency, then AC-3 (whose verdict is not consulted), then a
     * backtracking search from the empty assignment.
     */
    method Solve() returns (r: AssignmentBox?)
      requires Valid() && crossword.WellFormed()
      modifies this
      ensures Valid() && NodeConsistent(domains) && Shrunk(old(domains), domains)
      ensures KeepsSolutions(crossword, old(domains), domains)
      ensures ArcsConsistent(crossword, domains) || exists v :: v in domains && domains[v] == {}
      ensures r != null ==> fresh(r) && IsSolution(crossword, r.contents) && Within(r.contents, domains)
    {
      EnforceNodeConsistency();
      assert Shrunk(old(domains), domains) && KeepsSolutions(crossword, old(domains), domains);
      NodeConsistentFits(crossword, domains);
      ghost var pruned := domains;
      var arcConsistent := Ac3(None);
      PruningComposes(crossword, old(domains), pruned, domains);
      var box := new AssignmentBox();
      r := Backtrack(box);
    }

    /** Letter k of the word bound to v is written at grid cell c. */
    ghost predicate Covers(A: Assignment, v: Variable, k: nat, c: (int, int))
    {
      v in A && k < |A[v]| && Cell(v, k) == c
    }

    /** Every letter of every bound word lands inside the grid. */
    ghost predicate FitsGrid(A: Assignment)
    {
      forall v, k: nat :: v in A && k < |A[v]| ==>
        0 <= Cell(v, k).0 < crossword.height && 0 <= Cell(v, k).1 < crossword.width
    }

    /**
     * The grid of letters an assignment writes: None where no word passes,
     * otherwise the letter of a word through that cell (the last one written).
     * Crossing words of a consistent assignment write the same letter.
     */
    method LetterGrid(A: Assignment) returns (letters: seq<seq<Option<char>>>)
      requires FitsGrid(A)
      ensures |letters| == crossword.height
      ensures forall i :: 0 <= i < |letters| ==> |letters[i]| == crossword.width
      ensures forall i, j :: 0 <= i < crossword.height && 0 <= j < crossword.width ==>
        (letters[i][j].Some? <==> exists v, k: nat :: Covers(A, v, k, (i, j)))
      ensures forall i, j :: 0 <= i < crossword.height && 0 <= j < crossword.width && letters[i][j].Some? ==>
        exists v, k: nat :: Covers(A, v, k, (i, j)) && A[v][k] == letters[i][j].value
      ensures crossword.WellFormed() && Consistent(crossword, A) && A.Keys <= crossword.variables ==>
        forall v, k: nat :: v in A && k < |A[v]| ==> letters[Cell(v, k).0][Cell(v, k).1] == Some(A[v][k])
    {
      letters := seq(crossword.height, _ => seq(crossword.width, _ => None));
      ghost var agreeing := crossword.WellFormed() && Consistent(crossword, A) && A.Keys <= crossword.variables;
      ghost var writer: map<(int, int), (Variable, nat)> := map[];
      ghost var done: set<(Variable, nat)> := {};
      var todo := A.Keys;
      while todo != {}
        invariant todo <= A.Keys
        invariant Drawn(A, letters, writer, done, agreeing)
        invariant forall v, k: nat :: v in A && v !in todo && k < |A[v]| ==> (v, k) in done
        decreases todo
      {
        var variable :| variable in todo;
        letters, writer, done := DrawWord(A, letters, variable, writer, done, agreeing);
        todo := todo - {variable};
      }
      DrawnAll(A, letters, writer, done, agreeing);
    }

    /** Writes the letters of v's word into the grid, one cell after another. */
    method DrawWord(A: Assignment, letters: seq<seq<Option<char>>>, v: Variable,
                    ghost writer: map<(int, int), (Variable, nat)>, ghost done: set<(Variable, nat)>, ghost agreeing: bool)
      returns (drawn: seq<seq<Option<char>>>,
               ghost writer': map<(int, int), (Variable, nat)>, ghost done': set<(Variable, nat)>)
      requires FitsGrid(A) && Drawn(A, letters, writer, done, agreeing) && v in A
      requires agreeing ==> crossword.WellFormed() && Consistent(crossword, A) && A.Keys <= crossword.variables
      ensures Drawn(A, drawn, writer', done', agreeing)
      ensures done <= done' && forall l: nat :: l < |A[v]| ==> (v, l) in done'
    {
      drawn, writer', done' := letters, writer, done;
      var word := A[v];
      var k := 0;
      while k < |word|
        invariant 0 <= k <= |word|
        invariant Drawn(A, drawn, writer', done', agreeing)
        invariant done <= done' && forall l: nat :: l < k ==> (v, l) in done'
        decreases |word| - k
      {
        var (i, j) := Cell(v, k);
        DrawLetter(A, drawn, writer', done', agreeing, v, k);
        drawn := Put(drawn, (i, j), word[k]);
        writer' := writer'[(i, j) := (v, k)];
        done' := done' + {(v, k)};
        k := k + 1;
      }
    }

    /**
     * The grid so far: shaped, filled exactly at the cells of `writer`, with
     * every letter in `done` written, and written correctly when the
     * assignment is `agreeing`.
     */
    ghost predicate Drawn(A: Assignment, letters: seq<seq<Option<char>>>, writer: map<(int, int), (Variable, nat)>,
                          done: set<(Variable, nat)>, agreeing: bool)
    {
      GridShaped(letters) && WrittenBy(A, letters, writer) && Recorded(A, writer, done) &&
      (agreeing ==> Agrees(A, letters, done))
    }

    /** Every letter in `done` is a letter of a bound word, recorded in `writer`. */
    ghost predicate Recorded(A: Assignment, writer: map<(int, int), (Variable, nat)>, done: set<(Variable, nat)>)
    {
      forall p :: p in done ==> Covers(A, p.0, p.1, Cell(p.0, p.1)) && Cell(p.0, p.1) in writer
    }

    /** Every letter in `done` is what the grid shows at its cell. */
    ghost predicate Agrees(A: Assignment, letters: seq<seq<Option<char>>>, done: set<(Variable, nat)>)
      requires GridShaped(letters)
    {
      forall p :: p in done ==>
        Covers(A, p.0, p.1, Cell(p.0, p.1)) &&
        0 <= Cell(p.0, p.1).0 < crossword.height && 0 <= Cell(p.0, p.1).1 < crossword.width &&
        letters[Cell(p.0, p.1).0][Cell(p.0, p.1).1] == Some(A[p.0][p.1])
    }

    /** Writing letter k of v's word keeps the grid drawn. */
    lemma DrawLetter(A: Assignment, letters: seq<seq<Option<char>>>, writer: map<(int, int), (Variable, nat)>,
                     done: set<(Variable, nat)>, agreeing: bool, v: Variable, k: nat)
      requires FitsGrid(A) && Drawn(A, letters, writer, done, agreeing)
      requires v in A && k < |A[v]|
      requires agreeing ==> crossword.WellFormed() && Consistent(crossword, A) && A.Keys <= crossword.variables
      ensures Drawn(A, Put(letters, Cell(v, k), A[v][k]), writer[Cell(v, k) := (v, k)], done + {(v, k)}, agreeing)
    {
      WrittenByPut(A, letters, writer, v, k);
      if agreeing {
        AgreesPut(A, letters, done, v, k);
      }
    }

    lemma WrittenByPut(A: Assignment, letters: seq<seq<Option<char>>>, writer: map<(int, int), (Variable, nat)>,
                       v: Variable, k: nat)
      requires FitsGrid(A) && GridShaped(letters) && WrittenBy(A, letters, writer)
      requires v in A && k < |A[v]|
      ensures WrittenBy(A, Put(letters, Cell(v, k), A[v][k]), writer[Cell(v, k) := (v, k)])
    {
      PutAt(letters, Cell(v, k), A[v][k]);
    }

    lemma AgreesPut(A: Assignment, letters: seq<seq<Option<char>>>, done: set<(Variable, nat)>, v: Variable, k: nat)
      requires FitsGrid(A) && GridShaped(letters) && Agrees(A, letters, done)
      requires v in A && k < |A[v]|
      requires crossword.WellFormed() && Consistent(crossword, A) && A.Keys <= crossword.variables
      ensures Agrees(A, Put(letters, Cell(v, k), A[v][k]), done + {(v, k)})
    {
      var c := Cell(v, k);
      var letters' := Put(letters, c, A[v][k]);
      PutAt(letters, c, A[v][k]);
      forall p | p in done + {(v, k)}
        ensures letters'[Cell(p.0, p.1).0][Cell(p.0, p.1).1] == Some(A[p.0][p.1])
      {
        if Cell(p.0, p.1) == c {
          SharedCellAgrees(crossword, A, p.0, p.1, v, k);
        }
      }
    }

    /** Once every letter is drawn, the grid is the one the assignment describes. */
    lemma DrawnAll(A: Assignment, letters: seq<seq<Option<char>>>, writer: map<(int, int), (Variable, nat)>,
                   done: set<(Variable, nat)>, agreeing: bool)
      requires FitsGrid(A) && Drawn(A, letters, writer, done, agreeing)
      requires forall v, k: nat :: v in A && k < |A[v]| ==> (v, k) in done
      requires agreeing <==> crossword.WellFormed() && Consistent(crossword, A) && A.Keys <= crossword.variables
      ensures forall i, j :: 0 <= i < crossword.height && 0 <= j < crossword.width ==>
        (letters[i][j].Some? <==> exists v, k: nat :: Covers(A, v, k, (i, j)))
      ensures forall i, j :: 0 <= i < crossword.height && 0 <= j < crossword.width && letters[i][j].Some? ==>
        exists v, k: nat :: Covers(A, v, k, (i, j)) && A[v][k] == letters[i][j].value
      ensures agreeing ==>
        forall v, k: nat :: v in A && k < |A[v]| ==> letters[Cell(v, k).0][Cell(v, k).1] == Some(A[v][k])
    {
      forall i, j | 0 <= i < crossword.height && 0 <= j < crossword.width && letters[i][j].Some?
        ensures exists v, k: nat :: Covers(A, v, k, (i, j)) && A[v][k] == letters[i][j].value
      {
        var (v, k) := writer[(i, j)];
        assert Covers(A, v, k, (i, j));
      }
      forall i, j | 0 <= i < crossword.height && 0 <= j < crossword.width && exists v, k: nat :: Covers(A, v, k, (i, j))
        ensures letters[i][j].Some?
      {
        var v, k: nat :| Covers(A, v, k, (i, j));
        assert (v, k) in done;
      }
      if agreeing {
        forall v, k: nat | v in A && k < |A[v]|
          ensures letters[Cell(v, k).0][Cell(v, k).1] == Some(A[v][k])
        {
          assert (v, k) in done;
        }
      }
    }

    /** The grid with cell c set to Some(ch). */
    function Put(letters: seq<seq<Option<char>>>, c: (int, int), ch: char): (r: seq<seq<Option<char>>>)
      requires GridShaped(letters) && 0 <= c.0 < crossword.height && 0 <= c.1 < crossword.width
      ensures GridShaped(r)
    {
      letters[c.0 := letters[c.0][c.1 := Some(ch)]]
    }

    /** Put changes cell c only. */
    lemma PutAt(letters: seq<seq<Option<char>>>, c: (int, int), ch: char)
      requires GridShaped(letters) && 0 <= c.0 < crossword.height && 0 <= c.1 < crossword.width
      ensures forall i, j :: 0 <= i < crossword.height && 0 <= j < crossword.width ==>
        Put(letters, c, ch)[i][j] == if (i, j) == c then Some(ch) else letters[i][j]
    {
    }

    /** A height-by-width grid. */
    ghost predicate GridShaped(letters: seq<seq<Option<char>>>)
    {
      |letters| == crossword.height &&
      forall i :: 0 <= i < |letters| ==> |letters[i]| == crossword.width
    }

    /** The filled cells of the grid are exactly the keys of `writer`, each holding the letter its writer wrote. */
    ghost predicate WrittenBy(A: Assignment, letters: seq<seq<Option<char>>>, writer: map<(int, int), (Variable, nat)>)
      requires GridShaped(letters)
    {
      (forall i, j :: 0 <= i < crossword.height && 0 <= j < crossword.width ==>
        (letters[i][j].Some? <==> (i, j) in writer)) &&
      (forall c :: c in writer ==>
        0 <= c.0 < crossword.height && 0 <= c.1 < crossword.width &&
        Covers(A, writer[c].0, writer[c].1, c) &&
        letters[c.0][c.1] == Some(A[writer[c].0][writer[c].1]))
    }
  }
}
