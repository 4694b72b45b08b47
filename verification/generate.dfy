/**
 * The constraint-satisfaction engine that fills a crossword: the domain
 * store and its filters, AC-3 propagation, the consistency checks, the
 * search heuristics and the backtracking search.
 *
 * Python iterates sets and dictionaries in an order this model does not
 * fix; wherever the source walks one, the model picks the next element
 * with `:|`, so every contract holds for every iteration order.
 */
module Generate {
  import opened Wrappers
  import opened Puzzle
  import opened Constraints

  /** The dictionary that the backtracking search fills and empties in place. */
  class AssignmentDict {
    var entries: Assignment

    constructor ()
      ensures entries == map[]
    {
      entries := map[];
    }
  }

  class CrosswordCreator {
    const crossword: Crossword
    var domains: Domains

    /** The puzzle is well formed and every slot, and nothing else, has a domain. */
    ghost predicate Valid()
      reads this
    {
      Puzzle.Valid(crossword) && domains.Keys == crossword.variables
    }

    /** Every slot starts with the whole word pool as its domain. */
    constructor (crossword: Crossword)
      requires Puzzle.Valid(crossword)
      ensures Valid() && this.crossword == crossword
      ensures domains == map v | v in crossword.variables :: crossword.words
    {
      this.crossword := crossword;
      domains := map v | v in crossword.variables :: crossword.words;
    }

    /** Keeps in each domain only the words of the slot's length. */
    method EnforceNodeConsistency()
      requires Valid()
      modifies this
      ensures Valid()
      ensures domains == NodeFiltered(old(domains))
      ensures Shrunk(old(domains), domains) && NodeConsistent(domains)
    {
      var pending := domains.Keys;
      while pending != {}
        invariant pending <= domains.Keys
        invariant domains.Keys == old(domains).Keys
        invariant forall v :: v in domains && v !in pending ==> domains[v] == NodeFiltered(old(domains))[v]
        invariant forall v :: v in pending ==> domains[v] == old(domains)[v]
        decreases pending
      {
        var v :| v in pending;
        domains := domains[v := set w | w in domains[v] && |w| == v.length];
        pending := pending - {v};
      }
    }

    /**
     * Revises x's domain against y: x keeps the words that some word of y,
     * other than the word itself, matches on the shared cell. Only x's
     * domain changes. It reports a change whatever happened, because the
     * source compares the old domain's size with the new domain itself.
     */
    method Revise(x: Variable, y: Variable) returns (revised: bool)
      requires Valid()
      requires (y, x) in crossword.overlaps
      requires Indexable(domains[x], domains[y], crossword.overlaps[(y, x)].1, crossword.overlaps[(y, x)].0)
      modifies this
      ensures Valid()
      ensures domains == old(domains)[x := Revised(old(domains)[x], old(domains)[y],
                                                   crossword.overlaps[(y, x)].1, crossword.overlaps[(y, x)].0)]
      ensures Shrunk(old(domains), domains)
      ensures revised
    {
      var yOverlap := crossword.overlaps[(y, x)].0;
      var xOverlap := crossword.overlaps[(y, x)].1;
      assert (y, x).1 in crossword.variables;
      var dx, dy := domains[x], domains[y];
      var auxiliar: set<string> := {};
      var pending := dy;
      while pending != {}
        invariant pending <= dy
        invariant domains == old(domains)
        invariant auxiliar == Revised(dx, dy - pending, xOverlap, yOverlap)
        decreases pending
      {
        var domY :| domY in pending;
        var res := (set domX | domX in dx && domX[xOverlap] == domY[yOverlap]) - {domY};
        assert res == MatchesOf(dx, domY, xOverlap, yOverlap);
        RevisedStep(dx, dy - pending, domY, xOverlap, yOverlap);
        assert dy - (pending - {domY}) == (dy - pending) + {domY};
        auxiliar := auxiliar + (res - auxiliar);
        pending := pending - {domY};
      }
      assert dy - pending == dy;
      domains := domains[x := auxiliar];
      // generate.py:126 compares the old domain's size with the new domain itself: never equal
      revised := true;
    }

    /**
     * AC-3 over a FIFO worklist of arcs (x, y), each meaning "revise x
     * against y". The worklist starts with every arc (neighbour, slot);
     * after each revision, which always reports a change, the arcs (z, x)
     * for the other neighbours z of x are queued again. The emptiness test
     * (generate.py:144) compares a domain with the integer 0 and never
     * succeeds, so the method never returns false, even when a domain is
     * empty. It may run for ever, and `fuel` bounds the number of arcs it
     * processes. Domains only shrink and stay safe to index, and every arc
     * outside the worklist is supported, so when the worklist runs empty
     * the domains are arc consistent. Only unsupported words are removed:
     * any arc-consistent domains `keep` inside the entry domains stay inside
     * them, so on arc-consistent domains the method changes nothing.
     */
    method Ac3(fuel: nat, ghost keep: Domains) returns (outcome: Outcome<bool>)
      requires Valid() && IndexSafe(crossword, domains)
      requires keep.Keys == domains.Keys && Within(keep, domains) && ArcConsistent(crossword, keep)
      modifies this
      ensures Valid() && IndexSafe(crossword, domains)
      ensures Shrunk(old(domains), domains)
      ensures outcome != Returned(false)
      ensures outcome.Returned? ==> ArcConsistent(crossword, domains)
      ensures Within(keep, domains)
      ensures keep == old(domains) ==> domains == old(domains)
    {
      var quee := InitialArcs();
      var steps := fuel;
      while |quee| != 0
        invariant Valid() && IndexSafe(crossword, domains)
        invariant Shrunk(old(domains), domains)
        invariant forall k :: 0 <= k < |quee| ==> quee[k] in crossword.overlaps
        invariant forall e :: e in crossword.overlaps && e !in quee ==> ArcSupported(crossword, domains, e.0, e.1)
        invariant Within(keep, domains)
        decreases steps
      {
        if steps == 0 {
          if keep == old(domains) {
            ShrunkWithinIsSame(old(domains), domains);
          }
          return OutOfFuel;
        }
        steps := steps - 1;
        var q := quee[0];
        ghost var popped := quee;
        quee := quee[1..];
        assert (q.1, q.0) in crossword.overlaps;
        ghost var before := domains;
        IndexSafeIsIndexable(crossword, domains, q.0, q.1);
        KeepSurvives(crossword, domains, keep, q.0, q.1);
        var changed := Revise(q.0, q.1);
        ShrunkPreserves(crossword, before, domains);
        ShrunkTransitive(old(domains), before, domains);
        if changed {
          // the test for an empty domain at generate.py:144 is never true
          var vecinos := Neighbors(crossword, q.0);
          assert q.1 in vecinos;
          vecinos := vecinos - {q.1};
          ghost var waiting := quee;
          quee := QueueArcs(quee, q.0, vecinos);
          forall k | 0 <= k < |quee| ensures quee[k] in crossword.overlaps {
            if k >= |waiting| {
              assert (q.0, quee[k].0) in crossword.overlaps;
            } else {
              assert quee[k] == waiting[k];
            }
          }
          ArcsAfterRevision(popped, waiting, quee, before, q.0, q.1, vecinos);
        }
      }
      if keep == old(domains) {
        ShrunkWithinIsSame(old(domains), domains);
      }
      return Returned(true);
    }

    /**
     * One step of AC-3 keeps every arc outside the worklist supported: the
     * revised arc is now supported, its reverse stays supported, the other
     * arcs out of x only lost words of x, and the arcs into x that the
     * revision can break are back on the worklist.
     */
    lemma ArcsAfterRevision(popped: seq<(Variable, Variable)>, waiting: seq<(Variable, Variable)>,
                            quee: seq<(Variable, Variable)>, before: Domains, x: Variable, y: Variable,
                            vecinos: set<Variable>)
      requires Valid() && IndexSafe(crossword, before) && before.Keys == crossword.variables
      requires |popped| > 0 && popped[0] == (x, y) && waiting == popped[1..] && (y, x) in crossword.overlaps
      requires forall e :: e in crossword.overlaps && e !in popped ==> ArcSupported(crossword, before, e.0, e.1)
      requires Indexable(before[x], before[y], crossword.overlaps[(y, x)].1, crossword.overlaps[(y, x)].0)
      requires domains == before[x := Revised(before[x], before[y],
                                              crossword.overlaps[(y, x)].1, crossword.overlaps[(y, x)].0)]
      requires vecinos == Neighbors(crossword, x) - {y}
      requires |quee| >= |waiting| && quee[..|waiting|] == waiting
      requires forall e :: e in quee[|waiting|..] <==> e.1 == x && e.0 in vecinos
      ensures forall e :: e in crossword.overlaps && e !in quee ==> ArcSupported(crossword, domains, e.0, e.1)
    {
      forall k | 0 <= k < |waiting| ensures waiting[k] in quee {
        assert quee[k] == waiting[k];
      }
      forall z | z in vecinos ensures (z, x) in quee {
        assert (z, x) in quee[|waiting|..];
      }
      forall e | e in crossword.overlaps && e.1 == x && e.0 != y ensures e.0 in vecinos {
        assert (x, e.0) in crossword.overlaps;
      }
      forall e | e in crossword.overlaps && e !in quee
        ensures ArcSupported(crossword, domains, e.0, e.1)
      {
        assert e !in waiting;
        if e == (x, y) {
          RevisedIsSupported(crossword, before, x, y);
        } else {
          assert e !in popped by {
            assert popped == [popped[0]] + waiting;
          }
          if e == (y, x) {
            RevisedKeepsReverse(crossword, before, x, y);
          } else {
            assert e.1 != x;
            ShrunkKeepsSupported(crossword, before, domains, e.0, e.1);
          }
        }
      }
    }

    /** The initial worklist: every arc (u, v) with u a neighbour of v, each once. */
    method InitialArcs() returns (quee: seq<(Variable, Variable)>)
      requires Valid()
      ensures forall e :: e in quee <==> e in crossword.overlaps
      ensures forall k, l :: 0 <= k < l < |quee| ==> quee[k] != quee[l]
    {
      quee := [];
      var slots := crossword.variables;
      while slots != {}
        invariant slots <= crossword.variables
        invariant forall e :: e in quee <==> e in crossword.overlaps && e.1 !in slots
        invariant forall k, l :: 0 <= k < l < |quee| ==> quee[k] != quee[l]
        decreases slots
      {
        var v :| v in slots;
        ghost var before := quee;
        quee := QueueArcs(quee, v, Neighbors(crossword, v));
        assert quee == before + quee[|before|..];
        forall e | e in quee ensures e in crossword.overlaps && e.1 !in slots - {v} {
          if e !in before {
            assert e in quee[|before|..];
            assert (e.1, e.0) in crossword.overlaps;
          }
        }
        forall e | e in crossword.overlaps && e.1 !in slots - {v} ensures e in quee {
          if e.1 == v {
            assert (e.1, e.0) in crossword.overlaps;
            assert e in quee[|before|..];
          } else {
            assert e in before;
          }
        }
        slots := slots - {v};
      }
    }

    /**
     * Appends the arcs (z, x) for the slots z of `around`, in some order, each
     * once, as the loop at generate.py:148-149 does.
     */
    method QueueArcs(quee: seq<(Variable, Variable)>, x: Variable, around: set<Variable>)
      returns (quee': seq<(Variable, Variable)>)
      ensures |quee'| == |quee| + |around| && quee'[..|quee|] == quee
      ensures forall e :: e in quee'[|quee|..] <==> e.1 == x && e.0 in around
      ensures forall k, l :: |quee| <= k < l < |quee'| ==> quee'[k] != quee'[l]
      ensures forall k :: |quee| <= k < |quee'| ==> quee'[k].1 == x && quee'[k].0 in around
    {
      var vecinos := around;
      quee' := quee;
      while vecinos != {}
        invariant vecinos <= around
        invariant |quee'| == |quee| + |around - vecinos| && quee'[..|quee|] == quee
        invariant forall e :: e in quee'[|quee|..] <==> e.1 == x && e.0 in around - vecinos
        invariant forall k, l :: |quee| <= k < l < |quee'| ==> quee'[k] != quee'[l]
        invariant forall k :: |quee| <= k < |quee'| ==> quee'[k].1 == x && quee'[k].0 in around - vecinos
        decreases vecinos
      {
        var vecino :| vecino in vecinos;
        assert around - (vecinos - {vecino}) == (around - vecinos) + {vecino};
        assert (quee' + [(vecino, x)])[|quee|..] == quee'[|quee|..] + [(vecino, x)];
        quee' := quee' + [(vecino, x)];
        vecinos := vecinos - {vecino};
      }
    }

    /**
     * The consistency check as written: for every assigned slot whose word
     * has the slot's length, its word must agree with the word of every
     * assigned neighbour. A word of the wrong length clears a misspelled
     * local instead of the flag, so it does not make the check fail.
     */
    method Consistent(assignment: Assignment) returns (consistent: bool)
      requires Valid() && Checkable(crossword, assignment)
      ensures consistent == ConsistentAsWritten(crossword, assignment)
    {
      consistent := true;
      var assignVec := assignment.Keys;
      var pending := assignment.Keys;
      while pending != {}
        invariant pending <= assignment.Keys
        invariant consistent == forall v :: v in assignment && v !in pending ==> ConflictFree(crossword, assignment, v)
        decreases pending
      {
        var v :| v in pending;
        var word := assignment[v];
        if v.length == |word| {
          var vecinos := Neighbors(crossword, v) * assignVec;
          var unchecked := vecinos;
          ghost var before := consistent;
          while unchecked != {}
            invariant unchecked <= vecinos
            invariant consistent == (before && forall u :: u in vecinos && u !in unchecked ==> Agree(crossword, assignment, v, u))
            decreases unchecked
          {
            var vecino :| vecino in unchecked;
            var overlap := crossword.overlaps[(v, vecino)];
            if word[overlap.0] != assignment[vecino][overlap.1] {
              consistent := false;
            }
            unchecked := unchecked - {vecino};
          }
          assert ConflictFree(crossword, assignment, v) <==>
                 forall u :: u in vecinos ==> Agree(crossword, assignment, v, u);
        }
        pending := pending - {v};
      }
    }

    /** Complete as written: one entry per slot (by count) and the consistency check passes. */
    method AssignmentComplete(assignment: Assignment) returns (complete: bool)
      requires Valid() && Checkable(crossword, assignment)
      ensures complete == IsComplete(crossword, assignment)
    {
      if |crossword.variables| == |assignment.Keys| {
        complete := Consistent(assignment);
      } else {
        complete := false;
      }
    }

    /**
     * The values of var's domain, each exactly once, in the domain's
     * iteration order. The least-constraining-value branch is never taken:
     * `intersection_update` returns None, so the set of assigned neighbours
     * tested by the branch is always falsy.
     */
    method OrderDomainValues(variable: Variable, assignment: Assignment) returns (values: seq<string>)
      requires Valid() && variable in crossword.variables
      ensures multiset(values) == multiset(domains[variable])
    {
      var domOriginal := domains[variable];
      values := [];
      var pending := domOriginal;
      while pending != {}
        invariant pending <= domOriginal
        invariant multiset(values) + multiset(pending) == multiset(domOriginal)
        decreases pending
      {
        var dom :| dom in pending;
        assert multiset(pending) == multiset(pending - {dom}) + multiset{dom};
        values := values + [dom];
        pending := pending - {dom};
      }
    }

    /**
     * Picks a slot with no entry in the assignment. When more than one slot
     * is unassigned, both arms of the source's inner test return a slot of
     * highest degree; otherwise the one unassigned slot is returned (the
     * source keeps the slots of largest domain, which for a single slot is
     * that slot).
     */
    method SelectUnassignedVariable(assignment: Assignment) returns (variable: Variable)
      requires Valid()
      requires assignment.Keys <= crossword.variables
      requires crossword.variables - assignment.Keys != {}
      ensures variable in crossword.variables && variable !in assignment
      ensures |crossword.variables - assignment.Keys| > 1 ==>
        forall u :: u in crossword.variables && u !in assignment ==>
          Degree(crossword, u) <= Degree(crossword, variable)
    {
      var unusedVar := (crossword.variables - assignment.Keys) + (assignment.Keys - crossword.variables);
      assert unusedVar == crossword.variables - assignment.Keys by {
        assert assignment.Keys - crossword.variables == {};
      }
      var maxdatos := map x | x in unusedVar :: |domains[x]|;
      var degreeDatos := map x | x in unusedVar :: Degree(crossword, x);
      assert |maxdatos| == |unusedVar| by {
        assert maxdatos.Keys == unusedVar;
      }
      if |maxdatos| > 1 {
        variable := PickMaximal(degreeDatos);
        forall u | u in crossword.variables && u !in assignment
          ensures Degree(crossword, u) <= Degree(crossword, variable)
        {
          assert u in degreeDatos;
        }
      } else {
        variable := PickMaximal(maxdatos);
        assert |crossword.variables - assignment.Keys| <= 1;
      }
    }

    /**
     * One key of largest value: the source keeps the entries whose value is
     * the maximum and takes the last key of what remains (generate.py:212-220).
     */
    static method PickMaximal(m: map<Variable, int>) returns (k: Variable)
      requires m != map[]
      ensures k in m && forall u :: u in m ==> m[u] <= m[k]
    {
      MaxValueExists(m, m.Keys);
      k :| k in m && forall u :: u in m ==> m[u] <= m[k];
    }

    /**
     * Backtracking search over the shared dictionary `assignment`. If the
     * assignment is complete it is returned; otherwise a slot is picked and
     * its values are tried in order. The first value that passes the
     * consistency check decides the call: the recursion's result is
     * returned whether or not it is None, and the value is left in the
     * dictionary. A value that fails the check is removed again.
     * A returned assignment is the dictionary itself, complete, and every
     * entry the call added is a word of its slot's domain.
     */
    method Backtrack(assignment: AssignmentDict) returns (result: Option<Assignment>)
      requires Valid() && IndexSafe(crossword, domains)
      requires assignment.entries.Keys <= crossword.variables
      requires AssignmentFits(crossword, assignment.entries)
      requires assignment.entries.Keys == crossword.variables ==>
        Checkable(crossword, assignment.entries) && ConsistentAsWritten(crossword, assignment.entries)
      modifies assignment
      ensures assignment.entries.Keys <= crossword.variables
      ensures AssignmentFits(crossword, assignment.entries)
      ensures Extends(old(assignment.entries), assignment.entries)
      ensures AddedFromDomains(domains, old(assignment.entries), assignment.entries)
      ensures result.Some? ==> result.value == assignment.entries
      ensures result.Some? ==> Checkable(crossword, result.value) && IsComplete(crossword, result.value)
      ensures result.Some? ==> result.value.Keys == crossword.variables
      decreases |crossword.variables - assignment.entries.Keys|
    {
      FitsIsCheckable(crossword, assignment.entries);
      var complete := AssignmentComplete(assignment.entries);
      if complete {
        CompleteAssignsEverySlot(crossword, assignment.entries);
        return Some(assignment.entries);
      }
      var variable := SelectUnassignedVariable(assignment.entries);
      var values := OrderDomainValues(variable, assignment.entries);
      ghost var entry := assignment.entries;
      var k := 0;
      while k < |values|
        invariant 0 <= k <= |values|
        invariant assignment.entries == entry
        decreases |values| - k
      {
        var value := values[k];
        assert value in multiset(domains[variable]);
        ExtendFits(crossword, domains, assignment.entries, variable, value);
        assignment.entries := assignment.entries[variable := value];
        FitsIsCheckable(crossword, assignment.entries);
        var ok := Consistent(assignment.entries);
        if ok {
          FewerUnassigned(crossword.variables, entry, variable, value);
          result := Backtrack(assignment);
          ExtendThrough(domains, entry, variable, value, assignment.entries);
          // both branches at generate.py:240-242 return the recursion's result
          return result;
        } else {
          RemoveAdded(entry, variable, value);
          assignment.entries := assignment.entries - {variable};
        }
        k := k + 1;
      }
      return None;
    }

    /**
     * Writes the assignment into a height-by-width grid: a cell holds None
     * when no assigned word crosses it, and otherwise a letter written to it
     * by one of the words that cross it (the last one, when they disagree).
     */
    method LetterGrid(assignment: Assignment) returns (letters: array2<Option<char>>)
      requires forall v, k :: v in assignment && 0 <= k < |assignment[v]| ==> InGrid(crossword, Cell(v, k))
      ensures fresh(letters)
      ensures letters.Length0 == crossword.height && letters.Length1 == crossword.width
      ensures forall r, c :: 0 <= r < crossword.height && 0 <= c < crossword.width ==>
        (letters[r, c] == None <==> !Covered(assignment, r, c))
      ensures forall r, c :: 0 <= r < crossword.height && 0 <= c < crossword.width && letters[r, c] != None ==>
        exists v, k :: Writes(assignment, v, k, r, c) && assignment[v][k] == letters[r, c].value
    {
      letters := new Option<char>[crossword.height, crossword.width]((_, _) => None);
      var pending := assignment.Keys;
      while pending != {}
        invariant pending <= assignment.Keys
        invariant letters.Length0 == crossword.height && letters.Length1 == crossword.width
        invariant forall r, c :: 0 <= r < crossword.height && 0 <= c < crossword.width && letters[r, c] != None ==>
          exists v, k :: Writes(assignment, v, k, r, c) && assignment[v][k] == letters[r, c].value
        invariant forall v, k :: v in assignment && v !in pending && 0 <= k < |assignment[v]| ==>
          letters[Cell(v, k).0, Cell(v, k).1] != None
        decreases pending
      {
        var variable :| variable in pending;
        var word := assignment[variable];
        var k := 0;
        while k < |word|
          invariant 0 <= k <= |word|
          invariant forall r, c :: 0 <= r < crossword.height && 0 <= c < crossword.width && letters[r, c] != None ==>
            exists v, k :: Writes(assignment, v, k, r, c) && assignment[v][k] == letters[r, c].value
          invariant forall v, k :: v in assignment && v !in pending && 0 <= k < |assignment[v]| ==>
            letters[Cell(v, k).0, Cell(v, k).1] != None
          invariant forall k' :: 0 <= k' < k ==> letters[Cell(variable, k').0, Cell(variable, k').1] != None
        {
          var i := variable.i + (if variable.direction == Down then k else 0);
          var j := variable.j + (if variable.direction == Across then k else 0);
          assert (i, j) == Cell(variable, k) && InGrid(crossword, (i, j));
          assert Writes(assignment, variable, k, i, j);
          letters[i, j] := Some(word[k]);
          k := k + 1;
        }
        pending := pending - {variable};
      }
    }

    /**
     * Node consistency, then AC-3 (whose result is ignored), then the search
     * from the empty assignment. A returned assignment assigns every slot,
     * every word has its slot's length, and crossing words agree. The
     * domains the search ran over are arc consistent. OutOfFuel stands for
     * an AC-3 run that does not end.
     */
    method Solve(ac3Fuel: nat) returns (outcome: Outcome<Option<Assignment>>)
      requires Valid()
      modifies this
      ensures Valid() && NodeConsistent(domains)
      ensures Shrunk(NodeFiltered(old(domains)), domains)
      ensures outcome.Returned? ==> ArcConsistent(crossword, domains)
      ensures outcome.Returned? && outcome.value.Some? ==> Solution(crossword, outcome.value.value)
      ensures outcome.Returned? && outcome.value.Some? ==>
        forall v :: v in outcome.value.value ==>
          outcome.value.value[v] in domains[v] && outcome.value.value[v] in old(domains)[v]
    {
      EnforceNodeConsistency();
      NodeConsistentIsIndexSafe(crossword, domains);
      ghost var filtered := domains;
      var ac3Result := Ac3(ac3Fuel, map v | v in domains :: {});
      ShrunkPreserves(crossword, filtered, domains);
      if ac3Result.OutOfFuel? {
        return OutOfFuel;
      }
      var assignment := new AssignmentDict();
      var result := Backtrack(assignment);
      if result.Some? {
        assert LengthsMatch(result.value);
        AsWrittenWithLengthsIsIntended(crossword, result.value);
      }
      return Returned(result);
    }
  }
}
