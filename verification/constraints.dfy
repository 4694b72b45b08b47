/**
 * The constraints of the crossword problem, stated as functions on plain
 * values: the domain map, the length filter, the revision of one domain
 * against a neighbour, and consistency and completeness of an assignment.
 * The engine's methods are proved against these definitions.
 */
module Constraints {
  import opened Puzzle

  /** The candidate words still open for each slot. */
  type Domains = map<Variable, set<string>>

  /** A (partial) choice of one word per slot. */
  type Assignment = map<Variable, string>

  // ---------------------------------------------------------------------------
  // Domains

  /** Every candidate word has the length of its slot. */
  ghost predicate NodeConsistent(d: Domains) {
    forall v, w :: v in d && w in d[v] ==> |w| == v.length
  }

  /** `after` has the keys of `before` and no domain grew. */
  ghost predicate Shrunk(before: Domains, after: Domains) {
    after.Keys == before.Keys && forall v :: v in after ==> after[v] <= before[v]
  }

  /**
   * Every candidate word of v is long enough to be indexed at v's side of
   * every overlap of v: what the revision of domains needs to run without
   * an index error.
   */
  ghost predicate IndexSafe(cw: Crossword, d: Domains) {
    forall v, w, u :: v in d && w in d[v] && (v, u) in cw.overlaps ==> cw.overlaps[(v, u)].0 < |w|
  }

  /** The domains after the length filter: each slot keeps the words of its own length. */
  function NodeFiltered(d: Domains): (r: Domains)
    ensures Shrunk(d, r)
    ensures NodeConsistent(r)
  {
    map v | v in d :: set w | w in d[v] && |w| == v.length
  }

  /** The filter drops exactly the words of the wrong length. */
  lemma NodeFilteredKeepsRightLength(d: Domains, v: Variable, w: string)
    requires v in d && w in d[v]
    ensures w in NodeFiltered(d)[v] <==> |w| == v.length
  {
  }

  /** Filtering twice is filtering once. */
  lemma NodeFilteredIdempotent(d: Domains)
    ensures NodeFiltered(NodeFiltered(d)) == NodeFiltered(d)
  {
    var once := NodeFiltered(d);
    forall v | v in once ensures NodeFiltered(once)[v] == once[v] {
    }
  }

  /** Node-consistent domains over a valid puzzle can be revised without an index error. */
  lemma NodeConsistentIsIndexSafe(cw: Crossword, d: Domains)
    requires Valid(cw) && NodeConsistent(d)
    ensures IndexSafe(cw, d)
  {
  }

  /** In index-safe domains, x can be revised against any slot y that crosses it. */
  lemma IndexSafeIsIndexable(cw: Crossword, d: Domains, x: Variable, y: Variable)
    requires Valid(cw) && IndexSafe(cw, d) && (y, x) in cw.overlaps && x in d && y in d
    ensures Indexable(d[x], d[y], cw.overlaps[(y, x)].1, cw.overlaps[(y, x)].0)
  {
    assert (x, y) in cw.overlaps && cw.overlaps[(x, y)].0 == cw.overlaps[(y, x)].1;
  }

  /** Shrinking twice is shrinking. */
  lemma ShrunkTransitive(d0: Domains, d1: Domains, d2: Domains)
    requires Shrunk(d0, d1) && Shrunk(d1, d2)
    ensures Shrunk(d0, d2)
  {
  }

  /** Shrinking domains keeps them node-consistent and index-safe. */
  lemma ShrunkPreserves(cw: Crossword, before: Domains, after: Domains)
    requires Shrunk(before, after)
    ensures NodeConsistent(before) ==> NodeConsistent(after)
    ensures IndexSafe(cw, before) ==> IndexSafe(cw, after)
  {
  }

  // ---------------------------------------------------------------------------
  // Revision of one domain against a neighbour

  /** Both domains can be indexed at their side of the overlap (no index error while revising). */
  ghost predicate Indexable(dx: set<string>, dy: set<string>, xOv: nat, yOv: nat) {
    forall w, v :: w in dx && v in dy ==> xOv < |w| && yOv < |v|
  }

  /**
   * Word v of the neighbour supports word w across the overlap. As written
   * the support must also be a different word: w is removed from the list
   * of matches of v when the two are equal.
   */
  predicate Supports(w: string, v: string, xOv: nat, yOv: nat)
    requires xOv < |w| && yOv < |v|
  {
    w != v && w[xOv] == v[yOv]
  }

  /** The words of dx that match letter yOv of v at letter xOv, except v itself. */
  function MatchesOf(dx: set<string>, v: string, xOv: nat, yOv: nat): (r: set<string>)
    requires Indexable(dx, {v}, xOv, yOv)
    ensures r == Revised(dx, {v}, xOv, yOv)
  {
    (set w | w in dx && w[xOv] == v[yOv]) - {v}
  }

  /** The words of dx that have a supporting word in dy. */
  function Revised(dx: set<string>, dy: set<string>, xOv: nat, yOv: nat): (r: set<string>)
    requires Indexable(dx, dy, xOv, yOv)
    ensures r <= dx
  {
    set w | w in dx && exists v :: v in dy && Supports(w, v, xOv, yOv)
  }

  /** A word survives the revision exactly when some word of the neighbour supports it. */
  lemma RevisedKeepsSupported(dx: set<string>, dy: set<string>, xOv: nat, yOv: nat, w: string)
    requires Indexable(dx, dy, xOv, yOv)
    ensures w in Revised(dx, dy, xOv, yOv) <==> w in dx && exists v :: v in dy && Supports(w, v, xOv, yOv)
  {
  }

  /** Revising against one more neighbour word adds that word's matches: one step of the revision loop. */
  lemma RevisedStep(dx: set<string>, dy: set<string>, v: string, xOv: nat, yOv: nat)
    requires Indexable(dx, dy + {v}, xOv, yOv)
    ensures Revised(dx, dy + {v}, xOv, yOv) == Revised(dx, dy, xOv, yOv) + MatchesOf(dx, v, xOv, yOv)
  {
    var lhs := Revised(dx, dy + {v}, xOv, yOv);
    var rhs := Revised(dx, dy, xOv, yOv) + MatchesOf(dx, v, xOv, yOv);
    forall w | w in lhs ensures w in rhs {
      var s :| s in dy + {v} && Supports(w, s, xOv, yOv);
      if s != v {
        assert w in Revised(dx, dy, xOv, yOv);
      }
    }
  }

  /** A smaller neighbour domain supports fewer words. */
  lemma RevisedMonotone(dx: set<string>, dy: set<string>, dy': set<string>, xOv: nat, yOv: nat)
    requires Indexable(dx, dy', xOv, yOv) && dy <= dy'
    ensures Revised(dx, dy, xOv, yOv) <= Revised(dx, dy', xOv, yOv)
  {
  }

  /** As written, a word whose only match in the neighbour's domain is the same word is removed. */
  lemma RevisedDropsSelfSupport(dx: set<string>, w: string, xOv: nat, yOv: nat)
    requires Indexable(dx, {w}, xOv, yOv) && w in dx
    ensures w !in Revised(dx, {w}, xOv, yOv)
  {
  }

  /**
   * The revision differs from "keep w when some neighbour word has the same
   * crossing letter" only by that self-support rule: a word with a matching
   * neighbour word is dropped only when every matching word is the word itself.
   */
  lemma RevisedOnlyDropsSelfSupported(dx: set<string>, dy: set<string>, xOv: nat, yOv: nat, w: string, v: string)
    requires Indexable(dx, dy, xOv, yOv)
    requires w in dx && v in dy && w[xOv] == v[yOv]
    requires w !in Revised(dx, dy, xOv, yOv)
    ensures v == w
  {
  }

  /**
   * Two slots crossing at letter 1 of the first and letter 0 of the second,
   * over the pool CAT, CAR, TEA: no word has an A or E matched by a C or T,
   * so revising the first slot against the second empties its domain.
   */
  lemma RevisedEmptiesWithoutMatch()
    ensures Revised({"CAT", "CAR", "TEA"}, {"CAT", "CAR", "TEA"}, 1, 0) == {}
  {
    var pool := {"CAT", "CAR", "TEA"};
    forall w | w in pool ensures !exists v :: v in pool && Supports(w, v, 1, 0) {
      assert w[1] == 'A' || w[1] == 'E';
    }
  }

  /** Word v of slot y supports word w of slot x across the overlap record ov of (x, y). */
  predicate SupportsAcross(w: string, v: string, ov: (nat, nat)) {
    ov.0 < |w| && ov.1 < |v| && Supports(w, v, ov.0, ov.1)
  }

  /**
   * Arc (x, y) is supported: every candidate word of x has a supporting
   * word in the domain of y.
   */
  ghost predicate ArcSupported(cw: Crossword, d: Domains, x: Variable, y: Variable) {
    (x, y) in cw.overlaps && x in d && y in d ==>
      forall w :: w in d[x] ==> exists v :: v in d[y] && SupportsAcross(w, v, cw.overlaps[(x, y)])
  }

  /** Arc consistency: every arc of the puzzle is supported. */
  ghost predicate ArcConsistent(cw: Crossword, d: Domains) {
    forall e :: e in cw.overlaps ==> ArcSupported(cw, d, e.0, e.1)
  }

  /** After revising x against y, the arc (x, y) is supported. */
  lemma RevisedIsSupported(cw: Crossword, d: Domains, x: Variable, y: Variable)
    requires Valid(cw) && (y, x) in cw.overlaps && x in d && y in d
    requires Indexable(d[x], d[y], cw.overlaps[(y, x)].1, cw.overlaps[(y, x)].0)
    ensures ArcSupported(cw, d[x := Revised(d[x], d[y], cw.overlaps[(y, x)].1, cw.overlaps[(y, x)].0)], x, y)
  {
    assert (x, y) in cw.overlaps && cw.overlaps[(x, y)] == (cw.overlaps[(y, x)].1, cw.overlaps[(y, x)].0);
  }

  /**
   * Revising x against y keeps the reverse arc (y, x) supported: the
   * support relation is symmetric, so a word of x that supported a word of
   * y is itself supported by that word and survives the revision.
   */
  lemma RevisedKeepsReverse(cw: Crossword, d: Domains, x: Variable, y: Variable)
    requires Valid(cw) && (y, x) in cw.overlaps && x in d && y in d
    requires Indexable(d[x], d[y], cw.overlaps[(y, x)].1, cw.overlaps[(y, x)].0)
    requires ArcSupported(cw, d, y, x)
    ensures ArcSupported(cw, d[x := Revised(d[x], d[y], cw.overlaps[(y, x)].1, cw.overlaps[(y, x)].0)], y, x)
  {
    var ov := cw.overlaps[(y, x)];
    var rx := Revised(d[x], d[y], ov.1, ov.0);
    forall w | w in d[y] ensures exists v :: v in rx && SupportsAcross(w, v, ov) {
      var v :| v in d[x] && SupportsAcross(w, v, ov);
      assert Supports(v, w, ov.1, ov.0);
      assert v in rx;
    }
  }

  /** Shrinking the domain of x, and leaving that of y alone, keeps the arc (x, y) supported. */
  lemma ShrunkKeepsSupported(cw: Crossword, d: Domains, d': Domains, x: Variable, y: Variable)
    requires ArcSupported(cw, d, x, y) && d'.Keys == d.Keys
    requires x in d ==> d'[x] <= d[x]
    requires y in d ==> d'[y] == d[y]
    ensures ArcSupported(cw, d', x, y)
  {
  }

  /** Every domain of `inner` is inside the domain of the same slot in `outer`. */
  ghost predicate Within(inner: Domains, outer: Domains) {
    forall v :: v in inner ==> v in outer && inner[v] <= outer[v]
  }

  /** Words of x supported by words inside y's domain survive the revision. */
  lemma SupportedStaysRevised(dx: set<string>, dy: set<string>, kx: set<string>, ky: set<string>, xOv: nat, yOv: nat)
    requires Indexable(dx, dy, xOv, yOv) && kx <= dx && ky <= dy
    requires forall w :: w in kx ==> exists v :: v in ky && SupportsAcross(w, v, (xOv, yOv))
    ensures kx <= Revised(dx, dy, xOv, yOv)
  {
    forall w | w in kx ensures w in Revised(dx, dy, xOv, yOv) {
      var v :| v in ky && SupportsAcross(w, v, (xOv, yOv));
      assert v in dy;
    }
  }

  /**
   * Revision removes only unsupported words: arc-consistent domains inside
   * the current ones are still inside them after x is revised against y.
   */
  lemma KeepSurvives(cw: Crossword, d: Domains, keep: Domains, x: Variable, y: Variable)
    requires Valid(cw) && (y, x) in cw.overlaps && x in d && y in d
    requires Indexable(d[x], d[y], cw.overlaps[(y, x)].1, cw.overlaps[(y, x)].0)
    requires keep.Keys == d.Keys && Within(keep, d) && ArcConsistent(cw, keep)
    ensures Within(keep, d[x := Revised(d[x], d[y], cw.overlaps[(y, x)].1, cw.overlaps[(y, x)].0)])
  {
    var ov := cw.overlaps[(y, x)];
    assert (x, y) in cw.overlaps && cw.overlaps[(x, y)] == (ov.1, ov.0);
    assert ArcSupported(cw, keep, x, y);
    SupportedStaysRevised(d[x], d[y], keep[x], keep[y], ov.1, ov.0);
  }

  /** Domains that only shrank, yet still contain the originals, are the originals. */
  lemma ShrunkWithinIsSame(before: Domains, after: Domains)
    requires Shrunk(before, after) && Within(before, after)
    ensures after == before
  {
    forall v | v in after ensures after[v] == before[v] {
      assert v in before;
    }
  }

  // ---------------------------------------------------------------------------
  // Consistency and completeness of an assignment

  /**
   * Every letter the consistency check reads exists: for an assigned slot
   * whose word has the slot's length, each assigned neighbour's word is long
   * enough at its side of the overlap.
   */
  ghost predicate Checkable(cw: Crossword, a: Assignment) {
    forall v, u :: v in a && u in a && (v, u) in cw.overlaps && |a[v]| == v.length ==>
      cw.overlaps[(v, u)].1 < |a[u]|
  }

  /** Every assigned word is long enough at its side of every overlap of its slot. */
  ghost predicate AssignmentFits(cw: Crossword, a: Assignment) {
    forall v, u :: v in a && (v, u) in cw.overlaps ==> cw.overlaps[(v, u)].0 < |a[v]|
  }

  /** The words of v and u agree on their shared cell. */
  predicate Agree(cw: Crossword, a: Assignment, v: Variable, u: Variable)
    requires v in a && u in a && (v, u) in cw.overlaps
    requires cw.overlaps[(v, u)].0 < |a[v]| && cw.overlaps[(v, u)].1 < |a[u]|
  {
    a[v][cw.overlaps[(v, u)].0] == a[u][cw.overlaps[(v, u)].1]
  }

  /**
   * The check made for one assigned slot v: if v's word has v's length, it
   * agrees with the word of every assigned neighbour. A word of the wrong
   * length is not checked at all.
   */
  ghost predicate ConflictFree(cw: Crossword, a: Assignment, v: Variable)
    requires Valid(cw) && Checkable(cw, a) && v in a
  {
    |a[v]| == v.length ==> forall u :: u in a && (v, u) in cw.overlaps ==> Agree(cw, a, v, u)
  }

  /** The consistency check as written: every assigned slot passes its own check. */
  ghost predicate ConsistentAsWritten(cw: Crossword, a: Assignment)
    requires Valid(cw) && Checkable(cw, a)
  {
    forall v :: v in a ==> ConflictFree(cw, a, v)
  }

  /** Every assigned word has the length of its slot. */
  ghost predicate LengthsMatch(a: Assignment) {
    forall v :: v in a ==> |a[v]| == v.length
  }

  /** Consistency as the design describes it: right lengths, and crossing words agree. */
  ghost predicate ConsistentIntended(cw: Crossword, a: Assignment)
    requires Valid(cw)
  {
    && LengthsMatch(a)
    && forall v, u :: v in a && u in a && (v, u) in cw.overlaps ==> Agree(cw, a, v, u)
  }

  /** A solution: every slot is assigned, and the assignment is consistent in the design's sense. */
  ghost predicate Solution(cw: Crossword, a: Assignment)
    requires Valid(cw)
  {
    a.Keys == cw.variables && ConsistentIntended(cw, a)
  }

  /** Complete as written: as many entries as slots, and the consistency check passes. */
  ghost predicate IsComplete(cw: Crossword, a: Assignment)
    requires Valid(cw) && Checkable(cw, a)
  {
    |a.Keys| == |cw.variables| && ConsistentAsWritten(cw, a)
  }

  /** `after` keeps every entry of `before`. */
  ghost predicate Extends(before: Assignment, after: Assignment) {
    forall v :: v in before ==> v in after && after[v] == before[v]
  }

  /** Every entry of `after` that `before` lacks is a word of its slot's domain. */
  ghost predicate AddedFromDomains(d: Domains, before: Assignment, after: Assignment) {
    forall v :: v in after && v !in before ==> v in d && after[v] in d[v]
  }

  /**
   * One level of the search: adding slot v with a word of its domain, and
   * then extending that, extends the original with words of the domains.
   */
  lemma ExtendThrough(d: Domains, before: Assignment, v: Variable, w: string, after: Assignment)
    requires v !in before && v in d && w in d[v]
    requires Extends(before[v := w], after) && AddedFromDomains(d, before[v := w], after)
    ensures Extends(before, after) && AddedFromDomains(d, before, after)
  {
  }

  /** Assigning one more slot of the puzzle leaves fewer slots unassigned. */
  lemma FewerUnassigned(slots: set<Variable>, a: Assignment, v: Variable, w: string)
    requires v in slots && v !in a
    ensures |slots - a[v := w].Keys| < |slots - a.Keys|
  {
    assert slots - a[v := w].Keys == slots - a.Keys - {v};
  }

  /** Removing a slot just added gives back the assignment it was added to. */
  lemma RemoveAdded(a: Assignment, v: Variable, w: string)
    requires v !in a
    ensures a[v := w] - {v} == a
  {
  }

  /** Adding a word of an index-safe domain keeps every assigned word fitting its overlaps. */
  lemma ExtendFits(cw: Crossword, d: Domains, a: Assignment, v: Variable, w: string)
    requires IndexSafe(cw, d) && AssignmentFits(cw, a) && v in d && w in d[v]
    ensures AssignmentFits(cw, a[v := w])
  {
  }

  /** Words that fit every overlap of their slots can be checked. */
  lemma FitsIsCheckable(cw: Crossword, a: Assignment)
    requires Valid(cw) && AssignmentFits(cw, a)
    ensures Checkable(cw, a)
  {
    forall v, u | v in a && u in a && (v, u) in cw.overlaps && |a[v]| == v.length
      ensures cw.overlaps[(v, u)].1 < |a[u]|
    {
      assert (u, v) in cw.overlaps;
    }
  }

  /** Words of the right length can always be checked. */
  lemma LengthsMatchIsCheckable(cw: Crossword, a: Assignment)
    requires Valid(cw) && LengthsMatch(a)
    ensures Checkable(cw, a)
  {
  }

  /** The design's consistency implies the check as written. */
  lemma IntendedImpliesAsWritten(cw: Crossword, a: Assignment)
    requires Valid(cw) && ConsistentIntended(cw, a)
    ensures Checkable(cw, a) && ConsistentAsWritten(cw, a)
  {
  }

  /** When every word has its slot's length, the check as written is the design's consistency. */
  lemma AsWrittenWithLengthsIsIntended(cw: Crossword, a: Assignment)
    requires Valid(cw) && LengthsMatch(a)
    ensures Checkable(cw, a)
    ensures ConsistentAsWritten(cw, a) <==> ConsistentIntended(cw, a)
  {
  }

  /**
   * A length mismatch alone does not make the check fail: an assignment in
   * which no word has its slot's length passes, whatever its letters.
   */
  lemma WrongLengthsPass(cw: Crossword, a: Assignment)
    requires Valid(cw)
    requires forall v :: v in a ==> |a[v]| != v.length
    ensures Checkable(cw, a) && ConsistentAsWritten(cw, a)
  {
  }

  /** The check as written accepts a word of the wrong length, which the design's consistency rejects. */
  lemma WrongLengthExample()
    ensures var v := Variable(0, 0, Across, 3);
            var cw := Crossword({v}, {"AB"}, map[], 3, 1);
            var a := map[v := "AB"];
            Valid(cw) && Checkable(cw, a) && ConsistentAsWritten(cw, a) && !ConsistentIntended(cw, a)
  {
  }

  /**
   * A complete assignment over slots of the puzzle assigns every slot: the
   * entry count matches the slot count only when the keys are all the slots.
   */
  lemma CompleteAssignsEverySlot(cw: Crossword, a: Assignment)
    requires Valid(cw) && Checkable(cw, a) && a.Keys <= cw.variables
    ensures IsComplete(cw, a) <==> a.Keys == cw.variables && ConsistentAsWritten(cw, a)
  {
    if |a.Keys| == |cw.variables| {
      SubsetOfSameSize(a.Keys, cw.variables);
    }
  }

  /**
   * For words of the right lengths over slots of the puzzle, being complete
   * as written is being a solution in the design's sense.
   */
  lemma SolutionIffComplete(cw: Crossword, a: Assignment)
    requires Valid(cw) && LengthsMatch(a) && a.Keys <= cw.variables
    ensures Checkable(cw, a)
    ensures Solution(cw, a) <==> IsComplete(cw, a)
  {
    AsWrittenWithLengthsIsIntended(cw, a);
    CompleteAssignsEverySlot(cw, a);
  }

  /** A subset with as many elements as the whole set is the whole set. */
  lemma {:induction false} SubsetOfSameSize<T>(s: set<T>, t: set<T>)
    requires s <= t && |s| == |t|
    ensures s == t
  {
    assert |t - s| == 0 by {
      assert t * s == s;
    }
  }

  /**
   * Among the keys s of a map to integers, one has a largest value
   * (Python's `max` over the values of a non-empty dictionary).
   */
  lemma {:induction false} MaxValueExists<K>(m: map<K, int>, s: set<K>)
    requires s != {} && s <= m.Keys
    ensures exists k :: k in s && forall u :: u in s ==> m[u] <= m[k]
    decreases s
  {
    var k0 :| k0 in s;
    var rest := s - {k0};
    if rest == {} {
      assert forall u :: u in s ==> u in rest || u == k0;
    } else {
      MaxValueExists(m, rest);
      var k1 :| k1 in rest && forall u :: u in rest ==> m[u] <= m[k1];
      if m[k0] <= m[k1] {
        forall u | u in s ensures m[u] <= m[k1] {
          if u != k0 {
            assert u in rest;
          }
        }
      } else {
        forall u | u in s ensures m[u] <= m[k0] {
          if u != k0 {
            assert u in rest;
          }
        }
      }
    }
  }

  // ---------------------------------------------------------------------------
  // The letter grid

  /** The cell lies inside the grid. */
  predicate InGrid(cw: Crossword, cell: (int, int)) {
    0 <= cell.0 < cw.height && 0 <= cell.1 < cw.width
  }

  /** Letter k of v's word is written to cell (r, c). */
  ghost predicate Writes(a: Assignment, v: Variable, k: int, r: int, c: int) {
    v in a && 0 <= k < |a[v]| && Cell(v, k) == (r, c)
  }

  /** Some letter of some assigned word is written to cell (r, c). */
  ghost predicate Covered(a: Assignment, r: int, c: int) {
    exists v, k :: Writes(a, v, k, r, c)
  }
}
