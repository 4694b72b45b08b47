/**
 * The crossword puzzle the engine works on. It is produced by the loader of
 * structure and word files, which is not part of this model, so here it is
 * an input value together with the well-formedness conditions the engine
 * relies on.
 */
module Puzzle {

  datatype Direction = Across | Down

  /** A slot of the grid: its first cell (row i, column j), its direction and its length. */
  datatype Variable = Variable(i: int, j: int, direction: Direction, length: nat)

  /**
   * variables: the slots; words: the word pool;
   * overlaps[(a, b)] == (p, q): letter p of a's word is the cell shared with letter q of b's word,
   * present only for slots that cross;
   * width, height: the grid dimensions.
   */
  datatype Crossword = Crossword(
    variables: set<Variable>,
    words: set<string>,
    overlaps: map<(Variable, Variable), (nat, nat)>,
    width: nat,
    height: nat)

  /** The slots that cross v. */
  function Neighbors(cw: Crossword, v: Variable): (r: set<Variable>) {
    set u | u in cw.variables && (v, u) in cw.overlaps
  }

  /** The number of slots that cross v. */
  function Degree(cw: Crossword, v: Variable): (r: nat) {
    |Neighbors(cw, v)|
  }

  /**
   * What the loader guarantees: overlaps relate two different slots of the
   * puzzle, their indices lie inside both slots, and the record of (b, a)
   * is the record of (a, b) with its two indices swapped.
   */
  ghost predicate Valid(cw: Crossword) {
    && (forall e :: e in cw.overlaps ==> e.0 in cw.variables && e.1 in cw.variables && e.0 != e.1)
    && (forall e :: e in cw.overlaps ==> cw.overlaps[e].0 < e.0.length && cw.overlaps[e].1 < e.1.length)
    && (forall e :: e in cw.overlaps ==>
          (e.1, e.0) in cw.overlaps && cw.overlaps[(e.1, e.0)] == (cw.overlaps[e].1, cw.overlaps[e].0))
  }

  /** In a valid puzzle, u is a neighbour of v exactly when the two cross, and then v is a neighbour of u. */
  lemma NeighborsSymmetric(cw: Crossword, v: Variable, u: Variable)
    requires Valid(cw)
    ensures u in Neighbors(cw, v) <==> (v, u) in cw.overlaps
    ensures u in Neighbors(cw, v) <==> v in Neighbors(cw, u)
    ensures v !in Neighbors(cw, v)
  {
  }

  /** The grid cell (row, column) holding letter k of a word placed in slot v. */
  function Cell(v: Variable, k: int): (r: (int, int)) {
    (v.i + (if v.direction == Down then k else 0), v.j + (if v.direction == Across then k else 0))
  }
}
