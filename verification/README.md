# Crossword generator: the constraint-satisfaction engine

This project models the engine of `CrosswordCreator` in `generate.py`, the
part that fills a crossword. Each slot (a variable with a start cell,
direction and length) has a domain of candidate words. The domains start as
the whole word pool. They are then filtered by length, pruned by AC-3 over
the crossing letters, and searched by backtracking for an assignment of one
word per slot.

The model follows the code as written, not the design behind it. Where the
two differ, the code wins. Each difference is described under "Behaviour as
written" below, and it is proved wherever a contract or lemma states it; the
one that no contract states is listed under "## Left out".

Files and modules:

- `wrappers.dfy` (`Wrappers`): `Option` (Python's `None` or a value) and
  `Outcome` (a fuel-bounded run returned a value, or ran out of fuel).
- `puzzle.dfy` (`Puzzle`): the puzzle the engine is given. It holds the slots,
  the word pool, `overlaps[(a, b)] == (p, q)` for each pair of crossing slots,
  and the grid size. `Neighbors` is derived from `overlaps`. `Valid` states
  what the loader guarantees:
  - overlaps relate two different slots of the puzzle;
  - overlap indices lie inside both slots;
  - the record of `(b, a)` is the record of `(a, b)` with the indices swapped.
- `constraints.dfy` (`Constraints`): the definitions the methods are proved
  against. These are the length filter (`NodeFiltered`), the revision of a
  domain (`Revised`), consistency as written (`ConsistentAsWritten`) and as
  designed (`ConsistentIntended`), completeness (`IsComplete`), and what a
  solution is (`Solution`), with lemmas relating them.
- `generate.dfy` (`Generate`): the class `CrosswordCreator` with its field
  `domains`, one method per operation of the source, and the class
  `AssignmentDict`. `AssignmentDict` is the dictionary that the search
  fills and empties in place.

Python walks sets and dictionaries in an order that the model leaves open.
Each loop picks its next element with `:|`, so every contract holds for
every iteration order.

## Behaviour as written

- `revise` always reports a change: it compares an integer with a set
  (generate.py:126). It drops a word whose only support in the neighbour's
  domain is the word itself (generate.py:122-123). See
  `RevisedDropsSelfSupport` and `RevisedOnlyDropsSelfSupported`.
- `ac3` never returns False, even when a domain is empty: its emptiness
  test compares a set with 0 (generate.py:144). Because every revision
  "changes" something, the worklist can cycle for ever, so `Ac3` takes a
  fuel bound. Its `arcs` argument is never used: the worklist always starts
  from all arcs. When the worklist does run empty, the domains are arc
  consistent, and no supported word was removed: running it again on its
  own result changes nothing. The support rule of `revise` is symmetric, so revising x
  against y keeps the arc (y, x) supported. The arcs into x that the
  revision can break are queued again (generate.py:146-149).
- `consistent` assigns a misspelled local when a word has the wrong length
  (generate.py:174). Such a word therefore does not make the check fail; it
  is only skipped as the first word of a pair. See `WrongLengthsPass` and
  `WrongLengthExample`.
- `order_domain_values` never scores values: `intersection_update` returns
  None (generate.py:187), so the domain comes back in iteration order.
- `select_unassigned_variable` branches on the number of unassigned slots
  (generate.py:214). With more than one, it returns one of highest degree,
  whatever the domain sizes. With one, it returns that slot; the filter by
  largest domain size (generate.py:212) then has nothing to choose between.
- `backtrack` returns after the first value that passes the check, even when
  the recursion returns None, and leaves that value in the dictionary
  (generate.py:239-242).
- Solutions are still sound. After the length filter every domain word has
  its slot's length, so a returned assignment is a solution as the design
  describes it (`Solve`, `SolutionIffComplete`).

## Model

| member | source | states |
|---|---|---|
| `Puzzle.NeighborsSymmetric` | generate.py:146-147 | in a valid puzzle u neighbours v exactly when (v, u) is an overlap, the relation is symmetric and no slot neighbours itself, so removing the arc's other end from the neighbour set never fails |
| `Constraints.NodeFiltered` | generate.py:102-103 | the filtered domains have the same keys, only lose words, and hold only words of their slot's length |
| `Constraints.NodeFilteredKeepsRightLength` | generate.py:103 | a word of a slot's domain survives the filter exactly when its length is the slot's length |
| `Constraints.NodeFilteredIdempotent` | generate.py:96-104 | filtering twice gives what filtering once gives |
| `Constraints.NodeConsistentIsIndexSafe` | generate.py:117-121 | after the filter, over a valid puzzle, every domain word can be indexed at its slot's side of every overlap |
| `Constraints.ShrunkPreserves` | generate.py:125 | shrinking domains keeps them length-correct and safe to index |
| `Constraints.ShrunkTransitive` | generate.py:141-149 | two rounds of shrinking are a shrinking, so AC-3 as a whole only shrinks domains |
| `Constraints.IndexSafeIsIndexable` | generate.py:117-121 | in index-safe domains x can be revised against any y crossing it without an index error |
| `Constraints.MatchesOf` | generate.py:121-123 | the list built for one word v of y is the revision of x against a domain holding only v |
| `Constraints.Revised` | generate.py:116-125 | the revised domain of x is a subset of the old one |
| `Constraints.RevisedKeepsSupported` | generate.py:119-125 | a word stays in x's domain exactly when some word of y other than itself has the same crossing letter |
| `Constraints.RevisedStep` | generate.py:120-124 | one round of the loop over y's words adds that word's matches to the accumulated set |
| `Constraints.RevisedMonotone` | generate.py:120-124 | a smaller domain for y supports fewer words of x |
| `Constraints.RevisedDropsSelfSupport` | generate.py:122-123 | when y's domain is the single word w, w is removed from x's domain |
| `Constraints.RevisedOnlyDropsSelfSupported` | generate.py:121-123 | a word with a crossing-letter match in y is removed only if that match is the word itself |
| `Constraints.RevisedEmptiesWithoutMatch` | generate.py:116-125 | over the pool CAT, CAR, TEA with overlap (1, 0), revising empties the domain |
| `Constraints.RevisedIsSupported` | generate.py:116-125 | after revising x against y, every word left for x has a supporting word in y's domain |
| `Constraints.RevisedKeepsReverse` | generate.py:116-125 | revising x against y keeps the reverse arc (y, x) supported, because support is symmetric |
| `Constraints.ShrunkKeepsSupported` | generate.py:141-149 | an arc (x, y) stays supported when x's domain shrinks and y's is unchanged |
| `Constraints.SupportedStaysRevised` | generate.py:119-125 | words of x that have a support among words of y's domain all survive the revision |
| `Constraints.KeepSurvives` | generate.py:116-125 | revision removes only unsupported words: arc-consistent domains inside the current ones are still inside them after a revision |
| `Constraints.ShrunkWithinIsSame` | generate.py:141-150 | domains that only shrank but still contain the entry domains are the entry domains |
| `Constraints.FitsIsCheckable` | generate.py:170-171 | when every assigned word fits its slot's overlaps, every letter the check reads exists |
| `Constraints.LengthsMatchIsCheckable` | generate.py:167-171 | words of the right length can always be checked |
| `Constraints.IntendedImpliesAsWritten` | generate.py:164-176 | an assignment with right lengths and agreeing crossings passes the check as written |
| `Constraints.AsWrittenWithLengthsIsIntended` | generate.py:167-176 | when every word has its slot's length, the check as written is exactly "crossing words agree" |
| `Constraints.WrongLengthsPass` | generate.py:173-174 | an assignment in which no word has its slot's length passes the check whatever its letters |
| `Constraints.WrongLengthExample` | generate.py:173-174 | a one-slot assignment with a two-letter word in a three-letter slot passes the check but is not consistent by design |
| `Constraints.CompleteAssignsEverySlot` | generate.py:157 | for assignments over the puzzle's slots, the count test plus the check means every slot is assigned and the check passes |
| `Constraints.SolutionIffComplete` | generate.py:152-157 | for words of the right lengths over the puzzle's slots, complete as written is the same as being a solution |
| `Constraints.MaxValueExists` | generate.py:212-213 | every non-empty key set of a map to integers has a key of largest value, so `max` and the maximum filter always yield a key |
| `Constraints.FewerUnassigned` | generate.py:237-239 | assigning one more slot leaves fewer slots unassigned, so the recursion ends |
| `Constraints.RemoveAdded` | generate.py:237-244 | popping a slot just added gives back the dictionary as it was |
| `Constraints.ExtendThrough` | generate.py:237-241 | if the recursion extends the dictionary with domain words, so does the caller |
| `Constraints.ExtendFits` | generate.py:236-237 | adding a word from an index-safe domain keeps every assigned word fitting its overlaps |
| `Generate.AssignmentDict.constructor` | generate.py:94 | the search starts from an empty dictionary |
| `Generate.CrosswordCreator.constructor` | generate.py:8-16 | every slot, and nothing else, starts with the whole word pool as its domain |
| `Generate.CrosswordCreator.EnforceNodeConsistency` | generate.py:96-104 | the new domains are the length-filtered old ones: same keys, subsets, only words of the slot's length |
| `Generate.CrosswordCreator.Revise` | generate.py:106-126 | x's domain becomes the words supported by some other word of y's domain, every other domain (y's included) is unchanged, and the result is always true |
| `Generate.CrosswordCreator.Ac3` | generate.py:128-150 | whenever it returns, it returns true, and every arc of the puzzle is then supported (arc consistency); the key set is unchanged, every domain is a subset of its value on entry, and domains stay safe to index; any arc-consistent domains inside the entry domains stay inside the result, so on arc-consistent domains nothing changes (idempotence) |
| `Generate.CrosswordCreator.ArcsAfterRevision` | generate.py:141-149 | after one revision and the re-queueing of the arcs into x, every arc not on the worklist is still supported |
| `Generate.CrosswordCreator.InitialArcs` | generate.py:137-140 | the first worklist holds every crossing pair exactly once |
| `Generate.CrosswordCreator.QueueArcs` | generate.py:146-149 | the queue is extended, keeping its prefix, by one arc (z, x) for each z of the given neighbours, each once |
| `Generate.CrosswordCreator.Consistent` | generate.py:159-176 | without side effects, returns false exactly when some assigned slot whose word has the slot's length has an assigned neighbour whose crossing letter differs |
| `Generate.CrosswordCreator.AssignmentComplete` | generate.py:152-157 | true exactly when the entry count equals the slot count and the check passes |
| `Generate.CrosswordCreator.OrderDomainValues` | generate.py:178-198 | returns each word of the slot's domain exactly once (equal multisets) and changes nothing |
| `Generate.CrosswordCreator.SelectUnassignedVariable` | generate.py:200-220 | returns a slot of the puzzle with no entry; with more than one unassigned slot, one of highest degree among them |
| `Generate.CrosswordCreator.PickMaximal` | generate.py:212-220 | returns a key of the dictionary whose value is the largest |
| `Generate.CrosswordCreator.Backtrack` | generate.py:222-245 | a returned assignment is the dictionary itself, complete, and assigns every slot; entries present on entry are kept and entries it adds are domain words |
| `Generate.CrosswordCreator.LetterGrid` | generate.py:18-32 | a height-by-width grid whose cell is None exactly when no assigned word covers it, and otherwise holds a letter that a covering word puts there |
| `Generate.CrosswordCreator.Solve` | generate.py:88-94 | runs the length filter, AC-3 and the search; a returned assignment assigns every slot, has words of the right lengths and agreeing crossings, and domains end length-correct, within the filtered ones and arc consistent; every word of a returned assignment is in its slot's final domain and in its domain on entry |

## Left out

- Printing to the terminal (generate.py:34-45) and saving an image with PIL
  (generate.py:47-86): output and a foreign library.
- `main` (generate.py:248-277): command-line handling, `sys.exit` and printing.
- Loading the puzzle from structure and word files: crossword.py is not part
  of this model. Slots, words, overlaps and the grid size are inputs, and
  `Puzzle.Valid` states what the loader is assumed to guarantee.
  `neighbors(v)` is modelled as the slots with an overlap record with v.
- Ac3: runs at most `fuel` arcs and then reports `OutOfFuel`. The source's
  loop can cycle for ever, so no termination is claimed. `Solve` passes that
  outcome on.
- The scoring branch of `order_domain_values` (generate.py:189-196) is
  unreachable, so it is not modelled. It would call `revise` on the shared
  domains and return the None produced by `list.sort()`.
- Backtrack: requires the domains to be index-safe and every assigned word
  to fit its slot's overlaps. Both always hold after the length filter. They
  are sufficient for the reads `consistent` makes, not the exact condition.
  It also requires the dictionary's keys to be slots of the puzzle. And it
  requires that a dictionary holding every slot passes the check. The second
  condition excludes a crash in the source: on a full dictionary that fails
  the check, `select_unassigned_variable` pops from an empty list
  (generate.py:220). That call cannot happen from `solve`. The search starts
  from the empty dictionary, and it recurses only after the check passes.
- Backtrack: when a call returns None, the contract does not say which
  entries stay in the dictionary. As written, the value tried last stays
  assigned.
- LetterGrid: requires every written cell to lie inside the grid. Python
  would also accept negative indices, which wrap.
- `select_unassigned_variable` and `order_domain_values` are read-only
  methods rather than functions: both pick elements in Python's set and
  dictionary order, and the model leaves that order open.
