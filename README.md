# FreeFire backpack: a verified Dafny model

`FreeFire.c` manages a survival backpack (`mochila`): a fixed array of at most
ten items, each with a name, a kind (`tipo`), a quantity and a priority from 1
to 5. From a text menu the player adds an item, removes the first item with a
given name, looks an item up by a sequential scan, sorts the backpack by
name, kind or priority with an insertion sort that reports how many
comparisons it made, and looks an item up by binary search. Binary search is
only allowed while the flag `ordenadaPorNome` says the backpack is sorted by
name.

The model has four modules:

- `Items` (`Items.dfy`): the item record, `strcmp` reduced to the sign of its
  result (`StrCmp`), with a reference lexicographic order `LexLess`, and the
  comparator `compararItens` (`Compare`).
- `Sorting` (`Sorting.dfy`): the insertion sort as functions on sequences.
  `InsertBack` is one pass of the outer loop, `InsertCost` the comparisons it
  makes, `InsertionSort` the whole sort and `SortComparisons` the counter it
  reports. The lemmas prove that the sort orders, permutes and is stable, and
  bound the counter.
- `Store` (`Store.dfy`): the class `Backpack` over an `array<Item>` of ten
  slots and the count `total` (`numItens`). Its methods are the in-place
  operations of the source, each proved against the functions above. The
  inner loop of `ordenarMochila` is its own method `ShiftGreater`, one pass of
  the outer loop is `InsertPass`, and the shifting loop of `removerItem` is
  `ShiftDown`.
- `Menu` (`Menu.dfy`): the class `Session` holding the backpack and the flag
  `ordenadaPorNome`. Its methods are the menu choices that touch the flag. Its
  invariant is that the flag never claims name order falsely.

Console input becomes parameters and console messages become results:
`SearchResult` (`Found(index)`, `NotFound`, `EmptyBackpack`,
`NotSortedByName`) and `SortOutcome`.

Points where the code's behaviour is easy to misread:

- Comparison counter. `ordenarMochila` adds the extra comparison when
  `j >= 0` (FreeFire.c:389-391), that is when the scan stopped at an item
  that does not compare greater. So the counter equals the number of
  comparator calls. On sorted input it is n - 1, and `SortedInputUnchanged`
  states that.
- Binary search gates. `buscaBinaria` tests for an empty backpack first
  (FreeFire.c:402) and then the flag (FreeFire.c:407), so an empty backpack
  reports `EmptyBackpack` whatever the flag says.
- Criterion codes. `compararItens` ties everything under an unknown code
  (FreeFire.c:367-368), and only the menu rejects such codes
  (FreeFire.c:172, 183-185). `Compare` and `Session.ChooseSort` model both.

## Model

| member | source | states |
|---|---|---|
| Items.StrCmp | FreeFire.c:362-364 | strcmp's sign: one of -1, 0, 1, and 0 exactly when the strings are equal |
| Items.StrCmpIsLexicographic | FreeFire.c:362-364 | strcmp reports "less" exactly when the first string lexicographically precedes the second (proper prefix, or smaller at the first difference) |
| Items.StrCmpAntisymmetric | FreeFire.c:362-364 | swapping strcmp's arguments negates its sign |
| Items.StrCmpTransitive | FreeFire.c:362-364 | strcmp's "not greater" is transitive |
| Items.Compare | FreeFire.c:359-370 | by name and by kind: zero exactly when the strings are equal; by priority: positive exactly when a's priority is lower, zero exactly when equal (descending order); any other criterion code ties everything; for well-formed items the priority difference lies in -4..4, so it cannot overflow |
| Items.CompareIsLexicographic | FreeFire.c:361-364 | under name and kind, negative iff a's string precedes b's lexicographically, positive iff b's precedes a's |
| Items.CompareAntisymmetric | FreeFire.c:359-370 | swapping the items negates the comparison, for every criterion |
| Items.CompareTransitive | FreeFire.c:359-370 | "goes no later than" is transitive under every criterion, so sortedness is meaningful |
| Items.CompareTiesOneClass | FreeFire.c:359-370 | two items that do not tie cannot both tie with a third |
| Sorting.SortedByPriorityMeans | FreeFire.c:365-366 | sorted by priority iff priorities never increase along the backpack |
| Sorting.SortedByNameMeans | FreeFire.c:361-362 | sorted by name iff each name equals or lexicographically precedes the next |
| Sorting.SortPrefixStep | FreeFire.c:379-394 | sorting one more slot is one more pass of the outer loop, adding that pass's comparisons to the counter |
| Sorting.InsertionSortSnoc | FreeFire.c:379-394 | sorting p followed by an item is sorting p and then one pass for the item |
| Sorting.InsertBackAt | FreeFire.c:380-393 | when the items from slot m on compare greater than the key and the one before m does not, the pass puts the key at m and moves the rest up one slot |
| Sorting.InsertCostAt | FreeFire.c:383-391 | that pass makes one comparison per moved item plus one when it stopped before slot 0 |
| Sorting.InsertBackPermutes | FreeFire.c:380-393 | a pass adds the key and loses no item: the multiset grows by exactly the key |
| Sorting.InsertionSortPermutes | FreeFire.c:376-395 | the sort's result is a permutation of its input |
| Sorting.InsertBackSorted | FreeFire.c:380-393 | inserting a key into a sorted prefix keeps it sorted |
| Sorting.InsertionSortSorted | FreeFire.c:376-395 | the sort's result is sorted under the criterion (every adjacent pair compares not greater) |
| Sorting.SortedAt | FreeFire.c:376-395 | in a sorted sequence every earlier item compares not greater than every later one |
| Sorting.SortedPairwise | FreeFire.c:376-395 | the same for all pairs at once, the fact binary search relies on |
| Sorting.InsertBackEquivalents | FreeFire.c:383 | a pass appends the key to its own tie class and leaves the order of every tie class unchanged, because ties do not shift |
| Sorting.InsertionSortStable | FreeFire.c:376-395 | the sort is stable: items that tie keep their relative order |
| Sorting.EquivalentsSnoc | FreeFire.c:383 | appending an item extends its tie class only |
| Sorting.SortComparisonsBounds | FreeFire.c:377-391 | the counter is at least n - 1 for a non-empty backpack and at most n(n - 1)/2 |
| Sorting.SortedInputUnchanged | FreeFire.c:376-395 | sorting input that is already sorted leaves it unchanged and counts exactly n - 1 comparisons (0 when empty) |
| Sorting.SortIdempotent | FreeFire.c:376-395 | sorting twice by one criterion gives the order of sorting once, the second sort counting n - 1 |
| Sorting.NameSortExample | FreeFire.c:376-395 | Medkit, Rope, Ammo sorted by name become Ammo, Medkit, Rope after 3 comparisons |
| Store.FirstMatch | FreeFire.c:270-276 | the slot of the first item with the name, or the count when none has it; every earlier slot holds another name |
| Store.FirstMatchAt | FreeFire.c:270-276 | any slot holding the name with no match before it is the first match; so is the count when no slot matches |
| Store.RemovedAtDropsOne | FreeFire.c:284-288 | taking out one slot shortens the backpack by one and loses exactly that item |
| Store.ShiftedRemovesAt | FreeFire.c:284-288 | moving every later item down one slot removes the item at i and keeps the rest in order |
| Store.PermutationKeepsWellFormed | FreeFire.c:376-395 | reordering keeps every item's priority in 1..5 and strings within their buffers |
| Store.PlacedAt | FreeFire.c:393 | the slots before m untouched, the key at m and the rest moved up form the key inserted at m |
| Store.PassResult | FreeFire.c:380-393 | the array state the inner loop leaves, with the key written into slot j+1, is the functional pass, and the counted comparisons are its cost |
| Store.Backpack.constructor | FreeFire.c:80-85 | the program starts with an empty backpack of ten slots |
| Store.Backpack.Add | FreeFire.c:221-252 | a full backpack is left as it was and the item is refused; otherwise the item goes into the first free slot and the contents become the old contents plus the item |
| Store.Backpack.Remove | FreeFire.c:257-290 | empty backpack and missing name are reported and change nothing; otherwise the first item with the name is taken out, the later items move down keeping their order, and the count drops by one |
| Store.Backpack.ShiftDown | FreeFire.c:284-286 | every item after slot i moves down one slot; the slots before i and from the last one on keep their items |
| Store.Backpack.Find | FreeFire.c:322-354 | empty backpack reported as such; otherwise Found at the first slot with the name, NotFound exactly when no slot has it |
| Store.Backpack.Sort | FreeFire.c:376-395 | the contents become the insertion sort of the old contents, the counter is reset and ends at the sort's comparison count, the free slots are untouched and every item stays well formed |
| Store.Backpack.InsertPass | FreeFire.c:380-393 | one outer round: the first i+1 slots become the old prefix with the key inserted, and the counted comparisons are the pass's cost |
| Store.Backpack.ShiftGreater | FreeFire.c:381-387 | the scan stops at slot -1 or at the first item from the right that does not compare greater; every item it passed compares greater and moved up one slot, one counted comparison each; slot j+1 still holds its old item and the slots after i are untouched |
| Store.Backpack.BinarySearch | FreeFire.c:401-451 | empty backpack reported first, then an unset flag; a reported slot holds the name; on contents really sorted by name, NotFound means no slot holds the name |
| Menu.Session.constructor | FreeFire.c:80-87 | start with an empty backpack and the flag cleared |
| Menu.Session.ChooseAdd | FreeFire.c:128-134 | adds as adicionarItem does and always clears the flag |
| Menu.Session.ChooseRemove | FreeFire.c:136-141 | removes as removerItem does, reporting an empty backpack, a missing name or the removed slot as distinct outcomes, and always clears the flag |
| Menu.Session.ChooseSort | FreeFire.c:153-187 | empty backpack or criterion outside 1..3 change nothing, flag included; otherwise the backpack is sorted, the counter reported, and the flag set exactly when the criterion is the name |
| Menu.Session.ChooseBinarySearch | FreeFire.c:189-195 | binary search gated by the flag; because the session invariant makes the flag truthful, NotFound always means no slot holds the name |

## Left out

- Console input and output (`printf`, `scanf`, `fgets`, the `strcspn`
  newline trim) are left out. Typed names, kinds, quantities, priorities and
  criterion codes are parameters, and messages are result values.
- `listarItens` only prints. The listing it shows is `Backpack.Contents()`.
- `limparBuffer`, `pausar` and `limparTela` only handle the terminal.
- The priority re-prompt loop of `adicionarItem` (FreeFire.c:240-246) and the
  buffer sizes of `fgets` are not modelled as loops. `Backpack.Add` takes an
  item that already satisfies them (`WellFormed`).
- Items.StrCmp: only the sign of `strcmp` is modelled, not its magnitude,
  because the source only tests the sign. Characters are Dafny `char`s, not
  unsigned bytes, and there is no NUL terminator. For the same reason
  `WellFormed` bounds names and kinds by character count, while `fgets`
  bounds them by bytes, so a non-ASCII name may pass `WellFormed` and still
  not fit the 50-byte buffer.
- 32-bit `int` arithmetic is not modelled. No value here can overflow:
  priorities are 1..5, so a priority difference is within -4..4, and with ten
  slots the counter is at most 45.
- The `do`/`while` menu loop and choices 0, 3, 4 and the default branch are
  not in `Session`. They leave the backpack and the flag as they are. Choice 4
  is `Backpack.Find`, which is read-only.
- The slots of the C array past `numItens` are uninitialised. The model fills
  them with default items. No operation reads them.
