# Detective Quest: clue collection, modelled in Dafny

This project models the clue-collecting version of the Detective Quest game
(`algoritmos_avancados.c`). The player walks a fixed binary tree of rooms
(the mansion) from the entrance hall. In each round the clue of the current
room, if it has one, goes into a binary search tree of clues ordered by
`strcmp`. Then one choice is read: `e` goes left, `d` goes right, `s` leaves
the mansion, and anything else keeps the player in place. At the end the
collected clues are listed in alphabetical order by an in-order walk.

Modules, one per part of the program:

- `StringOrder` (`string_order.dfy`): the sign of `strcmp` as `Compare`, the
  order `Lt`, and proofs that `Lt` is a strict total order (irreflexive,
  asymmetric, transitive, total) and that a proper prefix sorts first.
- `ClueTree` (`clue_tree.dfy`): the clue tree `PistaNode` as a datatype, with
  `criarNoPista` (`NewNode`), `inserirPista` (`Insert`) and `exibirPistas`
  (`InOrder`). Lemmas cover the search-tree invariant, the set of texts,
  dropped duplicates, node counts, sorted output and independence from
  insertion order.
- `Rooms` (`rooms.dfy`): the room `Sala` as a datatype with optional
  children, `criarSala` (`CreateRoom`), and the height argument behind
  "moves only go down".
- `Exploration` (`exploration.dfy`): `explorarSalasComPistas` as the function
  `Decide` (the choice rules), `Collect` (picking up a clue) and `Step` (one
  round), `Run` (the whole loop) and `Trace` (the rooms visited). `Explore` is
  the imperative loop, proved equal to `Run`. `Session` is `main`'s
  explore-then-list sequence.

Where the code and the design description of the game differ, the model
follows the code:

- This version has no clue-to-suspect hash table and no verdict. Entering a
  room only collects its clue.
- A dead end does not end the exploration by itself. The player must still
  type `s`, and any other choice there keeps them in place.
- No node count or teardown exists for the clue tree. The tree is never
  freed (line 185).

## Model

| member | source | states |
|---|---|---|
| `StringOrder.Compare` | algoritmos_avancados.c:75-77 | the sign of `strcmp`: always -1, 0 or 1 |
| `StringOrder.CompareFirstDifference` | algoritmos_avancados.c:75-77 | at the first position where two texts differ, the text with the smaller character sorts first, whatever the lengths |
| `StringOrder.CompareZeroIffEqual` | algoritmos_avancados.c:75-80 | `strcmp` is zero exactly when the two texts are equal, so neither insertion branch fires only on a duplicate |
| `StringOrder.CompareFlip` | algoritmos_avancados.c:75-78 | swapping the arguments flips the sign, so `strcmp(p, x) > 0` means `x` sorts before `p` |
| `StringOrder.LtIrreflexive` | algoritmos_avancados.c:75-78 | no text sorts before itself |
| `StringOrder.LtAsymmetric` | algoritmos_avancados.c:75-78 | two texts are never each before the other |
| `StringOrder.LtTransitive` | algoritmos_avancados.c:75-78 | the `strcmp` order is transitive |
| `StringOrder.LtTotal` | algoritmos_avancados.c:75-78 | any two distinct texts are ordered one way or the other |
| `StringOrder.ProperPrefixIsLess` | algoritmos_avancados.c:75-78 | a proper prefix sorts before the longer text |
| `ClueTree.NewNode` | algoritmos_avancados.c:55-65 | a new node is a one-text search tree whose listing is just that text |
| `ClueTree.Insert` | algoritmos_avancados.c:72-81 | after insertion the texts are exactly the old texts plus the new one; insertion into an empty tree gives a single node with no children |
| `ClueTree.InOrder` | algoritmos_avancados.c:88-93 | the listing has one entry per node and lists exactly the texts of the tree |
| `ClueTree.InsertAll` | algoritmos_avancados.c:112-114 | inserting texts one after another leaves the old texts plus exactly the inserted ones |
| `ClueTree.InsertKeepsBST` | algoritmos_avancados.c:72-81 | insertion keeps the search-tree invariant: left subtree strictly below, right subtree strictly above |
| `ClueTree.InsertExisting` | algoritmos_avancados.c:75-80 | inserting a text already in a search tree returns the tree unchanged |
| `ClueTree.InsertNewGrows` | algoritmos_avancados.c:72-81 | inserting a text not in the tree adds exactly one node |
| `ClueTree.InsertSize` | algoritmos_avancados.c:72-81 | in a search tree the node count grows by one for a new text and stays the same for a duplicate |
| `ClueTree.InsertIdempotent` | algoritmos_avancados.c:72-81 | inserting the same text twice is the same as inserting it once |
| `ClueTree.InOrderAscending` | algoritmos_avancados.c:83-93 | the in-order listing of a search tree is strictly ascending in `strcmp` order, so it holds no repeats |
| `ClueTree.BSTSizeIsDistinctCount` | algoritmos_avancados.c:72-81 | a search tree has exactly one node per distinct text |
| `ClueTree.AscendingUnique` | algoritmos_avancados.c:86-93 | two strictly ascending listings of the same texts are equal |
| `ClueTree.InsertAllKeepsBST` | algoritmos_avancados.c:72-81 | a series of insertions keeps the search-tree invariant |
| `ClueTree.ListingIsSortedDistinct` | algoritmos_avancados.c:72-93 | collecting clues into an empty tree and listing them gives the distinct clues in ascending order, one entry each |
| `ClueTree.InsertionOrderIrrelevant` | algoritmos_avancados.c:72-93 | any two insertion orders of the same clues give the same listing |
| `Rooms.CreateRoom` | algoritmos_avancados.c:33-44 | a new room has the given name and clue, no exits and nothing below it |
| `Rooms.ChildIsLower` | algoritmos_avancados.c:129-132 | a room's left or right neighbour lies below it and is strictly lower |
| `Rooms.SubtreeIsLower` | algoritmos_avancados.c:9-15 | every room below a room other than itself is strictly lower, so the room tree has no cycles |
| `Exploration.Decide` | algoritmos_avancados.c:129-138 | `s` quits in every room; `e` and `d` move only to a left or right room that exists; every other choice, a missing room included, stays |
| `Exploration.Collect` | algoritmos_avancados.c:111-117 | entering a room adds its clue to the collected texts when the clue is non-empty, and leaves the tree unchanged when it is empty |
| `Exploration.Step` | algoritmos_avancados.c:108-139 | one round collects the current room's clue and stops exactly on `s`; `e` with a left room goes to it, `d` with a right room goes to it, and every other choice stays in the same room |
| `Exploration.Run` | algoritmos_avancados.c:105-140 | the loop reads choices up to and including the first `s` and no further; with no `s` it reads them all |
| `Exploration.Trace` | algoritmos_avancados.c:105-140 | the visited rooms start at the given room; the k-th choice is not `s` and leads from the k-th room to the next by the movement rules; the trace stops at the first `s` or when the choices run out |
| `Exploration.FoundClues` | algoritmos_avancados.c:111-117 | a text is found exactly when it is the non-empty clue of a visited room |
| `Exploration.Session` | algoritmos_avancados.c:165-176 | the final listing is strictly ascending and holds exactly the clues found on the way; it is empty exactly when no clue was found |
| `Exploration.Explore` | algoritmos_avancados.c:105-140 | the imperative loop ends in the state `Run` gives, in a room below the start, keeps the clue tree a search tree, and stops on `s` exactly when the input holds one |
| `Exploration.CollectKeepsBST` | algoritmos_avancados.c:111-117 | collecting a clue keeps the search-tree invariant |
| `Exploration.StepDescends` | algoritmos_avancados.c:129-132 | each round moves strictly deeper into the map or stays put |
| `Exploration.InvalidChoiceChangesNothing` | algoritmos_avancados.c:129-138 | after an invalid choice the player stays in the same room, and the next round re-collects its clue without changing the tree |
| `Exploration.RunFollowsTrace` | algoritmos_avancados.c:105-140 | the loop ends in the last visited room, and its tree is the result of inserting the visited rooms' clues in order |
| `Exploration.RunCollectsFoundClues` | algoritmos_avancados.c:111-117 | the collected texts are the old ones plus exactly the non-empty clues of the rooms visited |
| `Exploration.RunKeepsBST` | algoritmos_avancados.c:105-140 | exploring keeps the clue tree a search tree |
| `Exploration.WalkDescends` | algoritmos_avancados.c:129-132 | along a walk every later room lies below every earlier one |
| `Exploration.TraceDescends` | algoritmos_avancados.c:129-132 | every room visited later lies below every room visited earlier |
| `Exploration.TraceNeverReturns` | algoritmos_avancados.c:129-132 | once the player leaves a room, they never enter it again |
| `Exploration.SessionDependsOnlyOnCluesFound` | algoritmos_avancados.c:165-176 | two explorations that find the same clues, in any order, produce the same listing |

## Left out

- Console input and output (`printf`, `scanf`) and all narration. The choices the player types are a sequence of characters, already stripped of the whitespace that `scanf(" %c")` skips.
- End of input: `scanf` at end of file does not set the choice, so the C loop acts on the previous choice, or on an indeterminate value when nothing was read yet (line 106), and may never end. In the model the exploration ends when the choices run out (`quit` is false). The room entered last still has its clue collected.
- `main`'s literal mansion (lines 148-162) and the `free` calls (lines 179-184). Memory release is not modelled.
- Allocation failure and `exit(1)` (lines 35-38 and 57-60). Allocation is treated as always succeeding.
- Characters: texts are sequences of Unicode code points compared by value. On UTF-8 text this agrees with byte-wise `strcmp`; bytes that are not valid UTF-8 are not modelled.
- The fixed buffers `char[50]` and `char[100]` and `strcpy` overflow. Texts are unbounded sequences of characters.
- Texts with an embedded NUL character: C strings cannot hold one, and the model does not rule one out.
- StringOrder.Compare: gives only the sign of `strcmp`, not the byte difference it returns, because the code only compares the result with zero.
- Object identity: rooms and clue nodes are values. Two rooms with equal contents are the same room in the model. `inserirPista`'s in-place relinking of children is modelled as returning a new tree.
- The clue-to-suspect hash table and the accusation verdict are not part of this version of the program.
