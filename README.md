# Detective Quest: the mansion map and its exploration

A model of the room map of the Detective Quest game and of the walk a player
takes through it. The mansion is a binary tree of rooms; each room has a name
and up to two exits, left and right. The player starts in the entrance hall
and types one-character commands:

- `e` takes the left exit;
- `d` takes the right exit;
- `s` ends the exploration;
- a missing exit or any other character leaves the player where they are.

Every round of the walk writes the current room's name into a visit log of
twenty entries. The walk ends at a room without exits. When it is over, the
rooms are released bottom-up.

The project has four modules:

- `Rooms` (`rooms.dfy`): the room record as a heap object `Room`.
  - Its exits are nullable references that are assigned after the room is created.
  - A ghost footprint `Repr` and a ghost value `Model` tie each room to the immutable tree `Tree` it heads.
  - `Valid()` says the linked rooms form a finite tree with disjoint subtrees.
- `Exploration` (`exploration.dfy`): the walk.
  - `Walk` is the specification of one exploration, as a value: the rooms visited and why it stopped.
  - `Explore` is the loop as written. It has a 20-entry `array` log and reports a write past the last entry as `LogOverflow`.
  - `ExploreGrowing` is the same loop with a log that grows with the walk.
  - The lemmas state what every walk does: it traces a path down the tree, it ends at a dead end exactly when its last room has no exits, how long it is, and when it fits the fixed log.
- `Teardown` (`teardown.dfy`): the order in which the recursive release frees the rooms. It is proved to free every room once, after all the rooms below it, in post-order.
- `Mansion` (`mansion.dfy`): the fixed seven-room map, its construction, concrete walks through it, and one complete program run.

The model follows the code. The game's later stages, described in the
commented-out text at the end of `algoritmos_avancados.c`, attach clues to
rooms and keep a clue index and a suspect table during the walk. The code
has none of these: its rooms hold only a name and two exits, so the model
has no clues.

## Model

| member | source | states |
|---|---|---|
| Rooms.Room.constructor | algoritmos_avancados.c:19-29 | a new room has the given name and no exits; it is a valid one-room tree whose value is a leaf |
| Exploration.Step | algoritmos_avancados.c:51-62 | one command leads to the room itself or to one of its children, and leads away exactly when it is `e` with a left exit or `d` with a right exit |
| Exploration.Move | algoritmos_avancados.c:51-62 | following a command from a valid room yields the room itself or one of its two exits, a valid room whose value is `Step` of the current one |
| Exploration.Record | algoritmos_avancados.c:40-41 | writing a name at the next free entry changes that entry alone, so the written prefix of the log grows by exactly that name |
| Exploration.Walk | algoritmos_avancados.c:38-69 | every walk logs its starting room first and never ends for lack of a room |
| Exploration.Explore | algoritmos_avancados.c:32-76 | the loop as written returns, for a valid map and any input, exactly `Bounded(Walk(root, input))`: the full log when it fits, or the overflow of the 20-entry array; for a null map, an empty log |
| Exploration.ExploreGrowing | algoritmos_avancados.c:32-76 | the loop with a growing log returns every visited name in order and the reason the walk stopped, for every input |
| Exploration.WalkIsPath | algoritmos_avancados.c:38-41 | each logged room after the first is the previous room or one of its children, so the log is a downward path with repetitions |
| Exploration.DeadEndIffLeaf | algoritmos_avancados.c:43-46 | a walk ends at a dead end if and only if its last logged room has no exits |
| Exploration.WalkLength | algoritmos_avancados.c:38-49 | a walk logs at most one room more than it has commands, and exactly one more when the commands run out |
| Exploration.ShortInputFitsLog | algoritmos_avancados.c:34-41 | with fewer than 20 commands the fixed log never overflows |
| Exploration.OverflowIff | algoritmos_avancados.c:34-41 | the 20-entry log overflows if and only if there are at least 20 commands and the walk on the first 20 of them alone visits 21 rooms |
| Exploration.WalkPrefixLength | algoritmos_avancados.c:38-68 | a walk visits more than k rooms if and only if it has at least k commands and its first k commands alone make it visit k + 1 rooms |
| Exploration.IdleCommandsRelog | algoritmos_avancados.c:66-68 | in a room with exits, commands that lead nowhere log that room once per command and once more when the input ends |
| Exploration.DeadEndIgnoresInput | algoritmos_avancados.c:43-46 | a room without exits ends the walk after logging it once, whatever input remains |
| Exploration.QuitStopsAtOnce | algoritmos_avancados.c:63-65 | in a room with exits, `s` ends the walk after logging the room once |
| Teardown.PostOrder | algoritmos_avancados.c:79-85 | the post-order of a tree has one name per room and ends with the root's name |
| Teardown.PostOrderNames | algoritmos_avancados.c:79-85 | the post-order holds exactly the names of the tree's rooms, as a multiset |
| Teardown.Release | algoritmos_avancados.c:79-85 | nothing is released for a null tree; otherwise the root is released last |
| Teardown.ReleaseIsOrder | algoritmos_avancados.c:79-85 | the release frees exactly the rooms of the tree, each once, and each only after every room of its own subtree |
| Teardown.ReleaseNames | algoritmos_avancados.c:79-85 | the names of the released rooms, in release order, are the post-order of the tree's value |
| Teardown.PostOrderAfterSubtrees | algoritmos_avancados.c:80-84 | releasing the left subtree, then the right subtree, then the room is a release order for the room |
| Mansion.MansionShape | algoritmos_avancados.c:89-97 | the mansion is a perfect binary tree of height 3 with 7 rooms |
| Mansion.Join | algoritmos_avancados.c:89-91 | a new room whose two exits are assigned to disjoint trees is a valid tree over those trees and itself |
| Mansion.Corridor | algoritmos_avancados.c:93-97 | a new room with two new exit rooms is a valid tree of three fresh rooms with the given names |
| Mansion.BuildMansion | algoritmos_avancados.c:88-97 | the construction yields a valid tree of fresh rooms whose value is the mansion map |
| Mansion.LeftLeftReachesKitchen | algoritmos_avancados.c:51-53 | from the hall, `e` `e` logs hall, living room and kitchen and stops at the kitchen's dead end |
| Mansion.RightThenQuit | algoritmos_avancados.c:57-65 | from the hall, `d` `s` logs hall and library and ends on the quit command |
| Mansion.IdleHallOverflows | algoritmos_avancados.c:34-41 | twenty commands that lead nowhere from the hall make the 21st write overflow the 20-entry log |
| Mansion.IdleHallLoggedInFull | algoritmos_avancados.c:34-41 | with a growing log, the same twenty commands log the hall 21 times and end for lack of input |
| Mansion.MansionReleaseNames | algoritmos_avancados.c:102 | the mansion is released as kitchen, dining room, living room, study, winter garden, library, hall |
| Mansion.Session | algoritmos_avancados.c:87-104 | one run builds the mansion, returns the full visit log and stop reason of the walk on its input, and releases the rooms in post-order |

## Left out

- Console output (`printf`) is not modelled. The visit log and the stop reason are returned instead of printed.
- Console input (`scanf`) is not modelled. The commands are a parameter `input: seq<char>`. The format `" %c"` skips blanks, so `input` stands for the non-blank characters read; a blank in `input` is treated as a command that leads nowhere, which the program never sees.
- End of input is modelled as a stop (`OutOfInput`); the model does not capture what the program does there. When `scanf` fails, the program leaves `opcao` unchanged and repeats the last command read. After a move, the program keeps taking that exit until it reaches a room without exits, where it stops. If it reaches a room that has only the other exit, it loops there as below. On the mansion, input `e` visits the hall, the living room and the kitchen; the model logs only the hall and the living room. After a command that leads nowhere, the program loops forever and overflows the log at the 21st write. Only end of input before the first read leaves the behaviour undetermined, because `opcao` is then uninitialised.
- Allocation failure in `criarSala` and the `exit(1)` that follows are not modelled. They end the process on resource exhaustion.
- `free` is not modelled. `Teardown.Release` returns the order in which rooms are released; memory reclamation itself is not represented.
- Room names are Dafny strings. The 50-byte name buffers and `strcpy` are reduced to the precondition `NameFits` (fewer than 50 characters), with no byte encoding.
- The clue tree, the clue-to-suspect table and the final verdict are not modelled. They appear only in a commented-out block at the end of the source, with no code behind them.
- Mansion.BuildMansion: creates the seven rooms in a different order from the program, which builds top-down. The resulting tree is the same, and allocation order is not observable.
- Mansion.BuildMansion: assigns each room's two exits right after creating it, through `Join`, and the exit rooms before the rooms that lead to them. The program assigns exits hall first.
- Exploration.Explore: a write past the last log entry is reported as `LogOverflow` and ends the call. In the program that write is undefined behaviour, and nothing after it is modelled.
- Mansion.Session: runs the corrected exploration `ExploreGrowing`. The loop as written is `Exploration.Explore`, whose result on the same input is `Bounded` of the same walk.

## Findings

| source | as written | input that shows it | evidently intended | confidence | as-written member | corrected member |
|---|---|---|---|---|---|---|
| algoritmos_avancados.c:34-41 | every round writes the current room's name at index `contador` of `visitadas[20]` with no bound check | from the hall, twenty commands that lead nowhere (e.g. twenty `x`): the hall is logged 20 times and the 21st round writes `visitadas[20]` | a visit log that records every visit of the session, however long | not executed | Exploration.Explore, Mansion.IdleHallOverflows | Exploration.ExploreGrowing, Mansion.IdleHallLoggedInFull |
