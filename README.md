# Three small Python programs, modelled in Dafny

This project models three independent programs from one repository of small Python exercises and proves properties of them:

- **Minesweeper board** (`minesweeper/main.py`). `GamePole` validates its size and mine count, then builds a size×size grid of `Cell`s. It scatters `mine_count` mines at random, never two on the same cell. After each mine it adds one to every counter in the 3×3 block around it. `open_cell` and `open_all` set the open flags.
- **Doubly linked list** (`doubly_linked_list/doubly_linked_list.py`). `ObjList` nodes carry data plus next and prev links. `LinkedList` holds a head and a tail. It supports appending (`add_obj`), popping the tail (`remove_obj`) and listing the data (`get_data`). All three raise `CorruptedLinkedListError` when the list has a head but no tail.
- **Local network** (`local_network/local_network.py`, `local_network/example.py`).
  - `Server`s get consecutive ips from a class-wide counter.
  - A server sends a `Data` packet to the `Router` it is linked to.
  - The router's `send_data` forwards its buffered packets to the servers mapped at their ips.

Module layout:

- `minesweeper.dfy` (module `Minesweeper`):
  - The grid is a flat `array<Cell>` in row-major order. Cell (r, c) of a grid of side n is `pole[Idx(n, r, c)]`.
  - `GamePole` is a class whose methods update the grid in place.
  - `CountersConsistent` is the invariant every board keeps. Each counter equals the number of mines in the in-bounds part of its 3×3 block (`BlockMines`).
- `doubly_linked_list.dfy` (module `DoublyLinkedList`):
  - `ObjList` and `LinkedList` are classes.
  - The ghost sequence `nodes` is the chain from head to tail.
  - `Linked()` says the links follow `nodes`. It still admits the "head but no tail" state that the corruption check detects.
- `local_network.dfy` (module `LocalNetwork`):
  - `Server`, `Router` and `IpAllocator` are classes. `IpAllocator` is the class-wide ip counter, turned into an object.
  - `Data` is a value.
  - `Router.SendData` is proved against the pure functions `Addressed` (the packets of a batch sent to one ip) and `DeliverablePrefix` (how many packets, from the front, have a mapped ip).
- `decimal.dfy` (module `Decimal`): Python's `str(int)` and a parser that inverts it. The text of a cell and of a packet are built on it.
- `wrappers.dfy` (module `Wrappers`): `Option`, `Outcome` and `Result`. They model the exceptions the source raises.

On two points the code does something other than what a reader might expect. The model follows the code:

- **Counters include the cell itself.** `update_around_mines` adds one to the whole in-bounds 3×3 block, centre included. So a mine cell's counter includes its own mine. On a 2×2 board full of mines every counter is 4, not the neighbour count 3 (`FullTwoByTwo`, and `CounterMeaning` in general).
- **The setters remain.** `size` and `mine_count` keep their setters after construction and do not rebuild the grid. So the grid may have been built for a different size than the current one: the model's `side` field is the size the grid was built for, which `size` may no longer match. `open_cell` then raises IndexError from the list lookup (`GridLookup`).

## Model

| member | source | states |
|---|---|---|
| Minesweeper.Opened | minesweeper/main.py:153 | opening a cell sets its open flag and keeps its mine flag and counter |
| Minesweeper.CellTextCases | minesweeper/main.py:22-27 | a cell's text is "#" exactly when it is closed and "*" exactly when it is an open mine; an open safe cell's text reads back as its counter |
| Minesweeper.OpenedIdempotent | minesweeper/main.py:155-158 | opening twice is opening once, and opening an open cell changes nothing |
| Minesweeper.ValidateSize | minesweeper/main.py:30-33 | no error exactly when the size is positive, otherwise the size ValueError |
| Minesweeper.ValidateMineCount | minesweeper/main.py:36-39 | no error exactly when the mine count is non-negative, otherwise the mine-count ValueError |
| Minesweeper.ConstructionVerdict | minesweeper/main.py:70-72 | construction succeeds exactly when size > 0 and 0 <= mine_count <= size²; otherwise it fails on the size first, then on a negative count, then on capacity |
| Minesweeper.SettersAgreeOnCapacity | minesweeper/main.py:45-68 | once both fields exist, the two setters apply the same capacity check, and it passes exactly when both fields are valid together |
| Minesweeper.Idx | minesweeper/main.py:77-80 | row-major indexing: cell (r, c) lies in the grid, and integer division and remainder by the side give back r and c |
| Minesweeper.PlacementInBounds | minesweeper/main.py:94-98 | a draw i in [0, n²) names the in-bounds cell (i // n, i % n), whose flat index is i |
| Minesweeper.CountMinesUpdate | minesweeper/main.py:130 | replacing one cell changes the mine count by the difference of the two mine flags |
| Minesweeper.CountMinesSameFlags | minesweeper/main.py:153-158 | the mine count depends only on the mine flags, so opening cells never changes it |
| Minesweeper.FreeCellExists | minesweeper/main.py:126-127 | a grid with fewer mines than cells has a cell without a mine, so the retry loop has a cell to stop on |
| Minesweeper.AllMinesCount | minesweeper/main.py:122-130 | the count equals the number of cells exactly when every cell is a mine |
| Minesweeper.CounterMeaning | minesweeper/main.py:109-120 | under consistent counters, a cell's counter is its number of mine neighbours plus one if the cell itself is a mine |
| Minesweeper.SameMinesSameBlocks | minesweeper/main.py:109-120 | the 3×3 block counts depend only on the mine flags |
| Minesweeper.ConsistencyIgnoresOpenFlags | minesweeper/main.py:153-158 | counters stay consistent whatever cells are opened |
| Minesweeper.FreshGrid | minesweeper/main.py:77-80 | a freshly built grid has no mines and consistent counters |
| Minesweeper.MineAtAfterPlacement | minesweeper/main.py:130 | marking cell t as a mine changes the mine indicator of t and of no other cell |
| Minesweeper.BlockAfterPlacement | minesweeper/main.py:130-133 | a new mine at t adds one to the block count of exactly the cells of the 3×3 block around t |
| Minesweeper.ConsistentAfterPlacement | minesweeper/main.py:129-133 | marking a mine and adding one to the counters around it keeps every counter consistent |
| Minesweeper.FullTwoByTwo | minesweeper/main.py:109-120 | on a 2×2 board of four mines every counter is 4 (the counter includes the cell itself) |
| Minesweeper.RandomSource.RandInt | minesweeper/main.py:94 | a draw lies in [low, high], both ends included |
| Minesweeper.GamePole.constructor | minesweeper/main.py:70-73 | for valid fields: a consistent board of that size with exactly mine_count mines, all closed |
| Minesweeper.GamePole.Create | minesweeper/main.py:70-73 | construction fails exactly when the setters' checks do, with their error and without drawing; otherwise a consistent board with exactly mine_count mines, all closed |
| Minesweeper.GamePole.SetSize | minesweeper/main.py:45-55 | the size ValueError for size <= 0, the capacity ValueError for too many mines; the size changes exactly when the fields stay valid; the grid is not rebuilt |
| Minesweeper.GamePole.SetMineCount | minesweeper/main.py:61-68 | the ValueError for a negative count, the capacity ValueError for more mines than cells; the count changes exactly when the fields stay valid; the grid is not rebuilt |
| Minesweeper.GamePole.Init | minesweeper/main.py:75-81 | a fresh grid of the current size with exactly mine_count mines, all closed, consistent counters |
| Minesweeper.GamePole.ObtainRandomCellPlacement | minesweeper/main.py:88-99 | the drawn row and column lie in [0, size) |
| Minesweeper.GamePole.UpdateAroundMines | minesweeper/main.py:101-120 | adds one to the counter of every in-bounds cell of the 3×3 block around the target and changes nothing else |
| Minesweeper.GamePole.ScatterMines | minesweeper/main.py:83-133 | from a fresh grid: exactly mine_count mines, consistent counters, no cell opened; with no mines the grid is untouched |
| Minesweeper.GamePole.DrawFreeCell | minesweeper/main.py:124-127 | the draw-and-retry loop ends on an in-bounds cell without a mine |
| Minesweeper.GamePole.PlaceMine | minesweeper/main.py:122-133 | one round marks exactly one cell that was not a mine, raises the mine count by one, keeps the open flags and keeps counters consistent |
| Minesweeper.GamePole.OpenCell | minesweeper/main.py:141-153 | IndexError for the row, then the column, outside [0, size), then for a grid built smaller; it succeeds exactly when the cell is in range of both the size and the built grid, and then exactly that cell is opened and the board stays consistent |
| Minesweeper.GamePole.OpenAll | minesweeper/main.py:155-158 | every cell is opened and nothing else changes |
| Decimal.NatToString | minesweeper/main.py:27 | str of a natural number: at least one digit, only digits, no leading zero |
| Decimal.NatRoundTrip | minesweeper/main.py:27 | the digits of str(n) denote n |
| Decimal.IntToStringShape | local_network/local_network.py:8-9 | str(i) is non-empty and made of digits and a minus sign only, so it holds no parenthesis |
| Decimal.IntRoundTrip | minesweeper/main.py:27 | parsing str(i) gives i back for every integer |
| DoublyLinkedList.ObjList.constructor | doubly_linked_list/doubly_linked_list.py:10-13 | a new node holds its data and has no links |
| DoublyLinkedList.ObjList.SetNext | doubly_linked_list/doubly_linked_list.py:15-16 | sets the next link and keeps the prev link and the data |
| DoublyLinkedList.ObjList.SetPrev | doubly_linked_list/doubly_linked_list.py:18-19 | sets the prev link and keeps the next link and the data |
| DoublyLinkedList.ObjList.SetData | doubly_linked_list/doubly_linked_list.py:21-22 | sets the data and keeps both links |
| DoublyLinkedList.DataOf | doubly_linked_list/doubly_linked_list.py:108-113 | the data of a node sequence, element by element and of the same length |
| DoublyLinkedList.LinkedList.constructor | doubly_linked_list/doubly_linked_list.py:40-42 | a new list is empty and well linked |
| DoublyLinkedList.LinkedList.AddObj | doubly_linked_list/doubly_linked_list.py:49-72 | corrected add_obj (see ## Findings): CorruptedLinkedListError with nothing changed on a corrupted list; otherwise the node is appended (nodes grow by it, it is the tail, its prev is the old tail or none), the list stays well linked and every node keeps its data |
| DoublyLinkedList.LinkedList.Append | doubly_linked_list/doubly_linked_list.py:62-72 | corrected add_obj (see ## Findings): on a list that is not corrupted, appends the node, clearing its links to the list's ends, and keeps the list well linked |
| DoublyLinkedList.LinkedList.LinkAfterTail | doubly_linked_list/doubly_linked_list.py:66-72 | on a non-empty list the tail and the node link to each other and the node becomes the tail |
| DoublyLinkedList.LinkedList.RemoveObj | doubly_linked_list/doubly_linked_list.py:74-98 | CorruptedLinkedListError, then IndexError for an empty list, each with the list unchanged; otherwise returns the old tail, drops it from nodes, keeps the list well linked and the data, empties a one-node list, and leaves the removed node untouched |
| DoublyLinkedList.LinkedList.DetachTail | doubly_linked_list/doubly_linked_list.py:85-98 | the tail's prev becomes the tail with no next link, or the list becomes empty |
| DoublyLinkedList.LinkedList.AddObjAsWritten | doubly_linked_list/doubly_linked_list.py:49-72 | add_obj on raw links: on an empty list the node keeps its old prev link; otherwise the old tail links forward to it and it back to the old tail; data and the old tail's prev are unchanged |
| DoublyLinkedList.LinkedList.RemoveObjAsWritten | doubly_linked_list/doubly_linked_list.py:85-98 | remove_obj on raw links: the tail's prev node, whatever it is, becomes the tail with next cleared, keeping its prev and data; the removed node is unchanged unless it is its own prev |
| DoublyLinkedList.LinkedList.GetData | doubly_linked_list/doubly_linked_list.py:100-113 | CorruptedLinkedListError on a corrupted list; otherwise the data of the nodes from head to tail, in order |
| DoublyLinkedList.StalePrevCounterexample | doubly_linked_list/doubly_linked_list.py:62-72 | the counterexample input of the finding: after the steps, the list that gave up its only node still has a head and a tail |
| DoublyLinkedList.StalePrevCorrected | doubly_linked_list/doubly_linked_list.py:62-72 | with the corrected add_obj the same steps leave the list empty |
| LocalNetwork.PacketTextRoundTrip | local_network/local_network.py:8-9 | the text "data (ip)" of a packet determines the packet, whatever its payload holds |
| LocalNetwork.Addressed | local_network/local_network.py:87-88 | the packets a server receives from a batch are at most the batch, all addressed to it, all from the batch |
| LocalNetwork.AddressedConcat | local_network/local_network.py:87-88 | forwarding a concatenated batch forwards each part, in order |
| LocalNetwork.AddressedAll | local_network/local_network.py:87-88 | a batch addressed entirely to one ip is delivered to it whole and in order |
| LocalNetwork.AddressedNone | local_network/local_network.py:87-88 | a batch with no packet for an ip delivers nothing to it |
| LocalNetwork.DeliverablePrefix | local_network/local_network.py:87-88 | the length of the longest front part of the batch whose ips are mapped: every packet before it is mapped, the packet at it is not |
| LocalNetwork.IpAllocator.constructor | local_network/local_network.py:18 | the counter starts at 1 with no ip handed out |
| LocalNetwork.Server.constructor | local_network/local_network.py:20-25 | a new server takes the counter's value as its ip, above every ip handed out before; the counter moves on by one; empty buffer, no router |
| LocalNetwork.Server.GetData | local_network/local_network.py:35-43 | returns the buffered packets in arrival order and empties the buffer |
| LocalNetwork.Server.SendData | local_network/local_network.py:45-54 | ServerError without a router; otherwise the packet joins the end of the router's buffer and the router's map is unchanged |
| LocalNetwork.Router.constructor | local_network/local_network.py:60-62 | a new router has an empty buffer and no mapped servers |
| LocalNetwork.Router.Link | local_network/local_network.py:64-71 | the server's router becomes this one and its ip maps to it |
| LocalNetwork.Router.Unlink | local_network/local_network.py:73-80 | the server loses its router and its ip is no longer mapped, whether or not it was |
| LocalNetwork.Router.DeliverNext | local_network/local_network.py:87-88 | one iteration: the packet joins the buffer of the server at its ip, and the servers hold the packets addressed to them up to and including it; only the servers' buffers are written |
| LocalNetwork.Router.SendData | local_network/local_network.py:82-89 | each mapped server receives, in order, the batch's packets for its ip up to the first unmapped one; that packet raises KeyError with the buffer kept, otherwise the buffer is emptied; of the servers only their buffers are written |
| LocalNetwork.AddressedStep | local_network/local_network.py:87-88 | one more packet extends the delivery to its own ip only |
| LocalNetwork.ExampleDelivery | local_network/example.py:11-16 | in the example batch, server 5 receives the two greetings in send order and server 1 the reply |
| LocalNetwork.JoinNetwork | local_network/example.py:4-10 | a new server takes the next ip and is linked to the router |
| LocalNetwork.ExampleNetwork | local_network/example.py:3-10 | the five servers get ips 1 to 5 in creation order and all map to the one router |
| LocalNetwork.Example | local_network/example.py:3-16 | whatever the three payloads, sv_to receives its two packets in send order and sv_from receives the reply |

## Left out

- `GamePole.show` and the module-level `gp = GamePole(10, 12)`: console output and a script entry point.
- `_validate_type_and_raise_otherwise` and the `isinstance` checks in `add_obj` and `open_cell`: every argument is statically typed, so TypeError cannot arise.
- Exception messages: only which exception is raised is modelled, not its text.
- `random.randint`: it is a `RandomSource` object whose contract promises only the range. The distribution of the mines is not modelled.
- Minesweeper.GamePole.DrawFreeCell: the `while` retry loop is represented by the cell it stops on: the first draw if it is free, else some free cell. The number of draws, and whether the loop ends for a given random sequence, are not modelled.
- `__slots__` and the `hasattr` tests in the setters: the "field not set yet" state exists only inside `__init__`. `CheckConstruction` models it by running the size check with no mine count.
- Minesweeper.GamePole.constructor: only the successful path. `GamePole.Create` adds the ValueError paths.
- DoublyLinkedList.LinkedList.AddObj: requires the node not to be in the list already. The source accepts it. Re-adding the current tail makes that node its own prev (lines 67-69 point both links at it, then line 72 clears next); `get_data` is unchanged, but every later `remove_obj` returns that node and keeps it as the tail, so the list never shrinks. Re-adding an earlier node makes it the tail with next None, so the walk from head stops at it and every node after it drops out of `get_data`.
- DoublyLinkedList.LinkedList.Append: the same precondition as `AddObj`, for the same reason; re-adding a node is not modelled on the ghost chain.
- DoublyLinkedList.LinkedList.LinkAfterTail: the same precondition as `AddObj`; linking the tail or an earlier node again is covered only by `AddObjAsWritten`, on raw links.
- DoublyLinkedList.LinkedList.AddObj, RemoveObj: they say the data of every node is unchanged. They do not restate `DataOf` of the list, which follows from that and from `nodes`.
- Aliasing of `ObjList` nodes shared between two lists is not modelled. A node is assumed to belong to at most the list it is added to.
- `Data` is a value, not an object. The source forwards the same packet object to the server, so two holders sharing one packet object is not modelled.
- The class attribute `Server._base_ip_address` is an explicit `IpAllocator` passed to each new server. A server's ip is a constant, because the source never changes it after `__init__`.
- The final `print` of `local_network/example.py` is not modelled. The text of each packet is `Data.ToString`, and `PacketTextRoundTrip` shows that it identifies the packet.
- LocalNetwork.Server.GetIp, Data.ToString, Cell.ToString, DoublyLinkedList.ObjList.GetNext, GetPrev, GetData (the node getters) and DoublyLinkedList.LinkedList.Corrupted (the condition `_raise_if_corrupted` tests): their bodies are the source expressions. They carry no contract of their own; `PacketTextRoundTrip` and `CellTextCases` state what the text results mean; the getters appear in the setters' contracts, and `Corrupted` decides the error cases of `AddObj`, `RemoveObj` and `GetData`.

## Findings

| source | as written | input that shows it | evidently intended | confidence | as-written member | corrected member |
|---|---|---|---|---|---|---|
| doubly_linked_list/doubly_linked_list.py:62-72 | `add_obj` clears only the new node's next link, so a node appended to an empty list keeps an old prev link; `remove_obj` then follows that link | append nodes a and b, remove both, append b again and remove it: `remove_obj` returns b but the list keeps b as head and takes a as tail | a node appended to an empty list has no prev link, and removing the only node empties the list | medium, not executed | DoublyLinkedList.StalePrevCounterexample | DoublyLinkedList.LinkedList.AddObj |
