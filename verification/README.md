# Client-slot table and console line buffer of a UDP chat relay

This project models two small state components of the chat relay in Dafny
and proves properties of them.

- **The server's client-slot table** (`ServerSocket` in
  `server/serversocket.cpp`). The table is an array of `mMaxClients` slots
  plus a counter `mClientCount`. Each slot holds a `used` flag, a peer
  address `(host, port)` and an opaque `appData` pointer. A handle is a
  slot index. The model covers clearing the slots at start-up, allocation
  of the lowest free slot, release, the private-data accessors and the two
  lookups. It keeps the source's quirks:
  - lookup by address ignores `used`;
  - allocation does not de-duplicate addresses;
  - `handleToPeerIPaddress` checks only the range;
  - `appData` survives a release and a reallocation of the slot.
- **The client's console line buffer** (`client/consoleutil.cpp`). This is
  a 64-cell `char` array with a length. The model covers `clear`,
  `addchar`, `delchar`, the per-key handling of `processAndQueueInput`,
  backspace and ESC, and the flush into the network code's buffer. Only
  the buffer's state is modelled, not what is echoed to the terminal.

Both are modelled as immutable values. Every operation is a function that
returns the new state or the value the C++ returns. Each of the four C++
loops also has a functional definition: `InitTable` for the slot clearing
of `init`, `FirstFree` for the scan of `allocClient`, `FindAddress` for
the scan of `peerIPaddressToHandle` and `Backspace` for
`processBackspace`. Each loop is also written as a method with loop
invariants (`InitClientList`, `ScanFirstFree`, `ScanAddress`,
`ProcessBackspace`), and each method is proved to return what its
function does.

Unsigned arithmetic is written out. `++mClientCount` and `--mClientCount`
wrap modulo 2^32 (`Types.Inc32`, `Types.Dec32`). The lemmas show that on a
valid table the counter never wraps. A `char` is a signed 8-bit value
(`Types.SChar`), as on the conio/MSVC toolchain the client targets.

Files:
- `types.dfy`: fixed-width integers and `Option`.
- `server_socket.dfy`: the slot table and its operations.
- `server_socket_props.dfy`: the counter invariant over any operation
  sequence, handle reuse, no de-duplication and the lookup quirks.
- `console_util.dfy`: the console buffer and key handling.
- `console_util_props.dfy`: the add/delete round trip, the line invariant
  over any key sequence, and type-then-flush.

`allocClient` takes any non-NULL address, even one that already owns a
slot. A caller that wants one slot per peer must check
`peerIPaddressToHandle` first (`ServerSocketProps.DuplicateAddressGetsTwoHandles`).

## Model

| member | source | states |
|---|---|---|
| ServerSocket.ClearConn | server/serversocket.h:19-23 | A cleared slot is unused with address 0:0. Its `appData` is not touched. |
| ServerSocket.InitTable | server/serversocket.cpp:25-37 | After `init` every slot is unused with address 0:0 and the count is 0, so the table invariant holds whenever the capacity fits 32 bits. Only `appData` keeps whatever the new array held. |
| ServerSocket.InitClientList | server/serversocket.cpp:25-37 | The slot-by-slot clearing loop of `init` yields exactly the table `InitTable` describes. |
| ServerSocket.FirstFree | server/serversocket.cpp:105-111 | The scan's result is the lowest index whose slot is unused, or the capacity if none is. Every slot below it is used. |
| ServerSocket.ScanFirstFree | server/serversocket.cpp:105-111 | The C++ `for`/`break` loop stops at exactly that first free index. |
| ServerSocket.AllocClient | server/serversocket.cpp:97-123 | A NULL address, or a table with every slot used, returns -1 and changes nothing. Otherwise the result is the lowest unused index h (every slot below h was used). Slot h becomes used with the given address and keeps its old `appData`. Every other slot is unchanged and the counter is incremented. |
| ServerSocket.FreeClient | server/serversocket.cpp:125-136 | An out-of-range or unused handle is a no-op. A used slot becomes unused with address 0:0 and keeps its `appData`. The other slots are unchanged and the counter is decremented. |
| ServerSocket.SetPrivateData | server/serversocket.cpp:138-149 | On an in-range used slot it sets only that slot's `appData`, leaving its flag, its address, the other slots and the count alone. Otherwise it changes nothing. |
| ServerSocket.GetPrivateData | server/serversocket.cpp:151-162 | Returns the slot's `appData` for an in-range used handle and NULL otherwise. |
| ServerSocket.HandleToPeerIPaddress | server/serversocket.cpp:245-253 | NULL exactly when the handle is out of range. Otherwise it is the stored address, even for an unused slot. |
| ServerSocket.FindAddress | server/serversocket.cpp:259-267 | The lowest index whose host and port equal the query, or the capacity when no slot matches. |
| ServerSocket.ScanAddress | server/serversocket.cpp:259-267 | The C++ lookup loop (host compared before port) returns -1 exactly when no slot matches, and otherwise the first match. |
| ServerSocket.PeerIPaddressToHandle | server/serversocket.cpp:255-270 | -1 if and only if no slot (used or not) holds the address. Otherwise it is the lowest such slot. |
| ServerSocketProps.AllocPreservesValid | server/serversocket.cpp:97-123 | Allocation keeps count == number of used slots. A successful allocation raises the count by exactly one, with no wrap-around. |
| ServerSocketProps.FreePreservesValid | server/serversocket.cpp:125-136 | Release keeps count == number of used slots. Releasing a used slot lowers the count by exactly one, with no wrap-around. |
| ServerSocketProps.SetPrivateDataPreservesValid | server/serversocket.cpp:138-149 | Storing private data keeps the table invariant. |
| ServerSocketProps.AllocFailsWhenFull | server/serversocket.cpp:113-116 | When the count equals the capacity, allocation returns -1 and leaves table and count unchanged. |
| ServerSocketProps.RunPreservesValid | server/serversocket.cpp:97-149 | For any sequence of alloc/free/set-data calls on a valid table, the invariant holds, the count stays within the capacity and the capacity never changes. |
| ServerSocketProps.FreedLowestSlotIsReused | server/serversocket.cpp:97-136 | If every slot below h is used, freeing h makes the next allocation return h. |
| ServerSocketProps.HandleReuseWithTwoSlots | server/serversocket.cpp:97-136 | With capacity 2: alloc A gives 0, alloc B gives 1, free 0, then alloc C gives 0 (not 2), with count 2. |
| ServerSocketProps.DuplicateAddressGetsTwoHandles | server/serversocket.cpp:97-123 | With two free slots, allocating the same address twice gives two distinct used handles holding that address. |
| ServerSocketProps.LookupOfZeroFindsFreedSlot | server/serversocket.cpp:255-270 | After freeing slot h, the query 0:0 returns h when no lower slot holds 0:0, even though h is unused. |
| ServerSocketProps.ReusedSlotKeepsStaleData | server/serversocket.cpp:97-162 | A client that takes over a freed slot gets the previous occupant's `appData` from `getPrivateData`. |
| ServerSocketProps.AllocThenLookup | server/serversocket.cpp:97-123 | An address no slot holds yet, once allocated, is found by `peerIPaddressToHandle` at its handle. `handleToPeerIPaddress` of that handle gives the address back. |
| ServerSocketProps.SetThenGetPrivateData | server/serversocket.cpp:138-162 | `getPrivateData` returns the pointer `setPrivateData` stored in an in-range used slot, NULL for a handle whose store was refused, and is unchanged for every other handle. |
| ServerSocketProps.RunKeepsFreeSlotsZeroed | server/serversocket.cpp:97-149 | For any sequence of alloc/free/set-data calls, every unused slot keeps address 0:0, as `init` and `freeClient` leave it. |
| ServerSocketProps.InitThenRunIsValid | server/serversocket.cpp:25-37 | A table built by `init` and then driven by any sequence of alloc/free/set-data calls keeps its count equal to its used slots and within the capacity, with every unused slot at 0:0. |
| ServerSocketProps.AllocThenFreeRestores | server/serversocket.cpp:97-136 | On a valid table whose free slots hold 0:0, releasing the handle just allocated restores the exact previous table, counter included. |
| ServerSocketProps.LookupOfZeroFindsFirstFree | server/serversocket.cpp:255-270 | When no used slot holds 0:0, the query 0:0 returns the slot `allocClient` would take next, or -1 when the table is full. |
| ConsoleUtil.Clear | client/consoleutil.cpp:38-42 | Leaves an empty line that satisfies the invariant (`length <= 63` and `buffer[length] == NUL`). Only cell 0 is overwritten. |
| ConsoleUtil.AddChar | client/consoleutil.cpp:50-62 | Succeeds if and only if `length < 63`. On success the text gains the key at its end and a NUL follows it, with the later cells untouched. On failure the buffer is unchanged. It preserves the invariant. |
| ConsoleUtil.DelChar | client/consoleutil.cpp:69-80 | Succeeds if and only if `length > 0`. On success the last character is dropped, its cell becomes NUL and the cells past it are untouched. On failure the buffer is unchanged. It preserves the invariant. |
| ConsoleUtil.Backspace | client/consoleutil.cpp:235-245 | `spaces` backspaces remove exactly `min(spaces, length)` trailing characters and NUL their cells. The rest of the text and the cells past the old end are unchanged. |
| ConsoleUtil.ProcessBackspace | client/consoleutil.cpp:235-245 | The C++ loop of `delchar` calls ends in the same buffer as that removal. |
| ConsoleUtil.ProcessLineEscape | client/consoleutil.cpp:272-275 | ESC always leaves length 0 with every formerly used cell NUL, and it preserves the invariant. |
| ConsoleUtil.ProcessKey | client/consoleutil.cpp:304-310 | Queues the key when fewer than 63 characters are queued, with `addchar`'s NUL right after it and the cells beyond untouched. Otherwise the buffer is unchanged. A valid buffer stays valid. |
| ConsoleUtil.ProcessAndQueueInput | client/consoleutil.cpp:197-228 | 0x08 deletes one character. 0x0B and 0x0D leave the buffer alone. 0x1B empties it exactly as `processLineEscape` does. 0x7F and other keys below 0x20 change nothing. Every key from 0x20 up other than 0x7F is passed to `addchar`: the `<= 0x126` test never excludes a signed char. The "still typing" result is false exactly for 0x0B, 0x0D and 0x1B. It preserves the invariant. |
| ConsoleUtil.ConsoleFlushQueueToBuffer | client/consoleutil.cpp:146-165 | A NULL destination returns -1 and leaves the console unchanged. Otherwise it copies `min(length, maxlen-1)` characters, where `maxlen-1` is unsigned so `maxlen` 0 gives 0xFFFFFFFF. It writes NUL right after them and leaves the rest of the destination alone. It returns that count and leaves the console an empty valid line. |
| ConsoleUtilProps.AddCharThenDelChar | client/consoleutil.cpp:50-80 | A successful `addchar` followed by `delchar` restores length and text. The only cell that differs is the one after the old NUL, which now holds NUL. |
| ConsoleUtilProps.KeyPreservesLine | client/consoleutil.cpp:197-228 | Every key keeps the buffer a NUL-terminated line with no NUL inside its text. |
| ConsoleUtilProps.InitialIsLine | client/consoleutil.cpp:83 | The zero-initialised static buffer is an empty valid line. |
| ConsoleUtilProps.TypingPreservesLine | client/consoleutil.cpp:197-228 | After any key sequence the buffer is a NUL-terminated line of at most 63 characters. |
| ConsoleUtilProps.TypingPrintableAppends | client/consoleutil.cpp:219-224 | Printable keys that fit are appended in order, one each. |
| ConsoleUtilProps.TypingPastCapacityIsDropped | client/consoleutil.cpp:53-61 | Once 63 characters are queued, further printable keys are dropped. |
| ConsoleUtilProps.FlushDeliversLine | client/consoleutil.cpp:146-165 | Flushing a line into a 64-byte buffer with `maxlen` 64 (the size the client's input handler uses) copies the whole line. The copy is NUL-terminated with no NUL inside, and the console is emptied. |
| ConsoleUtilProps.TypeThenFlush | client/consoleutil.cpp:146-165 | Up to 63 printable keys typed from the initial state, then flushed, arrive in the destination exactly and NUL-terminated. |
| ConsoleUtilProps.EscapeThenFlushIsEmpty | client/consoleutil.cpp:213-216 | ESC ends typing, and a following flush copies nothing and writes only the NUL. |
| ConsoleUtilProps.FlushZeroMaxlenCopiesWholeLine | client/consoleutil.cpp:156-159 | With `maxlen` 0 the unsigned bound wraps, so the whole queued line is copied and NUL-terminated. |
| ConsoleUtilProps.FlushIntoFullSizeBufferStaysInBounds | client/consoleutil.cpp:156-159 | For a valid console and a 64-cell destination, every `maxlen` (0 included) keeps the copy and its NUL inside the destination. |

## Left out

- SDL_net transport work has no model. This covers host resolution and the UDP open in `ServerSocket::init`, `shutdown`, `allocPacket`/`freePacket`, `receiveData`, the send in `transmitData`, and all of `client/clientsocket.cpp`. It is I/O over a library outside this model.
- Console terminal output has no model. This covers `ConsoleInit`'s `freopen` and 100-newline hack, `ConsolePrintf`, `processClearLine`, `printPrompt`, `printPromptAndText`, and every echo `printf`. `processLineEnter` only writes to the terminal, so ENTER is modelled as leaving the buffer unchanged.
- `ConsoleHandleInput` is not modelled. Its `kbhit`/`getch` polling and static `userTyping` flag are terminal input. Key sequences are modelled as parameters (`ConsoleUtilProps.TypeKeys`).
- The `flags` field of the console buffer is left out. It only selects how ENTER is echoed.
- `server/tcprotocol.cpp` is a stub that logs each datagram and stops the server when its payload is "quit" (server/tcprotocol.cpp:26). There is no join/leave/text handling, codec, sequence counter or broadcast to model.
- `client/tcprotocol.cpp` compares the flushed user line with "/quit" (client/tcprotocol.cpp:60-65) and dumps received datagrams when `DEBUG_SHOW_RAW_PACKET` is defined (client/tcprotocol.cpp:83). Its "/join", "/leave" and text formats are comments only, so there is nothing more to model.
- `server/util.cpp` (`debugDumpMemoryContents`), `server/main.cpp` and `client/main.cpp` are not modelled. They are print-only debugging and polling loops around I/O.
- ServerSocket.AllocClient: the handle is returned as a non-negative index. The C++ converts the `U32` index to `int`, which would turn an index of 2^31 or more into a negative value. Tables of that size are not modelled.
- ServerSocket.PeerIPaddressToHandle: same as `AllocClient`. The `int` conversion of indices of 2^31 or more is not modelled, and the address is passed by value. The C++ dereferences a NULL query without checking it, which is undefined behaviour and has no model.
- ServerSocket.InitClientList: `new ClientConn[n]` leaves the slots indeterminate, so the prior array is a parameter. The failure branch for a NULL `new` result is not modelled, since standard `new[]` throws instead of returning NULL.
- ConsoleUtil.ConsoleFlushQueueToBuffer: requires the write index `min(length, maxlen-1)` to lie inside the destination. The C++ writes there without a check, so a shorter destination is a buffer overflow, which has no model. This happens when `maxlen` exceeds the destination's size, or is 0, and the queued line is at least as long as the destination.
- The header/source drift is resolved in favour of the .cpp. `appData` and the private-data methods are not declared in `server/serversocket.h`, and the handle types differ between header and source.
- ServerSocket.HandleToPeerIPaddress: the C++ returns `&mClientList[handle].address`, a pointer into the table. The model returns a copy of the address. The only caller, `transmitData` (server/serversocket.cpp:210-212), reads through the pointer and never writes.
- ServerSocket.ClearConn: the `ClientConn` in `server/serversocket.h` declares no `appData`, so the version of `clear()` that goes with the .cpp's `appData` field is not part of this model. The model assumes `clear()` is as written in `server/serversocket.h:19-23` and leaves `appData` alone. The "release keeps `appData`" half of `ServerSocketProps.ReusedSlotKeepsStaleData` depends on that assumption. The "allocation does not set `appData`" half is visible in `allocClient`.
