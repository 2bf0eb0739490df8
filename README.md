# cbuf: a verified model of a fixed-capacity byte ring buffer

The C library `cbuf` manages a circular byte buffer over storage that the
caller supplies. A handle `cbuf_t` holds four things:

- `bufPtr`, the storage;
- `size`, the number of slots;
- `writePos`, the slot the next byte is written to;
- `readPos`, the slot the next byte is read from.

One slot always stays unused. Because of that, "empty" (`writePos ==
readPos`) and "full" (`writePos + 1 == readPos`, modulo `size`) are
different cursor placements, and a buffer of `size` slots holds at most
`size - 1` bytes. The library offers:

- bulk writes and reads that copy in at most two `memcpy` pieces, split at
  the end of the storage;
- single-byte writes and reads;
- the queries full, empty, free count and filled count.

This project models the library in Dafny. It has three modules:

- `Ring` (ring.dfy) is the arithmetic of a ring of `n` slots, plus the
  abstractions the buffer is specified with:
  - `Slot(start, i, n)` is the slot `i` steps after `start`.
  - `Offset(from, to, n)` is the number of steps from one slot to another.
  - `Window` is the bytes a read cursor sees.
  - `Deposit` is the storage after a run of single-slot writes.
  - `Placed` describes a bulk copy slot by slot: the new bytes sit in the
    slots from a cursor on, and every other slot keeps its byte.
  - `Drain` is what a run of single-slot reads returns.
- `Cbuf` (cbuf.dfy) holds the class `CircularBuffer`, whose fields are
  those of `cbuf_t`, and the operations. The functions `IsFull`, `IsEmpty`,
  `GetFree` and `GetFilled` read the handle. The methods `Init`, `Write`,
  `Read`, `WriteSingle` and `ReadSingle` update it in place. The storage is
  an `array<bv8>`, and `memcpy` is a method with a copying loop.
- `CbufFixtures` (fixtures.dfy) replays the scenarios of the unit tests.
  Each is a method whose `ensures` fixes the concrete outcome the
  contracts of `Cbuf` imply.

Three notions carry the specification:

- `Valid()` says the storage is bound, `0 < size <= bufPtr.Length`, and
  both cursors lie below `size`.
- `Contents()` is the unread bytes, oldest first. These are the slots from
  `readPos` up to, but not including, `writePos`, wrapping modulo `size`.
- Every operation states its effect on `Contents()`:
  - a write appends the bytes it accepted;
  - a read returns a prefix and drops it.

  Together these give first-in-first-out order.

C's `uint64_t` becomes the subset type `u64`. Under `Valid()` every sum and
difference the code computes stays within range, so no wrap-around occurs.
The code's `% size` is tied to the linear `Slot`/`Offset` by `SlotIsMod`
and `OffsetIsMod`. The four cursor advances that the code writes with
`% size` (src/cbuf.c:85, 115, 141 and 153) go through `AddMod`, which
computes `(pos + k) % size`. The four advances written with `+=`
(src/cbuf.c:92, 98, 122 and 128) are plain additions in the model too.
Their branch conditions keep the result below `size`.

The code and its tests disagree about one case: a bulk write when both
cursors are on the same slot, which includes an empty buffer right after
`cbuf_init`.

- The code takes neither copy branch and returns 0 (src/cbuf.c:82, 96,
  101).
- The tests expect the bytes to be stored (test/test_cbuf.c:210-213 and
  259-265).

`Write` models the code as written. `WriteIntended` is the version with
`>=` in the first comparison. See "## Findings".

## Model

| member | source | states |
|---|---|---|
| Cbuf.Min | src/cbuf.c:7 | the result is one of the two arguments and is at most both, so it is the smaller one |
| Cbuf.AddMod | src/cbuf.c:85 | the cursor advance (pos + k) % n, for a sum that does not pass n, is the slot k steps after pos |
| Cbuf.Memcpy | src/cbuf.c:84 | destination slots dstOff.. hold source bytes srcOff.. in order; every other destination slot is unchanged |
| Cbuf.CircularBuffer.constructor | src/cbuf.h:7-12 | a declared handle not bound to storage. In C, the fields of a declared `cbuf_t` are indeterminate. The null storage and zero fields exist only because Dafny must initialise fields; no contract depends on them, since every operation except `Init` requires `Valid()` |
| Cbuf.CircularBuffer.IsFull | src/cbuf.c:46-49 | full exactly when no slot is free, which is exactly when size - 1 bytes are held |
| Cbuf.CircularBuffer.IsEmpty | src/cbuf.c:52-55 | empty exactly when the filled count is 0, which is exactly when no bytes are held |
| Cbuf.CircularBuffer.GetFree | src/cbuf.c:58-60 | the free count is size - 1 minus the held bytes; free + filled == size - 1 |
| Cbuf.CircularBuffer.GetFilled | src/cbuf.c:63-71 | the filled count is the number of held bytes and never exceeds size - 1 |
| Cbuf.CircularBuffer.FilledIsCursorDifference | src/cbuf.c:63-71 | the two-branch filled count equals (writePos - readPos) mod size |
| Cbuf.CircularBuffer.SizeOneIsFullAndEmpty | src/cbuf.c:46-71 | with one slot the buffer is both full and empty, and free and filled are both 0 |
| Cbuf.CircularBuffer.WriteSingle | src/cbuf.c:135-143 | succeeds exactly when the buffer was not full. On success: the byte lands in slot writePos; the cursor advances one slot with wrap-around; the byte is appended to the contents. On failure nothing changes |
| Cbuf.CircularBuffer.ReadSingle | src/cbuf.c:146-155 | succeeds exactly when the buffer was not empty. On success: the oldest byte goes to the destination; the cursor advances one slot with wrap-around; the byte leaves the contents. On failure nothing changes |
| Cbuf.CircularBuffer.Write | src/cbuf.c:75-102 | as written: returns 0 when the cursors are equal, else min(numOfBytes, free). The accepted bytes are placed in order from the old write cursor, wrapping once, and all other slots are kept. The storage equals the deposit of those bytes. Storage past size is untouched. The contents gain the bytes at the end |
| Cbuf.CircularBuffer.CopyInTillEnd | src/cbuf.c:82-94 | the writePos > readPos branch: the part up to the end of the storage, then the rest from slot 0. All requested bytes are placed from the write cursor, and the cursor lands after them |
| Cbuf.CircularBuffer.CopyInBeforeReader | src/cbuf.c:96-99 | the writePos < readPos branch: one copy. The requested bytes are placed from the write cursor, and the cursor lands after them |
| Cbuf.CircularBuffer.CopyIn | src/cbuf.c:84 | one memcpy into the storage below its end: the bytes are placed at the given slot and the rest of the storage is kept |
| Cbuf.CircularBuffer.CopiedInOnePiece | src/cbuf.c:97 | an unsplit memcpy into the storage, restated as a placement from the write cursor |
| Cbuf.CircularBuffer.WrittenAsDeposit | src/cbuf.c:75-102 | bytes placed from the write cursor, with the cursor moved past them, make the storage their deposit and append them to the contents |
| Cbuf.CircularBuffer.WriteIntended | src/cbuf.c:82 | the corrected bulk write always accepts min(numOfBytes, free) bytes, with the same placement, deposit and contents guarantees as Write |
| Cbuf.CircularBuffer.Read | src/cbuf.c:105-132 | returns min(numOfBytes, filled). The destination receives the oldest bytes in order; past them it is untouched. The read cursor advances that many slots with wrap-around. The contents lose exactly that prefix. The write cursor is unchanged |
| Cbuf.CircularBuffer.CopyOutTillEnd | src/cbuf.c:112-124 | the readPos > writePos branch: the part up to the end of the storage, then the rest from slot 0. The destination gets the slots from the read cursor in order, and nothing past them changes |
| Cbuf.CircularBuffer.CopyOutBeforeWriter | src/cbuf.c:126-129 | the readPos < writePos branch: one copy. The destination gets the slots from the read cursor in order, and nothing past them changes |
| Cbuf.CircularBuffer.ReadAsWindowDrop | src/cbuf.c:105-132 | the bytes copied out of the first count slots from the read cursor are the front of the contents, and what is held afterwards is the rest |
| Cbuf.Init | src/cbuf.c:33-43 | succeeds exactly when handle and storage are present and the size is not 0. On success: the handle is bound to the storage; the cursors are 0; the buffer is valid and empty; size - 1 slots are free. On failure the handle is untouched |
| Ring.Offset | src/cbuf.c:63-71 | the step count from one slot to another is below n, reaches the target, and is the only such count |
| Ring.SlotIsMod | src/cbuf.c:141 | stepping k slots from pos agrees with (pos + k) % n |
| Ring.OffsetIsMod | src/cbuf.c:63-71 | the step count agrees with (to - from) mod n |
| Ring.DepositAt | src/cbuf.c:135-143 | after a deposit of at most one lap, a slot holds the byte deposited at its distance from the start, or its old byte if no byte was deposited there |
| Ring.DepositSnoc | src/cbuf.c:135-143 | depositing d and then one byte at the following slot equals depositing d + [b], so bulk and single writes agree |
| Ring.DepositFromSlots | src/cbuf.c:75-102 | a storage is a placement of d exactly when it is the deposit of d (both directions) |
| Ring.NothingPlaced | src/cbuf.c:79-80 | placing or depositing no bytes leaves the storage as it was |
| Ring.PlacedInTwoPieces | src/cbuf.c:83-93 | a placement up to the end of the storage followed by one from slot 0 is a single wrapping placement |
| Ring.WindowDrop | src/cbuf.c:146-155 | dropping m bytes from a window leaves the window that starts m slots later |
| Ring.WindowAfterDeposit | src/cbuf.c:75-102 | bytes deposited right after a window extend it at the end, and the window's own bytes stay |
| Ring.WindowAfterWrite | src/cbuf.c:75-102 | writing d at the write cursor, with one slot left unused, moves the distance to the read cursor by d's length and appends d to the held bytes |
| Ring.DrainIsWindow | src/cbuf.c:105-155 | k single reads return the same bytes as one bulk read of k, so bulk and single reads agree |
| CbufFixtures.InitRefusesZeroSize | test/test_cbuf.c:15-44 | a size of 0 is refused; a size equal to the storage is accepted |
| CbufFixtures.CountsAtPlacedCursors | test/test_cbuf.c:63-129 | the tests' cursor placements give the tested filled counts and full/empty answers |
| CbufFixtures.SingleWritesFillNineSlots | test/test_cbuf.c:132-151 | a variant of the test with its bytes 3 4 9 8 7 5 2 1 33 99 and 10 writes where the test makes size + 10 = 20. The test's writes past the tenth read beyond its 10-byte array, and they would fail anyway on the full buffer. Nine writes succeed; slots 0..8 hold the first nine bytes, in order; the write cursor is at 9; slot 9 keeps its 0; the read cursor's slot holds data[0] |
| CbufFixtures.WriteWithEqualCursorsAsWritten | src/cbuf.c:82-101 | right after init, a bulk write of ten bytes stores nothing and returns 0 |
| CbufFixtures.WriteWithEqualCursorsIntended | test/test_cbuf.c:210-216 | with the corrected comparison, the same write stores nine bytes and leaves slot 9 untouched |
| CbufFixtures.WriteWrapsAround | test/test_cbuf.c:271-283 | w = 5, r = 4, seven bytes offered: all seven are stored, two of them from slot 0 on; eight are held; the cursor is at 2 |
| CbufFixtures.WriteBehindReadCursor | test/test_cbuf.c:285-302 | w = 2, r = 5, ten bytes offered: two are stored; nine are held; the cursor is at 4 |
| CbufFixtures.ReadWrapsAround | test/test_cbuf.c:361-384 | r = 6, w = 3, six bytes read across the end of the storage: they come back in order; the seventh destination byte is untouched; one byte is left |
| CbufFixtures.WrappedContents | test/test_cbuf.c:361-375 | storage arranged by hand with r = 6 and w = 3 holds the seven bytes from slot 6 on, in order, wrapping to slot 0 |
| CbufFixtures.SingleThenBulkWrite | src/cbuf.c:75-143 | one single write, then a bulk write of four bytes: all four are accepted and held after the first |
| CbufFixtures.FirstInFirstOut | src/cbuf.c:75-155 | a single write, then a bulk write, then a bulk read: the five bytes come back in the order they were written |

## Left out

- `cbuf_reset` is declared in src/cbuf.h:17 but not defined in src/cbuf.c, so it has no behaviour to model. The tests' calls to it are replaced by fresh handles in the fixtures.
- `cbuf_peek` is not defined in src/cbuf.c either.
- The dynamic allocation functions (src/cbuf.c:9-30) are commented out.
- NULL handles are modelled only for `cbuf_init`, the only function that checks them. The other operations require `Valid()`, a handle that `cbuf_init` bound successfully. Calling them on a NULL or unbound handle is undefined behaviour in C.
- `Cbuf.Init` requires `sizeInBytes <= buffer.Length`. C cannot check that the storage really is that long; a shorter one gives out-of-bounds accesses, which are not modelled.
- `Cbuf.CircularBuffer.Write`, `Cbuf.CircularBuffer.Read` and `Cbuf.Memcpy` require the caller's array to differ from the storage. Overlapping `memcpy` regions are undefined behaviour in C, and aliasing between the caller's data and the storage is not modelled.
- `Cbuf.CircularBuffer.Write` and `Cbuf.CircularBuffer.Read` require only that the caller's array covers min(numOfBytes, free) or min(numOfBytes, filled) bytes. For `Write` this is the count a write with differing cursors would copy; with equal cursors, `Write` as written copies nothing but still demands that length. C places no checkable demand on the pointer.
- `Cbuf.CircularBuffer.ReadSingle` takes an array and an index in place of the `uint8_t *` destination. Writing the byte into the storage itself is excluded.
- The `uint8_t`/`bool` return values of `cbuf_init`, `cbuf_write_single` and `cbuf_read_single` are modelled as `bool`. src/cbuf.h:16 declares `cbuf_init` as `bool` while src/cbuf.c:33 defines it as `uint8_t`; both give 1 for success and 0 for failure.
- `Cbuf.AddMod` requires `pos + k <= n`, so the sum never wraps in `uint64_t`. Every caller advances a cursor below size by at most size - pos slots.
- `uint64_t` wrap-around is not modelled: under `Valid()` no intermediate value leaves the range of `u64`.
- Concurrency: following the source, the model is single-threaded.

## Findings

| source | as written | input that shows it | evidently intended | confidence | as-written member | corrected member |
|---|---|---|---|---|---|---|
| src/cbuf.c:82 | `if (cb->writePos > cb->readPos)`, then `else if (<)`, then `return 0`: with equal cursors nothing is copied | `cbuf_init` over 10 bytes, then `cbuf_write` of 10 bytes: returns 0, where test/test_cbuf.c:212-213 expects 9 | `>=`, so that equal cursors (an empty buffer) take the split copy and accept min(numOfBytes, free) bytes | high, not executed | Cbuf.CircularBuffer.Write, CbufFixtures.WriteWithEqualCursorsAsWritten | Cbuf.CircularBuffer.WriteIntended, CbufFixtures.WriteWithEqualCursorsIntended |
