// Concrete scenarios of the unit tests in test/test_cbuf.c, stated as
// methods whose results the contracts of module Cbuf determine.
module CbufFixtures {
  import opened Ring
  import opened Cbuf

  /** The ten bytes the bulk-write and bulk-read tests copy around. */
  method MockData() returns (data: array<byte>)
    ensures fresh(data) && data.Length == 10
    ensures data[..] == [32, 50, 81, 60, 48, 58, 29, 13, 48, 57]
  {
    data := new byte[10] [32, 50, 81, 60, 48, 58, 29, 13, 48, 57];
  }

  /** A handle bound to ten fresh bytes of 0xFF, both cursors at slot 0. */
  method FreshBuffer() returns (cb: CircularBuffer, storage: array<byte>)
    ensures fresh(cb) && fresh(storage)
    ensures cb.Valid() && cb.bufPtr == storage && cb.size == 10
    ensures cb.writePos == 0 && cb.readPos == 0
    ensures storage[..] == seq(10, _ => 0xFF)
  {
    storage := new byte[10](_ => 0xFF);
    cb := new CircularBuffer();
    var ok := Init(cb, storage, 10);
    assert ok;
  }

  /** Init refuses a size of 0 and accepts a size equal to the storage. */
  method InitRefusesZeroSize() returns (zeroSizeOk: bool, fullSizeOk: bool)
    ensures !zeroSizeOk && fullSizeOk
  {
    var storage := new byte[10];
    var cb := new CircularBuffer();
    zeroSizeOk := Init(cb, storage, 0);
    fullSizeOk := Init(cb, storage, 10);
  }

  /** Cursor placements of the counting tests: w = 9, r = 4 holds five
      bytes; w = 3, r = 7 holds six; w = 9, r = 0 is full; w = 3, r = 4 is
      full; w = r = 9 is empty. */
  method CountsAtPlacedCursors() returns (f1: u64, f2: u64, full1: bool, full2: bool, empty: bool)
    ensures f1 == 5 && f2 == 6 && full1 && full2 && empty
  {
    var cb, storage := FreshBuffer();
    cb.writePos, cb.readPos := 9, 4;
    f1 := cb.GetFilled();
    cb.writePos, cb.readPos := 3, 7;
    f2 := cb.GetFilled();
    cb.writePos, cb.readPos := 9, 0;
    full1 := cb.IsFull();
    cb.writePos, cb.readPos := 3, 4;
    full2 := cb.IsFull();
    cb.writePos, cb.readPos := 9, 9;
    empty := cb.IsEmpty();
  }

  /** A handle bound to ten fresh bytes of 0, both cursors at slot 0. */
  method ZeroedBuffer() returns (cb: CircularBuffer, storage: array<byte>)
    ensures fresh(cb) && fresh(storage)
    ensures cb.Valid() && cb.bufPtr == storage && cb.size == 10
    ensures cb.writePos == 0 && cb.readPos == 0 && storage[9] == 0
  {
    storage := new byte[10](_ => 0);
    cb := new CircularBuffer();
    var ok := Init(cb, storage, 10);
    assert ok;
  }

  /** Single writes into an empty ten-slot buffer of zeros: the first nine
      succeed, in order, and the tenth finds the buffer full. The write
      cursor stops on slot 9, which keeps its 0. */
  method SingleWritesFillNineSlots() returns (count: nat, held: seq<byte>, w: u64, last: byte, oldest: byte)
    ensures count == 9
    ensures held == [3, 4, 9, 8, 7, 5, 2, 1, 33]
    ensures w == 9 && last == 0 && oldest == 3
  {
    var data: seq<byte> := [3, 4, 9, 8, 7, 5, 2, 1, 33, 99];
    var cb, storage := ZeroedBuffer();
    count := 0;
    var i := 0;
    while i < 10
      invariant 0 <= i <= 10
      invariant cb.Valid() && cb.bufPtr == storage && cb.size == 10 && cb.readPos == 0
      invariant count == if i < 9 then i else 9
      invariant cb.writePos as nat == count && storage[9] == 0
      invariant cb.Contents() == data[..count]
    {
      var ok := cb.WriteSingle(data[i]);
      if ok {
        assert data[..count + 1] == data[..count] + [data[i]];
        count := count + 1;
      }
      i := i + 1;
    }
    held := storage[..9];
    assert held == cb.Contents();
    w, last, oldest := cb.writePos, storage[cb.writePos], storage[cb.readPos];
  }

  /** Bulk write right after Init, with both cursors on slot 0 and ten bytes
      offered: the code as written stores nothing, where the test expects
      nine bytes. */
  method WriteWithEqualCursorsAsWritten() returns (written: u64, filled: u64)
    ensures written == 0 && filled == 0
  {
    var data := MockData();
    var cb, storage := FreshBuffer();
    written := cb.Write(data, 10);
    filled := cb.GetFilled();
  }

  /** The same call with the corrected comparison stores nine bytes and
      leaves slot 9 untouched. */
  method WriteWithEqualCursorsIntended() returns (written: u64, filled: u64, held: seq<byte>, last: byte)
    ensures written == 9 && filled == 9
    ensures held == [32, 50, 81, 60, 48, 58, 29, 13, 48]
    ensures last == 0xFF
  {
    var data := MockData();
    var cb, storage := FreshBuffer();
    written := cb.WriteIntended(data, 10);
    filled := cb.GetFilled();
    held := storage[..9];
    assert held == cb.Contents();
    assert Offset(0, 9, 10) >= written;
    last := storage[9];
  }

  /** w = 5, r = 4, seven bytes offered: all seven fit, five up to the end
      and two from slot 0 on, and the write cursor lands on slot 2. */
  method WriteWrapsAround() returns (written: u64, filled: u64, first: byte, second: byte, w: u64)
    ensures written == 7 && filled == 8
    ensures first == 58 && second == 29 && w == 2
  {
    var data := MockData();
    var cb, storage := FreshBuffer();
    cb.writePos, cb.readPos := 5, 4;
    written := cb.Write(data, 7);
    filled := cb.GetFilled();
    assert Slot(5, 5, 10) == 0 && Slot(5, 6, 10) == 1;
    first, second, w := storage[0], storage[1], cb.writePos;
  }

  /** w = 2, r = 5, ten bytes offered: only the two free slots are used. */
  method WriteBehindReadCursor() returns (written: u64, filled: u64, w: u64)
    ensures written == 2 && filled == 9 && w == 4
  {
    var data := MockData();
    var cb, storage := FreshBuffer();
    cb.writePos, cb.readPos := 2, 5;
    written := cb.Write(data, 10);
    filled := cb.GetFilled();
    w := cb.writePos;
  }

  /** r = 6, w = 3 with 32 50 81 60 in slots 6..9 and 48 58 29 in slots
      0..2, as the wrap-around read tests arrange it by hand. */
  method WrappedContents() returns (cb: CircularBuffer, storage: array<byte>)
    ensures fresh(cb) && fresh(storage)
    ensures cb.Valid() && cb.bufPtr == storage && cb.size == 10
    ensures cb.writePos == 3 && cb.readPos == 6
    ensures cb.Contents() == [32, 50, 81, 60, 48, 58, 29]
  {
    storage := new byte[10] [48, 58, 29, 0xFF, 0xFF, 0xFF, 32, 50, 81, 60];
    cb := new CircularBuffer();
    var ok := Init(cb, storage, 10);
    cb.writePos, cb.readPos := 3, 6;
  }

  /** Reading six of those seven bytes crosses the end of the storage,
      returns the six oldest bytes in order, leaves the seventh destination
      byte alone and one byte behind. */
  method ReadWrapsAround() returns (count: u64, out: seq<byte>, untouched: byte, left: u64, r: u64)
    ensures count == 6 && out == [32, 50, 81, 60, 48, 58]
    ensures untouched == 0 && left == 1 && r == 2
  {
    var cb, storage := WrappedContents();
    ghost var held := cb.Contents();
    var readBuffer := new byte[10](_ => 0);
    count := cb.Read(readBuffer, 6);
    out := readBuffer[..6];
    assert out == held[..6];
    untouched := readBuffer[6];
    left := cb.GetFilled();
    r := cb.readPos;
  }

  /** A single write of 32 into a fresh buffer. */
  method OneByteWritten() returns (cb: CircularBuffer, storage: array<byte>)
    ensures fresh(cb) && fresh(storage)
    ensures cb.Valid() && cb.bufPtr == storage && cb.size == 10
    ensures cb.writePos == 1 && cb.readPos == 0
    ensures cb.Contents() == [32]
  {
    cb, storage := FreshBuffer();
    var ok := cb.WriteSingle(32);
  }

  /** Then a bulk write of four more bytes: the cursors differ by now, so
      all four are accepted behind the first. */
  method SingleThenBulkWrite() returns (cb: CircularBuffer, storage: array<byte>)
    ensures fresh(cb) && fresh(storage)
    ensures cb.Valid() && cb.bufPtr == storage && cb.size == 10
    ensures cb.Contents() == [32, 50, 81, 60, 48]
  {
    cb, storage := OneByteWritten();
    var tail := new byte[4] [50, 81, 60, 48];
    var written := cb.Write(tail, 4);
    assert written == 4 && tail[..4] == [50, 81, 60, 48];
  }

  /** Bytes come out in the order they went in: one bulk read after the
      writes above returns all five, oldest first. */
  method FirstInFirstOut() returns (count: u64, out: seq<byte>)
    ensures count == 5 && out == [32, 50, 81, 60, 48]
  {
    var cb, storage := SingleThenBulkWrite();
    ghost var held := cb.Contents();
    var readBuffer := new byte[10];
    count := cb.Read(readBuffer, 10);
    out := readBuffer[..count];
    assert out == held[..5];
  }
}
