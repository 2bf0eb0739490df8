// The fixed-capacity byte ring buffer: a handle over a caller-supplied byte
// region with a write cursor and a read cursor. One slot always stays unused
// so that "full" and "empty" are different cursor configurations.
module Cbuf {
  import opened Ring

  /** uint64_t: every cursor, size and count the buffer stores. */
  type u64 = x: int | 0 <= x < 0x1_0000_0000_0000_0000

  /** CBUF_MIN: the smaller of two counts. */
  function Min(x: u64, y: u64): (m: u64)
    ensures m <= x && m <= y
    ensures m == x || m == y
  {
    if x < y then x else y
  }

  /** The cursor advance `(pos + k) % n` the code writes out, for a sum
      that does not pass n (so no uint64_t overflow): it is the slot k
      steps after pos. */
  method AddMod(pos: u64, k: u64, n: u64) returns (r: u64)
    requires pos < n && pos + k <= n
    ensures r == Slot(pos, k, n)
  {
    var sum: u64 := pos + k;
    SlotIsMod(pos, k, n);
    r := sum % n;
  }

  /** memcpy between two distinct byte regions: `len` bytes from
      src[srcOff..] to dst[dstOff..]; nothing else in dst changes. */
  method Memcpy(dst: array<byte>, dstOff: nat, src: array<byte>, srcOff: nat, len: nat)
    requires dst != src
    requires dstOff + len <= dst.Length && srcOff + len <= src.Length
    modifies dst
    ensures forall j :: dstOff <= j < dstOff + len ==> dst[j] == src[srcOff + (j - dstOff)]
    ensures forall j :: 0 <= j < dst.Length && !(dstOff <= j < dstOff + len) ==> dst[j] == old(dst[j])
  {
    var i := 0;
    while i < len
      invariant 0 <= i <= len
      invariant forall j :: dstOff <= j < dstOff + i ==> dst[j] == src[srcOff + (j - dstOff)]
      invariant forall j :: 0 <= j < dst.Length && !(dstOff <= j < dstOff + i) ==> dst[j] == old(dst[j])
    {
      dst[dstOff + i] := src[srcOff + i];
      i := i + 1;
    }
  }

  /** cbuf_t: the bound storage and the two cursors. */
  class CircularBuffer {
    var bufPtr: array?<byte>
    var writePos: u64
    var readPos: u64
    var size: u64

    /** A handle that is declared but not yet bound to any storage. */
    constructor ()
      ensures bufPtr == null && size == 0 && writePos == 0 && readPos == 0
    {
      bufPtr := null;
      size := 0;
      writePos := 0;
      readPos := 0;
    }

    /** A bound handle: storage present, at least one slot, both cursors on a slot. */
    ghost predicate Valid()
      reads this
    {
      bufPtr != null && 0 < size <= bufPtr.Length && writePos < size && readPos < size
    }

    /** The unread bytes, oldest first: the slots readPos, readPos + 1, ...
        up to but not including writePos, taken modulo size. */
    ghost function Contents(): (c: seq<byte>)
      reads this, bufPtr
      requires Valid()
      ensures |c| < size
    {
      Window(bufPtr[..size], readPos, Offset(readPos, writePos, size))
    }

    /** cbuf_is_full */
    function IsFull(): (full: bool)
      reads this, bufPtr
      requires Valid()
      ensures full <==> GetFree() == 0
      ensures full <==> |Contents()| == size - 1
    {
      SlotIsMod(writePos, 1, size);
      OffsetIsMod(readPos, writePos, size);
      (writePos + 1) % size == readPos
    }

    /** cbuf_is_empty */
    function IsEmpty(): (empty: bool)
      reads this, bufPtr
      requires Valid()
      ensures empty <==> GetFilled() == 0
      ensures empty <==> Contents() == []
    {
      writePos == readPos
    }

    /** cbuf_get_free */
    function GetFree(): (free: u64)
      reads this, bufPtr
      requires Valid()
      ensures free == size - 1 - |Contents()|
      ensures free + GetFilled() == size - 1
    {
      size - GetFilled() - 1
    }

    /** cbuf_get_filled */
    function GetFilled(): (filled: u64)
      reads this, bufPtr
      requires Valid()
      ensures filled <= size - 1
      ensures filled == |Contents()|
    {
      if writePos >= readPos then writePos - readPos
      else size - readPos + writePos
    }

    /** The count of held bytes is the cursor difference taken modulo size. */
    lemma FilledIsCursorDifference()
      requires Valid()
      ensures GetFilled() == (writePos - readPos) % size
    {
      OffsetIsMod(readPos, writePos, size);
    }

    /** With a single slot the one sacrificed slot is all there is: the
        buffer is at once empty and full. */
    lemma SizeOneIsFullAndEmpty()
      requires Valid() && size == 1
      ensures IsFull() && IsEmpty() && GetFree() == 0 && GetFilled() == 0
    {}

    /** cbuf_write_single */
    method WriteSingle(data: byte) returns (ok: bool)
      requires Valid()
      modifies this`writePos, bufPtr
      ensures Valid() && readPos == old(readPos)
      ensures ok == !old(IsFull())
      ensures ok ==> bufPtr[..] == old(bufPtr[..])[old(writePos) := data]
      ensures ok ==> writePos == Slot(old(writePos), 1, size)
      ensures !ok ==> writePos == old(writePos) && bufPtr[..] == old(bufPtr[..])
      ensures Contents() == if ok then old(Contents()) + [data] else old(Contents())
    {
      ghost var s := bufPtr[..size];
      if IsFull() {
        return false;
      }
      bufPtr[writePos] := data;
      ghost var w := writePos;
      writePos := AddMod(writePos, 1, size);
      ok := true;
      assert bufPtr[..size] == s[w := data] == Deposit(s, w, [data]);
      WindowAfterWrite(s, readPos, w, [data]);
    }

    /** cbuf_write as written: copies min(numOfBytes, free) bytes from `data`
        in at most two pieces split at the end of the storage, but only when
        the cursors differ; with equal cursors it copies nothing. */
    method Write(data: array<byte>, numOfBytes: u64) returns (written: u64)
      requires Valid()
      requires data != bufPtr
      requires Min(numOfBytes, GetFree()) <= data.Length
      modifies this`writePos, bufPtr
      ensures Valid() && readPos == old(readPos)
      ensures written == if old(writePos) == old(readPos) then 0 else Min(numOfBytes, old(GetFree()))
      ensures Placed(bufPtr[..size], old(bufPtr[..size]), old(writePos), data[..written])
      ensures bufPtr[..size] == Deposit(old(bufPtr[..size]), old(writePos), data[..written])
      ensures forall j :: size <= j < bufPtr.Length ==> bufPtr[j] == old(bufPtr[j])
      ensures writePos == Slot(old(writePos), written, size)
      ensures Contents() == old(Contents()) + data[..written]
    {
      ghost var s := bufPtr[..size];
      ghost var w := writePos;
      var bytesToWrite := Min(numOfBytes, GetFree());
      if bytesToWrite == 0 {
        NothingPlaced(s, w, data[..0]);
        return 0;
      }
      if writePos > readPos {
        written := CopyInTillEnd(data, bytesToWrite);
        WrittenAsDeposit(s, w, data[..written], old(Contents()));
      } else if writePos < readPos {
        written := CopyInBeforeReader(data, bytesToWrite);
        WrittenAsDeposit(s, w, data[..written], old(Contents()));
      } else {
        written := 0;
        NothingPlaced(s, w, data[..0]);
      }
    }

    /** cbuf_write with the split copy also taken when the cursors are equal
        (`>=` in place of `>`): always copies min(numOfBytes, free) bytes. */
    method WriteIntended(data: array<byte>, numOfBytes: u64) returns (written: u64)
      requires Valid()
      requires data != bufPtr
      requires Min(numOfBytes, GetFree()) <= data.Length
      modifies this`writePos, bufPtr
      ensures Valid() && readPos == old(readPos)
      ensures written == Min(numOfBytes, old(GetFree()))
      ensures Placed(bufPtr[..size], old(bufPtr[..size]), old(writePos), data[..written])
      ensures bufPtr[..size] == Deposit(old(bufPtr[..size]), old(writePos), data[..written])
      ensures forall j :: size <= j < bufPtr.Length ==> bufPtr[j] == old(bufPtr[j])
      ensures writePos == Slot(old(writePos), written, size)
      ensures Contents() == old(Contents()) + data[..written]
    {
      ghost var s := bufPtr[..size];
      ghost var w := writePos;
      var bytesToWrite := Min(numOfBytes, GetFree());
      if bytesToWrite == 0 {
        NothingPlaced(s, w, data[..0]);
        return 0;
      }
      if writePos >= readPos {
        written := CopyInTillEnd(data, bytesToWrite);
      } else {
        written := CopyInBeforeReader(data, bytesToWrite);
      }
      WrittenAsDeposit(s, w, data[..written], old(Contents()));
    }

    /** The first branch of cbuf_write: copy up to the end of the storage,
        then wrap to slot 0 for whatever is left. */
    method CopyInTillEnd(data: array<byte>, bytesToWrite: u64) returns (written: u64)
      requires Valid() && data != bufPtr
      requires 0 < bytesToWrite <= data.Length
      requires Offset(readPos, writePos, size) + bytesToWrite < size
      modifies this`writePos, bufPtr
      ensures Valid() && readPos == old(readPos)
      ensures written == bytesToWrite
      ensures writePos == Slot(old(writePos), written, size)
      ensures Placed(bufPtr[..size], old(bufPtr[..size]), old(writePos), data[..written])
      ensures forall j :: size <= j < bufPtr.Length ==> bufPtr[j] == old(bufPtr[j])
    {
      ghost var s := bufPtr[..size];
      ghost var w := writePos;
      var bytesLeft := bytesToWrite;
      var bytesTillEnd := Min(bytesLeft, size - writePos);
      CopyIn(writePos, data, 0, bytesTillEnd);
      writePos := AddMod(writePos, bytesTillEnd, size);
      bytesLeft := bytesLeft - bytesTillEnd;
      if bytesLeft == 0 {
        written := bytesTillEnd;
        assert data[0..bytesTillEnd] == data[..written];
      } else {
        // back to the start of the storage
        ghost var mid := bufPtr[..size];
        CopyIn(0, data, bytesTillEnd, bytesLeft);
        writePos := writePos + bytesLeft;
        written := bytesLeft + bytesTillEnd;
        assert data[..written][..bytesTillEnd] == data[0..bytesTillEnd];
        assert data[..written][bytesTillEnd..] == data[bytesTillEnd..bytesTillEnd + bytesLeft];
        PlacedInTwoPieces(s, mid, bufPtr[..size], w, data[..written], bytesTillEnd);
      }
    }

    /** The second branch of cbuf_write: the free slots lie between the
        write cursor and the read cursor, so one copy suffices. */
    method CopyInBeforeReader(data: array<byte>, bytesToWrite: u64) returns (written: u64)
      requires Valid() && data != bufPtr
      requires writePos < readPos
      requires 0 < bytesToWrite <= data.Length
      requires Offset(readPos, writePos, size) + bytesToWrite < size
      modifies this`writePos, bufPtr
      ensures Valid() && readPos == old(readPos)
      ensures written == bytesToWrite
      ensures writePos == Slot(old(writePos), written, size)
      ensures Placed(bufPtr[..size], old(bufPtr[..size]), old(writePos), data[..written])
      ensures forall j :: size <= j < bufPtr.Length ==> bufPtr[j] == old(bufPtr[j])
    {
      CopyIn(writePos, data, 0, bytesToWrite);
      assert data[0..bytesToWrite] == data[..bytesToWrite];
      writePos := writePos + bytesToWrite;
      written := bytesToWrite;
    }

    /** One memcpy of `len` bytes from data[from..] into the storage at slot
        `at`, not reaching past its end. */
    method CopyIn(at: u64, data: array<byte>, from: nat, len: nat)
      requires Valid() && data != bufPtr
      requires at < size && at + len <= size && from + len <= data.Length
      modifies bufPtr
      ensures Placed(bufPtr[..size], old(bufPtr[..size]), at, data[from..from + len])
      ensures forall j :: size <= j < bufPtr.Length ==> bufPtr[j] == old(bufPtr[j])
    {
      ghost var s := bufPtr[..size];
      Memcpy(bufPtr, at, data, from, len);
      CopiedInOnePiece(s, at, data, from, len);
    }

    /** One memcpy of `len` bytes from data[from..] to the slots w, w + 1, ...
        that stays below the end of the storage, compared with the first
        `size` bytes `s` before it. */
    lemma CopiedInOnePiece(s: seq<byte>, w: nat, data: array<byte>, from: nat, len: nat)
      requires Valid() && |s| == size && w + len <= size && from + len <= data.Length
      requires w < size
      requires forall j :: w <= j < w + len ==> bufPtr[j] == data[from + (j - w)]
      requires forall j :: 0 <= j < size && !(w <= j < w + len) ==> bufPtr[j] == s[j]
      ensures Placed(bufPtr[..size], s, w, data[from..from + len])
    {}

    /** The proof shared by both bulk writes: once the bytes `d` are placed
        from the old write cursor `w` over the storage `s` and the cursor
        has moved past them, the storage is a deposit of `d` and the bytes
        `held` before grew by exactly `d`. */
    lemma WrittenAsDeposit(s: seq<byte>, w: nat, d: seq<byte>, held: seq<byte>)
      requires Valid() && w < size && |s| == size
      requires Offset(readPos, w, size) + |d| < size
      requires Window(s, readPos, Offset(readPos, w, size)) == held
      requires Placed(bufPtr[..size], s, w, d)
      requires writePos == Slot(w, |d|, size)
      ensures bufPtr[..size] == Deposit(s, w, d)
      ensures Contents() == held + d
    {
      DepositFromSlots(s, bufPtr[..size], w, d);
      WindowAfterWrite(s, readPos, w, d);
    }

    /** cbuf_read: copies min(numOfBytes, filled) of the oldest bytes into
        `buffer`, in at most two pieces split at the end of the storage. */
    method Read(buffer: array<byte>, numOfBytes: u64) returns (count: u64)
      requires Valid()
      requires buffer != bufPtr
      requires Min(numOfBytes, GetFilled()) <= buffer.Length
      modifies this`readPos, buffer
      ensures Valid() && writePos == old(writePos)
      ensures count == Min(numOfBytes, old(GetFilled()))
      ensures forall i :: 0 <= i < count ==> buffer[i] == bufPtr[Slot(old(readPos), i, size)]
      ensures buffer[..count] == old(Contents())[..count]
      ensures forall j :: count <= j < buffer.Length ==> buffer[j] == old(buffer[j])
      ensures readPos == Slot(old(readPos), count, size)
      ensures Contents() == old(Contents())[count..]
    {
      ghost var r := readPos;
      ghost var c := Offset(readPos, writePos, size);
      var bytesToRead := Min(numOfBytes, GetFilled());
      if bytesToRead == 0 {
        return 0;
      }
      if readPos > writePos {
        count := CopyOutTillEnd(buffer, bytesToRead);
        ReadAsWindowDrop(r, c, buffer, count, old(Contents()));
      } else if readPos < writePos {
        count := CopyOutBeforeWriter(buffer, bytesToRead);
        ReadAsWindowDrop(r, c, buffer, count, old(Contents()));
      } else {
        // equal cursors hold nothing, so bytesToRead was 0
        assert false;
      }
    }

    /** The second branch of cbuf_read: the held bytes lie between the read
        cursor and the write cursor, so one copy suffices. */
    method CopyOutBeforeWriter(buffer: array<byte>, bytesToRead: u64) returns (count: u64)
      requires Valid() && buffer != bufPtr
      requires readPos < writePos
      requires 0 < bytesToRead <= buffer.Length
      requires bytesToRead <= Offset(readPos, writePos, size)
      modifies this`readPos, buffer
      ensures Valid() && writePos == old(writePos)
      ensures count == bytesToRead
      ensures readPos == Slot(old(readPos), count, size)
      ensures forall i :: 0 <= i < count ==> buffer[i] == bufPtr[Slot(old(readPos), i, size)]
      ensures forall j :: count <= j < buffer.Length ==> buffer[j] == old(buffer[j])
    {
      ghost var r := readPos;
      Memcpy(buffer, 0, bufPtr, readPos, bytesToRead);
      readPos := readPos + bytesToRead;
      count := bytesToRead;
      forall i | 0 <= i < count ensures buffer[i] == bufPtr[Slot(r, i, size)] {
        assert buffer[0 + i] == bufPtr[r + (0 + i - 0)];
      }
    }

    /** The first branch of cbuf_read: copy up to the end of the storage,
        then wrap to slot 0 for whatever is left. */
    method CopyOutTillEnd(buffer: array<byte>, bytesToRead: u64) returns (count: u64)
      requires Valid() && buffer != bufPtr
      requires 0 < bytesToRead <= buffer.Length
      requires bytesToRead <= Offset(readPos, writePos, size)
      modifies this`readPos, buffer
      ensures Valid() && writePos == old(writePos)
      ensures count == bytesToRead
      ensures readPos == Slot(old(readPos), count, size)
      ensures forall i :: 0 <= i < count ==> buffer[i] == bufPtr[Slot(old(readPos), i, size)]
      ensures forall j :: count <= j < buffer.Length ==> buffer[j] == old(buffer[j])
    {
      ghost var r := readPos;
      var bytesLeft := bytesToRead;
      var bytesTillEnd := Min(bytesLeft, size - readPos);
      Memcpy(buffer, 0, bufPtr, readPos, bytesTillEnd);
      readPos := AddMod(readPos, bytesTillEnd, size);
      bytesLeft := bytesLeft - bytesTillEnd;
      if bytesLeft == 0 {
        count := bytesTillEnd;
      } else {
        // back to the start of the storage
        Memcpy(buffer, bytesTillEnd, bufPtr, 0, bytesLeft);
        readPos := readPos + bytesLeft;
        count := bytesLeft + bytesTillEnd;
      }
      forall i | 0 <= i < count ensures buffer[i] == bufPtr[Slot(r, i, size)] {
        if i < bytesTillEnd {
          assert buffer[0 + i] == bufPtr[r + (0 + i - 0)];
        } else {
          assert buffer[i] == bufPtr[0 + (i - bytesTillEnd)];
        }
      }
    }

    /** The proof that finishes cbuf_read: once the first `count` slots from
        the old read cursor `r` are copied out and the cursor has moved past
        them, the copied bytes are the front of what was `held`, and what is
        held now is the rest. */
    lemma ReadAsWindowDrop(r: u64, c: nat, buffer: array<byte>, count: u64, held: seq<byte>)
      requires Valid() && r < size && c == Offset(r, writePos, size) && count <= c
      requires held == Window(bufPtr[..size], r, c)
      requires count <= buffer.Length
      requires forall i :: 0 <= i < count ==> buffer[i] == bufPtr[Slot(r, i, size)]
      requires readPos == Slot(r, count, size)
      ensures buffer[..count] == held[..count]
      ensures Contents() == held[count..]
    {
      WindowDrop(bufPtr[..size], r, c, count);
    }

    /** cbuf_read_single: the oldest byte goes to buffer[at]. */
    method ReadSingle(buffer: array<byte>, at: nat) returns (ok: bool)
      requires Valid()
      requires buffer != bufPtr && at < buffer.Length
      modifies this`readPos, buffer
      ensures Valid() && writePos == old(writePos)
      ensures ok == !old(IsEmpty())
      ensures ok ==> buffer[..] == old(buffer[..])[at := bufPtr[old(readPos)]]
      ensures ok ==> buffer[at] == old(Contents())[0]
      ensures ok ==> readPos == Slot(old(readPos), 1, size)
      ensures !ok ==> readPos == old(readPos) && buffer[..] == old(buffer[..])
      ensures Contents() == if ok then old(Contents())[1..] else old(Contents())
    {
      ghost var r := readPos;
      ghost var c := Offset(readPos, writePos, size);
      if IsEmpty() {
        return false;
      }
      buffer[at] := bufPtr[readPos];
      readPos := AddMod(readPos, 1, size);
      ok := true;
      WindowDrop(bufPtr[..size], r, c, 1);
    }
  }

  /** cbuf_init: binds `cb` to the first sizeInBytes bytes of `buffer`.
      A missing handle or storage, or a size of 0, is refused. */
  method Init(cb: CircularBuffer?, buffer: array?<byte>, sizeInBytes: u64) returns (ok: bool)
    requires buffer != null ==> sizeInBytes <= buffer.Length
    modifies cb
    ensures ok == (cb != null && buffer != null && sizeInBytes != 0)
    ensures ok ==> cb.bufPtr == buffer && cb.size == sizeInBytes
    ensures ok ==> cb.writePos == 0 && cb.readPos == 0
    ensures ok ==> cb.Valid() && cb.Contents() == [] && cb.GetFree() == sizeInBytes - 1
    ensures !ok && cb != null ==> unchanged(cb)
  {
    if cb == null || buffer == null || sizeInBytes == 0 {
      return false;
    }
    cb.bufPtr := buffer;
    cb.size := sizeInBytes;
    cb.writePos := 0;
    cb.readPos := 0;
    return true;
  }
}
