// Slot arithmetic of a ring of n byte slots, and the two abstractions the
// circular buffer is specified with: the window of bytes a read cursor sees,
// and the result of laying bytes down one slot at a time from a write cursor.
module Ring {

  type byte = bv8

  /** The slot reached from slot `start` after `i` forward steps, wrapping
      from the last slot to slot 0 (at most one lap). */
  function Slot(start: nat, i: nat, n: nat): (k: nat)
    requires start < n && i <= n
    ensures k < n
  {
    if start + i < n then start + i else start + i - n
  }

  /** The number of forward steps from slot `from` to slot `to`. */
  function Offset(from: nat, to: nat, n: nat): (d: nat)
    requires from < n && to < n
    ensures d < n
    ensures Slot(from, d, n) == to
    ensures forall i :: 0 <= i < n && Slot(from, i, n) == to ==> i == d
  {
    if to >= from then to - from else to - from + n
  }

  /** Slot agrees with the remainder the C code computes with `%`. */
  lemma SlotIsMod(start: nat, i: nat, n: nat)
    requires start < n && i <= n
    ensures Slot(start, i, n) == (start + i) % n
  {}

  /** Offset agrees with the Euclidean remainder of the cursor difference. */
  lemma OffsetIsMod(from: nat, to: nat, n: nat)
    requires from < n && to < n
    ensures Offset(from, to, n) == (to - from) % n
  {}

  /** The `count` bytes found by starting at slot `start` and stepping
      forward, wrapping from the last slot to slot 0. */
  ghost function Window(s: seq<byte>, start: nat, count: nat): (w: seq<byte>)
    requires start < |s| && count <= |s|
    ensures |w| == count
  {
    seq(count, i requires 0 <= i < count => s[Slot(start, i, |s|)])
  }

  /** `s` after writing the bytes of `d`, in order, one per slot, starting at
      slot `start` and wrapping at the end: a sequence of single-byte writes. */
  function Deposit(s: seq<byte>, start: nat, d: seq<byte>): (t: seq<byte>)
    requires start < |s|
    ensures |t| == |s|
    decreases |d|
  {
    if d == [] then s
    else Deposit(s[start := d[0]], Slot(start, 1, |s|), d[1..])
  }

  /** What each slot holds after a deposit of at most one lap: slot j holds
      the byte written at forward distance Offset(start, j) from the start,
      when that distance is one of the deposited ones, and keeps its old byte
      otherwise. */
  lemma {:induction false} DepositAt(s: seq<byte>, start: nat, d: seq<byte>, j: nat)
    requires start < |s| && |d| <= |s| && j < |s|
    ensures var off := Offset(start, j, |s|);
      Deposit(s, start, d)[j] == if off < |d| then d[off] else s[j]
    decreases |d|
  {
    if d != [] {
      DepositAt(s[start := d[0]], Slot(start, 1, |s|), d[1..], j);
    }
  }

  /** Writing `d` and then one more byte `b` at the cursor the first write left
      behind is the same as writing `d + [b]` in one go. */
  lemma {:induction false} DepositSnoc(s: seq<byte>, start: nat, d: seq<byte>, b: byte)
    requires start < |s| && |d| <= |s|
    ensures Deposit(s, start, d + [b]) == Deposit(s, start, d)[Slot(start, |d|, |s|) := b]
    decreases |d|
  {
    if d == [] {
      assert d + [b] == [b];
    } else {
      assert (d + [b])[1..] == d[1..] + [b];
      DepositSnoc(s[start := d[0]], Slot(start, 1, |s|), d[1..], b);
    }
  }

  /** Reading `m` bytes of a window: what is left is the window that starts
      `m` slots further on. */
  lemma WindowDrop(s: seq<byte>, start: nat, count: nat, m: nat)
    requires start < |s| && m <= count <= |s|
    ensures Window(s, start, count)[m..] == Window(s, Slot(start, m, |s|), count - m)
  {}

  /** Bytes deposited at the slot right after a window of `count` bytes extend
      that window at its end, and leave its own bytes where they were. */
  lemma WindowAfterDeposit(s: seq<byte>, start: nat, count: nat, d: seq<byte>)
    requires start < |s| && count + |d| < |s|
    ensures Window(Deposit(s, Slot(start, count, |s|), d), start, count + |d|)
         == Window(s, start, count) + d
  {
    var lhs := Window(Deposit(s, Slot(start, count, |s|), d), start, count + |d|);
    var rhs := Window(s, start, count) + d;
    forall i | 0 <= i < count + |d| ensures lhs[i] == rhs[i] {
      WindowAfterDepositAt(s, start, count, d, i);
    }
  }

  /** One byte of the window in WindowAfterDeposit: an old byte below
      `count`, a deposited one from there on. */
  lemma WindowAfterDepositAt(s: seq<byte>, start: nat, count: nat, d: seq<byte>, i: nat)
    requires start < |s| && count + |d| < |s| && i < count + |d|
    ensures Window(Deposit(s, Slot(start, count, |s|), d), start, count + |d|)[i]
         == if i < count then s[Slot(start, i, |s|)] else d[i - count]
  {
    var j := Slot(start, i, |s|);
    DepositAt(s, Slot(start, count, |s|), d, j);
    OffsetBetweenSlots(start, count, i, |s|);
  }

  /** The distance between two slots that lie i and k steps after the same
      start. */
  lemma OffsetBetweenSlots(start: nat, k: nat, i: nat, n: nat)
    requires start < n && k < n && i < n
    ensures Offset(Slot(start, k, n), Slot(start, i, n), n) == if i >= k then i - k else n - k + i
  {}

  /** `t` is `s` with the bytes of `d` laid down in the slots start,
      start + 1, ... (wrapping once), every other slot keeping its byte. */
  ghost predicate Placed(t: seq<byte>, s: seq<byte>, start: nat, d: seq<byte>)
  {
    |t| == |s| && start < |s| && |d| <= |s| &&
    (forall i :: 0 <= i < |d| ==> t[Slot(start, i, |s|)] == d[i]) &&
    (forall j :: 0 <= j < |s| && Offset(start, j, |s|) >= |d| ==> t[j] == s[j])
  }

  /** Placing nothing changes nothing. */
  lemma NothingPlaced(s: seq<byte>, start: nat, d: seq<byte>)
    requires start < |s| && d == []
    ensures Placed(s, s, start, d) && Deposit(s, start, d) == s
  {}

  /** A slot-by-slot description of a deposit determines it, and every
      deposit of at most one lap is described so: Placed and Deposit agree. */
  lemma DepositFromSlots(s: seq<byte>, t: seq<byte>, start: nat, d: seq<byte>)
    requires start < |s| && |d| <= |s| && |t| == |s|
    ensures Placed(t, s, start, d) <==> t == Deposit(s, start, d)
  {
    if Placed(t, s, start, d) {
      forall j | 0 <= j < |s| ensures t[j] == Deposit(s, start, d)[j] {
        DepositAt(s, start, d, j);
        var off := Offset(start, j, |s|);
        if off < |d| {
          assert t[Slot(start, off, |s|)] == d[off];
        }
      }
    }
    if t == Deposit(s, start, d) {
      forall i | 0 <= i < |d| ensures t[Slot(start, i, |s|)] == d[i] {
        DepositAt(s, start, d, Slot(start, i, |s|));
      }
      forall j | 0 <= j < |s| && Offset(start, j, |s|) >= |d| ensures t[j] == s[j] {
        DepositAt(s, start, d, j);
      }
    }
  }

  /** Two placements, the first filling the slots from `start` to the end
      and the second continuing from slot 0, make one placement that wraps
      around, provided it stays under one lap. */
  lemma PlacedInTwoPieces(s: seq<byte>, mid: seq<byte>, t: seq<byte>, start: nat, d: seq<byte>, first: nat)
    requires start < |s| && first <= |d| < |s| && start + first == |s|
    requires Placed(mid, s, start, d[..first])
    requires Placed(t, mid, 0, d[first..])
    ensures Placed(t, s, start, d)
  {}

  /** Writing `d` at the write cursor `w` of a buffer whose read cursor is `r`
      appends `d` to the bytes held, provided one slot stays unused. */
  lemma WindowAfterWrite(s: seq<byte>, r: nat, w: nat, d: seq<byte>)
    requires r < |s| && w < |s| && Offset(r, w, |s|) + |d| < |s|
    ensures Offset(r, Slot(w, |d|, |s|), |s|) == Offset(r, w, |s|) + |d|
    ensures Window(Deposit(s, w, d), r, Offset(r, w, |s|) + |d|)
         == Window(s, r, Offset(r, w, |s|)) + d
  {
    WindowAfterDeposit(s, r, Offset(r, w, |s|), d);
  }
  /** The bytes that `k` single-byte reads return, one after another, when
      the first read starts at slot `start` and each read moves the cursor
      one slot on. */
  function Drain(s: seq<byte>, start: nat, k: nat): (d: seq<byte>)
    requires start < |s| && k <= |s|
    ensures |d| == k
    decreases k
  {
    if k == 0 then [] else [s[start]] + Drain(s, Slot(start, 1, |s|), k - 1)
  }

  /** A bulk read of `k` bytes returns what `k` single reads return. */
  lemma {:induction false} DrainIsWindow(s: seq<byte>, start: nat, k: nat)
    requires start < |s| && k <= |s|
    ensures Drain(s, start, k) == Window(s, start, k)
    decreases k
  {
    if k > 0 {
      var next := Slot(start, 1, |s|);
      DrainIsWindow(s, next, k - 1);
      forall i | 1 <= i < k
        ensures Window(s, start, k)[i] == Window(s, next, k - 1)[i - 1]
      {
        assert Slot(next, i - 1, |s|) == Slot(start, i, |s|);
      }
    }
  }
}
