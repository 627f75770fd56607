/**
  The circular buffers of the fast driver: `out` chases `in` around a fixed array, and one slot always stays
  unused so that equal indices mean empty.
 */
module Ring {

  /** The elements between the two indices, oldest first. */
  function Contents<T>(buf: seq<T>, o: nat, i: nat): (r: seq<T>)
    requires o < |buf| && i < |buf|
    ensures |r| == if o <= i then i - o else |buf| - o + i
  {
    if o <= i then buf[o..i] else buf[o..] + buf[..i]
  }

  /** An index that may have run up to the end of the buffer, brought back into it. */
  function Wrap(k: nat, len: nat): (r: nat)
    requires k <= len && len > 0
    ensures r < len
  {
    if k == len then 0 else k
  }

  /** The source writes this as a remainder. */
  lemma WrapIsRemainder(k: nat, len: nat)
    requires k <= len && len > 0
    ensures k % len == Wrap(k, len)
  {
    if k == len {
      assert len % len == 0;
    }
  }

  /** Full is one element short of the buffer. */
  lemma FullWhenNextIsOut<T>(buf: seq<T>, o: nat, i: nat)
    requires o < |buf| && i < |buf|
    ensures Wrap(i + 1, |buf|) == o <==> |Contents(buf, o, i)| == |buf| - 1
  {
  }

  lemma EmptyWhenEqual<T>(buf: seq<T>, o: nat, i: nat)
    requires o < |buf| && i < |buf|
    ensures o == i <==> Contents(buf, o, i) == []
  {
  }

  lemma PutOne<T>(buf: seq<T>, o: nat, i: nat, x: T)
    requires o < |buf| && i < |buf| && Wrap(i + 1, |buf|) != o
    ensures Contents(buf[i := x], o, Wrap(i + 1, |buf|)) == Contents(buf, o, i) + [x]
  {
  }

  /** Storing into a slot that the ring does not use leaves the ring alone. */
  lemma StoreInFreeSlot<T>(buf: seq<T>, o: nat, i: nat, k: nat, x: T)
    requires o < |buf| && i < |buf| && i + k < |buf|
    requires |Contents(buf, o, i)| + k < |buf| - 1
    ensures Contents(buf[i + k := x], o, i) == Contents(buf, o, i)
  {
  }

  lemma SliceSplit<T>(s: seq<T>, a: nat, b: nat, c: nat)
    requires a <= b <= c <= |s|
    ensures s[a..c] == s[a..b] + s[b..c]
  {
  }

  /** Moving `in` past a run of freshly stored elements appends them. */
  lemma PublishRun<T>(buf: seq<T>, o: nat, i: nat, n: nat)
    requires o < |buf| && i < |buf| && i + n <= |buf|
    requires |Contents(buf, o, i)| + n <= |buf| - 1
    ensures Contents(buf, o, Wrap(i + n, |buf|)) == Contents(buf, o, i) + buf[i..i + n]
  {
    if o <= i {
      SliceSplit(buf, o, i, i + n);
      if i + n == |buf| {
        assert buf[o..] + buf[..0] == buf[o..i + n];
      }
    } else {
      SliceSplit(buf, 0, i, i + n);
      assert buf[o..] + buf[..i + n] == buf[o..] + buf[..i] + buf[i..i + n];
    }
  }

  /** Moving `out` past a run of elements removes them from the front. */
  lemma RetireRun<T>(buf: seq<T>, o: nat, i: nat, n: nat)
    requires o < |buf| && i < |buf| && o + n <= |buf|
    requires n <= |Contents(buf, o, i)|
    ensures Contents(buf, o, i) == buf[o..o + n] + Contents(buf, Wrap(o + n, |buf|), i)
    ensures Contents(buf, o, i)[..n] == buf[o..o + n]
  {
  }

  lemma TakeOne<T>(buf: seq<T>, o: nat, i: nat)
    requires o < |buf| && i < |buf| && o != i
    ensures Contents(buf, o, i) == [buf[o]] + Contents(buf, Wrap(o + 1, |buf|), i)
  {
    RetireRun(buf, o, i, 1);
  }

  /** The room for one contiguous copy that `altera_avalon_jtag_uart_write` computes from the two indices. */
  function WriteRoom(len: nat, i: nat, o: nat): int {
    if i < o then o - 1 - i
    else if o > 0 then len - i
    else len - 1 - i
  }

  /** It is as much as fits both the ring and the rest of the buffer, and no less. */
  lemma WriteRoomIsSafe<T>(buf: seq<T>, o: nat, i: nat)
    requires o < |buf| && i < |buf|
    ensures 0 <= WriteRoom(|buf|, i, o) && i + WriteRoom(|buf|, i, o) <= |buf|
    ensures |Contents(buf, o, i)| + WriteRoom(|buf|, i, o) <= |buf| - 1
    ensures i + WriteRoom(|buf|, i, o) == |buf| || |Contents(buf, o, i)| + WriteRoom(|buf|, i, o) == |buf| - 1
    ensures WriteRoom(|buf|, i, o) == 0 <==> |Contents(buf, o, i)| == |buf| - 1
  {
  }

  /** The length of one contiguous copy that `altera_avalon_jtag_uart_read` computes from the two indices. */
  function ReadRun(len: nat, i: nat, o: nat): int {
    if i >= o then i - o else len - o
  }

  /** It is as much as there is up to the end of the buffer, and no less. */
  lemma ReadRunIsSafe<T>(buf: seq<T>, o: nat, i: nat)
    requires o < |buf| && i < |buf|
    ensures 0 <= ReadRun(|buf|, i, o) <= |Contents(buf, o, i)| && o + ReadRun(|buf|, i, o) <= |buf|
    ensures ReadRun(|buf|, i, o) == |Contents(buf, o, i)| || o + ReadRun(|buf|, i, o) == |buf|
    ensures ReadRun(|buf|, i, o) == 0 <==> Contents(buf, o, i) == []
  {
  }
}
