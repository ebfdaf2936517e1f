/** Batches of messages in one packet, as in nn_batch.c. */
module Batch {
  import opened Bits
  import opened Wire

  type Bytes = seq<u8>

  const HEADER_SIZE: nat := 1
  const LENGTH_SIZE: nat := 2
  const MAX_MESSAGES: nat := 255
  const MAX_LENGTH: nat := 0xFFFF

  // ---- The wire format ----

  function Packed(messages: seq<Bytes>): Bytes {
    if messages == [] then []
    else LeBytes(|messages[0]|, LENGTH_SIZE) + messages[0] + Packed(messages[1..])
  }

  predicate Fits(messages: seq<Bytes>) {
    |messages| <= MAX_MESSAGES && forall i :: 0 <= i < |messages| ==> |messages[i]| <= MAX_LENGTH
  }

  function Whole(messages: seq<Bytes>): Bytes
    requires Fits(messages)
  {
    [|messages|] + Packed(messages)
  }

  lemma {:induction false} PackedSnoc(messages: seq<Bytes>, m: Bytes)
    ensures Packed(messages + [m]) == Packed(messages) + LeBytes(|m|, LENGTH_SIZE) + m
  {
    if messages == [] {
      assert [] + [m] == [m] && [m][1..] == [];
    } else {
      PackedSnoc(messages[1..], m);
      assert (messages + [m])[1..] == messages[1..] + [m];
    }
  }

  lemma LengthRead(n: nat)
    requires n <= MAX_LENGTH
    ensures Le(LeBytes(n, LENGTH_SIZE)) == n
  {
    LeOfLeBytes(n, 2);
    assert Pow256(2) == 0x1_0000;
  }

  // ---- The writer ----

  class Writer {
    const buf: array<u8>
    const capacity: nat
    var offset: nat
    var count: u8
    ghost var messages: seq<Bytes>

    ghost predicate Valid()
      reads this, buf
    {
      && capacity <= buf.Length && Fits(messages) && count == |messages|
      && offset == HEADER_SIZE + |Packed(messages)|
      && (messages != [] ==> offset <= capacity && buf[HEADER_SIZE..offset] == Packed(messages))
    }

    /** nn_batch_writer_init */
    constructor (buf: array<u8>, capacity: nat)
      requires capacity <= buf.Length
      ensures Valid() && this.buf == buf && this.capacity == capacity && messages == []
    {
      this.buf := buf;
      this.capacity := capacity;
      offset := HEADER_SIZE;
      count := 0;
      messages := [];
    }

    /** nn_batch_writer_add */
    method Add(msg: array<u8>, len: nat) returns (ok: bool)
      requires Valid() && len <= msg.Length && msg != buf
      modifies this, buf
      ensures Valid()
      ensures ok <==> |old(messages)| < 255 && len <= 65535 && 1 + |Packed(old(messages))| + 2 + len <= capacity
      ensures messages == if ok then old(messages) + [msg[..len]] else old(messages)
      ensures !ok ==> buf[..] == old(buf[..])
    {
      if count >= MAX_MESSAGES || len > MAX_LENGTH {
        return false;
      }
      var needed := LENGTH_SIZE + len;
      if offset + needed > capacity {
        return false;
      }
      PackedSnoc(messages, msg[..len]);
      ghost var before := buf[..];
      WriteEntry(msg, len);
      Appended(before, offset, LeBytes(len, LENGTH_SIZE), msg[..len], buf[..], HEADER_SIZE);
      offset := offset + LENGTH_SIZE + len;
      count := count + 1;
      messages := messages + [msg[..len]];
      return true;
    }

    /** The length and then the bytes of the message */
    method WriteEntry(msg: array<u8>, len: u16)
      requires len <= msg.Length && msg != buf && offset + LENGTH_SIZE + len <= buf.Length
      modifies buf
      ensures buf[..]
           == Spliced(Spliced(old(buf[..]), offset, LeBytes(len, LENGTH_SIZE)), offset + LENGTH_SIZE, msg[..len])
    {
      WriteU16le(buf, offset, len);
      CopyBytes(msg, 0, buf, offset + LENGTH_SIZE, len);
      assert msg[0..len] == msg[..len];
    }

    /** nn_batch_writer_finish */
    method Finish() returns (total: nat)
      requires Valid()
      modifies buf
      ensures Valid()
      ensures total == if messages == [] then 0 else |Whole(messages)|
      ensures messages != [] ==> total <= capacity && buf[..total] == Whole(messages)
    {
      if count == 0 {
        return 0;
      }
      buf[0] := count;
      assert buf[HEADER_SIZE..offset] == old(buf[HEADER_SIZE..offset]);
      assert buf[..offset] == [buf[0]] + buf[HEADER_SIZE..offset];
      return offset;
    }
  }

  method WriteU16le(buf: array<u8>, off: nat, v: u16)
    requires off + 2 <= buf.Length
    modifies buf
    ensures buf[..] == Spliced(old(buf[..]), off, LeBytes(v, 2))
  {
    LeBytes2(v);
    buf[off] := v % 0x100;
    buf[off + 1] := v / 0x100;
  }

  lemma LeBytes2(v: u16)
    ensures LeBytes(v, 2) == [v % 0x100, v / 0x100]
  {
    assert LeBytes(v / 0x100, 1) == [v / 0x100];
  }

  /** Writing s at off, then t after it, extends the bytes from `from` by both. */
  lemma Appended(before: Bytes, off: nat, s: Bytes, t: Bytes, after: Bytes, from: nat)
    requires from <= off && off + |s| + |t| <= |before|
    requires after == Spliced(Spliced(before, off, s), off + |s|, t)
    ensures after[from..off + |s| + |t|] == before[from..off] + s + t
  {
    SplicedTwice(before, off, s, t);
  }

  // ---- The reader ----

  /** What nn_batch_reader_next changes */
  datatype Cursor = Cursor(offset: nat, read: nat)

  /** The span of a message in the buffer */
  datatype Reading = Failed | Message(from: nat, length: nat)

  /** nn_batch_reader_next on the bytes b: when a message runs past the end, its length has already been
      consumed. */
  function Next(b: Bytes, count: nat, c: Cursor): (Reading, Cursor) {
    if c.read >= count then (Failed, c)
    else if c.offset + LENGTH_SIZE > |b| then (Failed, c)
    else
      var length := Le(b[c.offset..c.offset + LENGTH_SIZE]);
      var from := c.offset + LENGTH_SIZE;
      if from + length > |b| then (Failed, c.(offset := from))
      else (Message(from, length), Cursor(from + length, c.read + 1))
  }

  class Reader {
    const buf: array<u8>
    const bufLen: nat
    const count: u8
    var offset: nat
    var read: nat

    ghost predicate Valid()
      reads this
    {
      bufLen <= buf.Length && read <= 255
    }

    ghost function At(): Cursor
      reads this
    {
      Cursor(offset, read)
    }

    /** nn_batch_reader_init, of a buffer that is long enough */
    constructor (buf: array<u8>, bufLen: nat)
      requires HEADER_SIZE <= bufLen <= buf.Length
      ensures Valid() && this.buf == buf && this.bufLen == bufLen && count == buf[0] && At() == Cursor(HEADER_SIZE, 0)
    {
      this.buf := buf;
      this.bufLen := bufLen;
      this.count := buf[0];
      offset := HEADER_SIZE;
      read := 0;
    }

    /** nn_batch_reader_init */
    static method Init(buf: array<u8>, bufLen: nat) returns (r: Reader?)
      requires bufLen <= buf.Length
      ensures r == null <==> bufLen < HEADER_SIZE
      ensures r != null ==> fresh(r) && r.Valid() && r.buf == buf && r.bufLen == bufLen && r.count == buf[0]
                            && r.At() == Cursor(HEADER_SIZE, 0)
    {
      if bufLen < HEADER_SIZE {
        return null;
      }
      r := new Reader(buf, bufLen);
    }

    /** nn_batch_reader_next: whatever the buffer holds, no byte past bufLen is read. */
    method NextMessage() returns (reading: Reading)
      requires Valid()
      modifies this
      ensures Valid() && (reading, At()) == Next(buf[..bufLen], count, old(At()))
    {
      if read >= count {
        return Failed;
      }
      if offset + LENGTH_SIZE > bufLen {
        return Failed;
      }
      var msgLen: nat := ReadU16le(buf, bufLen, offset);
      offset := offset + LENGTH_SIZE;
      if offset + msgLen > bufLen {
        return Failed;
      }
      reading := Message(offset, msgLen);
      offset := offset + msgLen;
      read := read + 1;
    }
  }

  method ReadU16le(buf: array<u8>, bufLen: nat, off: nat) returns (v: nat)
    requires off + 2 <= bufLen <= buf.Length
    ensures v == Le(buf[..bufLen][off..off + 2])
  {
    ghost var s := buf[..bufLen][off..off + 2];
    assert s == [buf[off], buf[off + 1]];
    assert s[1..] == [buf[off + 1]] && s[1..][1..] == [];
    assert Le(s[1..]) == buf[off + 1];
    v := (buf[off] as nat) + 0x100 * (buf[off + 1] as nat);
  }

  // ---- Any buffer ----

  /** A message read from any buffer lies inside it, after everything read before, and there are never
      more than announced. */
  lemma ReadsInside(b: Bytes, count: nat, c: Cursor)
    ensures var (reading, c') := Next(b, count, c);
      && c'.offset >= c.offset
      && (reading.Message? ==> c.offset < reading.from && reading.from + reading.length == c'.offset <= |b|
                               && c'.read == c.read + 1 <= count)
      && (reading.Failed? ==> c'.read == c.read)
  {
  }

  /** The read failed because the announced number is reached or no length is left. */
  predicate AtEnd(b: Bytes, count: nat, c: Cursor) {
    c.read >= count || c.offset + LENGTH_SIZE > |b|
  }

  /** A failed read is final exactly at the end; otherwise the next read goes on after the two bytes of
      the length that was too large. */
  lemma FailureFinalIff(b: Bytes, count: nat, c: Cursor)
    requires Next(b, count, c).0.Failed?
    ensures Next(b, count, c).1 == c <==> AtEnd(b, count, c)
    ensures !AtEnd(b, count, c) ==> Next(b, count, c).1 == c.(offset := c.offset + LENGTH_SIZE)
  {
  }

  /** A read can succeed after a failed one. */
  lemma FailureNotSticky()
    ensures var b: Bytes := [1, 5, 0, 0, 0]; var start := Cursor(HEADER_SIZE, 0);
      var (first, c) := Next(b, 1, start);
      first.Failed? && Next(b, 1, c).0 == Message(5, 0)
  {
    var b: Bytes := [1, 5, 0, 0, 0];
    LeOfTwo(b[1..3]);
    LeOfTwo(b[3..5]);
  }

  lemma LeOfTwo(s: Bytes)
    requires |s| == 2
    ensures Le(s) == s[0] as nat + 0x100 * (s[1] as nat)
  {
    assert s[1..][1..] == [];
    assert Le(s[1..]) == s[1];
  }

  // ---- What was written is read ----

  /** The messages read up to the first failure */
  function ReadAll(b: Bytes, count: nat, c: Cursor): seq<Bytes>
    requires c.read <= count
    decreases count - c.read
  {
    match Next(b, count, c)
    case (Failed, _) => []
    case (Message(from, length), c') => [b[from..from + length]] + ReadAll(b, count, c')
  }

  lemma ReadFirst(b: Bytes, count: nat, c: Cursor, l: Bytes, m: Bytes, rest: Bytes)
    requires c.read < count && c.offset <= |b| && |l| == LENGTH_SIZE && Le(l) == |m|
    requires b[c.offset..] == l + m + rest
    ensures var from := c.offset + LENGTH_SIZE; var end := from + |m|;
      Next(b, count, c) == (Message(from, |m|), Cursor(end, c.read + 1))
      && end <= |b| && b[from..end] == m && b[end..] == rest
  {
    SliceParts(b, c.offset, l, m, rest);
  }

  lemma SliceParts(b: Bytes, off: nat, l: Bytes, m: Bytes, rest: Bytes)
    requires off <= |b| && b[off..] == l + m + rest
    ensures var from := off + |l|; var end := from + |m|;
      end <= |b| && b[off..from] == l && b[from..end] == m && b[end..] == rest
  {
    var tail, from, end := l + m + rest, off + |l|, off + |l| + |m|;
    assert |b| == off + |tail|;
    assert b[off..from] == tail[..|l|] && tail[..|l|] == l;
    assert b[from..end] == tail[|l|..|l| + |m|] && tail[|l|..|l| + |m|] == m;
    assert b[end..] == tail[|l| + |m|..] && tail[|l| + |m|..] == rest;
  }

  lemma {:induction false} ReadsPacked(b: Bytes, count: nat, c: Cursor, messages: seq<Bytes>, rest: Bytes)
    requires c.read + |messages| == count && c.offset <= |b| && Fits(messages)
    requires b[c.offset..] == Packed(messages) + rest
    ensures ReadAll(b, count, c) == messages
    decreases |messages|
  {
    if messages != [] {
      var m := messages[0];
      var after := Packed(messages[1..]) + rest;
      assert b[c.offset..] == LeBytes(|m|, LENGTH_SIZE) + m + after;
      LengthRead(|m|);
      ReadFirst(b, count, c, LeBytes(|m|, LENGTH_SIZE), m, after);
      ReadsPacked(b, count, Next(b, count, c).1, messages[1..], rest);
      assert messages == [m] + messages[1..];
    }
  }

  /** A reader of a finished batch, with or without bytes after it, reads exactly the messages added. */
  lemma ReadsWhatWasWritten(messages: seq<Bytes>, rest: Bytes)
    requires Fits(messages)
    ensures var b := Whole(messages) + rest;
      ReadAll(b, b[0], Cursor(HEADER_SIZE, 0)) == messages
  {
    var b := Whole(messages) + rest;
    assert b[HEADER_SIZE..] == Packed(messages) + rest;
    ReadsPacked(b, b[0], Cursor(HEADER_SIZE, 0), messages, rest);
  }
}
