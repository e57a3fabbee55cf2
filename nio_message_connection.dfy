/**
 * Length-prefixed message framing over a ReadStream: every message travels
 * as a 4-byte little-endian length followed by that many bytes. Reading is
 * a two-state machine on `nextLength` (0: awaiting a prefix, > 0: awaiting
 * a body of that length) that may span any number of calls.
 *
 * The pure function `Decide` says what one `tryRead` call does with the
 * bytes obtainable without blocking; the class method is proved to follow
 * it, and the framing properties are lemmas about `Decide`.
 */
module NIOMessageConnection {
  import opened JavaTypes
  import opened Channels
  import opened NIOReadStream

  /** Size of the scratch buffer outbound frames are assembled in. */
  const WRITE_BUFFER_SIZE: nat := 4096
  /** Bytes of a length prefix (`Integer.SIZE / 8`). */
  const PREFIX_SIZE: nat := 4

  /**
   * The outcome of `tryRead`: null (a frame is still incomplete), a message,
   * the empty array that signals a connection closed by the peer, or the
   * assertion failure raised by a length prefix that is not positive.
   */
  datatype ReadResult = NeedMore | Message(bytes: seq<i8>) | Closed | BadLength(length: i32)

  /** One `tryRead` step: its result, the new `nextLength`, and how many obtainable bytes it consumed. */
  datatype Step = Step(result: ReadResult, nextLength: int, used: nat)

  /**
   * One `tryRead` call in state `nl` when `avail` is everything obtainable
   * without blocking and `eof` says whether end-of-stream follows it.
   */
  function Decide(nl: nat, avail: seq<i8>, eof: bool): (s: Step)
    ensures s.used <= |avail|
    ensures s.result.Message? ==> s.used > 0
  {
    if nl == 0 then
      if |avail| < PREFIX_SIZE then Step(if eof then Closed else NeedMore, 0, 0)
      else
        var len := DecodeLE(avail[..PREFIX_SIZE]);
        if len <= 0 then Step(BadLength(len), len, PREFIX_SIZE)
        else Body(len, avail, PREFIX_SIZE, eof)
    else Body(nl, avail, 0, eof)
  }

  /** What one `tryRead` call promises, whatever the bytes obtainable. */
  lemma DecideSpec(nl: nat, avail: seq<i8>, eof: bool)
    ensures var s := Decide(nl, avail, eof);
      // a message is always complete: exactly the announced number of bytes, in order
      && (s.result.Message? ==>
            && s.nextLength == 0
            && (nl > 0 ==> s.used == nl && s.result.bytes == avail[..nl])
            && (nl == 0 ==> |avail| >= PREFIX_SIZE && DecodeLE(avail[..PREFIX_SIZE]) > 0
                            && s.used == PREFIX_SIZE + DecodeLE(avail[..PREFIX_SIZE])
                            && s.result.bytes == avail[PREFIX_SIZE..s.used]))
      // the EOF rules: only end-of-stream closes, and end-of-stream leaves nothing waiting
      && (s.result.Closed? ==> eof)
      && (s.result.NeedMore? ==> !eof)
      // an incomplete frame consumes at most its prefix and keeps the parsed length
      && (s.result.NeedMore? || s.result.Closed? ==>
            if nl > 0 then s.used == 0 && s.nextLength == nl && |avail| < nl
            else if |avail| < PREFIX_SIZE then s.used == 0 && s.nextLength == 0
            else s.used == PREFIX_SIZE && s.nextLength == DecodeLE(avail[..PREFIX_SIZE]) > 0
                 && |avail| - PREFIX_SIZE < s.nextLength)
      && (s.result.BadLength? ==>
            nl == 0 && |avail| >= PREFIX_SIZE && s.used == PREFIX_SIZE
            && s.result.length == s.nextLength == DecodeLE(avail[..PREFIX_SIZE]) <= 0)
  {
  }

  /** The body half of `tryRead`: `len` bytes are wanted, starting at `off`. */
  function Body(len: nat, avail: seq<i8>, off: nat, eof: bool): (s: Step)
    requires len > 0 && off <= |avail|
    ensures s.result.Message? ==> s.used == off + len && s.nextLength == 0
    ensures !s.result.Message? ==> s.used == off && s.nextLength == len && |avail| - off < len
  {
    if |avail| - off >= len then Step(Message(avail[off..off + len]), 0, off + len)
    else Step(if eof then Closed else NeedMore, len, off)
  }

  /** Waiting for a body at offset `off` is waiting for it at the start of what follows `off`. */
  lemma BodyShift(len: nat, avail: seq<i8>, off: nat, eof: bool)
    requires len > 0 && off <= |avail|
    ensures var s := Body(len, avail[off..], 0, eof);
      Body(len, avail, off, eof) == Step(s.result, s.nextLength, off + s.used)
  {
    if |avail| - off >= len {
      assert avail[off..][0..len] == avail[off..off + len];
    }
  }

  /** The wire form of a message: its length, little-endian, then its bytes. */
  function Frame(m: seq<i8>): (f: seq<i8>)
    requires |m| < 0x8000_0000
    ensures |f| == PREFIX_SIZE + |m| && f[PREFIX_SIZE..] == m
  {
    LittleEndian(|m|) + m
  }

  /** Framing round trip: a framed message, whatever follows it, is read back whole in one call. */
  lemma FrameRoundTrip(m: seq<i8>, rest: seq<i8>, eof: bool)
    requires 0 < |m| < 0x8000_0000
    ensures Decide(0, Frame(m) + rest, eof) == Step(Message(m), 0, |Frame(m)|)
  {
    var avail := Frame(m) + rest;
    assert avail[..PREFIX_SIZE] == LittleEndian(|m|);
    LittleEndianRoundTrip(|m|);
    assert avail[PREFIX_SIZE..PREFIX_SIZE + |m|] == m;
  }

  /**
   * Partial-frame reassembly: when only the first `k` bytes of a frame are
   * obtainable, the call returns null; once the rest arrives, the next call,
   * starting from the state and the unconsumed bytes the first one left,
   * returns the whole message.
   */
  lemma Reassembly(m: seq<i8>, k: nat, more: seq<i8>, eof: bool)
    requires 0 < |m| < 0x8000_0000 && k < |Frame(m)|
    ensures var s := Decide(0, Frame(m)[..k], false);
      && s.result == NeedMore
      && Decide(s.nextLength, Frame(m)[..k][s.used..] + Frame(m)[k..] + more, eof).result == Message(m)
  {
    var f := Frame(m);
    var s := Decide(0, f[..k], false);
    if k < PREFIX_SIZE {
      assert s.used == 0;
      assert f[..k][s.used..] + f[k..] + more == f + more;
      FrameRoundTrip(m, more, eof);
    } else {
      assert f[..k][..PREFIX_SIZE] == f[..PREFIX_SIZE] == LittleEndian(|m|);
      LittleEndianRoundTrip(|m|);
      assert s.nextLength == |m|;
      var avail := f[..k][PREFIX_SIZE..] + f[k..] + more;
      assert avail == m + more;
      assert avail[..|m|] == m;
    }
  }

  /** Pieces of the byte stream, joined in order. */
  function Joined(ps: seq<seq<i8>>): seq<i8>
  {
    if ps == [] then [] else ps[0] + Joined(ps[1..])
  }

  /** The calls' results and the connection state (`nextLength` and the unconsumed bytes) after them. */
  datatype Fed = Fed(results: seq<ReadResult>, nextLength: int, buffered: seq<i8>)

  /**
   * One `tryRead` call per delivery: each call sees the bytes left over by
   * the previous one followed by the new delivery; end-of-stream, if `eof`,
   * follows the last delivery only. Feeding stops at the first call that
   * does not return null.
   */
  function Feed(nl: nat, buf: seq<i8>, ds: seq<seq<i8>>, eof: bool): (r: Fed)
    ensures |r.results| <= |ds|
    decreases |ds|
  {
    if ds == [] then Fed([], nl, buf)
    else
      var avail := buf + ds[0];
      var s := Decide(nl, avail, |ds| == 1 && eof);
      if s.result.NeedMore? && s.nextLength >= 0 && |ds| > 1 then
        var r := Feed(s.nextLength, avail[s.used..], ds[1..], eof);
        Fed([s.result] + r.results, r.nextLength, r.buffered)
      else Fed([s.result], s.nextLength, avail[s.used..])
  }

  /** `n` null results. */
  function Nulls(n: nat): (rs: seq<ReadResult>)
    ensures |rs| == n && forall i :: 0 <= i < n ==> rs[i] == NeedMore
  {
    if n == 0 then [] else [NeedMore] + Nulls(n - 1)
  }

  /** The connection state once the first `k` bytes of the frame of `m` have been delivered and read. */
  function PartialLength(m: seq<i8>, k: nat): nat
  {
    if k < PREFIX_SIZE then 0 else |m|
  }

  function PartialBytes(m: seq<i8>, k: nat): seq<i8>
    requires |m| < 0x8000_0000 && k <= |Frame(m)|
  {
    if k < PREFIX_SIZE then Frame(m)[..k] else Frame(m)[PREFIX_SIZE..k]
  }

  /** A further piece that still leaves the frame incomplete: null, and the state of the longer prefix. */
  lemma PartialStep(m: seq<i8>, k: nat, k2: nat)
    requires 0 < |m| < 0x8000_0000 && k <= k2 < |Frame(m)|
    ensures var s := Decide(PartialLength(m, k), PartialBytes(m, k) + Frame(m)[k..k2], false);
      && s.result == NeedMore && s.nextLength == PartialLength(m, k2)
      && (PartialBytes(m, k) + Frame(m)[k..k2])[s.used..] == PartialBytes(m, k2)
  {
    var f := Frame(m);
    var avail := PartialBytes(m, k) + f[k..k2];
    if k < PREFIX_SIZE {
      assert avail == f[..k2];
      if k2 >= PREFIX_SIZE {
        assert avail[..PREFIX_SIZE] == LittleEndian(|m|);
        LittleEndianRoundTrip(|m|);
      }
    } else {
      assert avail == f[PREFIX_SIZE..k2];
    }
  }

  /** The piece that completes the frame: the whole message, with only what follows the frame left over. */
  lemma PartialFinish(m: seq<i8>, k: nat, more: seq<i8>, eof: bool)
    requires 0 < |m| < 0x8000_0000 && k < |Frame(m)|
    ensures var avail := PartialBytes(m, k) + (Frame(m)[k..] + more);
      var s := Decide(PartialLength(m, k), avail, eof);
      s.result == Message(m) && s.nextLength == 0 && avail[s.used..] == more
  {
    var f := Frame(m);
    var avail := PartialBytes(m, k) + (f[k..] + more);
    if k < PREFIX_SIZE {
      assert avail == f + more;
      FrameRoundTrip(m, more, eof);
      assert avail[|f|..] == more;
    } else {
      assert avail == m + more;
      assert avail[..|m|] == m && avail[|m|..] == more;
    }
  }

  /** A null call on a delivery that is not the last: the feeding continues from the state it leaves. */
  lemma FeedNull(nl: nat, buf: seq<i8>, ds: seq<seq<i8>>, eof: bool)
    requires |ds| > 1
    requires Decide(nl, buf + ds[0], false).result == NeedMore && Decide(nl, buf + ds[0], false).nextLength >= 0
    ensures var s := Decide(nl, buf + ds[0], false);
      var r := Feed(s.nextLength, (buf + ds[0])[s.used..], ds[1..], eof);
      Feed(nl, buf, ds, eof) == Fed([NeedMore] + r.results, r.nextLength, r.buffered)
  {
  }

  /** The first of several pieces of the rest of a frame, when only the last piece completes it. */
  lemma FirstPiece(f: seq<i8>, k: nat, pieces: seq<seq<i8>>, more: seq<i8>)
    requires k < |f| && |pieces| > 1
    requires Joined(pieces) == f[k..] + more
    requires k + |Joined(pieces[..|pieces| - 1])| < |f|
    ensures var k2 := k + |pieces[0]|;
      && k2 < |f| && pieces[0] == f[k..k2] && Joined(pieces[1..]) == f[k2..] + more
      && k2 + |Joined(pieces[1..][..|pieces| - 2])| < |f|
  {
    var p := pieces[0];
    var init := pieces[..|pieces| - 1];
    assert Joined(init) == p + Joined(init[1..]);
    assert init[1..] == pieces[1..][..|pieces| - 2];
    var k2 := k + |p|;
    assert Joined(pieces) == p + Joined(pieces[1..]);
    assert p == (f[k..] + more)[..|p|] == f[k..k2];
    assert f[k..] + more == f[k..k2] + (f[k2..] + more);
  }

  /**
   * Partial-delivery reassembly over any number of deliveries: when a frame
   * arrives in pieces and only the last piece completes it, every call but
   * the last returns null and the last returns the whole message, leaving
   * exactly what followed the frame. `k` bytes of the frame have already
   * been read.
   */
  lemma {:induction false} ReassemblyFrom(m: seq<i8>, k: nat, pieces: seq<seq<i8>>, more: seq<i8>, eof: bool)
    requires 0 < |m| < 0x8000_0000 && k < |Frame(m)| && pieces != []
    requires Joined(pieces) == Frame(m)[k..] + more
    requires k + |Joined(pieces[..|pieces| - 1])| < |Frame(m)|
    ensures Feed(PartialLength(m, k), PartialBytes(m, k), pieces, eof) == Fed(Nulls(|pieces| - 1) + [Message(m)], 0, more)
    decreases |pieces|
  {
    if |pieces| == 1 {
      assert pieces[1..] == [] && Joined(pieces) == pieces[0] + Joined(pieces[1..]);
      assert pieces[0] == Frame(m)[k..] + more;
      PartialFinish(m, k, more, eof);
    } else {
      FirstPiece(Frame(m), k, pieces, more);
      var k2 := k + |pieces[0]|;
      var nl, buf := PartialLength(m, k), PartialBytes(m, k);
      PartialStep(m, k, k2);
      var s := Decide(nl, buf + pieces[0], false);
      assert s.result == NeedMore && s.nextLength == PartialLength(m, k2) && (buf + pieces[0])[s.used..] == PartialBytes(m, k2);
      FeedNull(nl, buf, pieces, eof);
      ReassemblyFrom(m, k2, pieces[1..], more, eof);
      var r := Feed(PartialLength(m, k2), PartialBytes(m, k2), pieces[1..], eof);
      assert Feed(nl, buf, pieces, eof) == Fed([NeedMore] + r.results, r.nextLength, r.buffered);
      assert Nulls(|pieces| - 1) == [NeedMore] + Nulls(|pieces| - 2);
    }
  }

  /**
   * Reassembly from a fresh connection: a frame delivered in any number of
   * pieces, completed only by the last, yields null for every earlier call
   * and then the message.
   */
  lemma Reassemble(m: seq<i8>, pieces: seq<seq<i8>>, more: seq<i8>, eof: bool)
    requires 0 < |m| < 0x8000_0000 && pieces != []
    requires Joined(pieces) == Frame(m) + more
    requires |Joined(pieces[..|pieces| - 1])| < |Frame(m)|
    ensures Feed(0, [], pieces, eof) == Fed(Nulls(|pieces| - 1) + [Message(m)], 0, more)
  {
    assert Frame(m)[0..] == Frame(m) && Frame(m)[..0] == [];
    ReassemblyFrom(m, 0, pieces, more, eof);
  }

  /** What draining `tryRead` until it returns something other than a message yields. */
  datatype Drained = Drained(messages: seq<seq<i8>>, last: ReadResult, nextLength: int, used: nat)

  /** Repeated `tryRead` calls as the listener makes them: collect messages until one call returns no message. */
  function Drain(nl: nat, avail: seq<i8>, eof: bool): (d: Drained)
    ensures !d.last.Message? && d.used <= |avail|
    decreases |avail|
  {
    var s := Decide(nl, avail, eof);
    if s.result.Message? then
      var d := Drain(0, avail[s.used..], eof);
      Drained([s.result.bytes] + d.messages, d.last, d.nextLength, s.used + d.used)
    else Drained([], s.result, s.nextLength, s.used)
  }

  /** The wire form of a sequence of messages, one frame after another. */
  function Frames(ms: seq<seq<i8>>): (f: seq<i8>)
    requires forall i :: 0 <= i < |ms| ==> |ms[i]| < 0x8000_0000
  {
    if ms == [] then [] else Frame(ms[0]) + Frames(ms[1..])
  }

  /**
   * Message order: back-to-back frames are drained as exactly the messages
   * sent, in order; the call after the last one returns null, or the closed
   * signal when the stream has ended.
   */
  lemma {:induction false} DrainFrames(ms: seq<seq<i8>>, eof: bool)
    requires forall i :: 0 <= i < |ms| ==> 0 < |ms[i]| < 0x8000_0000
    ensures Drain(0, Frames(ms), eof) == Drained(ms, if eof then Closed else NeedMore, 0, |Frames(ms)|)
  {
    if ms != [] {
      var rest := Frames(ms[1..]);
      var avail := Frames(ms);
      assert avail == Frame(ms[0]) + rest;
      FrameRoundTrip(ms[0], rest, eof);
      assert avail[|Frame(ms[0])|..] == rest;
      DrainFrames(ms[1..], eof);
      var d := Drain(0, rest, eof);
      assert Drain(0, avail, eof) == Drained([ms[0]] + d.messages, d.last, d.nextLength, |Frame(ms[0])| + d.used);
      assert [ms[0]] + ms[1..] == ms;
    }
  }

  /** The example of the listener tests: the wire bytes 1,0,0,0,42,2,0,0,0,1,2 are the messages [42] and [1, 2]. */
  lemma WireExample()
    ensures Drain(0, [1, 0, 0, 0, 42, 2, 0, 0, 0, 1, 2], false).messages == [[42], [1, 2]]
  {
    var ms: seq<seq<i8>> := [[42], [1, 2]];
    assert Frames(ms) == [1, 0, 0, 0, 42, 2, 0, 0, 0, 1, 2] by {
      assert Frame([42]) == [1, 0, 0, 0, 42];
      assert Frame([1, 2]) == [2, 0, 0, 0, 1, 2];
      assert Frames(ms[1..][1..]) == [];
    }
    DrainFrames(ms, false);
  }

  /** The outcome of `write`. */
  datatype WriteResult =
    | EmptyMessage  // IllegalArgumentException: messages must contain data
    | Written
    | Failed        // RuntimeException: the channel took fewer bytes than the frame, or was closed

  /** The write call `write(m)` makes: one buffer when the message fits after the prefix, else a gather write. */
  function FrameCall(m: seq<i8>): (c: WriteCall)
    requires |m| < 0x8000_0000
    ensures c.Content() == Frame(m)
  {
    if |m| > WRITE_BUFFER_SIZE - PREFIX_SIZE then Gather(LittleEndian(|m|), m) else Single(Frame(m))
  }

  class Connection {
    const channel: Channel
    const stream: ReadStream
    /** The direct buffer outbound frames are assembled in. */
    const writeBuffer: array<i8>
    /** 0 while awaiting a length prefix, otherwise the length of the body awaited. */
    var nextLength: int

    ghost predicate Valid()
      reads this, stream
    {
      stream.channel == channel && stream.Valid() && !stream.released && writeBuffer.Length == WRITE_BUFFER_SIZE
    }

    constructor (channel: Channel)
      ensures Valid() && fresh(stream) && fresh(writeBuffer) && this.channel == channel
      ensures nextLength == 0 && stream.Unread() == []
    {
      this.channel := channel;
      stream := new ReadStream(channel);
      writeBuffer := new i8[WRITE_BUFFER_SIZE];
      nextLength := 0;
    }

    /**
     * `tryRead()`: follows `Decide` on everything obtainable. A message or a
     * bad prefix leaves unread whatever follows it; null or the closed signal
     * means every obtainable byte has been buffered and the stop consumed.
     */
    method TryRead() returns (r: ReadResult)
      requires Valid() && nextLength >= 0 && channel.open
      modifies this, stream, channel
      ensures Valid() && channel.open
      ensures var s := Decide(old(nextLength), old(stream.Available()), StopIsEof(old(channel.inbound)));
        && r == s.result && nextLength == s.nextLength
        && (r.Message? || r.BadLength? ==>
              stream.Available() == old(stream.Available())[s.used..] && Stop(channel.inbound) == Stop(old(channel.inbound)))
        && (r.NeedMore? || r.Closed? ==>
              stream.Unread() == old(stream.Available())[s.used..] && channel.inbound == AfterStop(old(channel.inbound)))
    {
      ghost var A := stream.Available();
      ghost var eof := StopIsEof(channel.inbound);
      ghost var off := 0;
      if nextLength == 0 {
        var done := ReadLength();
        if done.Some? {
          return done.value;
        }
        off := PREFIX_SIZE;
      }
      BodyShift(nextLength, A, off, eof);
      r := ReadBody();
    }

    /**
     * The first half of `tryRead`: wait for a length prefix and parse it.
     * Returns the call's result when it ends here (closed, null, bad
     * prefix), or nothing once a positive length is in `nextLength`.
     */
    method ReadLength() returns (done: Option<ReadResult>)
      requires Valid() && nextLength == 0 && channel.open
      modifies this, stream, channel
      ensures Valid() && channel.open
      ensures var s := Decide(0, old(stream.Available()), StopIsEof(old(channel.inbound)));
        && (done.Some? ==> done.value == s.result && nextLength == s.nextLength)
        && (done.None? ==>
              && |old(stream.Available())| >= PREFIX_SIZE && nextLength == DecodeLE(old(stream.Available())[..PREFIX_SIZE]) > 0
              && s == Body(nextLength, old(stream.Available()), PREFIX_SIZE, StopIsEof(old(channel.inbound))))
        && (done.None? || (done.Some? && done.value.BadLength?) ==>
              stream.Available() == old(stream.Available())[PREFIX_SIZE..] && Stop(channel.inbound) == Stop(old(channel.inbound)))
        && (done.Some? && !done.value.BadLength? ==>
              |old(stream.Available())| < PREFIX_SIZE && stream.Unread() == old(stream.Available()) && channel.inbound == AfterStop(old(channel.inbound)))
    {
      ghost var A := stream.Available();
      var lengthBytes := stream.TryRead(PREFIX_SIZE);
      if lengthBytes == -1 {
        return Some(Closed);
      }
      if lengthBytes < PREFIX_SIZE {
        return Some(NeedMore);
      }
      ghost var U := stream.Unread();
      ghost var R := Ready(channel.inbound);
      assert A == U + R;
      DropFromFront(U, R, PREFIX_SIZE);
      assert A[..PREFIX_SIZE] == U[..PREFIX_SIZE];
      var len := stream.GetInt();
      nextLength := len.value;
      assert stream.Available() == A[PREFIX_SIZE..];
      if nextLength <= 0 {
        return Some(BadLength(len.value));
      }
      done := None;
    }

    /** The second half of `tryRead`: with a length known, wait for that many body bytes. */
    method ReadBody() returns (r: ReadResult)
      requires Valid() && nextLength > 0 && channel.open
      modifies this, stream, channel
      ensures Valid() && channel.open
      ensures var s := Body(old(nextLength), old(stream.Available()), 0, StopIsEof(old(channel.inbound)));
        && r == s.result && nextLength == s.nextLength
        && (r.Message? ==>
              stream.Available() == old(stream.Available())[s.used..] && Stop(channel.inbound) == Stop(old(channel.inbound)))
        && (!r.Message? ==>
              stream.Unread() == old(stream.Available()) && channel.inbound == AfterStop(old(channel.inbound)))
    {
      ghost var A := stream.Available();
      var messageBytes := stream.TryRead(nextLength);
      if messageBytes == -1 {
        return Closed;
      }
      if messageBytes < nextLength {
        return NeedMore;
      }
      ghost var U := stream.Unread();
      ghost var R := Ready(channel.inbound);
      assert A == U + R;
      DropFromFront(U, R, nextLength);
      assert A[..nextLength] == U[..nextLength];
      var result := new i8[nextLength];
      var ok := stream.GetBytes(result);
      assert stream.Available() == A[nextLength..];
      nextLength := 0;
      r := Message(result[..]);
    }

    /**
     * `write(m)`: assembles the frame of `m` and hands it to the channel in
     * one call; a channel that takes fewer bytes is a failure, never retried.
     * The prefix is written in native order, taken to be little-endian.
     */
    method Write(m: seq<i8>) returns (r: WriteResult)
      requires Valid() && |m| < 0x8000_0000
      modifies channel, writeBuffer
      ensures Valid() && channel.inbound == old(channel.inbound) && channel.open == old(channel.open)
      ensures |m| == 0 ==>
                && r == EmptyMessage && writeBuffer[..] == old(writeBuffer[..])
                && channel.sent == old(channel.sent) && channel.writes == old(channel.writes) && channel.room == old(channel.room)
      ensures |m| > 0 ==>
                && writeBuffer[..PREFIX_SIZE] == LittleEndian(|m|)
                && (|m| <= WRITE_BUFFER_SIZE - PREFIX_SIZE ==> writeBuffer[PREFIX_SIZE..PREFIX_SIZE + |m|] == m)
                && (r == Written <==> channel.open && old(channel.room) >= |Frame(m)|)
                && (r != Written ==> r == Failed)
                && (channel.open ==> channel.writes == old(channel.writes) + [FrameCall(m)])
                && (channel.open ==>
                      channel.room == old(channel.room) - (if old(channel.room) < |Frame(m)| then old(channel.room) else |Frame(m)|))
                && (channel.open ==> channel.sent == old(channel.sent) + Frame(m)[..old(channel.room) - channel.room])
                && (!channel.open ==> channel.sent == old(channel.sent) && channel.writes == old(channel.writes))
    {
      if |m| == 0 {
        return EmptyMessage;
      }
      var prefix := LittleEndian(|m|);
      forall k | 0 <= k < PREFIX_SIZE {
        writeBuffer[k] := prefix[k];
      }
      var call;
      if |m| > WRITE_BUFFER_SIZE - PREFIX_SIZE {
        call := Gather(writeBuffer[..PREFIX_SIZE], m);
      } else {
        forall k | PREFIX_SIZE <= k < PREFIX_SIZE + |m| {
          writeBuffer[k] := m[k - PREFIX_SIZE];
        }
        assert writeBuffer[..PREFIX_SIZE + |m|] == writeBuffer[..PREFIX_SIZE] + writeBuffer[PREFIX_SIZE..PREFIX_SIZE + |m|];
        call := Single(writeBuffer[..PREFIX_SIZE + |m|]);
      }
      var count := channel.Write(call);
      if count == |Frame(m)| {
        r := Written;
      } else {
        r := Failed;
      }
    }

    /** `close()`: closes the channel. */
    method Close()
      requires Valid()
      modifies channel
      ensures Valid() && !channel.open && channel.inbound == old(channel.inbound)
      ensures channel.sent == old(channel.sent) && channel.writes == old(channel.writes)
    {
      channel.Close();
    }
  }
}
