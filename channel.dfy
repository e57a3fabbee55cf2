/**
 * The socket channel the framing code talks to, as a script. Reads follow
 * the mock channel of the read-stream tests: each scripted delivery is
 * handed out as far as the reader's buffer has room (the rest stays at the
 * head of the script), a would-block entry makes one read return 0, and
 * end-of-stream is sticky (every later read returns -1). An exhausted script
 * would block. Writes accept at most `room` bytes, as a non-blocking socket
 * whose send buffer has that much space left.
 */
module Channels {
  import opened JavaTypes

  /** One scripted result of a non-blocking read. */
  datatype Outcome = Data(bytes: seq<i8>) | WouldBlock | Eof

  /** True when a read at the head of `s` transfers at least one byte. */
  predicate Delivers(s: seq<Outcome>)
  {
    s != [] && s[0].Data? && s[0].bytes != []
  }

  /** The bytes reads hand out before the script's next stop (a read that returns 0 or -1). */
  function Ready(s: seq<Outcome>): seq<i8>
  {
    if Delivers(s) then s[0].bytes + Ready(s[1..]) else []
  }

  /** The script from its next stop on. */
  function Stop(s: seq<Outcome>): seq<Outcome>
  {
    if Delivers(s) then Stop(s[1..]) else s
  }

  /** The next stop is end-of-stream. */
  predicate StopIsEof(s: seq<Outcome>)
  {
    Stop(s) != [] && Stop(s)[0] == Eof
  }

  /** What is left once a read has hit the stop: a zero read is used up, end-of-stream stays. */
  function AfterStop(s: seq<Outcome>): seq<Outcome>
  {
    var t := Stop(s);
    if t == [] || t[0] == Eof then t else t[1..]
  }

  /** Every byte the script will ever deliver, in order. */
  function Bytes(s: seq<Outcome>): seq<i8>
  {
    if s == [] then [] else (if s[0].Data? then s[0].bytes else []) + Bytes(s[1..])
  }

  /** Going past the stop loses no byte: whatever follows the stop is still to come. */
  lemma {:induction false} BytesAtStop(s: seq<Outcome>)
    ensures Bytes(s) == Ready(s) + Bytes(AfterStop(s))
  {
    if Delivers(s) {
      BytesAtStop(s[1..]);
      assert Bytes(s) == s[0].bytes + Bytes(s[1..]);
    } else if s != [] && s[0] != Eof {
      assert Bytes(s) == (if s[0].Data? then s[0].bytes else []) + Bytes(s[1..]);
    }
  }

  /** One call of a socket write: a single buffer or a two-buffer gather write. */
  datatype WriteCall = Single(buffer: seq<i8>) | Gather(header: seq<i8>, body: seq<i8>)
  {
    function Content(): seq<i8>
    {
      match this
      case Single(b) => b
      case Gather(h, b) => h + b
    }
  }

  class Channel {
    /** The reads still to come. */
    var inbound: seq<Outcome>
    var open: bool
    /** Bytes the send buffer accepts without blocking. */
    var room: nat
    /** Every byte accepted by writes so far. */
    var sent: seq<i8>
    /** Every write call made so far. */
    var writes: seq<WriteCall>

    constructor (script: seq<Outcome>, sendRoom: nat)
      ensures inbound == script && open && room == sendRoom && sent == [] && writes == []
    {
      inbound, open, room, sent, writes := script, true, sendRoom, [], [];
    }

    /**
     * `read(buffer)` with `space` bytes of room left in `buffer`: returns the
     * count transferred (0 when it would block, -1 at end-of-stream) and the
     * bytes themselves.
     */
    method Read(space: nat) returns (n: int, data: seq<i8>)
      requires open && space > 0
      modifies this
      ensures open && room == old(room) && sent == old(sent) && writes == old(writes)
      ensures n >= -1 && |data| == (if n > 0 then n else 0) <= space
      ensures Bytes(old(inbound)) == data + Bytes(inbound)
      ensures n > 0 ==> Ready(old(inbound)) == data + Ready(inbound) && Stop(inbound) == Stop(old(inbound))
      ensures n > 0 ==> data != []
      ensures n <= 0 ==> Ready(old(inbound)) == []
      ensures n == 0 ==> !StopIsEof(old(inbound)) && inbound == AfterStop(old(inbound))
      ensures n == -1 ==> StopIsEof(old(inbound)) && inbound == old(inbound)
    {
      if inbound == [] {
        n, data := 0, [];
      } else {
        match inbound[0]
        case Eof =>
          n, data := -1, [];
        case WouldBlock =>
          n, data := 0, [];
          inbound := inbound[1..];
        case Data(b) =>
          if b == [] {
            n, data := 0, [];
            assert Bytes(inbound) == [] + Bytes(inbound[1..]);
            inbound := inbound[1..];
          } else if |b| <= space {
            n, data := |b|, b;
            assert Bytes(inbound) == b + Bytes(inbound[1..]);
            inbound := inbound[1..];
          } else {
            n, data := space, b[..space];
            var rest := [Data(b[space..])] + inbound[1..];
            assert b == b[..space] + b[space..];
            assert rest[1..] == inbound[1..];
            assert Delivers(rest);
            assert Bytes(inbound) == b + Bytes(inbound[1..]);
            assert Bytes(rest) == b[space..] + Bytes(inbound[1..]);
            inbound := rest;
          }
      }
    }

    /**
     * A non-blocking write: accepts as many bytes as the send buffer has room
     * for and returns that count; -1 stands for the IOException of a closed
     * channel.
     */
    method Write(call: WriteCall) returns (count: int)
      modifies this
      ensures inbound == old(inbound) && open == old(open)
      ensures !open ==> count == -1 && room == old(room) && sent == old(sent) && writes == old(writes)
      ensures open ==> count == (if old(room) < |call.Content()| then old(room) else |call.Content()|)
      ensures open ==> sent == old(sent) + call.Content()[..count] && room == old(room) - count
      ensures open ==> writes == old(writes) + [call]
    {
      if !open {
        count := -1;
      } else {
        var content := call.Content();
        count := if room < |content| then room else |content|;
        sent := sent + content[..count];
        room := room - count;
        writes := writes + [call];
      }
    }

    method Close()
      modifies this
      ensures !open && inbound == old(inbound) && room == old(room) && sent == old(sent) && writes == old(writes)
    {
      open := false;
    }
  }
}
