/** Datagrams over a stream: payloads are cut into frames of a two-byte length and up to
    8192 bytes, and read back through buffers of any size. */
module VlessPackets {
  import opened Bytes

  const MAX_LENGTH := 8192

  // ---------------------------------------------------------------- frames

  ghost predicate Framable(chunks: seq<seq<byte>>) {
    forall i :: 0 <= i < |chunks| ==> |chunks[i]| < 0x1_0000
  }

  /** The stream that carries the chunks. */
  ghost function Wire(chunks: seq<seq<byte>>): seq<byte>
    requires Framable(chunks)
  {
    if chunks == [] then [] else Framed16(chunks[0]) + Wire(chunks[1..])
  }

  ghost function Concat(chunks: seq<seq<byte>>): seq<byte> {
    if chunks == [] then [] else chunks[0] + Concat(chunks[1..])
  }

  /** How a payload is cut. */
  ghost function Chunks(b: seq<byte>): (chunks: seq<seq<byte>>)
    ensures Framable(chunks)
    decreases |b|
  {
    if b == [] then [] else if |b| <= MAX_LENGTH then [b] else [b[..MAX_LENGTH]] + Chunks(b[MAX_LENGTH..])
  }

  /** A payload is cut into frames of 1 to 8192 bytes, nothing is lost, and only the last
      frame may be short. */
  lemma {:induction false} ChunksAreSmall(b: seq<byte>)
    ensures Concat(Chunks(b)) == b
    ensures forall i :: 0 <= i < |Chunks(b)| ==> 1 <= |Chunks(b)[i]| <= 8192
    ensures forall i :: 0 <= i < |Chunks(b)| - 1 ==> |Chunks(b)[i]| == 8192
    decreases |b|
  {
    if b == [] {
    } else if |b| <= MAX_LENGTH {
      assert Concat([b]) == b + Concat([]);
    } else {
      ChunksAreSmall(b[MAX_LENGTH..]);
      assert Chunks(b)[1..] == Chunks(b[MAX_LENGTH..]);
    }
  }

  /** On the wire a frame is its length, high byte first, and its bytes. */
  lemma WireBytes(chunk: seq<byte>)
    requires |chunk| < 0x1_0000
    ensures Wire([chunk]) == [|chunk| / 256, |chunk| % 256] + chunk
  {
    assert Wire([chunk]) == Framed16(chunk) + Wire([]);
  }

  lemma {:induction false} WireConcat(a: seq<seq<byte>>, b: seq<seq<byte>>)
    requires Framable(a) && Framable(b)
    ensures Framable(a + b) && Wire(a + b) == Wire(a) + Wire(b)
    ensures Concat(a + b) == Concat(a) + Concat(b)
    decreases |a|
  {
    if a == [] {
      assert a + b == b;
    } else {
      WireConcat(a[1..], b);
      assert (a + b)[1..] == a[1..] + b && (a + b)[0] == a[0];
      assert Wire(a + b) == Framed16(a[0]) + Wire(a[1..] + b);
    }
  }

  // ---------------------------------------------------------------- the connection below

  /** A stream connection: it takes `room` more bytes before writing fails, and holds the
      bytes that have arrived and were not read yet. */
  class Conn {
    var outgoing: seq<byte>
    var room: nat
    var incoming: seq<byte>

    constructor (room: nat, incoming: seq<byte>)
      ensures outgoing == [] && this.room == room && this.incoming == incoming
    {
      this.outgoing, this.room, this.incoming := [], room, incoming;
    }

    method Write(p: seq<byte>) returns (n: nat, ok: bool)
      modifies this`outgoing, this`room
      ensures ok <==> |p| <= old(room)
      ensures n == if ok then |p| else old(room)
      ensures outgoing == old(outgoing) + p[..n] && room == old(room) - n
    {
      ok := |p| <= room;
      n := if ok then |p| else room;
      outgoing, room := outgoing + p[..n], room - n;
    }

    /** Reads up to `length` bytes, of which the network has delivered `got`. */
    method Read(b: array<byte>, length: nat, got: nat) returns (n: nat, ok: bool)
      requires length <= b.Length
      modifies this`incoming, b
      ensures ok <==> old(incoming) != []
      ensures n == Least(length, got, |old(incoming)|)
      ensures incoming == old(incoming)[n..]
      ensures b[..] == old(incoming)[..n] + old(b[..])[n..]
    {
      ok := incoming != [];
      n := if got < length then got else length;
      n := if |incoming| < n then |incoming| else n;
      Fill(b, incoming[..n]);
      incoming := incoming[n..];
    }

    method ReadFull(b: array<byte>, length: nat) returns (ok: bool)
      requires length <= b.Length
      modifies this`incoming, b
      ensures ok <==> length <= |old(incoming)|
      ensures ok ==> incoming == old(incoming)[length..] && b[..length] == old(incoming)[..length]
    {
      ok := length <= |incoming|;
      if ok {
        Fill(b, incoming[..length]);
        incoming := incoming[length..];
      }
    }
  }

  function Least(a: nat, b: nat, c: nat): nat {
    var m := if b < a then b else a;
    if c < m then c else m
  }

  method Fill(b: array<byte>, s: seq<byte>)
    requires |s| <= b.Length
    modifies b
    ensures b[..] == s + old(b[..])[|s|..]
  {
    for i := 0 to |s|
      invariant forall j :: 0 <= j < b.Length ==> b[j] == if j < i then s[j] else old(b[j])
    {
      b[i] := s[i];
    }
  }

  // ---------------------------------------------------------------- the packet connection

  /** How much of a header arrives at once. */
  function HeaderPart(incoming: seq<byte>, got: nat): (h: nat)
    ensures h <= 2 && h <= |incoming|
  {
    var h := if got < 2 then got else 2;
    if |incoming| < h then |incoming| else h
  }

  /** The length read from a header: bytes that have not arrived are what the buffer held. */
  function HeaderValue(incoming: seq<byte>, buffer: seq<byte>, got: nat): nat
    requires |buffer| >= 2
  {
    var h := HeaderPart(incoming, got);
    U16(if h > 0 then incoming[0] else buffer[0], if h > 1 then incoming[1] else buffer[1])
  }

  class PacketConn {
    const conn: Conn
    var remain: nat
    /** The frames still to come after the current one. */
    ghost var chunks: seq<seq<byte>>

    /** `remain` is the unread rest of the current frame, and whole frames follow it. */
    ghost predicate Valid()
      reads this, conn
    {
      && Framable(chunks) && remain <= |conn.incoming|
      && conn.incoming[remain..] == Wire(chunks)
    }

    /** The payload bytes not yet read. */
    ghost function Payload(): seq<byte>
      requires Valid()
      reads this, conn
    {
      conn.incoming[..remain] + Concat(chunks)
    }

    constructor (conn: Conn, ghost chunks: seq<seq<byte>>)
      requires Framable(chunks) && conn.incoming == Wire(chunks)
      ensures Valid() && this.conn == conn && remain == 0 && this.chunks == chunks
    {
      this.conn, remain, this.chunks := conn, 0, chunks;
    }

    /** One frame; on failure a part of it, and how many payload bytes that part has. */
    method WritePacket(payload: seq<byte>) returns (n: nat, ok: bool)
      requires |payload| < 0x1_0000
      modifies conn`outgoing, conn`room
      ensures ok <==> |Framed16(payload)| <= old(conn.room)
      ensures ok ==> n == |payload| && conn.outgoing == old(conn.outgoing) + Framed16(payload)
      ensures ok ==> conn.room == old(conn.room) - |Framed16(payload)|
      ensures !ok ==> n == PayloadPart(old(conn.room))
      ensures !ok ==> conn.outgoing == old(conn.outgoing) + Framed16(payload)[..old(conn.room)]
    {
      var header := U16Bytes(|payload|);
      n, ok := conn.Write(header);
      if !ok {
        return 0, false;
      }
      n, ok := conn.Write(payload);
    }

    /** Payload frame by frame: all of it, or what fits and how many payload bytes that is. */
    method WriteTo(b: seq<byte>) returns (n: nat, ok: bool)
      modifies conn`outgoing, conn`room
      ensures ok <==> |Wire(Chunks(b))| <= old(conn.room)
      ensures ok ==> n == |b| && conn.outgoing == old(conn.outgoing) + Wire(Chunks(b))
      ensures !ok ==> conn.outgoing == old(conn.outgoing) + Wire(Chunks(b))[..old(conn.room)]
      ensures !ok ==> n == PayloadIn(b, old(conn.room))
    {
      var total := |b|;
      if total == 0 {
        return 0, true;
      }
      if total <= MAX_LENGTH {
        CutFrame(b, 0, conn.room);
        assert b[0..total] == b && b[0..] == b;
        n, ok := WritePacket(b);
        return;
      }
      n, ok := WriteFrames(b);
    }

    /** Reads on in the current frame, or the start of the next one. `headerGot` and `got`
        are what the network delivers for the header and for a read inside a frame. If the
        header comes whole, the bytes read are the next payload bytes. */
    method ReadFrom(b: array<byte>, headerGot: nat, got: nat) returns (n: nat, ok: bool)
      requires Valid() && b.Length >= 2
      modifies this, conn`incoming, b
      ensures n <= b.Length
      ensures headerGot >= 2 ==> Valid() && (ok <==> old(conn.incoming) != [])
      ensures headerGot >= 2 ==> n <= |old(Payload())| && b[..n] == old(Payload())[..n]
      ensures headerGot >= 2 ==> Payload() == old(Payload())[n..]
      ensures headerGot >= 2 && !ok ==> conn.incoming == []
      ensures headerGot >= 2 && got > 0 && ok ==> |conn.incoming| < |old(conn.incoming)|
    {
      if remain > 0 {
        n, ok := ReadOn(b, got);
        return;
      }
      n, ok := NextFrame(b, headerGot);
    }

    method ReadOn(b: array<byte>, got: nat) returns (n: nat, ok: bool)
      requires Valid() && remain > 0 && b.Length >= 2
      modifies this`remain, conn`incoming, b
      ensures Valid() && ok && n <= b.Length
      ensures n <= |old(Payload())| && b[..n] == old(Payload())[..n] && Payload() == old(Payload())[n..]
      ensures got > 0 ==> n > 0 && |conn.incoming| < |old(conn.incoming)|
    {
      var length := b.Length;
      if remain < length {
        length := remain;
      }
      ghost var incoming, r := conn.incoming, remain;
      n, ok := conn.Read(b, length, got);
      remain := remain - n;
      SplitRest(incoming, r, n, Concat(chunks));
    }

    /** The next frame, as far as it fits: what the header means for the frames to come. */
    method NextFrame(b: array<byte>, headerGot: nat) returns (n: nat, ok: bool)
      requires Valid() && remain == 0 && b.Length >= 2
      modifies this, conn`incoming, b
      ensures n <= b.Length
      ensures headerGot >= 2 ==> Valid() && (ok <==> old(conn.incoming) != [])
      ensures headerGot >= 2 ==> n <= |old(Payload())| && b[..n] == old(Payload())[..n]
      ensures headerGot >= 2 ==> Payload() == old(Payload())[n..]
      ensures headerGot >= 2 && !ok ==> conn.incoming == []
      ensures headerGot >= 2 && ok ==> |conn.incoming| < |old(conn.incoming)|
    {
      ghost var was := chunks;
      if headerGot >= 2 && was != [] {
        WholeHeader(was, b[..], headerGot);
      }
      assert conn.incoming == Wire(was) && Payload() == Concat(was);
      n, ok := ReadFrame(b, headerGot);
      if was != [] {
        chunks := was[1..];
      }
    }

    /** Reads a header, then as much of the body as fits. */
    method ReadFrame(b: array<byte>, headerGot: nat) returns (n: nat, ok: bool)
      requires remain == 0 && b.Length >= 2
      modifies this`remain, conn`incoming, b
      ensures n <= b.Length
      ensures var total := HeaderValue(old(conn.incoming), old(b[..]), headerGot);
              var behind := old(conn.incoming)[HeaderPart(old(conn.incoming), headerGot)..];
              var length := if total < b.Length then total else b.Length;
              && (ok <==> old(conn.incoming) != [] && length <= |behind|)
              && (ok ==> n == length && b[..n] == behind[..n] && conn.incoming == behind[n..] && remain == total - n)
              && (!ok ==> n == 0 && remain == 0)
      ensures old(conn.incoming) == [] ==> conn.incoming == []
    {
      var _, headerOk := conn.Read(b, 2, headerGot);
      if !headerOk {
        return 0, false;
      }
      var total := U16(b[0], b[1]);
      if total == 0 {
        return 0, true;
      }
      n := b.Length;
      if n > total {
        n := total;
      }
      ok := conn.ReadFull(b, n);
      if !ok {
        return 0, false;
      }
      remain := total - n;
    }

    method WriteFrames(b: seq<byte>) returns (n: nat, ok: bool)
      modifies conn`outgoing, conn`room
      ensures ok <==> |Wire(Chunks(b))| <= old(conn.room)
      ensures ok ==> n == |b| && conn.outgoing == old(conn.outgoing) + Wire(Chunks(b))
      ensures !ok ==> conn.outgoing == old(conn.outgoing) + Wire(Chunks(b))[..old(conn.room)]
      ensures !ok ==> n == PayloadIn(b, old(conn.room))
    {
      var total, offset := |b|, 0;
      ghost var all, rest := Wire(Chunks(b)), Wire(Chunks(b));
      assert b[0..] == b;
      while offset < total
        invariant offset <= total && rest == Wire(Chunks(b[offset..]))
        invariant |rest| - conn.room == |all| - old(conn.room)
        invariant conn.outgoing + rest == old(conn.outgoing) + all && old(conn.outgoing) <= conn.outgoing
        invariant PayloadIn(b, old(conn.room)) == offset + PayloadIn(b[offset..], conn.room)
      {
        var cursor := offset + MAX_LENGTH;
        if cursor > total {
          cursor := total;
        }
        CutFrame(b, offset, conn.room);
        ghost var before, room, frame := conn.outgoing, conn.room, Framed16(b[offset..cursor]);
        rest := Wire(Chunks(b[cursor..]));
        n, ok := WritePacket(b[offset..cursor]);
        if !ok {
          CutInside(old(conn.outgoing), all, before, frame, rest, room, old(conn.room));
          return offset + n, false;
        }
        Regroup(before, frame, rest);
        offset := cursor;
        if offset == total {
          break;
        }
      }
      return total, true;
    }
  }

  /** A header that arrives whole leads to the next payload bytes. */
  lemma WholeHeader(chunks: seq<seq<byte>>, buffer: seq<byte>, got: nat)
    requires Framable(chunks) && chunks != [] && |buffer| >= 2 && got >= 2
    ensures var w, total := Wire(chunks), |chunks[0]|;
            var n := if total < |buffer| then total else |buffer|;
            && |w| >= 2 + total && HeaderPart(w, got) == 2 && HeaderValue(w, buffer, got) == total
            && NextPayload(chunks, w[2..][..n], w[2..][n..], total - n)
  {
    var w, total := Wire(chunks), |chunks[0]|;
    var n := if total < |buffer| then total else |buffer|;
    SplitWire(chunks, n);
    assert w[2..][n..] == w[2 + n..];
    SplitRest(chunks[0], total, n, Concat(chunks[1..]));
    assert chunks[0][..total] == chunks[0] && chunks[0][n..][..total - n] == chunks[0][n..];
  }

  /** `data` comes first in the payload; `remain` bytes of `behind` and the other frames follow. */
  ghost predicate NextPayload(chunks: seq<seq<byte>>, data: seq<byte>, behind: seq<byte>, remain: nat)
    requires Framable(chunks) && chunks != []
  {
    && |data| <= |Concat(chunks)| && data == Concat(chunks)[..|data|]
    && remain <= |behind| && behind[remain..] == Wire(chunks[1..])
    && behind[..remain] + Concat(chunks[1..]) == Concat(chunks)[|data|..]
  }

  /** Reading the next frame with `got` bytes of its header delivered takes the next payload
      bytes and leaves the rest of the stream readable. */
  ghost predicate ReadsOn(chunks: seq<seq<byte>>, buffer: seq<byte>, got: nat)
    requires Framable(chunks) && chunks != [] && |buffer| >= 2
  {
    var w, total := Wire(chunks), HeaderValue(Wire(chunks), buffer, got);
    var behind, n := w[HeaderPart(w, got)..], if total < |buffer| then total else |buffer|;
    n <= |behind| && NextPayload(chunks, behind[..n], behind[n..], total - n)
  }

  /** Whatever the frames and the buffer, that is so if and only if the header comes whole. */
  lemma HeaderMustBeWhole(chunks: seq<seq<byte>>, buffer: seq<byte>, got: nat)
    requires Framable(chunks) && chunks != [] && |buffer| >= 2
    ensures ReadsOn(chunks, buffer, got) <==> got >= 2
  {
    if got >= 2 {
      WholeHeader(chunks, buffer, got);
    } else {
      WireIsFramed(chunks);
      ReadsOnLength(chunks, buffer, got);
      assert HeaderPart(Wire(chunks), got) == got;
    }
  }

  /** Reading on takes exactly two header bytes off the stream. */
  lemma ReadsOnLength(chunks: seq<seq<byte>>, buffer: seq<byte>, got: nat)
    requires Framable(chunks) && chunks != [] && |buffer| >= 2
    ensures ReadsOn(chunks, buffer, got) ==>
              |Wire(chunks)| - HeaderPart(Wire(chunks), got) == |chunks[0]| + |Wire(chunks[1..])|
  {
    if ReadsOn(chunks, buffer, got) {
      var w, total := Wire(chunks), HeaderValue(Wire(chunks), buffer, got);
      var behind, n := w[HeaderPart(w, got)..], if total < |buffer| then total else |buffer|;
      LengthsAgree(chunks, behind, n, total - n);
    }
  }

  lemma LengthsAgree(chunks: seq<seq<byte>>, behind: seq<byte>, n: nat, remain: nat)
    requires Framable(chunks) && chunks != [] && n <= |behind|
    requires NextPayload(chunks, behind[..n], behind[n..], remain)
    ensures |behind| == |chunks[0]| + |Wire(chunks[1..])|
  {
    assert |Concat(chunks)| == |chunks[0]| + |Concat(chunks[1..])|;
    assert |behind[n..][..remain] + Concat(chunks[1..])| == |Concat(chunks)| - n;
    assert |behind[n..][remain..]| == |Wire(chunks[1..])|;
  }

  lemma WireIsFramed(chunks: seq<seq<byte>>)
    requires Framable(chunks) && chunks != []
    ensures Wire(chunks) == Framed16(chunks[0]) + Wire(chunks[1..])
  {
  }

  /** Reading `n` bytes of the rest of the current frame. */
  lemma SplitRest(incoming: seq<byte>, remain: nat, n: nat, behind: seq<byte>)
    requires n <= remain <= |incoming|
    ensures incoming[n..][remain - n..] == incoming[remain..]
    ensures var payload := incoming[..remain] + behind;
            payload[..n] == incoming[..n] && payload[n..] == incoming[n..][..remain - n] + behind
  {
  }

  /** What reading a frame leaves: the frame's rest, then the frames behind it. */
  lemma SplitWire(chunks: seq<seq<byte>>, length: nat)
    requires Framable(chunks) && chunks != [] && length <= |chunks[0]|
    ensures var w := Wire(chunks);
            && |w| >= 2 + |chunks[0]| && U16(w[0], w[1]) == |chunks[0]|
            && w[2..][..length] == chunks[0][..length]
            && w[2 + length..][..|chunks[0]| - length] == chunks[0][length..]
            && w[2 + length..][|chunks[0]| - length..] == Wire(chunks[1..])
  {
    var w, c, tail := Wire(chunks), chunks[0], Wire(chunks[1..]);
    WireIsFramed(chunks);
    assert w == U16Bytes(|c|) + (c + tail);
    assert w[0] == U16Bytes(|c|)[0] && w[1] == U16Bytes(|c|)[1];
    assert w[2..] == c + tail;
    assert w[2 + length..] == c[length..] + tail;
  }

  /** The next frame of a payload, and what writing it leaves to be done. */
  lemma CutFrame(b: seq<byte>, offset: nat, room: nat)
    requires offset < |b|
    ensures var cursor := if offset + MAX_LENGTH > |b| then |b| else offset + MAX_LENGTH;
            && Wire(Chunks(b[offset..])) == Framed16(b[offset..cursor]) + Wire(Chunks(b[cursor..]))
            && PayloadIn(b[offset..], room) ==
               if room >= |Framed16(b[offset..cursor])|
               then cursor - offset + PayloadIn(b[cursor..], room - |Framed16(b[offset..cursor])|)
               else PayloadPart(room)
  {
    var rest := b[offset..];
    if |rest| <= MAX_LENGTH {
      assert b[offset..|b|] == rest;
      assert Chunks(rest)[1..] == [];
    } else {
      var cursor := offset + MAX_LENGTH;
      assert rest[..MAX_LENGTH] == b[offset..cursor] && rest[MAX_LENGTH..] == b[cursor..];
      assert Chunks(rest)[1..] == Chunks(b[cursor..]);
    }
  }

  lemma Regroup(a: seq<byte>, b: seq<byte>, c: seq<byte>)
    ensures (a + b) + c == a + (b + c)
  {
  }

  /** Being cut inside the current frame is being cut at the same place of the whole stream. */
  lemma CutInside(start: seq<byte>, all: seq<byte>, before: seq<byte>, frame: seq<byte>, rest: seq<byte>,
                  room: nat, allRoom: nat)
    requires before + (frame + rest) == start + all && start <= before
    requires |frame + rest| - room == |all| - allRoom && room < |frame|
    ensures allRoom < |all| && before + frame[..room] == start + all[..allRoom]
  {
    var done := before[|start|..];
    assert before == start + done;
    assert start + (done + (frame + rest)) == start + all;
    assert all == (start + all)[|start|..] == done + (frame + rest);
    assert all[..allRoom] == done + frame[..room];
  }

  /** Payload bytes among the first `room` bytes of a frame that does not fit. */
  function PayloadPart(room: nat): nat {
    if room < 2 then 0 else room - 2
  }

  /** Payload bytes among the first `room` bytes of the frames of `b`. */
  ghost function PayloadIn(b: seq<byte>, room: nat): nat
    decreases |b|
  {
    if b == [] then 0
    else if |b| <= MAX_LENGTH then if room >= 2 + |b| then |b| else PayloadPart(room)
    else if room >= 2 + MAX_LENGTH then MAX_LENGTH + PayloadIn(b[MAX_LENGTH..], room - 2 - MAX_LENGTH)
    else PayloadPart(room)
  }

  // ---------------------------------------------------------------- end to end

  /** The frames of a sequence of payloads. */
  ghost function AllChunks(payloads: seq<seq<byte>>): (chunks: seq<seq<byte>>)
    ensures Framable(chunks)
  {
    if payloads == [] then []
    else AllChunks(payloads[..|payloads| - 1]) + Chunks(payloads[|payloads| - 1])
  }

  lemma {:induction false} AllChunksConcat(payloads: seq<seq<byte>>)
    ensures Concat(AllChunks(payloads)) == Concat(payloads)
    decreases |payloads|
  {
    if payloads != [] {
      var first, last := payloads[..|payloads| - 1], payloads[|payloads| - 1];
      AllChunksConcat(first);
      WireConcat(AllChunks(first), Chunks(last));
      ChunksAreSmall(last);
      ConcatSnoc(first, last);
      assert payloads == first + [last];
    }
  }

  lemma {:induction false} ConcatSnoc(a: seq<seq<byte>>, last: seq<byte>)
    ensures Concat(a + [last]) == Concat(a) + last
    decreases |a|
  {
    if a == [] {
      assert [last][1..] == [] && a + [last] == [last];
    } else {
      ConcatSnoc(a[1..], last);
      assert (a + [last])[1..] == a[1..] + [last];
    }
  }

  method WriteAll(w: PacketConn, payloads: seq<seq<byte>>) returns (ok: bool)
    requires w.conn.outgoing == []
    modifies w.conn`outgoing, w.conn`room
    ensures ok ==> w.conn.outgoing == Wire(AllChunks(payloads))
  {
    for i := 0 to |payloads|
      invariant w.conn.outgoing == Wire(AllChunks(payloads[..i]))
    {
      assert payloads[..i + 1][..i] == payloads[..i];
      WireConcat(AllChunks(payloads[..i]), Chunks(payloads[i]));
      var _, written := w.WriteTo(payloads[i]);
      if !written {
        return false;
      }
    }
    assert payloads[..|payloads|] == payloads;
    ok := true;
  }

  /** Reads until nothing is left, with the `i`-th buffer of size `sizes(i)` and the network
      delivering `got(i)` bytes to the `i`-th read. */
  method ReadAll(r: PacketConn, sizes: nat -> nat, got: nat -> nat) returns (data: seq<byte>)
    requires r.Valid()
    requires forall i :: sizes(i) >= 2
    requires forall i :: got(i) >= 1
    modifies r, r.conn
    ensures r.Valid() && data == old(r.Payload()) && r.Payload() == [] && r.conn.incoming == []
  {
    data := [];
    var i, ok := 0, true;
    while ok
      invariant r.Valid() && data + r.Payload() == old(r.Payload())
      invariant !ok ==> r.conn.incoming == []
      decreases |r.conn.incoming|, ok
    {
      var b := new byte[sizes(i)];
      ghost var before, whole := data, r.Payload();
      var n;
      n, ok := r.ReadFrom(b, 2, got(i));
      data := data + b[..n];
      Advance(before, whole, n);
      i := i + 1;
    }
    NothingLeft(r);
  }

  lemma Advance(data: seq<byte>, whole: seq<byte>, n: nat)
    requires n <= |whole|
    ensures (data + whole[..n]) + whole[n..] == data + whole
  {
  }

  lemma NothingLeft(r: PacketConn)
    requires r.Valid() && r.conn.incoming == []
    ensures r.Payload() == []
  {
    assert Wire(r.chunks) == [];
  }

  /** Whatever the payloads, the buffers and the partial reads, the bytes written are the
      bytes read, in order. */
  method Relay(payloads: seq<seq<byte>>, room: nat, sizes: nat -> nat, got: nat -> nat)
    returns (ok: bool, received: seq<byte>)
    requires forall i :: sizes(i) >= 2
    requires forall i :: got(i) >= 1
    ensures ok ==> received == Concat(payloads)
  {
    var there := new Conn(room, []);
    var w := new PacketConn(there, []);
    ok := WriteAll(w, payloads);
    if !ok {
      return false, [];
    }
    var back := new Conn(0, there.outgoing);
    var r := new PacketConn(back, AllChunks(payloads));
    AllChunksConcat(payloads);
    received := ReadAll(r, sizes, got);
  }

  /** For example, a header that arrives in two pieces: its low byte comes out as payload. */
  method SplitHeader() returns (data: seq<byte>)
    ensures data == [3] && !(data <= [1, 2, 3])
  {
    ghost var chunks: seq<seq<byte>> := [[1, 2, 3]];
    assert chunks[1..] == [] && Wire(chunks) == [0, 3, 1, 2, 3];
    var conn := new Conn(0, [0, 3, 1, 2, 3]);
    var r := new PacketConn(conn, chunks);
    var b := new byte[2] [0, 1];
    var n, _ := r.ReadFrame(b, 1);
    assert b[..n] == [3];
    data := b[..n];
    assert data[0] == 3 && [1, 2, 3][0] == 1;
  }
}
