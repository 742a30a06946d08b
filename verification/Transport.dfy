/** plugin/transport: the default frame codec, the connection's fill loop and the receive loop, over a source
    that delivers the byte stream in arbitrary non-empty chunks. */
module Transport {
  import opened GoBase

  const HEAD_SIZE: nat := 8

  // ---------------------------------------------------------------- frames

  datatype Encoded = Frame(bytes: seq<byte>) | EncodePanic

  /** The size of what follows the header, as a 32-bit word. A header-size word larger than the packet makes it
      negative; the word then holds it modulo 2^32. */
  function BodyWord(packet: seq<byte>): (w: nat)
    requires |packet| >= 4
    ensures w < U32
  {
    (|packet| - 4 - Uint32(packet)) % U32
  }

  /** The frame of an application packet: its header-size word, its body-size word and the rest of the packet. */
  function FrameOf(packet: seq<byte>): (f: seq<byte>)
    requires |packet| >= 4
    ensures |f| == |packet| + 4
  {
    packet[..4] + PutUint32(BodyWord(packet)) + packet[4..]
  }

  method Encode(packet: seq<byte>) returns (r: Encoded)
    ensures r == if |packet| >= 4 then Frame(FrameOf(packet)) else EncodePanic
  {
    if |packet| < 4 {
      return EncodePanic;
    }
    var headerSize := Uint32(packet);
    var bodySize := |packet| - 4 - headerSize;
    var result := new byte[HEAD_SIZE + headerSize + bodySize](_ => 0);
    var h, b := PutUint32(headerSize), PutUint32(bodySize % U32);
    forall i | 0 <= i < 4 { result[i] := h[i]; }
    forall i | 0 <= i < 4 { result[4 + i] := b[i]; }
    forall i | 0 <= i < |packet| - 4 { result[8 + i] := packet[4 + i]; }
    PutOfUint32(packet);
    assert bodySize % U32 == BodyWord(packet);
    assert result[..4] == h && result[4..8] == b && result[8..] == packet[4..];
    assert result[..] == result[..4] + result[4..8] + result[8..];
    r := Frame(result[..]);
  }

  /** ReadFailed: the connection ended or failed before the frame was complete. */
  datatype Decoded = Packet(data: seq<byte>) | ReadFailed | DecodePanic

  /** Why the receive loop ended. */
  datatype Ended = Cancelled | Failed(last: Decoded)

  /** The first packet of a byte stream and what is left of the stream behind it. The buffer size is computed
      in 32 bits; below 4 the header-size word does not fit, which panics. */
  function DecodeSpec(stream: seq<byte>): (r: (Decoded, seq<byte>))
    ensures |r.1| <= |stream|
    ensures r.0.Packet? ==> |r.1| + 8 <= |stream|
  {
    if |stream| < HEAD_SIZE then (ReadFailed, [])
    else
      var size := (4 + Uint32(stream) + Uint32(stream[4..])) % U32;
      var rest := stream[HEAD_SIZE..];
      if size < 4 then (DecodePanic, rest)
      else if |rest| < size - 4 then (ReadFailed, [])
      else (Packet(stream[..4] + rest[..size - 4]), rest[size - 4..])
  }

  lemma DecodeAt(a: seq<byte>, c: seq<byte>, rest: seq<byte>, size: nat)
    requires |a| == |c| == 4 && size == (4 + Uint32(a) + Uint32(c)) % U32 && 4 <= size && size - 4 <= |rest|
    ensures DecodeSpec(a + c + rest) == (Packet(a + rest[..size - 4]), rest[size - 4..])
  {
    var stream := a + c + rest;
    assert stream[..4] == a && stream[4..] == c + rest && stream[8..] == rest;
    assert Uint32(stream) == Uint32(a) && Uint32(stream[4..]) == Uint32(c);
  }

  /** Decoding a frame gives back its packet and consumes exactly its bytes, even when the header-size word
      exceeds the packet. */
  lemma FrameRoundTrip(packet: seq<byte>, rest: seq<byte>)
    requires 4 <= |packet| < U32
    ensures DecodeSpec(FrameOf(packet) + rest) == (Packet(packet), rest)
  {
    var a, body := packet[..4], packet[4..];
    var b := BodyWord(packet);
    var c := PutUint32(b);
    assert Uint32(a) == Uint32(packet);
    assert FrameOf(packet) + rest == a + c + (body + rest);
    assert Uint32(c) == b by {
      Uint32OfPut(b, []);
      assert c + [] == c;
    }
    assert (4 + Uint32(a) + Uint32(c)) % U32 == |packet| by {
      SizeWraps(|packet|, Uint32(a), b);
    }
    DecodeAt(a, c, body + rest, |packet|);
    assert (body + rest)[..|packet| - 4] == body && (body + rest)[|packet| - 4..] == rest;
    assert a + body == packet;
  }

  /** The layout of a frame: the packet's own header-size word, the size of what follows the header, and then the
      packet behind its word. */
  lemma FrameLayout(packet: seq<byte>)
    requires 4 <= |packet| < U32
    ensures var f := FrameOf(packet);
            && |f| == |packet| + 4 && f[..4] == packet[..4] && f[8..] == packet[4..]
            && (4 + Uint32(packet) <= |packet| ==> Uint32(f[4..8]) == |packet| - 4 - Uint32(packet))
  {
    var b := BodyWord(packet);
    assert FrameOf(packet)[4..8] == PutUint32(b);
    Uint32OfPut(b, []);
    assert PutUint32(b) + [] == PutUint32(b);
  }

  /** What is decoded off any stream whose two size words do not wrap around: the first word and as many bytes as
      both sizes say, or nothing if the stream ends before. */
  lemma DecodeMeans(stream: seq<byte>)
    ensures |stream| < 8 ==> DecodeSpec(stream) == (ReadFailed, [])
    ensures |stream| >= 8 ==>
              var total := Uint32(stream) + Uint32(stream[4..]);
              && (total + 4 < U32 && 8 + total <= |stream| ==>
                    DecodeSpec(stream) == (Packet(stream[..4] + stream[8..8 + total]), stream[8 + total..]))
              && (total + 4 < U32 && |stream| < 8 + total ==> DecodeSpec(stream) == (ReadFailed, []))
              && (U32 <= total + 4 < U32 + 4 ==> DecodeSpec(stream).0 == DecodePanic)
  {
    if |stream| >= 8 {
      var h, b := Uint32(stream), Uint32(stream[4..]);
      NoWrap(4 + h + b);
      SizedMeans(stream, (4 + h + b) % U32);
    }
  }

  lemma DecodeRest(stream: seq<byte>, size: nat)
    requires |stream| >= 8 && size == (4 + Uint32(stream) + Uint32(stream[4..])) % U32 && size < 4
    ensures DecodeSpec(stream) == (DecodePanic, stream[8..])
  {
  }

  lemma JoinedAt4(all: seq<byte>, a: seq<byte>, b: seq<byte>)
    requires |all| >= 4 && all[..4] == a && all[4..] == b
    ensures all == a + b
  {
  }

  /** A zeroed buffer with a word in front. */
  method NewBuffer(size: nat, word: seq<byte>) returns (data: array<byte>)
    requires |word| == 4 <= size
    ensures fresh(data) && data.Length == size && data[..4] == word
  {
    data := new byte[size](_ => 0);
    forall i | 0 <= i < 4 { data[i] := word[i]; }
  }

  lemma SliceTwice(stream: seq<byte>, size: nat)
    requires 4 <= size <= |stream| - 4
    ensures stream[8..][..size - 4] == stream[8..4 + size] && stream[8..][size - 4..] == stream[4 + size..]
  {
  }

  lemma NoWrap(n: nat)
    ensures n < U32 ==> n % U32 == n
    ensures U32 <= n < U32 + 4 ==> n % U32 < 4
  {
  }

  lemma SizedMeans(stream: seq<byte>, size: nat)
    requires |stream| >= 8 && size == (4 + Uint32(stream) + Uint32(stream[4..])) % U32
    ensures size < 4 ==> DecodeSpec(stream).0 == DecodePanic
    ensures 4 <= size <= |stream| - 4 ==>
              DecodeSpec(stream) == (Packet(stream[..4] + stream[8..4 + size]), stream[4 + size..])
    ensures size >= 4 && size > |stream| - 4 ==> DecodeSpec(stream) == (ReadFailed, [])
  {
    if 4 <= size <= |stream| - 4 {
      var rest := stream[8..];
      assert rest[..size - 4] == stream[8..4 + size] && rest[size - 4..] == stream[4 + size..];
    }
  }

  /** A frame that is cut off gives no packet. */
  lemma TruncatedFrame(packet: seq<byte>, k: nat)
    requires 4 <= |packet| < U32 && k < |FrameOf(packet)|
    ensures DecodeSpec(FrameOf(packet)[..k]) == (ReadFailed, [])
  {
    var a, b := packet[..4], BodyWord(packet);
    var c, f := PutUint32(b), FrameOf(packet)[..k];
    if k >= 8 {
      var all := FrameOf(packet);
      assert all[..4] == a && all[4..8] == c;
      assert f[..4] == all[..4] && f[4..][..4] == all[4..8];
      assert Uint32(f) == Uint32(a) == Uint32(packet) && Uint32(f[4..]) == Uint32(c);
      Uint32OfPut(b, []);
      assert c + [] == c;
      SizeWraps(|packet|, Uint32(a), b);
    }
  }

  /** The header and body sizes add up to the packet size modulo 2^32. */
  lemma SizeWraps(n: nat, h: nat, b: nat)
    requires b == (n - 4 - h) % U32
    ensures (4 + h + b) % U32 == n % U32 && (n < U32 ==> (4 + h + b) % U32 == n)
  {
    var q := (n - 4 - h) / U32;
    assert n - 4 - h == q * U32 + b;
    assert 4 + h + b == n - q * U32;
    assert (n - q * U32) % U32 == n % U32 by {
      var k, r := n / U32, n % U32;
      assert n - q * U32 == (k - q) * U32 + r;
    }
  }

  /** The round trip holds exactly for packets whose size fits 32 bits. */
  lemma FrameRoundTripExact(packet: seq<byte>)
    requires |packet| >= 4
    ensures DecodeSpec(FrameOf(packet)).0 == Packet(packet) <==> |packet| < U32
  {
    if |packet| < U32 {
      FrameRoundTrip(packet, []);
      assert FrameOf(packet) + [] == FrameOf(packet);
    }
  }

  // ---------------------------------------------------------------- streams

  /** The packets a receive loop hands out until a decode fails, and that failure. */
  function RecvSpec(stream: seq<byte>): (r: (seq<seq<byte>>, Decoded))
    decreases |stream|
  {
    var (d, rest) := DecodeSpec(stream);
    if d.Packet? then
      var (more, last) := RecvSpec(rest);
      ([d.data] + more, last)
    else ([], d)
  }

  function Frames(packets: seq<seq<byte>>): (stream: seq<byte>)
    requires forall i :: 0 <= i < |packets| ==> 4 <= |packets[i]| < U32
  {
    if packets == [] then [] else FrameOf(packets[0]) + Frames(packets[1..])
  }

  lemma RecvOne(stream: seq<byte>, packet: seq<byte>, rest: seq<byte>)
    requires DecodeSpec(stream) == (Packet(packet), rest)
    ensures |rest| < |stream| && RecvSpec(stream) == ([packet] + RecvSpec(rest).0, RecvSpec(rest).1)
  {
  }

  /** Frames in front of anything are received as their packets, in order. */
  lemma {:induction false} FramesFirst(packets: seq<seq<byte>>, tail: seq<byte>)
    requires forall i :: 0 <= i < |packets| ==> 4 <= |packets[i]| < U32
    ensures RecvSpec(Frames(packets) + tail) == (packets + RecvSpec(tail).0, RecvSpec(tail).1)
  {
    if packets == [] {
      assert Frames(packets) + tail == tail && packets + RecvSpec(tail).0 == RecvSpec(tail).0;
    } else {
      var f, rest := FrameOf(packets[0]), Frames(packets[1..]) + tail;
      Assoc(f, Frames(packets[1..]), tail);
      FrameRoundTrip(packets[0], rest);
      RecvOne(f + rest, packets[0], rest);
      FramesFirst(packets[1..], tail);
      assert packets == [packets[0]] + packets[1..];
      Assoc([packets[0]], packets[1..], RecvSpec(tail).0);
    }
  }

  /** Framing a list of packets one after another and receiving the stream gives the same list in order, also when
      the stream ends inside one more frame; then the receive fails. */
  lemma StreamRoundTrip(packets: seq<seq<byte>>, next: seq<byte>, k: nat)
    requires forall i :: 0 <= i < |packets| ==> 4 <= |packets[i]| < U32
    requires 4 <= |next| < U32 && k < |FrameOf(next)|
    ensures RecvSpec(Frames(packets) + FrameOf(next)[..k]) == (packets, ReadFailed)
  {
    TruncatedFrame(next, k);
    FramesFirst(packets, FrameOf(next)[..k]);
    assert packets + [] == packets;
  }

  // ---------------------------------------------------------------- connection

  /** now is before with its bytes at from.. replaced by the first n of the stream, as far as they reach. */
  ghost predicate Filled(before: seq<byte>, now: seq<byte>, stream: seq<byte>, from: nat, n: nat) {
    && n <= |stream| && from + n <= |now| == |before|
    && now[..from] == before[..from] && now[from..from + n] == stream[..n]
  }

  lemma FillStep(before: seq<byte>, mid: seq<byte>, after: seq<byte>, stream: seq<byte>, from: nat, n: nat, k: nat)
    requires Filled(before, mid, stream, from, n) && n + k <= |stream| && from + n + k <= |mid|
    requires after == mid[..from + n] + stream[n..][..k] + mid[from + n + k..]
    ensures Filled(before, after, stream, from, n + k) && stream[n..][k..] == stream[n + k..]
  {
    assert after[from..from + (n + k)] == mid[from..from + n] + stream[n..][..k];
    assert stream[..n + k] == stream[..n] + stream[n..][..k];
    assert after[..from] == mid[..from];
  }

  class Conn {
    /** What the reader will still deliver, cut as it will deliver it. */
    var chunks: seq<seq<byte>>

    constructor (chunks: seq<seq<byte>>)
      requires forall i :: 0 <= i < |chunks| ==> chunks[i] != []
      ensures this.chunks == chunks && Valid()
    {
      this.chunks := chunks;
    }

    ghost predicate Valid()
      reads this
    {
      forall i :: 0 <= i < |chunks| ==> chunks[i] != []
    }

    ghost function Remaining(): (b: seq<byte>)
      reads this
    {
      Concat(chunks)
    }

    /** bufio.Reader.Read into target[from..]: at most the current chunk, at least one byte. */
    method ReadSome(target: array<byte>, from: nat) returns (n: Option<nat>)
      requires Valid() && from < target.Length
      modifies this, target
      ensures Valid()
      ensures n.None? ==> chunks == old(chunks) == [] && target[..] == old(target[..])
      ensures n.Some? ==>
                && 0 < n.value <= target.Length - from && n.value <= old(|Remaining()|)
                && target[..] == old(target[..])[..from] + old(Remaining())[..n.value]
                                 + old(target[..])[from + n.value..]
                && Remaining() == old(Remaining())[n.value..]
    {
      if chunks == [] {
        return None;
      }
      var c := chunks[0];
      var room := target.Length - from;
      var k := if |c| <= room then |c| else room;
      forall i | 0 <= i < k { target[from + i] := c[i]; }
      assert old(Remaining())[..k] == c[..k];
      if k == |c| {
        chunks := chunks[1..];
      } else {
        chunks := [c[k..]] + chunks[1..];
        assert chunks[1..] == old(chunks)[1..];
      }
      n := Some(k);
    }

    /** The fill loop: target[from..] is filled completely, however the stream is cut, or the read fails. */
    method Read(target: array<byte>, from: nat) returns (n: Option<nat>)
      requires Valid() && from <= target.Length
      modifies this, target
      ensures Valid() && target[..from] == old(target[..from])
      ensures var len, stream := target.Length - from, old(Remaining());
              if |stream| >= len then
                n == Some(len) && target[from..] == stream[..len] && Remaining() == stream[len..]
              else n == None && Remaining() == []
    {
      var targetLen := target.Length - from;
      if targetLen == 0 {
        return Some(0);
      }
      var index := 0;
      ghost var stream, before := Remaining(), target[..];
      while index < targetLen
        invariant Valid() && index <= targetLen && index <= |stream|
        invariant Filled(before, target[..], stream, from, index) && Remaining() == stream[index..]
      {
        ghost var mid := target[..];
        var k := ReadSome(target, from + index);
        if k.None? {
          assert Remaining() == [];
          return None;
        }
        FillStep(before, mid, target[..], stream, from, index, k.value);
        index := index + k.value;
      }
      n := Some(index);
    }

    /** The two size words in front of a frame. */
    method ReadHead() returns (r: Option<(nat, nat)>)
      requires Valid()
      modifies this
      ensures Valid()
      ensures var stream := old(Remaining());
              if |stream| < HEAD_SIZE then r == None && Remaining() == []
              else r == Some((Uint32(stream), Uint32(stream[4..]))) && Remaining() == stream[HEAD_SIZE..]
    {
      ghost var stream := Remaining();
      var head := new byte[HEAD_SIZE](_ => 0);
      var n := Read(head, 0);
      if n.None? {
        return None;
      }
      assert head[0..] == head[..] == stream[..8];
      assert head[4..8] == stream[4..][..4];
      r := Some((Uint32(head[..]), Uint32(head[4..8])));
    }

    /** One frame off the connection. Read fills its buffer or fails, so the size comparisons after it hold. */
    method Decode() returns (r: Decoded)
      requires Valid()
      modifies this
      ensures Valid()
      ensures (r, Remaining()) == DecodeSpec(old(Remaining()))
    {
      ghost var stream := Remaining();
      var head := ReadHead();
      if head.None? {
        return ReadFailed;
      }
      var (headerSize, bodySize) := head.value;
      var size := (4 + headerSize + bodySize) % U32;
      SizedMeans(stream, size);
      PutOfUint32(stream);
      if size < 4 {
        DecodeRest(stream, size);
        return DecodePanic;
      }
      var data := ReadBody(headerSize, size, stream);
      r := if data.Some? then Packet(data.value) else ReadFailed;
    }

    /** The buffer of a frame: its header-size word, and behind it what is read off the connection. */
    method ReadBody(headerSize: nat, size: nat, ghost stream: seq<byte>) returns (r: Option<seq<byte>>)
      requires Valid() && |stream| >= 8 && Remaining() == stream[8..]
      requires size >= 4 && headerSize < U32 && PutUint32(headerSize) == stream[..4]
      modifies this
      ensures Valid()
      ensures if size <= |stream| - 4 then
                r == Some(stream[..4] + stream[8..4 + size]) && Remaining() == stream[4 + size..]
              else r == None && Remaining() == []
    {
      ghost var rest := stream[8..];
      var data := NewBuffer(size, PutUint32(headerSize));
      var n := Read(data, 4);
      if n.None? {
        return None;
      }
      JoinedAt4(data[..], stream[..4], rest[..size - 4]);
      SliceTwice(stream, size);
      r := Some(data[..]);
    }

    /** The receive loop: the packets given to the event handler, and why it ended. A context may be found
        cancelled before any decode, here after the given number of packets. */
    method Recv(cancelAfter: Option<nat>) returns (packets: seq<seq<byte>>, ended: Ended)
      requires Valid()
      modifies this
      ensures Valid()
      ensures var (all, last) := RecvSpec(old(Remaining()));
              if cancelAfter.Some? && cancelAfter.value <= |all| then
                packets == all[..cancelAfter.value] && ended == Cancelled
              else packets == all && ended == Failed(last)
    {
      packets := [];
      ghost var stream := Remaining();
      ghost var all := RecvSpec(stream).0;
      assert [] + all == all;
      while true
        invariant Valid()
        invariant RecvSpec(stream) == (packets + RecvSpec(Remaining()).0, RecvSpec(Remaining()).1)
        invariant cancelAfter.Some? ==> |packets| <= cancelAfter.value
        decreases |Remaining()|
      {
        if cancelAfter == Some(|packets|) {
          assert all[..|packets|] == packets;
          return packets, Cancelled;
        }
        var last := Decode();
        if !last.Packet? {
          assert packets + [] == packets;
          return packets, Failed(last);
        }
        Assoc(packets, [last.data], RecvSpec(Remaining()).0);
        packets := packets + [last.data];
      }
    }
  }

  /** Any cut of a stream of frames into non-empty chunks is received as the list of packets sent, and nothing more
      if it ends inside one more frame. */
  method Deliver(packets: seq<seq<byte>>, chunks: seq<seq<byte>>, ghost next: seq<byte>, ghost k: nat)
    returns (received: seq<seq<byte>>, ended: Ended)
    requires forall i :: 0 <= i < |packets| ==> 4 <= |packets[i]| < U32
    requires forall i :: 0 <= i < |chunks| ==> chunks[i] != []
    requires 4 <= |next| < U32 && k < |FrameOf(next)| && Concat(chunks) == Frames(packets) + FrameOf(next)[..k]
    ensures received == packets && ended == Failed(ReadFailed)
  {
    var conn := new Conn(chunks);
    received, ended := conn.Recv(None);
    StreamRoundTrip(packets, next, k);
  }
}
