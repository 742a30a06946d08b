/** server_base/msg: the client-server packet layout inside the transport frame. Marshalled header and body
    are arguments, None when marshalling fails. */
module CsCodec {
  import opened GoBase
  import opened Transport

  const MAX_BUFF_SIZE: nat := 512000

  function PacketOf(header: seq<byte>, body: seq<byte>): (p: seq<byte>)
    requires |header| < U32
  {
    PutUint32(|header|) + header + body
  }

  /** copy(dst[off..], src): as many bytes as fit. */
  method Copy(dst: array<byte>, off: nat, src: seq<byte>) returns (n: nat)
    requires off <= dst.Length
    modifies dst
    ensures n == if |src| <= dst.Length - off then |src| else dst.Length - off
    ensures dst[..off] == old(dst[..off]) && dst[off..off + n] == src[..n] && dst[off + n..] == old(dst[off + n..])
  {
    n := if |src| <= dst.Length - off then |src| else dst.Length - off;
    forall i | 0 <= i < n { dst[off + i] := src[i]; }
  }

  /** Encoding succeeds exactly when both parts marshal and the packet fits the fixed buffer; the packet is the
      header size, the header and the body. */
  method Encode(header: Option<seq<byte>>, body: Option<seq<byte>>) returns (r: Option<seq<byte>>)
    ensures r.Some? <==> header.Some? && body.Some? && 4 + |header.value| + |body.value| <= 500 * 1024
    ensures r.Some? ==> r.value == PacketOf(header.value, body.value)
  {
    var buff := new byte[MAX_BUFF_SIZE](_ => 0);
    if header.None? {
      return None;
    }
    var headerSize := |header.value|;
    var word := PutUint32(headerSize % U32);
    var n := Copy(buff, 0, word);
    n := Copy(buff, 4, header.value);
    if n != headerSize {
      return None;
    }
    if body.None? {
      return None;
    }
    var end := 4 + headerSize;
    assert headerSize % U32 == headerSize;
    assert buff[..4] == word && buff[4..end] == header.value;
    assert buff[..end] == buff[..4] + buff[4..end];
    n := Copy(buff, end, body.value);
    if n != |body.value| {
      return None;
    }
    assert buff[0..end + n] == buff[..end] + buff[end..end + n];
    r := Some(buff[0..end + n]);
  }

  /** The header bytes and body bytes that Decode unmarshals; None where the slicing panics. The upper bound of
      the header is computed in 32 bits. */
  function Split(data: seq<byte>): (r: Option<(seq<byte>, seq<byte>)>) {
    if |data| < 4 then None
    else
      var end := (4 + Uint32(data)) % U32;
      if 4 <= end <= |data| then Some((data[4..end], data[end..])) else None
  }

  /** The layout of a packet: the header's size as a word, the header, the body. */
  lemma PacketLayout(header: seq<byte>, body: seq<byte>)
    requires |header| < U32
    ensures var p := PacketOf(header, body);
            && |p| == 4 + |header| + |body| && Uint32(p) == |header|
            && p[4..4 + |header|] == header && p[4 + |header|..] == body
  {
    var p := PacketOf(header, body);
    assert p == PutUint32(|header|) + (header + body);
    Uint32OfPut(|header|, header + body);
  }

  /** The slicing of Decode panics exactly if the data does not hold the header it announces. */
  lemma SplitExactly(data: seq<byte>)
    requires |data| < U32
    ensures Split(data).None? <==> |data| < 4 || |data| < 4 + Uint32(data)
    ensures Split(data).Some? ==> Split(data).value == (data[4..4 + Uint32(data)], data[4 + Uint32(data)..])
  {
  }

  /** A packet splits back into the parts it was made of. */
  lemma SplitOfPacket(header: seq<byte>, body: seq<byte>)
    requires 4 + |header| < U32
    ensures Split(PacketOf(header, body)) == Some((header, body))
  {
    PacketLayout(header, body);
    if |PacketOf(header, body)| < U32 {
      SplitExactly(PacketOf(header, body));
    }
  }

  /** Any data that splits is the packet of its parts. */
  lemma PacketOfSplit(data: seq<byte>)
    requires Split(data).Some?
    ensures |Split(data).value.0| < U32
    ensures data == PacketOf(Split(data).value.0, Split(data).value.1)
  {
    var (header, body) := Split(data).value;
    PutOfUint32(data);
    assert data == data[..4] + header + body;
  }

  /** Two layers: what the server encodes, framed by the transport and decoded from the front of any stream,
      is the same packet, and splits into the same header bytes and body bytes; the frame's two words are their
      sizes. */
  lemma ThroughTransport(header: seq<byte>, body: seq<byte>, rest: seq<byte>)
    requires 4 + |header| + |body| <= MAX_BUFF_SIZE
    ensures DecodeSpec(FrameOf(PacketOf(header, body)) + rest) == (Packet(PacketOf(header, body)), rest)
    ensures Split(PacketOf(header, body)) == Some((header, body))
    ensures var frame := FrameOf(PacketOf(header, body));
            Uint32(frame[..4]) == |header| && Uint32(frame[4..8]) == |body| && frame[8..] == header + body
  {
    FrameRoundTrip(PacketOf(header, body), rest);
    SplitOfPacket(header, body);
    FrameSizes(header, body);
  }

  lemma FrameSizes(header: seq<byte>, body: seq<byte>)
    requires 4 + |header| + |body| < U32
    ensures var frame := FrameOf(PacketOf(header, body));
            Uint32(frame[..4]) == |header| && Uint32(frame[4..8]) == |body| && frame[8..] == header + body
  {
    var packet := PacketOf(header, body);
    PacketLayout(header, body);
    FrameLayout(packet);
    FirstWord(packet);
    assert packet[4..] == header + body;
  }

  lemma FirstWord(b: seq<byte>)
    requires |b| >= 4
    ensures Uint32(b[..4]) == Uint32(b)
  {
  }
}
