/** The Protocol Buffers wire format as far as splitting a record needs it: varints, tags,
    length-delimited payloads and the cut of a byte string into field records. */
module Wire {
  import opened GoBase

  const MAX_TAG_NUMBER: nat := 0x7fff_ffff

  const VARINT: nat := 0
  const FIXED64: nat := 1
  const BYTES: nat := 2
  const FIXED32: nat := 5

  /** The least value that no longer fits when `i` varint bytes have been read; 2^64 for i = 0. */
  function VarintLimit(i: nat): (limit: nat)
    requires i <= 9
    ensures limit >= 2
    decreases 9 - i
  {
    if i == 9 then 2 else 128 * VarintLimit(i + 1)
  }

  function AppendVarint(v: nat): (b: seq<byte>)
    ensures |b| > 0
  {
    if v < 128 then [v] else [128 + v % 128] + AppendVarint(v / 128)
  }

  /** Value and length of the varint at the start of b, when i of its bytes were already read.
      The tenth byte may only carry one bit. */
  function ConsumeVarint(b: seq<byte>, i: nat := 0): (r: Option<(nat, nat)>)
    requires i <= 9
    ensures r.Some? ==> 0 < r.value.1 <= |b|
    decreases 9 - i
  {
    if b == [] then None
    else if i == 9 then (if b[0] < 2 then Some((b[0] as int, 1)) else None)
    else if b[0] < 128 then Some((b[0] as int, 1))
    else
      match ConsumeVarint(b[1..], i + 1)
      case None => None
      case Some((v, n)) => Some(((b[0] as int) - 128 + 128 * v, n + 1))
  }

  lemma {:induction false} VarintRoundTrip(v: nat, rest: seq<byte>, i: nat := 0)
    requires i <= 9 && v < VarintLimit(i)
    ensures ConsumeVarint(AppendVarint(v) + rest, i) == Some((v, |AppendVarint(v)|))
    decreases 9 - i
  {
    if v >= 128 {
      VarintRoundTrip(v / 128, rest, i + 1);
      assert (AppendVarint(v) + rest)[1..] == AppendVarint(v / 128) + rest;
    }
  }

  /** The value of base-128 digits, least significant first, whatever their continuation bits. */
  function VarintSum(b: seq<byte>): (v: nat) {
    if b == [] then 0 else b[0] % 128 + 128 * VarintSum(b[1..])
  }

  /** The first n bytes of b are a varint of value v when i bytes of it were read before: the continuation bit is
      set on all but the last, there are at most ten bytes in all, and the value stays below 2^64. */
  predicate IsVarint(b: seq<byte>, v: nat, n: nat, i: nat)
    requires i <= 9
  {
    && 0 < n <= |b| && i + n <= 10
    && (forall k :: 0 <= k < n - 1 ==> b[k] >= 128) && b[n - 1] < 128
    && v == VarintSum(b[..n]) && v < VarintLimit(i)
  }

  /** For every byte string, which varint is read off its front. */
  lemma {:induction false} VarintExactly(b: seq<byte>, v: nat, n: nat, i: nat := 0)
    requires i <= 9
    ensures ConsumeVarint(b, i) == Some((v, n)) <==> IsVarint(b, v, n, i)
    decreases 9 - i
  {
    if b != [] && b[0] >= 128 && i < 9 {
      var rest := b[1..];
      var read := ConsumeVarint(rest, i + 1);
      if read.Some? {
        VarintExactly(rest, read.value.0, read.value.1, i + 1);
        VarintTail(b, read.value.0, read.value.1, i);
      }
      if IsVarint(b, v, n, i) {
        var w := VarintRest(b, v, n, i);
        VarintExactly(rest, w, n - 1, i + 1);
      }
    } else {
      VarintLast(b, v, n, i);
    }
  }

  /** Without a continuation bit, or in the tenth byte, one byte is the varint. */
  lemma VarintLast(b: seq<byte>, v: nat, n: nat, i: nat)
    requires i <= 9 && (b == [] || b[0] < 128 || i == 9)
    ensures ConsumeVarint(b, i) == Some((v, n)) <==> IsVarint(b, v, n, i)
  {
    if b != [] {
      assert b[..1][1..] == [];
      assert VarintSum(b[..1]) == b[0] % 128 + 128 * VarintSum([]);
    }
  }

  lemma VarintTail(b: seq<byte>, v: nat, n: nat, i: nat)
    requires b != [] && b[0] >= 128 && i < 9 && IsVarint(b[1..], v, n, i + 1)
    ensures IsVarint(b, b[0] - 128 + 128 * v, n + 1, i)
  {
    assert b[..n + 1][1..] == b[1..][..n];
    assert forall k :: 0 < k < n ==> b[k] == b[1..][k - 1];
    assert b[n] == b[1..][n - 1];
  }

  lemma VarintRest(b: seq<byte>, v: nat, n: nat, i: nat) returns (w: nat)
    requires i < 9 && IsVarint(b, v, n, i) && b[0] >= 128
    ensures n > 1 && IsVarint(b[1..], w, n - 1, i + 1) && v == b[0] - 128 + 128 * w
  {
    w := VarintSum(b[1..n]);
    assert b[..n][1..] == b[1..n] == b[1..][..n - 1];
    assert forall k :: 0 <= k < n - 2 ==> b[1..][k] == b[k + 1];
    assert b[1..][n - 2] == b[n - 1];
  }

  lemma {:induction false} ConsumeVarintPrefix(b: seq<byte>, rest: seq<byte>, i: nat := 0)
    requires i <= 9 && ConsumeVarint(b, i).Some?
    ensures ConsumeVarint(b + rest, i) == ConsumeVarint(b, i)
    decreases 9 - i
  {
    if i < 9 && b[0] >= 128 {
      ConsumeVarintPrefix(b[1..], rest, i + 1);
      assert (b + rest)[1..] == b[1..] + rest;
    }
  }

  /** protowire.ConsumeTag: field number, wire type and length. */
  function ConsumeTag(b: seq<byte>): (r: Option<(nat, nat, nat)>)
    ensures r.Some? ==> 0 < r.value.0 <= MAX_TAG_NUMBER && 0 < r.value.2 <= |b|
  {
    match ConsumeVarint(b)
    case None => None
    case Some((v, n)) => if 1 <= v / 8 <= MAX_TAG_NUMBER then Some((v / 8, v % 8, n)) else None
  }

  /** protowire.ConsumeFieldValue: the length of a value of the given wire type. */
  function ConsumeValue(wireType: nat, b: seq<byte>): (r: Option<nat>)
    ensures r.Some? ==> r.value <= |b|
  {
    if wireType == VARINT then
      match ConsumeVarint(b)
      case None => None
      case Some((_, n)) => Some(n)
    else if wireType == FIXED64 then (if |b| >= 8 then Some(8) else None)
    else if wireType == FIXED32 then (if |b| >= 4 then Some(4) else None)
    else if wireType == BYTES then
      match ConsumeVarint(b)
      case None => None
      case Some((m, n)) => if m <= |b| - n then Some(n + m) else None
    else None
  }

  /** A value of type 0 is the varint; one of type 2 is the varint and as many bytes, if they are there. */
  lemma ValueIs(b: seq<byte>, v: nat, n: nat)
    requires ConsumeVarint(b) == Some((v, n))
    ensures ConsumeValue(0, b) == Some(n)
    ensures ConsumeValue(2, b) == if v <= |b| - n then Some(n + v) else None
  {
  }

  /** Values of the other wire types: eight bytes for type 1, four for type 5, if they are there; no others are
      readable, and types 0 and 2 only behind a readable varint. */
  lemma ValueOtherwise(wireType: nat, b: seq<byte>)
    ensures wireType == 1 ==> ConsumeValue(wireType, b) == if 8 <= |b| then Some(8) else None
    ensures wireType == 5 ==> ConsumeValue(wireType, b) == if 4 <= |b| then Some(4) else None
    ensures wireType !in {0, 1, 2, 5} ==> ConsumeValue(wireType, b) == None
    ensures wireType in {0, 2} && ConsumeVarint(b).None? ==> ConsumeValue(wireType, b) == None
  {
  }

  /** protowire.ConsumeField: field number and length of the record at the start of b. */
  function ConsumeField(b: seq<byte>): (r: Option<(nat, nat)>)
    ensures r.Some? ==> 0 < r.value.1 <= |b|
  {
    match ConsumeTag(b)
    case None => None
    case Some((number, wireType, n)) =>
      match ConsumeValue(wireType, b[n..])
      case None => None
      case Some(m) => Some((number, n + m))
  }

  /** One field record: its number and all its bytes, tag included. */
  datatype Record = Record(number: nat, raw: seq<byte>)

  predicate IsRecord(r: Record) {
    ConsumeField(r.raw) == Some((r.number, |r.raw|))
  }

  predicate AllRecords(recs: seq<Record>) {
    forall i :: 0 <= i < |recs| ==> IsRecord(recs[i])
  }

  lemma ConsumeTagPrefix(b: seq<byte>, rest: seq<byte>)
    requires ConsumeTag(b).Some?
    ensures ConsumeTag(b + rest) == ConsumeTag(b)
  {
    ConsumeVarintPrefix(b, rest);
  }

  lemma ConsumeValuePrefix(wireType: nat, b: seq<byte>, rest: seq<byte>)
    requires ConsumeValue(wireType, b).Some?
    ensures ConsumeValue(wireType, b + rest) == ConsumeValue(wireType, b)
  {
    if wireType == VARINT || wireType == BYTES {
      ConsumeVarintPrefix(b, rest);
    }
  }

  lemma ConsumeFieldIs(b: seq<byte>, tag: (nat, nat, nat), m: nat)
    requires ConsumeTag(b) == Some(tag) && ConsumeValue(tag.1, b[tag.2..]) == Some(m)
    ensures ConsumeField(b) == Some((tag.0, tag.2 + m))
  {
  }

  lemma ConsumeFieldPrefix(b: seq<byte>, rest: seq<byte>)
    requires ConsumeField(b).Some?
    ensures ConsumeField(b + rest) == ConsumeField(b)
  {
    var tag := ConsumeTag(b).value;
    var n := tag.2;
    var m := ConsumeValue(tag.1, b[n..]).value;
    ConsumeFieldIs(b, tag, m);
    ConsumeTagPrefix(b, rest);
    ConsumeValuePrefix(tag.1, b[n..], rest);
    assert (b + rest)[n..] == b[n..] + rest;
    ConsumeFieldIs(b + rest, tag, m);
  }

  lemma ConsumeAppendedTag(number: nat, wireType: nat, rest: seq<byte>)
    requires 0 < number <= MAX_TAG_NUMBER && wireType < 8
    ensures var tag := AppendVarint(8 * number + wireType);
            ConsumeTag(tag + rest) == Some((number, wireType, |tag|))
  {
    assert VarintLimit(0) == U64 by {
      assert VarintLimit(5) == 2 * 128 * 128 * 128 * 128;
    }
    VarintRoundTrip(8 * number + wireType, rest);
  }

  /** A tag followed by a value of that wire type is one record. */
  lemma TaggedIsRecord(number: nat, wireType: nat, value: seq<byte>)
    requires 0 < number <= MAX_TAG_NUMBER && wireType < 8
    requires ConsumeValue(wireType, value) == Some(|value|)
    ensures IsRecord(Record(number, AppendVarint(8 * number + wireType) + value))
  {
    var tag := AppendVarint(8 * number + wireType);
    ConsumeAppendedTag(number, wireType, value);
    TagAndValue(number, wireType, tag, value);
  }

  lemma TagAndValue(number: nat, wireType: nat, tag: seq<byte>, value: seq<byte>)
    requires ConsumeTag(tag + value) == Some((number, wireType, |tag|))
    requires ConsumeValue(wireType, value) == Some(|value|)
    ensures IsRecord(Record(number, tag + value))
  {
    var raw := tag + value;
    assert raw[|tag|..] == value && |raw| == |tag| + |value|;
    ConsumeFieldIs(raw, (number, wireType, |tag|), |value|);
    RecordIs(number, raw, |tag| + |value|);
  }

  lemma RecordIs(number: nat, raw: seq<byte>, n: nat)
    requires ConsumeField(raw) == Some((number, n)) && n == |raw|
    ensures IsRecord(Record(number, raw))
  {
  }

  /** The records at the front of b, and whether they use it up. */
  function Parse(b: seq<byte>): (r: (seq<Record>, bool))
    ensures AllRecords(r.0)
  {
    if b == [] then ([], true)
    else
      match ConsumeField(b)
      case None => ([], false)
      case Some((number, n)) =>
        var (rest, complete) := Parse(b[n..]);
        assert IsRecord(Record(number, b[..n])) by { ConsumeFieldShrink(b); }
        ([Record(number, b[..n])] + rest, complete)
  }

  lemma ConsumeTagShrink(b: seq<byte>, k: nat)
    requires ConsumeTag(b).Some? && ConsumeTag(b).value.2 <= k <= |b|
    ensures ConsumeTag(b[..k]) == ConsumeTag(b)
  {
    ConsumeVarintShrink(b, k);
  }

  lemma ConsumeValueShrink(wireType: nat, b: seq<byte>, k: nat)
    requires ConsumeValue(wireType, b) == Some(k)
    ensures ConsumeValue(wireType, b[..k]) == Some(k)
  {
    if wireType == VARINT || wireType == BYTES {
      var (v, n) := ConsumeVarint(b).value;
      ValueIs(b, v, n);
      ConsumeVarintShrink(b, k);
      ValueIs(b[..k], v, n);
    }
  }

  /** Cutting a byte string right behind its first record leaves that record readable. */
  lemma ConsumeFieldShrink(b: seq<byte>)
    requires ConsumeField(b).Some?
    ensures ConsumeField(b[..ConsumeField(b).value.1]) == ConsumeField(b)
  {
    var tag := ConsumeTag(b).value;
    var t := tag.2;
    var m := ConsumeValue(tag.1, b[t..]).value;
    ConsumeFieldIs(b, tag, m);
    ConsumeTagShrink(b, t + m);
    ConsumeValueShrink(tag.1, b[t..], m);
    assert b[..t + m][t..] == b[t..][..m];
    ConsumeFieldIs(b[..t + m], tag, m);
  }

  lemma {:induction false} ConsumeVarintShrink(b: seq<byte>, k: nat, i: nat := 0)
    requires i <= 9 && ConsumeVarint(b, i).Some? && ConsumeVarint(b, i).value.1 <= k <= |b|
    ensures ConsumeVarint(b[..k], i) == ConsumeVarint(b, i)
    decreases 9 - i
  {
    if i < 9 && b[0] >= 128 {
      ConsumeVarintShrink(b[1..], k - 1, i + 1);
      assert b[..k][1..] == b[1..][..k - 1];
    }
  }

  function Raw(recs: seq<Record>): (b: seq<byte>) {
    if recs == [] then [] else recs[0].raw + Raw(recs[1..])
  }

  lemma {:induction false} RawAppend(a: seq<Record>, b: seq<Record>)
    ensures Raw(a + b) == Raw(a) + Raw(b)
  {
    if a == [] {
      assert a + b == b;
    } else {
      RawAppend(a[1..], b);
      assert (a + b)[0] == a[0] && (a + b)[1..] == a[1..] + b;
      Assoc(a[0].raw, Raw(a[1..]), Raw(b));
    }
  }

  /** Records in front of anything are read off it one by one. */
  lemma {:induction false} ParseFront(recs: seq<Record>, tail: seq<byte>)
    requires AllRecords(recs)
    ensures Parse(Raw(recs) + tail) == (recs + Parse(tail).0, Parse(tail).1)
  {
    if recs == [] {
      assert Raw(recs) + tail == tail && recs + Parse(tail).0 == Parse(tail).0;
    } else {
      var r, rest := recs[0], recs[1..];
      var behind := Raw(rest) + tail;
      ParseFront(rest, tail);
      Assoc(r.raw, Raw(rest), tail);
      ConsumeFieldPrefix(r.raw, behind);
      ParseOne(r, behind);
      assert recs == [r] + rest;
      Assoc([r], rest, Parse(tail).0);
    }
  }

  lemma ParseOne(r: Record, behind: seq<byte>)
    requires IsRecord(r) && ConsumeField(r.raw + behind) == ConsumeField(r.raw)
    ensures Parse(r.raw + behind) == ([r] + Parse(behind).0, Parse(behind).1)
  {
    assert (r.raw + behind)[|r.raw|..] == behind && (r.raw + behind)[..|r.raw|] == r.raw;
  }

  /** Parsing is a left inverse of concatenating records. */
  lemma ParseRaw(recs: seq<Record>)
    requires AllRecords(recs)
    ensures Parse(Raw(recs)) == (recs, true)
  {
    ParseFront(recs, []);
    assert Raw(recs) + [] == Raw(recs) && recs + [] == recs;
  }

  /** Any bytes are the records read off them and a rest; nothing is left exactly if the parse is complete, and
      otherwise no record can be read off the rest. */
  lemma {:induction false} ParseCut(b: seq<byte>) returns (tail: seq<byte>)
    ensures b == Raw(Parse(b).0) + tail && (Parse(b).1 <==> tail == [])
    ensures tail != [] ==> ConsumeField(tail).None?
    decreases |b|
  {
    if b == [] || ConsumeField(b).None? {
      tail := b;
    } else {
      var n := ConsumeField(b).value.1;
      tail := ParseCut(b[n..]);
      var recs := Parse(b[n..]).0;
      assert b == b[..n] + b[n..];
      Assoc(b[..n], Raw(recs), tail);
      assert Parse(b).0[1..] == recs;
    }
  }

  /** A record that is cut off cannot be read. */
  lemma TruncatedFails(r: Record, k: nat)
    requires IsRecord(r) && k < |r.raw|
    ensures ConsumeField(r.raw[..k]).None?
  {
    assert r.raw[..k] + r.raw[k..] == r.raw;
    if ConsumeField(r.raw[..k]).Some? {
      ConsumeFieldPrefix(r.raw[..k], r.raw[k..]);
    }
  }
}
