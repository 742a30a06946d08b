/** Database records as protobuf messages: descriptors, values, their wire records and the
    scalar text conversions of plugin/db/pbsupport. */
module PbRecord {
  import opened GoBase
  import opened Decimal
  import opened Wire

  datatype Coding = Plain | ZigZag | Fixed

  /** IntKind covers int32/int64/uint32/uint64 (Plain), sint32/sint64 (ZigZag) and the fixed kinds. */
  datatype Kind =
    | BoolKind | EnumKind | StringKind | BytesKind | MessageKind
    | IntKind(signed: bool, wide: bool, coding: Coding)

  /** explicit: the field tracks presence, so its zero value can be populated. */
  datatype Field = Field(number: nat, name: Text, kind: Kind, repeated: bool, explicit: bool)

  datatype Descriptor = Descriptor(byNumber: map<nat, Field>, byName: map<Text, Field>) {
    predicate WellFormed() {
      && (forall n :: n in byNumber ==>
            byNumber[n].number == n && byNumber[n].name in byName && byName[byNumber[n].name] == byNumber[n])
      && (forall s :: s in byName ==>
            byName[s].name == s && byName[s].number in byNumber && byNumber[byName[s].number] == byName[s])
      && (forall n :: n in byNumber ==> 0 < n <= MAX_TAG_NUMBER)
    }
  }

  /** A blob field is held as its wire records in order; sub-message payloads stay opaque. */
  datatype Value =
    | BoolValue(b: bool)
    | IntValue(i: int)
    | TextValue(t: Text)
    | RecordsValue(recs: seq<Record>)

  /** The populated fields by number. */
  type Message = map<nat, Value>

  predicate IsFdMarshalToBlob(f: Field) {
    f.repeated || f.kind == BytesKind || f.kind == MessageKind
  }

  function Bits(k: Kind): (n: nat) { if k.IntKind? && k.wide then 64 else 32 }

  predicate InRange(signed: bool, bits: nat, i: int)
    requires bits > 0
  {
    if signed then -(Pow2(bits - 1) as int) <= i < Pow2(bits - 1) else 0 <= i < Pow2(bits)
  }

  predicate ScalarFits(k: Kind, v: Value) {
    match k
    case BoolKind => v.BoolValue?
    case StringKind => v.TextValue? && |v.t| < U32
    case EnumKind => v.IntValue? && InRange(true, 32, v.i)
    case IntKind(signed, _, _) => v.IntValue? && InRange(signed, Bits(k), v.i)
    case BytesKind => false
    case MessageKind => false
  }

  predicate IsZero(v: Value) {
    v == BoolValue(false) || v == IntValue(0) || v == TextValue([]) || v == RecordsValue([])
  }

  /** A populated field: last-one-wins leaves one record for a singular bytes field. */
  predicate FieldHolds(f: Field, v: Value) {
    if IsFdMarshalToBlob(f) then
      && v.RecordsValue? && v.recs != [] && AllRecords(v.recs)
      && (forall i :: 0 <= i < |v.recs| ==> v.recs[i].number == f.number)
      && (LastWins(f) ==> |v.recs| == 1)
    else
      ScalarFits(f.kind, v) && (!f.explicit ==> !IsZero(v))
  }

  predicate LastWins(f: Field) { f.kind == BytesKind && !f.repeated }

  predicate ValidMessage(d: Descriptor, m: Message) {
    && d.WellFormed()
    && forall n :: n in m ==> n in d.byNumber && FieldHolds(d.byNumber[n], m[n])
  }

  // ---------------------------------------------------------------- scalars as text

  const TRUE_TEXT: Text := [116, 114, 117, 101]
  const FALSE_TEXT: Text := [102, 97, 108, 115, 101]

  function MarshalScalar(k: Kind, v: Value): (t: Text)
    requires ScalarFits(k, v)
  {
    match v
    case BoolValue(b) => if b then [49] else [48]
    case IntValue(i) => PrintInt(i)
    case TextValue(s) => s
  }

  /** The text of one column as a value; None is the error return. There is no enum case. */
  function UnmarshalScalarByStr(k: Kind, s: Text): (r: Option<Value>)
    ensures r.Some? ==> k != EnumKind && (k != StringKind ==> ScalarFits(k, r.value))
  {
    match k
    case StringKind => Some(TextValue(s))
    case BoolKind =>
      if s == TRUE_TEXT || s == [49] then Some(BoolValue(true))
      else if s == FALSE_TEXT || s == [48] || s == [] then Some(BoolValue(false))
      else None
    case EnumKind => None
    case BytesKind => None
    case MessageKind => None
    case IntKind(signed, _, _) =>
      if signed then
        match ParseInt(s, Bits(k)) case None => None case Some(n) => Some(IntValue(n))
      else
        match ParseUint(s, Bits(k)) case None => None case Some(n) => Some(IntValue(n))
  }

  lemma ScalarTextRoundTrip(k: Kind, v: Value)
    requires ScalarFits(k, v) && k != EnumKind
    ensures UnmarshalScalarByStr(k, MarshalScalar(k, v)) == Some(v)
  {
    if v.IntValue? {
      if k.signed {
        ParsePrintInt(v.i, Bits(k));
      } else {
        ParsePrintUint(v.i, Bits(k));
      }
    }
  }

  /** The text a column holds for a scalar value. */
  predicate ScalarText(v: Value, s: Text) {
    match v
    case BoolValue(b) => s == if b then Ascii("1") else Ascii("0")
    case IntValue(i) => IntText(s, i)
    case TextValue(t) => s == t
    case RecordsValue(_) => false
  }

  /** The column text of a scalar: "1" or "0", canonical decimal digits behind an optional minus, or the string. */
  lemma MarshalScalarText(k: Kind, v: Value, s: Text)
    requires ScalarFits(k, v)
    ensures s == MarshalScalar(k, v) <==> ScalarText(v, s)
  {
    if v.IntValue? {
      PrintIntIs(s, v.i);
    }
    assert Ascii("1") == [49] && Ascii("0") == [48];
  }

  /** The integers a kind can hold. */
  predicate HoldsInt(signed: bool, wide: bool, i: int) {
    if signed && wide then -0x8000_0000_0000_0000 <= i < 0x8000_0000_0000_0000
    else if signed then -0x8000_0000 <= i < 0x8000_0000
    else 0 <= i < (if wide then 0x1_0000_0000_0000_0000 else 0x1_0000_0000)
  }

  lemma IntFitsExactly(k: Kind, i: int)
    requires k.IntKind?
    ensures ScalarFits(k, IntValue(i)) <==> HoldsInt(k.signed, k.wide, i)
    ensures k.signed ==> (-(Pow2(Bits(k) - 1) as int) <= i < Pow2(Bits(k) - 1) <==> HoldsInt(true, k.wide, i))
    ensures !k.signed && i >= 0 ==> (i < Pow2(Bits(k)) <==> HoldsInt(false, k.wide, i))
  {
    Widths(32, 64);
  }

  /** The texts that are read as v in a column of kind k. */
  ghost predicate ReadsAs(k: Kind, s: Text, v: Value) {
    match k
    case StringKind => v == TextValue(s)
    case BoolKind =>
      || (v == BoolValue(true) && (s == Ascii("true") || s == Ascii("1")))
      || (v == BoolValue(false) && (s == Ascii("false") || s == Ascii("0") || s == []))
    case IntKind(signed, wide, _) =>
      && v.IntValue? && HoldsInt(signed, wide, v.i) && s != []
      && (|| (v.i >= 0 && !(signed && s[0] == MINUS) && PaddedText(if signed && s[0] == PLUS then s[1..] else s, v.i))
          || (v.i <= 0 && signed && s[0] == MINUS && PaddedText(s[1..], -v.i)))
    case EnumKind => false
    case BytesKind => false
    case MessageKind => false
  }

  /** For every text, what unmarshalScalarByStr makes of it. */
  lemma UnmarshalExactly(k: Kind, s: Text, v: Value)
    ensures UnmarshalScalarByStr(k, s) == Some(v) <==> ReadsAs(k, s, v)
  {
    assert Ascii("1") == [49] && Ascii("0") == [48] && Ascii("true") == TRUE_TEXT && Ascii("false") == FALSE_TEXT;
    if k.IntKind? && v.IntValue? {
      IntFitsExactly(k, v.i);
      if k.signed {
        ParseIntExactly(s, Bits(k), v.i);
      } else if v.i >= 0 {
        ParseUintExactly(s, Bits(k), v.i);
        PaddedExactly(s, v.i);
      }
    }
  }

  // ---------------------------------------------------------------- wire records of a message

  function WireType(k: Kind): (w: nat)
    ensures w < 8
  {
    match k
    case StringKind => BYTES
    case BytesKind => BYTES
    case MessageKind => BYTES
    case BoolKind => VARINT
    case EnumKind => VARINT
    case IntKind(_, wide, coding) => if coding != Fixed then VARINT else if wide then FIXED64 else FIXED32
  }

  function WireValue(k: Kind, v: Value): (b: seq<byte>)
    requires ScalarFits(k, v)
  {
    match v
    case BoolValue(x) => AppendVarint(if x then 1 else 0)
    case TextValue(s) => AppendVarint(|s|) + s
    case IntValue(i) =>
      var u: nat := i % U64;
      if WireType(k) == FIXED32 then PutUint32(u % U32)
      else if WireType(k) == FIXED64 then PutUint32(u % U32) + PutUint32(u / U32)
      else if k.IntKind? && k.coding == ZigZag then AppendVarint((if i >= 0 then 2 * i else -2 * i - 1) % U64)
      else AppendVarint(u)
  }

  function ScalarRecord(f: Field, v: Value): (r: Record)
    requires ScalarFits(f.kind, v)
  {
    Record(f.number, AppendVarint(8 * f.number + WireType(f.kind)) + WireValue(f.kind, v))
  }

  lemma AppendedVarintIsValue(v: nat)
    requires v < U64
    ensures ConsumeVarint(AppendVarint(v)) == Some((v, |AppendVarint(v)|))
    ensures ConsumeValue(VARINT, AppendVarint(v)) == Some(|AppendVarint(v)|)
  {
    assert VarintLimit(0) == U64 by { assert VarintLimit(5) == 2 * 128 * 128 * 128 * 128; }
    VarintRoundTrip(v, []);
    assert AppendVarint(v) + [] == AppendVarint(v);
  }

  lemma WireValueConsumed(k: Kind, v: Value)
    requires ScalarFits(k, v)
    ensures ConsumeValue(WireType(k), WireValue(k, v)) == Some(|WireValue(k, v)|)
  {
    match v
    case BoolValue(x) => AppendedVarintIsValue(if x then 1 else 0);
    case TextValue(s) =>
      AppendedVarintIsValue(|s|);
      ConsumeVarintPrefix(AppendVarint(|s|), s);
      ValueIs(AppendVarint(|s|) + s, |s|, |AppendVarint(|s|)|);
    case IntValue(i) =>
      if WireType(k) == VARINT {
        var u := if k.IntKind? && k.coding == ZigZag then (if i >= 0 then 2 * i else -2 * i - 1) % U64 else i % U64;
        AppendedVarintIsValue(u);
        assert WireValue(k, v) == AppendVarint(u);
      }
  }

  /** The low bits of u as a two's-complement integer. */
  function Signed(u: nat, wide: bool): (i: int) {
    var size := if wide then U64 else U32;
    var low := u % size;
    if low < size / 2 then low else low - size
  }

  /** The integer that an unsigned wire number stands for. */
  function IntOfWire(k: Kind, u: nat): (i: int)
    requires k.IntKind? || k == EnumKind
  {
    if k == EnumKind then Signed(u, false)
    else if k.coding == ZigZag then (if u % 2 == 0 then u / 2 else -(u / 2) - 1)
    else if k.signed then Signed(u, k.wide)
    else u
  }

  /** The scalar that a wire value of kind k stands for. */
  function ScalarOfWire(k: Kind, b: seq<byte>): (v: Option<Value>) {
    if WireType(k) == FIXED32 then (if |b| == 4 then Some(IntValue(IntOfWire(k, Uint32(b)))) else None)
    else if WireType(k) == FIXED64 then
      (if |b| == 8 then Some(IntValue(IntOfWire(k, Uint32(b) + U32 * Uint32(b[4..])))) else None)
    else
      match ConsumeVarint(b)
      case None => None
      case Some((u, n)) =>
        match k
        case BoolKind => Some(BoolValue(u != 0))
        case StringKind => if n + u == |b| then Some(TextValue(b[n..])) else None
        case BytesKind => None
        case MessageKind => None
        case _ => Some(IntValue(IntOfWire(k, u)))
  }

  /** The serialized scalar stands for the value, in each coding. */
  lemma WireValueMeans(k: Kind, v: Value)
    requires ScalarFits(k, v) && (k.IntKind? && k.coding == ZigZag ==> k.signed)
    ensures ScalarOfWire(k, WireValue(k, v)) == Some(v)
  {
    match v
    case BoolValue(x) => AppendedVarintIsValue(if x then 1 else 0);
    case TextValue(t) =>
      AppendedVarintIsValue(|t|);
      ConsumeVarintPrefix(AppendVarint(|t|), t);
      assert (AppendVarint(|t|) + t)[|AppendVarint(|t|)|..] == t;
    case IntValue(i) => IntMeans(k, i);
  }

  lemma IntMeans(k: Kind, i: int)
    requires ScalarFits(k, IntValue(i)) && (k.IntKind? && k.coding == ZigZag ==> k.signed)
    ensures ScalarOfWire(k, WireValue(k, IntValue(i))) == Some(IntValue(i))
  {
    if k == EnumKind {
      Widths(32, 64);
    } else {
      IntFitsExactly(k, i);
    }
    if WireType(k) == FIXED32 {
      Fixed32Means(k, i);
    } else if WireType(k) == FIXED64 {
      Fixed64Means(k, i);
    } else {
      VarintMeans(k, i);
    }
  }

  lemma Fixed32Means(k: Kind, i: int)
    requires ScalarFits(k, IntValue(i)) && WireType(k) == FIXED32 && HoldsInt(k.signed, false, i)
    ensures ScalarOfWire(k, WireValue(k, IntValue(i))) == Some(IntValue(i))
  {
    var u := i % U64 % U32;
    FixedMeans(u, []);
    SignedMeans(i);
    assert WireValue(k, IntValue(i)) == PutUint32(u);
  }

  lemma Fixed64Means(k: Kind, i: int)
    requires ScalarFits(k, IntValue(i)) && WireType(k) == FIXED64 && HoldsInt(k.signed, true, i)
    ensures ScalarOfWire(k, WireValue(k, IntValue(i))) == Some(IntValue(i))
  {
    var u: nat := i % U64;
    var low, high := PutUint32(u % U32), PutUint32(u / U32);
    FixedMeans(u % U32, high);
    FixedMeans(u / U32, []);
    SignedMeans(i);
    assert WireValue(k, IntValue(i)) == low + high && (low + high)[4..] == high;
    assert u == u % U32 + U32 * (u / U32);
  }

  /** The number that a varint carries for i. */
  function WireNumber(k: Kind, i: int): (u: nat) {
    if k.IntKind? && k.coding == ZigZag then (if i >= 0 then 2 * i else -2 * i - 1) % U64 else i % U64
  }

  lemma VarintMeans(k: Kind, i: int)
    requires ScalarFits(k, IntValue(i)) && WireType(k) == VARINT && (k.IntKind? && k.coding == ZigZag ==> k.signed)
    requires if k == EnumKind then HoldsInt(true, false, i) else HoldsInt(k.signed, k.wide, i)
    ensures ScalarOfWire(k, WireValue(k, IntValue(i))) == Some(IntValue(i))
  {
    WireNumberSent(k, i);
    WireNumberMeans(k, i);
    NumberMeans(k, WireNumber(k, i));
  }

  lemma WireNumberSent(k: Kind, i: int)
    requires ScalarFits(k, IntValue(i)) && WireType(k) == VARINT
    ensures WireValue(k, IntValue(i)) == AppendVarint(WireNumber(k, i)) && WireNumber(k, i) < U64
  {
  }

  lemma WireNumberMeans(k: Kind, i: int)
    requires k.IntKind? || k == EnumKind
    requires k.IntKind? && k.coding == ZigZag ==> k.signed
    requires if k == EnumKind then HoldsInt(true, false, i) else HoldsInt(k.signed, k.wide, i)
    ensures IntOfWire(k, WireNumber(k, i)) == i
  {
    if k.IntKind? && k.coding == ZigZag {
      ZigZagMeans(i);
    } else {
      SignedMeans(i);
    }
  }

  lemma NumberMeans(k: Kind, u: nat)
    requires u < U64 && WireType(k) == VARINT && (k.IntKind? || k == EnumKind)
    ensures ScalarOfWire(k, AppendVarint(u)) == Some(IntValue(IntOfWire(k, u)))
  {
    AppendedVarintIsValue(u);
  }

  lemma ZigZagMeans(i: int)
    requires HoldsInt(true, true, i)
    ensures var u := (if i >= 0 then 2 * i else -2 * i - 1) % U64;
            (if u % 2 == 0 then u / 2 else -(u / 2) - 1) == i
  {
    var u := if i >= 0 then 2 * i else -2 * i - 1;
    assert u % U64 == u;
  }

  lemma FixedMeans(u: nat, rest: seq<byte>)
    requires u < U32
    ensures Uint32(PutUint32(u) + rest) == u && Uint32(PutUint32(u)) == u
  {
    Uint32OfPut(u, rest);
    Uint32OfPut(u, []);
    assert PutUint32(u) + [] == PutUint32(u);
  }

  /** Two's complement in either width. */
  lemma SignedMeans(i: int)
    ensures -0x8000_0000 <= i < 0x8000_0000 ==> Signed(i % U64, false) == i && Signed(i % U64 % U32, false) == i
    ensures -0x8000_0000_0000_0000 <= i < 0x8000_0000_0000_0000 ==> Signed(i % U64, true) == i
    ensures 0 <= i < U32 ==> i % U64 % U32 == i
  {
  }

  lemma ScalarRecordIsRecord(f: Field, v: Value)
    requires 0 < f.number <= MAX_TAG_NUMBER && ScalarFits(f.kind, v)
    ensures IsRecord(ScalarRecord(f, v))
  {
    WireValueConsumed(f.kind, v);
    TaggedIsRecord(f.number, WireType(f.kind), WireValue(f.kind, v));
  }

  /** Examples of the Protocol Buffers Encoding specification: 150 in field 1, and "testing" in field 2. */
  lemma VarintExample(f: Field)
    requires f.number == 1 && f.kind == IntKind(true, false, Plain) && ScalarFits(f.kind, IntValue(150))
    ensures ScalarRecord(f, IntValue(150)).raw == [0x08, 0x96, 0x01]
  {
    assert AppendVarint(150) == [0x96] + AppendVarint(1);
  }

  lemma StringExample(f: Field, t: Text)
    requires f.number == 2 && f.kind == StringKind && |t| == 7
    ensures ScalarRecord(f, TextValue(t)).raw == [0x12, 0x07] + t
  {
  }

  lemma Fixed32Example(f: Field)
    requires f.number == 1 && f.kind == IntKind(false, false, Fixed) && ScalarFits(f.kind, IntValue(258))
    ensures ScalarRecord(f, IntValue(258)).raw == [0x0d, 0x02, 0x01, 0x00, 0x00]
  {
  }

  lemma Fixed64Example(f: Field)
    requires f.number == 1 && f.kind == IntKind(false, true, Fixed) && ScalarFits(f.kind, IntValue(258))
    ensures ScalarRecord(f, IntValue(258)).raw == [0x09, 0x02, 0x01, 0x00, 0x00, 0x00, 0x00, 0x00, 0x00]
  {
  }

  function FieldRecords(f: Field, v: Value): (recs: seq<Record>)
    requires FieldHolds(f, v)
  {
    if IsFdMarshalToBlob(f) then v.recs else [ScalarRecord(f, v)]
  }

  /** The wire records of m when the serializer visits its fields in the given order. */
  function MarshalRecords(d: Descriptor, m: Message, order: seq<nat>): (recs: seq<Record>)
    requires forall n :: n in order ==> n in m && n in d.byNumber && FieldHolds(d.byNumber[n], m[n])
  {
    if order == [] then []
    else FieldRecords(d.byNumber[order[0]], m[order[0]]) + MarshalRecords(d, m, order[1..])
  }

  /** The records with a given field number, in order. */
  function Own(recs: seq<Record>, number: nat): (own: seq<Record>)
  {
    if recs == [] then []
    else (if recs[0].number == number then [recs[0]] else []) + Own(recs[1..], number)
  }

  lemma {:induction false} OwnAppend(a: seq<Record>, b: seq<Record>, number: nat)
    ensures Own(a + b, number) == Own(a, number) + Own(b, number)
  {
    if a == [] {
      assert a + b == b;
    } else {
      OwnAppend(a[1..], b, number);
      assert (a + b)[0] == a[0] && (a + b)[1..] == a[1..] + b;
      Assoc(if a[0].number == number then [a[0]] else [], Own(a[1..], number), Own(b, number));
    }
  }

  /** A field owns no record exactly when no record has its number. */
  lemma {:induction false} OwnEmpty(recs: seq<Record>, number: nat)
    ensures Own(recs, number) == [] <==> forall i :: 0 <= i < |recs| ==> recs[i].number != number
  {
    if recs != [] {
      OwnEmpty(recs[1..], number);
      assert forall i :: 0 < i < |recs| ==> recs[i] == recs[1..][i - 1];
      assert forall i :: 0 <= i < |recs| - 1 ==> recs[1..][i] == recs[i + 1];
    }
  }

  lemma {:induction false} OwnOfUniform(recs: seq<Record>, number: nat)
    requires forall i :: 0 <= i < |recs| ==> recs[i].number == number
    ensures Own(recs, number) == recs
  {
    if recs != [] {
      OwnOfUniform(recs[1..], number);
      assert recs == [recs[0]] + recs[1..];
    }
  }

  ghost predicate NoRepeats<T>(order: seq<T>) {
    forall i, j :: 0 <= i < j < |order| ==> order[i] != order[j]
  }

  /** order visits each key once. */
  ghost predicate IsOrder<T(!new)>(order: seq<T>, keys: set<T>) {
    (forall x :: x in order <==> x in keys) && NoRepeats(order)
  }

  /** Every marshalled record is readable and belongs to a populated field. */
  lemma {:induction false} MarshalRecordsReadable(d: Descriptor, m: Message, order: seq<nat>)
    requires ValidMessage(d, m)
    requires forall n :: n in order ==> n in m
    ensures AllRecords(MarshalRecords(d, m, order))
    ensures forall r :: r in MarshalRecords(d, m, order) ==> r.number in order
  {
    if order != [] {
      var f, v := d.byNumber[order[0]], m[order[0]];
      MarshalRecordsReadable(d, m, order[1..]);
      if !IsFdMarshalToBlob(f) {
        ScalarRecordIsRecord(f, v);
      }
      assert AllRecords(FieldRecords(f, v));
    }
  }

  /** A field's own records in the marshalled message are exactly its value's records. */
  lemma {:induction false} MarshalRecordsOwn(d: Descriptor, m: Message, order: seq<nat>, n: nat)
    requires ValidMessage(d, m) && NoRepeats(order)
    requires forall k :: k in order ==> k in m
    ensures Own(MarshalRecords(d, m, order), n)
         == if n in order then FieldRecords(d.byNumber[n], m[n]) else []
  {
    if order != [] {
      var n0, rest := order[0], order[1..];
      var head := FieldRecords(d.byNumber[n0], m[n0]);
      MarshalRecordsOwn(d, m, rest, n);
      OwnAppend(head, MarshalRecords(d, m, rest), n);
      if n == n0 {
        OwnOfUniform(head, n);
      } else {
        OwnEmpty(head, n);
      }
    }
  }
}
