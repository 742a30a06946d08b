/** Bytes, byte strings and little-endian words shared by the other modules.
    A Go string is a sequence of bytes, so `Text` models both strings and byte slices held by value. */
module GoBase {

  type byte = x: int | 0 <= x < 256

  type Text = seq<byte>

  datatype Option<+T> = None | Some(value: T)

  const U32: nat := 0x1_0000_0000
  const U64: nat := 0x1_0000_0000_0000_0000

  const DOT: byte := 46

  /** The bytes of an ASCII literal. */
  function Ascii(s: string): (t: Text)
    requires forall i :: 0 <= i < |s| ==> s[i] < 128 as char
    ensures |t| == |s|
  {
    seq(|s|, i requires 0 <= i < |s| => s[i] as int)
  }

  function Concat<T>(parts: seq<seq<T>>): (all: seq<T>) {
    if parts == [] then [] else parts[0] + Concat(parts[1..])
  }

  lemma Assoc<T>(a: seq<T>, b: seq<T>, c: seq<T>)
    ensures a + (b + c) == a + b + c
  {
  }

  lemma PrefixGrows<T>(a: seq<T>, b: seq<T>)
    requires a <= b && |a| < |b|
    ensures a + [b[|a|]] <= b
  {
    assert b[..|a| + 1] == b[..|a|] + [b[|a|]];
  }

  lemma FourAssoc<T>(a: seq<T>, b: seq<T>, c: seq<T>, d: seq<T>)
    ensures a + (b + c + d) == a + b + c + d
  {
  }

  lemma {:induction false} ConcatAppend<T>(a: seq<seq<T>>, b: seq<seq<T>>)
    ensures Concat(a + b) == Concat(a) + Concat(b)
  {
    if a == [] {
      assert a + b == b;
    } else {
      ConcatAppend(a[1..], b);
      assert (a + b)[0] == a[0] && (a + b)[1..] == a[1..] + b;
      Assoc(a[0], Concat(a[1..]), Concat(b));
    }
  }

  lemma ConcatSnoc<T>(a: seq<seq<T>>, x: seq<T>)
    ensures Concat(a + [x]) == Concat(a) + x
  {
    ConcatAppend(a, [x]);
    assert Concat([x]) == x + Concat<T>([]) == x;
  }

  /** binary.LittleEndian.PutUint32. */
  function PutUint32(v: nat): (b: seq<byte>)
    requires v < U32
    ensures |b| == 4
  {
    [v % 256, v / 256 % 256, v / 65536 % 256, v / 16777216]
  }

  /** binary.LittleEndian.Uint32: reads the first four bytes. */
  function Uint32(b: seq<byte>): (v: nat)
    requires |b| >= 4
    ensures v < U32
  {
    (b[0] as int) + 256 * (b[1] as int) + 65536 * (b[2] as int) + 16777216 * (b[3] as int)
  }

  lemma Uint32OfPut(v: nat, rest: seq<byte>)
    requires v < U32
    ensures Uint32(PutUint32(v) + rest) == v
  {
    var b := PutUint32(v) + rest;
    assert b[0] == v % 256 && b[1] == v / 256 % 256 && b[2] == v / 65536 % 256 && b[3] == v / 16777216;
    assert v / 256 / 256 == v / 65536 && v / 65536 / 256 == v / 16777216;
  }

  lemma PutOfUint32(b: seq<byte>)
    requires |b| >= 4
    ensures PutUint32(Uint32(b)) == b[..4]
  {
    var v := Uint32(b);
    assert v / 256 == (b[1] as int) + 256 * (b[2] as int) + 65536 * (b[3] as int);
    assert v / 65536 == (b[2] as int) + 256 * (b[3] as int);
    assert v / 16777216 == b[3];
  }

  /** The one word layout: least significant byte first. */
  lemma LittleEndian(v: nat, b: seq<byte>)
    requires v < U32 && |b| == 4
    ensures PutUint32(v) == b
       <==> v == (b[0] as int) + 0x100 * (b[1] as int) + 0x1_0000 * (b[2] as int) + 0x100_0000 * (b[3] as int)
    ensures Uint32(b) == v <==> PutUint32(v) == b
  {
    PutOfUint32(b);
    Uint32OfPut(v, []);
    assert PutUint32(v) + [] == PutUint32(v) && b[..4] == b;
  }
}
