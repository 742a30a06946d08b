/** The redis key of a record: plugin/db/redis prints the message name and its key fields as name:{k1-k2-...}.
    When such keys can be told apart depends only on the kinds of the key fields. */
module RedisKey {
  import opened GoBase
  import opened Decimal

  /** Signed and Unsigned integers, and strings. */
  datatype Kind = Signed | Unsigned | Str

  datatype Part = IntPart(i: int) | TextPart(t: Text)

  predicate Fits(k: Kind, p: Part) {
    match k
    case Signed => p.IntPart?
    case Unsigned => p.IntPart? && p.i >= 0
    case Str => p.TextPart?
  }

  predicate FitsAll(kinds: seq<Kind>, parts: seq<Part>) {
    |kinds| == |parts| && forall i :: 0 <= i < |parts| ==> Fits(kinds[i], parts[i])
  }

  const COLON: byte := 58
  const OPEN: byte := 123
  const CLOSE: byte := 125

  function PartText(p: Part): (t: Text) {
    match p case IntPart(i) => PrintInt(i) case TextPart(s) => s
  }

  /** The parts joined with "-". */
  function Inner(parts: seq<Part>): (t: Text)
    requires parts != []
  {
    if |parts| == 1 then PartText(parts[0]) else PartText(parts[0]) + [MINUS] + Inner(parts[1..])
  }

  function Key(name: Text, parts: seq<Part>): (t: Text)
    requires parts != []
  {
    name + [COLON, OPEN] + Inner(parts) + [CLOSE]
  }

  // ---------------------------------------------------------------- telling keys apart

  lemma DigitsBehindSign(n: int)
    ensures forall i :: 0 < i < |PrintInt(n)| ==> IsDigit(PrintInt(n)[i])
  {
  }

  /** From the left, an integer ends at the first dash behind its first character. */
  lemma LeftInt(m: int, x: Text, n: int, y: Text)
    requires PrintInt(m) + [MINUS] + x == PrintInt(n) + [MINUS] + y
    ensures m == n && x == y
  {
    var s, t := PrintInt(m), PrintInt(n);
    DigitsBehindSign(m);
    DigitsBehindSign(n);
    var all := s + [MINUS] + x;
    assert all == t + [MINUS] + y;
    assert all[|s|] == MINUS && all[|t|] == MINUS;
    assert forall i :: 0 < i < |s| ==> all[i] == s[i] && all[i] != MINUS;
    assert forall i :: 0 < i < |t| ==> all[i] == t[i] && all[i] != MINUS;
    assert s == all[..|s|] && t == all[..|t|];
    assert x == all[|s| + 1..] && y == all[|t| + 1..];
    PrintIntInjective(m, n);
  }

  /** From the right, a natural number ends at the last character that is not a digit. */
  lemma RightNat(x: Text, m: nat, y: Text, n: nat)
    requires x + [MINUS] + PrintNat(m) == y + [MINUS] + PrintNat(n)
    ensures m == n && x == y
  {
    RightDigits(x, PrintNat(m), y, PrintNat(n));
    PrintNatInjective(m, n);
  }

  lemma RightDigits(x: Text, s: Text, y: Text, t: Text)
    requires AllDigits(s) && AllDigits(t) && x + [MINUS] + s == y + [MINUS] + t
    ensures s == t && x == y
  {
    var all := x + [MINUS] + s;
    assert all == y + [MINUS] + t;
    assert all[|x|] == MINUS && all[|y|] == MINUS;
    assert forall i :: |x| < i < |all| ==> all[i] == s[i - |x| - 1] && all[i] != MINUS;
    assert forall i :: |y| < i < |all| ==> all[i] == t[i - |y| - 1] && all[i] != MINUS;
    assert x == all[..|x|] && y == all[..|y|];
    assert s == all[|x| + 1..] && t == all[|y| + 1..];
  }

  predicate EndsInDigit(t: Text) { t != [] && IsDigit(t[|t| - 1]) }

  /** From the right, behind a digit and a dash, a sign can be told from a separator. */
  lemma RightInt(x: Text, m: int, y: Text, n: int)
    requires EndsInDigit(x) && EndsInDigit(y)
    requires x + [MINUS] + PrintInt(m) == y + [MINUS] + PrintInt(n)
    ensures m == n && x == y
  {
    SignFront(x, m);
    SignFront(y, n);
    var a, b := Front(x, m), Front(y, n);
    RightNat(a, Abs(m), b, Abs(n));
    assert m < 0 ==> a[|a| - 1] == MINUS && a[..|a| - 1] == x;
    assert n < 0 ==> b[|b| - 1] == MINUS && b[..|b| - 1] == y;
  }

  function Abs(n: int): (a: nat) { if n < 0 then -n else n }

  /** x, and the separator when the integer behind it starts with its sign. */
  function Front(x: Text, n: int): (t: Text) { if n < 0 then x + [MINUS] else x }

  lemma SignFront(x: Text, n: int)
    ensures x + [MINUS] + PrintInt(n) == Front(x, n) + [MINUS] + PrintNat(Abs(n))
  {
  }

  lemma {:induction false} InnerSnoc(parts: seq<Part>, p: Part)
    requires parts != []
    ensures Inner(parts + [p]) == Inner(parts) + [MINUS] + PartText(p)
  {
    var all := parts + [p];
    assert all[0] == parts[0] && all[1..] == parts[1..] + [p];
    if |parts| > 1 {
      InnerSnoc(parts[1..], p);
      var head, tail, last := PartText(parts[0]) + [MINUS], Inner(parts[1..]), [MINUS] + PartText(p);
      Assoc(tail, [MINUS], PartText(p));
      Assoc(head, tail, last);
      Assoc(head + tail, [MINUS], PartText(p));
    }
  }

  lemma InnerLast(parts: seq<Part>, n: nat)
    requires n > 0 && |parts| == n + 1
    ensures Inner(parts) == Inner(parts[..n]) + [MINUS] + PartText(parts[n])
  {
    assert parts == parts[..n] + [parts[n]];
    InnerSnoc(parts[..n], parts[n]);
  }

  /** A string, then an unsigned integer, then integers. */
  predicate StringFirst(kinds: seq<Kind>) {
    && kinds != [] && kinds[0] == Str && (|kinds| > 1 ==> kinds[1] == Unsigned)
    && forall i :: 0 < i < |kinds| ==> kinds[i] != Str
  }

  /** The last of several such parts can be read from the right. */
  lemma LastPart(kinds: seq<Kind>, a: seq<Part>, b: seq<Part>, n: nat)
    requires StringFirst(kinds) && FitsAll(kinds, a) && FitsAll(kinds, b) && Inner(a) == Inner(b)
    requires n == |kinds| - 1 && n > 0
    ensures a[n] == b[n] && Inner(a[..n]) == Inner(b[..n])
  {
    InnerLast(a, n);
    InnerLast(b, n);
    if n == 1 {
      RightNat(Inner(a[..n]), a[n].i, Inner(b[..n]), b[n].i);
    } else {
      InnerEnds(a[..n]);
      InnerEnds(b[..n]);
      RightInt(Inner(a[..n]), a[n].i, Inner(b[..n]), b[n].i);
    }
  }

  lemma {:induction false} RightInjective(kinds: seq<Kind>, a: seq<Part>, b: seq<Part>)
    requires StringFirst(kinds) && FitsAll(kinds, a) && FitsAll(kinds, b) && Inner(a) == Inner(b)
    ensures a == b
  {
    var n := |kinds| - 1;
    if n > 0 {
      LastPart(kinds, a, b, n);
      RightInjective(kinds[..n], a[..n], b[..n]);
      assert a == a[..n] + [a[n]] && b == b[..n] + [b[n]];
    }
  }

  lemma InnerEnds(parts: seq<Part>)
    requires |parts| > 1 && parts[|parts| - 1].IntPart?
    ensures EndsInDigit(Inner(parts))
  {
    InnerLast(parts, |parts| - 1);
  }

  /** At most one string, and no signed integer right behind it. */
  predicate Decodable(kinds: seq<Kind>) {
    && (forall i, j :: 0 <= i < j < |kinds| ==> kinds[i] != Str || kinds[j] != Str)
    && (forall i :: 0 <= i < |kinds| - 1 && kinds[i] == Str ==> kinds[i + 1] != Signed)
  }

  lemma DecodableTail(kinds: seq<Kind>)
    requires kinds != [] && Decodable(kinds)
    ensures Decodable(kinds[1..])
  {
    forall i | 0 <= i < |kinds| - 2 && kinds[1..][i] == Str ensures kinds[1..][i + 1] != Signed {
      assert kinds[i + 1] == Str && kinds[i + 1 + 1] != Signed;
    }
  }

  /** Leading integers are read from the left, up to the string if there is one. */
  lemma {:induction false} InnerInjective(kinds: seq<Kind>, a: seq<Part>, b: seq<Part>)
    requires kinds != [] && Decodable(kinds)
    requires FitsAll(kinds, a) && FitsAll(kinds, b) && Inner(a) == Inner(b)
    ensures a == b
  {
    if kinds[0] == Str {
      assert |kinds| > 1 ==> kinds[0 + 1] != Signed && kinds[0 + 1] != Str;
      RightInjective(kinds, a, b);
    } else if |kinds| == 1 {
      PrintIntInjective(a[0].i, b[0].i);
    } else {
      LeftInt(a[0].i, Inner(a[1..]), b[0].i, Inner(b[1..]));
      DecodableTail(kinds);
      InnerInjective(kinds[1..], a[1..], b[1..]);
      assert a == [a[0]] + a[1..] && b == [b[0]] + b[1..];
    }
  }

  /** The text of a key field: canonical decimal digits behind an optional minus, or the string. */
  predicate Shown(p: Part, s: Text) {
    match p case IntPart(i) => IntText(s, i) case TextPart(t) => s == t
  }

  predicate AllShown(parts: seq<Part>, texts: seq<Text>) {
    |parts| == |texts| && forall i :: 0 <= i < |parts| ==> Shown(parts[i], texts[i])
  }

  /** Texts with a dash between them. */
  function Dashed(texts: seq<Text>): (t: Text) {
    if texts == [] then []
    else if |texts| == 1 then texts[0]
    else Dashed(texts[..|texts| - 1]) + Ascii("-") + texts[|texts| - 1]
  }

  lemma {:induction false} InnerIs(parts: seq<Part>, texts: seq<Text>)
    requires parts != [] && AllShown(parts, texts)
    ensures Inner(parts) == Dashed(texts)
  {
    var n := |parts| - 1;
    ShownIs(parts[n], texts[n]);
    if n > 0 {
      InnerIs(parts[..n], texts[..n]);
      InnerLast(parts, n);
      assert Ascii("-") == [MINUS];
    }
  }

  lemma ShownIs(p: Part, s: Text)
    requires Shown(p, s)
    ensures PartText(p) == s
  {
    if p.IntPart? {
      PrintIntIs(s, p.i);
    }
  }

  /** The key, from the texts of the key fields alone. */
  lemma KeyIs(name: Text, parts: seq<Part>, texts: seq<Text>)
    requires parts != [] && AllShown(parts, texts)
    ensures Key(name, parts) == name + Ascii(":{") + Dashed(texts) + Ascii("}")
  {
    InnerIs(parts, texts);
    assert Ascii(":{") == [COLON, OPEN] && Ascii("}") == [CLOSE];
  }

  /** The closures: the field texts, collected in a loop, with a dash between them. */
  method BuildKey(name: Text, parts: seq<Part>) returns (key: Text)
    requires parts != []
    ensures key == Key(name, parts)
    ensures forall texts :: AllShown(parts, texts) ==> key == name + Ascii(":{") + Dashed(texts) + Ascii("}")
  {
    var inner := PartText(parts[0]);
    for i := 1 to |parts|
      invariant inner == Inner(parts[..i])
    {
      assert parts[..i + 1] == parts[..i] + [parts[i]];
      InnerSnoc(parts[..i], parts[i]);
      inner := inner + [MINUS] + PartText(parts[i]);
    }
    assert parts[..|parts|] == parts;
    key := name + [COLON, OPEN] + inner + [CLOSE];
    forall texts | AllShown(parts, texts) ensures key == name + Ascii(":{") + Dashed(texts) + Ascii("}") {
      KeyIs(name, parts, texts);
    }
  }

  /** Message types with different names never share a key. */
  lemma NamesNeverClash(m: Text, a: seq<Part>, n: Text, b: seq<Part>)
    requires a != [] && b != [] && COLON !in m && COLON !in n
    requires Key(m, a) == Key(n, b)
    ensures m == n && Inner(a) == Inner(b)
  {
    var all := Key(m, a);
    assert all == m + ([COLON, OPEN] + Inner(a) + [CLOSE]) && all == n + ([COLON, OPEN] + Inner(b) + [CLOSE]);
    assert all[|m|] == COLON && all[|n|] == COLON;
    assert forall i :: 0 <= i < |m| ==> all[i] == m[i];
    assert forall i :: 0 <= i < |n| ==> all[i] == n[i];
    assert m == all[..|m|] && n == all[..|n|];
    assert Inner(a) == all[|m| + 2..|all| - 1] && Inner(b) == all[|n| + 2..|all| - 1];
  }

  // ---------------------------------------------------------------- when keys clash

  function Zero(k: Kind): (p: Part)
    ensures Fits(k, p)
  {
    if k == Str then TextPart([]) else IntPart(0)
  }

  function Zeros(kinds: seq<Kind>): (parts: seq<Part>)
    ensures FitsAll(kinds, parts)
  {
    seq(|kinds|, i requires 0 <= i < |kinds| => Zero(kinds[i]))
  }

  function Before(parts: seq<Part>): (t: Text) { if parts == [] then [] else Inner(parts) + [MINUS] }

  function Behind(parts: seq<Part>): (t: Text) { if parts == [] then [] else [MINUS] + Inner(parts) }

  lemma BeforeCons(a: seq<Part>)
    requires a != []
    ensures Before(a) == PartText(a[0]) + [MINUS] + Before(a[1..])
  {
    if |a| > 1 {
      var x, y := PartText(a[0]) + [MINUS], Inner(a[1..]);
      assert x + y + [MINUS] == x + (y + [MINUS]);
    }
  }

  lemma InnerHead(p: Part, b: seq<Part>)
    ensures Inner([p] + b) == PartText(p) + Behind(b)
  {
    assert ([p] + b)[1..] == b;
    assert PartText(p) + [] == PartText(p);
    if b != [] {
      assert PartText(p) + [MINUS] + Inner(b) == PartText(p) + ([MINUS] + Inner(b));
    }
  }

  lemma DashAssoc(a: Text, b: Text, c: Text, d: Text)
    ensures a + ([MINUS] + (b + c + d)) == (a + [MINUS] + b) + c + d
  {
  }

  lemma HeadAround(a: seq<Part>, p: Part, b: seq<Part>)
    requires a != []
    ensures Inner(a + [p] + b) == PartText(a[0]) + Behind(a[1..] + [p] + b)
  {
    assert a + [p] + b == [a[0]] + (a[1..] + [p] + b);
    InnerHead(a[0], a[1..] + [p] + b);
  }

  /** A part sits between what is printed before it and behind it. */
  lemma {:induction false} InnerAround(a: seq<Part>, p: Part, b: seq<Part>)
    ensures Inner(a + [p] + b) == Before(a) + PartText(p) + Behind(b)
  {
    if a == [] {
      assert a + [p] == [p] && [] + PartText(p) == PartText(p);
      InnerHead(p, b);
    } else {
      var tail := a[1..] + [p] + b;
      HeadAround(a, p, b);
      InnerAround(a[1..], p, b);
      BeforeCons(a);
      assert Behind(tail) == [MINUS] + (Before(a[1..]) + PartText(p) + Behind(b));
      DashAssoc(PartText(a[0]), Before(a[1..]), PartText(p), Behind(b));
    }
  }

  ghost predicate Clash(kinds: seq<Kind>, a: seq<Part>, b: seq<Part>) {
    kinds != [] && FitsAll(kinds, a) && FitsAll(kinds, b) && a != b && Inner(a) == Inner(b)
  }

  /** The zero values with p and q put in at positions i and j. */
  function WithTwo(kinds: seq<Kind>, i: nat, p: Part, j: nat, q: Part): (parts: seq<Part>)
    requires i < j < |kinds|
  {
    var z := Zeros(kinds);
    z[..i] + [p] + (z[i + 1..j] + [q] + z[j + 1..])
  }

  lemma WithTwoFits(kinds: seq<Kind>, i: nat, p: Part, j: nat, q: Part)
    requires i < j < |kinds| && Fits(kinds[i], p) && Fits(kinds[j], q)
    ensures FitsAll(kinds, WithTwo(kinds, i, p, j, q)) && WithTwo(kinds, i, p, j, q)[i] == p
  {
    var parts, z := WithTwo(kinds, i, p, j, q), Zeros(kinds);
    forall k | 0 <= k < |kinds| ensures parts[k] == if k == i then p else if k == j then q else z[k] {
    }
  }

  function Sandwich(a: Text, p: Text, b: Text, q: Text, c: Text): (t: Text) { a + p + ([MINUS] + b) + q + c }

  lemma Regroup(a: Text, b: Text, c: Text, d: Text)
    ensures a + ([MINUS] + (b + c + d)) == a + ([MINUS] + b) + c + d
  {
  }

  lemma AroundTwo(front: seq<Part>, p: Part, mid: seq<Part>, q: Part, rest: seq<Part>)
    ensures Inner(front + [p] + (mid + [q] + rest))
         == Sandwich(Before(front), PartText(p), Before(mid), PartText(q), Behind(rest))
  {
    InnerAround(front, p, mid + [q] + rest);
    InnerAround(mid, q, rest);
    Regroup(Before(front) + PartText(p), Before(mid), PartText(q), Behind(rest));
  }

  lemma WithTwoText(kinds: seq<Kind>, i: nat, p: Part, j: nat, q: Part)
    requires i < j < |kinds|
    ensures var z := Zeros(kinds);
            Inner(WithTwo(kinds, i, p, j, q))
            == Sandwich(Before(z[..i]), PartText(p), Before(z[i + 1..j]), PartText(q), Behind(z[j + 1..]))
  {
    var z := Zeros(kinds);
    AroundTwo(z[..i], p, z[i + 1..j], q, z[j + 1..]);
  }

  lemma SignMoves(a: Text, c: Text)
    ensures Sandwich(a, [MINUS], [], [53], c) == Sandwich(a, [], [], [MINUS, 53], c)
  {
    assert a + [MINUS] + ([MINUS] + []) + [53] == a + [] + ([MINUS] + []) + [MINUS, 53];
  }

  lemma GapMoves(a: Text, b: Text, c: Text)
    ensures Sandwich(a, [], b, [MINUS] + b, c) == Sandwich(a, [MINUS] + b, b, [], c)
  {
    var gap := [MINUS] + b;
    assert a + [] + gap + gap == a + gap + gap + [];
  }

  /** A string and a signed integer behind it clash: "-", 5 and "", -5 print the same. */
  lemma SignedBehindString(kinds: seq<Kind>, i: nat) returns (a: seq<Part>, b: seq<Part>)
    requires i + 1 < |kinds| && kinds[i] == Str && kinds[i + 1] == Signed
    ensures Clash(kinds, a, b)
  {
    var z := Zeros(kinds);
    var s, t, five, minusFive := TextPart([MINUS]), TextPart([]), IntPart(5), IntPart(-5);
    a, b := WithTwo(kinds, i, s, i + 1, five), WithTwo(kinds, i, t, i + 1, minusFive);
    WithTwoFits(kinds, i, s, i + 1, five);
    WithTwoFits(kinds, i, t, i + 1, minusFive);
    WithTwoText(kinds, i, s, i + 1, five);
    WithTwoText(kinds, i, t, i + 1, minusFive);
    assert z[i + 1..i + 1] == [] && PrintInt(5) == [53] && PrintInt(-5) == [MINUS, 53];
    SignMoves(Before(z[..i]), Behind(z[i + 1 + 1..]));
  }

  /** Two strings clash: what stands between them can be moved from one into the other. */
  lemma TwoStrings(kinds: seq<Kind>, i: nat, j: nat) returns (a: seq<Part>, b: seq<Part>)
    requires i < j < |kinds| && kinds[i] == Str && kinds[j] == Str
    ensures Clash(kinds, a, b)
  {
    var z := Zeros(kinds);
    var between := Before(z[i + 1..j]);
    var empty, gap := TextPart([]), TextPart([MINUS] + between);
    a, b := WithTwo(kinds, i, empty, j, gap), WithTwo(kinds, i, gap, j, empty);
    WithTwoFits(kinds, i, empty, j, gap);
    WithTwoFits(kinds, i, gap, j, empty);
    WithTwoText(kinds, i, empty, j, gap);
    WithTwoText(kinds, i, gap, j, empty);
    GapMoves(Before(z[..i]), between, Behind(z[j + 1..]));
  }

  /** For key fields of the given kinds, different key values give different keys. */
  ghost predicate Injective(kinds: seq<Kind>) {
    forall a, b :: !Clash(kinds, a, b)
  }

  /** Keys of one message type are told apart exactly when at most one key field is a string and no signed
      integer directly follows it. */
  lemma InjectiveExactly(kinds: seq<Kind>)
    requires kinds != []
    ensures Injective(kinds) <==> Decodable(kinds)
  {
    if Decodable(kinds) {
      forall a, b ensures !Clash(kinds, a, b) {
        if FitsAll(kinds, a) && FitsAll(kinds, b) && Inner(a) == Inner(b) {
          InnerInjective(kinds, a, b);
        }
      }
    } else if i, j :| 0 <= i < j < |kinds| && kinds[i] == Str && kinds[j] == Str {
      var a, b := TwoStrings(kinds, i, j);
    } else {
      var i :| 0 <= i < |kinds| - 1 && kinds[i] == Str && kinds[i + 1] == Signed;
      var a, b := SignedBehindString(kinds, i);
    }
  }
}
