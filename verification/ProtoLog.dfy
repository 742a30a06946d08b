/** plugin/log/protolog: the log text encoder, whose path slices share backing arrays between siblings. */
module ProtoLog {
  import opened GoBase
  import opened Decimal

  datatype Message = Message(fields: seq<Field>)

  datatype Field = Field(name: Text, val: FieldVal)

  datatype FieldVal =
    | ListVal(items: seq<Val>)
    | MapVal(keys: seq<Scalar>, items: seq<Val>)
    | Single(v: Val)

  datatype Val = Leaf(scalar: Scalar) | Sub(msg: Message)

  /** A value by its kind: integers of all widths and enums are IntScalar, and floats come as strconv prints
      them. OtherScalar has a kind that is not rendered. */
  datatype Scalar =
    | BoolScalar(b: bool)
    | IntScalar(i: int)
    | StringScalar(t: Text)
    | BytesScalar(t: Text)
    | FloatScalar(printed: Text)
    | OtherScalar

  const SPACE: byte := 32
  const EQUALS: byte := 61

  function FdNameToStr(name: Text): (s: Text) {
    if name == Ascii("MsgID") then Ascii("msg")
    else if name == Ascii("Uid") || name == Ascii("UID") then Ascii("uid")
    else name
  }

  /** The text of a scalar; None is the error for an unknown kind. */
  function ValueToString(v: Scalar): (r: Option<Text>)
    ensures r.None? <==> v.OtherScalar?
  {
    match v
    case BoolScalar(b) => Some(if b then Ascii("true") else Ascii("false"))
    case IntScalar(i) => Some(PrintInt(i))
    case StringScalar(t) => Some(t)
    case BytesScalar(t) => Some(t)
    case FloatScalar(t) => Some(t)
    case OtherScalar => None
  }

  predicate SameKind(v: Scalar, w: Scalar) {
    match v
    case BoolScalar(_) => w.BoolScalar?
    case IntScalar(_) => w.IntScalar?
    case StringScalar(_) => w.StringScalar?
    case BytesScalar(_) => w.BytesScalar?
    case FloatScalar(_) => w.FloatScalar?
    case OtherScalar => w.OtherScalar?
  }

  /** Values of one kind are told apart by their text. */
  lemma ValueTextInjective(v: Scalar, w: Scalar)
    requires SameKind(v, w)
    ensures ValueToString(v) == ValueToString(w) <==> v == w
  {
    if v.IntScalar? {
      PrintIntInjective(v.i, w.i);
    }
    if v.BoolScalar? {
      assert |Ascii("true")| == 4 && |Ascii("false")| == 5;
    }
  }

  /** The path element of entry i of a list or map field; None where rendering a map key fails. */
  function KeyText(v: FieldVal, i: nat): (s: Option<Text>) {
    if v.MapVal? && i < |v.keys| then ValueToString(v.keys[i]) else Some(PrintNat(i))
  }

  /** The name under which the entries of a repeated field appear: a map's values are called "value". */
  function EntryName(f: Field): (s: Text) {
    if f.val.MapVal? then Ascii("value") else FdNameToStr(f.name)
  }

  // ---------------------------------------------------------------- pure flattening

  function Join(parts: seq<Text>, sep: byte): (t: Text) {
    if parts == [] then [] else if |parts| == 1 then parts[0]
    else Join(parts[..|parts| - 1], sep) + [sep] + parts[|parts| - 1]
  }

  lemma {:induction false} JoinConcat(a: seq<Text>, b: seq<Text>, sep: byte)
    requires a != [] && b != []
    ensures Join(a + b, sep) == Join(a, sep) + [sep] + Join(b, sep)
    decreases |b|
  {
    var last, front := b[|b| - 1], b[..|b| - 1];
    assert (a + b)[..|a + b| - 1] == a + front;
    if front == [] {
      assert a + front == a;
    } else {
      JoinConcat(a, front, sep);
      assert Join(a, sep) + [sep] + (Join(front, sep) + [sep] + last)
          == Join(a, sep) + [sep] + Join(front, sep) + [sep] + last;
    }
  }

  function Line(path: seq<Text>, text: Text): (t: Text) { Join(path, DOT) + [EQUALS] + text }

  /** What one part contributes: its lines, and whether it ended without an error. A part that writes nothing
      still stands between separators, as an empty line. */
  datatype Lines = Lines(lines: seq<Text>, ok: bool)

  function Padded(lines: seq<Text>): (r: seq<Text>)
    ensures r != [] && (lines != [] ==> r == lines)
  {
    if lines == [] then [[]] else lines
  }

  /** Each leaf under v on its own line, with its own copy of the path. */
  function ValLines(v: Val, path: seq<Text>, name: Text): (r: Lines)
    ensures r.lines != []
    decreases v, 0
  {
    match v
    case Leaf(scalar) =>
      (match ValueToString(scalar) case None => Lines([[]], false) case Some(t) => Lines([Line(path, t)], true))
    case Sub(m) => Lines(Padded(MessageLines(m, |m.fields|, path + [name]).lines), true)
  }

  /** Entry i under its index or key; a key that does not render ends the field. */
  function NthLines(f: FieldVal, i: nat, path: seq<Text>, name: Text): (r: Lines)
    requires !f.Single? && i < |f.items|
    ensures r.lines != []
    decreases f, 0
  {
    match KeyText(f, i)
    case None => Lines([[]], false)
    case Some(key) => ValLines(f.items[i], path + [key], name)
  }

  function EntryLines(f: FieldVal, n: nat, path: seq<Text>, name: Text): (r: Lines)
    requires !f.Single? && n <= |f.items|
    ensures n > 0 ==> r.lines != []
    decreases f, n + 1
  {
    if n == 0 then Lines([], true)
    else
      var before := EntryLines(f, n - 1, path, name);
      if !before.ok then before
      else
        var next := NthLines(f, n - 1, path, name);
        Lines(before.lines + next.lines, next.ok)
  }

  function FieldLines(f: Field, path: seq<Text>): (r: Lines)
    ensures r.lines != []
    decreases f, 0
  {
    var name := FdNameToStr(f.name);
    match f.val
    case Single(Leaf(scalar)) =>
      (match ValueToString(scalar)
       case None => Lines([[]], false)
       case Some(t) => Lines([Line(path + [name], t)], true))
    case Single(Sub(m)) => Lines(Padded(MessageLines(m, |m.fields|, path + [name]).lines), true)
    case _ =>
      var entries := EntryLines(f.val, |f.val.items|, path + [name], EntryName(f));
      Lines(Padded(entries.lines), entries.ok)
  }

  function MessageLines(m: Message, n: nat, path: seq<Text>): (r: Lines)
    requires n <= |m.fields|
    ensures n > 0 ==> r.lines != []
    decreases m, n
  {
    if n == 0 then Lines([], true)
    else
      var before := MessageLines(m, n - 1, path);
      if !before.ok then before
      else
        var next := FieldLines(m.fields[n - 1], path);
        Lines(before.lines + next.lines, next.ok)
  }

  /** The text of a message: its lines, separated by spaces. */
  function MessageText(m: Message, path: seq<Text>): (t: Text) {
    Join(MessageLines(m, |m.fields|, path).lines, SPACE)
  }

  /** What the loops write in front of part i. */
  function Separator(i: nat): (t: Text) { if i > 0 then [SPACE] else [] }

  lemma JoinStep(before: seq<Text>, next: seq<Text>, i: nat)
    requires next != [] && (before == [] <==> i == 0)
    ensures Join(before + next, SPACE) == Join(before, SPACE) + Separator(i) + Join(next, SPACE)
  {
    if i == 0 {
      assert before + next == next;
    } else {
      JoinConcat(before, next, SPACE);
    }
  }

  lemma MessageStep(m: Message, i: nat, path: seq<Text>)
    requires i < |m.fields| && MessageLines(m, i, path).ok
    ensures var next := FieldLines(m.fields[i], path);
            && Join(MessageLines(m, i + 1, path).lines, SPACE)
               == Join(MessageLines(m, i, path).lines, SPACE) + Separator(i) + Join(next.lines, SPACE)
            && MessageLines(m, i + 1, path).ok == next.ok
  {
    JoinStep(MessageLines(m, i, path).lines, FieldLines(m.fields[i], path).lines, i);
  }

  /** What the first i fields of m write. */
  function TextSoFar(m: Message, i: nat, path: seq<Text>): (t: Text)
    requires i <= |m.fields|
  {
    Join(MessageLines(m, i, path).lines, SPACE)
  }

  lemma NothingDone(start: Text, m: Message, path: seq<Text>)
    ensures start + TextSoFar(m, 0, path) == start && MessageLines(m, 0, path).ok
  {
  }

  lemma MessageGrows(start: Text, m: Message, i: nat, path: seq<Text>)
    requires i < |m.fields| && MessageLines(m, i, path).ok
    ensures var next := FieldLines(m.fields[i], path);
            && start + TextSoFar(m, i, path) + Separator(i) + Join(next.lines, SPACE)
               == start + TextSoFar(m, i + 1, path)
            && MessageLines(m, i + 1, path).ok == next.ok
  {
    MessageStep(m, i, path);
    FourAssoc(start, TextSoFar(m, i, path), Separator(i), Join(FieldLines(m.fields[i], path).lines, SPACE));
  }

  lemma EntryStep(f: FieldVal, i: nat, path: seq<Text>, name: Text)
    requires !f.Single? && i < |f.items| && EntryLines(f, i, path, name).ok
    ensures var next := NthLines(f, i, path, name);
            && Join(EntryLines(f, i + 1, path, name).lines, SPACE)
               == Join(EntryLines(f, i, path, name).lines, SPACE) + Separator(i) + Join(next.lines, SPACE)
            && EntryLines(f, i + 1, path, name).ok == next.ok
  {
    JoinStep(EntryLines(f, i, path, name).lines, NthLines(f, i, path, name).lines, i);
  }

  lemma {:induction false} MessageStops(m: Message, i: nat, n: nat, path: seq<Text>)
    requires i <= n <= |m.fields| && !MessageLines(m, i, path).ok
    ensures MessageLines(m, n, path) == MessageLines(m, i, path)
    decreases n
  {
    if i < n {
      MessageStops(m, i, n - 1, path);
    }
  }

  lemma {:induction false} EntriesStop(f: FieldVal, i: nat, n: nat, path: seq<Text>, name: Text)
    requires !f.Single? && i <= n <= |f.items| && !EntryLines(f, i, path, name).ok
    ensures EntryLines(f, n, path, name) == EntryLines(f, i, path, name)
    decreases n
  {
    if i < n {
      EntriesStop(f, i, n - 1, path, name);
    }
  }

  // ---------------------------------------------------------------- lines, said outright

  /** The name a field is logged under. */
  predicate LoggedAs(name: Text, s: Text) {
    if name == Ascii("MsgID") then s == Ascii("msg")
    else if name == Ascii("Uid") || name == Ascii("UID") then s == Ascii("uid")
    else s == name
  }

  /** The text of a scalar: true or false, canonical decimal digits behind an optional minus, or the bytes. */
  predicate RenderedAs(v: Scalar, s: Text) {
    match v
    case BoolScalar(b) => s == if b then Ascii("true") else Ascii("false")
    case IntScalar(i) => IntText(s, i)
    case StringScalar(t) => s == t
    case BytesScalar(t) => s == t
    case FloatScalar(t) => s == t
    case OtherScalar => false
  }

  lemma RenderedExactly(v: Scalar, s: Text)
    ensures ValueToString(v) == Some(s) <==> RenderedAs(v, s)
  {
    if v.IntScalar? {
      PrintIntIs(s, v.i);
    }
  }

  /** A singular scalar field is one line: the path and the field's logged name with dots between them, an equals
      sign and the value's text. A value that does not render gives nothing, and ends the message. */
  lemma LeafLine(f: Field, path: seq<Text>, name: Text, text: Text)
    requires f.val.Single? && f.val.v.Leaf? && LoggedAs(f.name, name)
    ensures RenderedAs(f.val.v.scalar, text) ==>
              FieldLines(f, path) == Lines([Join(path + [name], DOT) + Ascii("=") + text], true)
    ensures f.val.v.scalar.OtherScalar? ==> FieldLines(f, path) == Lines([[]], false)
  {
    RenderedExactly(f.val.v.scalar, text);
    assert Ascii("=") == [EQUALS];
  }

  /** A scalar entry i of a list field is one line under the field's logged name and the index. */
  lemma ListLine(f: Field, i: nat, path: seq<Text>, name: Text, index: Text, text: Text)
    requires f.val.ListVal? && i < |f.val.items| && f.val.items[i].Leaf?
    requires LoggedAs(f.name, name) && IntText(index, i) && RenderedAs(f.val.items[i].scalar, text)
    ensures NthLines(f.val, i, path + [name], EntryName(f))
         == Lines([Join(path + [name] + [index], DOT) + Ascii("=") + text], true)
  {
    RenderedExactly(f.val.items[i].scalar, text);
    PrintIntIs(index, i);
    assert Ascii("=") == [EQUALS];
  }

  /** A scalar entry of a map field is one line under the field's logged name and the key's text. */
  lemma MapLine(f: Field, i: nat, path: seq<Text>, name: Text, key: Text, text: Text)
    requires f.val.MapVal? && i < |f.val.items| && i < |f.val.keys| && f.val.items[i].Leaf?
    requires LoggedAs(f.name, name) && RenderedAs(f.val.keys[i], key) && RenderedAs(f.val.items[i].scalar, text)
    ensures NthLines(f.val, i, path + [name], EntryName(f))
         == Lines([Join(path + [name] + [key], DOT) + Ascii("=") + text], true)
  {
    RenderedExactly(f.val.items[i].scalar, text);
    RenderedExactly(f.val.keys[i], key);
    assert Ascii("=") == [EQUALS];
  }

  /** The lines of a sub-message are those of its fields under a longer path: a singular one adds its logged name,
      an entry of a list its index and the list's name, an entry of a map its key and "value". One without fields
      still stands as an empty line, and its errors stay inside. */
  lemma SubLines(f: Field, i: nat, path: seq<Text>, name: Text, key: Text, m: Message)
    requires LoggedAs(f.name, name)
    ensures f.val == Single(Sub(m)) ==>
              FieldLines(f, path) == Lines(Padded(MessageLines(m, |m.fields|, path + [name]).lines), true)
    ensures f.val.ListVal? && i < |f.val.items| && f.val.items[i] == Sub(m) && IntText(key, i) ==>
              NthLines(f.val, i, path + [name], EntryName(f))
              == Lines(Padded(MessageLines(m, |m.fields|, path + [name] + [key] + [name]).lines), true)
    ensures (f.val.MapVal? && i < |f.val.items| && i < |f.val.keys| && f.val.items[i] == Sub(m)) ==>
              RenderedAs(f.val.keys[i], key) ==>
              NthLines(f.val, i, path + [name], EntryName(f))
              == Lines(Padded(MessageLines(m, |m.fields|, path + [name] + [key] + [Ascii("value")]).lines), true)
  {
    PrintIntIs(key, i);
    if f.val.MapVal? && i < |f.val.keys| {
      RenderedExactly(f.val.keys[i], key);
    }
  }

  /** Texts are joined by one separator between two of them. */
  lemma JoinOfTwo(a: Text, b: Text, sep: byte)
    ensures Join([], sep) == [] && Join([a], sep) == a && Join([a, b], sep) == a + [sep] + b
  {
    assert [a, b][..1] == [a];
  }

  /** A message with an id, a flag and a list logs as: message uid=5 on=true item.0=7 */
  lemma ExampleText(m: Message)
    requires m.fields == [Field(Ascii("Uid"), Single(Leaf(IntScalar(5)))),
                          Field(Ascii("on"), Single(Leaf(BoolScalar(true)))),
                          Field(Ascii("item"), ListVal([Leaf(IntScalar(7))]))]
    ensures MessageLines(m, 3, []) == Lines([Ascii("uid=5"), Ascii("on=true"), Ascii("item.0=7")], true)
  {
    ExampleFirst(m.fields[0]);
    ExampleSecond(m.fields[1]);
    ExampleThird(m.fields[2]);
    assert MessageLines(m, 1, []) == Lines([Ascii("uid=5")], true);
    assert MessageLines(m, 2, []) == Lines([Ascii("uid=5"), Ascii("on=true")], true);
  }

  lemma ExampleFirst(f: Field)
    requires f == Field(Ascii("Uid"), Single(Leaf(IntScalar(5))))
    ensures FieldLines(f, []) == Lines([Ascii("uid=5")], true)
  {
    assert |Ascii("Uid")| != |Ascii("MsgID")|;
    LeafLine(f, [], Ascii("uid"), Ascii("5"));
    OneDigit(5, Ascii("5"));
    assert [] + [Ascii("uid")] == [Ascii("uid")];
    JoinOfTwo(Ascii("uid"), [], DOT);
    assert Ascii("uid") + Ascii("=") + Ascii("5") == Ascii("uid=5");
  }

  lemma ExampleSecond(f: Field)
    requires f == Field(Ascii("on"), Single(Leaf(BoolScalar(true))))
    ensures FieldLines(f, []) == Lines([Ascii("on=true")], true)
  {
    assert |f.name| == 2 && |Ascii("MsgID")| == 5 && |Ascii("Uid")| == |Ascii("UID")| == 3;
    LeafLine(f, [], Ascii("on"), Ascii("true"));
    assert [] + [Ascii("on")] == [Ascii("on")];
    JoinOfTwo(Ascii("on"), [], DOT);
    assert Ascii("on") + Ascii("=") + Ascii("true") == Ascii("on=true");
  }

  lemma ExampleThird(f: Field)
    requires f == Field(Ascii("item"), ListVal([Leaf(IntScalar(7))]))
    ensures FieldLines(f, []) == Lines([Ascii("item.0=7")], true)
  {
    assert |f.name| == 4 && |Ascii("MsgID")| == 5 && |Ascii("Uid")| == |Ascii("UID")| == 3;
    var item := Ascii("item");
    OneDigit(0, Ascii("0"));
    OneDigit(7, Ascii("7"));
    ListLine(f, 0, [], item, Ascii("0"), Ascii("7"));
    assert [] + [item] == [item] && [item] + [Ascii("0")] == [item, Ascii("0")];
    JoinOfTwo(item, Ascii("0"), DOT);
    assert item + [DOT] + Ascii("0") + Ascii("=") + Ascii("7") == Ascii("item.0=7");
    var line := NthLines(f.val, 0, [item], EntryName(f));
    assert [] + line.lines == line.lines;
  }

  lemma OneDigit(n: nat, t: Text)
    requires n < 10 && |t| == 1 && t[0] == ZERO + n
    ensures IntText(t, n)
  {
    assert t[..0] == [];
  }

  // ---------------------------------------------------------------- Go path slices

  /** A path slice: the first len strings of a backing array that other slices may share. */
  datatype Path = Path(arr: array<Text>, len: nat) {
    ghost predicate Valid() { len <= arr.Length }

    ghost function Content(): (p: seq<Text>)
      requires Valid()
      reads arr
    {
      arr[..len]
    }
  }

  /** append(p, x): into spare capacity of the shared array, or onto a fresh array of any larger size. */
  method Append(p: Path, x: Text) returns (r: Path)
    requires p.Valid()
    modifies p.arr
    ensures r.Valid() && (r.arr == p.arr || fresh(r.arr))
    ensures r.len == p.len + 1 && r.Content() == old(p.Content()) + [x]
    ensures p.Content() == old(p.Content())
  {
    if p.len < p.arr.Length {
      p.arr[p.len] := x;
      r := Path(p.arr, p.len + 1);
    } else {
      var spare :| 0 <= spare;
      var a := new Text[p.len + 1 + spare](_ => []);
      forall i | 0 <= i < p.len { a[i] := p.arr[i]; }
      a[p.len] := x;
      r := Path(a, p.len + 1);
    }
  }

  // ---------------------------------------------------------------- the encoder

  class Encoder {
    var builder: Text

    constructor ()
      ensures builder == []
    {
      builder := [];
    }

    /** The loop that writes the path with dots. */
    method WritePath(p: Path)
      requires p.Valid()
      modifies this
      ensures builder == old(builder) + Join(p.Content(), DOT)
    {
      for i := 0 to p.len
        invariant builder == old(builder) + Join(p.arr[..i], DOT) + (if 0 < i < p.len then [DOT] else [])
      {
        assert p.arr[..i + 1][..i] == p.arr[..i];
        builder := builder + p.arr[i];
        if i < p.len - 1 {
          builder := builder + [DOT];
        }
      }
    }

    method WriteLine(p: Path, text: Text)
      requires p.Valid()
      modifies this
      ensures builder == old(builder) + Line(p.Content(), text)
    {
      WritePath(p);
      builder := builder + [EQUALS];
      builder := builder + text;
    }

    /** marshalSingular's own loop: every path element with a dot behind it, then the field's name. */
    method WriteSingular(p: Path, name: Text, text: Text)
      requires p.Valid()
      modifies this
      ensures builder == old(builder) + Line(p.Content() + [name], text)
    {
      for i := 0 to p.len
        invariant builder == old(builder) + Join(p.arr[..i], DOT) + (if 0 < i then [DOT] else [])
      {
        assert p.arr[..i + 1][..i] == p.arr[..i];
        builder := builder + p.arr[i];
        builder := builder + [DOT];
      }
      assert (p.Content() + [name])[..p.len] == p.Content();
      builder := builder + name;
      builder := builder + [EQUALS];
      builder := builder + text;
    }

    method WriteSeparator(i: nat)
      modifies this
      ensures builder == old(builder) + Separator(i)
    {
      if i > 0 {
        builder := builder + [SPACE];
      }
    }

    /** Writes every field of m; an error ends the message early and is not passed on. */
    method MarshalMessage(m: Message, path: Path)
      requires path.Valid()
      modifies this, path.arr
      ensures builder == old(builder) + MessageText(m, old(path.Content()))
      ensures path.Content() == old(path.Content())
      decreases m, 0
    {
      ghost var content, start := path.Content(), builder;
      NothingDone(start, m, content);
      var i, ok := 0, true;
      while i < |m.fields| && ok
        invariant i <= |m.fields| && path.Content() == content
        invariant builder == start + TextSoFar(m, i, content) && ok == MessageLines(m, i, content).ok
      {
        MessageGrows(start, m, i, content);
        ok := MarshalNext(m, i, path);
        i := i + 1;
      }
      if !ok {
        MessageStops(m, i, |m.fields|, content);
      }
    }

    /** One turn of the loop over the fields. */
    method MarshalNext(m: Message, i: nat, path: Path) returns (ok: bool)
      requires path.Valid() && i < |m.fields|
      modifies this, path.arr
      ensures var next := FieldLines(m.fields[i], old(path.Content()));
              builder == old(builder) + Separator(i) + Join(next.lines, SPACE) && ok == next.ok
      ensures path.Content() == old(path.Content())
      decreases m.fields[i], 2
    {
      WriteSeparator(i);
      ok := MarshalField(m.fields[i], path);
    }

    method MarshalField(f: Field, path: Path) returns (ok: bool)
      requires path.Valid()
      modifies this, path.arr
      ensures builder == old(builder) + Join(FieldLines(f, old(path.Content())).lines, SPACE)
      ensures ok == FieldLines(f, old(path.Content())).ok
      ensures path.Content() == old(path.Content())
      decreases f, 1
    {
      match f.val
      case ListVal(_) => ok := MarshalRepeated(f, path);
      case MapVal(_, _) => ok := MarshalRepeated(f, path);
      case Single(_) => ok := MarshalSingular(f, path);
    }

    method MarshalRepeated(f: Field, path: Path) returns (ok: bool)
      requires path.Valid() && !f.val.Single?
      modifies this, path.arr
      ensures builder == old(builder) + Join(FieldLines(f, old(path.Content())).lines, SPACE)
      ensures ok == FieldLines(f, old(path.Content())).ok
      ensures path.Content() == old(path.Content())
      decreases f, 0
    {
      var here := Append(path, FdNameToStr(f.name));
      ok := MarshalEntries(f.val, EntryName(f), here, path);
    }

    /** The loops of marshalList and marshalMap: the path of each entry, made by appending to `path`, may lie in
        the same array as `path` and as the path of the entry before it. */
    method MarshalEntries(f: FieldVal, name: Text, path: Path, ghost parent: Path) returns (ok: bool)
      requires path.Valid() && !f.Single? && parent.Valid() && parent.len <= path.len
      modifies this, path.arr
      ensures builder == old(builder) + Join(EntryLines(f, |f.items|, old(path.Content()), name).lines, SPACE)
      ensures ok == EntryLines(f, |f.items|, old(path.Content()), name).ok
      ensures path.Content() == old(path.Content()) && parent.Content() == old(parent.Content())
      decreases f, 0
    {
      ghost var content, start, written := path.Content(), builder, [];
      assert start == start + [];
      var i := 0;
      ok := true;
      while i < |f.items| && ok
        invariant i <= |f.items| && path.Content() == content && parent.Content() == old(parent.Content())
        invariant builder == start + written
        invariant written == Join(EntryLines(f, i, content, name).lines, SPACE)
        invariant ok == EntryLines(f, i, content, name).ok
      {
        ghost var next := Join(NthLines(f, i, content, name).lines, SPACE);
        EntryStep(f, i, content, name);
        FourAssoc(start, written, Separator(i), next);
        WriteSeparator(i);
        ok := MarshalNth(f, i, name, path, parent);
        written := written + Separator(i) + next;
        i := i + 1;
      }
      if !ok {
        EntriesStop(f, i, |f.items|, content, name);
      }
    }

    method MarshalNth(f: FieldVal, i: nat, name: Text, path: Path, ghost parent: Path) returns (ok: bool)
      requires path.Valid() && !f.Single? && i < |f.items| && parent.Valid() && parent.len <= path.len
      modifies this, path.arr
      ensures var next := NthLines(f, i, old(path.Content()), name);
              builder == old(builder) + Join(next.lines, SPACE) && ok == next.ok
      ensures path.Content() == old(path.Content()) && parent.Content() == old(parent.Content())
      decreases f.items[i], 1
    {
      ghost var content := parent.Content();
      var key := KeyText(f, i);
      if key.None? {
        return false;
      }
      var fpath := Append(path, key.value);
      assert parent.Content() == content;
      ok := MarshalEntry(f.items[i], name, fpath, path);
      assert parent.arr == path.arr ==> parent.Content() == path.Content()[..parent.len];
    }

    /** marshalListOrMapSingular; `parent` is the path it was appended to, which it leaves alone. */
    method MarshalEntry(v: Val, name: Text, path: Path, ghost parent: Path) returns (ok: bool)
      requires path.Valid() && parent.Valid() && parent.len <= path.len
      modifies this, path.arr
      ensures builder == old(builder) + Join(ValLines(v, old(path.Content()), name).lines, SPACE)
      ensures ok == ValLines(v, old(path.Content()), name).ok
      ensures path.Content() == old(path.Content())
      ensures parent.Content() == old(parent.Content())
      decreases v, 0
    {
      match v
      case Sub(m) =>
        var inner := Append(path, name);
        MarshalMessage(m, inner);
        return true;
      case Leaf(scalar) =>
        var text := ValueToString(scalar);
        if text.None? {
          return false;
        }
        WriteLine(path, text.value);
        return true;
    }

    method MarshalSingular(f: Field, path: Path) returns (ok: bool)
      requires path.Valid() && f.val.Single?
      modifies this, path.arr
      ensures builder == old(builder) + Join(FieldLines(f, old(path.Content())).lines, SPACE)
      ensures ok == FieldLines(f, old(path.Content())).ok
      ensures path.Content() == old(path.Content())
      decreases f, 0
    {
      match f.val.v
      case Sub(m) =>
        var inner := Append(path, FdNameToStr(f.name));
        MarshalMessage(m, inner);
        return true;
      case Leaf(scalar) =>
        var text := ValueToString(scalar);
        if text.None? {
          return false;
        }
        WriteSingular(path, FdNameToStr(f.name), text.value);
        return true;
    }
  }

  /** Marshal: whatever the growth policy of append, the text is the pure flattening. */
  method Marshal(m: Message) returns (r: Text)
    ensures r == Ascii("message ") + MessageText(m, [])
  {
    var enc := new Encoder();
    enc.builder := enc.builder + Ascii("message ");
    var none := new Text[0];
    var path := Path(none, 0);
    assert path.Content() == [];
    enc.MarshalMessage(m, path);
    r := enc.builder;
  }
}
