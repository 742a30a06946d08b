/** MarshalToMap and DirtyFilter of plugin/db/pbsupport: a serialized record is cut into columns,
    with blob columns built by Go's append on slices of the marshal buffer. */
module PbSplit {
  import opened GoBase
  import opened Wire
  import opened PbRecord

  datatype Column = TextColumn(t: Text) | BlobColumn(b: Text)

  datatype SplitError = BadWire | UnknownField(number: nat)

  datatype SplitResult = Ok(columns: map<Text, Column>) | Err(error: SplitError)

  type Filter = Option<set<Text>>

  predicate Selected(filter: Filter, name: Text) {
    filter.None? || name in filter.value
  }

  // ---------------------------------------------------------------- specification

  predicate AllKnown(d: Descriptor, recs: seq<Record>) {
    forall i :: 0 <= i < |recs| ==> recs[i].number in d.byNumber
  }

  function FirstUnknown(d: Descriptor, recs: seq<Record>): (r: Option<nat>) {
    if recs == [] then None
    else if recs[0].number !in d.byNumber then Some(recs[0].number)
    else FirstUnknown(d, recs[1..])
  }

  /** The texts of the populated scalar fields. */
  function ScalarTexts(d: Descriptor, m: Message): (texts: map<Text, Text>)
    requires ValidMessage(d, m)
  {
    map name | name in d.byName && d.byName[name].number in m && !IsFdMarshalToBlob(d.byName[name])
      :: MarshalScalar(d.byName[name].kind, m[d.byName[name].number])
  }

  function ColumnOf(texts: map<Text, Text>, name: Text, own: seq<Record>): (c: Column) {
    if name in texts then TextColumn(texts[name]) else BlobColumn(Raw(own))
  }

  /** One column per selected field that owns a record: the text of a scalar, otherwise the
      concatenation of the field's own records. */
  function Columns(d: Descriptor, texts: map<Text, Text>, filter: Filter, recs: seq<Record>): (c: map<Text, Column>) {
    map name | name in d.byName && Selected(filter, name) && Own(recs, d.byName[name].number) != []
      :: ColumnOf(texts, name, Own(recs, d.byName[name].number))
  }

  function SplitSpec(d: Descriptor, texts: map<Text, Text>, filter: Filter, b: seq<byte>): (r: SplitResult) {
    var (recs, complete) := Parse(b);
    match FirstUnknown(d, recs)
    case Some(n) => Err(UnknownField(n))
    case None => if complete then Ok(Columns(d, texts, filter, recs)) else Err(BadWire)
  }

  lemma {:induction false} FirstUnknownAppend(d: Descriptor, a: seq<Record>, b: seq<Record>)
    requires AllKnown(d, a)
    ensures FirstUnknown(d, a + b) == FirstUnknown(d, b)
  {
    if a == [] {
      assert a + b == b;
    } else {
      FirstUnknownAppend(d, a[1..], b);
      assert (a + b)[1..] == a[1..] + b;
    }
  }

  lemma FirstUnknownNone(d: Descriptor, recs: seq<Record>)
    requires AllKnown(d, recs)
    ensures FirstUnknown(d, recs) == None
  {
    FirstUnknownAppend(d, recs, []);
    assert recs + [] == recs;
  }

  function AddRecord(texts: map<Text, Text>, filter: Filter, c: map<Text, Column>, name: Text, raw: seq<byte>):
    (after: map<Text, Column>)
    requires name in c && name !in texts ==> c[name].BlobColumn?
  {
    if !Selected(filter, name) then c
    else if name in texts then c[name := TextColumn(texts[name])]
    else c[name := BlobColumn(if name in c then c[name].b + raw else raw)]
  }

  lemma OwnSnoc(recs: seq<Record>, r: Record, n: nat)
    ensures Own(recs + [r], n) == if r.number == n then Own(recs, n) + [r] else Own(recs, n)
    ensures r.number == n ==> Raw(Own(recs + [r], n)) == Raw(Own(recs, n)) + r.raw
  {
    OwnAppend(recs, [r], n);
    assert Own([r], n) == if r.number == n then [r] else [];
    RawAppend(Own(recs, n), [r]);
    assert Raw([r]) == r.raw;
  }

  ghost predicate Agree(a: map<Text, Column>, b: map<Text, Column>, name: Text) {
    (name in a <==> name in b) && (name in a ==> a[name] == b[name])
  }

  lemma AgreeAll(a: map<Text, Column>, b: map<Text, Column>, names: set<Text>)
    requires a.Keys <= names && b.Keys <= names && forall s :: s in names ==> Agree(a, b, s)
    ensures a == b
  {
    forall s ensures (s in a <==> s in b) && (s in a ==> a[s] == b[s]) {
      assert s in names ==> Agree(a, b, s);
    }
  }

  /** What one more record does to one column. */
  lemma ColumnSnoc(d: Descriptor, texts: map<Text, Text>, filter: Filter, recs: seq<Record>, r: Record, s: Text)
    requires d.WellFormed() && r.number in d.byNumber && s in d.byName
    ensures var before, after := Columns(d, texts, filter, recs), Columns(d, texts, filter, recs + [r]);
            var expected := AddRecord(texts, filter, before, d.byNumber[r.number].name, r.raw);
            Agree(after, expected, s)
  {
    OwnSnoc(recs, r, d.byName[s].number);
    assert s == d.byNumber[r.number].name <==> d.byName[s].number == r.number;
    if d.byName[s].number == r.number && Own(recs, r.number) == [] {
      assert Raw(Own(recs, r.number)) + r.raw == r.raw;
    }
  }

  /** What one more record does to the columns. */
  lemma ColumnsSnoc(d: Descriptor, texts: map<Text, Text>, filter: Filter, recs: seq<Record>, r: Record)
    requires d.WellFormed() && r.number in d.byNumber
    ensures Columns(d, texts, filter, recs + [r])
         == AddRecord(texts, filter, Columns(d, texts, filter, recs), d.byNumber[r.number].name, r.raw)
  {
    var before, after := Columns(d, texts, filter, recs), Columns(d, texts, filter, recs + [r]);
    var expected := AddRecord(texts, filter, before, d.byNumber[r.number].name, r.raw);
    forall s | s in d.byName.Keys ensures Agree(after, expected, s) {
      ColumnSnoc(d, texts, filter, recs, r, s);
    }
    AgreeAll(after, expected, d.byName.Keys);
  }

  /** The records of each field stand next to each other. */
  ghost predicate Contiguous(recs: seq<Record>) {
    forall i, j, k :: 0 <= i < j < k < |recs| && recs[i].number == recs[k].number ==> recs[j].number == recs[i].number
  }

  lemma ContiguousFront(head: seq<Record>, tail: seq<Record>, number: nat)
    requires Contiguous(tail) && forall i :: 0 <= i < |head| ==> head[i].number == number
    requires forall i :: 0 <= i < |tail| ==> tail[i].number != number
    ensures Contiguous(head + tail)
  {
  }

  lemma {:induction false} MarshalContiguous(d: Descriptor, m: Message, order: seq<nat>)
    requires ValidMessage(d, m) && NoRepeats(order)
    requires forall n :: n in order ==> n in m
    ensures Contiguous(MarshalRecords(d, m, order))
  {
    if order != [] {
      MarshalContiguous(d, m, order[1..]);
      MarshalRecordsReadable(d, m, order[1..]);
      var head, tail := FieldRecords(d.byNumber[order[0]], m[order[0]]), MarshalRecords(d, m, order[1..]);
      assert forall i :: 0 <= i < |head| ==> head[i].number == order[0];
      assert forall i :: 0 <= i < |tail| ==> tail[i].number in order[1..];
      ContiguousFront(head, tail, order[0]);
    }
  }

  // ---------------------------------------------------------------- Go slices

  /** A byte slice: a window of a backing array, whose capacity reaches to the end of that array. */
  datatype Slice = Slice(arr: array<byte>, off: nat, len: nat) {
    ghost predicate Valid() { off + len <= arr.Length }
  }

  /** append(s, x...): in place when the capacity allows it, otherwise on a fresh array of any larger size. */
  method Append(s: Slice, x: seq<byte>) returns (r: Slice)
    requires s.Valid()
    modifies s.arr
    ensures r.Valid()
    ensures r.arr[r.off..r.off + r.len] == old(s.arr[s.off..s.off + s.len]) + x
    ensures var end := s.off + s.len;
            if end + |x| <= s.arr.Length then
              && r == Slice(s.arr, s.off, s.len + |x|)
              && s.arr[..] == old(s.arr[..end]) + x + old(s.arr[end + |x|..])
            else
              fresh(r.arr) && s.arr[..] == old(s.arr[..])
  {
    var end := s.off + s.len;
    if end + |x| <= s.arr.Length {
      forall i | 0 <= i < |x| {
        s.arr[end + i] := x[i];
      }
      r := Slice(s.arr, s.off, s.len + |x|);
    } else {
      var spare :| 0 <= spare;
      var content := s.arr[s.off..end] + x;
      var a := new byte[|content| + spare](i => 0);
      forall i | 0 <= i < |content| {
        a[i] := content[i];
      }
      r := Slice(a, 0, |content|);
      assert a[0..|content|] == content;
    }
  }

  // ---------------------------------------------------------------- DirtyFilter

  /** strings.Index for a one-byte pattern. */
  function IndexByte(t: Text, c: byte): (r: Option<nat>)
    ensures r.Some? ==> r.value < |t| && t[r.value] == c && c !in t[..r.value]
    ensures r.None? ==> c !in t
  {
    if t == [] then None
    else if t[0] == c then Some(0)
    else
      match IndexByte(t[1..], c)
      case None => None
      case Some(i) => assert t[..i + 1] == [t[0]] + t[1..][..i]; Some(i + 1)
  }

  /** The top-level field a dirty path names. */
  function TopName(d: Descriptor, path: Text): (r: Option<Text>) {
    if path in d.byName then Some(path)
    else
      match IndexByte(path, DOT)
      case None => None
      case Some(i) => if path[..i] in d.byName then Some(path[..i]) else None
  }

  function FilterOf(d: Descriptor, fields: seq<Text>): (f: Filter) {
    if fields == [] then None
    else Some(set i | 0 <= i < |fields| && TopName(d, fields[i]).Some? :: TopName(d, fields[i]).value)
  }

  /** path is the known field `name` itself, or an unknown path whose part before its first dot is `name`. */
  ghost predicate Names(d: Descriptor, path: Text, name: Text) {
    && name in d.byName
    && (path == name || (path !in d.byName && DOT !in name && name + [DOT] <= path))
  }

  /** A non-empty field list selects exactly the fields that one of its paths names. */
  lemma FilterSelects(d: Descriptor, fields: seq<Text>, name: Text)
    requires fields != []
    ensures Selected(FilterOf(d, fields), name) <==> exists i :: 0 <= i < |fields| && Names(d, fields[i], name)
  {
    forall i | 0 <= i < |fields| ensures TopName(d, fields[i]) == Some(name) <==> Names(d, fields[i], name) {
      TopNameMeaning(d, fields[i], name);
    }
    if Selected(FilterOf(d, fields), name) {
      var i :| 0 <= i < |fields| && TopName(d, fields[i]) == Some(name);
    }
  }

  lemma TopNameMeaning(d: Descriptor, path: Text, name: Text)
    ensures TopName(d, path) == Some(name) <==> Names(d, path, name)
  {
    if path !in d.byName && DOT !in name && name + [DOT] <= path {
      assert path[|name|] == DOT && path[..|name|] == name;
      var i := IndexByte(path, DOT).value;
      assert forall k :: 0 <= k < |name| ==> path[k] == name[k] && name[k] != DOT;
      assert forall k :: 0 <= k < i ==> path[k] == path[..i][k] && path[k] != DOT;
    }
    if path !in d.byName && TopName(d, path) == Some(name) {
      var i := IndexByte(path, DOT).value;
      assert name + [DOT] == path[..i + 1];
    }
  }

  method DirtyFilter(d: Descriptor, fields: seq<Text>) returns (f: Filter)
    ensures f == FilterOf(d, fields)
  {
    if |fields| == 0 {
      return None;
    }
    var ret: set<Text> := {};
    for i := 0 to |fields|
      invariant ret == set j | 0 <= j < i && TopName(d, fields[j]).Some? :: TopName(d, fields[j]).value
    {
      var key := fields[i];
      if key !in d.byName {
        var ir := IndexByte(key, DOT);
        if ir.None? {
          continue;
        }
        key := key[..ir.value];
        if key !in d.byName {
          continue;
        }
      }
      ret := ret + {key};
    }
    f := Some(ret);
  }

  // ---------------------------------------------------------------- MarshalToMap

  /** The scalar texts of the fields not in todo. */
  ghost function TextsBut(d: Descriptor, m: Message, todo: set<nat>): (texts: map<Text, Text>)
    requires ValidMessage(d, m)
  {
    map name | name in ScalarTexts(d, m) && d.byName[name].number !in todo :: ScalarTexts(d, m)[name]
  }

  lemma RangeEnds(d: Descriptor, m: Message)
    requires ValidMessage(d, m)
    ensures TextsBut(d, m, m.Keys) == map[] && TextsBut(d, m, {}) == ScalarTexts(d, m)
  {
  }

  lemma RangeStep(d: Descriptor, m: Message, todo: set<nat>, n: nat)
    requires ValidMessage(d, m) && n in todo && n in m
    ensures var f, before := d.byNumber[n], TextsBut(d, m, todo);
            TextsBut(d, m, todo - {n})
            == if IsFdMarshalToBlob(f) then before else before[f.name := MarshalScalar(f.kind, m[n])]
  {
    var f := d.byNumber[n];
    forall name | name in d.byName ensures d.byName[name].number == n <==> name == f.name {
    }
  }

  /** rf.Range over the populated fields, in any order, collecting the scalar texts. */
  method RangeScalars(d: Descriptor, m: Message) returns (texts: map<Text, Text>)
    requires ValidMessage(d, m)
    ensures texts == ScalarTexts(d, m)
  {
    texts := map[];
    var todo := m.Keys;
    RangeEnds(d, m);
    while todo != {}
      invariant todo <= m.Keys && texts == TextsBut(d, m, todo)
      decreases |todo|
    {
      var n :| n in todo;
      RangeStep(d, m, todo, n);
      todo := todo - {n};
      var f := d.byNumber[n];
      if !IsFdMarshalToBlob(f) {
        texts := texts[f.name := MarshalScalar(f.kind, m[n])];
      }
    }
  }

  /** A wireMap entry: the dynamic type is string or []byte. */
  datatype GoColumn = GoText(t: Text) | GoBytes(s: Slice)

  datatype GoResult = GoOk(wire: map<Text, GoColumn>) | GoErr(error: SplitError)

  ghost predicate ColumnOn(c: GoColumn, buf: array<byte>, n: nat) {
    c.GoBytes? ==> c.s.arr == buf && c.s.off + c.s.len <= n
  }

  ghost predicate OnBuffer(wire: map<Text, GoColumn>, buf: array<byte>, n: nat) {
    forall name :: name in wire ==> ColumnOn(wire[name], buf, n)
  }

  ghost function ViewOf(c: GoColumn, buf: array<byte>, b: seq<byte>): (v: Column)
    requires ColumnOn(c, buf, |b|)
  {
    match c
    case GoText(t) => TextColumn(t)
    case GoBytes(s) => BlobColumn(b[s.off..s.off + s.len])
  }

  /** The columns that wire denotes when its slices look at the bytes b. */
  ghost function View(wire: map<Text, GoColumn>, buf: array<byte>, b: seq<byte>): (c: map<Text, Column>)
    requires OnBuffer(wire, buf, |b|)
  {
    map name | name in wire :: ViewOf(wire[name], buf, b)
  }

  /** A blob column of the last record's field ends at cur. */
  ghost predicate EndsAt(d: Descriptor, wire: map<Text, GoColumn>, seen: seq<Record>, cur: nat) {
    forall name :: name in wire && wire[name].GoBytes? ==>
      && name in d.byName && seen != []
      && (d.byName[name].number == seen[|seen| - 1].number ==> wire[name].s.off + wire[name].s.len == cur)
  }

  /** The state of the scan after the records `seen`, which end at cur. */
  ghost predicate Scanned(d: Descriptor, texts: map<Text, Text>, filter: Filter, wire: map<Text, GoColumn>,
                          buf: array<byte>, b: seq<byte>, seen: seq<Record>, cur: nat)
  {
    && cur <= |b| && AllKnown(d, seen) && OnBuffer(wire, buf, cur) && EndsAt(d, wire, seen, cur)
    && View(wire, buf, b) == Columns(d, texts, filter, seen)
  }

  lemma ScannedStart(d: Descriptor, texts: map<Text, Text>, filter: Filter, buf: array<byte>, b: seq<byte>)
    ensures Scanned(d, texts, filter, map[], buf, b, [], 0) && Remaining(b, [], 0)
  {
    assert b[0..] == b && Parse(b).0 == [] + Parse(b).0;
  }

  lemma ContiguousLast(all: seq<Record>, seen: seq<Record>, number: nat)
    requires Contiguous(all) && Own(seen, number) != []
    requires seen <= all && |seen| < |all| && all[|seen|].number == number
    ensures seen != [] && seen[|seen| - 1].number == number
  {
    OwnEmpty(seen, number);
    var i :| 0 <= i < |seen| && seen[i].number == number;
    assert all[i] == seen[i] && all[|seen| - 1] == seen[|seen| - 1];
  }

  /** The records of b are `seen`, followed by those from cur on. */
  ghost predicate Remaining(b: seq<byte>, seen: seq<Record>, cur: nat)
    requires cur <= |b|
  {
    Parse(b) == (seen + Parse(b[cur..]).0, Parse(b[cur..]).1)
  }

  lemma ParseFirst(b: seq<byte>, number: nat, size: nat)
    requires b != [] && ConsumeField(b) == Some((number, size))
    ensures Parse(b) == ([Record(number, b[..size])] + Parse(b[size..]).0, Parse(b[size..]).1)
  {
  }

  lemma ParseAt(b: seq<byte>, cur: nat, number: nat, size: nat, next: nat)
    requires cur < next == cur + size <= |b| && ConsumeField(b[cur..]) == Some((number, size))
    ensures Parse(b[cur..]) == ([Record(number, b[cur..next])] + Parse(b[next..]).0, Parse(b[next..]).1)
  {
    ParseFirst(b[cur..], number, size);
    assert b[cur..][size..] == b[next..] && b[cur..][..size] == b[cur..next];
  }

  lemma RemainingStep(b: seq<byte>, seen: seq<Record>, cur: nat, number: nat, size: nat, next: nat)
    requires cur < next == cur + size <= |b| && Remaining(b, seen, cur)
    requires ConsumeField(b[cur..]) == Some((number, size))
    ensures Remaining(b, seen + [Record(number, b[cur..next])], next)
    ensures seen <= Parse(b).0 && |seen| < |Parse(b).0| && Parse(b).0[|seen|].number == number
  {
    ParseAt(b, cur, number, size, next);
    Assoc(seen, [Record(number, b[cur..next])], Parse(b[next..]).0);
  }

  lemma SplitFails(d: Descriptor, texts: map<Text, Text>, filter: Filter, b: seq<byte>, seen: seq<Record>, cur: nat)
    requires cur < |b| && Remaining(b, seen, cur) && AllKnown(d, seen) && ConsumeField(b[cur..]).None?
    ensures SplitSpec(d, texts, filter, b) == Err(BadWire)
  {
    assert seen + [] == seen;
    FirstUnknownNone(d, seen);
  }

  lemma SplitUnknown(d: Descriptor, texts: map<Text, Text>, filter: Filter, b: seq<byte>, seen: seq<Record>,
                     number: nat)
    requires AllKnown(d, seen) && number !in d.byNumber
    requires seen <= Parse(b).0 && |seen| < |Parse(b).0| && Parse(b).0[|seen|].number == number
    ensures SplitSpec(d, texts, filter, b) == Err(UnknownField(number))
  {
    var recs := Parse(b).0;
    assert recs == seen + recs[|seen|..];
    FirstUnknownAppend(d, seen, recs[|seen|..]);
  }

  lemma SplitEnds(d: Descriptor, texts: map<Text, Text>, filter: Filter, b: seq<byte>, seen: seq<Record>)
    requires Remaining(b, seen, |b|) && AllKnown(d, seen)
    ensures SplitSpec(d, texts, filter, b) == Ok(Columns(d, texts, filter, seen))
  {
    assert b[|b|..] == [] && seen + [] == seen;
    FirstUnknownNone(d, seen);
  }

  /** Appending to a slice the bytes right behind it copies them onto themselves. */
  method SelfAppend(s: Slice, cur: nat, next: nat) returns (r: Slice)
    requires s.Valid() && s.off + s.len == cur <= next <= s.arr.Length
    modifies s.arr
    ensures r == Slice(s.arr, s.off, next - s.off)
    ensures s.arr[..] == old(s.arr[..])
  {
    r := Append(s, s.arr[cur..next]);
  }

  /** The entry of the current record's column when it is grown in place. */
  ghost function Grown(texts: map<Text, Text>, wire: map<Text, GoColumn>, name: Text, buf: array<byte>, cur: nat,
                       next: nat): (c: GoColumn)
    requires cur <= next && (name in wire && wire[name].GoBytes? ==> wire[name].s.off <= next)
  {
    if name in texts then GoText(texts[name])
    else if name in wire && wire[name].GoBytes? then GoBytes(Slice(buf, wire[name].s.off, next - wire[name].s.off))
    else GoBytes(Slice(buf, cur, next - cur))
  }

  lemma ViewOfGrown(texts: map<Text, Text>, filter: Filter, wire: map<Text, GoColumn>, name: Text,
                    buf: array<byte>, b: seq<byte>, cur: nat, next: nat)
    requires cur <= next <= |b| && OnBuffer(wire, buf, cur) && Selected(filter, name)
    requires name in wire && name !in texts ==> wire[name].GoBytes? && wire[name].s.off + wire[name].s.len == cur
    ensures var c := Grown(texts, wire, name, buf, cur, next);
            && ColumnOn(c, buf, next)
            && View(wire[name := c], buf, b) == AddRecord(texts, filter, View(wire, buf, b), name, b[cur..next])
  {
    var c := Grown(texts, wire, name, buf, cur, next);
    if name !in texts && name in wire {
      var off := wire[name].s.off;
      assert b[off..off + (next - off)] == b[off..cur] + b[cur..next];
    }
    assert View(wire[name := c], buf, b) == View(wire, buf, b)[name := ViewOf(c, buf, b)];
  }

  lemma ScannedSkip(d: Descriptor, texts: map<Text, Text>, filter: Filter, wire: map<Text, GoColumn>,
                    buf: array<byte>, b: seq<byte>, seen: seq<Record>, cur: nat, number: nat, next: nat)
    requires d.WellFormed() && number in d.byNumber && cur <= next <= |b|
    requires Scanned(d, texts, filter, wire, buf, b, seen, cur)
    requires !Selected(filter, d.byNumber[number].name)
    ensures Scanned(d, texts, filter, wire, buf, b, seen + [Record(number, b[cur..next])], next)
  {
    ColumnsSnoc(d, texts, filter, seen, Record(number, b[cur..next]));
    assert forall k :: k in wire ==> k in View(wire, buf, b);
  }

  /** The current record's column, if it exists, ends where the record starts. */
  lemma ColumnEnd(d: Descriptor, texts: map<Text, Text>, filter: Filter, wire: map<Text, GoColumn>,
                  buf: array<byte>, b: seq<byte>, seen: seq<Record>, cur: nat, number: nat)
    requires d.WellFormed() && number in d.byNumber
    requires Scanned(d, texts, filter, wire, buf, b, seen, cur)
    requires Own(seen, number) != [] ==> seen != [] && seen[|seen| - 1].number == number
    ensures var name := d.byNumber[number].name;
            name in wire && name !in texts ==> wire[name].GoBytes? && wire[name].s.off + wire[name].s.len == cur
  {
    var name := d.byNumber[number].name;
    if name in wire && name !in texts {
      assert name in View(wire, buf, b) && View(wire, buf, b)[name] == ColumnOf(texts, name, Own(seen, number));
    }
  }

  lemma EndsAtPut(d: Descriptor, wire: map<Text, GoColumn>, seen: seq<Record>, cur: nat, r: Record, next: nat,
                  c: GoColumn)
    requires d.WellFormed() && r.number in d.byNumber && EndsAt(d, wire, seen, cur)
    requires c.GoBytes? ==> c.s.off + c.s.len == next
    ensures EndsAt(d, wire[d.byNumber[r.number].name := c], seen + [r], next)
  {
    var name := d.byNumber[r.number].name;
    assert forall k :: k in d.byName && k != name ==> d.byName[k].number != r.number;
  }

  lemma ScannedPut(d: Descriptor, texts: map<Text, Text>, filter: Filter, wire: map<Text, GoColumn>,
                   buf: array<byte>, b: seq<byte>, seen: seq<Record>, cur: nat, number: nat, next: nat)
    requires d.WellFormed() && number in d.byNumber && cur <= next <= |b|
    requires Scanned(d, texts, filter, wire, buf, b, seen, cur)
    requires Selected(filter, d.byNumber[number].name)
    requires Own(seen, number) != [] ==> seen != [] && seen[|seen| - 1].number == number
    ensures var name := d.byNumber[number].name;
            Scanned(d, texts, filter, wire[name := Grown(texts, wire, name, buf, cur, next)], buf, b,
                    seen + [Record(number, b[cur..next])], next)
  {
    var name := d.byNumber[number].name;
    ColumnsSnoc(d, texts, filter, seen, Record(number, b[cur..next]));
    ColumnEnd(d, texts, filter, wire, buf, b, seen, cur, number);
    ViewOfGrown(texts, filter, wire, name, buf, b, cur, next);
    EndsAtPut(d, wire, seen, cur, Record(number, b[cur..next]), next, Grown(texts, wire, name, buf, cur, next));
    assert OnBuffer(wire[name := Grown(texts, wire, name, buf, cur, next)], buf, next);
  }

  /** The body of the scan for one known record. */
  method PutRecord(d: Descriptor, texts: map<Text, Text>, filter: Filter, wire: map<Text, GoColumn>, number: nat,
                   buf: array<byte>, cur: nat, next: nat, ghost b: seq<byte>, ghost seen: seq<Record>)
    returns (after: map<Text, GoColumn>)
    requires d.WellFormed() && number in d.byNumber
    requires |b| <= buf.Length && cur <= next <= |b|
    requires Scanned(d, texts, filter, wire, buf, b, seen, cur)
    requires Own(seen, number) != [] ==> seen != [] && seen[|seen| - 1].number == number
    modifies buf
    ensures buf[..] == old(buf[..])
    ensures Scanned(d, texts, filter, after, buf, b, seen + [Record(number, b[cur..next])], next)
  {
    var name := d.byNumber[number].name;
    if filter.Some? && name !in filter.value {
      ScannedSkip(d, texts, filter, wire, buf, b, seen, cur, number, next);
      return wire;
    }
    ColumnEnd(d, texts, filter, wire, buf, b, seen, cur, number);
    ScannedPut(d, texts, filter, wire, buf, b, seen, cur, number, next);
    var entry := GrowColumn(texts, wire, name, buf, cur, next);
    after := wire[name := entry];
  }

  /** The entry of the current record's field: its text, a new slice, or the old slice with the record appended. */
  method GrowColumn(texts: map<Text, Text>, wire: map<Text, GoColumn>, name: Text, buf: array<byte>, cur: nat,
                    next: nat)
    returns (entry: GoColumn)
    requires cur <= next <= buf.Length
    requires name in wire && name !in texts ==>
               wire[name].GoBytes? && wire[name].s.arr == buf && wire[name].s.off + wire[name].s.len == cur
    requires name in wire && wire[name].GoBytes? ==> wire[name].s.off <= next
    modifies buf
    ensures buf[..] == old(buf[..]) && entry == Grown(texts, wire, name, buf, cur, next)
  {
    if name in texts {
      entry := GoText(texts[name]);
    } else if name !in wire {
      entry := GoBytes(Slice(buf, cur, next - cur));
    } else {
      var grown := SelfAppend(wire[name].s, cur, next);
      entry := GoBytes(grown);
    }
  }

  /** Every text column holds the text of its field's value: "1" or "0", canonical decimal digits behind an
      optional minus, or the string. */
  ghost predicate TextsHold(d: Descriptor, m: Message, wire: map<Text, GoColumn>) {
    forall name :: name in wire && wire[name].GoText? ==>
      name in d.byName && d.byName[name].number in m && ScalarText(m[d.byName[name].number], wire[name].t)
  }

  lemma TextsAreColumns(d: Descriptor, m: Message, filter: Filter, wire: map<Text, GoColumn>, buf: array<byte>,
                        b: seq<byte>, seen: seq<Record>)
    requires ValidMessage(d, m) && OnBuffer(wire, buf, |b|)
    requires View(wire, buf, b) == Columns(d, ScalarTexts(d, m), filter, seen)
    ensures TextsHold(d, m, wire)
  {
    forall name | name in wire && wire[name].GoText?
      ensures name in d.byName && d.byName[name].number in m && ScalarText(m[d.byName[name].number], wire[name].t)
    {
      assert View(wire, buf, b)[name] == TextColumn(wire[name].t);
      var f := d.byName[name];
      MarshalScalarText(f.kind, m[f.number], wire[name].t);
    }
  }

  /** The scan of the marshalled bytes buf[..n]. Every append lands on the bytes it copies: the buffer is
      unchanged, no column ever moves off it, and the slices spell the specified columns. */
  method MarshalToMap(d: Descriptor, m: Message, fields: seq<Text>, buf: array<byte>, n: nat) returns (r: GoResult)
    requires ValidMessage(d, m)
    requires n <= buf.Length && n < 0x8000_0000
    requires Contiguous(Parse(buf[..n]).0)
    modifies buf
    ensures buf[..] == old(buf[..])
    ensures var spec := SplitSpec(d, ScalarTexts(d, m), FilterOf(d, fields), buf[..n]);
            match r
            case GoErr(e) => spec == Err(e)
            case GoOk(wire) => OnBuffer(wire, buf, n) && spec == Ok(View(wire, buf, buf[..n]))
    ensures r.GoOk? ==> TextsHold(d, m, r.wire)
  {
    var texts := RangeScalars(d, m);
    var fdFilter := DirtyFilter(d, fields);
    var wire: map<Text, GoColumn> := map[];
    var cur: nat := 0;
    ghost var b, seen := buf[..n], [];
    ScannedStart(d, texts, fdFilter, buf, b);
    while cur < n
      invariant cur <= n && buf[..] == old(buf[..]) && buf[..n] == b
      invariant Remaining(b, seen, cur)
      invariant Scanned(d, texts, fdFilter, wire, buf, b, seen, cur)
      decreases n - cur
    {
      assert buf[cur..n] == b[cur..];
      var field := ConsumeField(buf[cur..n]);
      if field.None? {
        SplitFails(d, texts, fdFilter, b, seen, cur);
        return GoErr(BadWire);
      }
      var number, size := field.value.0, field.value.1;
      var next := cur + size;
      RemainingStep(b, seen, cur, number, size, next);
      if number !in d.byNumber {
        SplitUnknown(d, texts, fdFilter, b, seen, number);
        return GoErr(UnknownField(number));
      }
      if Own(seen, number) != [] {
        ContiguousLast(Parse(b).0, seen, number);
      }
      wire := PutRecord(d, texts, fdFilter, wire, number, buf, cur, next, b, seen);
      seen := seen + [Record(number, b[cur..next])];
      cur := next;
    }
    SplitEnds(d, texts, fdFilter, b, seen);
    TextsAreColumns(d, m, fdFilter, wire, buf, b, seen);
    r := GoOk(wire);
  }

  // ---------------------------------------------------------------- what the columns are

  function FieldColumn(f: Field, v: Value): (c: Column)
    requires FieldHolds(f, v)
  {
    if IsFdMarshalToBlob(f) then BlobColumn(Raw(v.recs)) else TextColumn(MarshalScalar(f.kind, v))
  }

  /** One column per populated and selected field, computed from the message alone. */
  function ColumnsOf(d: Descriptor, m: Message, filter: Filter): (c: map<Text, Column>)
    requires ValidMessage(d, m)
  {
    map name | name in d.byName && d.byName[name].number in m && Selected(filter, name)
      :: FieldColumn(d.byName[name], m[d.byName[name].number])
  }

  /** The records give the field `name` the column its value calls for. */
  ghost predicate ColumnMatches(d: Descriptor, m: Message, texts: map<Text, Text>, recs: seq<Record>, name: Text)
    requires ValidMessage(d, m) && name in d.byName
  {
    var n := d.byName[name].number;
    && (Own(recs, n) != [] <==> n in m)
    && (n in m ==> ColumnOf(texts, name, Own(recs, n)) == FieldColumn(d.byName[name], m[n]))
  }

  lemma ColumnsMatch(d: Descriptor, m: Message, texts: map<Text, Text>, recs: seq<Record>, filter: Filter)
    requires ValidMessage(d, m)
    requires forall name :: name in d.byName ==> ColumnMatches(d, m, texts, recs, name)
    ensures Columns(d, texts, filter, recs) == ColumnsOf(d, m, filter)
  {
    forall name | name in d.byName.Keys ensures Agree(Columns(d, texts, filter, recs), ColumnsOf(d, m, filter), name) {
      assert ColumnMatches(d, m, texts, recs, name);
    }
    AgreeAll(Columns(d, texts, filter, recs), ColumnsOf(d, m, filter), d.byName.Keys);
  }

  lemma ColumnsOfMarshal(d: Descriptor, m: Message, order: seq<nat>, filter: Filter)
    requires ValidMessage(d, m) && IsOrder(order, m.Keys)
    ensures Columns(d, ScalarTexts(d, m), filter, MarshalRecords(d, m, order)) == ColumnsOf(d, m, filter)
  {
    var recs, texts := MarshalRecords(d, m, order), ScalarTexts(d, m);
    forall name | name in d.byName ensures ColumnMatches(d, m, texts, recs, name) {
      MarshalRecordsOwn(d, m, order, d.byName[name].number);
    }
    ColumnsMatch(d, m, texts, recs, filter);
  }

  /** Splitting the serialized message gives exactly the columns of its populated, selected fields,
      whatever order the serializer visits the fields in. */
  lemma SplitOfMarshal(d: Descriptor, m: Message, order: seq<nat>, filter: Filter)
    requires ValidMessage(d, m) && IsOrder(order, m.Keys)
    ensures SplitSpec(d, ScalarTexts(d, m), filter, Raw(MarshalRecords(d, m, order))) == Ok(ColumnsOf(d, m, filter))
  {
    var recs := MarshalRecords(d, m, order);
    MarshalRecordsReadable(d, m, order);
    ParseRaw(recs);
    assert AllKnown(d, recs) by {
      assert forall i :: 0 <= i < |recs| ==> recs[i] in recs;
    }
    FirstUnknownNone(d, recs);
    ColumnsOfMarshal(d, m, order, filter);
  }

  // ---------------------------------------------------------------- columns and errors, said outright

  /** What the column of a populated field holds, by the field's kind: the field's own records in order for a
      repeated, bytes or message field; otherwise text. */
  predicate ColumnHolds(f: Field, v: Value, c: Column) {
    if f.repeated || f.kind.BytesKind? || f.kind.MessageKind? then v.RecordsValue? && c == BlobColumn(Raw(v.recs))
    else c.TextColumn? && ScalarText(v, c.t)
  }

  /** The columns of a message: one for each populated and selected field, which holds what its kind calls for. */
  lemma ColumnsHold(d: Descriptor, m: Message, filter: Filter, name: Text)
    requires ValidMessage(d, m)
    ensures var c := ColumnsOf(d, m, filter);
            && (name in c <==> name in d.byName && d.byName[name].number in m && Selected(filter, name))
            && (name in c ==> ColumnHolds(d.byName[name], m[d.byName[name].number], c[name]))
  {
    if name in ColumnsOf(d, m, filter) {
      var f := d.byName[name];
      var v := m[f.number];
      if !IsFdMarshalToBlob(f) {
        MarshalScalarText(f.kind, v, MarshalScalar(f.kind, v));
      }
    }
  }

  /** The length-delimited record of a payload. */
  function PayloadRecord(number: nat, payload: seq<byte>): (r: Record) {
    Record(number, AppendVarint(8 * number + 2) + (AppendVarint(|payload|) + payload))
  }

  lemma PayloadIsRecord(number: nat, payload: seq<byte>)
    requires 0 < number <= MAX_TAG_NUMBER && |payload| < U32
    ensures IsRecord(PayloadRecord(number, payload))
  {
    var value := AppendVarint(|payload|) + payload;
    AppendedVarintIsValue(|payload|);
    ConsumeVarintPrefix(AppendVarint(|payload|), payload);
    ValueIs(value, |payload|, |AppendVarint(|payload|)|);
    TaggedIsRecord(number, BYTES, value);
  }

  /** Any payload can stand in a singular bytes or message field, and the column of that field is its record. */
  lemma PayloadColumn(f: Field, payload: seq<byte>)
    requires 0 < f.number <= MAX_TAG_NUMBER && !f.repeated && (f.kind == BytesKind || f.kind == MessageKind)
    requires |payload| < U32
    ensures var r := PayloadRecord(f.number, payload);
            FieldHolds(f, RecordsValue([r])) && FieldColumn(f, RecordsValue([r])) == BlobColumn(r.raw)
  {
    var r := PayloadRecord(f.number, payload);
    PayloadIsRecord(f.number, payload);
    SingleRaw(r);
  }

  lemma SingleRaw(r: Record)
    ensures Raw([r]) == r.raw
  {
    assert Raw([r]) == r.raw + Raw([]);
  }

  /** A record of an unknown field stops the split with its number, whatever follows it. */
  lemma SplitStops(d: Descriptor, texts: map<Text, Text>, filter: Filter, known: seq<Record>, r: Record,
                   tail: seq<byte>)
    requires AllRecords(known) && IsRecord(r) && AllKnown(d, known) && r.number !in d.byNumber
    ensures SplitSpec(d, texts, filter, Raw(known) + (r.raw + tail)) == Err(UnknownField(r.number))
  {
    ConsumeFieldPrefix(r.raw, tail);
    ParseOne(r, tail);
    ParseFront(known, r.raw + tail);
    FirstUnknownAppend(d, known, [r] + Parse(tail).0);
  }

  /** Bytes from which no record can be read stop the split with a wire error, behind any known records. */
  lemma SplitBreaks(d: Descriptor, texts: map<Text, Text>, filter: Filter, known: seq<Record>, tail: seq<byte>)
    requires AllRecords(known) && AllKnown(d, known) && tail != [] && ConsumeField(tail).None?
    ensures SplitSpec(d, texts, filter, Raw(known) + tail) == Err(BadWire)
  {
    ParseFront(known, tail);
    FirstUnknownNone(d, known);
    assert known + [] == known;
  }

  /** Otherwise the split succeeds: any bytes are known records and nothing, or one of the two cases above. */
  lemma SplitSucceeds(d: Descriptor, texts: map<Text, Text>, filter: Filter, known: seq<Record>)
    requires AllRecords(known) && AllKnown(d, known)
    ensures SplitSpec(d, texts, filter, Raw(known)) == Ok(Columns(d, texts, filter, known))
  {
    ParseRaw(known);
    FirstUnknownNone(d, known);
  }

  /** A serialized message cut off inside a record is a wire error. */
  lemma SplitTruncated(d: Descriptor, texts: map<Text, Text>, filter: Filter, known: seq<Record>, r: Record, k: nat)
    requires AllRecords(known) && IsRecord(r) && AllKnown(d, known) && 0 < k < |r.raw|
    ensures SplitSpec(d, texts, filter, Raw(known) + r.raw[..k]) == Err(BadWire)
  {
    TruncatedFails(r, k);
    SplitBreaks(d, texts, filter, known, r.raw[..k]);
  }

  function Restrict(c: map<Text, Column>, filter: Filter): (r: map<Text, Column>) {
    map name | name in c && Selected(filter, name) :: c[name]
  }

  /** Field selection is restriction of the full split, on every byte string: errors are the same,
      and the columns are those of the full split that the field list names. */
  lemma SelectionIsRestriction(d: Descriptor, texts: map<Text, Text>, fields: seq<Text>, b: seq<byte>)
    ensures SplitSpec(d, texts, FilterOf(d, fields), b)
         == match SplitSpec(d, texts, None, b)
            case Err(e) => Err(e)
            case Ok(all) => Ok(Restrict(all, FilterOf(d, fields)))
    ensures fields == [] ==> SplitSpec(d, texts, FilterOf(d, fields), b) == SplitSpec(d, texts, None, b)
    ensures fields != [] && (forall i, name :: 0 <= i < |fields| ==> !Names(d, fields[i], name)) ==>
            SplitSpec(d, texts, FilterOf(d, fields), b).Err? || SplitSpec(d, texts, FilterOf(d, fields), b) == Ok(map[])
  {
    var recs := Parse(b).0;
    assert Columns(d, texts, FilterOf(d, fields), recs) == Restrict(Columns(d, texts, None, recs), FilterOf(d, fields));
    if fields != [] {
      forall name
        ensures Selected(FilterOf(d, fields), name) <==> exists i :: 0 <= i < |fields| && Names(d, fields[i], name)
      {
        FilterSelects(d, fields, name);
      }
    }
  }

  /** The two splits of the code itself, with and without the field list: the same error, or the columns of the
      full split that the field list names. Both results look at the one buffer. */
  method SplitTwice(d: Descriptor, m: Message, fields: seq<Text>, buf: array<byte>, n: nat)
    returns (full: GoResult, selected: GoResult)
    requires ValidMessage(d, m)
    requires n <= buf.Length && n < 0x8000_0000
    requires Contiguous(Parse(buf[..n]).0)
    modifies buf
    ensures buf[..] == old(buf[..])
    ensures match full
            case GoErr(e) => selected == GoErr(e)
            case GoOk(wire) =>
              && selected.GoOk? && OnBuffer(wire, buf, n) && OnBuffer(selected.wire, buf, n)
              && View(selected.wire, buf, buf[..n]) == Restrict(View(wire, buf, buf[..n]), FilterOf(d, fields))
  {
    ghost var b := buf[..n];
    full := MarshalToMap(d, m, [], buf, n);
    assert buf[..n] == b;
    selected := MarshalToMap(d, m, fields, buf, n);
    assert buf[..n] == b;
    SelectionIsRestriction(d, ScalarTexts(d, m), fields, b);
  }
}
