/** UnmarshalFromMap of plugin/db/pbsupport, and the round trip through MarshalToMap. */
module PbMerge {
  import opened GoBase
  import opened Wire
  import opened PbRecord
  import opened PbSplit

  const UNDERSCORE: byte := 95

  predicate Hidden(name: Text) { name != [] && name[0] == UNDERSCORE }

  /** rf.Set: a field without presence tracking is unpopulated by its zero value. */
  function SetField(m: Message, f: Field, v: Value): (after: Message) {
    if !f.explicit && IsZero(v) then m - {f.number} else m[f.number := v]
  }

  /** The merger while it walks over the columns. The error of unmarshalScalarByStr is not the one the
      code tests, so text that does not parse reaches rf.Set as an invalid value, which panics. */
  datatype Loading = Loading(msg: Message, buf: Text) | Panicked

  function LoadColumn(d: Descriptor, st: Loading, k: Text, s: Text): (after: Loading) {
    if st.Panicked? || Hidden(k) || k !in d.byName then st
    else if IsFdMarshalToBlob(d.byName[k]) then st.(buf := st.buf + s)
    else
      match UnmarshalScalarByStr(d.byName[k].kind, s)
      case None => Panicked
      case Some(v) => st.(msg := SetField(st.msg, d.byName[k], v))
  }

  function LoadAll(d: Descriptor, target: Message, cols: map<Text, Text>, order: seq<Text>): (st: Loading)
    requires forall k :: k in order ==> k in cols
  {
    if order == [] then Loading(target, [])
    else
      var k := order[|order| - 1];
      LoadColumn(d, LoadAll(d, target, cols, order[..|order| - 1]), k, cols[k])
  }

  /** Merging one record of a blob field, as the encoding specification has it: the last record of a singular
      bytes field wins, and other records add to what is held. */
  function MergeRecord(d: Descriptor, m: Message, r: Record): (after: Message) {
    if r.number !in d.byNumber || !IsFdMarshalToBlob(d.byNumber[r.number]) then m
    else if LastWins(d.byNumber[r.number]) then m[r.number := RecordsValue([r])]
    else
      var held := if r.number in m && m[r.number].RecordsValue? then m[r.number].recs else [];
      m[r.number := RecordsValue(held + [r])]
  }

  function MergeAll(d: Descriptor, m: Message, recs: seq<Record>): (after: Message)
    decreases |recs|
  {
    if recs == [] then m else MergeAll(d, MergeRecord(d, m, recs[0]), recs[1..])
  }

  datatype Outcome = Done(msg: Message) | WireError | Panic

  /** proto.Unmarshal with Merge, of the library: what it makes of a message and a buffer; None is its error. */
  type Library = (Message, Text) -> Option<Message>

  function UnmarshalIn(d: Descriptor, lib: Library, target: Message, cols: map<Text, Text>, order: seq<Text>):
    (r: Outcome)
    requires forall k :: k in order ==> k in cols
  {
    match LoadAll(d, target, cols, order)
    case Panicked => Panic
    case Loading(m, buf) => match lib(m, buf) case None => WireError case Some(after) => Done(after)
  }

  lemma Enumerate(keys: set<Text>) returns (order: seq<Text>)
    ensures IsOrder(order, keys)
  {
    if keys == {} {
      order := [];
    } else {
      var k :| k in keys;
      var rest := Enumerate(keys - {k});
      order := [k] + rest;
    }
  }

  lemma OrderConcat(a: seq<Text>, ka: set<Text>, b: seq<Text>, kb: set<Text>)
    requires IsOrder(a, ka) && IsOrder(b, kb) && ka !! kb
    ensures IsOrder(a + b, ka + kb)
  {
    forall i, j | 0 <= i < j < |a + b| ensures (a + b)[i] != (a + b)[j] {
      if i < |a| <= j {
        assert a[i] in a && b[j - |a|] in b;
      }
    }
  }

  lemma {:induction false} LoadStaysPanicked(d: Descriptor, target: Message, cols: map<Text, Text>, a: seq<Text>,
                                             b: seq<Text>)
    requires forall k :: k in a + b ==> k in cols
    requires forall k :: k in a ==> k in cols
    requires LoadAll(d, target, cols, a).Panicked?
    ensures LoadAll(d, target, cols, a + b).Panicked?
    decreases |b|
  {
    if b == [] {
      assert a + b == a;
    } else {
      var b' := b[..|b| - 1];
      assert (a + b)[..|a + b| - 1] == a + b';
      assert forall k :: k in a + b' ==> k in a + b;
      LoadStaysPanicked(d, target, cols, a, b');
    }
  }

  /** The body of the merge loop for one column. */
  method LoadOne(d: Descriptor, msg: Message, buf: Text, k: Text, s: Text) returns (r: Loading)
    ensures r == LoadColumn(d, Loading(msg, buf), k, s)
  {
    if Hidden(k) {
      return Loading(msg, buf);
    }
    if k !in d.byName {
      return Loading(msg, buf);
    }
    var fd := d.byName[k];
    if IsFdMarshalToBlob(fd) {
      return Loading(msg, buf + s);
    }
    var v := UnmarshalScalarByStr(fd.kind, s);
    if v.None? {
      return Panicked;
    }
    r := Loading(SetField(msg, fd, v.value), buf);
  }

  lemma OrderSnoc(order: seq<Text>, keys: set<Text>, k: Text)
    requires IsOrder(order, keys) && k !in keys
    ensures IsOrder(order + [k], keys + {k})
  {
    OrderConcat(order, keys, [k], {k});
  }

  lemma LoadAllSnoc(d: Descriptor, target: Message, cols: map<Text, Text>, order: seq<Text>, k: Text)
    requires (forall j :: j in order ==> j in cols) && k in cols
    ensures LoadAll(d, target, cols, order + [k]) == LoadColumn(d, LoadAll(d, target, cols, order), k, cols[k])
  {
    assert (order + [k])[..|order|] == order;
  }

  /** The columns not visited when a panic ended the loop, in some order. */
  lemma RestAfterPanic(d: Descriptor, target: Message, cols: map<Text, Text>, order: seq<Text>, todo: set<Text>)
    returns (all: seq<Text>)
    requires todo <= cols.Keys && IsOrder(order, cols.Keys - todo) && LoadAll(d, target, cols, order).Panicked?
    ensures IsOrder(all, cols.Keys) && LoadAll(d, target, cols, all).Panicked?
  {
    var rest := Enumerate(todo);
    OrderConcat(order, cols.Keys - todo, rest, todo);
    assert (cols.Keys - todo) + todo == cols.Keys;
    all := order + rest;
    LoadStaysPanicked(d, target, cols, order, rest);
  }

  /** The merge loop: Go may visit the columns in any order, and `order` is the one it took. */
  method UnmarshalFromMap(d: Descriptor, lib: Library, target: Message, cols: map<Text, Text>)
    returns (r: Outcome, ghost order: seq<Text>)
    ensures IsOrder(order, cols.Keys)
    ensures r == UnmarshalIn(d, lib, target, cols, order)
  {
    var buf: Text := [];
    var msg := target;
    var todo := cols.Keys;
    order := [];
    while todo != {}
      invariant todo <= cols.Keys && IsOrder(order, cols.Keys - todo)
      invariant LoadAll(d, target, cols, order) == Loading(msg, buf)
      decreases |todo|
    {
      var k :| k in todo;
      LoadAllSnoc(d, target, cols, order, k);
      OrderSnoc(order, cols.Keys - todo, k);
      assert cols.Keys - todo + {k} == cols.Keys - (todo - {k});
      todo := todo - {k};
      order := order + [k];
      var next := LoadOne(d, msg, buf, k, cols[k]);
      if next.Panicked? {
        order := RestAfterPanic(d, target, cols, order, todo);
        return Panic, order;
      }
      msg, buf := next.msg, next.buf;
    }
    assert cols.Keys - todo == cols.Keys;
    var merged := lib(msg, buf);
    if merged.None? {
      return WireError, order;
    }
    r := Done(merged.value);
  }

  // ---------------------------------------------------------------- any columns

  /** A column that the merge looks at: its name does not start with "_" and is a field's. */
  predicate Relevant(d: Descriptor, k: Text) { k in d.byName && !(|k| > 0 && k[0] == UNDERSCORE) }

  predicate IsBlob(f: Field) { f.repeated || f.kind == BytesKind || f.kind == MessageKind }

  /** A relevant scalar column whose text is not a value of its kind. */
  ghost predicate Unreadable(d: Descriptor, cols: map<Text, Text>, k: Text)
    requires k in cols
  {
    Relevant(d, k) && !IsBlob(d.byName[k]) && forall v :: !ReadsAs(d.byName[k].kind, cols[k], v)
  }

  /** The blob columns, one after another. */
  function Blobs(d: Descriptor, cols: map<Text, Text>, order: seq<Text>): (b: Text)
    requires forall k :: k in order ==> k in cols
  {
    if order == [] then []
    else
      var k := order[|order| - 1];
      Blobs(d, cols, order[..|order| - 1]) + if Relevant(d, k) && IsBlob(d.byName[k]) then cols[k] else []
  }

  /** What one column sets: nothing unless it is a relevant scalar; otherwise its value, except that the zero
      value of a field without presence tracking clears the field. */
  ghost predicate Sets(d: Descriptor, k: Text, s: Text, before: Message, after: Message) {
    if !Relevant(d, k) || IsBlob(d.byName[k]) then after == before
    else
      var f := d.byName[k];
      exists v :: ReadsAs(f.kind, s, v) &&
        if !f.explicit && (v == BoolValue(false) || v == IntValue(0) || v == TextValue([])) then
          after == before - {f.number}
        else after == before[f.number := v]
  }

  /** One column of any map: a relevant scalar whose text does not read panics; otherwise it sets what it sets,
      and a relevant blob is added to the buffer. */
  lemma ColumnLoads(d: Descriptor, cols: map<Text, Text>, k: Text, msg: Message, buf: Text)
    requires k in cols
    ensures var st := LoadColumn(d, Loading(msg, buf), k, cols[k]);
            if Unreadable(d, cols, k) then st == Panicked
            else && st.Loading? && Sets(d, k, cols[k], msg, st.msg)
                 && st.buf == buf + if Relevant(d, k) && IsBlob(d.byName[k]) then cols[k] else []
  {
    assert buf + [] == buf;
    if Relevant(d, k) && !IsBlob(d.byName[k]) {
      var kind, read := d.byName[k].kind, UnmarshalScalarByStr(d.byName[k].kind, cols[k]);
      forall v ensures read == Some(v) <==> ReadsAs(kind, cols[k], v) {
        UnmarshalExactly(kind, cols[k], v);
      }
      if read.Some? {
        assert ReadsAs(kind, cols[k], read.value);
      }
    }
  }

  /** The messages that setting the columns in order leads through. */
  ghost predicate SetsAll(d: Descriptor, cols: map<Text, Text>, order: seq<Text>, target: Message, after: Message)
    requires forall k :: k in order ==> k in cols
  {
    if order == [] then after == target
    else
      var k, before := order[|order| - 1], order[..|order| - 1];
      exists mid :: SetsAll(d, cols, before, target, mid) && Sets(d, k, cols[k], mid, after)
  }

  /** Walking over any columns in any order: a panic exactly if one is unreadable, and otherwise the scalars are
      set one after another and the blobs buffered in order. */
  lemma {:induction false} LoadMeaning(d: Descriptor, target: Message, cols: map<Text, Text>, order: seq<Text>)
    requires forall k :: k in order ==> k in cols
    ensures var st := LoadAll(d, target, cols, order);
            && (st.Panicked? <==> exists k :: k in order && Unreadable(d, cols, k))
            && (st.Loading? ==> st.buf == Blobs(d, cols, order) && SetsAll(d, cols, order, target, st.msg))
  {
    if order != [] {
      var k, before := order[|order| - 1], order[..|order| - 1];
      assert order == before + [k];
      LoadMeaning(d, target, cols, before);
      var mid := LoadAll(d, target, cols, before);
      if mid.Loading? {
        ColumnLoads(d, cols, k, mid.msg, mid.buf);
      }
    }
  }

  /** The outcome of the merge: a panic exactly for an unreadable column, an error exactly if the library
      reports one, and otherwise what the library makes of the scalars set and the blobs collected. */
  lemma UnmarshalMeaning(d: Descriptor, lib: Library, target: Message, cols: map<Text, Text>, order: seq<Text>)
    returns (msg: Message)
    requires forall k :: k in order ==> k in cols
    ensures var r := UnmarshalIn(d, lib, target, cols, order);
            if exists k :: k in order && Unreadable(d, cols, k) then r == Panic
            else
              && SetsAll(d, cols, order, target, msg)
              && (r == WireError <==> lib(msg, Blobs(d, cols, order)) == None)
              && forall after :: r == Done(after) <==> lib(msg, Blobs(d, cols, order)) == Some(after)
  {
    LoadMeaning(d, target, cols, order);
    var st := LoadAll(d, target, cols, order);
    msg := if st.Loading? then st.msg else target;
  }

  /** The part of an order that visits the names in keep. */
  function Among(order: seq<Text>, keep: set<Text>): (part: seq<Text>)
    ensures forall k :: k in part <==> k in order && k in keep
  {
    if order == [] then []
    else
      var k, before := order[|order| - 1], order[..|order| - 1];
      assert order == before + [k];
      Among(before, keep) + if k in keep then [k] else []
  }

  lemma {:induction false} AmongOrder(order: seq<Text>, keys: set<Text>, keep: set<Text>)
    requires IsOrder(order, keys)
    ensures IsOrder(Among(order, keep), keys * keep)
  {
    if order != [] {
      var k, before := order[|order| - 1], order[..|order| - 1];
      assert order == before + [k];
      assert k !in before;
      assert IsOrder(before, keys - {k}) by {
        forall x ensures x in before <==> x in keys - {k} {
          assert x in order <==> x in before || x == k;
        }
      }
      AmongOrder(before, keys - {k}, keep);
      if k in keep {
        OrderSnoc(Among(before, keep), (keys - {k}) * keep, k);
        assert (keys - {k}) * keep + {k} == keys * keep;
      } else {
        assert (keys - {k}) * keep == keys * keep;
      }
    }
  }

  /** Columns with a hidden name or one that is no field's can be dropped, from the map and from the order. */
  lemma {:induction false} LoadIgnores(d: Descriptor, target: Message, cols: map<Text, Text>, order: seq<Text>,
                                       keep: set<Text>, kept: map<Text, Text>)
    requires forall k :: k in order ==> k in cols
    requires forall k :: k in order && k !in keep ==> !Relevant(d, k)
    requires forall k :: k in order && k in keep ==> k in kept && kept[k] == cols[k]
    ensures LoadAll(d, target, kept, Among(order, keep)) == LoadAll(d, target, cols, order)
  {
    if order != [] {
      var k, before := order[|order| - 1], order[..|order| - 1];
      assert order == before + [k];
      LoadIgnores(d, target, cols, before, keep, kept);
      if k in keep {
        LoadAllSnoc(d, target, kept, Among(before, keep), k);
      } else {
        assert Among(before, keep) + [] == Among(before, keep);
      }
    }
  }

  // ---------------------------------------------------------------- round trip

  /** The column map as the store returns it: every value as a string, bytes unchanged. */
  function Stored(c: map<Text, Column>): (s: map<Text, Text>) {
    map k | k in c :: match c[k] case TextColumn(t) => t case BlobColumn(b) => b
  }

  /** A visible enum column, whose text never parses. */
  predicate Breaks(f: Field) { !Hidden(f.name) && f.kind == EnumKind && !f.repeated }

  lemma {:induction false} MergeAllAppend(d: Descriptor, m: Message, a: seq<Record>, b: seq<Record>)
    ensures MergeAll(d, m, a + b) == MergeAll(d, MergeAll(d, m, a), b)
    decreases |a|
  {
    if a == [] {
      assert a + b == b;
    } else {
      MergeAllAppend(d, MergeRecord(d, m, a[0]), a[1..], b);
      assert (a + b)[1..] == a[1..] + b;
    }
  }

  lemma {:induction false} MergeRepeated(d: Descriptor, m: Message, n: nat, held: seq<Record>, recs: seq<Record>)
    requires n in d.byNumber && IsFdMarshalToBlob(d.byNumber[n]) && !LastWins(d.byNumber[n])
    requires forall i :: 0 <= i < |recs| ==> recs[i].number == n
    ensures MergeAll(d, m[n := RecordsValue(held)], recs) == m[n := RecordsValue(held + recs)]
    decreases |recs|
  {
    if recs == [] {
      assert held + recs == held;
    } else {
      MergeRepeated(d, m, n, held + [recs[0]], recs[1..]);
      assert held + [recs[0]] + recs[1..] == held + recs;
      assert m[n := RecordsValue(held)][n := RecordsValue(held + [recs[0]])] == m[n := RecordsValue(held + [recs[0]])];
    }
  }

  /** Merging a field's records into a message that does not hold it yet, or that keeps only the last one. */
  lemma MergeField(d: Descriptor, m: Message, f: Field, v: Value)
    requires f.number in d.byNumber && d.byNumber[f.number] == f
    requires IsFdMarshalToBlob(f) && FieldHolds(f, v) && (f.number !in m || LastWins(f))
    ensures MergeAll(d, m, v.recs) == m[f.number := v]
  {
    var recs := v.recs;
    assert recs == [recs[0]] + recs[1..];
    if LastWins(f) {
      assert recs[1..] == [] && v == RecordsValue([recs[0]]);
    } else {
      assert [] + [recs[0]] == [recs[0]];
      MergeRepeated(d, m, f.number, [recs[0]], recs[1..]);
    }
  }

  /** target holds part of m, and no field that merging would double: the key fields of the record. */
  ghost predicate KeyPart(d: Descriptor, m: Message, target: Message)
    requires ValidMessage(d, m)
  {
    forall n :: n in target ==>
      n in m && target[n] == m[n] && (IsFdMarshalToBlob(d.byNumber[n]) ==> LastWins(d.byNumber[n]))
  }

  ghost predicate Populated(d: Descriptor, m: Message, order: seq<Text>) {
    forall k :: k in order ==> k in d.byName && d.byName[k].number in m
  }

  /** The fields of m with a number in keep. */
  ghost function Part(m: Message, keep: set<nat>): (part: Message) {
    map n | n in m && n in keep :: m[n]
  }

  lemma PartGrows(m: Message, keep: set<nat>, n: nat)
    requires n in m
    ensures Part(m, keep + {n}) == Part(m, keep)[n := m[n]]
  {
  }

  predicate Reads(f: Field, blob: bool) { !Hidden(f.name) && IsFdMarshalToBlob(f) == blob }

  /** The numbers of the blob or scalar fields read from the columns visited. */
  ghost function ReadFrom(d: Descriptor, order: seq<Text>, blob: bool): (numbers: set<nat>)
    requires forall k :: k in order ==> k in d.byName
  {
    if order == [] then {}
    else
      var f := d.byName[order[|order| - 1]];
      ReadFrom(d, order[..|order| - 1], blob) + if Reads(f, blob) then {f.number} else {}
  }

  lemma {:induction false} ReadFromMeaning(d: Descriptor, order: seq<Text>, blob: bool, n: nat)
    requires d.WellFormed() && n in d.byNumber
    requires forall k :: k in order ==> k in d.byName
    ensures n in ReadFrom(d, order, blob) <==> d.byNumber[n].name in order && Reads(d.byNumber[n], blob)
  {
    if order != [] {
      var k, before := order[|order| - 1], order[..|order| - 1];
      assert order == before + [k];
      ReadFromMeaning(d, before, blob, n);
    }
  }

  /** The blob records collected from the columns in order. */
  ghost function BlobRecs(d: Descriptor, m: Message, order: seq<Text>): (recs: seq<Record>)
    requires ValidMessage(d, m) && Populated(d, m, order)
  {
    if order == [] then []
    else
      var f := d.byName[order[|order| - 1]];
      BlobRecs(d, m, order[..|order| - 1]) + if Reads(f, true) then m[f.number].recs else []
  }

  /** What the walk has done after the columns in order, none of which breaks. */
  ghost function Walked(d: Descriptor, m: Message, keys: set<nat>, order: seq<Text>): (st: Loading)
    requires ValidMessage(d, m) && Populated(d, m, order)
  {
    Loading(Part(m, keys + ReadFrom(d, order, false)), Raw(BlobRecs(d, m, order)))
  }

  function StoredField(f: Field, v: Value): (s: Text)
    requires FieldHolds(f, v)
  {
    if IsFdMarshalToBlob(f) then Raw(v.recs) else MarshalScalar(f.kind, v)
  }

  lemma StoredColumn(d: Descriptor, m: Message, k: Text)
    requires ValidMessage(d, m) && k in d.byName && d.byName[k].number in m
    ensures var c := Stored(ColumnsOf(d, m, None)); k in c && c[k] == StoredField(d.byName[k], m[d.byName[k].number])
  {
    assert ColumnsOf(d, m, None)[k] == FieldColumn(d.byName[k], m[d.byName[k].number]);
  }

  lemma WalkStep(d: Descriptor, m: Message, keep: set<nat>, recs: seq<Record>, k: Text)
    requires ValidMessage(d, m) && k in d.byName && d.byName[k].number in m
    ensures var f := d.byName[k];
            LoadColumn(d, Loading(Part(m, keep), Raw(recs)), k, StoredField(f, m[f.number]))
            == if Breaks(f) then Panicked
               else Loading(Part(m, if Reads(f, false) then keep + {f.number} else keep),
                            Raw(if Reads(f, true) then recs + m[f.number].recs else recs))
  {
    var f := d.byName[k];
    if Reads(f, true) {
      RawAppend(recs, m[f.number].recs);
    } else if Reads(f, false) && !Breaks(f) {
      ScalarTextRoundTrip(f.kind, m[f.number]);
      PartGrows(m, keep, f.number);
    }
  }

  lemma WalkedSnoc(d: Descriptor, m: Message, keys: set<nat>, order: seq<Text>, before: seq<Text>, f: Field)
    requires ValidMessage(d, m) && Populated(d, m, order) && Populated(d, m, before) && order != []
    requires order[..|order| - 1] == before && d.byName[order[|order| - 1]] == f
    ensures var keep, recs := keys + ReadFrom(d, before, false), BlobRecs(d, m, before);
            Walked(d, m, keys, order)
            == Loading(Part(m, if Reads(f, false) then keep + {f.number} else keep),
                       Raw(if Reads(f, true) then recs + m[f.number].recs else recs))
  {
    var keep, recs := keys + ReadFrom(d, before, false), BlobRecs(d, m, before);
    assert keys + ReadFrom(d, order, false) == if Reads(f, false) then keep + {f.number} else keep;
    assert BlobRecs(d, m, order) == if Reads(f, true) then recs + m[f.number].recs else recs;
  }

  /** Walking over columns of m, in any order and up to any point: an enum column panics; otherwise the
      scalars met so far are set and the blobs met so far are buffered. */
  lemma {:induction false} LoadState(d: Descriptor, m: Message, keys: set<nat>, cols: map<Text, Text>, order: seq<Text>)
    requires ValidMessage(d, m) && Populated(d, m, order)
    requires cols == Stored(ColumnsOf(d, m, None))
    ensures var st := LoadAll(d, Part(m, keys), cols, order);
            if exists k :: k in order && Breaks(d.byName[k]) then st == Panicked
            else st == Walked(d, m, keys, order)
  {
    if order == [] {
      assert keys + {} == keys;
    } else {
      var k, before := order[|order| - 1], order[..|order| - 1];
      assert order == before + [k];
      LoadState(d, m, keys, cols, before);
      StoredColumn(d, m, k);
      WalkStep(d, m, keys + ReadFrom(d, before, false), BlobRecs(d, m, before), k);
      WalkedSnoc(d, m, keys, order, before, d.byName[k]);
    }
  }

  lemma MergeOne(d: Descriptor, m: Message, keys: set<nat>, read: set<nat>, f: Field)
    requires ValidMessage(d, m) && KeyPart(d, m, Part(m, keys)) && f.number in m && d.byNumber[f.number] == f
    requires IsFdMarshalToBlob(f) && (f.number in read ==> f.number in keys)
    ensures MergeAll(d, Part(m, read), m[f.number].recs) == Part(m, read + {f.number})
  {
    assert f.number in Part(m, keys) ==> LastWins(f);
    MergeField(d, Part(m, read), f, m[f.number]);
    PartGrows(m, read, f.number);
  }

  /** Merging the buffered records adds exactly the blob fields they came from. */
  lemma {:induction false} MergeBlobs(d: Descriptor, m: Message, keys: set<nat>, order: seq<Text>)
    requires ValidMessage(d, m) && KeyPart(d, m, Part(m, keys)) && Populated(d, m, order) && NoRepeats(order)
    ensures MergeAll(d, Part(m, keys), BlobRecs(d, m, order)) == Part(m, keys + ReadFrom(d, order, true))
  {
    if order == [] {
      assert keys + {} == keys;
    } else {
      var k, before := order[|order| - 1], order[..|order| - 1];
      var f, read := d.byName[k], keys + ReadFrom(d, before, true);
      MergeBlobs(d, m, keys, before);
      if Reads(f, true) {
        MergeAllAppend(d, Part(m, keys), BlobRecs(d, m, before), m[f.number].recs);
        ReadFromMeaning(d, before, true, f.number);
        MergeOne(d, m, keys, read, f);
        assert keys + ReadFrom(d, order, true) == read + {f.number};
      } else {
        assert BlobRecs(d, m, order) == BlobRecs(d, m, before);
      }
    }
  }

  lemma {:induction false} BlobRecsReadable(d: Descriptor, m: Message, order: seq<Text>)
    requires ValidMessage(d, m) && Populated(d, m, order)
    ensures AllRecords(BlobRecs(d, m, order))
  {
    if order != [] {
      BlobRecsReadable(d, m, order[..|order| - 1]);
    }
  }

  /** The library merges the records of m's own blob fields into any part of m as the encoding specification
      says. */
  ghost predicate Merges(d: Descriptor, lib: Library, m: Message)
    requires ValidMessage(d, m)
  {
    forall keep: set<nat>, order: seq<Text> :: MergesPart(d, lib, m, keep, order)
  }

  ghost predicate MergesPart(d: Descriptor, lib: Library, m: Message, keep: set<nat>, order: seq<Text>)
    requires ValidMessage(d, m)
  {
    Populated(d, m, order) && NoRepeats(order) ==>
      lib(Part(m, keep), Raw(BlobRecs(d, m, order))) == Some(MergeAll(d, Part(m, keep), BlobRecs(d, m, order)))
  }

  /** A library that reads the records off the buffer and merges them one by one. */
  function RecordLibrary(d: Descriptor): (lib: Library) {
    (m: Message, buf: Text) =>
      var (recs, complete) := Parse(buf);
      if complete then Some(MergeAll(d, m, recs)) else None
  }

  lemma RecordLibraryMerges(d: Descriptor, m: Message)
    requires ValidMessage(d, m)
    ensures Merges(d, RecordLibrary(d), m)
  {
    forall keep: set<nat>, order: seq<Text> ensures MergesPart(d, RecordLibrary(d), m, keep, order) {
      if Populated(d, m, order) {
        BlobRecsReadable(d, m, order);
        ParseRaw(BlobRecs(d, m, order));
      }
    }
  }

  /** Merging columns without an enum: the fields read are added to the target. */
  lemma UnmarshalReads(d: Descriptor, lib: Library, m: Message, keys: set<nat>, order: seq<Text>)
    requires ValidMessage(d, m) && KeyPart(d, m, Part(m, keys)) && Populated(d, m, order) && NoRepeats(order)
    requires Merges(d, lib, m)
    requires forall k :: k in order ==> !Breaks(d.byName[k])
    ensures UnmarshalIn(d, lib, Part(m, keys), Stored(ColumnsOf(d, m, None)), order)
         == Done(Part(m, keys + ReadFrom(d, order, false) + ReadFrom(d, order, true)))
  {
    LoadState(d, m, keys, Stored(ColumnsOf(d, m, None)), order);
    var read := keys + ReadFrom(d, order, false);
    ScalarsRead(d, m, keys, order);
    MergeBlobs(d, m, read, order);
    assert MergesPart(d, lib, m, read, order);
  }

  lemma ScalarsRead(d: Descriptor, m: Message, keys: set<nat>, order: seq<Text>)
    requires ValidMessage(d, m) && KeyPart(d, m, Part(m, keys)) && Populated(d, m, order)
    ensures KeyPart(d, m, Part(m, keys + ReadFrom(d, order, false)))
  {
    var read := keys + ReadFrom(d, order, false);
    forall n | n in Part(m, read) ensures IsFdMarshalToBlob(d.byNumber[n]) ==> LastWins(d.byNumber[n]) {
      ReadFromMeaning(d, order, false, n);
      if n in keys {
        assert n in Part(m, keys);
      }
    }
  }

  /** A populated field survives the round trip: a hidden column is skipped, so the target must hold the
      field already; a visible one must not be a singular enum. */
  predicate Survives(f: Field, held: bool) {
    if Hidden(f.name) then held else f.kind != EnumKind || f.repeated
  }

  /** With every populated field visited and no enum among them, the fields left out are those that do
      not survive. */
  lemma ReadAll(d: Descriptor, m: Message, keys: set<nat>, order: seq<Text>)
    requires ValidMessage(d, m) && Populated(d, m, order)
    requires forall n :: n in m ==> d.byNumber[n].name in order
    requires forall k :: k in order ==> !Breaks(d.byName[k])
    ensures var read := keys + ReadFrom(d, order, false) + ReadFrom(d, order, true);
            Part(m, read) == m <==> forall n :: n in m ==> Survives(d.byNumber[n], n in keys)
  {
    var read := keys + ReadFrom(d, order, false) + ReadFrom(d, order, true);
    forall n | n in m ensures n in read <==> Survives(d.byNumber[n], n in keys) {
      ReadFromMeaning(d, order, false, n);
      ReadFromMeaning(d, order, true, n);
      assert !Breaks(d.byName[d.byNumber[n].name]);
    }
    assert Part(m, read) == m <==> forall n :: n in m ==> n in read;
  }

  lemma BreaksMeansPanic(d: Descriptor, lib: Library, m: Message, keys: set<nat>, order: seq<Text>, k: Text)
    requires ValidMessage(d, m) && Populated(d, m, order) && k in order && Breaks(d.byName[k])
    ensures UnmarshalIn(d, lib, Part(m, keys), Stored(ColumnsOf(d, m, None)), order) == Panic
    ensures !Survives(d.byNumber[d.byName[k].number], d.byName[k].number in keys)
  {
    LoadState(d, m, keys, Stored(ColumnsOf(d, m, None)), order);
  }

  /** Split and merge: for every iteration order of the column map, merging the columns of m into a target
      that holds at most m's key fields rebuilds m exactly when every populated field survives. */
  lemma RoundTrip(d: Descriptor, lib: Library, m: Message, target: Message, order: seq<Text>)
    requires ValidMessage(d, m) && KeyPart(d, m, target) && Merges(d, lib, m)
    requires IsOrder(order, ColumnsOf(d, m, None).Keys)
    ensures UnmarshalIn(d, lib, target, Stored(ColumnsOf(d, m, None)), order) == Done(m)
       <==> forall n :: n in m ==> Survives(d.byNumber[n], n in target)
  {
    var keys := target.Keys;
    assert target == Part(m, keys);
    ColumnsArePopulated(d, m, order);
    if k :| k in order && Breaks(d.byName[k]) {
      BreaksMeansPanic(d, lib, m, keys, order, k);
    } else {
      UnmarshalReads(d, lib, m, keys, order);
      ReadAll(d, m, keys, order);
    }
  }

  lemma ColumnsArePopulated(d: Descriptor, m: Message, order: seq<Text>)
    requires ValidMessage(d, m) && IsOrder(order, ColumnsOf(d, m, None).Keys)
    ensures Populated(d, m, order) && forall n :: n in m ==> d.byNumber[n].name in order
  {
    assert forall k :: k in order <==> k in ColumnsOf(d, m, None);
  }

  /** cols holds the columns of m under the field names, and anything under other names. */
  ghost predicate StoredAmong(d: Descriptor, m: Message, cols: map<Text, Text>)
    requires ValidMessage(d, m)
  {
    var stored := Stored(ColumnsOf(d, m, None));
    forall k :: k in d.byName ==> (k in cols <==> k in stored) && (k in cols ==> cols[k] == stored[k])
  }

  /** The round trip among other columns: what the message type does not know, or no longer knows, changes
      nothing. */
  lemma RoundTripAmong(d: Descriptor, lib: Library, m: Message, target: Message, cols: map<Text, Text>,
                       order: seq<Text>)
    requires ValidMessage(d, m) && KeyPart(d, m, target) && Merges(d, lib, m)
    requires StoredAmong(d, m, cols) && IsOrder(order, cols.Keys)
    ensures UnmarshalIn(d, lib, target, cols, order) == Done(m)
       <==> forall n :: n in m ==> Survives(d.byNumber[n], n in target)
  {
    var known := KnownOrder(d, m, cols, order);
    KnownLoad(d, lib, m, target, cols, order);
    RoundTrip(d, lib, m, target, known);
  }

  lemma KnownOrder(d: Descriptor, m: Message, cols: map<Text, Text>, order: seq<Text>) returns (known: seq<Text>)
    requires ValidMessage(d, m) && StoredAmong(d, m, cols) && IsOrder(order, cols.Keys)
    ensures known == Among(order, d.byName.Keys) && IsOrder(known, ColumnsOf(d, m, None).Keys)
  {
    known := Among(order, d.byName.Keys);
    AmongOrder(order, cols.Keys, d.byName.Keys);
    assert cols.Keys * d.byName.Keys == ColumnsOf(d, m, None).Keys;
  }

  lemma KnownLoad(d: Descriptor, lib: Library, m: Message, target: Message, cols: map<Text, Text>, order: seq<Text>)
    requires ValidMessage(d, m) && StoredAmong(d, m, cols) && IsOrder(order, cols.Keys)
    ensures forall k :: k in Among(order, d.byName.Keys) ==> k in Stored(ColumnsOf(d, m, None))
    ensures UnmarshalIn(d, lib, target, Stored(ColumnsOf(d, m, None)), Among(order, d.byName.Keys))
         == UnmarshalIn(d, lib, target, cols, order)
  {
    var stored, known := Stored(ColumnsOf(d, m, None)), Among(order, d.byName.Keys);
    forall k | k in order && k in d.byName.Keys ensures k in stored && stored[k] == cols[k] {
      assert k in cols;
    }
    LoadIgnores(d, target, cols, order, d.byName.Keys, stored);
    SameOutcome(d, lib, target, cols, order, stored, known);
  }

  lemma SameOutcome(d: Descriptor, lib: Library, target: Message, cols: map<Text, Text>, order: seq<Text>,
                    kept: map<Text, Text>, part: seq<Text>)
    requires (forall k :: k in order ==> k in cols) && forall k :: k in part ==> k in kept
    requires LoadAll(d, target, kept, part) == LoadAll(d, target, cols, order)
    ensures UnmarshalIn(d, lib, target, kept, part) == UnmarshalIn(d, lib, target, cols, order)
  {
  }

  // ---------------------------------------------------------------- records that do not survive

  /** A record type with one field. */
  function OneField(f: Field): (d: Descriptor)
    requires 0 < f.number <= MAX_TAG_NUMBER
    ensures d.WellFormed()
  {
    Descriptor(map[f.number := f], map[f.name := f])
  }

  const ENUM_FIELD := Field(1, [101], EnumKind, false, false)
  const HIDDEN_FIELD := Field(1, [UNDERSCORE], StringKind, false, false)

  /** A record whose only field is the enum value 1 panics in the merge. */
  lemma EnumIsLost(lib: Library)
    ensures var d, m := OneField(ENUM_FIELD), map[1 := IntValue(1)];
            && ValidMessage(d, m) && IsOrder([ENUM_FIELD.name], ColumnsOf(d, m, None).Keys)
            && UnmarshalIn(d, lib, map[], Stored(ColumnsOf(d, m, None)), [ENUM_FIELD.name]) == Panic
  {
    var d, m := OneField(ENUM_FIELD), map[1 := IntValue(1)];
    assert InRange(true, 32, 1);
    var order := [ENUM_FIELD.name];
    assert ColumnsOf(d, m, None).Keys == {ENUM_FIELD.name};
    BreaksMeansPanic(d, lib, m, {}, order, ENUM_FIELD.name);
    assert Part(m, {}) == map[];
  }

  /** A record whose only field is named "_" comes back empty. */
  lemma HiddenIsLost(lib: Library)
    requires Merges(OneField(HIDDEN_FIELD), lib, map[1 := TextValue([97])])
    ensures var d, m := OneField(HIDDEN_FIELD), map[1 := TextValue([97])];
            && ValidMessage(d, m) && IsOrder([HIDDEN_FIELD.name], ColumnsOf(d, m, None).Keys)
            && UnmarshalIn(d, lib, map[], Stored(ColumnsOf(d, m, None)), [HIDDEN_FIELD.name]) == Done(map[])
  {
    var d, m := OneField(HIDDEN_FIELD), map[1 := TextValue([97])];
    var order := [HIDDEN_FIELD.name];
    assert ColumnsOf(d, m, None).Keys == {HIDDEN_FIELD.name};
    UnmarshalReads(d, lib, m, {}, order);
    ReadFromMeaning(d, order, false, 1);
    ReadFromMeaning(d, order, true, 1);
    assert Part(m, {}) == map[];
    assert Part(m, {} + ReadFrom(d, order, false) + ReadFrom(d, order, true)) == map[];
  }

  // ---------------------------------------------------------------- end to end

  /** The strings a store keeps for the string and []byte columns. */
  method ReadColumns(wire: map<Text, GoColumn>, buf: array<byte>, n: nat) returns (cols: map<Text, Text>)
    requires n <= buf.Length && OnBuffer(wire, buf, n)
    ensures cols == Stored(View(wire, buf, buf[..n]))
  {
    var b := buf[..n];
    cols := map k | k in wire :: match wire[k] case GoText(t) => t case GoBytes(s) => b[s.off..s.off + s.len];
  }

  /** What the store keeps for a populated field: "1" or "0", a canonical decimal text, the string, or the field's
      own records in order. */
  predicate StoredHolds(f: Field, v: Value, s: Text) {
    if v.RecordsValue? then (f.repeated || f.kind.BytesKind? || f.kind.MessageKind?) && s == Raw(v.recs)
    else ScalarText(v, s)
  }

  /** MarshalToMap without a field list on the serialized record, and what the store returns for it. */
  method Save(d: Descriptor, m: Message, buf: array<byte>, n: nat, ghost order: seq<nat>)
    returns (cols: map<Text, Text>)
    requires ValidMessage(d, m) && IsOrder(order, m.Keys)
    requires n <= buf.Length && n < 0x8000_0000 && buf[..n] == Raw(MarshalRecords(d, m, order))
    modifies buf
    ensures buf[..] == old(buf[..])
    ensures cols == Stored(ColumnsOf(d, m, None))
    ensures forall name :: name in cols <==> name in d.byName && d.byName[name].number in m
    ensures forall name :: name in cols ==> StoredHolds(d.byName[name], m[d.byName[name].number], cols[name])
  {
    MarshalRecordsReadable(d, m, order);
    ParseRaw(MarshalRecords(d, m, order));
    MarshalContiguous(d, m, order);
    var split := MarshalToMap(d, m, [], buf, n);
    assert buf[..n] == old(buf[..n]);
    SplitOfMarshal(d, m, order, None);
    cols := ReadColumns(split.wire, buf, n);
    StoredColumnsHold(d, m, cols);
  }

  lemma StoredColumnsHold(d: Descriptor, m: Message, cols: map<Text, Text>)
    requires ValidMessage(d, m) && cols == Stored(ColumnsOf(d, m, None))
    ensures forall name :: name in cols <==> name in d.byName && d.byName[name].number in m
    ensures forall name :: name in cols ==> StoredHolds(d.byName[name], m[d.byName[name].number], cols[name])
  {
    forall name ensures name in cols <==> name in d.byName && d.byName[name].number in m {
      ColumnsHold(d, m, None, name);
    }
    forall name | name in cols ensures StoredHolds(d.byName[name], m[d.byName[name].number], cols[name]) {
      ColumnsHold(d, m, None, name);
    }
  }

  /** End to end on Go slices: split a serialized record without a field list, hand the columns to a store
      that returns them unchanged, among other columns that are no fields of the message, and merge them into a
      record that holds at most key fields. */
  method SaveAndLoad(d: Descriptor, lib: Library, m: Message, target: Message, buf: array<byte>, n: nat,
                     extra: map<Text, Text>, ghost order: seq<nat>)
    returns (r: Outcome)
    requires ValidMessage(d, m) && KeyPart(d, m, target) && Merges(d, lib, m)
    requires IsOrder(order, m.Keys) && extra.Keys !! d.byName.Keys
    requires n <= buf.Length && n < 0x8000_0000 && buf[..n] == Raw(MarshalRecords(d, m, order))
    modifies buf
    ensures buf[..] == old(buf[..])
    ensures r == Done(m) <==> forall f :: f in m ==> Survives(d.byNumber[f], f in target)
  {
    var cols := Save(d, m, buf, n, order);
    ghost var visited;
    r, visited := UnmarshalFromMap(d, lib, target, cols + extra);
    RoundTripAmong(d, lib, m, target, cols + extra, visited);
  }
}
