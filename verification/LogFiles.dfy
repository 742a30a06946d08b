/** The file system as the rotating logger of plugin/log/bingologger sees it: archive names, and what moving
    and appending keep. */
module LogFiles {
  import opened GoBase
  import opened Decimal

  datatype Time = Time(unix: int, year: int, month: int, day: int)

  /** The verb %02d. */
  function Pad2(n: int): (t: Text) {
    if 0 <= n < 10 then [ZERO] + PrintInt(n) else PrintInt(n)
  }

  function Stem(file: Text, t: Time): (s: Text) {
    file + [DOT] + Pad2(t.year) + Pad2(t.month) + Pad2(t.day)
  }

  function ArchiveName(file: Text, t: Time, generation: nat): (s: Text)
    ensures |s| > |file|
  {
    if generation == 0 then Stem(file, t) else Stem(file, t) + [DOT] + PrintNat(generation)
  }

  lemma Pad2Is(n: nat)
    requires n < 100
    ensures |Pad2(n)| == 2 && AllDigits(Pad2(n)) && DigitsValue(Pad2(n)) == n
  {
    var t := Pad2(n);
    PrintNatValue(n);
    if n < 10 {
      assert t == [ZERO, ZERO + n] && t[..1] == [ZERO] && t[..1][..0] == [];
    } else {
      assert PrintNat(n / 10) == [ZERO + n / 10];
    }
  }

  lemma TwoMore(a: Text, b: Text)
    requires AllDigits(a) && AllDigits(b) && |b| == 2
    ensures AllDigits(a + b) && DigitsValue(a + b) == 100 * DigitsValue(a) + DigitsValue(b)
  {
    var all := a + b;
    assert all[..|all| - 1] == a + [b[0]] && (a + [b[0]])[..|a|] == a;
    assert DigitsValue(a + [b[0]]) == 10 * DigitsValue(a) + (b[0] - ZERO);
    assert b[..1] == [b[0]] && [b[0]][..0] == [];
    assert DigitsValue([b[0]]) == b[0] - ZERO;
  }

  /** The name of an archive: the file's own, a dot and the creation date as eight digits yyyymmdd; a later
      generation of the day appends a dot and its number. */
  lemma ArchiveNameIs(file: Text, t: Time, g: nat)
    requires 1000 <= t.year < 10000 && 0 <= t.month < 100 && 0 <= t.day < 100
    ensures var date := ArchiveName(file, t, 0)[|file| + 1..];
            && ArchiveName(file, t, 0) == file + Ascii(".") + date
            && |date| == 8 && AllDigits(date) && DigitsValue(date) == 10000 * t.year + 100 * t.month + t.day
    ensures g > 0 ==>
              exists number ::
                ArchiveName(file, t, g) == ArchiveName(file, t, 0) + Ascii(".") + number && IntText(number, g)
  {
    var y, m, d := Pad2(t.year), Pad2(t.month), Pad2(t.day);
    assert Ascii(".") == [DOT];
    YearIs(t.year);
    Pad2Is(t.month);
    Pad2Is(t.day);
    TwoMore(y, m);
    TwoMore(y + m, d);
    assert Stem(file, t) == file + [DOT] + (y + m + d);
    if g > 0 {
      PrintIntIs(PrintNat(g), g);
    }
  }

  lemma YearIs(n: nat)
    requires 1000 <= n < 10000
    ensures |Pad2(n)| == 4 && AllDigits(Pad2(n)) && DigitsValue(Pad2(n)) == n
  {
    PrintNatValue(n);
    assert PrintNat(n / 1000) == [ZERO + n / 1000];
    assert |PrintNat(n / 100)| == 2 && |PrintNat(n / 10)| == 3;
  }

  /** Different generations of one day have different names. */
  lemma ArchiveNameInjective(file: Text, t: Time, g: nat, h: nat)
    ensures ArchiveName(file, t, g) == ArchiveName(file, t, h) <==> g == h
  {
    var n := |Stem(file, t)| + 1;
    if g > 0 && h > 0 {
      assert ArchiveName(file, t, g)[n..] == PrintNat(g);
      assert ArchiveName(file, t, h)[n..] == PrintNat(h);
      PrintNatInjective(g, h);
    }
  }

  ghost predicate IsNameFrom(p: Text, file: Text, t: Time, g: nat) {
    exists h: nat :: g <= h && p == ArchiveName(file, t, h)
  }

  /** The existing names that a search from generation g may meet. */
  ghost function Taken(files: map<Text, Text>, file: Text, t: Time, g: nat): (names: set<Text>) {
    set p | p in files && IsNameFrom(p, file, t, g)
  }

  lemma TakenShrinks(files: map<Text, Text>, file: Text, t: Time, g: nat)
    requires ArchiveName(file, t, g) in files
    ensures Taken(files, file, t, g + 1) < Taken(files, file, t, g)
  {
    var p := ArchiveName(file, t, g);
    assert p in Taken(files, file, t, g);
    if p in Taken(files, file, t, g + 1) {
      var h: nat :| g + 1 <= h && p == ArchiveName(file, t, h);
      ArchiveNameInjective(file, t, g, h);
      assert false;
    }
  }

  /** All names from generation g on, up to but without h, are taken. */
  ghost predicate AllTaken(files: map<Text, Text>, file: Text, t: Time, g: nat, h: nat) {
    forall k :: g <= k < h ==> ArchiveName(file, t, k) in files
  }

  /** The search for a free archive name, from the current generation on. It ends on every file system, at the
      first free name, or at the probe that fails, which is reached exactly if every name before it is taken. */
  method FindFree(files: map<Text, Text>, file: Text, t: Time, generation: nat, failAt: Option<nat>)
    returns (name: Option<Text>, g: nat)
    ensures g >= generation && AllTaken(files, file, t, generation, g)
    ensures name.Some? ==> name.value == ArchiveName(file, t, g) && name.value !in files
    ensures name.None? <==> failAt.Some? && AllTaken(files, file, t, generation, generation + failAt.value)
    ensures name.None? ==> g == generation + failAt.value
  {
    g := generation;
    var probes := 0;
    while true
      invariant generation <= g == generation + probes && AllTaken(files, file, t, generation, g)
      invariant failAt.Some? ==> probes <= failAt.value
      decreases Taken(files, file, t, g)
    {
      var candidate := ArchiveName(file, t, g);
      if failAt == Some(probes) {
        return None, g;
      }
      if candidate !in files {
        return Some(candidate), g;
      }
      TakenShrinks(files, file, t, g);
      g := g + 1;
      probes := probes + 1;
    }
  }

  function Read(files: map<Text, Text>, p: Text): (t: Text) { if p in files then files[p] else [] }

  function Contents(files: map<Text, Text>, names: seq<Text>): (t: Text) {
    if names == [] then [] else Contents(files, names[..|names| - 1]) + Read(files, names[|names| - 1])
  }

  lemma {:induction false} ContentsSame(files: map<Text, Text>, after: map<Text, Text>, names: seq<Text>)
    requires forall i :: 0 <= i < |names| ==> Read(files, names[i]) == Read(after, names[i])
    ensures Contents(files, names) == Contents(after, names)
  {
    if names != [] {
      ContentsSame(files, after, names[..|names| - 1]);
    }
  }

  /** All bytes kept: the archives in the order they were moved, then the active file. */
  function AllBytes(files: map<Text, Text>, archives: seq<Text>, active: Text): (t: Text) {
    Contents(files, archives) + Read(files, active)
  }

  /** The archives exist, under different names, none of them the active file's. */
  ghost predicate ArchivesOk(files: map<Text, Text>, archives: seq<Text>, active: Text) {
    && (forall i :: 0 <= i < |archives| ==> archives[i] in files && archives[i] != active)
    && (forall i, j :: 0 <= i < j < |archives| ==> archives[i] != archives[j])
  }

  /** Which files a size limit is about: the archives are numbered as they were moved, and the active file has
      the next number; those numbered `from` or higher stay shorter than `size`. */
  datatype Limit = Limit(from: nat, size: int)

  ghost predicate Short(files: map<Text, Text>, archives: seq<Text>, active: Text, limit: Limit) {
    && (forall i :: limit.from <= i < |archives| ==> |Read(files, archives[i])| < limit.size)
    && (limit.from <= |archives| ==> |Read(files, active)| < limit.size)
  }

  /** Everything but the active file is as it was. */
  ghost predicate OthersKept(before: map<Text, Text>, after: map<Text, Text>, active: Text) {
    forall p :: p in before && p != active ==> p in after && after[p] == before[p]
  }

  /** The active file now has the name `name`, which was free. */
  ghost predicate MovedTo(before: map<Text, Text>, after: map<Text, Text>, active: Text, name: Text) {
    active in before && name !in before && name != active && after == before[name := before[active]] - {active}
  }

  /** What a rotation changes. */
  datatype Disk = Disk(files: map<Text, Text>, archives: seq<Text>, generation: nat)

  /** The first free name of the date t has generation g; the file now stands under it, as the latest archive; and
      the next search starts over on a new day, and otherwise behind g. */
  ghost predicate ArchivedAt(before: Disk, after: Disk, file: Text, t: Time, day: bool, g: nat) {
    var name := ArchiveName(file, t, g);
    && before.generation <= g && AllTaken(before.files, file, t, before.generation, g) && name !in before.files
    && after.archives == before.archives + [name]
    && name in after.files && after.files[name] == Read(before.files, file)
    && after.generation == if day then 0 else g + 1
  }

  ghost predicate Archived(before: Disk, after: Disk, file: Text, t: Time, day: bool) {
    exists g: nat :: ArchivedAt(before, after, file, t, day, g)
  }

  lemma ArchivedKept(before: Disk, after: Disk, later: Disk, file: Text, t: Time, day: bool)
    requires Archived(before, after, file, t, day) && OthersKept(after.files, later.files, file)
    requires later.archives == after.archives && later.generation == after.generation
    ensures Archived(before, later, file, t, day)
  {
    var g: nat :| ArchivedAt(before, after, file, t, day, g);
    assert ArchiveName(file, t, g) != file;
    assert ArchivedAt(before, later, file, t, day, g);
  }

  ghost predicate ArchivedAs(before: seq<Text>, after: seq<Text>, file: Text, t: Time, generation: nat) {
    after == before + [ArchiveName(file, t, generation)]
  }

  /** Reading any other file, or the moved one under its new name, gives what it gave before. */
  lemma MoveReads(files: map<Text, Text>, active: Text, name: Text, after: map<Text, Text>, p: Text)
    requires MovedTo(files, after, active, name) && p != active
    ensures Read(after, p) == if p == name then Read(files, active) else Read(files, p)
  {
  }

  lemma MoveShort(files: map<Text, Text>, archives: seq<Text>, active: Text, name: Text, after: map<Text, Text>,
                  limit: Limit)
    requires ArchivesOk(files, archives, active) && MovedTo(files, after, active, name)
    requires Short(files, archives, active, limit) && limit.size > 0
    ensures Short(after, archives + [name], active, limit)
  {
    forall i | limit.from <= i < |archives + [name]| ensures |Read(after, (archives + [name])[i])| < limit.size {
      if i < |archives| {
        MoveReads(files, active, name, after, archives[i]);
      } else {
        MoveReads(files, active, name, after, name);
      }
    }
  }

  lemma MoveKeeps(files: map<Text, Text>, archives: seq<Text>, active: Text, name: Text, after: map<Text, Text>,
                  limit: Limit)
    requires ArchivesOk(files, archives, active) && MovedTo(files, after, active, name)
    ensures ArchivesOk(after, archives + [name], active) && OthersKept(files, after, active)
    ensures AllBytes(after, archives + [name], active) == AllBytes(files, archives, active)
    ensures Short(files, archives, active, limit) && limit.size > 0 ==> Short(after, archives + [name], active, limit)
  {
    if Short(files, archives, active, limit) && limit.size > 0 {
      MoveShort(files, archives, active, name, after, limit);
    }
    forall i | 0 <= i < |archives| ensures Read(files, archives[i]) == Read(after, archives[i]) {
      MoveReads(files, active, name, after, archives[i]);
    }
    ContentsSame(files, after, archives);
    assert (archives + [name])[..|archives|] == archives;
  }

  lemma AppendKeeps(files: map<Text, Text>, archives: seq<Text>, active: Text, bytes: Text, after: map<Text, Text>,
                    limit: Limit)
    requires ArchivesOk(files, archives, active) && after == files[active := Read(files, active) + bytes]
    ensures ArchivesOk(after, archives, active) && OthersKept(files, after, active)
    ensures AllBytes(after, archives, active) == AllBytes(files, archives, active) + bytes
    ensures Short(files, archives, active, limit)
         && (limit.from <= |archives| ==> |Read(files, active) + bytes| < limit.size)
        ==> Short(after, archives, active, limit)
  {
    ContentsSame(files, after, archives);
    var c, t := Contents(files, archives), Read(files, active);
    assert c + (t + bytes) == c + t + bytes;
  }

  lemma OthersKeptTrans(a: map<Text, Text>, b: map<Text, Text>, c: map<Text, Text>, active: Text)
    requires OthersKept(a, b, active) && OthersKept(b, c, active)
    ensures OthersKept(a, c, active)
  {
  }
}
