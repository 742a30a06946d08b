/** The file half of plugin/log/bingologger: writeSync with rotation by day and size, over a file system that
    only the logger writes to. System call failures are arguments of each write. */
module Rotation {
  import opened GoBase
  import opened LogFiles

  /** Which system calls of one write fail, and how many bytes the final write takes. */
  datatype Faults = Faults(stat: bool, probe: Option<nat>, rename: bool, open: bool, ctime: bool, takes: Option<nat>)

  const NO_FAULTS := Faults(false, None, false, false, false, None)

  datatype Outcome = Wrote(n: nat) | Failed

  class Logger {
    const fileName: Text
    var fileSplitMB: int
    var fileOpen: bool
    var fileCreateTime: Time
    var generation: nat
    var files: map<Text, Text>
    ghost var archives: seq<Text>    // the files moved away, in order

    constructor (fileName: Text, fileSplitMB: int, files: map<Text, Text>)
      requires fileName != [] && fileSplitMB > 0
      ensures Valid() && this.fileName == fileName && this.fileSplitMB == fileSplitMB
      ensures this.files == files && archives == [] && !fileOpen && generation == 0
    {
      this.fileName, this.fileSplitMB, this.files := fileName, fileSplitMB, files;
      fileOpen, fileCreateTime, generation := false, Time(0, 0, 0, 0), 0;
      archives := [];
    }

    ghost predicate Valid()
      reads this
    {
      fileName != [] && fileSplitMB > 0 && ArchivesOk(files, archives, fileName)
    }

    ghost function Ledger(): (t: Text)
      reads this
    {
      AllBytes(files, archives, fileName)
    }

    ghost predicate Bounded(limit: Limit)
      reads this
    {
      Short(files, archives, fileName, limit)
    }

    function SplitSize(): (n: int)
      reads this
    {
      fileSplitMB * 0x10_0000
    }

    predicate DayDue(now: Time)
      reads this
    {
      fileCreateTime.unix + 86400 < now.unix || fileCreateTime.day != now.day
    }

    predicate SizeDue()
      reads this
    {
      |Read(files, fileName)| >= SplitSize()
    }

    /** The move of the active file fails: the probe that fails is reached, or the rename fails. */
    ghost predicate MoveFails(createTime: Time, faults: Faults)
      reads this
    {
      || faults.rename
      || (faults.probe.Some? && AllTaken(files, fileName, createTime, generation, generation + faults.probe.value))
    }

    ghost predicate Due(now: Time)
      reads this
    {
      fileOpen && fileName in files && (DayDue(now) || SizeDue())
    }

    ghost predicate Stays(now: Time)
      reads this
    {
      fileOpen && fileName in files && !Due(now)
    }

    /** The file is due, and its move is reached and succeeds. */
    ghost predicate Moves(now: Time, faults: Faults)
      reads this
    {
      Due(now) && !faults.stat && !MoveFails(fileCreateTime, faults)
    }

    /** updateFileFd succeeds: no failing call is reached. */
    ghost predicate Ready(now: Time, faults: Faults)
      reads this
    {
      && (fileOpen ==> !faults.stat)
      && (Due(now) ==> !MoveFails(fileCreateTime, faults))
      && (!fileOpen || fileName !in files || Due(now) ==> !faults.open && !faults.ctime)
    }

    /** A file that is not open is below the split size, so that opening it without a look at its size is safe. */
    ghost predicate Tame()
      reads this
    {
      fileOpen || !SizeDue()
    }

    /** A full file is open, and its move fails. */
    ghost predicate Stuck(faults: Faults)
      reads this
    {
      fileOpen && SizeDue() && !faults.stat && MoveFails(fileCreateTime, faults)
    }

    ghost function OnDisk(): (d: Disk)
      reads this
    {
      Disk(files, archives, generation)
    }

    /** moveLogFile: close, search the first free name, rename. */
    method MoveLogFile(createTime: Time, faults: Faults, ghost limit: Limit) returns (ok: bool)
      requires Valid() && fileName in files
      modifies this`fileOpen, this`generation, this`files, this`archives
      ensures Valid() && !fileOpen && Ledger() == old(Ledger()) && OthersKept(old(files), files, fileName)
      ensures old(archives) <= archives
      ensures ok <==> !old(MoveFails(createTime, faults))
      ensures ok ==> MovedTo(old(files), files, fileName, ArchiveName(fileName, createTime, generation))
      ensures ok ==> ArchivedAs(old(archives), archives, fileName, createTime, generation)
      ensures ok ==> old(generation) <= generation && fileName !in files
      ensures ok ==> AllTaken(old(files), fileName, createTime, old(generation), generation)
      ensures !ok ==> files == old(files) && archives == old(archives)
      ensures old(Bounded(limit)) && limit.size > 0 ==> Bounded(limit)
    {
      fileOpen := false;
      var name;
      name, generation := FindFree(files, fileName, createTime, generation, faults.probe);
      if name.None? || faults.rename {
        return false;
      }
      var after := files[name.value := files[fileName]] - {fileName};
      MoveKeeps(files, archives, fileName, name.value, after, limit);
      files, archives := after, archives + [name.value];
      ok := true;
    }

    /** The move of a file that is due; the next archive of the same day is looked for behind this one. */
    method Rotate(day: bool, faults: Faults, ghost limit: Limit) returns (ok: bool)
      requires Valid() && fileName in files
      modifies this`fileOpen, this`generation, this`files, this`archives
      ensures Valid() && !fileOpen && Ledger() == old(Ledger()) && OthersKept(old(files), files, fileName)
      ensures old(archives) <= archives
      ensures ok <==> !old(MoveFails(fileCreateTime, faults))
      ensures ok ==> fileName !in files && |archives| == |old(archives)| + 1
      ensures ok ==> Archived(old(OnDisk()), OnDisk(), fileName, fileCreateTime, day)
      ensures !ok ==> files == old(files) && archives == old(archives)
      ensures old(Bounded(limit)) && limit.size > 0 ==> Bounded(limit)
    {
      ok := MoveLogFile(fileCreateTime, faults, limit);
      if ok {
        Advance(day, old(OnDisk()), limit);
      }
    }

    /** A new day starts over, a full file counts on. */
    method Advance(day: bool, ghost before: Disk, ghost limit: Limit)
      requires Valid()
      requires var next := OnDisk().(generation := generation + 1);
               ArchivedAt(before, next, fileName, fileCreateTime, false, generation)
      modifies this`generation
      ensures Valid() && Ledger() == old(Ledger()) && Bounded(limit) == old(Bounded(limit))
      ensures Archived(before, OnDisk(), fileName, fileCreateTime, day)
    {
      ghost var g := generation;
      generation := if day then 0 else generation + 1;
      assert ArchivedAt(before, OnDisk(), fileName, fileCreateTime, day, g);
    }

    /** Whether the open file is due, or was deleted by someone else. */
    method UpdateOldFileFd(now: Time, faults: Faults, ghost limit: Limit) returns (ok: bool)
      requires Valid()
      modifies this`fileOpen, this`generation, this`files, this`archives
      ensures Valid() && Ledger() == old(Ledger()) && old(archives) <= archives
      ensures OthersKept(old(files), files, fileName)
      ensures ok <==> old((fileOpen ==> !faults.stat) && (Due(now) ==> !MoveFails(fileCreateTime, faults)))
      ensures !ok ==> files == old(files) && archives == old(archives) && fileOpen == faults.stat
      ensures ok ==> (fileOpen <==> old(fileOpen && fileName in files && !Due(now)))
      ensures !old(Due(now)) ==> files == old(files) && archives == old(archives) && generation == old(generation)
      ensures ok && old(Due(now)) ==> fileName !in files && |archives| == |old(archives)| + 1
      ensures ok && old(Due(now)) ==> Archived(old(OnDisk()), OnDisk(), fileName, fileCreateTime, DayDue(now))
      ensures old(Bounded(limit)) && limit.size > 0 ==> Bounded(limit)
    {
      if !fileOpen {
        return true;
      }
      if faults.stat {
        return false;
      }
      if fileName !in files {
        fileOpen := false;
        return true;
      }
      var day := DayDue(now);
      if day || SizeDue() {
        ok := Rotate(day, faults, limit);
        return;
      }
      ok := true;
    }

    /** openLogFile: create or append, then read the creation time. */
    method OpenLogFile(created: Time, faults: Faults, ghost limit: Limit) returns (ok: bool)
      requires Valid() && !fileOpen
      modifies this`fileOpen, this`fileCreateTime, this`files
      ensures Valid() && Ledger() == old(Ledger()) && OthersKept(old(files), files, fileName)
      ensures Read(files, fileName) == old(Read(files, fileName))
      ensures ok == fileOpen && (ok ==> fileName in files && fileCreateTime == created)
      ensures ok <==> !faults.open && !faults.ctime
      ensures old(Bounded(limit)) ==> Bounded(limit)
    {
      if faults.open {
        return false;
      }
      var after := files[fileName := Read(files, fileName)];
      assert Read(files, fileName) + [] == Read(files, fileName);
      AppendKeeps(files, archives, fileName, [], after, limit);
      files := after;
      if faults.ctime {
        return false;
      }
      fileCreateTime := created;
      fileOpen := true;
      ok := true;
    }

    /** The final write; what happened since `before` still holds. */
    method AppendActive(bytes: Text, ghost before: Disk, ghost t: Time, ghost day: bool, ghost limit: Limit)
      requires Valid() && OthersKept(before.files, files, fileName)
      modifies this`files
      ensures Valid() && Ledger() == old(Ledger()) + bytes && OthersKept(before.files, files, fileName)
      ensures Read(files, fileName) == old(Read(files, fileName)) + bytes
      ensures old(Archived(before, OnDisk(), fileName, t, day)) ==> Archived(before, OnDisk(), fileName, t, day)
      ensures old(Bounded(limit)) && (limit.from <= |archives| ==> |Read(files, fileName)| < limit.size)
          ==> Bounded(limit)
    {
      ghost var between := OnDisk();
      var after := files[fileName := Read(files, fileName) + bytes];
      AppendKeeps(files, archives, fileName, bytes, after, limit);
      OthersKeptTrans(before.files, files, after, fileName);
      files := after;
      if Archived(before, between, fileName, t, day) {
        ArchivedKept(before, between, OnDisk(), fileName, t, day);
      }
    }

    /** updateFileFd: rotate if due, open if needed. */
    method UpdateFileFd(now: Time, created: Time, faults: Faults, ghost limit: Limit) returns (ok: bool)
      requires Valid()
      modifies this`fileOpen, this`generation, this`files, this`archives, this`fileCreateTime
      ensures Valid() && Ledger() == old(Ledger()) && old(archives) <= archives
      ensures OthersKept(old(files), files, fileName)
      ensures ok <==> old(Ready(now, faults))
      ensures ok ==> fileOpen && (!old(fileOpen) ==> fileCreateTime == created)
      ensures !old(Due(now)) ==> generation == old(generation)
      ensures archives == old(archives) ==> Read(files, fileName) == old(Read(files, fileName))
      ensures archives != old(archives) <==> old(Moves(now, faults))
      ensures archives != old(archives) ==> Read(files, fileName) == []
      ensures archives != old(archives) ==>
                Archived(old(OnDisk()), OnDisk(), fileName, old(fileCreateTime), old(DayDue(now)))
      ensures old(Stays(now)) ==> fileCreateTime == old(fileCreateTime)
      ensures ok ==> fileCreateTime == created || (fileCreateTime == old(fileCreateTime) && old(Stays(now)))
      ensures ok && old(Tame()) ==> !SizeDue()
      ensures old(Tame()) ==> (Tame() <==> !old(Stuck(faults)))
      ensures old(Stuck(faults)) ==> !fileOpen && archives == old(archives)
      ensures old(Bounded(limit)) && limit.size > 0 ==> Bounded(limit)
    {
      ok := UpdateOldFileFd(now, faults, limit);
      if ok && !fileOpen {
        ghost var between := OnDisk();
        ok := OpenLogFile(created, faults, limit);
        OthersKeptTrans(old(files), between.files, files, fileName);
        if archives != old(archives) {
          ArchivedKept(old(OnDisk()), between, OnDisk(), fileName, old(fileCreateTime), old(DayDue(now)));
        }
      }
    }

    /** One write. Exactly the bytes taken by the final write are added to what is kept, no other file changes,
        and all of them are taken exactly if no failing call is reached. The file is left full and closed exactly
        if the move of a full file fails; otherwise files stay within the split size and one write. */
    method WriteSync(buf: Text, now: Time, created: Time, faults: Faults, ghost limit: Limit)
      returns (r: Outcome, ghost landed: Text)
      requires Valid()
      modifies this`fileOpen, this`generation, this`files, this`archives, this`fileCreateTime
      ensures Valid() && old(archives) <= archives && OthersKept(old(files), files, fileName)
      ensures landed <= buf && Ledger() == old(Ledger()) + landed
      ensures r.Wrote? <==> old(Ready(now, faults)) && (faults.takes.Some? ==> |buf| <= faults.takes.value)
      ensures landed == buf <==> r.Wrote? || buf == []
      ensures !old(Ready(now, faults)) ==> landed == []
      ensures r.Wrote? ==> r.n == |buf| && fileOpen && (!old(fileOpen) ==> fileCreateTime == created)
      ensures !old(Due(now)) ==> generation == old(generation)
      ensures archives == old(archives) ==> Read(files, fileName) == old(Read(files, fileName)) + landed
      ensures archives != old(archives) <==> old(Moves(now, faults))
      ensures archives != old(archives) ==>
                && Archived(old(OnDisk()), OnDisk(), fileName, old(fileCreateTime), old(DayDue(now)))
                && Read(files, fileName) == landed
      ensures old(Stays(now)) ==> fileCreateTime == old(fileCreateTime)
      ensures r.Wrote? ==> fileCreateTime == created || (fileCreateTime == old(fileCreateTime) && old(Stays(now)))
      ensures old(Tame()) ==> (Tame() <==> !old(Stuck(faults)))
      ensures old(Stuck(faults)) ==> !fileOpen && landed == [] && archives == old(archives)
      ensures old(Bounded(limit)) && SplitSize() + |buf| <= limit.size
           && (limit.from <= |old(archives)| ==> old(Tame()))
          ==> Bounded(limit)
    {
      landed := [];
      var ok := UpdateFileFd(now, created, faults, limit);
      if !ok {
        assert Ledger() + [] == Ledger();
        return Failed, landed;
      }
      var n := if faults.takes.Some? && faults.takes.value < |buf| then faults.takes.value else |buf|;
      landed := buf[..n];
      assert [] + landed == landed;
      AppendActive(buf[..n], old(OnDisk()), old(fileCreateTime), old(DayDue(now)), limit);
      r := if n == |buf| then Wrote(n) else Failed;
    }
  }

  datatype Request = Request(buf: Text, now: Time, created: Time, faults: Faults)

  /** What a write may leave behind: nothing but a first part of its buffer, and all of it exactly on success. */
  ghost predicate Settled(q: Request, r: Outcome, landed: Text) {
    && landed <= q.buf
    && (landed == q.buf <==> r.Wrote? || q.buf == [])
    && (q.faults == NO_FAULTS ==> r.Wrote?)
  }

  ghost predicate AllSettled(requests: seq<Request>, outcomes: seq<Outcome>, landed: seq<Text>) {
    && |requests| == |outcomes| == |landed|
    && forall i :: 0 <= i < |requests| ==> Settled(requests[i], outcomes[i], landed[i])
  }

  lemma SettledSnoc(requests: seq<Request>, k: nat, outcomes: seq<Outcome>, landed: seq<Text>, r: Outcome, bytes: Text)
    requires k < |requests| && AllSettled(requests[..k], outcomes, landed) && Settled(requests[k], r, bytes)
    ensures AllSettled(requests[..k + 1], outcomes + [r], landed + [bytes])
  {
    forall i | 0 <= i < k ensures Settled(requests[i], outcomes[i], landed[i]) {
      assert requests[..k][i] == requests[i];
    }
  }

  /** Any run of writes: the archives in move order followed by the active file are what was kept before and
      then the bytes of every write in order. */
  method Run(l: Logger, requests: seq<Request>) returns (outcomes: seq<Outcome>, ghost landed: seq<Text>)
    requires l.Valid()
    modifies l`fileOpen, l`generation, l`files, l`archives, l`fileCreateTime
    ensures l.Valid() && old(l.archives) <= l.archives && OthersKept(old(l.files), l.files, l.fileName)
    ensures l.Ledger() == old(l.Ledger()) + Concat(landed)
    ensures AllSettled(requests, outcomes, landed)
  {
    outcomes, landed := [], [];
    ghost var start := l.Ledger();
    assert start == start + Concat<byte>([]);
    for k := 0 to |requests|
      invariant l.Valid() && old(l.archives) <= l.archives && OthersKept(old(l.files), l.files, l.fileName)
      invariant l.Ledger() == start + Concat(landed)
      invariant AllSettled(requests[..k], outcomes, landed)
    {
      var q := requests[k];
      ghost var bytes;
      var r;
      r, bytes := l.WriteSync(q.buf, q.now, q.created, q.faults, Limit(0, 0));
      LedgerSnoc(start, landed, bytes);
      SettledSnoc(requests, k, outcomes, landed, r, bytes);
      outcomes, landed := outcomes + [r], landed + [bytes];
    }
    assert requests[..|requests|] == requests;
  }

  lemma LedgerSnoc(start: Text, landed: seq<Text>, bytes: Text)
    ensures start + Concat(landed + [bytes]) == start + Concat(landed) + bytes
  {
    ConcatSnoc(landed, bytes);
  }

  // ---------------------------------------------------------------- when a file is archived

  /** A write that meets no fault, on an open file that exists. If the file was created more than a day before the
      write or on another day of the month, or if it has reached the split size, exactly that file is archived, under
      the first free name of its own creation date, the generation starts over on a new day and otherwise goes on
      behind that name, and the active file holds exactly the new bytes. In all other cases nothing is moved and the
      bytes are appended. */
  method WriteCleanly(l: Logger, buf: Text, now: Time, created: Time)
    requires l.Valid() && l.fileOpen && l.fileName in l.files
    modifies l`fileOpen, l`generation, l`files, l`archives, l`fileCreateTime
    ensures l.Valid() && l.fileOpen
    ensures var t, size := old(l.fileCreateTime), |old(Read(l.files, l.fileName))|;
            var day := t.unix + 86400 < now.unix || t.day != now.day;
            if day || size >= l.fileSplitMB * 1024 * 1024 then
              && Archived(old(l.OnDisk()), l.OnDisk(), l.fileName, t, day)
              && Read(l.files, l.fileName) == buf && l.fileCreateTime == created
            else
              && l.archives == old(l.archives) && l.generation == old(l.generation) && l.fileCreateTime == t
              && Read(l.files, l.fileName) == old(Read(l.files, l.fileName)) + buf
  {
    ghost var landed;
    var r;
    r, landed := l.WriteSync(buf, now, created, NO_FAULTS, Limit(0, 0));
  }

  /** now is at most a day after t, on the same day of the month. */
  predicate SameDay(t: Time, now: Time) { now.unix <= t.unix + 86400 && t.day == now.day }

  /** Over any run with any faults in which new files are created on the day of their write: a write that succeeds
      on a file that was open before it lands in a file created on the day of that write. */
  method RunDated(l: Logger, requests: seq<Request>)
    returns (outcomes: seq<Outcome>, ghost wasOpen: seq<bool>, ghost stamps: seq<Time>)
    requires l.Valid() && forall i :: 0 <= i < |requests| ==> SameDay(requests[i].created, requests[i].now)
    modifies l`fileOpen, l`generation, l`files, l`archives, l`fileCreateTime
    ensures l.Valid() && |outcomes| == |wasOpen| == |stamps| == |requests|
    ensures forall i :: 0 <= i < |requests| && outcomes[i].Wrote? && wasOpen[i] ==> SameDay(stamps[i], requests[i].now)
  {
    outcomes, wasOpen, stamps := [], [], [];
    for k := 0 to |requests|
      invariant l.Valid() && |outcomes| == |wasOpen| == |stamps| == k
      invariant forall i :: 0 <= i < k && outcomes[i].Wrote? && wasOpen[i] ==> SameDay(stamps[i], requests[i].now)
    {
      var q := requests[k];
      ghost var bytes, open := [], l.fileOpen;
      var r;
      r, bytes := WriteDated(l, q);
      outcomes, wasOpen, stamps := outcomes + [r], wasOpen + [open], stamps + [l.fileCreateTime];
    }
  }

  method WriteDated(l: Logger, q: Request) returns (r: Outcome, ghost landed: Text)
    requires l.Valid() && SameDay(q.created, q.now)
    modifies l`fileOpen, l`generation, l`files, l`archives, l`fileCreateTime
    ensures l.Valid() && l.Ledger() == old(l.Ledger()) + landed && (r.Wrote? ==> landed == q.buf)
    ensures r.Wrote? && old(l.fileOpen) ==> SameDay(l.fileCreateTime, q.now)
  {
    r, landed := l.WriteSync(q.buf, q.now, q.created, q.faults, Limit(0, 0));
  }

  // ---------------------------------------------------------------- the size bound

  /** No move can fail: the probes and the rename succeed, or the write ends before them. */
  predicate Harmless(f: Faults) { f.stat || (f.probe.None? && !f.rename) }

  /** A run in which no move fails, from any state: every file but the one active at the start stays below the
      split size plus the longest write; and so does that one, if it is not too long already and, should it be
      closed, below the split size. */
  method RunBounded(l: Logger, requests: seq<Request>, longest: nat)
    requires l.Valid()
    requires forall i :: 0 <= i < |requests| ==> |requests[i].buf| <= longest && Harmless(requests[i].faults)
    modifies l`fileOpen, l`generation, l`files, l`archives, l`fileCreateTime
    ensures l.Valid() && old(l.archives) <= l.archives
    ensures l.Bounded(Limit(|old(l.archives)| + 1, l.SplitSize() + longest))
    ensures old(l.Tame()) && |old(Read(l.files, l.fileName))| < l.SplitSize() + longest ==>
              l.Bounded(Limit(|old(l.archives)|, l.SplitSize() + longest))
  {
    ghost var first, size := |l.archives|, l.SplitSize() + longest;
    ghost var small := l.Tame() && |Read(l.files, l.fileName)| < size;
    ghost var limit := Limit(if small then first else first + 1, size);
    for k := 0 to |requests|
      invariant l.Valid() && old(l.archives) <= l.archives && l.Bounded(limit)
      invariant limit.from <= |l.archives| ==> l.Tame()
    {
      var q := requests[k];
      ghost var bytes;
      var r;
      r, bytes := l.WriteSync(q.buf, q.now, q.created, q.faults, limit);
    }
    assert small ==> l.Bounded(Limit(first + 1, size));
  }

  /** A failed move of a full file leaves it closed, and the next write reopens it and extends it. */
  method FailedMoveExtends(l: Logger, failing: Request, next: Request)
    requires l.Valid() && l.Stuck(failing.faults) && next.faults == NO_FAULTS
    modifies l`fileOpen, l`generation, l`files, l`archives, l`fileCreateTime
    ensures l.Valid() && l.fileOpen && l.SizeDue() && l.archives == old(l.archives)
    ensures Read(l.files, l.fileName) == old(Read(l.files, l.fileName)) + next.buf
    ensures !l.Bounded(Limit(|l.archives|, l.SplitSize() + |next.buf|))
  {
    ghost var lost, bytes;
    var r;
    r, lost := l.WriteSync(failing.buf, failing.now, failing.created, failing.faults, Limit(0, 0));
    r, bytes := l.WriteSync(next.buf, next.now, next.created, next.faults, Limit(0, 0));
  }

  function Buffers(requests: seq<Request>): (bufs: seq<Text>) {
    if requests == [] then [] else Buffers(requests[..|requests| - 1]) + [requests[|requests| - 1].buf]
  }

  /** A rename that keeps failing whenever it is tried lets one file grow by every second write: no size bounds
      it. */
  method FailedMovesGrow(l: Logger, failing: seq<Request>, writes: seq<Request>)
    requires l.Valid() && l.fileOpen && l.SizeDue() && |failing| == |writes|
    requires forall i :: 0 <= i < |failing| ==> failing[i].faults.rename && !failing[i].faults.stat
    requires forall i :: 0 <= i < |writes| ==> writes[i].faults == NO_FAULTS
    modifies l`fileOpen, l`generation, l`files, l`archives, l`fileCreateTime
    ensures l.Valid() && l.archives == old(l.archives)
    ensures Read(l.files, l.fileName) == old(Read(l.files, l.fileName)) + Concat(Buffers(writes))
  {
    ghost var start := Read(l.files, l.fileName);
    assert start + Concat<byte>([]) == start;
    for k := 0 to |writes|
      invariant l.Valid() && l.fileOpen && l.SizeDue() && l.archives == old(l.archives)
      invariant Read(l.files, l.fileName) == start + Concat(Buffers(writes[..k]))
    {
      FailedMoveExtends(l, failing[k], writes[k]);
      assert writes[..k + 1][..k] == writes[..k];
      LedgerSnoc(start, Buffers(writes[..k]), writes[k].buf);
    }
    assert writes[..|writes|] == writes;
  }

  /** A file system in which the first n archive names of a day are taken. */
  function Occupied(file: Text, t: Time, n: nat): (files: map<Text, Text>)
    ensures file !in files && AllTaken(files, file, t, 0, n)
  {
    var names := set h | 0 <= h < n :: ArchiveName(file, t, h);
    map p | p in names :: []
  }

  /** The bound fails for every fault that can fail a move: on a new file, a write of the split size, the same
      write with that fault and the same write again leave one file of twice the split size. */
  method FailedMoveExceeds(f: Faults, w: Text, now: Time) returns (l: Logger)
    requires !Harmless(f) && |w| == 0x10_0000
    ensures fresh(l) && l.Valid() && l.SplitSize() == |w| && l.archives == [] && Read(l.files, l.fileName) == w + w
    ensures !l.Bounded(Limit(0, l.SplitSize() + |w|))
  {
    var file: Text := [97];
    var files := Occupied(file, now, if f.probe.Some? then f.probe.value else 0);
    l := new Logger(file, 1, files);
    ghost var bytes;
    var r;
    r, bytes := l.WriteSync(w, now, now, NO_FAULTS, Limit(0, 0));
    assert [] + w == w;
    if f.probe.Some? {
      StillTaken(files, l.files, file, now, 0, f.probe.value);
    }
    FailedMoveExtends(l, Request(w, now, now, f), Request(w, now, now, NO_FAULTS));
  }

  lemma StillTaken(before: map<Text, Text>, after: map<Text, Text>, file: Text, t: Time, g: nat, h: nat)
    requires OthersKept(before, after, file) && AllTaken(before, file, t, g, h)
    ensures AllTaken(after, file, t, g, h)
  {
  }
}
