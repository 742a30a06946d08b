/** common/uid: ids packed from function id, instance id, seconds and a sequence number. */
module Uid {
  import opened GoBase

  const BASE: int := 1629941248
  const SEQ: int := 0x1_0000                       // 2^16
  const TIME: int := 0x2000_0000                   // 2^29
  const INS: int := 0x800                          // 2^11
  const INS_UNIT: int := 0x2000_0000_0000          // 2^45
  const FUNC_UNIT: int := 0x100_0000_0000_0000     // 2^56

  datatype Param = Param(lastStamp: int, prefix: int, sequence: int)

  /** InitUIDGenerator: the shifted ids are added in 64 bits. */
  function InitParam(funcId: int, insId: int): (g: Param)
    requires 0 <= funcId < 256 && 0 <= insId < 0x1_0000_0000
    ensures g.lastStamp == 0 && g.sequence == 0
  {
    Param(0, (funcId * FUNC_UNIT + insId * INS_UNIT) % U64, 0)
  }

  /** One call at time now: the new generator state and the id, 0 for no id. */
  function Generate(g: Param, now: int): (r: (Param, int)) {
    if now < BASE then (g, 0)
    else
      var h := if g.lastStamp != now then g.(lastStamp := now, sequence := 0) else g;
      if h.sequence > SEQ - 1 then (h, 0)
      else (h.(sequence := h.sequence + 1), (h.prefix + (now - BASE) * SEQ + h.sequence) % U64)
  }

  class Generator {
    var lastStamp: int
    var prefixUID: int
    var sequence: int

    ghost function State(): (g: Param)
      reads this
    {
      Param(lastStamp, prefixUID, sequence)
    }

    constructor (funcId: int, insId: int)
      requires 0 <= funcId < 256 && 0 <= insId < 0x1_0000_0000
      ensures State() == InitParam(funcId, insId)
    {
      lastStamp, sequence := 0, 0;
      prefixUID := (funcId * FUNC_UNIT + insId * INS_UNIT) % U64;
    }

    method Next(now: int) returns (id: int)
      modifies this`lastStamp, this`sequence
      ensures (State(), id) == Generate(old(State()), now)
    {
      if now < BASE {
        return 0;
      }
      if lastStamp != now {
        lastStamp := now;
        sequence := 0;
      }
      var temp := now - BASE;
      var result := (prefixUID + temp * SEQ) % U64;
      if sequence > SEQ - 1 {
        return 0;
      }
      id := (result + sequence) % U64;
      sequence := sequence + 1;
    }
  }

  // ---------------------------------------------------------------- the four fields

  function Pack(funcId: int, insId: int, seconds: int, number: int): (id: int) {
    funcId * FUNC_UNIT + insId * INS_UNIT + seconds * SEQ + number
  }

  lemma QuotientIs(id: int, q: int, r: int, m: int)
    requires 0 <= r < m && id == q * m + r
    ensures id / m == q && id % m == r
  {
    var k := id / m;
    assert id == k * m + id % m;
    assert (k - q) * m == r - id % m;
    assert k - q >= 1 ==> (k - q) * m >= m;
    assert k - q <= -1 ==> (k - q) * m <= -m;
  }

  /** The fields of an id can be read back from it. */
  lemma PackDecodes(funcId: int, insId: int, seconds: int, number: int)
    requires 0 <= funcId < 256 && 0 <= insId < INS && 0 <= seconds < TIME && 0 <= number < SEQ
    ensures var id := Pack(funcId, insId, seconds, number);
            && 0 <= id < U64
            && id / FUNC_UNIT == funcId
            && id / INS_UNIT % INS == insId
            && id / SEQ % TIME == seconds
            && id % SEQ == number
  {
    var id := Pack(funcId, insId, seconds, number);
    var top := funcId * INS + insId;
    var mid := top * TIME + seconds;
    QuotientIs(id, mid, number, SEQ);
    QuotientIs(mid, top, seconds, TIME);
    QuotientIs(id, top, seconds * SEQ + number, INS_UNIT);
    QuotientIs(top, funcId, insId, INS);
    QuotientIs(id, funcId, insId * INS_UNIT + seconds * SEQ + number, FUNC_UNIT);
  }

  // ---------------------------------------------------------------- every run

  /** One generator and the clock readings of its calls. */
  datatype Run = Run(funcId: int, insId: int, clock: seq<int>) {
    /** The ids and the clock stay inside their fields. */
    ghost predicate InRange() {
      && 0 <= funcId < 256 && 0 <= insId < INS
      && (forall i :: 0 <= i < |clock| ==> clock[i] < BASE + TIME)
    }

    /** The clock never goes back. */
    ghost predicate Valid() {
      InRange() && forall i, j :: 0 <= i < j < |clock| ==> clock[i] <= clock[j]
    }

    ghost function At(n: nat): (g: Param)
      requires 0 <= funcId < 256 && 0 <= insId < INS && n <= |clock|
    {
      if n == 0 then InitParam(funcId, insId) else Generate(At(n - 1), clock[n - 1]).0
    }

    /** The result of call n. */
    ghost function Id(n: nat): (id: int)
      requires 0 <= funcId < 256 && 0 <= insId < INS && n < |clock|
    {
      Generate(At(n), clock[n]).1
    }

    /** The sequence number call n works with. */
    ghost function Number(n: nat): (k: int)
      requires 0 <= funcId < 256 && 0 <= insId < INS && n < |clock|
    {
      if At(n).lastStamp == clock[n] then At(n).sequence else 0
    }

    /** The number of ids issued in second t by the first n calls. */
    ghost function Count(n: nat, t: int): (c: nat)
      requires 0 <= funcId < 256 && 0 <= insId < INS && n <= |clock|
    {
      if n == 0 then 0 else Count(n - 1, t) + if clock[n - 1] == t && Id(n - 1) != 0 then 1 else 0
    }
  }

  lemma {:induction false} StateBounds(r: Run, n: nat)
    requires r.InRange() && n <= |r.clock|
    ensures r.At(n).prefix == r.funcId * FUNC_UNIT + r.insId * INS_UNIT
    ensures 0 <= r.At(n).sequence <= SEQ
    ensures var stamp := r.At(n).lastStamp;
            stamp == 0 || (BASE <= stamp && exists i :: 0 <= i < n && r.clock[i] == stamp)
  {
    if n > 0 {
      StateBounds(r, n - 1);
      assert r.clock[n - 1] == r.clock[n - 1];
    }
  }

  /** A call at or after the base time with a free sequence number issues the packed id. */
  lemma IssuedId(r: Run, n: nat)
    requires r.InRange() && n < |r.clock| && BASE <= r.clock[n] && 0 <= r.Number(n) < SEQ
    ensures r.Id(n) == Pack(r.funcId, r.insId, r.clock[n] - BASE, r.Number(n))
  {
    StateBounds(r, n);
    PackDecodes(r.funcId, r.insId, r.clock[n] - BASE, r.Number(n));
  }

  /** Every id issued holds the generator's own function and instance id, its second and a sequence number. */
  lemma IdFields(r: Run, n: nat)
    requires r.InRange() && n < |r.clock| && r.Id(n) != 0
    ensures BASE <= r.clock[n] && 0 <= r.Number(n) < SEQ
    ensures r.Id(n) == Pack(r.funcId, r.insId, r.clock[n] - BASE, r.Number(n))
  {
    StateBounds(r, n);
    if BASE <= r.clock[n] && r.Number(n) < SEQ {
      IssuedId(r, n);
    }
  }

  /** While no other second is seen, the sequence number stays ahead of every id issued in this one. */
  lemma {:induction false} NumberPasses(r: Run, i: nat, j: nat)
    requires r.InRange() && i < j <= |r.clock| && r.Id(i) != 0
    requires forall k :: i < k < j && BASE <= r.clock[k] ==> r.clock[k] == r.clock[i]
    ensures r.At(j).lastStamp == r.clock[i] && r.At(j).sequence > r.Number(i)
  {
    IdFields(r, i);
    if j > i + 1 {
      NumberPasses(r, i, j - 1);
    }
  }

  /** The ids of one generator are strictly increasing. */
  lemma IdsIncrease(r: Run, i: nat, j: nat)
    requires r.Valid() && i < j < |r.clock| && r.Id(i) != 0 && r.Id(j) != 0
    ensures r.Id(i) < r.Id(j)
  {
    IdFields(r, i);
    IdFields(r, j);
    assert r.clock[i] <= r.clock[j];
    if r.clock[i] == r.clock[j] {
      assert forall k :: i < k < j ==> r.clock[i] <= r.clock[k] <= r.clock[j];
      NumberPasses(r, i, j);
    }
  }

  /** Equal ids come from the same generator ids, second and sequence number, so generators with different
      function or instance ids never issue the same id. */
  lemma GeneratorsDisjoint(r: Run, n: nat, q: Run, k: nat)
    requires r.InRange() && n < |r.clock| && r.Id(n) != 0
    requires q.InRange() && k < |q.clock| && q.Id(k) != 0
    ensures r.Id(n) == q.Id(k) ==>
              r.funcId == q.funcId && r.insId == q.insId && r.clock[n] == q.clock[k] && r.Number(n) == q.Number(k)
  {
    IdFields(r, n);
    IdFields(q, k);
    PackDecodes(r.funcId, r.insId, r.clock[n] - BASE, r.Number(n));
    PackDecodes(q.funcId, q.insId, q.clock[k] - BASE, q.Number(k));
  }

  /** No second yields more than 65536 ids. */
  lemma {:induction false} AtMostPerSecond(r: Run, n: nat, t: int)
    requires r.Valid() && n <= |r.clock|
    ensures r.Count(n, t) <= SEQ
    ensures r.At(n).lastStamp == t && BASE <= t ==> r.Count(n, t) <= r.At(n).sequence
    ensures (forall i :: 0 <= i < n ==> r.clock[i] < t) || t < BASE ==> r.Count(n, t) == 0
  {
    StateBounds(r, n);
    if n > 0 {
      AtMostPerSecond(r, n - 1, t);
      StateBounds(r, n - 1);
      var now, before := r.clock[n - 1], r.At(n - 1);
      if now == t && BASE <= t && before.lastStamp != t {
        forall i | 0 <= i < n - 1 ensures r.clock[i] < t {
          EarlierSeconds(r, n - 1, i);
        }
      }
    }
  }

  /** After a call at or after the base time, the stamp is the time of the last call. */
  lemma {:induction false} StampIsLast(r: Run, n: nat)
    requires r.Valid() && 0 < n <= |r.clock|
    ensures r.At(n).lastStamp == if r.clock[n - 1] >= BASE then r.clock[n - 1] else 0
  {
    if n > 1 {
      StampIsLast(r, n - 1);
      assert r.clock[n - 2] <= r.clock[n - 1];
    }
  }

  lemma EarlierSeconds(r: Run, n: nat, i: nat)
    requires r.Valid() && i < n < |r.clock| && BASE <= r.clock[n] && r.At(n).lastStamp != r.clock[n]
    ensures r.clock[i] < r.clock[n]
  {
    StampIsLast(r, n);
    assert r.clock[n - 1] <= r.clock[n];
    assert i == n - 1 || r.clock[i] <= r.clock[n - 1];
  }

  /** The number of the first n calls that saw second t. */
  function CallsIn(clock: seq<int>, n: nat, t: int): (c: nat)
    requires n <= |clock|
  {
    if n == 0 then 0 else CallsIn(clock, n - 1, t) + if clock[n - 1] == t then 1 else 0
  }

  lemma {:induction false} NoCalls(clock: seq<int>, n: nat, t: int)
    requires n <= |clock| && forall i :: 0 <= i < n ==> clock[i] != t
    ensures CallsIn(clock, n, t) == 0
  {
    if n > 0 {
      NoCalls(clock, n - 1, t);
    }
  }

  /** A second that the stamp does not show has not been seen. */
  lemma NewSecond(r: Run, n: nat)
    requires r.Valid() && n < |r.clock| && BASE <= r.clock[n] && r.At(n).lastStamp != r.clock[n]
    ensures CallsIn(r.clock, n, r.clock[n]) == 0
  {
    forall i | 0 <= i < n ensures r.clock[i] != r.clock[n] {
      EarlierSeconds(r, n, i);
    }
    NoCalls(r.clock, n, r.clock[n]);
  }

  lemma {:induction false} SequenceCounts(r: Run, n: nat)
    requires r.Valid() && n <= |r.clock| && BASE <= r.At(n).lastStamp
    ensures var c := CallsIn(r.clock, n, r.At(n).lastStamp); r.At(n).sequence == if c <= SEQ then c else SEQ
  {
    var now, before := r.clock[n - 1], r.At(n - 1);
    if now < BASE || before.lastStamp == now {
      SequenceCounts(r, n - 1);
    } else {
      NewSecond(r, n - 1);
    }
  }

  /** With a nondecreasing clock, every call in closed form: before the base time no id; otherwise the id packs the
      second and the number of earlier calls in it, while that number is below 65536. */
  lemma ClosedForm(r: Run, n: nat)
    requires r.Valid() && n < |r.clock|
    ensures var t, c := r.clock[n], CallsIn(r.clock, n, r.clock[n]);
            r.Id(n) == if t < 1629941248 || c >= 65536 then 0
                       else r.funcId * 0x100_0000_0000_0000 + r.insId * 0x2000_0000_0000
                            + (t - 1629941248) * 0x1_0000 + c
  {
    StateBounds(r, n);
    if BASE <= r.clock[n] {
      if r.At(n).lastStamp == r.clock[n] {
        SequenceCounts(r, n);
      } else {
        NewSecond(r, n);
      }
      if r.Number(n) < SEQ {
        IssuedId(r, n);
      }
    }
  }

  // ---------------------------------------------------------------- clocks that step back

  /** From call i to call n, no reading at or after the base time is of another second than t. */
  ghost predicate Only(clock: seq<int>, i: nat, n: nat, t: int)
    requires n <= |clock|
  {
    forall k :: i <= k < n && BASE <= clock[k] ==> clock[k] == t
  }

  /** An earlier call saw the same second, and none since has seen another. */
  ghost predicate Repeats(clock: seq<int>, i: nat)
    requires i < |clock|
  {
    exists h: nat :: h < i && clock[h] == clock[i] && Only(clock, h, i, clock[i])
  }

  /** The second of call i has an id for it: all have, but for the first call of generator 0/0 in the base second,
      whose id would be 0. */
  ghost predicate Counts(r: Run, i: nat)
    requires i < |r.clock|
  {
    r.funcId > 0 || r.insId > 0 || r.clock[i] > BASE || Repeats(r.clock, i)
  }

  /** Once a call has seen another second, no later call sees this one again, or one of the two has no id. Calls
      before the base time do not matter. */
  ghost predicate NoReturn(r: Run) {
    forall i, k, j :: 0 <= i < k < j < |r.clock| && Returns(r.clock, i, k, j) ==> !Counts(r, i) || !Counts(r, j)
  }

  ghost predicate Returns(clock: seq<int>, i: nat, k: nat, j: nat)
    requires i < k < j < |clock|
  {
    clock[i] == clock[j] && BASE <= clock[i] && BASE <= clock[k] && clock[k] != clock[i]
  }

  ghost predicate AllDistinct(r: Run)
    requires r.InRange()
  {
    forall i, j :: 0 <= i < j < |r.clock| && r.Id(i) != 0 ==> r.Id(i) != r.Id(j)
  }

  /** A second that none of the calls since `from` has seen, but one at or after the base time has passed, is
      not the stamp. */
  lemma {:induction false} StampElsewhere(r: Run, from: nat, n: nat, t: int)
    requires r.InRange() && from <= n <= |r.clock| && BASE <= t
    requires from == 0 || (BASE <= r.clock[from - 1] && r.clock[from - 1] != t)
    requires forall k :: from <= k < n ==> r.clock[k] != t
    ensures r.At(n).lastStamp != t
  {
    if n > from {
      StampElsewhere(r, from, n - 1, t);
    }
  }

  /** The first index at or after `from` whose reading is t. */
  ghost function FirstAt(clock: seq<int>, from: nat, t: int, some: nat): (n: nat)
    requires from <= some < |clock| && clock[some] == t
    ensures from <= n <= some && clock[n] == t && forall k :: from <= k < n ==> clock[k] != t
    decreases some - from
  {
    if clock[from] == t then from else FirstAt(clock, from + 1, t, some)
  }

  /** The first call in a second after another second starts the sequence over. */
  lemma RestartId(r: Run, from: nat, n: nat)
    requires r.InRange() && from <= n < |r.clock| && BASE <= r.clock[n]
    requires from == 0 || (BASE <= r.clock[from - 1] && r.clock[from - 1] != r.clock[n])
    requires forall k :: from <= k < n ==> r.clock[k] != r.clock[n]
    ensures r.Id(n) == Pack(r.funcId, r.insId, r.clock[n] - BASE, 0)
  {
    StampElsewhere(r, from, n, r.clock[n]);
    assert r.Number(n) == 0;
    IssuedId(r, n);
  }

  /** The stamp is the reading of the last call at or after the base time. */
  lemma {:induction false} StampSource(r: Run, n: nat) returns (h: nat)
    requires r.InRange() && n <= |r.clock| && r.At(n).lastStamp != 0
    ensures h < n && BASE <= r.clock[h] == r.At(n).lastStamp && Only(r.clock, h, n, r.clock[h])
  {
    if BASE <= r.clock[n - 1] {
      h := n - 1;
    } else {
      h := StampSource(r, n - 1);
    }
  }

  lemma NumberRepeats(r: Run, n: nat)
    requires r.InRange() && n < |r.clock| && BASE <= r.clock[n] && r.Number(n) > 0
    ensures Repeats(r.clock, n)
  {
    var h := StampSource(r, n);
    assert Only(r.clock, h, n, r.clock[n]);
  }

  /** Where the calls that saw only the second of call n begin. */
  lemma {:induction false} VisitStart(clock: seq<int>, n: nat, t: int) returns (from: nat)
    requires n < |clock|
    ensures from <= n && Only(clock, from, n, t) && (from == 0 || (BASE <= clock[from - 1] && clock[from - 1] != t))
  {
    if n == 0 || (BASE <= clock[n - 1] && clock[n - 1] != t) {
      from := n;
    } else {
      from := VisitStart(clock, n - 1, t);
    }
  }

  lemma {:induction false} StateWaits(r: Run, a: nat, b: nat)
    requires r.InRange() && a <= b <= |r.clock| && forall k :: a <= k < b ==> r.clock[k] < BASE
    ensures r.At(b) == r.At(a)
  {
    if a < b {
      StateWaits(r, a, b - 1);
    }
  }

  /** The second call in a second after another second gets number 1. */
  lemma SecondId(r: Run, from: nat, h: nat, i: nat) returns (b: nat)
    requires r.InRange() && from <= h < i < |r.clock| && BASE <= r.clock[i] == r.clock[h]
    requires from == 0 || (BASE <= r.clock[from - 1] && r.clock[from - 1] != r.clock[i])
    requires Only(r.clock, from, i, r.clock[i])
    ensures from <= b <= i && r.clock[b] == r.clock[i]
    ensures r.Id(b) == Pack(r.funcId, r.insId, r.clock[i] - BASE, 1)
  {
    var t := r.clock[i];
    var a := FirstAt(r.clock, from, t, h);
    StampElsewhere(r, from, a, t);
    StateBounds(r, a);
    assert r.At(a + 1).lastStamp == t && r.At(a + 1).sequence == 1;
    b := FirstAt(r.clock, a + 1, t, i);
    StateWaits(r, a + 1, b);
    assert r.Number(b) == 1;
    IssuedId(r, b);
  }

  lemma RepeatId(r: Run, i: nat) returns (from: nat, b: nat)
    requires r.InRange() && i < |r.clock| && BASE <= r.clock[i] && Repeats(r.clock, i)
    ensures from <= b <= i && r.Id(b) == Pack(r.funcId, r.insId, r.clock[i] - BASE, 1)
    ensures Only(r.clock, from, i, r.clock[i])
  {
    var h: nat :| h < i && r.clock[h] == r.clock[i] && Only(r.clock, h, i, r.clock[i]);
    from := VisitStart(r.clock, h, r.clock[i]);
    b := SecondId(r, from, h, i);
  }

  /** For every generator and any clock: no id is issued twice exactly when the clock does not return to a second
      it has left, with an id issued there before and after. */
  lemma DistinctExactly(r: Run)
    requires r.InRange()
    ensures AllDistinct(r) <==> NoReturn(r)
  {
    if NoReturn(r) {
      forall i, j | 0 <= i < j < |r.clock| && r.Id(i) != 0 ensures r.Id(i) != r.Id(j) {
        NoReturnDistinct(r, i, j);
      }
    } else {
      var i, k, j :| 0 <= i < k < j < |r.clock| && Returns(r.clock, i, k, j) && Counts(r, i) && Counts(r, j);
      ReturnRepeats(r, i, k, j);
    }
  }

  lemma NoReturnDistinct(r: Run, i: nat, j: nat)
    requires r.InRange() && NoReturn(r) && i < j < |r.clock| && r.Id(i) != 0
    ensures r.Id(i) != r.Id(j)
  {
    IdFields(r, i);
    if r.Id(j) != 0 {
      IdFields(r, j);
      GeneratorsDisjoint(r, i, r, j);
      if r.clock[i] == r.clock[j] && r.Number(i) == r.Number(j) {
        BothCount(r, i, j);
        forall k | i < k < j && BASE <= r.clock[k] ensures r.clock[k] == r.clock[i] {
          assert !Returns(r.clock, i, k, j);
        }
        NumberPasses(r, i, j);
      }
    }
  }

  lemma BothCount(r: Run, i: nat, j: nat)
    requires r.InRange() && i < j < |r.clock| && BASE <= r.clock[i] == r.clock[j] && r.Id(i) != 0
    requires r.Number(i) == r.Number(j)
    ensures Counts(r, i) && Counts(r, j)
  {
    IdFields(r, i);
    if r.Number(i) > 0 {
      NumberRepeats(r, i);
      NumberRepeats(r, j);
    }
  }

  lemma ReturnRepeats(r: Run, i: nat, k: nat, j: nat)
    requires r.InRange() && i < k < j < |r.clock| && Returns(r.clock, i, k, j) && Counts(r, i) && Counts(r, j)
    ensures !AllDistinct(r)
  {
    var t := r.clock[i];
    if r.funcId > 0 || r.insId > 0 || t > BASE {
      var a, b := FirstAt(r.clock, 0, t, i), FirstAt(r.clock, k + 1, t, j);
      RestartId(r, 0, a);
      RestartId(r, k + 1, b);
      assert a < b && r.Id(a) == r.Id(b) != 0;
    } else {
      var from, a := RepeatId(r, i);
      var later, b := RepeatId(r, j);
      assert k < later;
      assert a < b && r.Id(a) == r.Id(b) != 0;
    }
  }
}
