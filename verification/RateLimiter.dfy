// The token bucket: Get checks and subtracts in two steps and runs beside one
// session goroutine whose refill is also a read followed by an add.
module RateLimiter {
  import opened Common

  // ----------------------------------------------------------- one object at a time

  // The amount add puts in for a surplus s, with bucketSize 2 * a.
  function Amount(a: int, s: int): int {
    if 2 * a - s < a then 2 * a - s else a
  }

  // k refills in a row, nobody taking.
  function Refilled(a: int, s: int, k: nat): int
    decreases k
  {
    if k == 0 then s else Refilled(a, s + Amount(a, s), k - 1)
  }

  // The branch in add is a cap: k refills reach min(bucketSize, s + k * a).
  lemma {:induction false} RefilledIsCapped(a: int, s: int, k: nat)
    requires a >= 0 && s <= 2 * a
    ensures Refilled(a, s, k) == Min(2 * a, s + k * a)
    decreases k
  {
    if k > 0 {
      RefilledIsCapped(a, s + Amount(a, s), k - 1);
      assert k * a == (k - 1) * a + a;
      assert (k - 1) * a >= 0;
    }
  }

  // Two refills fill the bucket from any surplus in range.
  lemma TwoRefillsFill(a: int, s: int)
    requires a >= 0 && 0 <= s <= 2 * a
    ensures Refilled(a, s, 2) == 2 * a
  {
    RefilledIsCapped(a, s, 2);
  }

  // A lone Get is served after some number of refills exactly when its size fits
  // the bucket; from a non-negative surplus two refills are then enough.
  lemma ServedExactlyWhenFits(a: int, s: int, size: int)
    requires a > 0 && s <= 2 * a
    ensures (exists k: nat :: Refilled(a, s, k) >= size) <==> size <= 2 * a
    ensures s >= 0 && size <= 2 * a ==> Refilled(a, s, 2) >= size
  {
    if size <= 2 * a {
      var k: nat := if s < 0 then 2 - s else 2;
      RefilledIsCapped(a, s, k);
      assert k * a >= 2 * a - s by {
        if s < 0 {
          assert (2 - s) * a == 2 * a + (0 - s) * a;
          assert (0 - s) * a >= 0 - s;
        }
      }
      assert Refilled(a, s, k) >= size;
    } else {
      forall k: nat ensures Refilled(a, s, k) < size {
        RefilledIsCapped(a, s, k);
      }
    }
  }

  class Rate {
    var bucketSize: int
    var bucketSurplusSize: int
    var bucketAddSize: int

    constructor (addSize: int)
      ensures bucketAddSize == addSize && bucketSize == 2 * addSize && bucketSurplusSize == 0
    {
      bucketSize := addSize * 2;
      bucketSurplusSize := 0;
      bucketAddSize := addSize;
    }

    ghost predicate Valid()
      reads this
    {
      bucketAddSize >= 0 && bucketSize == 2 * bucketAddSize && bucketSurplusSize <= bucketSize
    }

    // What the session does on each tick is Add(bucketAddSize).
    method Add(size: int)
      requires Valid() && size == bucketAddSize
      modifies this`bucketSurplusSize
      ensures Valid() && bucketSurplusSize == Refilled(bucketAddSize, old(bucketSurplusSize), 1)
    {
      var res := bucketSize - bucketSurplusSize;
      if res < bucketAddSize {
        bucketSurplusSize := bucketSurplusSize + res;
      } else {
        bucketSurplusSize := bucketSurplusSize + size;
      }
      assert bucketSurplusSize
        == Refilled(bucketAddSize, old(bucketSurplusSize) + Amount(bucketAddSize, old(bucketSurplusSize)), 0);
    }

    // A Get with no other taker, watched for at most ticks refills. Polls that see no
    // change are not repeated: one turn of the loop is the wait up to the next refill.
    method Get(size: int, ticks: nat) returns (served: bool, refills: nat)
      requires Valid()
      modifies this`bucketSurplusSize
      ensures refills <= ticks && (!served ==> refills == ticks)
      ensures served <==> Refilled(bucketAddSize, old(bucketSurplusSize), refills) >= size
      ensures forall k: nat :: k < refills ==> Refilled(bucketAddSize, old(bucketSurplusSize), k) < size
      ensures bucketSurplusSize
        == Refilled(bucketAddSize, old(bucketSurplusSize), refills) - if served then size else 0
    {
      refills := 0;
      ghost var s := bucketSurplusSize;
      while bucketSurplusSize < size && refills < ticks
        invariant Valid() && refills <= ticks
        invariant bucketSurplusSize == Refilled(bucketAddSize, s, refills)
        invariant forall k: nat :: k < refills ==> Refilled(bucketAddSize, s, k) < size
      {
        RefilledIsCapped(bucketAddSize, s, refills);
        RefilledIsCapped(bucketAddSize, s, refills + 1);
        RefilledIsCapped(bucketAddSize, bucketSurplusSize, 1);
        assert (refills + 1) * bucketAddSize == refills * bucketAddSize + bucketAddSize;
        Add(bucketAddSize);
        refills := refills + 1;
      }
      served := bucketSurplusSize >= size;
      if served {
        bucketSurplusSize := bucketSurplusSize - size;
      }
    }
  }

  // ------------------------------------------------------------- every interleaving

  // a: bucketAddSize; callers: Get calls in flight at a time; largest: their size limit.
  datatype Config = Config(a: int, callers: nat, largest: int)

  ghost predicate Sensible(cfg: Config) {
    cfg.a >= 0 && cfg.callers >= 1 && cfg.largest >= 0
  }

  // Where a caller stands: not calling, waiting for the check to pass, or past the
  // check and about to subtract.
  datatype Caller = Idle | Waiting(size: int) | Passed(size: int)

  // pending is the amount the session has read the surplus for but not yet added.
  // granted and refills count bytes let through and refills completed so far.
  datatype Bucket = Bucket(surplus: int, callers: seq<Caller>, pending: Option<int>, granted: int, refills: nat)

  datatype Step = Call(i: nat, size: int) | Test(i: nat) | Take(i: nat) | ReadSurplus | AddPending

  function Owed(c: Caller): int {
    if c.Passed? then c.size else 0
  }

  // Bytes checked but not yet subtracted.
  function InFlight(cs: seq<Caller>): int {
    if cs == [] then 0 else Owed(cs[0]) + InFlight(cs[1..])
  }

  function Apply(cfg: Config, s: Bucket, step: Step): Bucket {
    match step
    case Call(i, size) =>
      if i < |s.callers| && s.callers[i].Idle? && 0 <= size <= cfg.largest
      then s.(callers := s.callers[i := Waiting(size)])
      else s
    case Test(i) =>
      if i < |s.callers| && s.callers[i].Waiting? && s.surplus >= s.callers[i].size
      then s.(callers := s.callers[i := Passed(s.callers[i].size)], granted := s.granted + s.callers[i].size)
      else s
    case Take(i) =>
      if i < |s.callers| && s.callers[i].Passed?
      then s.(surplus := s.surplus - s.callers[i].size, callers := s.callers[i := Idle])
      else s
    case ReadSurplus =>
      if s.pending.None? then s.(pending := Some(Amount(cfg.a, s.surplus))) else s
    case AddPending =>
      if s.pending.Some?
      then s.(surplus := s.surplus + s.pending.value, pending := None, refills := s.refills + 1)
      else s
  }

  function Run(cfg: Config, s: Bucket, steps: seq<Step>): Bucket {
    if steps == [] then s
    else Apply(cfg, Run(cfg, s, steps[..|steps| - 1]), steps[|steps| - 1])
  }

  function Init(cfg: Config): Bucket {
    Bucket(0, seq(cfg.callers, _ => Idle), None, 0, 0)
  }

  // The largest size that can pass the check.
  function Cap(cfg: Config): int {
    Min(cfg.largest, 2 * cfg.a)
  }

  // How far the callers other than the one that checks can overdraw the bucket.
  function Overdraw(cfg: Config): int {
    (cfg.callers - 1) * Cap(cfg)
  }

  function Pending(s: Bucket): int {
    if s.pending.Some? then s.pending.value else 0
  }

  ghost predicate PassedFit(cs: seq<Caller>, cap: int) {
    forall i :: 0 <= i < |cs| && cs[i].Passed? ==> 0 <= cs[i].size <= cap
  }

  ghost predicate Inv(cfg: Config, s: Bucket) {
    && Sensible(cfg)
    && |s.callers| == cfg.callers
    && (forall i :: 0 <= i < |s.callers| && !s.callers[i].Idle? ==> 0 <= s.callers[i].size <= cfg.largest)
    && PassedFit(s.callers, Cap(cfg))
    && 0 <= Pending(s) <= cfg.a
    && s.surplus + Pending(s) <= 2 * cfg.a
    && s.surplus - InFlight(s.callers) >= -Overdraw(cfg)
  }

  lemma {:induction false} InFlightUpdate(cs: seq<Caller>, i: nat, c: Caller)
    requires i < |cs|
    ensures InFlight(cs[i := c]) == InFlight(cs) - Owed(cs[i]) + Owed(c)
  {
    if i == 0 {
      assert cs[0 := c][1..] == cs[1..];
    } else {
      InFlightUpdate(cs[1..], i - 1, c);
      assert cs[i := c][1..] == cs[1..][i - 1 := c];
    }
  }

  lemma {:induction false} InFlightBounds(cs: seq<Caller>, cap: int)
    requires cap >= 0 && PassedFit(cs, cap)
    ensures 0 <= InFlight(cs) <= |cs| * cap
  {
    if cs != [] {
      InFlightBounds(cs[1..], cap);
      assert |cs| * cap == |cs[1..]| * cap + cap;
    }
  }

  // When a caller passes, only the other callers can already be past the check.
  lemma OthersInFlight(cs: seq<Caller>, cap: int, i: nat)
    requires cap >= 0 && i < |cs| && cs[i].Waiting? && PassedFit(cs, cap)
    ensures InFlight(cs) <= (|cs| - 1) * cap
  {
    var others := cs[..i] + cs[i + 1..];
    InFlightBounds(others, cap);
    InFlightSplit(cs, i);
    InFlightSplit(cs[i..], 1);
    assert cs[i..][..1] == [cs[i]] && cs[i..][1..] == cs[i + 1..];
    InFlightSplit(others, i);
    assert others[..i] == cs[..i] && others[i..] == cs[i + 1..];
  }

  lemma {:induction false} InFlightSplit(cs: seq<Caller>, i: nat)
    requires i <= |cs|
    ensures InFlight(cs) == InFlight(cs[..i]) + InFlight(cs[i..])
  {
    if i > 0 {
      InFlightSplit(cs[1..], i - 1);
      assert cs[..i][1..] == cs[1..][..i - 1];
      assert cs[1..][i - 1..] == cs[i..];
    }
  }

  lemma TestInv(cfg: Config, s: Bucket, i: nat)
    requires Inv(cfg, s) && i < |s.callers| && s.callers[i].Waiting? && s.surplus >= s.callers[i].size
    ensures Inv(cfg, Apply(cfg, s, Test(i)))
  {
    var size := s.callers[i].size;
    InFlightUpdate(s.callers, i, Passed(size));
    OthersInFlight(s.callers, Cap(cfg), i);
    assert InFlight(s.callers) <= Overdraw(cfg);
  }

  lemma StepInv(cfg: Config, s: Bucket, step: Step)
    requires Inv(cfg, s)
    ensures Inv(cfg, Apply(cfg, s, step))
  {
    match step
    case Call(i, size) =>
      if i < |s.callers| {
        InFlightUpdate(s.callers, i, Waiting(size));
      }
    case Test(i) =>
      if Apply(cfg, s, step) != s {
        TestInv(cfg, s, i);
      }
    case Take(i) =>
      if i < |s.callers| {
        InFlightUpdate(s.callers, i, Idle);
      }
    case ReadSurplus =>
    case AddPending =>
  }

  lemma {:induction false} InitInv(cfg: Config, n: nat)
    requires Sensible(cfg) && n <= cfg.callers
    ensures InFlight(seq(n, _ => Idle)) == 0
    ensures n == cfg.callers ==> Inv(cfg, Init(cfg))
  {
    if n > 0 {
      InitInv(cfg, n - 1);
      var all: seq<Caller> := seq(n, _ => Idle);
      assert all[1..] == seq(n - 1, _ => Idle);
    }
  }

  // What is left once every passed caller has subtracted, and what has been granted.
  function Ledger(s: Bucket): int {
    s.surplus - InFlight(s.callers) + s.granted
  }

  // What a step changes in the ledger is a refill of at most a.
  lemma StepLedger(cfg: Config, s: Bucket, step: Step)
    requires 0 <= Pending(s) <= cfg.a
    ensures var t := Apply(cfg, s, step);
      if t.refills == s.refills then Ledger(t) == Ledger(s)
      else t.refills == s.refills + 1 && Ledger(t) <= Ledger(s) + cfg.a
  {
    match step
    case Call(i, size) =>
      if i < |s.callers| {
        InFlightUpdate(s.callers, i, Waiting(size));
      }
    case Test(i) =>
      if i < |s.callers| && s.callers[i].Waiting? {
        InFlightUpdate(s.callers, i, Passed(s.callers[i].size));
      }
    case Take(i) =>
      if i < |s.callers| {
        InFlightUpdate(s.callers, i, Idle);
      }
    case ReadSurplus =>
    case AddPending =>
  }

  lemma {:induction false} RunInv(cfg: Config, s: Bucket, steps: seq<Step>)
    requires Inv(cfg, s)
    ensures Inv(cfg, Run(cfg, s, steps))
  {
    if steps != [] {
      RunInv(cfg, s, steps[..|steps| - 1]);
      StepInv(cfg, Run(cfg, s, steps[..|steps| - 1]), steps[|steps| - 1]);
    }
  }

  lemma OneMore(k: int, a: int)
    ensures k * a == (k - 1) * a + a
    ensures a * (k + 1) == a * k + a
  {
  }

  // Whatever a run lets through comes out of the ledger and the refills.
  lemma {:induction false} RunLedger(cfg: Config, s: Bucket, steps: seq<Step>)
    requires Inv(cfg, s)
    ensures var t := Run(cfg, s, steps); Ledger(t) <= Ledger(s) + cfg.a * (t.refills - s.refills)
  {
    if steps != [] {
      var before := Run(cfg, s, steps[..|steps| - 1]);
      RunInv(cfg, s, steps[..|steps| - 1]);
      RunLedger(cfg, s, steps[..|steps| - 1]);
      StepLedger(cfg, before, steps[|steps| - 1]);
      OneMore(before.refills - s.refills, cfg.a);
    }
  }

  // In every reachable state the surplus is at most bucketSize, and even after
  // every passed caller subtracts it is overdrawn by at most callers - 1 calls of the
  // largest size that fits the bucket.
  lemma SurplusBounds(cfg: Config, steps: seq<Step>)
    requires Sensible(cfg)
    ensures var t := Run(cfg, Init(cfg), steps);
      && t.surplus <= 2 * cfg.a
      && t.surplus - InFlight(t.callers) >= -Overdraw(cfg)
      && t.surplus >= -Overdraw(cfg)
  {
    InitInv(cfg, cfg.callers);
    RunInv(cfg, Init(cfg), steps);
    InFlightBounds(Run(cfg, Init(cfg), steps).callers, Cap(cfg));
  }

  // Throughput: any window of any run that completes k refills lets through at
  // most bucketSize + k * bucketAddSize + Overdraw(cfg) bytes.
  lemma WindowBound(cfg: Config, before: seq<Step>, window: seq<Step>)
    requires Sensible(cfg)
    ensures var s := Run(cfg, Init(cfg), before);
      var t := Run(cfg, s, window);
      t.granted - s.granted
        <= 2 * cfg.a + cfg.a * (t.refills - s.refills) + Overdraw(cfg)
  {
    InitInv(cfg, cfg.callers);
    RunInv(cfg, Init(cfg), before);
    var s := Run(cfg, Init(cfg), before);
    RunInv(cfg, s, window);
    RunLedger(cfg, s, window);
    InFlightBounds(s.callers, Cap(cfg));
  }

  // A call larger than the bucket is refused by the check in every reachable state.
  lemma TooLargeNeverPasses(cfg: Config, steps: seq<Step>, i: nat)
    requires Sensible(cfg) && i < cfg.callers
    requires var c := Run(cfg, Init(cfg), steps).callers; |c| == cfg.callers && c[i].Waiting? && c[i].size > 2 * cfg.a
    ensures var t := Run(cfg, Init(cfg), steps); Apply(cfg, t, Test(i)) == t
  {
    SurplusBounds(cfg, steps);
  }

  // ----------------------------------------------------------- the bound is attained

  // Callers of the largest size that can pass: the first taken of them are done, the
  // next ones past the check, then waiting, the rest idle.
  function Crowd(cfg: Config, waiting: nat, passed: nat, taken: nat): seq<Caller> {
    seq(cfg.callers, i =>
      if i < taken then Idle
      else if i < passed then Passed(Cap(cfg))
      else if i < waiting then Waiting(Cap(cfg))
      else Idle)
  }

  function CallAll(cfg: Config, n: nat): seq<Step> {
    seq(n, i requires i >= 0 => Call(i, Cap(cfg)))
  }

  function TestAll(n: nat): seq<Step> {
    seq(n, i requires i >= 0 => Test(i))
  }

  function TakeAll(n: nat): seq<Step> {
    seq(n, i requires i >= 0 => Take(i))
  }

  lemma {:induction false} CallAllRuns(cfg: Config, s: Bucket, n: nat)
    requires Cap(cfg) >= 0 && n <= cfg.callers && s.callers == Crowd(cfg, 0, 0, 0)
    ensures Run(cfg, s, CallAll(cfg, n)) == s.(callers := Crowd(cfg, n, 0, 0))
  {
    if n > 0 {
      CallAllRuns(cfg, s, n - 1);
      assert CallAll(cfg, n)[..n - 1] == CallAll(cfg, n - 1);
      assert Crowd(cfg, n - 1, 0, 0)[n - 1 := Waiting(Cap(cfg))] == Crowd(cfg, n, 0, 0);
    }
  }

  lemma OnePasses(cfg: Config, n: nat)
    requires 0 < n <= cfg.callers
    ensures var before := Crowd(cfg, cfg.callers, n - 1, 0);
      before[n - 1] == Waiting(Cap(cfg)) && before[n - 1 := Passed(Cap(cfg))] == Crowd(cfg, cfg.callers, n, 0)
  {
  }

  lemma {:induction false} TestAllRuns(cfg: Config, s: Bucket, n: nat)
    requires n <= cfg.callers && s.callers == Crowd(cfg, cfg.callers, 0, 0) && s.surplus >= Cap(cfg)
    ensures Run(cfg, s, TestAll(n)) == s.(callers := Crowd(cfg, cfg.callers, n, 0), granted := s.granted + n * Cap(cfg))
  {
    if n > 0 {
      TestAllRuns(cfg, s, n - 1);
      assert TestAll(n)[..n - 1] == TestAll(n - 1);
      OnePasses(cfg, n);
      OneMore(n, Cap(cfg));
    }
  }

  lemma {:induction false} TakeAllRuns(cfg: Config, s: Bucket, n: nat)
    requires n <= cfg.callers && s.callers == Crowd(cfg, cfg.callers, cfg.callers, 0)
    ensures Run(cfg, s, TakeAll(n))
      == s.(callers := Crowd(cfg, cfg.callers, cfg.callers, n), surplus := s.surplus - n * Cap(cfg))
  {
    if n > 0 {
      TakeAllRuns(cfg, s, n - 1);
      assert TakeAll(n)[..n - 1] == TakeAll(n - 1);
      assert Crowd(cfg, cfg.callers, cfg.callers, n - 1)[n - 1 := Idle] == Crowd(cfg, cfg.callers, cfg.callers, n);
      OneMore(n, Cap(cfg));
    }
  }

  lemma {:induction false} RunAppend(cfg: Config, s: Bucket, a: seq<Step>, b: seq<Step>)
    ensures Run(cfg, s, a + b) == Run(cfg, Run(cfg, s, a), b)
    decreases |b|
  {
    if b == [] {
      assert a + b == a;
    } else {
      RunAppend(cfg, s, a, b[..|b| - 1]);
      assert (a + b)[..|a + b| - 1] == a + b[..|b| - 1];
    }
  }

  lemma FillRuns(cfg: Config, s: Bucket)
    requires cfg.a > 0 && s.surplus == 0 && s.pending.None? && s.refills == 0
    ensures Run(cfg, s, [ReadSurplus, AddPending, ReadSurplus, AddPending]) == s.(surplus := 2 * cfg.a, refills := 2)
  {
    var s1 := s.(pending := Some(cfg.a));
    var s2 := s.(surplus := cfg.a, refills := 1);
    var s3 := s2.(pending := Some(cfg.a));
    var steps := [ReadSurplus, AddPending, ReadSurplus, AddPending];
    assert steps[..3] == [ReadSurplus, AddPending, ReadSurplus];
    assert steps[..3][..2] == [ReadSurplus, AddPending];
    assert steps[..3][..2][..1] == [ReadSurplus];
    assert [ReadSurplus][..0] == [];
    assert Run(cfg, s, [ReadSurplus]) == s1;
    assert Run(cfg, s, [ReadSurplus, AddPending]) == s2;
    assert Run(cfg, s, [ReadSurplus, AddPending, ReadSurplus]) == s3;
  }

  // n calls of size 1 by the first caller, one after the other.
  function Sips(n: nat): seq<Step> {
    if n == 0 then [] else Sips(n - 1) + [Call(0, 1), Test(0), Take(0)]
  }

  lemma {:induction false} SipsRun(cfg: Config, s: Bucket, n: nat)
    requires cfg.callers >= 1 && cfg.largest >= 1 && s.callers == Crowd(cfg, 0, 0, 0) && s.surplus >= n
    ensures Run(cfg, s, Sips(n)) == s.(surplus := s.surplus - n, granted := s.granted + n)
  {
    if n > 0 {
      SipsRun(cfg, s, n - 1);
      var t := Run(cfg, s, Sips(n - 1));
      RunAppend(cfg, s, Sips(n - 1), [Call(0, 1), Test(0), Take(0)]);
      OneSip(cfg, t);
    }
  }

  lemma OneSip(cfg: Config, s: Bucket)
    requires cfg.callers >= 1 && cfg.largest >= 1 && s.callers == Crowd(cfg, 0, 0, 0) && s.surplus >= 1
    ensures Run(cfg, s, [Call(0, 1), Test(0), Take(0)]) == s.(surplus := s.surplus - 1, granted := s.granted + 1)
  {
    var steps := [Call(0, 1), Test(0), Take(0)];
    assert steps[..2] == [Call(0, 1), Test(0)] && steps[..2][..1] == [Call(0, 1)] && [Call(0, 1)][..0] == [];
    var s1 := s.(callers := s.callers[0 := Waiting(1)]);
    var s2 := s.(callers := s.callers[0 := Passed(1)], granted := s.granted + 1);
    assert Run(cfg, s, [Call(0, 1)]) == s1;
    assert s1.callers[0 := Passed(1)] == s2.callers;
    assert Run(cfg, s, [Call(0, 1), Test(0)]) == s2;
    assert s2.callers[0 := Idle] == s.callers;
  }

  // A refill of what the sips have taken, k times over.
  function Rounds(cfg: Config, k: nat): seq<Step>
    requires cfg.a >= 0
  {
    if k == 0 then [] else Rounds(cfg, k - 1) + (Sips(cfg.a) + [ReadSurplus, AddPending])
  }

  lemma {:induction false} RoundsRun(cfg: Config, s: Bucket, k: nat)
    requires cfg.a > 0 && cfg.callers >= 1 && cfg.largest >= 1
    requires s.callers == Crowd(cfg, 0, 0, 0) && s.surplus == 2 * cfg.a && s.pending.None?
    ensures Run(cfg, s, Rounds(cfg, k)) == s.(granted := s.granted + cfg.a * k, refills := s.refills + k)
  {
    if k > 0 {
      RoundsRun(cfg, s, k - 1);
      var t := Run(cfg, s, Rounds(cfg, k - 1));
      RunAppend(cfg, s, Rounds(cfg, k - 1), Sips(cfg.a) + [ReadSurplus, AddPending]);
      RunAppend(cfg, t, Sips(cfg.a), [ReadSurplus, AddPending]);
      SipsRun(cfg, t, cfg.a);
      OneRefill(cfg, Run(cfg, t, Sips(cfg.a)));
      assert cfg.a * k == cfg.a * (k - 1) + cfg.a;
    }
  }

  lemma OneRefill(cfg: Config, s: Bucket)
    requires cfg.a > 0 && s.surplus == cfg.a && s.pending.None?
    ensures Run(cfg, s, [ReadSurplus, AddPending]) == s.(surplus := 2 * cfg.a, refills := s.refills + 1)
  {
    assert [ReadSurplus, AddPending][..1] == [ReadSurplus] && [ReadSurplus][..0] == [];
    assert Run(cfg, s, [ReadSurplus]) == s.(pending := Some(cfg.a));
  }

  // The bounds cannot be improved: for every refill, number of callers and size limit
  // and every k there is a run and a window with k refills that lets through exactly
  // what WindowBound allows, and then leaves the bucket overdrawn by exactly what
  // SurplusBounds allows.
  lemma BoundsAreAttained(cfg: Config, k: nat) returns (before: seq<Step>, window: seq<Step>)
    requires cfg.a > 0 && cfg.callers >= 1 && cfg.largest > 0
    ensures var s := Run(cfg, Init(cfg), before);
      var t := Run(cfg, s, window);
      && t.refills - s.refills == k
      && t.granted - s.granted == 2 * cfg.a + cfg.a * k + Overdraw(cfg)
      && t.surplus == -Overdraw(cfg)
  {
    before := [ReadSurplus, AddPending, ReadSurplus, AddPending];
    assert Init(cfg).callers == Crowd(cfg, 0, 0, 0);
    FillRuns(cfg, Init(cfg));
    window := FullWindow(cfg, Run(cfg, Init(cfg), before), k);
    OneMore(cfg.callers, Cap(cfg));
  }

  // From a full bucket: k refills of what sips take, sips down to what the check still
  // lets through, then all callers at once.
  lemma FullWindow(cfg: Config, full: Bucket, k: nat) returns (window: seq<Step>)
    requires cfg.a > 0 && cfg.callers >= 1 && cfg.largest > 0
    requires full.callers == Crowd(cfg, 0, 0, 0) && full.surplus == 2 * cfg.a && full.pending.None?
    ensures var t := Run(cfg, full, window);
      && t.refills == full.refills + k
      && t.granted == full.granted + cfg.a * k + 2 * cfg.a - Cap(cfg) + cfg.callers * Cap(cfg)
      && t.surplus == Cap(cfg) - cfg.callers * Cap(cfg)
  {
    var n, rest := cfg.callers, 2 * cfg.a - Cap(cfg);
    var rounds, crowd := Rounds(cfg, k), CallAll(cfg, n) + TestAll(n) + TakeAll(n);
    window := rounds + (Sips(rest) + crowd);
    RunAppend(cfg, full, rounds, Sips(rest) + crowd);
    RoundsRun(cfg, full, k);
    var s := Run(cfg, full, rounds);
    RunAppend(cfg, s, Sips(rest), crowd);
    SipsRun(cfg, s, rest);
    CrowdRuns(cfg, Run(cfg, s, Sips(rest)));
  }

  lemma CrowdRuns(cfg: Config, s: Bucket)
    requires Cap(cfg) >= 0 && s.callers == Crowd(cfg, 0, 0, 0) && s.surplus >= Cap(cfg)
    ensures var n := cfg.callers;
      var t := Run(cfg, s, CallAll(cfg, n) + TestAll(n) + TakeAll(n));
      && t.surplus == s.surplus - n * Cap(cfg) && t.granted == s.granted + n * Cap(cfg)
      && t.refills == s.refills
  {
    var n := cfg.callers;
    CallAllRuns(cfg, s, n);
    var called := s.(callers := Crowd(cfg, n, 0, 0));
    TestAllRuns(cfg, called, n);
    TakeAllRuns(cfg, Run(cfg, called, TestAll(n)), n);
    RunAppend(cfg, s, CallAll(cfg, n) + TestAll(n), TakeAll(n));
    RunAppend(cfg, s, CallAll(cfg, n), TestAll(n));
  }
}
