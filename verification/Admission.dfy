// The limit on a client's connections: the check and the increment are two steps, and
// any number of connection handlers may stand between them.
module Admission {
  class Client {
    var nowConn: int
    const maxConn: int
    // FlowLimit in mebibytes and the flow so far.
    var flowLimit: int
    var flow: int

    method CutConn()
      modifies this`nowConn
      ensures nowConn == old(nowConn) + 1
    {
      nowConn := nowConn + 1;
    }

    method AddConn()
      modifies this`nowConn
      ensures nowConn == old(nowConn) - 1
    {
      nowConn := nowConn - 1;
    }

    // GetConn when nobody comes in between.
    method GetConn() returns (ok: bool)
      modifies this`nowConn
      ensures ok <==> maxConn == 0 || old(nowConn) < maxConn
      ensures nowConn == old(nowConn) + if ok then 1 else 0
    {
      if maxConn == 0 || nowConn < maxConn {
        CutConn();
        return true;
      }
      return false;
    }

    // CheckFlowAndConnNum: an error leaves the counter alone.
    method CheckFlowAndConnNum() returns (ok: bool)
      modifies this`nowConn
      ensures ok <==> !(flowLimit > 0 && flow > flowLimit * 1048576) && (maxConn == 0 || old(nowConn) < maxConn)
      ensures nowConn == old(nowConn) + if ok then 1 else 0
    {
      if flowLimit > 0 && flowLimit * 0x10_0000 < flow {
        return false;
      }
      ok := GetConn();
    }
  }

  predicate MayEnter(max: int, now: int) {
    max == 0 || now < max
  }

  // now: the counter; checked: the handlers that have passed the check but not yet
  // counted themselves; admitted: those that have, and are not finished.
  datatype State = State(now: int, checked: set<nat>, admitted: set<nat>)

  // One step of one handler. exceeded: the traffic limit turns it away.
  datatype Step = Check(h: nat, exceeded: bool) | Cut(h: nat) | Finish(h: nat)

  function Apply(max: int, s: State, step: Step): State {
    match step
    case Check(h, exceeded) =>
      if h in s.checked || h in s.admitted || exceeded || !MayEnter(max, s.now) then s
      else s.(checked := s.checked + {h})
    case Cut(h) =>
      if h !in s.checked then s
      else State(s.now + 1, s.checked - {h}, s.admitted + {h})
    case Finish(h) =>
      if h !in s.admitted then s else s.(now := s.now - 1, admitted := s.admitted - {h})
  }

  const START := State(0, {}, {})

  function Run(max: int, steps: seq<Step>): State {
    if steps == [] then START else Apply(max, Run(max, steps[..|steps| - 1]), steps[|steps| - 1])
  }

  // Never more than m handlers between check and count.
  ghost predicate AtMostChecked(max: int, steps: seq<Step>, m: nat) {
    forall i :: 0 <= i <= |steps| ==> |Run(max, steps[..i]).checked| <= m
  }

  // The counter is the number of admitted, unfinished connections, in every
  // interleaving.
  lemma {:induction false} CounterIsExact(max: int, steps: seq<Step>)
    ensures var s := Run(max, steps); s.now == |s.admitted| && s.checked !! s.admitted
  {
    if steps != [] {
      CounterIsExact(max, steps[..|steps| - 1]);
      var s := Run(max, steps[..|steps| - 1]);
      match steps[|steps| - 1]
      case Check(h, _) =>
      case Cut(h) => assert h in s.checked ==> |s.admitted + {h}| == |s.admitted| + 1;
      case Finish(h) => assert h in s.admitted ==> |s.admitted - {h}| == |s.admitted| - 1;
    }
  }

  lemma {:induction false} CheckedAndCounted(max: int, steps: seq<Step>, m: nat)
    requires max > 0 && m >= 1 && AtMostChecked(max, steps, m)
    ensures var s := Run(max, steps); s.now + |s.checked| <= max + m - 1
  {
    if steps != [] {
      var n := |steps| - 1;
      var before := steps[..n];
      assert forall i :: 0 <= i <= n ==> before[..i] == steps[..i];
      CheckedAndCounted(max, before, m);
      assert steps[..|steps|] == steps;
      assert |Run(max, steps).checked| <= m;
    }
  }

  // With a limit, and at most m handlers at a time between check and count, the limit
  // is overstepped by m - 1 at most; not at all if check and count go together.
  lemma LimitHolds(max: int, steps: seq<Step>, m: nat)
    requires max > 0 && m >= 1 && AtMostChecked(max, steps, m)
    ensures |Run(max, steps).admitted| == Run(max, steps).now <= max + m - 1
    ensures m == 1 ==> |Run(max, steps).admitted| <= max
  {
    CounterIsExact(max, steps);
    CheckedAndCounted(max, steps, m);
  }

  // --------------------------------------------------------------- the bound is reached

  // n handlers with consecutive numbers.
  function Ids(from: nat, n: nat): (ids: set<nat>)
    ensures |ids| == n
    ensures forall h :: h in ids <==> from <= h < from + n
  {
    if n == 0 then {} else Ids(from, n - 1) + {from + n - 1}
  }

  lemma Extend(max: int, steps: seq<Step>, step: Step, m: nat)
    requires AtMostChecked(max, steps, m) && |Apply(max, Run(max, steps), step).checked| <= m
    ensures Run(max, steps + [step]) == Apply(max, Run(max, steps), step)
    ensures AtMostChecked(max, steps + [step], m)
  {
    var longer := steps + [step];
    assert longer[..|steps|] == steps;
    forall i | 0 <= i <= |longer| ensures |Run(max, longer[..i]).checked| <= m {
      if i <= |steps| {
        assert longer[..i] == steps[..i];
      } else {
        assert longer[..i] == longer;
      }
    }
  }

  lemma ComesIn(max: int, now: int, h: nat, ids: set<nat>)
    requires now < max && h !in ids
    ensures Apply(max, State(now, {}, ids), Check(h, false)) == State(now, {h}, ids)
    ensures Apply(max, State(now, {h}, ids), Cut(h)) == State(now + 1, {}, ids + {h})
  {
  }

  // One handler checks and counts itself.
  lemma OneMore(max: int, before: seq<Step>, now: int, h: nat, ids: set<nat>, m: nat) returns (steps: seq<Step>)
    requires now < max && h !in ids && m >= 1
    requires AtMostChecked(max, before, m) && Run(max, before) == State(now, {}, ids)
    ensures AtMostChecked(max, steps, m) && Run(max, steps) == State(now + 1, {}, ids + {h})
  {
    ComesIn(max, now, h, ids);
    Extend(max, before, Check(h, false), m);
    var mid := before + [Check(h, false)];
    Extend(max, mid, Cut(h), m);
    steps := mid + [Cut(h)];
  }

  // k handlers come in one after the other.
  lemma {:induction false} OneByOne(max: int, k: nat, m: nat) returns (steps: seq<Step>)
    requires k < max && m >= 1
    ensures AtMostChecked(max, steps, m) && Run(max, steps) == State(k, {}, Ids(0, k))
  {
    if k == 0 {
      steps := [];
    } else {
      var before := OneByOne(max, k - 1, m);
      steps := OneMore(max, before, k - 1, k - 1, Ids(0, k - 1), m);
    }
  }

  // One handler only checks.
  lemma OneChecks(max: int, before: seq<Step>, s: State, h: nat, m: nat) returns (steps: seq<Step>)
    requires s.now < max && h !in s.checked && h !in s.admitted && |s.checked| < m
    requires AtMostChecked(max, before, m) && Run(max, before) == s
    ensures AtMostChecked(max, steps, m) && Run(max, steps) == s.(checked := s.checked + {h})
  {
    assert |s.checked + {h}| == |s.checked| + 1;
    Extend(max, before, Check(h, false), m);
    steps := before + [Check(h, false)];
  }

  // n more pass the check together, behind a run that ends in s with nobody in between.
  lemma {:induction false} MoreCheck(max: int, before: seq<Step>, s: State, from: nat, n: nat, m: nat)
      returns (steps: seq<Step>)
    requires s.now < max && s.checked == {} && (forall h :: h in s.admitted ==> h < from) && n <= m
    requires AtMostChecked(max, before, m) && Run(max, before) == s
    ensures AtMostChecked(max, steps, m) && Run(max, steps) == s.(checked := Ids(from, n))
  {
    if n == 0 {
      steps := before;
    } else {
      var mid := MoreCheck(max, before, s, from, n - 1, m);
      steps := OneChecks(max, mid, s.(checked := Ids(from, n - 1)), from + n - 1, m);
    }
  }

  lemma AllCheck(max: int, n: nat, m: nat) returns (steps: seq<Step>)
    requires max > 0 && n <= m && m >= 1
    ensures AtMostChecked(max, steps, m) && Run(max, steps) == State(max - 1, Ids(max - 1, n), Ids(0, max - 1))
  {
    var before := OneByOne(max, max - 1, m);
    steps := MoreCheck(max, before, State(max - 1, {}, Ids(0, max - 1)), max - 1, n, m);
  }

  // The last n of them count themselves.
  lemma {:induction false} AllCut(max: int, n: nat, m: nat) returns (steps: seq<Step>)
    requires max > 0 && n <= m && m >= 1
    ensures AtMostChecked(max, steps, m) && Run(max, steps).now == max - 1 + n
    ensures Run(max, steps).checked == Ids(max - 1, m - n)
  {
    if n == 0 {
      steps := AllCheck(max, m, m);
    } else {
      steps := AllCut(max, n - 1, m);
      var step := Cut(max - 1 + m - n);
      assert Apply(max, Run(max, steps), step).checked == Ids(max - 1, m - n);
      Extend(max, steps, step, m);
      steps := steps + [step];
    }
  }

  // The bound cannot be improved: for every limit and every m some run gets there.
  lemma LimitIsOverstepped(max: int, m: nat)
    requires max > 0 && m >= 1
    ensures exists steps :: AtMostChecked(max, steps, m) && |Run(max, steps).admitted| == max + m - 1
  {
    var steps := AllCut(max, m, m);
    CounterIsExact(max, steps);
    assert AtMostChecked(max, steps, m);
  }
}
