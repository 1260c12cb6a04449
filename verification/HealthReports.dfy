// When the client reports: its messages about a target in terms of the outcomes of the
// checks alone, over every run.
module HealthReports {
  import opened Common
  import opened HealthProtocol
  import opened HealthAgreement

  // How many checks of v fail in some steps.
  function Failures(steps: seq<Step>, v: GoString): nat {
    multiset(steps)[Check(v, true)]
  }

  // The run ends with a "1" about v, or has not begun.
  predicate Fresh(cfg: Config, s: Sys, steps: seq<Step>, v: GoString)
    requires Limits(cfg)
  {
    steps != [] ==>
      var n := |steps| - 1;
      steps[n] == Check(v, false) && Sent(cfg, s, steps, v) == Sent(cfg, s, steps[..n], v) + [true]
  }

  // The checks of v that have failed since the last "1" about it, or since the beginning.
  function Streak(cfg: Config, s: Sys, steps: seq<Step>, v: GoString): nat
    requires Limits(cfg)
  {
    if steps == [] || Fresh(cfg, s, steps, v) then 0
    else Streak(cfg, s, steps[..|steps| - 1], v) + if steps[|steps| - 1] == Check(v, true) then 1 else 0
  }

  // The status that one check sends, for a counter that is c.
  function StatusOf(c: int, m: int, failed: bool): seq<bool>
    requires m > 0
  {
    if failed && (c + 1) % m == 0 then [false] else if !failed && c >= m then [true] else []
  }

  lemma ReportOf(c: int, m: int, v: GoString, failed: bool)
    requires c >= 0 && m > 0
    ensures var out := StatusOf(c, m, failed);
      && Reported(c, m, v, failed) == (if out == [] then [] else [Msg(v, out[0])])
      && About(Reported(c, m, v, failed), v) == out
  {
    BelowMultiple(c, m);
    var more := Reported(c, m, v, failed);
    if more != [] {
      assert more == [more[0]] && more[1..] == [];
    }
  }

  lemma OneCheck(cfg: Config, s: Sys, steps: seq<Step>, v: GoString, failed: bool)
    requires Limits(cfg) && v in cfg.maxFail && CounterOf(Run(cfg, s, steps).counters, v) >= 0
    ensures var c, m := CounterOf(Run(cfg, s, steps).counters, v), cfg.maxFail[v];
      var longer, out := steps + [Check(v, failed)], StatusOf(c, m, failed);
      && Sent(cfg, s, longer, v) == Sent(cfg, s, steps, v) + out
      && Run(cfg, s, longer).link == Run(cfg, s, steps).link + (if out == [] then [] else [Msg(v, out[0])])
      && CounterOf(Run(cfg, s, longer).counters, v) == if failed then c + 1 else if c >= m then 0 else c
  {
    assert (steps + [Check(v, failed)])[..|steps|] == steps;
    ReportOf(CounterOf(Run(cfg, s, steps).counters, v), cfg.maxFail[v], v, failed);
  }

  lemma OtherStep(cfg: Config, s: Sys, steps: seq<Step>, step: Step, v: GoString)
    requires Limits(cfg) && v in cfg.maxFail && (step.Check? ==> step.v != v)
    ensures var longer := steps + [step];
      && Sent(cfg, s, longer, v) == Sent(cfg, s, steps, v)
      && CounterOf(Run(cfg, s, longer).counters, v) == CounterOf(Run(cfg, s, steps).counters, v)
  {
    assert (steps + [step])[..|steps|] == steps;
  }

  lemma StreakSnoc(cfg: Config, s: Sys, steps: seq<Step>, step: Step, v: GoString)
    requires Limits(cfg)
    ensures Fresh(cfg, s, steps + [step], v)
      <==> step == Check(v, false) && Sent(cfg, s, steps + [step], v) == Sent(cfg, s, steps, v) + [true]
    ensures Streak(cfg, s, steps + [step], v)
      == if Fresh(cfg, s, steps + [step], v) then 0
         else Streak(cfg, s, steps, v) + if step == Check(v, true) then 1 else 0
  {
    assert (steps + [step])[..|steps|] == steps;
  }

  // The counter is the length of the streak.
  lemma {:induction false} StreakIsCounter(cfg: Config, s: Sys, steps: seq<Step>, v: GoString)
    requires Start(cfg, s) && v in cfg.maxFail
    ensures CounterOf(Run(cfg, s, steps).counters, v) == Streak(cfg, s, steps, v)
  {
    if steps != [] {
      var before, step := steps[..|steps| - 1], steps[|steps| - 1];
      assert steps == before + [step];
      StreakIsCounter(cfg, s, before, v);
      StreakSnoc(cfg, s, before, step, v);
      if step.Check? && step.v == v {
        OneCheck(cfg, s, before, v, step.failed);
      } else {
        OtherStep(cfg, s, before, step, v);
      }
    }
  }

  // In any run: a failed check sends a "0" exactly if it makes the streak a multiple of
  // the limit; a successful one sends a "1", which ends the streak, exactly if that has
  // reached the limit; nothing else is sent.
  lemma ReportsExactly(cfg: Config, s: Sys, steps: seq<Step>, v: GoString, failed: bool)
    requires Start(cfg, s) && v in cfg.maxFail
    ensures var n, m := Streak(cfg, s, steps, v), cfg.maxFail[v];
      var longer := steps + [Check(v, failed)];
      && Run(cfg, s, longer).link == Run(cfg, s, steps).link
         + (if failed && (n + 1) % m == 0 then [Msg(v, false)]
            else if !failed && n >= m then [Msg(v, true)]
            else [])
      && Streak(cfg, s, longer, v) == if failed then n + 1 else if n >= m then 0 else n
  {
    StreakIsCounter(cfg, s, steps, v);
    StreakIsCounter(cfg, s, steps + [Check(v, failed)], v);
    OneCheck(cfg, s, steps, v, failed);
  }

  lemma {:induction false} SentGrows(cfg: Config, s: Sys, steps: seq<Step>, i: nat, v: GoString)
    requires Limits(cfg) && i <= |steps|
    ensures Sent(cfg, s, steps[..i], v) <= Sent(cfg, s, steps, v)
  {
    if i == |steps| {
      assert steps[..i] == steps;
    } else {
      SentGrows(cfg, s, steps[..|steps| - 1], i, v);
      assert steps[..|steps| - 1][..i] == steps[..i];
    }
  }

  // What is sent about v behind a "1", or from the beginning: nothing before the limit is
  // reached again, and one "0" when it is.
  ghost predicate Quiet(cfg: Config, s: Sys, before: seq<Step>, after: seq<Step>, v: GoString)
    requires Limits(cfg) && v in cfg.maxFail
  {
    var n, m, sent, steps := Failures(after, v), cfg.maxFail[v], Sent(cfg, s, before, v), before + after;
    && (n < m ==> Sent(cfg, s, steps, v) == sent && CounterOf(Run(cfg, s, steps).counters, v) == n)
    && (n >= m ==> sent + [false] <= Sent(cfg, s, steps, v))
  }

  lemma FailuresSnoc(steps: seq<Step>, step: Step, v: GoString)
    ensures Failures(steps + [step], v) == Failures(steps, v) + if step == Check(v, true) then 1 else 0
  {
  }

  lemma QuietStep(cfg: Config, s: Sys, before: seq<Step>, after: seq<Step>, step: Step, v: GoString)
    requires Limits(cfg) && v in cfg.maxFail && Quiet(cfg, s, before, after, v)
    ensures Quiet(cfg, s, before, after + [step], v)
  {
    var steps, n, m := before + after, Failures(after, v), cfg.maxFail[v];
    Associate(before, after, [step]);
    FailuresSnoc(after, step, v);
    if n >= m {
      assert (steps + [step])[..|steps|] == steps;
      SentGrows(cfg, s, steps + [step], |steps|, v);
    } else if step.Check? && step.v == v {
      OneCheck(cfg, s, steps, v, step.failed);
      BelowMultiple(n + 1, m);
    } else {
      OtherStep(cfg, s, steps, step, v);
    }
  }

  // Take any run whose last message about v is a "1", or the beginning, and any steps
  // behind it, with whatever successes, deliveries, picks and checks of other targets in
  // between: nothing is sent about v if and only if fewer checks of v than the limit fail.
  lemma {:induction false} QuietExactly(cfg: Config, s: Sys, before: seq<Step>, after: seq<Step>, v: GoString)
    requires Start(cfg, s) && v in cfg.maxFail && Fresh(cfg, s, before, v)
    ensures Sent(cfg, s, before + after, v) == Sent(cfg, s, before, v) <==> Failures(after, v) < cfg.maxFail[v]
    ensures Quiet(cfg, s, before, after, v)
    decreases |after|
  {
    if after == [] {
      assert before + after == before;
      StreakIsCounter(cfg, s, before, v);
    } else {
      var n := |after| - 1;
      assert after == after[..n] + [after[n]];
      QuietExactly(cfg, s, before, after[..n], v);
      QuietStep(cfg, s, before, after[..n], after[n], v);
    }
  }

  // The failure that reaches the limit sends exactly one "0".
  lemma LimitIsReported(cfg: Config, s: Sys, before: seq<Step>, after: seq<Step>, v: GoString)
    requires Start(cfg, s) && v in cfg.maxFail && Fresh(cfg, s, before, v)
    requires Failures(after, v) == cfg.maxFail[v] - 1
    ensures var full := before + after + [Check(v, true)];
      && Sent(cfg, s, full, v) == Sent(cfg, s, before, v) + [false]
      && Run(cfg, s, full).link == Run(cfg, s, before + after).link + [Msg(v, false)]
  {
    QuietExactly(cfg, s, before, after, v);
    BelowMultiple(cfg.maxFail[v], cfg.maxFail[v]);
    OneCheck(cfg, s, before + after, v, true);
  }

  // Every run whose last message about v is a "1" is such a run, and steps that sent
  // nothing.
  lemma {:induction false} LastUp(cfg: Config, s: Sys, steps: seq<Step>, v: GoString) returns (i: nat)
    requires Start(cfg, s) && v in cfg.maxFail
    requires var sent := Sent(cfg, s, steps, v); sent != [] && sent[|sent| - 1]
    ensures i <= |steps| && steps[..i] != [] && Fresh(cfg, s, steps[..i], v)
    ensures Sent(cfg, s, steps[..i], v) == Sent(cfg, s, steps, v)
  {
    var n := |steps| - 1;
    var before, step := steps[..n], steps[n];
    assert steps == before + [step];
    if Sent(cfg, s, before, v) == Sent(cfg, s, steps, v) {
      i := LastUp(cfg, s, before, v);
      assert before[..i] == steps[..i];
    } else {
      i := n + 1;
      assert steps[..i] == steps;
      StreakIsCounter(cfg, s, before, v);
      StreakSnoc(cfg, s, before, step, v);
      if step.Check? && step.v == v {
        OneCheck(cfg, s, before, v, step.failed);
      } else {
        OtherStep(cfg, s, before, step, v);
      }
    }
  }
}
