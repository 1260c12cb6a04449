// The connection handlers of the tcp, socks5, udp and https servers as programs around
// the connection counter: every way out, the deferred calls, and any number of them at
// work for one client at the same time.
module Handlers {
  import opened Common
  import Admission

  // Guard: the handler returns if something goes wrong or is settled already, and goes on
  // otherwise. CheckConn: CheckFlowAndConnNum, whose error returns. Defer: AddConn is to
  // run on return. Loop: goes round until it returns. Release: AddConn as a statement.
  datatype Instr = Guard | CheckConn | Defer | Work | Loop | Release

  datatype Path = Tcp | Socks5 | Udp | Https

  function Program(path: Path): (prog: seq<Instr>)
    ensures prog != []
  {
    match path
    case Tcp => [CheckConn, Work, Release]
    case Socks5 => [CheckConn, Work, Release]
    // known address; check; defer; SendLinkInfo; read loop
    case Udp => [Guard, CheckConn, Defer, Guard, Loop]
    // unknown host; check; defer; authentication; target; forwarding
    case Https => [Guard, CheckConn, Defer, Guard, Work, Work]
  }

  datatype CounterOp = Inc | Dec

  // pc: the next instruction; passed: the check has let it through; deferred: AddConn
  // runs on return; returning: it is on its way out; ops: what it did to the counter.
  datatype Handler = Handler(path: Path, pc: nat, passed: bool, deferred: bool, returning: bool, done: bool,
    ops: seq<CounterOp>)

  function Arriving(path: Path): Handler {
    Handler(path, 0, false, false, false, false, [])
  }

  // Return: deferred calls come first.
  function Leave(h: Handler): Handler {
    if h.deferred then h.(returning := true) else h.(done := true)
  }

  function Next(h: Handler): Handler {
    if h.pc + 1 >= |Program(h.path)| then Leave(h.(pc := h.pc + 1)) else h.(pc := h.pc + 1)
  }

  // One step of a handler. choice: what a guard or a loop finds; mayEnter: what the
  // check finds. The check and the increment are two steps.
  function Advance(h: Handler, choice: bool, mayEnter: bool): Handler {
    if h.done then h
    else if h.returning then h.(done := true, ops := h.ops + [Dec])
    else if h.pc >= |Program(h.path)| then Leave(h)
    else
      match Program(h.path)[h.pc]
      case Guard => if choice then Leave(h) else Next(h)
      case CheckConn =>
        if h.passed then Next(h.(ops := h.ops + [Inc]))
        else if mayEnter then h.(passed := true)
        else Leave(h)
      case Defer => Next(h.(deferred := true))
      case Work => Next(h)
      case Loop => if choice then Leave(h) else h
      case Release => Next(h.(ops := h.ops + [Dec]))
  }

  // A single handler, by what it has met so far: choices and answers of the check.
  function Walk(path: Path, met: seq<(bool, bool)>): Handler {
    if met == [] then Arriving(path)
    else Advance(Walk(path, met[..|met| - 1]), met[|met| - 1].0, met[|met| - 1].1)
  }

  // Where each program has counted itself, by its position.
  predicate HandlerOk(h: Handler) {
    var at := if h.path.Tcp? || h.path.Socks5? then 0 else 1;
    && |Program(h.path)| > at
    && (h.ops == [] || h.ops == [Inc] || h.ops == [Inc, Dec])
    && (h.pc < at ==> !h.passed)
    && (h.pc <= at ==> h.ops == [] && !h.deferred && !h.returning)
    && (h.pc > at ==> h.passed && h.ops != [])
    && (h.ops == [Inc, Dec] ==> h.done)
    && (h.ops == [Inc] ==> !h.done)
    && (h.done && h.pc <= at ==> !h.passed)
    && (h.path.Tcp? || h.path.Socks5? ==> !h.deferred && !h.returning && (h.pc >= 3 ==> h.done))
    && (h.path.Udp? || h.path.Https? ==> (h.deferred <==> h.pc > 2))
    && (h.returning ==> h.deferred)
    && h.pc <= |Program(h.path)|
    && (h.pc == |Program(h.path)| ==> h.done || h.returning)
  }

  lemma AdvanceOk(h: Handler, choice: bool, mayEnter: bool)
    requires HandlerOk(h)
    ensures HandlerOk(Advance(h, choice, mayEnter))
  {
  }

  // Every way out of every handler: one that passed the check counts itself once and
  // calls AddConn exactly once, before it ends and not sooner; any other leaves the
  // counter alone.
  lemma {:induction false} EveryExitIsPaired(path: Path, met: seq<(bool, bool)>)
    ensures var h := Walk(path, met);
      && HandlerOk(h)
      && (h.done ==> h.ops == if h.passed then [Inc, Dec] else [])
      && (!h.done ==> h.ops == [] || h.ops == [Inc])
  {
    if met != [] {
      EveryExitIsPaired(path, met[..|met| - 1]);
      AdvanceOk(Walk(path, met[..|met| - 1]), met[|met| - 1].0, met[|met| - 1].1);
    }
  }

  // ---------------------------------------------------- many handlers of one client

  datatype Sys = Sys(now: int, handlers: map<nat, Handler>)

  // Arrive: a new connection, handled under the number h. Go: one step of handler h;
  // exceeded: the traffic limit is.
  datatype Step = Arrive(h: nat, path: Path) | Go(h: nat, choice: bool, exceeded: bool)

  function Apply(max: int, s: Sys, step: Step): Sys {
    match step
    case Arrive(h, path) => if h in s.handlers then s else s.(handlers := s.handlers[h := Arriving(path)])
    case Go(h, choice, exceeded) =>
      if h !in s.handlers then s
      else
        var before := s.handlers[h];
        var after := Advance(before, choice, !exceeded && Admission.MayEnter(max, s.now));
        Sys(s.now + Change(before, after), s.handlers[h := after])
  }

  // What a step does to the counter: it carries out the operation it adds, if any.
  function Change(before: Handler, after: Handler): int {
    if |after.ops| <= |before.ops| then 0 else if after.ops[|after.ops| - 1].Inc? then 1 else -1
  }

  function Run(max: int, steps: seq<Step>): Sys {
    if steps == [] then Sys(0, map[]) else Apply(max, Run(max, steps[..|steps| - 1]), steps[|steps| - 1])
  }

  // Where a handler stands with the counter.
  datatype Stage = Outside | Between | Inside

  function StageOf(h: Handler): Stage {
    if h.done then Outside
    else if h.ops != [] then Inside
    else if h.passed then Between
    else Outside
  }

  // The handlers that have passed the check but not counted themselves yet.
  function BetweenCheckAndCount(s: Sys): set<nat> {
    set h | h in s.handlers && StageOf(s.handlers[h]) == Between
  }

  // The connections that were admitted and are not finished.
  function Unfinished(s: Sys): set<nat> {
    set h | h in s.handlers && StageOf(s.handlers[h]) == Inside
  }

  // The ways from one stage to another; only the check asks whether there is room.
  predicate MayGo(from: Stage, to: Stage, mayEnter: bool) {
    || from == to
    || (from == Outside && to == Between && mayEnter)
    || (from == Between && to == Inside)
    || (from == Inside && to == Outside)
  }

  // What a way is to the counter.
  function Delta(from: Stage, to: Stage): int {
    if from == Between && to == Inside then 1 else if from == Inside && to == Outside then -1 else 0
  }

  lemma StageStep(h: Handler, choice: bool, mayEnter: bool)
    requires HandlerOk(h)
    ensures var h' := Advance(h, choice, mayEnter);
      && MayGo(StageOf(h), StageOf(h'), mayEnter)
      && Change(h, h') == Delta(StageOf(h), StageOf(h'))
  {
    AdvanceOk(h, choice, mayEnter);
  }

  ghost predicate AllOk(s: Sys) {
    forall h :: h in s.handlers ==> HandlerOk(s.handlers[h])
  }

  function Abstract(s: Sys): Admission.State {
    Admission.State(s.now, BetweenCheckAndCount(s), Unfinished(s))
  }

  // The step of the counter's state machine that a way is; None is none.
  function CounterStep(h: nat, exceeded: bool, from: Stage, to: Stage): Option<Admission.Step> {
    if from == to then None
    else Some(if to == Between then Admission.Check(h, exceeded)
              else if to == Inside then Admission.Cut(h)
              else Admission.Finish(h))
  }

  // Every step of the programs is a check, a count or a finish of the counter's own
  // state machine, or nothing to it.
  lemma StepRefines(max: int, s: Sys, step: Step) returns (abs: Option<Admission.Step>)
    requires AllOk(s)
    ensures AllOk(Apply(max, s, step))
    ensures Abstract(Apply(max, s, step))
      == if abs.None? then Abstract(s) else Admission.Apply(max, Abstract(s), abs.value)
  {
    abs := None;
    match step
    case Go(h, choice, exceeded) =>
      if h in s.handlers {
        abs := GoRefines(max, s, h, choice, exceeded);
      }
    case Arrive(h, _) =>
      if h !in s.handlers {
        SetsMove(s, Apply(max, s, step), h, Outside, Outside);
      }
  }

  lemma GoRefines(max: int, s: Sys, h: nat, choice: bool, exceeded: bool) returns (abs: Option<Admission.Step>)
    requires AllOk(s) && h in s.handlers
    ensures var s' := Apply(max, s, Go(h, choice, exceeded));
      && AllOk(s')
      && Abstract(s') == if abs.None? then Abstract(s) else Admission.Apply(max, Abstract(s), abs.value)
  {
    var s', mayEnter := Apply(max, s, Go(h, choice, exceeded)), !exceeded && Admission.MayEnter(max, s.now);
    AdvanceOk(s.handlers[h], choice, mayEnter);
    StageStep(s.handlers[h], choice, mayEnter);
    var from, to := StageOf(s.handlers[h]), StageOf(s'.handlers[h]);
    SetsMove(s, s', h, from, to);
    StageMove(max, Abstract(s), h, exceeded, from, to);
    abs := CounterStep(h, exceeded, from, to);
  }

  // The same move in the counter's state machine.
  lemma StageMove(max: int, a: Admission.State, h: nat, exceeded: bool, from: Stage, to: Stage)
    requires h in a.checked <==> from == Between
    requires h in a.admitted <==> from == Inside
    requires MayGo(from, to, !exceeded && Admission.MayEnter(max, a.now))
    ensures var checked := a.checked - (if from == Between then {h} else {}) + (if to == Between then {h} else {});
      var admitted := a.admitted - (if from == Inside then {h} else {}) + (if to == Inside then {h} else {});
      var abs := CounterStep(h, exceeded, from, to);
      Admission.State(a.now + Delta(from, to), checked, admitted)
        == if abs.None? then a else Admission.Apply(max, a, abs.value)
  {
  }

  // The two sets when one handler goes from one stage to another.
  lemma SetsMove(s: Sys, s': Sys, h: nat, from: Stage, to: Stage)
    requires h in s'.handlers && s'.handlers == s.handlers[h := s'.handlers[h]]
    requires from == (if h in s.handlers then StageOf(s.handlers[h]) else Outside) && to == StageOf(s'.handlers[h])
    ensures BetweenCheckAndCount(s')
      == BetweenCheckAndCount(s) - (if from == Between then {h} else {}) + (if to == Between then {h} else {})
    ensures Unfinished(s') == Unfinished(s) - (if from == Inside then {h} else {}) + (if to == Inside then {h} else {})
    ensures h in BetweenCheckAndCount(s) <==> from == Between
    ensures h in Unfinished(s) <==> from == Inside
  {
  }

  // Never more than m handlers between check and count.
  ghost predicate AtMostBetween(max: int, steps: seq<Step>, m: nat) {
    |BetweenCheckAndCount(Run(max, steps))| <= m && (steps != [] ==> AtMostBetween(max, steps[..|steps| - 1], m))
  }

  lemma {:induction false} RunRefines(max: int, steps: seq<Step>, m: nat) returns (abs: seq<Admission.Step>)
    ensures AllOk(Run(max, steps)) && Admission.Run(max, abs) == Abstract(Run(max, steps))
    ensures AtMostBetween(max, steps, m) ==> Admission.AtMostChecked(max, abs, m)
  {
    if steps == [] {
      abs := [];
      assert BetweenCheckAndCount(Run(max, steps)) == {} && Unfinished(Run(max, steps)) == {};
    } else {
      abs := RunRefines(max, steps[..|steps| - 1], m);
      var step := StepRefines(max, Run(max, steps[..|steps| - 1]), steps[|steps| - 1]);
      if step.Some? {
        var longer := abs + [step.value];
        assert longer[..|abs|] == abs;
        if AtMostBetween(max, steps, m) {
          Admission.Extend(max, abs, step.value, m);
        }
        abs := longer;
      }
    }
  }

  // In every interleaving of any number of handlers of the four kinds, with all their
  // ways out, the counter is the number of admitted connections that are not finished.
  lemma CounterIsExact(max: int, steps: seq<Step>)
    ensures Run(max, steps).now == |Unfinished(Run(max, steps))|
  {
    var abs := RunRefines(max, steps, 0);
    Admission.CounterIsExact(max, abs);
  }

  // Once every handler has ended the counter is back at zero.
  lemma BackToZero(max: int, steps: seq<Step>)
    requires forall h :: h in Run(max, steps).handlers ==> Run(max, steps).handlers[h].done
    ensures Run(max, steps).now == 0
  {
    CounterIsExact(max, steps);
    assert Unfinished(Run(max, steps)) == {};
  }

  // With a limit, and at most m handlers at a time between check and count, at most
  // max + m - 1 connections are admitted and unfinished.
  lemma LimitHolds(max: int, steps: seq<Step>, m: nat)
    requires max > 0 && m >= 1 && AtMostBetween(max, steps, m)
    ensures |Unfinished(Run(max, steps))| <= max + m - 1
  {
    var abs := RunRefines(max, steps, m);
    Admission.LimitHolds(max, abs, m);
  }

  // ------------------------------------------------------------------ who gets in

  // A handler stands at its check.
  predicate AtCheck(h: Handler) {
    && !h.done && !h.returning && !h.passed
    && h.pc < |Program(h.path)| && Program(h.path)[h.pc] == CheckConn
  }

  lemma RunThen(max: int, steps: seq<Step>, step: Step)
    ensures Run(max, steps + [step]) == Apply(max, Run(max, steps), step)
  {
    assert (steps + [step])[..|steps|] == steps;
  }

  // In every reachable state, a handler at its check passes exactly if the traffic limit
  // is not exceeded and there is no limit on connections or fewer than that are admitted
  // and unfinished; otherwise it ends without having counted itself.
  lemma CheckPassesExactly(max: int, steps: seq<Step>, h: nat, choice: bool, exceeded: bool)
    requires h in Run(max, steps).handlers && AtCheck(Run(max, steps).handlers[h])
    ensures var s, t := Run(max, steps), Run(max, steps + [Go(h, choice, exceeded)]);
      var free := !exceeded && (max == 0 || |Unfinished(s)| < max);
      && h in t.handlers && t.now == s.now
      && (t.handlers[h].passed <==> free) && (t.handlers[h].done <==> !free)
      && t.handlers[h].ops == s.handlers[h].ops
  {
    CounterIsExact(max, steps);
    RunThen(max, steps, Go(h, choice, exceeded));
    var abs := RunRefines(max, steps, 0);
    assert HandlerOk(Run(max, steps).handlers[h]);
  }

  // A handler that has just counted itself.
  function Counted(path: Path): Handler {
    Handler(path, if path.Tcp? || path.Socks5? then 1 else 2, true, false, false, false, [Inc])
  }

  // n of them.
  function Crowd(path: Path, n: nat): (m: map<nat, Handler>)
    ensures forall h: nat :: h in m <==> h < n
  {
    if n == 0 then map[] else Crowd(path, n - 1)[n - 1 := Counted(path)]
  }

  lemma Overwrite<K, V>(m: map<K, V>, k: K, x: V, y: V)
    ensures m[k := x][k := y] == m[k := y]
  {
  }

  // One step of one handler that nothing turns away, the others standing still.
  lemma OneGo(steps: seq<Step>, now: int, m: map<nat, Handler>, h: nat, x: Handler) returns (longer: seq<Step>)
    requires Run(0, steps) == Sys(now, m[h := x])
    ensures var x' := Advance(x, false, true); Run(0, longer) == Sys(now + Change(x, x'), m[h := x'])
  {
    longer := steps + [Go(h, false, false)];
    RunThen(0, steps, Go(h, false, false));
    var s, x' := Run(0, steps), Advance(x, false, true);
    assert h in s.handlers && s.handlers[h] == x && Admission.MayEnter(0, s.now);
    assert Run(0, longer).handlers == s.handlers[h := x'];
    Overwrite(m, h, x, x');
  }

  // How a handler comes in.
  lemma ComesIn(path: Path)
    ensures var x := if path.Tcp? || path.Socks5? then Arriving(path) else Advance(Arriving(path), false, true);
      var y := Advance(x, false, true);
      && Advance(y, false, true) == Counted(path)
      && Change(Arriving(path), x) == 0 && Change(x, y) == 0 && Change(y, Counted(path)) == 1
  {
  }

  lemma OneMoreIn(before: seq<Step>, path: Path, n: nat) returns (steps: seq<Step>)
    requires Run(0, before) == Sys(n, Crowd(path, n))
    ensures Run(0, steps) == Sys(n + 1, Crowd(path, n + 1))
  {
    var m, x := Crowd(path, n), Arriving(path);
    ComesIn(path);
    steps := before + [Arrive(n, path)];
    RunThen(0, before, Arrive(n, path));
    if path.Udp? || path.Https? {
      steps := OneGo(steps, n, m, n, x);
      x := Advance(x, false, true);
    }
    steps := OneGo(steps, n, m, n, x);
    x := Advance(x, false, true);
    steps := OneGo(steps, n, m, n, x);
  }

  // Without a limit nobody is refused: of every kind there can be any number at a time.
  lemma {:induction false} UnlimitedAdmits(path: Path, n: nat) returns (steps: seq<Step>)
    ensures Run(0, steps) == Sys(n, Crowd(path, n))
    ensures |Unfinished(Run(0, steps))| == n
  {
    if n == 0 {
      steps := [];
    } else {
      var before := UnlimitedAdmits(path, n - 1);
      steps := OneMoreIn(before, path, n - 1);
    }
    CounterIsExact(0, steps);
  }
}
