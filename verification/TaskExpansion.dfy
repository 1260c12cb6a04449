// How the server turns one task of a client's configuration into one task per port.
module TaskExpansion {
  import opened Common
  import opened Ports
  import Text

  const TCP: GoString := [116, 99, 112]
  const UDP: GoString := [117, 100, 112]
  const SECRET: GoString := [115, 101, 99, 114, 101, 116]
  const P2P: GoString := [112, 50, 112]

  datatype Task = Task(mode: GoString, ports: GoString, targetStr: GoString, targetAddr: GoString, remark: GoString)

  // One task to open.
  datatype Opened = Opened(port: nat, target: GoString, remark: GoString)

  // Done: all tasks opened. Failed: the client is told so and dropped. OutOfRange: the
  // list of targets is indexed past its end.
  datatype Outcome = Done | Failed | OutOfRange

  predicate PairsUp(t: Task) {
    t.mode == TCP || t.mode == UDP
  }

  predicate Portless(t: Task) {
    t.mode == SECRET || t.mode == P2P
  }

  // The ports the loop goes over; secret and p2p tasks get a port 0 at the end.
  function LoopPorts(t: Task): seq<nat> {
    Parsed(t.ports) + if Portless(t) then [0] else []
  }

  function LoopTargets(t: Task): seq<nat> {
    Parsed(t.targetStr)
  }

  // Turned down before anything is opened.
  predicate Refused(t: Task) {
    || (PairsUp(t) && |LoopPorts(t)| > 1 && |LoopPorts(t)| != |LoopTargets(t)|)
    || LoopPorts(t) == []
  }

  function Address(t: Task, port: nat): GoString {
    if t.targetAddr != [] then t.targetAddr + COLON + Itoa(port) else Itoa(port)
  }

  // The i-th task, if its target can be looked up.
  function Nth(t: Task, i: nat): (o: Option<Opened>)
    requires i < |LoopPorts(t)|
  {
    var ports, targets := LoopPorts(t), LoopTargets(t);
    if |ports| == 1 then Some(Opened(ports[i], t.targetStr, t.remark))
    else if i >= |targets| then None
    else
      Some(Opened(ports[i], Address(t, targets[i]), t.remark + UNDERSCORE + Itoa(ports[i])))
  }

  // The tasks of all ports.
  function Expanded(t: Task): (all: seq<Option<Opened>>)
    ensures |all| == |LoopPorts(t)|
    ensures forall i :: 0 <= i < |all| ==> all[i] == Nth(t, i)
  {
    seq(|LoopPorts(t)|, i requires 0 <= i < |LoopPorts(t)| => Nth(t, i))
  }

  // Of the first n tasks, those the client does not have yet.
  function MissingAmong(all: seq<Option<Opened>>, has: nat -> bool, n: nat): seq<Opened>
    requires n <= |all|
  {
    if n == 0 then []
    else
      var before := MissingAmong(all, has, n - 1);
      if !has(n - 1) && all[n - 1].Some? then before + [all[n - 1].value] else before
  }

  // What the loop meets at the i-th port: has, that the client has a task there when its
  // turn comes; registers, that the registry takes the task; tested, that the test of
  // the port succeeds.
  datatype Met = Met(has: nat -> bool, registers: nat -> bool, tested: nat -> bool)

  // The test of the port counts for tasks that need one.
  predicate Opens(t: Task, met: Met, i: nat) {
    met.registers(i) && (met.tested(i) || Portless(t))
  }

  // The i-th port has a target and is open at the client, from before or now.
  ghost predicate Open(t: Task, met: Met, i: nat) {
    i < |LoopPorts(t)| && Nth(t, i).Some? && (met.has(i) || Opens(t, met, i))
  }

  // The first acks ports have been answered with an acknowledgement, those the client
  // had already without opening anything, and r says why it stopped there. A task that
  // failed the test of its port stays registered although it is not opened.
  ghost predicate Opening(t: Task, met: Met, registered: seq<Opened>, tasks: seq<Opened>, acks: nat, r: Outcome) {
    && acks <= |LoopPorts(t)|
    && tasks == MissingAmong(Expanded(t), met.has, acks)
    && (forall i :: 0 <= i < acks ==> Open(t, met, i))
    && (r.Done? <==> acks == |LoopPorts(t)|)
    && (r.Failed? ==> Nth(t, acks).Some? && !met.has(acks) && !Opens(t, met, acks))
    && (r.OutOfRange? ==> Nth(t, acks).None?)
    && registered == if r.Failed? && met.registers(acks) then tasks + [Nth(t, acks).value] else tasks
  }

  // o is the task of the i-th port, at which the client has none.
  predicate IsMissing(all: seq<Option<Opened>>, has: nat -> bool, i: nat, o: Opened) {
    i < |all| && !has(i) && all[i] == Some(o)
  }

  lemma {:induction false} MissingIsThere(all: seq<Option<Opened>>, has: nat -> bool, n: nat, i: nat, o: Opened)
    requires i < n <= |all| && IsMissing(all, has, i, o)
    ensures o in MissingAmong(all, has, n)
  {
    if i < n - 1 {
      MissingIsThere(all, has, n - 1, i, o);
    }
  }

  lemma {:induction false} OnlyMissingIsThere(all: seq<Option<Opened>>, has: nat -> bool, n: nat, o: Opened)
      returns (i: nat)
    requires n <= |all| && o in MissingAmong(all, has, n)
    ensures i < n && IsMissing(all, has, i, o)
  {
    i := n - 1;
    if o in MissingAmong(all, has, n - 1) {
      i := OnlyMissingIsThere(all, has, n - 1, o);
    }
  }

  // What is opened: the task of every port answered so far at which the client has none.
  lemma MissingExactly(t: Task, has: nat -> bool, n: nat, o: Opened)
    requires n <= |LoopPorts(t)|
    ensures o in MissingAmong(Expanded(t), has, n) <==> exists i :: 0 <= i < n && !has(i) && Nth(t, i) == Some(o)
  {
    var all := Expanded(t);
    if o in MissingAmong(all, has, n) {
      var i := OnlyMissingIsThere(all, has, n, o);
      assert Nth(t, i) == all[i];
    }
    if i :| 0 <= i < n && !has(i) && Nth(t, i) == Some(o) {
      MissingIsThere(all, has, n, i, o);
    }
  }

  // Turned down: tcp or udp with several ports and another number of targets, or no port
  // at all and not secret or p2p.
  lemma RefusedExactly(t: Task)
    ensures var ports, targets := Parsed(t.ports), Parsed(t.targetStr);
      Refused(t) <==>
      || ((t.mode == [116, 99, 112] || t.mode == [117, 100, 112]) && |ports| > 1 && |ports| != |targets|)
      || (ports == [] && t.mode != [115, 101, 99, 114, 101, 116] && t.mode != [112, 50, 112])
  {
  }

  // The NEW_TASK branch of getConfig: the tasks it registers, and those it hands on to be
  // opened.
  method NewTask(t: Task, met: Met) returns (registered: seq<Opened>, tasks: seq<Opened>, acks: nat, r: Outcome)
    ensures Refused(t) ==> r == Failed && registered == tasks == [] && acks == 0
    ensures !Refused(t) ==> Opening(t, met, registered, tasks, acks, r)
    ensures forall i :: 0 <= i < acks && !met.has(i) ==> met.registers(i)
    ensures forall i :: 0 <= i < acks && !met.has(i) && !met.tested(i) ==>
      t.mode == [115, 101, 99, 114, 101, 116] || t.mode == [112, 50, 112]
    ensures !Refused(t) && r == Failed && met.registers(acks) ==>
      && !met.has(acks) && !met.tested(acks)
      && t.mode != [115, 101, 99, 114, 101, 116] && t.mode != [112, 50, 112]
  {
    var ports := GetPorts(t.ports);
    var targets := GetPorts(t.targetStr);
    if |ports| > 1 && (t.mode == TCP || t.mode == UDP) && |ports| != |targets| {
      return [], [], 0, Failed;
    } else if t.mode == SECRET || t.mode == P2P {
      ports := ports + [0];
    }
    assert ports == LoopPorts(t);
    if |ports| == 0 {
      return [], [], 0, Failed;
    }
    registered, tasks, acks, r := OpenAll(t, ports, targets, met);
    forall i | 0 <= i < acks ensures met.has(i) || Opens(t, met, i) {
      assert Open(t, met, i);
    }
  }

  // The task for the i-th port, if its target can be looked up.
  method Expand(t: Task, ports: seq<nat>, targets: seq<nat>, i: nat) returns (tl: Option<Opened>)
    requires ports == LoopPorts(t) && targets == LoopTargets(t) && i < |ports|
    ensures tl == Nth(t, i)
  {
    if |ports| == 1 {
      return Some(Opened(ports[i], t.targetStr, t.remark));
    }
    if i >= |targets| {
      return None;
    }
    var remark := t.remark + UNDERSCORE + Itoa(ports[i]);
    if t.targetAddr != [] {
      tl := Some(Opened(ports[i], t.targetAddr + COLON + Itoa(targets[i]), remark));
    } else {
      tl := Some(Opened(ports[i], Itoa(targets[i]), remark));
    }
  }

  // One turn of the loop: the task if it is registered now, and if it is opened now. The
  // result is None if the loop goes on.
  method OpenOne(t: Task, ports: seq<nat>, targets: seq<nat>, met: Met, i: nat)
    returns (registered: seq<Opened>, now: seq<Opened>, stop: Option<Outcome>)
    requires ports == LoopPorts(t) && targets == LoopTargets(t) && i < |ports|
    ensures match stop
      case None => Open(t, met, i) && registered == now == if met.has(i) then [] else [Nth(t, i).value]
      case Some(r) =>
        && now == [] && r != Done
        && (r == Failed ==> Nth(t, i).Some? && !met.has(i) && !Opens(t, met, i))
        && (r == OutOfRange ==> Nth(t, i).None?)
        && registered == if r == Failed && met.registers(i) then [Nth(t, i).value] else []
  {
    var tl := Expand(t, ports, targets, i);
    if tl.None? {
      return [], [], Some(OutOfRange);
    }
    if met.has(i) {
      return [], [], None;
    }
    if !met.registers(i) {
      return [], [], Some(Failed);
    }
    if !met.tested(i) && t.mode != SECRET && t.mode != P2P {
      return [tl.value], [], Some(Failed);
    }
    return [tl.value], [tl.value], None;
  }

  // The loop of the NEW_TASK branch.
  method OpenAll(t: Task, ports: seq<nat>, targets: seq<nat>, met: Met)
    returns (registered: seq<Opened>, tasks: seq<Opened>, acks: nat, r: Outcome)
    requires ports == LoopPorts(t) && targets == LoopTargets(t)
    ensures Opening(t, met, registered, tasks, acks, r)
  {
    registered, tasks, acks := [], [], 0;
    ghost var all := Expanded(t);
    for i := 0 to |ports|
      invariant acks == i && registered == tasks == MissingAmong(all, met.has, i)
      invariant forall j :: 0 <= j < i ==> Open(t, met, j)
    {
      var added, now, stop := OpenOne(t, ports, targets, met, i);
      registered, tasks := registered + added, tasks + now;
      if stop.Some? {
        return registered, tasks, acks, stop.value;
      }
      assert all[i] == Nth(t, i);
      acks := acks + 1;
    }
    return registered, tasks, acks, Done;
  }

  // A tcp or udp task that is not refused gets a target for every port: the whole
  // target text if there is one port, else the target of the same index, behind the
  // target address and ':' if there is one, and a remark that ends in '_' and the port.
  lemma PairedTasksStayInRange(t: Task, i: nat)
    requires t.mode == [116, 99, 112] || t.mode == [117, 100, 112]
    requires !Refused(t) && i < |LoopPorts(t)|
    ensures Nth(t, i).Some?
    ensures var ports, targets, o := Parsed(t.ports), Parsed(t.targetStr), Nth(t, i).value;
      && |ports| == |LoopPorts(t)| && o.port == ports[i]
      && (|ports| == 1 ==> o == Opened(ports[i], t.targetStr, t.remark))
      && (|ports| > 1 ==>
           && |targets| == |ports|
           && o.target == (if t.targetAddr == [] then Itoa(targets[i]) else t.targetAddr + [58] + Itoa(targets[i]))
           && o.remark == t.remark + [95] + Itoa(ports[i]))
  {
  }

  // From the texts to the tasks: two printed lists of equally many ports pair up in
  // order.
  lemma PrintedListsPairUp(t: Task, ps: seq<Item>, ts: seq<Item>, i: nat)
    requires forall x :: x in ps || x in ts ==> ItemOk(x)
    requires t.ports == Print(ps) && t.targetStr == Print(ts) && PairsUp(t)
    requires |Meant(ps)| == |Meant(ts)| > 1 && i < |Meant(ps)|
    ensures !Refused(t) && |LoopPorts(t)| == |Meant(ps)|
    ensures Nth(t, i).Some?
      && Nth(t, i).value.port == Meant(ps)[i] && Nth(t, i).value.target == Address(t, Meant(ts)[i])
  {
    PrintReadsBack(ps);
    PrintReadsBack(ts);
  }

  // For the other modes nothing compares the two lists: every look-up is in range
  // exactly when there is one port only or there are enough targets.
  lemma InRangeExactlyWhenEnoughTargets(t: Task)
    requires !Refused(t)
    ensures (forall i :: 0 <= i < |LoopPorts(t)| ==> Nth(t, i).Some?) <==>
      || t.mode == [116, 99, 112] || t.mode == [117, 100, 112]
      || |LoopPorts(t)| == 1 || |LoopTargets(t)| >= |LoopPorts(t)|
  {
    var n := |LoopPorts(t)|;
    assert n >= 1;
    if !PairsUp(t) && n > 1 && |LoopTargets(t)| < n {
      assert Nth(t, n - 1).None?;
    }
  }

  // A secret or p2p task with a port written into its configuration: 0 is appended, so the
  // loop has two ports and, without two targets, leaves the list of targets.
  lemma SecretTaskWithPort(mode: GoString, port: nat, target: GoString)
    requires mode == [115, 101, 99, 114, 101, 116] || mode == [112, 50, 112]
    requires 1 <= port <= 65536 && |Parsed(target)| < 2
    ensures var t := Task(mode, Itoa(port), target, [], []);
      !Refused(t) && LoopPorts(t) == [port, 0] && Nth(t, 1).None?
  {
    ShowReadsBack(Single(port));
    Text.SplitNone(Itoa(port), COMMA);
    assert Parsed(Itoa(port)) == AllPorts([]) + [port] by {
      assert [Itoa(port)][..0] == [];
    }
  }
}
