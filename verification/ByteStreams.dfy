// Two deterministic programs that talk over two byte streams whose bytes arrive in
// arbitrary fragments: if one run comes to rest, every run comes to the same rest.
module ByteStreams {
  import opened Common

  // ------------------------------------------------------ two programs on two streams

  // What a program does next: read exactly n bytes, write b, or stop.
  datatype Action = Read(n: nat) | Write(b: seq<byte>) | End

  // A program chooses its next action from the number of actions done and the
  // fields read so far.
  type Program = (nat, seq<seq<byte>>) -> Action

  // acc: bytes of the current read that have arrived.
  datatype Party = Party(step: nat, fields: seq<seq<byte>>, acc: seq<byte>)

  // c2s and s2c: bytes written but not yet taken by the other side.
  datatype Net = Net(client: Party, server: Party, c2s: seq<byte>, s2c: seq<byte>)

  // Take k bytes of the inbox, or do the current action (a read is done when all
  // its bytes have arrived).
  datatype Move = Take(k: nat) | Do

  // One move of a party with the given inbox: the party after it, the bytes taken
  // from the inbox and the bytes written. A move that is not possible does nothing.
  function Act(prog: Program, p: Party, inbox: seq<byte>, m: Move): (r: (Party, nat, seq<byte>))
    ensures r.1 <= |inbox|
  {
    match prog(p.step, p.fields)
    case End => (p, 0, [])
    case Write(b) => if m.Do? then (p.(step := p.step + 1), 0, b) else (p, 0, [])
    case Read(n) =>
      match m
      case Do => if |p.acc| == n then (Party(p.step + 1, p.fields + [p.acc], []), 0, []) else (p, 0, [])
      case Take(k) =>
        if 0 < k <= |inbox| && |p.acc| + k <= n then (p.(acc := p.acc + inbox[..k]), k, []) else (p, 0, [])
  }

  // client: whose move it is.
  datatype Turn = Turn(client: bool, move: Move)

  function Apply(cp: Program, sp: Program, s: Net, t: Turn): Net {
    if t.client then
      var (p, taken, out) := Act(cp, s.client, s.s2c, t.move);
      Net(p, s.server, s.c2s + out, s.s2c[taken..])
    else
      var (p, taken, out) := Act(sp, s.server, s.c2s, t.move);
      Net(s.client, p, s.c2s[taken..], s.s2c + out)
  }

  function Run(cp: Program, sp: Program, s: Net, ts: seq<Turn>): Net {
    if ts == [] then s
    else Apply(cp, sp, Run(cp, sp, s, ts[..|ts| - 1]), ts[|ts| - 1])
  }

  const START := Net(Party(0, [], []), Party(0, [], []), [], [])

  // A party can move: it has something to write, a complete read, or bytes waiting.
  predicate CanMove(prog: Program, p: Party, inbox: seq<byte>) {
    match prog(p.step, p.fields)
    case End => false
    case Write(_) => true
    case Read(n) => |p.acc| >= n || inbox != []
  }

  // ------------------------------------------------------------------------- scripts

  // What a party is expected to send and receive, in order.
  datatype Op = Snd(b: seq<byte>) | Rcv(b: seq<byte>)

  function Sent(ops: seq<Op>): seq<byte> {
    if ops == [] then []
    else
      var op := ops[|ops| - 1];
      Sent(ops[..|ops| - 1]) + if op.Snd? then op.b else []
  }

  function Received(ops: seq<Op>): seq<byte> {
    if ops == [] then []
    else
      var op := ops[|ops| - 1];
      Received(ops[..|ops| - 1]) + if op.Rcv? then op.b else []
  }

  function FieldsOf(ops: seq<Op>): seq<seq<byte>> {
    if ops == [] then []
    else
      var op := ops[|ops| - 1];
      FieldsOf(ops[..|ops| - 1]) + if op.Rcv? then [op.b] else []
  }

  function ActionOf(op: Op): Action {
    if op.Snd? then Write(op.b) else Read(|op.b|)
  }

  // The program does ops as long as it reads what they say.
  ghost predicate Follows(prog: Program, ops: seq<Op>) {
    forall i :: 0 <= i < |ops| ==> prog(i, FieldsOf(ops[..i])) == ActionOf(ops[i])
  }

  // One operation of one side in a reference run, where reads come in one piece.
  datatype Event = Event(client: bool, op: Op)

  function Side(evs: seq<Event>, client: bool): seq<Op> {
    if evs == [] then []
    else
      var ev := evs[|evs| - 1];
      Side(evs[..|evs| - 1], client) + if ev.client == client then [ev.op] else []
  }

  function Done(p: Party, op: Op): Party {
    Party(p.step + 1, p.fields + (if op.Rcv? then [op.b] else []), [])
  }

  function Put(channel: seq<byte>, op: Op): seq<byte> {
    channel + if op.Snd? then op.b else []
  }

  function Get(channel: seq<byte>, op: Op): seq<byte> {
    if op.Rcv? && |op.b| <= |channel| then channel[|op.b|..] else channel
  }

  // The state after one more event, a read taking its bytes in one piece.
  function Happen(s: Net, ev: Event): Net {
    if ev.client then Net(Done(s.client, ev.op), s.server, Put(s.c2s, ev.op), Get(s.s2c, ev.op))
    else Net(s.client, Done(s.server, ev.op), Get(s.c2s, ev.op), Put(s.s2c, ev.op))
  }

  // The event is what its program does next, and a read finds its bytes waiting.
  predicate Possible(cp: Program, sp: Program, s: Net, ev: Event) {
    && (if ev.client then cp(s.client.step, s.client.fields) == ActionOf(ev.op)
        else sp(s.server.step, s.server.fields) == ActionOf(ev.op))
    && (ev.op.Rcv? ==> ev.op.b <= if ev.client then s.s2c else s.c2s)
  }

  // The state after a reference run.
  function Replay(evs: seq<Event>): Net {
    if evs == [] then START else Happen(Replay(evs[..|evs| - 1]), evs[|evs| - 1])
  }

  ghost predicate Legal(cp: Program, sp: Program, evs: seq<Event>) {
    evs != [] ==>
      && Legal(cp, sp, evs[..|evs| - 1])
      && Possible(cp, sp, Replay(evs[..|evs| - 1]), evs[|evs| - 1])
  }

  lemma Extend(cp: Program, sp: Program, evs: seq<Event>, ev: Event)
    requires Legal(cp, sp, evs) && Possible(cp, sp, Replay(evs), ev)
    ensures Legal(cp, sp, evs + [ev]) && Replay(evs + [ev]) == Happen(Replay(evs), ev)
  {
    assert (evs + [ev])[..|evs|] == evs;
  }

  // Each side receives a prefix of what the other sends.
  predicate Matching(cs: seq<Op>, ss: seq<Op>) {
    Received(ss) <= Sent(cs) && Received(cs) <= Sent(ss)
  }

  // ----------------------------------------------------------------------- invariant

  ghost predicate PartyOk(p: Party, ops: seq<Op>) {
    && p.step <= |ops|
    && p.fields == FieldsOf(ops[..p.step])
    && (p.acc != [] ==> p.step < |ops| && ops[p.step].Rcv? && |p.acc| <= |ops[p.step].b|)
  }

  // What a party has still to do: operations, and bytes to take.
  function Left(p: Party, ops: seq<Op>): int {
    |ops| - p.step + |Received(ops)| - |p.acc| - if p.step <= |ops| then |Received(ops[..p.step])| else 0
  }

  // The books of one party: what it has taken and what waits for it is what was sent.
  ghost predicate Books(p: Party, ops: seq<Op>, sent: seq<byte>, inbox: seq<byte>) {
    PartyOk(p, ops) && Received(ops[..p.step]) + p.acc + inbox == sent
  }

  // Nothing is lost or invented on the way: what one side has taken, followed by
  // what is in flight, is what the other side has sent.
  ghost predicate NetOk(s: Net, cs: seq<Op>, ss: seq<Op>) {
    && s.client.step <= |cs| && s.server.step <= |ss|
    && Books(s.server, ss, Sent(cs[..s.client.step]), s.c2s)
    && Books(s.client, cs, Sent(ss[..s.server.step]), s.s2c)
  }

  lemma {:induction false} SentPrefix(ops: seq<Op>, i: nat)
    requires i <= |ops|
    ensures Sent(ops[..i]) <= Sent(ops) && Received(ops[..i]) <= Received(ops)
  {
    if i < |ops| {
      SentPrefix(ops[..|ops| - 1], i);
      assert ops[..|ops| - 1][..i] == ops[..i];
    } else {
      assert ops[..i] == ops;
    }
  }

  lemma Unfold(ops: seq<Op>, i: nat)
    requires i < |ops|
    ensures Sent(ops[..i + 1]) == Sent(ops[..i]) + if ops[i].Snd? then ops[i].b else []
    ensures Received(ops[..i + 1]) == Received(ops[..i]) + if ops[i].Rcv? then ops[i].b else []
    ensures FieldsOf(ops[..i + 1]) == FieldsOf(ops[..i]) + if ops[i].Rcv? then [ops[i].b] else []
  {
    assert ops[..i + 1][..i] == ops[..i];
  }

  lemma PrefixesAgree(a: seq<byte>, x: seq<byte>, y: seq<byte>, whole: seq<byte>)
    requires a + x <= whole && a + y <= whole && |x| == |y|
    ensures x == y
  {
    assert (a + x)[|a|..] == x && (a + y)[|a|..] == y;
    assert a + x == whole[..|a| + |x|] && a + y == whole[..|a| + |x|];
  }

  // A completed read holds exactly the bytes the script expects.
  lemma ReadIsExpected(p: Party, ops: seq<Op>, others: seq<Op>, j: nat, inbox: seq<byte>)
    requires p.step < |ops| && ops[p.step].Rcv? && |p.acc| == |ops[p.step].b|
    requires Received(ops) <= Sent(others) && j <= |others|
    requires Received(ops[..p.step]) + p.acc + inbox == Sent(others[..j])
    ensures p.acc == ops[p.step].b
  {
    Unfold(ops, p.step);
    SentPrefix(ops, p.step + 1);
    SentPrefix(others, j);
    PrefixesAgree(Received(ops[..p.step]), p.acc, ops[p.step].b, Sent(others));
  }

  lemma TakeOk(p: Party, ops: seq<Op>, sent: seq<byte>, inbox: seq<byte>, k: nat)
    requires Books(p, ops, sent, inbox) && 0 < k <= |inbox|
    requires p.step < |ops| && ops[p.step].Rcv? && |p.acc| + k <= |ops[p.step].b|
    ensures var p' := p.(acc := p.acc + inbox[..k]);
      Books(p', ops, sent, inbox[k..]) && Left(p', ops) < Left(p, ops)
  {
    var before := Received(ops[..p.step]);
    CutAt(inbox, k);
    Associate(before, p.acc, inbox[..k]);
    Associate(before + p.acc, inbox[..k], inbox[k..]);
  }

  // The books after a completed read, in bytes.
  lemma ReadBytes(before: seq<byte>, acc: seq<byte>, inbox: seq<byte>)
    ensures before + acc + [] + inbox == before + acc + inbox
  {
  }

  lemma ReadBooks(p: Party, ops: seq<Op>, sent: seq<byte>, inbox: seq<byte>)
    requires Books(p, ops, sent, inbox) && p.step < |ops| && ops[p.step] == Rcv(p.acc)
    ensures Books(Party(p.step + 1, p.fields + [p.acc], []), ops, sent, inbox)
    ensures Sent(ops[..p.step + 1]) == Sent(ops[..p.step])
  {
    Unfold(ops, p.step);
    ReadBytes(Received(ops[..p.step]), p.acc, inbox);
  }

  lemma ReadLeft(p: Party, ops: seq<Op>)
    requires p.step < |ops| && ops[p.step] == Rcv(p.acc)
    ensures Left(Party(p.step + 1, p.fields + [p.acc], []), ops) < Left(p, ops)
  {
    Unfold(ops, p.step);
  }

  lemma ReadOk(p: Party, ops: seq<Op>, others: seq<Op>, j: nat, inbox: seq<byte>)
    requires j <= |others| && Books(p, ops, Sent(others[..j]), inbox) && Received(ops) <= Sent(others)
    requires p.step < |ops| && ops[p.step].Rcv? && |p.acc| == |ops[p.step].b|
    ensures var p' := Party(p.step + 1, p.fields + [p.acc], []);
      Books(p', ops, Sent(others[..j]), inbox) && Left(p', ops) < Left(p, ops)
    ensures Sent(ops[..p.step + 1]) == Sent(ops[..p.step])
  {
    ReadIsExpected(p, ops, others, j, inbox);
    ReadBooks(p, ops, Sent(others[..j]), inbox);
    ReadLeft(p, ops);
  }

  lemma WriteOk(p: Party, ops: seq<Op>, sent: seq<byte>, inbox: seq<byte>)
    requires Books(p, ops, sent, inbox) && p.step < |ops| && ops[p.step].Snd?
    ensures var p' := p.(step := p.step + 1);
      Books(p', ops, sent, inbox) && Left(p', ops) < Left(p, ops)
    ensures Sent(ops[..p.step + 1]) == Sent(ops[..p.step]) + ops[p.step].b
  {
    Unfold(ops, p.step);
  }

  // Nothing to do and nothing to take.
  predicate Idle(a: Action, inbox: seq<byte>) {
    a.End? || (a.Read? && a.n > 0 && inbox == [])
  }

  // One move of one party keeps its books, and uses up part of its work.
  lemma ActOk(prog: Program, p: Party, ops: seq<Op>, others: seq<Op>, j: nat, inbox: seq<byte>, m: Move)
    requires Follows(prog, ops) && Received(ops) <= Sent(others) && j <= |others|
    requires Books(p, ops, Sent(others[..j]), inbox)
    requires p.step == |ops| ==> Idle(prog(p.step, p.fields), inbox)
    ensures var (p', taken, out) := Act(prog, p, inbox, m);
      && Books(p', ops, Sent(others[..j]), inbox[taken..])
      && Sent(ops[..p'.step]) == Sent(ops[..p.step]) + out
      && (p' == p ==> taken == 0 && out == [])
      && (p' != p ==> Left(p', ops) < Left(p, ops))
  {
    if p.step == |ops| {
      assert Act(prog, p, inbox, m) == (p, 0, []);
      assert inbox[0..] == inbox;
    } else if ops[p.step].Snd? {
      assert inbox[0..] == inbox;
      if m.Do? {
        WriteOk(p, ops, Sent(others[..j]), inbox);
      }
    } else if m.Do? {
      assert inbox[0..] == inbox;
      if |p.acc| == |ops[p.step].b| {
        ReadOk(p, ops, others, j, inbox);
      }
    } else if 0 < m.k <= |inbox| && |p.acc| + m.k <= |ops[p.step].b| {
      TakeOk(p, ops, Sent(others[..j]), inbox, m.k);
      assert |p.acc + inbox[..m.k]| == |p.acc| + m.k;
    }
  }

  lemma Snoc(ops: seq<Op>, op: Op)
    ensures Sent(ops + [op]) == Put(Sent(ops), op)
    ensures Received(ops + [op]) == Received(ops) + if op.Rcv? then op.b else []
    ensures FieldsOf(ops + [op]) == FieldsOf(ops) + if op.Rcv? then [op.b] else []
  {
    assert (ops + [op])[..|ops|] == ops;
  }

  // One event keeps the books between a side that acts and the other one.
  lemma EventBooks(own: seq<Op>, other: seq<Op>, outbox: seq<byte>, inbox: seq<byte>, op: Op)
    requires Received(other) + outbox == Sent(own) && Received(own) + inbox == Sent(other)
    requires op.Rcv? ==> op.b <= inbox
    ensures Received(other) + Put(outbox, op) == Sent(own + [op])
    ensures Received(own + [op]) + Get(inbox, op) == Sent(other)
  {
    if op.Rcv? {
      EventReads(own, other, outbox, inbox, op.b);
    } else {
      EventWrites(own, other, outbox, inbox, op.b);
    }
  }

  lemma EventReads(own: seq<Op>, other: seq<Op>, outbox: seq<byte>, inbox: seq<byte>, b: seq<byte>)
    requires Received(other) + outbox == Sent(own) && Received(own) + inbox == Sent(other) && b <= inbox
    ensures Received(other) + (outbox + []) == Sent(own + [Rcv(b)])
    ensures Received(own + [Rcv(b)]) + inbox[|b|..] == Sent(other)
  {
    Snoc(own, Rcv(b));
    CutAt(inbox, |b|);
    Associate(Received(own), b, inbox[|b|..]);
    assert outbox + [] == outbox && Sent(own) + [] == Sent(own);
  }

  lemma EventWrites(own: seq<Op>, other: seq<Op>, outbox: seq<byte>, inbox: seq<byte>, b: seq<byte>)
    requires Received(other) + outbox == Sent(own) && Received(own) + inbox == Sent(other)
    ensures Received(other) + (outbox + b) == Sent(own + [Snd(b)])
    ensures Received(own + [Snd(b)]) + inbox == Sent(other)
  {
    Snoc(own, Snd(b));
    Associate(Received(other), outbox, b);
    assert Received(own) + [] == Received(own);
  }

  // s is the state in which cs and ss have been done, reads in one piece.
  ghost predicate Balanced(s: Net, cs: seq<Op>, ss: seq<Op>) {
    && s.client == Party(|cs|, FieldsOf(cs), []) && s.server == Party(|ss|, FieldsOf(ss), [])
    && Received(ss) + s.c2s == Sent(cs) && Received(cs) + s.s2c == Sent(ss)
  }

  // A reference run keeps the books too.
  lemma {:induction false} LegalBooks(cp: Program, sp: Program, evs: seq<Event>)
    requires Legal(cp, sp, evs)
    ensures Balanced(Replay(evs), Side(evs, true), Side(evs, false))
    ensures Follows(cp, Side(evs, true)) && Follows(sp, Side(evs, false))
  {
    if evs != [] {
      var before, ev := evs[..|evs| - 1], evs[|evs| - 1];
      LegalBooks(cp, sp, before);
      var s, own, other := Replay(before), Side(before, ev.client), Side(before, !ev.client);
      Snoc(own, ev.op);
      assert Side(evs, ev.client) == own + [ev.op] && Side(evs, !ev.client) == other;
      if ev.client {
        FollowsSnoc(cp, own, ev.op);
        EventBooks(own, other, s.c2s, s.s2c, ev.op);
      } else {
        FollowsSnoc(sp, own, ev.op);
        EventBooks(own, other, s.s2c, s.c2s, ev.op);
      }
    }
  }

  lemma FollowsSnoc(prog: Program, ops: seq<Op>, op: Op)
    requires Follows(prog, ops) && prog(|ops|, FieldsOf(ops)) == ActionOf(op)
    ensures Follows(prog, ops + [op])
  {
    forall i | 0 <= i < |ops + [op]|
      ensures prog(i, FieldsOf((ops + [op])[..i])) == ActionOf((ops + [op])[i])
    {
      assert (ops + [op])[..i] == ops[..i];
      assert ops[..|ops|] == ops;
    }
  }

  // A reference run that has come to rest: nobody can move any more.
  ghost predicate Reference(cp: Program, sp: Program, evs: seq<Event>) {
    && Legal(cp, sp, evs)
    && AtRest(cp, sp, Replay(evs))
  }

  predicate AtRest(cp: Program, sp: Program, s: Net) {
    !CanMove(cp, s.client, s.s2c) && !CanMove(sp, s.server, s.c2s)
  }

  // What a reference run provides for the invariant.
  ghost predicate Setting(cp: Program, sp: Program, cs: seq<Op>, ss: seq<Op>) {
    && Follows(cp, cs) && Follows(sp, ss)
    && Matching(cs, ss)
    && Halts(cp, cs, ss) && Halts(sp, ss, cs)
  }

  // At the end of its operations a program stops, or reads on with nothing to come.
  ghost predicate Halts(prog: Program, ops: seq<Op>, others: seq<Op>) {
    var a := prog(|ops|, FieldsOf(ops));
    a.End? || (a.Read? && a.n > 0 && Received(ops) == Sent(others))
  }

  lemma ReferenceSetting(cp: Program, sp: Program, evs: seq<Event>)
    requires Reference(cp, sp, evs)
    ensures Setting(cp, sp, Side(evs, true), Side(evs, false))
  {
    LegalBooks(cp, sp, evs);
    var s, cs, ss := Replay(evs), Side(evs, true), Side(evs, false);
    assert s.c2s == [] ==> Received(ss) + [] == Received(ss);
    assert s.s2c == [] ==> Received(cs) + [] == Received(cs);
  }

  // A party through with its script sees an empty inbox, or stops.
  lemma InboxAtEnd(prog: Program, p: Party, ops: seq<Op>, others: seq<Op>, j: nat, inbox: seq<byte>)
    requires p.step == |ops| && j <= |others| && Books(p, ops, Sent(others[..j]), inbox)
    requires Halts(prog, ops, others)
    ensures Idle(prog(p.step, p.fields), inbox)
  {
    assert ops[..p.step] == ops;
    SentPrefix(others, j);
  }

  lemma StepOk(cp: Program, sp: Program, s: Net, cs: seq<Op>, ss: seq<Op>, t: Turn)
    requires Setting(cp, sp, cs, ss) && NetOk(s, cs, ss)
    ensures NetOk(Apply(cp, sp, s, t), cs, ss)
  {
    if t.client {
      if s.client.step == |cs| {
        InboxAtEnd(cp, s.client, cs, ss, s.server.step, s.s2c);
      }
      ActOk(cp, s.client, cs, ss, s.server.step, s.s2c, t.move);
      Associate(Received(ss[..s.server.step]) + s.server.acc, s.c2s, Act(cp, s.client, s.s2c, t.move).2);
    } else {
      if s.server.step == |ss| {
        InboxAtEnd(sp, s.server, ss, cs, s.client.step, s.c2s);
      }
      ActOk(sp, s.server, ss, cs, s.client.step, s.c2s, t.move);
      Associate(Received(cs[..s.client.step]) + s.client.acc, s.s2c, Act(sp, s.server, s.c2s, t.move).2);
    }
  }

  lemma {:induction false} RunOk(cp: Program, sp: Program, cs: seq<Op>, ss: seq<Op>, ts: seq<Turn>)
    requires Setting(cp, sp, cs, ss)
    ensures NetOk(Run(cp, sp, START, ts), cs, ss)
  {
    if ts == [] {
      assert cs[..0] == [] && ss[..0] == [];
    } else {
      RunOk(cp, sp, cs, ss, ts[..|ts| - 1]);
      StepOk(cp, sp, Run(cp, sp, START, ts[..|ts| - 1]), cs, ss, ts[|ts| - 1]);
    }
  }

  // ------------------------------------------------------------------ never stuck

  // A party can move when everything its next read needs has been sent.
  lemma ReadyMoves(prog: Program, p: Party, ops: seq<Op>, sent: seq<byte>, inbox: seq<byte>)
    requires Follows(prog, ops) && Books(p, ops, sent, inbox) && p.step < |ops|
    requires ops[p.step].Rcv? ==> |Received(ops[..p.step + 1])| <= |sent|
    ensures CanMove(prog, p, inbox)
  {
    Unfold(ops, p.step);
  }

  lemma {:induction false} SidePrefix(evs: seq<Event>, n: nat, client: bool)
    requires n <= |evs|
    ensures Side(evs[..n], client) <= Side(evs, client)
  {
    if n < |evs| {
      SidePrefix(evs[..|evs| - 1], n, client);
      assert evs[..|evs| - 1][..n] == evs[..n];
    } else {
      assert evs[..n] == evs;
    }
  }

  // Along a legal run there is a first operation that is not done yet, and
  // everything it needs has been sent.
  lemma {:induction false} SomebodyMoves(cp: Program, sp: Program, s: Net, all: seq<Event>, n: nat)
    requires Legal(cp, sp, all) && n <= |all| && Legal(cp, sp, all[..n])
    requires NetOk(s, Side(all, true), Side(all, false))
    requires s.client.step < |Side(all[..n], true)| || s.server.step < |Side(all[..n], false)|
    ensures CanMove(cp, s.client, s.s2c) || CanMove(sp, s.server, s.c2s)
    decreases n
  {
    assert all[..n][..n - 1] == all[..n - 1];
    if s.client.step < |Side(all[..n - 1], true)| || s.server.step < |Side(all[..n - 1], false)| {
      SomebodyMoves(cp, sp, s, all, n - 1);
    } else {
      LastUndone(cp, sp, s, all, n);
    }
  }

  // What the first n events of a legal run provide.
  ghost predicate Prefixed(all: seq<Op>, others: seq<Op>, own: seq<Op>, other: seq<Op>) {
    own <= all && other <= others && Received(own) <= Sent(other) && Received(other) <= Sent(own)
  }

  lemma LegalPrefix(cp: Program, sp: Program, all: seq<Event>, n: nat)
    requires n <= |all| && Legal(cp, sp, all[..n])
    ensures Prefixed(Side(all, true), Side(all, false), Side(all[..n], true), Side(all[..n], false))
  {
    LegalBooks(cp, sp, all[..n]);
    SidePrefix(all, n, true);
    SidePrefix(all, n, false);
  }

  lemma LastEvent(all: seq<Event>, n: nat, client: bool)
    requires 0 < n <= |all|
    ensures Side(all[..n], client)
      == Side(all[..n - 1], client) + if all[n - 1].client == client then [all[n - 1].op] else []
  {
    assert all[..n][..n - 1] == all[..n - 1] && all[..n][n - 1] == all[n - 1];
  }

  lemma LastUndone(cp: Program, sp: Program, s: Net, all: seq<Event>, n: nat)
    requires Legal(cp, sp, all) && 0 < n <= |all| && Legal(cp, sp, all[..n])
    requires NetOk(s, Side(all, true), Side(all, false))
    requires s.client.step < |Side(all[..n], true)| || s.server.step < |Side(all[..n], false)|
    requires s.client.step >= |Side(all[..n - 1], true)| && s.server.step >= |Side(all[..n - 1], false)|
    ensures CanMove(cp, s.client, s.s2c) || CanMove(sp, s.server, s.c2s)
  {
    LegalBooks(cp, sp, all);
    LegalPrefix(cp, sp, all, n);
    LastEvent(all, n, true);
    LastEvent(all, n, false);
    UndoneMoves(cp, sp, s, Side(all, true), Side(all, false), Side(all[..n], true), Side(all[..n], false),
      all[n - 1].client);
  }

  lemma UndoneMoves(cp: Program, sp: Program, s: Net, cs: seq<Op>, ss: seq<Op>, c: seq<Op>, d: seq<Op>, client: bool)
    requires Follows(cp, cs) && Follows(sp, ss) && NetOk(s, cs, ss) && Prefixed(cs, ss, c, d)
    requires if client then s.client.step == |c| - 1 && s.server.step >= |d|
             else s.server.step == |d| - 1 && s.client.step >= |c|
    ensures CanMove(cp, s.client, s.s2c) || CanMove(sp, s.server, s.c2s)
  {
    if client {
      FirstUndone(cp, s.client, cs, ss, c, d, s.server.step, s.s2c);
    } else {
      FirstUndone(sp, s.server, ss, cs, d, c, s.client.step, s.c2s);
    }
  }

  // own and other are the two sides of the legal run up to and including the last
  // operation of own; everything that own reads has been sent by then.
  lemma EnoughSent(ops: seq<Op>, others: seq<Op>, own: seq<Op>, other: seq<Op>, y: nat)
    requires own <= ops && other <= others && |other| <= y <= |others|
    requires Received(own) <= Sent(other)
    ensures |Received(ops[..|own|])| <= |Sent(others[..y])|
  {
    assert ops[..|own|] == own;
    assert others[..y][..|other|] == other;
    SentPrefix(others[..y], |other|);
  }

  // The party stands exactly in front of the last operation of own.
  lemma FirstUndone(prog: Program, p: Party, ops: seq<Op>, others: seq<Op>, own: seq<Op>, other: seq<Op>,
      y: nat, inbox: seq<byte>)
    requires own <= ops && own != [] && other <= others && |other| <= y <= |others|
    requires Received(own) <= Sent(other)
    requires Follows(prog, ops) && Books(p, ops, Sent(others[..y]), inbox) && p.step == |own| - 1
    ensures CanMove(prog, p, inbox)
  {
    EnoughSent(ops, others, own, other, y);
    ReadyMoves(prog, p, ops, Sent(others[..y]), inbox);
  }

  lemma LeftBounded(p: Party, ops: seq<Op>)
    requires PartyOk(p, ops)
    ensures Left(p, ops) >= 0
  {
    SentPrefix(ops, p.step);
    if p.step < |ops| {
      Unfold(ops, p.step);
      SentPrefix(ops, p.step + 1);
    }
  }

  function Work(s: Net, cs: seq<Op>, ss: seq<Op>): int {
    Left(s.client, cs) + Left(s.server, ss)
  }

  // Every move that does something leaves less to do, so every run has finitely
  // many of them.
  lemma MovesMakeProgress(cp: Program, sp: Program, s: Net, cs: seq<Op>, ss: seq<Op>, t: Turn)
    requires Setting(cp, sp, cs, ss) && NetOk(s, cs, ss)
    requires Apply(cp, sp, s, t) != s
    ensures 0 <= Work(Apply(cp, sp, s, t), cs, ss) < Work(s, cs, ss)
  {
    var s' := Apply(cp, sp, s, t);
    StepOk(cp, sp, s, cs, ss, t);
    LeftBounded(s'.client, cs);
    LeftBounded(s'.server, ss);
    if t.client {
      if s.client.step == |cs| {
        InboxAtEnd(cp, s.client, cs, ss, s.server.step, s.s2c);
      }
      ActOk(cp, s.client, cs, ss, s.server.step, s.s2c, t.move);
      assert s'.client != s.client;
    } else {
      if s.server.step == |ss| {
        InboxAtEnd(sp, s.server, ss, cs, s.client.step, s.c2s);
      }
      ActOk(sp, s.server, ss, cs, s.client.step, s.c2s, t.move);
      assert s'.server != s.server;
    }
  }

  // The moves of a run that did something.
  function Effective(cp: Program, sp: Program, s: Net, ts: seq<Turn>): nat {
    if ts == [] then 0
    else
      var before := Run(cp, sp, s, ts[..|ts| - 1]);
      Effective(cp, sp, s, ts[..|ts| - 1]) + if Apply(cp, sp, before, ts[|ts| - 1]) == before then 0 else 1
  }

  // No run goes on for ever: it has at most as many effective moves as there are
  // operations and bytes.
  lemma {:induction false} RunsAreFinite(cp: Program, sp: Program, cs: seq<Op>, ss: seq<Op>, ts: seq<Turn>)
    requires Setting(cp, sp, cs, ss)
    ensures Effective(cp, sp, START, ts) + Work(Run(cp, sp, START, ts), cs, ss)
            <= |cs| + |ss| + |Received(cs)| + |Received(ss)|
    ensures Work(Run(cp, sp, START, ts), cs, ss) >= 0
  {
    RunOk(cp, sp, cs, ss, ts);
    LeftBounded(Run(cp, sp, START, ts).client, cs);
    LeftBounded(Run(cp, sp, START, ts).server, ss);
    if ts == [] {
      assert cs[..0] == [] && ss[..0] == [];
    } else {
      var before := Run(cp, sp, START, ts[..|ts| - 1]);
      RunsAreFinite(cp, sp, cs, ss, ts[..|ts| - 1]);
      RunOk(cp, sp, cs, ss, ts[..|ts| - 1]);
      if Run(cp, sp, START, ts) != before {
        MovesMakeProgress(cp, sp, before, cs, ss, ts[|ts| - 1]);
      }
    }
  }

  // Determinacy: if one run comes to rest, every run that comes to rest does so in
  // the same state: same fields, same place in both programs, same bytes left over.
  lemma EveryRestIsTheSame(cp: Program, sp: Program, evs: seq<Event>, ts: seq<Turn>)
    requires Reference(cp, sp, evs)
    requires AtRest(cp, sp, Run(cp, sp, START, ts))
    ensures Run(cp, sp, START, ts) == Replay(evs)
  {
    var cs, ss := Side(evs, true), Side(evs, false);
    var s := Run(cp, sp, START, ts);
    LegalBooks(cp, sp, evs);
    ReferenceSetting(cp, sp, evs);
    RunOk(cp, sp, cs, ss, ts);
    assert evs[..|evs|] == evs;
    if s.client.step < |cs| || s.server.step < |ss| {
      SomebodyMoves(cp, sp, s, evs, |evs|);
    }
    RestState(s, Replay(evs), cs, ss);
  }

  lemma RestState(s: Net, t: Net, cs: seq<Op>, ss: seq<Op>)
    requires NetOk(s, cs, ss) && s.client.step == |cs| && s.server.step == |ss|
    requires Balanced(t, cs, ss)
    ensures s == t
  {
    assert cs[..|cs|] == cs && ss[..|ss|] == ss;
    SameRest(Received(ss), s.c2s, t.c2s);
    SameRest(Received(cs), s.s2c, t.s2c);
  }

  lemma SameRest(a: seq<byte>, x: seq<byte>, y: seq<byte>)
    requires a + [] + x == a + y
    ensures x == y
  {
    assert (a + [] + x)[|a|..] == x && (a + y)[|a|..] == y;
  }

  // No run waits for ever: a run that has not come to rest has a move that does
  // something, and no run has more such moves than there are operations and bytes.
  lemma EveryRunComesToRest(cp: Program, sp: Program, evs: seq<Event>, ts: seq<Turn>)
    requires Reference(cp, sp, evs)
    ensures var s := Run(cp, sp, START, ts);
      AtRest(cp, sp, s) || exists t :: Apply(cp, sp, s, t) != s
    ensures Effective(cp, sp, START, ts)
            <= |evs| + |Received(Side(evs, true))| + |Received(Side(evs, false))|
  {
    var s := Run(cp, sp, START, ts);
    var cs, ss := Side(evs, true), Side(evs, false);
    ReferenceSetting(cp, sp, evs);
    RunsAreFinite(cp, sp, cs, ss, ts);
    SidesCount(evs);
    RunOk(cp, sp, cs, ss, ts);
    if CanMove(cp, s.client, s.s2c) {
      var m := SomeMove(cp, s.client, cs, s.s2c);
      assert Apply(cp, sp, s, Turn(true, m)) != s;
    } else if CanMove(sp, s.server, s.c2s) {
      var m := SomeMove(sp, s.server, ss, s.c2s);
      assert Apply(cp, sp, s, Turn(false, m)) != s;
    }
  }

  lemma {:induction false} SidesCount(evs: seq<Event>)
    ensures |Side(evs, true)| + |Side(evs, false)| == |evs|
  {
    if evs != [] {
      SidesCount(evs[..|evs| - 1]);
    }
  }

  lemma SomeMove(prog: Program, p: Party, ops: seq<Op>, inbox: seq<byte>) returns (m: Move)
    requires CanMove(prog, p, inbox) && PartyOk(p, ops) && Follows(prog, ops)
    ensures Act(prog, p, inbox, m).0 != p
  {
    match prog(p.step, p.fields)
    case Write(_) => m := Do;
    case Read(n) =>
      if |p.acc| == n {
        m := Do;
      } else {
        m := Take(1);
      }
  }

  // At every moment of every run, each side has read exactly the first fields that
  // the reference run gives it.
  lemma FieldsAreWhatWasSent(cp: Program, sp: Program, evs: seq<Event>, ts: seq<Turn>)
    requires Reference(cp, sp, evs)
    ensures var s := Run(cp, sp, START, ts);
      s.client.fields <= Replay(evs).client.fields && s.server.fields <= Replay(evs).server.fields
  {
    LegalBooks(cp, sp, evs);
    ReferenceSetting(cp, sp, evs);
    RunOk(cp, sp, Side(evs, true), Side(evs, false), ts);
    var s := Run(cp, sp, START, ts);
    FieldsPrefix(Side(evs, true), s.client.step);
    FieldsPrefix(Side(evs, false), s.server.step);
  }

  lemma {:induction false} FieldsPrefix(ops: seq<Op>, i: nat)
    requires i <= |ops|
    ensures FieldsOf(ops[..i]) <= FieldsOf(ops)
  {
    if i < |ops| {
      FieldsPrefix(ops[..|ops| - 1], i);
      assert ops[..|ops| - 1][..i] == ops[..i];
    } else {
      assert ops[..i] == ops;
    }
  }

  predicate EndsWithWord(ops: seq<Op>) {
    ops != [] && ops[|ops| - 1].Snd? && ops[|ops| - 1].b != []
  }

  // A server that has done everything has read the client's last word, if nothing is
  // left on the way in the end; so the client has said it.
  lemma LastWordWasSaid(cp: Program, sp: Program, evs: seq<Event>, ts: seq<Turn>)
    requires Reference(cp, sp, evs) && Replay(evs).c2s == []
    requires EndsWithWord(Side(evs, true))
    requires Run(cp, sp, START, ts).server.step == |Side(evs, false)|
    ensures Run(cp, sp, START, ts).client.step == |Side(evs, true)|
  {
    var cs, ss, s := Side(evs, true), Side(evs, false), Run(cp, sp, START, ts);
    LegalBooks(cp, sp, evs);
    ReferenceSetting(cp, sp, evs);
    RunOk(cp, sp, cs, ss, ts);
    AllSaid(s, Replay(evs), cs, ss);
  }

  lemma AllSaid(s: Net, t: Net, cs: seq<Op>, ss: seq<Op>)
    requires NetOk(s, cs, ss) && Balanced(t, cs, ss) && t.c2s == [] && s.server.step == |ss|
    requires EndsWithWord(cs)
    ensures s.client.step == |cs|
  {
    assert ss[..|ss|] == ss;
    assert |Received(ss)| <= |Sent(cs[..s.client.step])|;
    if s.client.step < |cs| {
      NotYetSaid(cs, s.client.step);
    }
  }

  lemma NotYetSaid(ops: seq<Op>, i: nat)
    requires i < |ops| && EndsWithWord(ops)
    ensures |Sent(ops[..i])| < |Sent(ops)|
  {
    var n := |ops| - 1;
    assert ops[..n][..i] == ops[..i];
    SentPrefix(ops[..n], i);
  }
}
