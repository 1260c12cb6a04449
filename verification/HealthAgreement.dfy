// End-to-end agreement of the health protocol over every interleaving of checks,
// in-order deliveries and round-robin picks on one uninterrupted link.
module HealthAgreement {
  import opened Common
  import opened Targets
  import opened HealthProtocol
  import Text

  // id: the client; maxFail: the failure limit of the (one) record of each target.
  datatype Config = Config(id: int, maxFail: map<GoString, int>)

  // The client's counters, the messages in flight, and one entry of the server.
  // Entries do not influence each other, so each is treated on its own.
  datatype Sys = Sys(counters: map<GoString, int>, link: seq<Msg>, entry: Entry)

  datatype Step = Check(v: GoString, failed: bool) | Deliver | Choose

  ghost predicate Limits(cfg: Config) {
    forall v :: v in cfg.maxFail ==> cfg.maxFail[v] > 0
  }

  function Apply(cfg: Config, s: Sys, step: Step): Sys
    requires Limits(cfg)
  {
    match step
    case Check(v, failed) =>
      if v !in cfg.maxFail then s
      else
        var c := CounterOf(s.counters, v);
        s.(counters := s.counters[v := Counted(c, cfg.maxFail[v], failed)],
           link := s.link + Reported(c, cfg.maxFail[v], v, failed))
    case Deliver =>
      if s.link == [] then s
      else Sys(s.counters, s.link[1..], OnMessage(s.entry, cfg.id, s.link[0].info, s.link[0].status))
    case Choose =>
      s.(entry := s.entry.(target := Pick(s.entry.target).0))
  }

  function Run(cfg: Config, s: Sys, steps: seq<Step>): Sys
    requires Limits(cfg)
  {
    if steps == [] then s
    else Apply(cfg, Run(cfg, s, steps[..|steps| - 1]), steps[|steps| - 1])
  }

  // The targets that are handed out; a nil list stands for the whole text.
  function Live(e: Entry): seq<GoString> {
    if e.target.targetArr.None? then Lines(e) else e.target.targetArr.value
  }

  // An empty list that no report has emptied. The bridge reloads such a list on the
  // next "0", but GetRandomTarget does not.
  predicate Unloaded(e: Entry) {
    e.target.targetArr == Some([]) && e.removed == []
  }

  // How often a text is live, and how often it is a piece or a line of the target text.
  function LiveCount(e: Entry, x: GoString): nat {
    multiset(Live(e))[x]
  }

  function PieceCount(e: Entry, x: GoString): nat {
    multiset(Pieces(e.target.targetStr))[x]
  }

  function LineCount(e: Entry, x: GoString): nat {
    multiset(Lines(e))[x]
  }

  predicate Occurs(e: Entry, x: GoString) {
    Text.Contains(e.target.targetStr, x)
  }

  predicate EntryOk(cfg: Config, e: Entry) {
    e.clientId == cfg.id && (e.isHost || e.tcpMode) && (e.target.targetArr.None? ==> e.removed == [])
  }

  // A fresh link and fresh counters, with any text and any lists on the server: nil,
  // empty, or what an earlier link has left behind.
  ghost predicate Start(cfg: Config, s: Sys) {
    Limits(cfg) && s.counters == map[] && s.link == [] && EntryOk(cfg, s.entry)
  }

  // The usual start: the list has not been loaded.
  ghost predicate Init(cfg: Config, s: Sys) {
    Start(cfg, s) && s.entry.target.targetArr.None?
  }

  // ------------------------------------------------------------------- list facts

  lemma {:induction false} RemoveFirstCount(arr: seq<GoString>, val: GoString)
    ensures multiset(RemoveFirst(arr, val)) == multiset(arr) - multiset{val}
  {
    if arr != [] {
      assert arr == [arr[0]] + arr[1..];
      RemoveFirstCount(arr[1..], val);
      if arr[0] != val {
        assert multiset(RemoveFirst(arr, val)) == multiset{arr[0]} + multiset(RemoveFirst(arr[1..], val));
      }
    }
  }

  lemma {:induction false} TrimmedCount(a: seq<GoString>, x: GoString)
    ensures multiset(Trimmed(a))[x] == if x == [] then 0 else multiset(a)[x]
  {
    if a != [] {
      assert a == [a[0]] + a[1..];
      TrimmedCount(a[1..], x);
    }
  }

  lemma LinesOccur(e: Entry, x: GoString)
    ensures LineCount(e, x) == if x == [] then 0 else PieceCount(e, x)
    ensures x in Pieces(e.target.targetStr) ==> Occurs(e, x)
    ensures x in Lines(e) <==> x in Pieces(e.target.targetStr) && x != []
  {
    TrimmedCount(Pieces(e.target.targetStr), x);
    Text.SplitPieces(e.target.targetStr, NEWLINE[0]);
  }

  // ------------------------------------------------------ what a message does to lists

  // The list has not been loaded yet and the next "0" loads it.
  predicate Waits(e: Entry) {
    e.target.targetArr.None? || Unloaded(e)
  }

  function Less(c: nat): nat {
    if c == 0 then 0 else c - 1
  }

  // A "0" for a text that occurs takes one copy of it out of the live list, which is
  // loaded first if it waits for that.
  lemma DownEffect(cfg: Config, e: Entry, info: GoString, x: GoString)
    requires EntryOk(cfg, e)
    ensures var e' := MarkDown(e, info);
      && EntryOk(cfg, e') && !Waits(e')
      && LiveCount(e', x)
         == (var c := if Waits(e) then LineCount(e, x) else LiveCount(e, x); if x == info then Less(c) else c)
      && (x in e'.removed <==> x == info || x in e.removed)
      && |e'.removed| == |e.removed| + 1
  {
    MarkedDown(e, info);
    RemoveFirstCount(if Waits(e) then Lines(e) else Live(e), info);
  }

  lemma MarkedDown(e: Entry, info: GoString)
    ensures var e' := MarkDown(e, info);
      && Live(e') == RemoveFirst(if Waits(e) then Lines(e) else Live(e), info)
      && e'.removed == e.removed + [info] && e'.target.targetArr.Some?
  {
  }

  // A "1" for a text that is removed and not live puts it back.
  lemma UpEffect(cfg: Config, e: Entry, info: GoString, x: GoString)
    requires EntryOk(cfg, e) && info in e.removed && info !in LiveOrEmpty(e.target)
    ensures var e' := MarkUp(e, info);
      && EntryOk(cfg, e') && !Waits(e')
      && LiveCount(e', x) == LiveCount(e, x) + (if x == info then 1 else 0)
      && (x != info ==> (x in e'.removed <==> x in e.removed))
      && |e'.removed| == |e.removed| - 1
  {
    assert Live(e) == LiveOrEmpty(e.target);
    assert multiset(Live(MarkUp(e, info))) == multiset(Live(e)) + multiset{info};
    RemoveFirstLength(e.removed, info);
    RemoveFirstMembers(e.removed, info, x);
  }

  // One message, by its effect on any text x. A "0" for a text that occurs takes out one
  // copy and is remembered once more, also when it repeats an earlier one; a "1" puts one
  // copy back exactly if the text is remembered and not live, and is then forgotten once;
  // no other text loses or gains a copy, except when the list is loaded.
  lemma MessageEffect(cfg: Config, e: Entry, info: GoString, status: bool, x: GoString)
    requires EntryOk(cfg, e)
    ensures var e' := OnMessage(e, cfg.id, info, status);
      var down, up := !status && Occurs(e, info), status && info in e.removed && LiveCount(e, info) == 0;
      var c := if down && Waits(e) then LineCount(e, x) else LiveCount(e, x);
      && EntryOk(cfg, e')
      && (Waits(e') <==> Waits(e) && !down)
      && LiveCount(e', x) == (if x != info then c else if down then Less(c) else if up then 1 else c)
      && (x != info ==> (x in e'.removed <==> x in e.removed))
      && (down ==> info in e'.removed)
      && |e'.removed| == (if down then |e.removed| + 1 else if up then |e.removed| - 1 else |e.removed|)
      && (!down && !up ==> e' == e)
  {
    if !status {
      if Occurs(e, info) {
        DownEffect(cfg, e, info, x);
        DownEffect(cfg, e, info, info);
      }
    } else if info in e.removed {
      assert Live(e) == LiveOrEmpty(e.target);
      if info !in LiveOrEmpty(e.target) {
        UpEffect(cfg, e, info, x);
      }
    }
  }

  // --------------------------------------------------------------- what a client sends

  // The counter crosses its limit exactly when a report says so.
  lemma CounterCrossing(c: int, maxFail: int, v: GoString, failed: bool)
    requires maxFail > 0 && c >= 0
    ensures var c' := Counted(c, maxFail, failed);
      var sent := Reported(c, maxFail, v, failed);
      && c' >= 0
      && |sent| <= 1
      && (|sent| == 1 ==> sent[0].info == v && sent[0].status == (c' < maxFail) && (sent[0].status ==> c >= maxFail))
      && (sent == [] ==> (c' < maxFail <==> c < maxFail))
  {
    BelowMultiple(c, maxFail);
    BelowMultiple(c + 1, maxFail);
  }

  // The first positive multiple of m is m.
  lemma BelowMultiple(c: int, m: int)
    requires m > 0 && c >= 0
    ensures 0 < c < m ==> c % m != 0
    ensures c == m ==> c % m == 0
  {
  }

  predicate BelowLimit(cfg: Config, s: Sys, v: GoString)
    requires v in cfg.maxFail
  {
    CounterOf(s.counters, v) < cfg.maxFail[v]
  }

  // The client's counter for v is at its limit, now or earlier in the run.
  predicate WentDown(cfg: Config, s: Sys, steps: seq<Step>, v: GoString)
    requires Limits(cfg) && v in cfg.maxFail
  {
    !BelowLimit(cfg, Run(cfg, s, steps), v) || (steps != [] && WentDown(cfg, s, steps[..|steps| - 1], v))
  }

  // The statuses in some messages about x.
  function About(link: seq<Msg>, x: GoString): seq<bool> {
    if link == [] then []
    else if link[0].info == x then [link[0].status] + About(link[1..], x)
    else About(link[1..], x)
  }

  lemma {:induction false} AboutAppend(a: seq<Msg>, b: seq<Msg>, x: GoString)
    ensures About(a + b, x) == About(a, x) + About(b, x)
  {
    if a == [] {
      assert a + b == b;
    } else {
      AboutAppend(a[1..], b, x);
      assert (a + b)[1..] == a[1..] + b;
    }
  }

  // What the client has sent about x in a run; only its checks matter.
  function Sent(cfg: Config, s: Sys, steps: seq<Step>, x: GoString): seq<bool>
    requires Limits(cfg)
  {
    if steps == [] then []
    else
      var before, step := steps[..|steps| - 1], steps[|steps| - 1];
      var sent := Sent(cfg, s, before, x);
      if step.Check? && step.v == x && x in cfg.maxFail then
        sent + About(Reported(CounterOf(Run(cfg, s, before).counters, x), cfg.maxFail[x], x, step.failed), x)
      else sent
  }

  // What the server has received about x.
  function Received(cfg: Config, s: Sys, steps: seq<Step>, x: GoString): seq<bool>
    requires Limits(cfg)
  {
    if steps == [] then []
    else
      var before, step := steps[..|steps| - 1], steps[|steps| - 1];
      var received, link := Received(cfg, s, before, x), Run(cfg, s, before).link;
      if step.Deliver? && link != [] && link[0].info == x then received + [link[0].status] else received
  }

  // The link loses nothing: what was sent is what was received and what is in flight.
  lemma {:induction false} LinkConserves(cfg: Config, s: Sys, steps: seq<Step>, x: GoString)
    requires Limits(cfg) && s.link == []
    ensures Sent(cfg, s, steps, x) == Received(cfg, s, steps, x) + About(Run(cfg, s, steps).link, x)
  {
    if steps != [] {
      var before, step := steps[..|steps| - 1], steps[|steps| - 1];
      var t := Run(cfg, s, before);
      LinkConserves(cfg, s, before, x);
      match step
      case Check(w, failed) =>
        if w in cfg.maxFail {
          var more := Reported(CounterOf(t.counters, w), cfg.maxFail[w], w, failed);
          AboutAppend(t.link, more, x);
          if w != x {
            OnlyAbout(more, w, x);
            assert About(t.link, x) + [] == About(t.link, x);
          } else {
            Associate(Received(cfg, s, before, x), About(t.link, x), About(more, x));
          }
        }
      case Deliver =>
        if t.link != [] && t.link[0].info == x {
          Associate(Received(cfg, s, before, x), [t.link[0].status], About(t.link[1..], x));
        }
      case Choose =>
    }
  }

  lemma {:induction false} OnlyAbout(link: seq<Msg>, w: GoString, x: GoString)
    requires x != w && forall m :: m in link ==> m.info == w
    ensures About(link, x) == []
  {
    if link != [] {
      OnlyAbout(link[1..], w, x);
    }
  }

  lemma {:induction false} CountersStayCounts(cfg: Config, s: Sys, steps: seq<Step>, x: GoString)
    requires Start(cfg, s)
    ensures CounterOf(Run(cfg, s, steps).counters, x) >= 0
  {
    if steps != [] {
      CountersStayCounts(cfg, s, steps[..|steps| - 1], x);
    }
  }

  // Something has been sent exactly if the target went down; then a "0" comes first, and
  // the last message tells on which side of the limit the counter is.
  predicate Tells(sent: seq<bool>, wentDown: bool, below: bool) {
    && (sent != [] <==> wentDown)
    && (sent == [] ==> below)
    && (sent != [] ==> !sent[0] && (sent[|sent| - 1] <==> below))
  }

  lemma CheckTells(sent: seq<bool>, wentDown: bool, c: int, maxFail: int, x: GoString, failed: bool)
    requires maxFail > 0 && c >= 0 && Tells(sent, wentDown, c < maxFail)
    ensures var c' := Counted(c, maxFail, failed);
      Tells(sent + About(Reported(c, maxFail, x, failed), x), c' >= maxFail || wentDown, c' < maxFail)
  {
    var more := Reported(c, maxFail, x, failed);
    CounterCrossing(c, maxFail, x, failed);
    if more == [] {
      assert sent + About(more, x) == sent;
    } else {
      assert more == [more[0]] && more[1..] == [];
      assert About(more, x) == [more[0].status];
    }
  }

  // Nothing is sent about a target before it is down for the first time; then a "0"
  // comes first, and the last message tells on which side of the limit the counter is.
  lemma {:induction false} SentTells(cfg: Config, s: Sys, steps: seq<Step>, x: GoString)
    requires Start(cfg, s) && x in cfg.maxFail
    ensures Tells(Sent(cfg, s, steps, x), WentDown(cfg, s, steps, x), BelowLimit(cfg, Run(cfg, s, steps), x))
  {
    if steps != [] {
      var before, step := steps[..|steps| - 1], steps[|steps| - 1];
      SentTells(cfg, s, before, x);
      CountersStayCounts(cfg, s, before, x);
      if step.Check? && step.v == x {
        CheckTells(Sent(cfg, s, before, x), WentDown(cfg, s, before, x),
          CounterOf(Run(cfg, s, before).counters, x), cfg.maxFail[x], x, step.failed);
      }
    }
  }

  // -------------------------------------------------------- what the server makes of it

  // The copies of a text in the list, from k of them, after some messages about it.
  function Copies(k: nat, statuses: seq<bool>): nat {
    if statuses == [] then k
    else
      var c := Copies(k, statuses[..|statuses| - 1]);
      if !statuses[|statuses| - 1] then Less(c) else if c == 0 then 1 else c
  }

  // What made the server load its list.
  datatype Loader = Already | Nobody | Picked | Report

  function LoadedBy(cfg: Config, s: Sys, steps: seq<Step>): Loader
    requires Limits(cfg)
  {
    if steps == [] then if Waits(s.entry) then Nobody else Already
    else
      var before, step := steps[..|steps| - 1], steps[|steps| - 1];
      var loaded, link := LoadedBy(cfg, s, before), Run(cfg, s, before).link;
      if loaded != Nobody then loaded
      else if step.Choose? && s.entry.target.targetArr.None? then Picked
      else if step.Deliver? && link != [] && !link[0].status && Occurs(s.entry, link[0].info) then Report
      else Nobody
  }

  // How many copies of x the list began with. A pick loads the text as it is, a report
  // without its blank pieces.
  function Begins(e: Entry, loader: Loader, x: GoString): nat {
    match loader
    case Picked => PieceCount(e, x)
    case Report => LineCount(e, x)
    case _ => LiveCount(e, x)
  }

  // An entry that began as e0 and has heard received about x since then.
  ghost predicate Tracks(cfg: Config, e0: Entry, e: Entry, loader: Loader, received: seq<bool>, x: GoString) {
    && EntryOk(cfg, e)
    && e.target.targetStr == e0.target.targetStr
    && (Waits(e) <==> loader == Nobody)
    && (loader == Nobody ==> e == e0 && received == [])
    && LiveCount(e, x) == Copies(Begins(e0, loader, x), received)
    && (LiveCount(e, x) == 0 ==> received == [] || x in e.removed)
  }

  function LoadedNow(e0: Entry, loader: Loader, m: Msg): Loader {
    if loader == Nobody && !m.status && Occurs(e0, m.info) then Report else loader
  }

  lemma TracksOther(cfg: Config, e0: Entry, e: Entry, loader: Loader, received: seq<bool>, m: Msg, x: GoString)
    requires Tracks(cfg, e0, e, loader, received, x) && Occurs(e0, x) && m.info != x
    ensures Tracks(cfg, e0, OnMessage(e, cfg.id, m.info, m.status), LoadedNow(e0, loader, m), received, x)
  {
    MessageEffect(cfg, e, m.info, m.status, x);
  }

  lemma TracksOwn(cfg: Config, e0: Entry, e: Entry, loader: Loader, received: seq<bool>, m: Msg, x: GoString)
    requires Tracks(cfg, e0, e, loader, received, x) && Occurs(e0, x) && m.info == x
    requires m.status ==> received != []
    ensures Tracks(cfg, e0, OnMessage(e, cfg.id, m.info, m.status), LoadedNow(e0, loader, m), received + [m.status], x)
  {
    MessageEffect(cfg, e, m.info, m.status, x);
    assert (received + [m.status])[..|received|] == received;
  }

  // What holds along a run, for one text x.
  ghost predicate Follows(cfg: Config, s: Sys, steps: seq<Step>, x: GoString)
    requires Limits(cfg)
  {
    Tracks(cfg, s.entry, Run(cfg, s, steps).entry, LoadedBy(cfg, s, steps), Received(cfg, s, steps, x), x)
  }

  lemma FollowsChoose(cfg: Config, s: Sys, steps: seq<Step>, x: GoString)
    requires Start(cfg, s) && Occurs(s.entry, x) && steps != [] && steps[|steps| - 1].Choose?
    requires Follows(cfg, s, steps[..|steps| - 1], x)
    ensures Follows(cfg, s, steps, x)
  {
    var t := Run(cfg, s, steps[..|steps| - 1]);
    if t.entry.target.targetArr.None? {
      assert LoadedBy(cfg, s, steps) == Picked;
      assert Live(Run(cfg, s, steps).entry) == Pieces(s.entry.target.targetStr);
    } else if Waits(t.entry) {
      assert Run(cfg, s, steps) == t;
    } else {
      assert Live(Run(cfg, s, steps).entry) == Live(t.entry);
    }
  }

  lemma FollowsDeliver(cfg: Config, s: Sys, steps: seq<Step>, x: GoString)
    requires Start(cfg, s) && Occurs(s.entry, x) && steps != [] && steps[|steps| - 1].Deliver?
    requires Follows(cfg, s, steps[..|steps| - 1], x)
    requires var t := Run(cfg, s, steps[..|steps| - 1]);
      t.link != [] && (t.link[0] == Msg(x, true) ==> Received(cfg, s, steps[..|steps| - 1], x) != [])
    ensures Follows(cfg, s, steps, x)
  {
    var before := steps[..|steps| - 1];
    var t, loader, received := Run(cfg, s, before), LoadedBy(cfg, s, before), Received(cfg, s, before, x);
    if t.link[0].info == x {
      TracksOwn(cfg, s.entry, t.entry, loader, received, t.link[0], x);
    } else {
      TracksOther(cfg, s.entry, t.entry, loader, received, t.link[0], x);
    }
  }

  // A "1" is not the first message about a text.
  lemma UpComesAfterDown(cfg: Config, s: Sys, steps: seq<Step>, x: GoString)
    requires Start(cfg, s) && Run(cfg, s, steps).link != []
    ensures Run(cfg, s, steps).link[0] == Msg(x, true) ==> Received(cfg, s, steps, x) != []
  {
    var link := Run(cfg, s, steps).link;
    if link[0].info == x {
      LinkConserves(cfg, s, steps, x);
      MessagesAreMonitored(cfg, s, steps);
      SentTells(cfg, s, steps, x);
      assert About(link, x)[0] == link[0].status;
    }
  }

  // In every run: the copies of a text that occurs are the copies the list began with
  // and the messages received about it, whatever else is reported, loaded or picked.
  lemma {:induction false} CopiesFollowReports(cfg: Config, s: Sys, steps: seq<Step>, x: GoString)
    requires Start(cfg, s) && Occurs(s.entry, x)
    ensures Follows(cfg, s, steps, x)
  {
    if steps != [] {
      var before, step := steps[..|steps| - 1], steps[|steps| - 1];
      var t := Run(cfg, s, before);
      CopiesFollowReports(cfg, s, before, x);
      if step.Choose? {
        FollowsChoose(cfg, s, steps, x);
      } else if step.Deliver? && t.link != [] {
        UpComesAfterDown(cfg, s, before, x);
        FollowsDeliver(cfg, s, steps, x);
      }
    }
  }

  lemma {:induction false} MessagesAreMonitored(cfg: Config, s: Sys, steps: seq<Step>)
    requires Start(cfg, s)
    ensures forall m :: m in Run(cfg, s, steps).link ==> m.info in cfg.maxFail
  {
    if steps != [] {
      MessagesAreMonitored(cfg, s, steps[..|steps| - 1]);
    }
  }

  // ------------------------------------------------------------------ counting copies

  lemma {:induction false} CopiesBounds(k: nat, c: nat, statuses: seq<bool>)
    requires c >= 1 && k <= c
    ensures Copies(k, statuses) <= c
    ensures statuses != [] && statuses[|statuses| - 1] ==> Copies(k, statuses) > 0
    ensures statuses != [] && !statuses[|statuses| - 1] && c == 1 ==> Copies(k, statuses) == 0
  {
    if statuses != [] {
      CopiesBounds(k, c, statuses[..|statuses| - 1]);
    }
  }

  function Falses(m: nat): seq<bool> {
    seq(m, _ => false)
  }

  lemma {:induction false} CopiesDown(k: nat, statuses: seq<bool>, m: nat)
    ensures Copies(k, statuses + Falses(m))
      == if Copies(k, statuses) <= m then 0 else Copies(k, statuses) - m
  {
    var all := statuses + Falses(m);
    if m == 0 {
      assert all == statuses;
    } else {
      CopiesDown(k, statuses, m - 1);
      assert all[..|all| - 1] == statuses + Falses(m - 1);
    }
  }

  // The copies of x once nothing is in flight.
  lemma DrainedCopies(cfg: Config, s: Sys, steps: seq<Step>, x: GoString)
    requires Start(cfg, s) && Occurs(s.entry, x) && Run(cfg, s, steps).link == []
    ensures LiveCount(Run(cfg, s, steps).entry, x)
      == Copies(Begins(s.entry, LoadedBy(cfg, s, steps), x), Sent(cfg, s, steps, x))
  {
    CopiesFollowReports(cfg, s, steps, x);
    LinkConserves(cfg, s, steps, x);
    assert Received(cfg, s, steps, x) + [] == Received(cfg, s, steps, x);
  }

  // ---------------------------------------------------------------- main theorems

  // The list began with v in it, or the client has seen v down since.
  predicate Known(cfg: Config, s: Sys, steps: seq<Step>, v: GoString)
    requires Limits(cfg) && v in cfg.maxFail
  {
    Begins(s.entry, LoadedBy(cfg, s, steps), v) > 0 || WentDown(cfg, s, steps, v)
  }

  // Neither the text nor the list at the start holds v twice.
  predicate Once(e: Entry, v: GoString) {
    PieceCount(e, v) <= 1 && LiveCount(e, v) <= 1
  }

  // The copies that a client's messages leave, against its counter.
  lemma CopiesAgree(k: nat, sent: seq<bool>, wentDown: bool, below: bool)
    requires Tells(sent, wentDown, below)
    ensures (below ==> Copies(k, sent) > 0) <==> k > 0 || wentDown
    ensures k <= 1 ==> ((Copies(k, sent) > 0 <==> below) <==> k > 0 || wentDown)
  {
    CopiesBounds(k, k + 1, sent);
    if k <= 1 {
      CopiesBounds(k, 1, sent);
    }
  }

  // Whatever the text and the lists are when a link begins, and whether v is a line or
  // only occurs in the text: once all messages are consumed, a target that is up for the
  // client is handed out, if and only if the server knows it.
  lemma UpIsLiveExactly(cfg: Config, s: Sys, steps: seq<Step>, v: GoString)
    requires Start(cfg, s) && Run(cfg, s, steps).link == []
    requires v in cfg.maxFail && Occurs(s.entry, v)
    ensures var t := Run(cfg, s, steps);
      (BelowLimit(cfg, t, v) ==> v in Live(t.entry)) <==> Known(cfg, s, steps, v)
  {
    DrainedCopies(cfg, s, steps, v);
    SentTells(cfg, s, steps, v);
    CopiesAgree(Begins(s.entry, LoadedBy(cfg, s, steps), v), Sent(cfg, s, steps, v),
      WentDown(cfg, s, steps, v), BelowLimit(cfg, Run(cfg, s, steps), v));
  }

  // For a target that is not repeated, the two sides agree if and only if the server
  // knows it: it is handed out exactly when the client's counter is below the limit.
  lemma AgreementExactly(cfg: Config, s: Sys, steps: seq<Step>, v: GoString)
    requires Start(cfg, s) && Run(cfg, s, steps).link == []
    requires v in cfg.maxFail && Occurs(s.entry, v) && Once(s.entry, v)
    ensures var t := Run(cfg, s, steps);
      (v in Live(t.entry) <==> BelowLimit(cfg, t, v)) <==> Known(cfg, s, steps, v)
  {
    DrainedCopies(cfg, s, steps, v);
    SentTells(cfg, s, steps, v);
    LinesOccur(s.entry, v);
    CopiesAgree(Begins(s.entry, LoadedBy(cfg, s, steps), v), Sent(cfg, s, steps, v),
      WentDown(cfg, s, steps, v), BelowLimit(cfg, Run(cfg, s, steps), v));
  }

  // A list that starts empty stays so exactly until the client has seen some target that
  // occurs in the text down.
  lemma EmptyListLoadsExactly(cfg: Config, s: Sys, steps: seq<Step>)
    requires Start(cfg, s) && Unloaded(s.entry) && Run(cfg, s, steps).link == []
    ensures Unloaded(Run(cfg, s, steps).entry) <==>
      !exists w :: w in cfg.maxFail && Occurs(s.entry, w) && WentDown(cfg, s, steps, w)
  {
    var t := Run(cfg, s, steps);
    if w :| w in cfg.maxFail && Occurs(s.entry, w) && WentDown(cfg, s, steps, w) {
      CopiesFollowReports(cfg, s, steps, w);
      LinkConserves(cfg, s, steps, w);
      SentTells(cfg, s, steps, w);
    }
    WhoLoads(cfg, s, steps);
    if LoadedBy(cfg, s, steps) == Report {
      var w :| w in cfg.maxFail && Occurs(s.entry, w) && Received(cfg, s, steps, w) != [];
      LinkConserves(cfg, s, steps, w);
      SentTells(cfg, s, steps, w);
      CopiesFollowReports(cfg, s, steps, w);
    }
  }

  // A list that has been loaded by a report has received one about a text that occurs;
  // an empty one is loaded in no other way.
  lemma {:induction false} WhoLoads(cfg: Config, s: Sys, steps: seq<Step>)
    requires Start(cfg, s)
    ensures LoadedBy(cfg, s, steps) == Report ==>
      exists w :: w in cfg.maxFail && Occurs(s.entry, w) && Received(cfg, s, steps, w) != []
    ensures Unloaded(s.entry) ==> LoadedBy(cfg, s, steps) in {Nobody, Report}
    ensures Unloaded(s.entry) && LoadedBy(cfg, s, steps) == Nobody ==> Unloaded(Run(cfg, s, steps).entry)
  {
    if steps != [] {
      var before, step := steps[..|steps| - 1], steps[|steps| - 1];
      var t := Run(cfg, s, before);
      WhoLoads(cfg, s, before);
      MessagesAreMonitored(cfg, s, before);
      if LoadedBy(cfg, s, before) == Report {
        var w :| w in cfg.maxFail && Occurs(s.entry, w) && Received(cfg, s, before, w) != [];
        assert Received(cfg, s, steps, w) != [];
      } else if LoadedBy(cfg, s, steps) == Report {
        assert Received(cfg, s, steps, t.link[0].info) != [];
      } else if Unloaded(t.entry) && step.Deliver? && t.link != [] {
        TextStays(cfg, s, before);
      }
    }
  }

  lemma {:induction false} TextStays(cfg: Config, s: Sys, steps: seq<Step>)
    requires Limits(cfg)
    ensures Run(cfg, s, steps).entry.target.targetStr == s.entry.target.targetStr
  {
    if steps != [] {
      TextStays(cfg, s, steps[..|steps| - 1]);
    }
  }

  // From a list that has not been loaded, about a line that is not repeated, the two
  // sides always agree.
  lemma Agreement(cfg: Config, s: Sys, steps: seq<Step>, v: GoString)
    requires Init(cfg, s) && Run(cfg, s, steps).link == []
    requires v in cfg.maxFail && LineCount(s.entry, v) == 1
    ensures var t := Run(cfg, s, steps);
      v in Live(t.entry) <==> CounterOf(t.counters, v) < cfg.maxFail[v]
  {
    LinesOccur(s.entry, v);
    NotAlready(cfg, s, steps);
    AgreementExactly(cfg, s, steps, v);
  }

  lemma {:induction false} NotAlready(cfg: Config, s: Sys, steps: seq<Step>)
    requires Init(cfg, s)
    ensures LoadedBy(cfg, s, steps) != Already
  {
    if steps != [] {
      NotAlready(cfg, s, steps[..|steps| - 1]);
    }
  }

  // A line that the text repeats stays live when the client's limit is reached: one
  // report takes out one copy.
  lemma RepeatedLineStays(cfg: Config, s: Sys, v: GoString)
    requires Init(cfg, s) && v in cfg.maxFail && LineCount(s.entry, v) >= 2
    ensures var t := Run(cfg, s, Repeat(Check(v, true), cfg.maxFail[v]) + [Deliver]);
      t.link == [] && v in Live(t.entry) && !BelowLimit(cfg, t, v)
  {
    var downs := Repeat(Check(v, true), cfg.maxFail[v]);
    FirstFailures(cfg, s, v, cfg.maxFail[v]);
    assert (downs + [Deliver])[..|downs|] == downs;
    LinesOccur(s.entry, v);
    MessageEffect(cfg, s.entry, v, false, v);
  }

  // So agreement about a line in every run is the same as the line not being repeated.
  lemma AgreementExactlyWhenNotRepeated(cfg: Config, s: Sys, v: GoString)
    requires Init(cfg, s) && v in cfg.maxFail && v in Lines(s.entry)
    ensures (forall steps :: Run(cfg, s, steps).link == [] ==> Agrees(cfg, Run(cfg, s, steps), v))
      <==> LineCount(s.entry, v) == 1
  {
    if LineCount(s.entry, v) == 1 {
      forall steps | Run(cfg, s, steps).link == [] ensures Agrees(cfg, Run(cfg, s, steps), v) {
        Agreement(cfg, s, steps, v);
      }
    } else {
      RepeatedLineStays(cfg, s, v);
      assert !Agrees(cfg, Run(cfg, s, Repeat(Check(v, true), cfg.maxFail[v]) + [Deliver]), v);
    }
  }

  predicate Agrees(cfg: Config, t: Sys, v: GoString)
    requires v in cfg.maxFail
  {
    v in Live(t.entry) <==> BelowLimit(cfg, t, v)
  }

  // In every run, in flight or not, there are never more copies of a text than the text
  // or the list had at the start, one at least being allowed; and from a list that has
  // not been loaded every line is live or remembered as removed.
  lemma ListsStayConsistent(cfg: Config, s: Sys, steps: seq<Step>, x: GoString)
    requires Start(cfg, s) && Occurs(s.entry, x)
    ensures var e := Run(cfg, s, steps).entry;
      && (LiveCount(e, x) <= 1 || LiveCount(e, x) <= PieceCount(s.entry, x) || LiveCount(e, x) <= LiveCount(s.entry, x))
      && (Init(cfg, s) && x in Lines(s.entry) ==> x in Live(e) || x in e.removed)
  {
    CopiesFollowReports(cfg, s, steps, x);
    LinesOccur(s.entry, x);
    var k := Begins(s.entry, LoadedBy(cfg, s, steps), x);
    CopiesBounds(k, if k == 0 then 1 else k, Received(cfg, s, steps, x));
    if Init(cfg, s) {
      NotAlready(cfg, s, steps);
    }
  }

  // ------------------------------------------------------------ draining, down and up

  function Repeat(step: Step, n: nat): seq<Step> {
    seq(n, _ => step)
  }

  // A run and then the delivery of everything in flight.
  function Drained(cfg: Config, s: Sys, steps: seq<Step>): seq<Step>
    requires Limits(cfg)
  {
    steps + Repeat(Deliver, |Run(cfg, s, steps).link|)
  }

  lemma DrainOne(cfg: Config, s: Sys, steps: seq<Step>, v: GoString)
    requires Limits(cfg) && Run(cfg, s, steps).link != [] && v in cfg.maxFail
    ensures var longer := steps + [Deliver];
      var t, d := Run(cfg, s, steps), Run(cfg, s, longer);
      && d.link == t.link[1..] && d.counters == t.counters
      && (WentDown(cfg, s, longer, v) <==> WentDown(cfg, s, steps, v))
      && Sent(cfg, s, longer, v) == Sent(cfg, s, steps, v)
  {
    assert (steps + [Deliver])[..|steps|] == steps;
  }

  // Delivering n messages: they leave the link, and nothing happens to the client.
  lemma {:induction false} Drain(cfg: Config, s: Sys, steps: seq<Step>, n: nat, v: GoString)
    requires Limits(cfg) && n <= |Run(cfg, s, steps).link| && v in cfg.maxFail
    ensures var longer := steps + Repeat(Deliver, n);
      var t, d := Run(cfg, s, steps), Run(cfg, s, longer);
      && d.link == t.link[n..] && d.counters == t.counters
      && (WentDown(cfg, s, longer, v) <==> WentDown(cfg, s, steps, v))
      && Sent(cfg, s, longer, v) == Sent(cfg, s, steps, v)
  {
    if n == 0 {
      assert steps + Repeat(Deliver, 0) == steps;
    } else {
      Drain(cfg, s, steps, n - 1, v);
      DrainOne(cfg, s, steps + Repeat(Deliver, n - 1), v);
      assert steps + Repeat(Deliver, n) == steps + Repeat(Deliver, n - 1) + [Deliver];
      CutTail(Run(cfg, s, steps).link, n - 1);
    }
  }

  lemma CutTail<T>(s: seq<T>, n: nat)
    requires n < |s|
    ensures s[n..][1..] == s[n + 1..]
  {
  }

  // From any reachable state, delivering what is in flight brings both sides into
  // agreement with the counters as they stand, under the same condition.
  lemma DrainAgrees(cfg: Config, s: Sys, steps: seq<Step>, v: GoString)
    requires Start(cfg, s) && v in cfg.maxFail && Occurs(s.entry, v) && Once(s.entry, v)
    ensures var t, d := Run(cfg, s, steps), Run(cfg, s, Drained(cfg, s, steps));
      && d.link == []
      && ((v in Live(d.entry) <==> BelowLimit(cfg, t, v)) <==> Known(cfg, s, Drained(cfg, s, steps), v))
  {
    Drain(cfg, s, steps, |Run(cfg, s, steps).link|, v);
    AgreementExactly(cfg, s, Drained(cfg, s, steps), v);
  }

  // One successful check brings a target back, however often it was reported down and
  // however often the text repeats it, if and only if the list began with it or it had
  // been down before.
  lemma RecoversAfterOneSuccess(cfg: Config, s: Sys, steps: seq<Step>, v: GoString)
    requires Start(cfg, s) && v in cfg.maxFail && Occurs(s.entry, v)
    ensures var longer := Drained(cfg, s, steps + [Check(v, false)]);
      v in Live(Run(cfg, s, longer).entry) <==>
      Begins(s.entry, LoadedBy(cfg, s, longer), v) > 0 || WentDown(cfg, s, steps, v)
  {
    var once := steps + [Check(v, false)];
    assert once[..|steps|] == steps;
    Drain(cfg, s, once, |Run(cfg, s, once).link|, v);
    DrainedCopies(cfg, s, Drained(cfg, s, once), v);
    SentTells(cfg, s, once, v);
    var k := Begins(s.entry, LoadedBy(cfg, s, Drained(cfg, s, once)), v);
    CopiesBounds(k, k + 1, Sent(cfg, s, once, v));
  }

  lemma QuotientStep(c: nat, m: nat)
    requires m > 0
    ensures (c + 1) / m == c / m + if (c + 1) % m == 0 then 1 else 0
  {
    var q, r := c / m, c % m;
    assert c == q * m + r;
    if r + 1 == m {
      assert c + 1 == (q + 1) * m by {
        assert (q + 1) * m == q * m + m;
      }
      Unique(q + 1, 0, m, c + 1);
    } else {
      Unique(q, r + 1, m, c + 1);
    }
  }

  lemma Unique(q: nat, r: nat, m: nat, a: nat)
    requires m > 0 && r < m && a == q * m + r
    ensures a / m == q && a % m == r
  {
    QuotientAbove(a, m, q);
    assert a - m < m * q;
    QuotientBelow(a, m, q);
  }

  // One failure sends a "0" if it makes the counter a multiple of the limit.
  lemma OneFailure(cfg: Config, s: Sys, steps: seq<Step>, v: GoString)
    requires Limits(cfg) && v in cfg.maxFail && CounterOf(Run(cfg, s, steps).counters, v) >= 0
    ensures var c, longer := CounterOf(Run(cfg, s, steps).counters, v), steps + [Check(v, true)];
      && CounterOf(Run(cfg, s, longer).counters, v) == c + 1
      && Sent(cfg, s, longer, v)
         == Sent(cfg, s, steps, v) + if (c + 1) % cfg.maxFail[v] == 0 then [false] else []
  {
    var longer := steps + [Check(v, true)];
    assert longer[..|steps|] == steps;
    var c := CounterOf(Run(cfg, s, steps).counters, v);
    var more := Reported(c, cfg.maxFail[v], v, true);
    if more != [] {
      assert more == [Msg(v, false)] && more[1..] == [];
      assert About(more, v) == [false];
    }
  }

  // How many of the n numbers behind c are multiples of m.
  function Multiples(c: nat, n: nat, m: nat): nat
    requires m > 0
  {
    if n == 0 then 0 else Multiples(c, n - 1, m) + if (c + n) % m == 0 then 1 else 0
  }

  lemma {:induction false} MultiplesAreQuotients(c: nat, n: nat, m: nat)
    requires m > 0
    ensures (c + n) / m == c / m + Multiples(c, n, m)
  {
    if n > 0 {
      MultiplesAreQuotients(c, n - 1, m);
      QuotientStep(c + n - 1, m);
    }
  }

  lemma EnoughMultiples(c: nat, m: nat, n: nat, k: nat)
    requires m > 0 && n >= m * k
    ensures Multiples(c, n, m) >= k
  {
    assert m * (c / m + k) == m * (c / m) + m * k;
    assert m * (c / m) <= c;
    QuotientAbove(c + n, m, c / m + k);
    MultiplesAreQuotients(c, n, m);
  }

  // A run and then n failures of v.
  function Failing(steps: seq<Step>, v: GoString, n: nat): seq<Step> {
    if n == 0 then steps else Failing(steps, v, n - 1) + [Check(v, true)]
  }

  // longer is steps with n failures of v behind: they raise its counter by n and send a
  // "0" for every multiple of the limit that it passes.
  ghost predicate Failed(cfg: Config, s: Sys, steps: seq<Step>, longer: seq<Step>, v: GoString, n: nat)
    requires Limits(cfg) && v in cfg.maxFail
  {
    var c := CounterOf(Run(cfg, s, steps).counters, v);
    && c >= 0 && CounterOf(Run(cfg, s, longer).counters, v) == c + n
    && Sent(cfg, s, longer, v) == Sent(cfg, s, steps, v) + Falses(Multiples(c, n, cfg.maxFail[v]))
  }

  lemma {:induction false} FailuresSend(cfg: Config, s: Sys, steps: seq<Step>, v: GoString, n: nat)
    requires Start(cfg, s) && v in cfg.maxFail
    ensures Failed(cfg, s, steps, Failing(steps, v, n), v, n)
  {
    if n == 0 {
      CountersStayCounts(cfg, s, steps, v);
      assert Sent(cfg, s, steps, v) + Falses(0) == Sent(cfg, s, steps, v);
    } else {
      FailuresSend(cfg, s, steps, v, n - 1);
      OneMoreFailure(cfg, s, steps, Failing(steps, v, n - 1), v, n);
    }
  }

  lemma OneMoreFailure(cfg: Config, s: Sys, steps: seq<Step>, shorter: seq<Step>, v: GoString, n: nat)
    requires Limits(cfg) && v in cfg.maxFail && n > 0
    requires Failed(cfg, s, steps, shorter, v, n - 1)
    ensures Failed(cfg, s, steps, shorter + [Check(v, true)], v, n)
  {
    var c := CounterOf(Run(cfg, s, steps).counters, v);
    var k, hit := Multiples(c, n - 1, cfg.maxFail[v]), (c + n) % cfg.maxFail[v] == 0;
    OneFailure(cfg, s, shorter, v);
    OneMoreFalse(Sent(cfg, s, steps, v), k);
    assert Multiples(c, n, cfg.maxFail[v]) == k + if hit then 1 else 0;
  }

  lemma OneMoreFalse(sent: seq<bool>, k: nat)
    ensures sent + Falses(k) + [false] == sent + Falses(k + 1)
    ensures sent + Falses(k) + [] == sent + Falses(k)
  {
  }

  // As many failures in a row as the limit, times the copies there can be, take a target
  // out, from any reachable state and whatever the lists were at the start.
  lemma RemovedAfterMaxFail(cfg: Config, s: Sys, steps: seq<Step>, v: GoString, copies: nat, n: nat)
    requires Start(cfg, s) && v in cfg.maxFail && Occurs(s.entry, v)
    requires copies >= 1 && PieceCount(s.entry, v) <= copies && LiveCount(s.entry, v) <= copies
    requires n >= cfg.maxFail[v] * copies
    ensures v !in Live(Run(cfg, s, Drained(cfg, s, Failing(steps, v, n))).entry)
  {
    var longer := Failing(steps, v, n);
    var c, m := CounterOf(Run(cfg, s, steps).counters, v), cfg.maxFail[v];
    FailuresSend(cfg, s, steps, v, n);
    EnoughMultiples(c, m, n, copies);
    Drain(cfg, s, longer, |Run(cfg, s, longer).link|, v);
    DrainedCopies(cfg, s, Drained(cfg, s, longer), v);
    LinesOccur(s.entry, v);
    var k := Begins(s.entry, LoadedBy(cfg, s, Drained(cfg, s, longer)), v);
    CopiesBounds(k, copies, Sent(cfg, s, steps, v));
    CopiesDown(k, Sent(cfg, s, steps, v), Multiples(c, n, m));
  }

  // ---------------------------------------------------------- targets from elsewhere

  // Whatever is live or removed occurs in the text, and is a piece of it or reported.
  lemma {:induction false} LiveIsKnown(cfg: Config, s: Sys, steps: seq<Step>, x: GoString)
    requires Init(cfg, s)
    ensures var e := Run(cfg, s, steps).entry;
      x in Live(e) || x in e.removed ==>
      Occurs(s.entry, x) && (x in Pieces(s.entry.target.targetStr) || x in cfg.maxFail)
  {
    LinesOccur(s.entry, x);
    if steps != [] {
      var before, step := steps[..|steps| - 1], steps[|steps| - 1];
      var t := Run(cfg, s, before);
      LiveIsKnown(cfg, s, before, x);
      TextStays(cfg, s, before);
      MessagesAreMonitored(cfg, s, before);
      EntryStaysOk(cfg, s, before);
      if step.Deliver? && t.link != [] {
        MessageBringsOwn(cfg, t.entry, t.link[0].info, t.link[0].status, x);
      }
    }
  }

  // A text that a message makes live or removed was so before, or is a line, or is what
  // the message is about and occurs.
  lemma MessageBringsOwn(cfg: Config, e: Entry, info: GoString, status: bool, x: GoString)
    requires EntryOk(cfg, e)
    ensures var e' := OnMessage(e, cfg.id, info, status);
      x in Live(e') || x in e'.removed ==>
      x in Live(e) || x in e.removed || x in Lines(e) || (x == info && !status && Occurs(e, info))
  {
    var e' := OnMessage(e, cfg.id, info, status);
    MessageEffect(cfg, e, info, status, x);
    assert x in Live(e') ==> LiveCount(e', x) > 0;
    assert LineCount(e, x) > 0 ==> x in Lines(e);
    assert LiveCount(e, x) > 0 ==> x in Live(e);
    RemoveFirstMembers(e.removed, info, x);
  }

  lemma {:induction false} EntryStaysOk(cfg: Config, s: Sys, steps: seq<Step>)
    requires Start(cfg, s)
    ensures EntryOk(cfg, Run(cfg, s, steps).entry)
  {
    if steps != [] {
      EntryStaysOk(cfg, s, steps[..|steps| - 1]);
    }
  }

  // Every reported text is a piece of the target text or does not occur in it. The
  // bridge looks for an occurrence, not for a line.
  predicate NoPartialReports(cfg: Config, e: Entry) {
    forall v :: v in cfg.maxFail ==> v in Pieces(e.target.targetStr) || !Occurs(e, v)
  }

  // n checks in a row fail, from the beginning.
  lemma {:induction false} FirstFailures(cfg: Config, s: Sys, v: GoString, n: nat)
    requires Limits(cfg) && s.counters == map[] && s.link == [] && v in cfg.maxFail && n <= cfg.maxFail[v]
    ensures var t := Run(cfg, s, Repeat(Check(v, true), n));
      && t.entry == s.entry && CounterOf(t.counters, v) == n
      && t.link == if n == cfg.maxFail[v] then [Msg(v, false)] else []
  {
    if n > 0 {
      FirstFailures(cfg, s, v, n - 1);
      assert Repeat(Check(v, true), n)[..n - 1] == Repeat(Check(v, true), n - 1);
      CounterCrossing(n - 1, cfg.maxFail[v], v, true);
    }
  }

  // A target that goes down and comes back: as many failures as the limit, a success,
  // and both reports delivered.
  function DownAndUp(cfg: Config, v: GoString): seq<Step>
    requires Limits(cfg) && v in cfg.maxFail
  {
    Repeat(Check(v, true), cfg.maxFail[v]) + [Deliver, Check(v, false), Deliver]
  }

  lemma {:induction false} RunAppend(cfg: Config, s: Sys, a: seq<Step>, b: seq<Step>)
    requires Limits(cfg)
    ensures Run(cfg, s, a + b) == Run(cfg, Run(cfg, s, a), b)
    decreases |b|
  {
    if b == [] {
      assert a + b == a;
    } else {
      var n := |b| - 1;
      RunAppend(cfg, s, a, b[..n]);
      assert (a + b)[..|a + b| - 1] == a + b[..n];
    }
  }

  lemma ThreeSteps(cfg: Config, s: Sys, a: Step, b: Step, c: Step)
    requires Limits(cfg)
    ensures Run(cfg, s, [a, b, c]) == Apply(cfg, Apply(cfg, Apply(cfg, s, a), b), c)
  {
    assert [a][..0] == [];
    assert Run(cfg, s, [a]) == Apply(cfg, s, a);
    assert [a, b][..1] == [a] && [a, b, c][..2] == [a, b];
    assert Run(cfg, s, [a, b]) == Apply(cfg, Apply(cfg, s, a), b);
  }

  lemma AfterDownAndUp(cfg: Config, s: Sys, v: GoString)
    requires Limits(cfg) && s.counters == map[] && s.link == [] && v in cfg.maxFail
    ensures var t := Run(cfg, s, DownAndUp(cfg, v));
      && t.entry == OnMessage(OnMessage(s.entry, cfg.id, v, false), cfg.id, v, true)
      && t.link == [] && CounterOf(t.counters, v) == 0
  {
    var n := cfg.maxFail[v];
    var downs := Repeat(Check(v, true), n);
    FirstFailures(cfg, s, v, n);
    RunAppend(cfg, s, downs, [Deliver, Check(v, false), Deliver]);
    var t := Run(cfg, s, downs);
    ThreeSteps(cfg, t, Deliver, Check(v, false), Deliver);
    var u := Apply(cfg, t, Deliver);
    assert u.link == [] && Reported(n, n, v, false) == [Msg(v, true)];
    assert Apply(cfg, u, Check(v, false)).link == [Msg(v, true)];
  }

  // After that a text that occurs is live, whatever it is.
  lemma DownAndUpIsLive(cfg: Config, s: Sys, v: GoString)
    requires Start(cfg, s) && v in cfg.maxFail && Occurs(s.entry, v)
    ensures v in Live(Run(cfg, s, DownAndUp(cfg, v)).entry)
  {
    AfterDownAndUp(cfg, s, v);
    var e := OnMessage(s.entry, cfg.id, v, false);
    MessageEffect(cfg, s.entry, v, false, v);
    MessageEffect(cfg, e, v, true, v);
    assert LiveCount(Run(cfg, s, DownAndUp(cfg, v)).entry, v) > 0;
  }

  // A reported text that occurs but is no piece of the text, only a part of a line or
  // across a line end: it is handed out as a target of its own exactly when it has been
  // down and is up again.
  lemma ForeignTargetExactly(cfg: Config, s: Sys, steps: seq<Step>, w: GoString)
    requires Init(cfg, s) && Run(cfg, s, steps).link == [] && w in cfg.maxFail
    requires w !in Pieces(s.entry.target.targetStr) && Occurs(s.entry, w)
    ensures var t := Run(cfg, s, steps);
      w in Live(t.entry) <==> WentDown(cfg, s, steps, w) && BelowLimit(cfg, t, w)
  {
    LinesOccur(s.entry, w);
    NotAlready(cfg, s, steps);
    DrainedCopies(cfg, s, steps, w);
    SentTells(cfg, s, steps, w);
    CopiesBounds(0, 1, Sent(cfg, s, steps, w));
  }

  // Exactly when every reported text is a piece of the target text or does not occur in
  // it, the server hands out pieces of its text only, in every run.
  lemma OwnTargetsExactly(cfg: Config, s: Sys)
    requires Init(cfg, s)
    ensures (forall steps, x :: x in Live(Run(cfg, s, steps).entry) ==> x in Pieces(s.entry.target.targetStr))
      <==> NoPartialReports(cfg, s.entry)
  {
    if NoPartialReports(cfg, s.entry) {
      forall steps, x | x in Live(Run(cfg, s, steps).entry) ensures x in Pieces(s.entry.target.targetStr) {
        LiveIsKnown(cfg, s, steps, x);
      }
    } else {
      var w :| w in cfg.maxFail && w !in Pieces(s.entry.target.targetStr) && Occurs(s.entry, w);
      DownAndUpIsLive(cfg, s, w);
    }
  }

  // -------------------------------------------------------------------- all offline

  // No copy of x is left, by the history of the run: what loaded the list, and what the
  // client has sent.
  predicate Gone(cfg: Config, s: Sys, steps: seq<Step>, x: GoString)
    requires Limits(cfg)
  {
    Copies(Begins(s.entry, LoadedBy(cfg, s, steps), x), Sent(cfg, s, steps, x)) == 0
  }

  // A text that can be a target: a piece, blank or not, or a reported text that occurs.
  predicate Candidate(cfg: Config, e: Entry, x: GoString) {
    x in Pieces(e.target.targetStr) || (x in cfg.maxFail && Occurs(e, x))
  }

  // GetRandomTarget reports "all targets are offline" exactly when the list has been
  // loaded and no copy of any candidate is left.
  lemma OfflineExactly(cfg: Config, s: Sys, steps: seq<Step>)
    requires Init(cfg, s) && Run(cfg, s, steps).link == []
    ensures Pick(Run(cfg, s, steps).entry.target).1.None? <==>
      && LoadedBy(cfg, s, steps) != Nobody
      && forall x :: Candidate(cfg, s.entry, x) ==> Gone(cfg, s, steps, x)
  {
    var t := Run(cfg, s, steps);
    var x0 := Pieces(s.entry.target.targetStr)[0];
    PickAnswers(t.entry.target);
    NotAlready(cfg, s, steps);
    LinesOccur(s.entry, x0);
    CopiesFollowReports(cfg, s, steps, x0);
    forall x | Candidate(cfg, s.entry, x) ensures LiveCount(t.entry, x) == 0 <==> Gone(cfg, s, steps, x) {
      LinesOccur(s.entry, x);
      DrainedCopies(cfg, s, steps, x);
    }
    if Live(t.entry) != [] {
      var x := Live(t.entry)[0];
      LiveIsKnown(cfg, s, steps, x);
      assert Candidate(cfg, s.entry, x) && LiveCount(t.entry, x) > 0;
    }
    NeverUnloaded(cfg, s, steps);
  }

  lemma {:induction false} NeverUnloaded(cfg: Config, s: Sys, steps: seq<Step>)
    requires Init(cfg, s)
    ensures LoadedBy(cfg, s, steps) == Nobody <==> Run(cfg, s, steps).entry.target.targetArr.None?
  {
    LinesOccur(s.entry, Pieces(s.entry.target.targetStr)[0]);
    CopiesFollowReports(cfg, s, steps, Pieces(s.entry.target.targetStr)[0]);
  }

  // The plain case: no blank line, no line twice, no partial reports. Then the error
  // means that every line is monitored and over its limit.
  lemma PlainOfflineExactly(cfg: Config, s: Sys, steps: seq<Step>)
    requires Init(cfg, s) && Run(cfg, s, steps).link == []
    requires NoPartialReports(cfg, s.entry)
    requires forall x :: x in Pieces(s.entry.target.targetStr) ==> x != [] && PieceCount(s.entry, x) == 1
    ensures var t := Run(cfg, s, steps);
      Pick(t.entry.target).1.None? <==>
      forall v :: v in Lines(s.entry) ==> v in cfg.maxFail && !BelowLimit(cfg, t, v)
  {
    var t := Run(cfg, s, steps);
    OfflineExactly(cfg, s, steps);
    NotAlready(cfg, s, steps);
    forall x | x in Pieces(s.entry.target.targetStr)
      ensures Gone(cfg, s, steps, x) <==> x in cfg.maxFail && !BelowLimit(cfg, t, x)
    {
      PlainGone(cfg, s, steps, x);
    }
    var x0 := Pieces(s.entry.target.targetStr)[0];
    assert x0 in Pieces(s.entry.target.targetStr);
    forall x ensures x in Lines(s.entry) <==> x in Pieces(s.entry.target.targetStr) {
      LinesOccur(s.entry, x);
    }
    if LoadedBy(cfg, s, steps) == Nobody {
      LinesOccur(s.entry, x0);
      CopiesFollowReports(cfg, s, steps, x0);
      LinkConserves(cfg, s, steps, x0);
    }
  }

  lemma PlainGone(cfg: Config, s: Sys, steps: seq<Step>, x: GoString)
    requires Init(cfg, s) && x != [] && PieceCount(s.entry, x) == 1
    ensures Gone(cfg, s, steps, x) <==> x in cfg.maxFail && !BelowLimit(cfg, Run(cfg, s, steps), x)
  {
    LinesOccur(s.entry, x);
    NotAlready(cfg, s, steps);
    if x in cfg.maxFail {
      SentTells(cfg, s, steps, x);
      CopiesBounds(1, 1, Sent(cfg, s, steps, x));
    } else {
      NothingSent(cfg, s, steps, x);
    }
  }

  lemma {:induction false} NothingSent(cfg: Config, s: Sys, steps: seq<Step>, x: GoString)
    requires Limits(cfg) && x !in cfg.maxFail
    ensures Sent(cfg, s, steps, x) == []
  {
    if steps != [] {
      NothingSent(cfg, s, steps[..|steps| - 1], x);
    }
  }

  // A blank target is handed out exactly when copies of it are left of those a pick has
  // loaded: a report loads none. If no health record has a blank target of its own, that
  // is when the text has a blank piece and the list was loaded by a pick.
  lemma BlankTargetExactly(cfg: Config, s: Sys, steps: seq<Step>)
    requires Init(cfg, s)
    ensures var t, loader := Run(cfg, s, steps), LoadedBy(cfg, s, steps);
      && ([] in Live(t.entry) <==>
           Copies(if loader == Picked then PieceCount(s.entry, []) else 0, Received(cfg, s, steps, [])) > 0)
      && ([] !in cfg.maxFail ==>
           ([] in Live(t.entry) <==> loader == Picked && [] in Pieces(s.entry.target.targetStr)))
  {
    EmptyOccurs(s.entry);
    LinesOccur(s.entry, []);
    NotAlready(cfg, s, steps);
    CopiesFollowReports(cfg, s, steps, []);
    if [] !in cfg.maxFail {
      NothingSent(cfg, s, steps, []);
      LinkConserves(cfg, s, steps, []);
    }
  }

  lemma EmptyOccurs(e: Entry)
    ensures Occurs(e, [])
  {
  }

  // ------------------------------------------------------------------- failing runs

  const A: GoString := [97]  // "a"
  const B: GoString := [98]  // "b"

  function HostWith(text: GoString, arr: Option<seq<GoString>>): Sys {
    Sys(map[], [], Entry(0, true, false, TargetV(0, text, arr), []))
  }

  // Text "a" and a blank line: after a pick, the failure of a leaves the blank line.
  lemma BlankLineIsPicked()
    ensures var cfg, s := Config(0, map[A := 1]), HostWith(A + NEWLINE, None);
      var t := Run(cfg, s, [Choose, Check(A, true), Deliver]);
      && Init(cfg, s) && t.link == []
      && Lines(s.entry) == [A] && !BelowLimit(cfg, t, A)
      && Pick(t.entry.target).1 == Some([])
  {
    var cfg, s := Config(0, map[A := 1]), HostWith(A + NEWLINE, None);
    LineAndBlank(s.entry);
    LinesOccur(s.entry, A);
    ThreeSteps(cfg, s, Choose, Check(A, true), Deliver);
    var t1 := Apply(cfg, s, Choose);
    assert Live(t1.entry) == [A, []];
    FirstFailureOfA(cfg, t1);
    assert Live(Apply(cfg, Apply(cfg, t1, Check(A, true)), Deliver).entry) == [[]];
  }

  lemma FirstFailureOfA(cfg: Config, s: Sys)
    requires cfg.maxFail == map[A := 1] && s.counters == map[] && s.link == []
    ensures Apply(cfg, s, Check(A, true)) == Sys(map[A := 1], [Msg(A, false)], s.entry)
  {
    assert Counted(0, 1, true) == 1 && Reported(0, 1, A, true) == [Msg(A, false)];
  }

  lemma LineAndBlank(e: Entry)
    requires e.target.targetStr == A + NEWLINE
    ensures Pieces(e.target.targetStr) == [A, []] && Lines(e) == [A]
  {
    Text.CleanChar(A, NEWLINE[0]);
    Text.SplitHead(A, NEWLINE, []);
    assert A + NEWLINE + [] == A + NEWLINE;
    TrimmedAppend([A], []);
    TrimmedAppend([], A);
  }

  // A list that starts empty, and the list of a host after a restart, whose removed
  // targets are not stored: b is up for the client and not handed out, until it has
  // been down and come back.
  lemma MissingAtStart(arr: seq<GoString>)
    requires arr == [] || arr == [A]
    ensures var cfg, s := Config(0, map[B := 1]), HostWith([97, 10, 98], Some(arr));
      && Start(cfg, s) && B in Lines(s.entry)
      && BelowLimit(cfg, s, B) && B !in Live(s.entry)
      && B in Live(Run(cfg, s, DownAndUp(cfg, B)).entry)
  {
    var cfg, s := Config(0, map[B := 1]), HostWith(A + NEWLINE + B, Some(arr));
    assert A + NEWLINE + B == [97, 10, 98];
    TwoLines(s.entry);
    LinesOccur(s.entry, B);
    DownAndUpIsLive(cfg, s, B);
  }

  lemma TwoLines(e: Entry)
    requires e.target.targetStr == A + NEWLINE + B
    ensures Lines(e) == [A, B]
  {
    assert NEWLINE[0] !in B && B[0] == 98;
    Text.CleanChar(A, NEWLINE[0]);
    Text.SplitHead(A, NEWLINE, B);
    Text.SplitNone(B, NEWLINE[0]);
    assert Pieces(A + NEWLINE + B) == [A, B];
    TrimmedAppend([A], B);
    TrimmedAppend([], A);
  }

  // ------------------------------------------------------ a record's pass as Check steps

  function CheckSteps(targets: seq<GoString>, failed: seq<bool>): (steps: seq<Step>)
    requires |targets| == |failed|
    ensures |steps| == |targets|
  {
    if targets == [] then []
    else
      var n := |targets| - 1;
      CheckSteps(targets[..n], failed[..n]) + [Check(targets[n], failed[n])]
  }

  // The counters m of one record are those of the system, restricted to us.
  ghost predicate SameCounts(m: map<GoString, int>, s: Sys, us: seq<GoString>) {
    forall v :: v in us ==> CounterOf(m, v) == CounterOf(s.counters, v)
  }

  lemma CheckCounts(cfg: Config, s: Sys, m: map<GoString, int>, maxFail: int, us: seq<GoString>,
                    v: GoString, failed: bool)
    requires Limits(cfg) && maxFail > 0 && v in us && SameCounts(m, s, us)
    requires forall u :: u in us ==> u in cfg.maxFail && cfg.maxFail[u] == maxFail
    ensures var c, t := CounterOf(m, v), Apply(cfg, s, Check(v, failed));
      && t.link == s.link + Reported(c, maxFail, v, failed) && t.entry == s.entry
      && SameCounts(if failed || c >= maxFail then m[v := Counted(c, maxFail, failed)] else m, t, us)
  {
  }

  // A pass of a health record over its targets is a sequence of Check steps: same
  // counters for the record's targets us, same messages in the same order.
  lemma {:induction false} PassIsChecks(cfg: Config, s: Sys, m: map<GoString, int>, maxFail: int, us: seq<GoString>,
                                       targets: seq<GoString>, failed: seq<bool>)
    requires Limits(cfg) && maxFail > 0 && |targets| == |failed|
    requires forall v :: v in us ==> v in cfg.maxFail && cfg.maxFail[v] == maxFail
    requires forall v :: v in targets ==> v in us
    requires SameCounts(m, s, us)
    ensures var t := Run(cfg, s, CheckSteps(targets, failed));
      var (m', sent) := Pass(m, maxFail, targets, failed);
      t.link == s.link + sent && t.entry == s.entry && SameCounts(m', t, us)
  {
    if targets != [] {
      var n := |targets| - 1;
      var v, steps := targets[n], CheckSteps(targets[..n], failed[..n]);
      assert v in targets;
      PassIsChecks(cfg, s, m, maxFail, us, targets[..n], failed[..n]);
      assert CheckSteps(targets, failed)[..n] == steps;
      var (m', sent) := Pass(m, maxFail, targets[..n], failed[..n]);
      CheckCounts(cfg, Run(cfg, s, steps), m', maxFail, us, v, failed[n]);
      Associate(s.link, sent, Reported(CounterOf(m', v), maxFail, v, failed[n]));
    }
  }
}
