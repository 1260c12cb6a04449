// GetRandomTarget read by read, with health messages arriving in between: the bridge
// locks the task or host, GetRandomTarget the target, so neither keeps the other out.
module TargetRace {
  import opened Common
  import opened Targets
  import opened HealthProtocol
  import HealthAgreement
  import Text

  datatype Outcome = Answer(target: GoString) | AllOffline | OutOfRange

  // Where the call stands: each of these looks at TargetArr once.
  datatype Pc = CheckNil | Load | CheckOne | TakeFirst | CheckEmpty | CompareIndex | TakeAt | Back(o: Outcome)

  datatype Call = Call(entry: Entry, pc: Pc)

  datatype Step = Get | Message(info: GoString, status: bool)

  function At(arr: seq<GoString>, i: nat): Outcome {
    if i < |arr| then Answer(arr[i]) else OutOfRange
  }

  function WithTarget(c: Call, t: TargetV, pc: Pc): Call {
    Call(c.entry.(target := t), pc)
  }

  // The next look of the call at the list.
  function Look(c: Call): Call {
    var t, arr := c.entry.target, LiveOrEmpty(c.entry.target);
    match c.pc
    case CheckNil => c.(pc := if t.targetArr.None? then Load else CheckOne)
    case Load => WithTarget(c, t.(targetArr := Some(Pieces(t.targetStr))), CheckOne)
    case CheckOne => c.(pc := if |arr| == 1 then TakeFirst else CheckEmpty)
    case TakeFirst => c.(pc := Back(At(arr, 0)))
    case CheckEmpty => c.(pc := if |arr| == 0 then Back(AllOffline) else CompareIndex)
    case CompareIndex => WithTarget(c, t.(nowIndex := NextIndex(t.nowIndex, |arr|)), TakeAt)
    case TakeAt => c.(pc := Back(At(arr, t.nowIndex)))
    case Back(_) => c
  }

  function Apply(c: Call, step: Step): Call {
    match step
    case Get => Look(c)
    case Message(info, status) => c.(entry := OnMessage(c.entry, c.entry.clientId, info, status))
  }

  function Run(c: Call, steps: seq<Step>): Call {
    if steps == [] then c else Apply(Run(c, steps[..|steps| - 1]), steps[|steps| - 1])
  }

  function Looks(n: nat): seq<Step> {
    seq(n, _ => Get)
  }

  function LookTimes(c: Call, n: nat): Call {
    if n == 0 then c else Look(LookTimes(c, n - 1))
  }

  lemma {:induction false} RunLooks(c: Call, n: nat)
    ensures Run(c, Looks(n)) == LookTimes(c, n)
  {
    if n > 0 {
      RunLooks(c, n - 1);
      assert Looks(n)[..n - 1] == Looks(n - 1);
    }
  }

  function OutcomeOf(r: Option<GoString>): Outcome {
    if r.Some? then Answer(r.value) else AllOffline
  }

  // Four looks at a loaded list are enough.
  lemma FromLoaded(c: Call)
    requires c.pc.CheckOne? && c.entry.target.targetArr.Some?
    ensures Look(Look(Look(Look(c))))
      == WithTarget(c, Pick(c.entry.target).0, Back(OutcomeOf(Pick(c.entry.target).1)))
  {
  }

  // A call that no message disturbs is back after six looks, with the answer and the
  // new value of a call in one step.
  lemma UndisturbedCallIsPick(e: Entry)
    ensures var c := Run(Call(e, CheckNil), Looks(6));
      c.pc == Back(OutcomeOf(Pick(e.target).1)) && c.entry == e.(target := Pick(e.target).0)
  {
    var c := Call(e, CheckNil);
    RunLooks(c, 6);
    SixLooks(c);
    if e.target.targetArr.None? {
      FromLoaded(Look(Look(c)));
    } else {
      FromLoaded(Look(c));
    }
  }

  lemma SixLooks(c: Call)
    ensures LookTimes(c, 6) == Look(Look(Look(Look(Look(Look(c))))))
  {
    assert LookTimes(c, 1) == Look(c);
    assert LookTimes(c, 2) == Look(Look(c));
    assert LookTimes(c, 4) == Look(Look(LookTimes(c, 2)));
  }

  // What the call relies on between two looks.
  predicate Relies(c: Call) {
    var arr := LiveOrEmpty(c.entry.target);
    && (c.pc.CheckNil? || c.pc.Load? || c.entry.target.targetArr.Some?)
    && (c.pc.TakeFirst? || c.pc.CompareIndex? ==> arr != [])
    && (c.pc.TakeAt? ==> c.entry.target.nowIndex < |arr|)
    && c.pc != Back(OutOfRange)
  }

  // As long as no "0" arrives, what it relies on stays true: the list only grows.
  lemma {:induction false} SafeWithoutRemoval(e: Entry, steps: seq<Step>)
    requires forall step :: step in steps ==> step.Get? || step.status
    ensures Relies(Run(Call(e, CheckNil), steps))
  {
    if steps != [] {
      var before := steps[..|steps| - 1];
      SafeWithoutRemoval(e, before);
      assert steps[|steps| - 1] in steps;
    }
  }

  // A call on e leaves the list under a schedule of looks and messages.
  predicate LeavesList(e: Entry, steps: seq<Step>) {
    Run(Call(e, CheckNil), steps).pc == Back(OutOfRange)
  }

  lemma {:induction false} RunAppend(c: Call, a: seq<Step>, b: seq<Step>)
    ensures Run(c, a + b) == Run(Run(c, a), b)
    decreases |b|
  {
    if b == [] {
      assert a + b == a;
    } else {
      RunAppend(c, a, b[..|b| - 1]);
      assert (a + b)[..|a + b| - 1] == a + b[..|b| - 1];
    }
  }

  // A "0" for every member of a list.
  function Zeros(arr: seq<GoString>): seq<Step> {
    if arr == [] then [] else [Message(arr[0], false)] + Zeros(arr[1..])
  }

  ghost predicate AllOccur(e: Entry, arr: seq<GoString>) {
    forall v :: v in arr ==> Text.Contains(e.target.targetStr, v)
  }

  // They empty it while the call stands still.
  lemma {:induction false} EmptiedOut(c: Call, arr: seq<GoString>)
    requires c.entry.target.targetArr == Some(arr) && Watches(c.entry, c.entry.clientId) && AllOccur(c.entry, arr)
    ensures Run(c, Zeros(arr)).pc == c.pc && Run(c, Zeros(arr)).entry.target.targetArr == Some([])
    decreases |arr|
  {
    if arr != [] {
      var m := Message(arr[0], false);
      RunAppend(c, [m], Zeros(arr[1..]));
      assert arr[0] in arr && [m][..0] == [];
      assert Run(c, [m]) == Apply(c, m);
      assert Apply(c, m).entry.target.targetArr == Some(arr[1..]);
      EmptiedOut(Apply(c, m), arr[1..]);
    }
  }

  // How many looks bring an undisturbed call to the point where it takes a member.
  function LooksToTake(e: Entry): nat {
    (if e.target.targetArr.None? then 1 else 0) + if |Loaded(e.target)| == 1 then 2 else 4
  }

  lemma ReadyToTake(e: Entry)
    requires Loaded(e.target) != []
    ensures var c, arr := LookTimes(Call(e, CheckNil), LooksToTake(e)), Loaded(e.target);
      && (if |arr| == 1 then c.pc == TakeFirst
          else c.pc == TakeAt && c.entry.target.nowIndex == NextIndex(e.target.nowIndex, |arr|))
      && c.entry == e.(target := c.entry.target)
      && c.entry.target.targetArr == Some(arr) && c.entry.target.targetStr == e.target.targetStr
  {
    var c, m := Call(e, CheckNil), if e.target.targetArr.None? then 2 else 1;
    AfterLoading(e);
    var d := LookTimes(c, m);
    TakingFrom(d);
    assert LookTimes(c, m + 1) == Look(d);
    assert LookTimes(c, m + 2) == Look(LookTimes(c, m + 1));
    assert LookTimes(c, m + 3) == Look(LookTimes(c, m + 2));
  }

  lemma AfterLoading(e: Entry)
    ensures var m := if e.target.targetArr.None? then 2 else 1;
      LookTimes(Call(e, CheckNil), m)
        == WithTarget(Call(e, CheckNil), e.target.(targetArr := Some(Loaded(e.target))), CheckOne)
  {
    var c := Call(e, CheckNil);
    assert LookTimes(c, 1) == Look(c);
    assert LookTimes(c, 2) == Look(Look(c));
  }

  lemma TakingFrom(c: Call)
    requires c.pc == CheckOne && c.entry.target.targetArr.Some? && c.entry.target.targetArr.value != []
    ensures var t, n := c.entry.target, |c.entry.target.targetArr.value|;
      && (n == 1 ==> Look(c) == c.(pc := TakeFirst))
      && (n > 1 ==> Look(Look(Look(c))) == WithTarget(c, t.(nowIndex := NextIndex(t.nowIndex, n)), TakeAt))
  {
  }

  // Messages for somebody else's entry leave a call alone.
  lemma {:induction false} UnwatchedIsUndisturbed(e: Entry, steps: seq<Step>)
    requires !Watches(e, e.clientId)
    ensures var c := Run(Call(e, CheckNil), steps); Relies(c) && !Watches(c.entry, c.entry.clientId)
  {
    if steps != [] {
      UnwatchedIsUndisturbed(e, steps[..|steps| - 1]);
    }
  }

  // On a watched list that is not empty, and whose members all occur in the text, a "0" for
  // each of them just before one is taken makes the index leave the list.
  lemma EmptyingBreaks(e: Entry) returns (steps: seq<Step>)
    requires Watches(e, e.clientId) && Loaded(e.target) != [] && AllOccur(e, Loaded(e.target))
    ensures LeavesList(e, steps)
  {
    var c, arr, n := Call(e, CheckNil), Loaded(e.target), LooksToTake(e);
    ReadyToTake(e);
    RunLooks(c, n);
    EmptiedOut(LookTimes(c, n), arr);
    RunAppend(c, Looks(n), Zeros(arr));
    var before := Looks(n) + Zeros(arr);
    steps := before + [Get];
    assert steps[..|steps| - 1] == before;
    assert LiveOrEmpty(Run(c, before).entry.target) == [];
    assert Run(c, steps) == Look(Run(c, before));
  }

  // A "0" and a "1" for the blank text, which occurs in any text.
  const REFILL: seq<Step> := [Message([], false), Message([], true)]

  // They put members into a list that is empty.
  lemma Refilled(e: Entry)
    requires Watches(e, e.clientId) && e.target.targetArr == Some([])
    ensures var c := Run(Call(e, CheckNil), REFILL);
      && c == Call(c.entry, CheckNil) && Watches(c.entry, c.entry.clientId)
      && Loaded(c.entry.target) != [] && AllOccur(c.entry, Loaded(c.entry.target))
  {
    var c := Call(e, CheckNil);
    assert REFILL[..1] == [Message([], false)] && REFILL[..1][..0] == [];
    assert Run(c, REFILL[..1]) == Apply(c, Message([], false));
    forall v | v in Lines(e) ensures v != [] && Text.Contains(e.target.targetStr, v) {
      HealthAgreement.LinesOccur(e, v);
    }
    RemoveAbsent(Lines(e), []);
    RemoveAbsent([], []);
  }

  // The exact condition for a whole call, on a nil list or on a loaded one, empty or not,
  // whose members all occur in the text: messages can make the index leave the list if and
  // only if the entry is a host or a tcp task.
  lemma OutOfRangeExactly(e: Entry)
    requires e.target.targetArr.Some? ==> AllOccur(e, e.target.targetArr.value)
    ensures (exists steps :: LeavesList(e, steps)) <==> e.isHost || e.tcpMode
  {
    if !Watches(e, e.clientId) {
      forall steps ensures !LeavesList(e, steps) {
        UnwatchedIsUndisturbed(e, steps);
      }
    } else if e.target.targetArr == Some([]) {
      Refilled(e);
      var c := Call(e, CheckNil);
      var steps := EmptyingBreaks(Run(c, REFILL).entry);
      RunAppend(c, REFILL, steps);
      assert LeavesList(e, REFILL + steps);
    } else {
      forall v | v in Loaded(e.target) ensures Text.Contains(e.target.targetStr, v) {
        Text.SplitPieces(e.target.targetStr, NEWLINE[0]);
      }
      var steps := EmptyingBreaks(e);
    }
  }

  // ------------------------------------------------------------------- a single removal

  // One "0" for u after i looks, and then j more looks.
  function WithOneRemoval(i: nat, u: GoString, j: nat): seq<Step> {
    Looks(i) + ([Message(u, false)] + Looks(j))
  }

  lemma WithOneRemovalRuns(c: Call, i: nat, u: GoString, j: nat)
    ensures Run(c, WithOneRemoval(i, u, j)) == LookTimes(Apply(LookTimes(c, i), Message(u, false)), j)
  {
    RunAppend(c, Looks(i), [Message(u, false)] + Looks(j));
    RunLooks(c, i);
    var d := LookTimes(c, i);
    RunAppend(d, [Message(u, false)], Looks(j));
    assert [Message(u, false)][..0] == [];
    assert Run(d, [Message(u, false)]) == Apply(d, Message(u, false));
    RunLooks(Apply(d, Message(u, false)), j);
  }

  // Where an undisturbed call can stand.
  predicate Stands(e: Entry, c: Call) {
    var n, was, now := |Loaded(e.target)|, e.target.nowIndex, c.entry.target.nowIndex;
    var loaded := !c.pc.CheckNil? && !c.pc.Load?;
    var arr := if loaded then Some(Loaded(e.target)) else e.target.targetArr;
    && c.entry == e.(target := e.target.(nowIndex := now, targetArr := arr))
    && match c.pc
       case CheckNil => now == was
       case Load => e.target.targetArr.None? && now == was
       case CheckOne => now == was
       case TakeFirst => n == 1
       case CheckEmpty => n != 1 && now == was
       case CompareIndex => n > 1 && now == was
       case TakeAt => n > 1 && now == NextIndex(was, n)
       case Back(o) => o != OutOfRange
  }

  lemma {:induction false} StandsAlong(e: Entry, i: nat)
    ensures Stands(e, LookTimes(Call(e, CheckNil), i))
  {
    if i > 0 {
      StandsAlong(e, i - 1);
    }
  }

  lemma {:induction false} ReliesAlong(c: Call, j: nat)
    requires Relies(c)
    ensures Relies(LookTimes(c, j))
  {
    if j > 0 {
      ReliesAlong(c, j - 1);
    }
  }

  // A single "0" breaks what the call relies on only at the two places where it takes a
  // member, and at the second only if the last one is due.
  lemma OneRemovalBreaks(e: Entry, c: Call, u: GoString)
    requires Stands(e, c) && !Relies(Apply(c, Message(u, false)))
    ensures OneIsEnough(e) && u in Loaded(e.target) && Text.Contains(e.target.targetStr, u)
  {
    var arr := Loaded(e.target);
    if u in arr {
      RemoveFirstLength(arr, u);
    } else {
      RemoveAbsent(arr, u);
    }
  }

  // The entry is a host or a tcp task, and the list as it is loaded has one member or its
  // last index is next.
  predicate OneIsEnough(e: Entry) {
    var n := |Loaded(e.target)|;
    (e.isHost || e.tcpMode) && (n == 1 || (n > 1 && NextIndex(e.target.nowIndex, n) == n - 1))
  }

  // On any list, nil, empty or not: a single "0" can make the index leave the list if and
  // only if that holds and some member of the list occurs in the text.
  lemma OneRemovalExactly(e: Entry)
    ensures (exists i, u, j :: LeavesList(e, WithOneRemoval(i, u, j))) <==>
      OneIsEnough(e) && exists v :: v in Loaded(e.target) && Text.Contains(e.target.targetStr, v)
  {
    if i, u, j :| LeavesList(e, WithOneRemoval(i, u, j)) {
      WithOneRemovalRuns(Call(e, CheckNil), i, u, j);
      StandsAlong(e, i);
      var hit := Apply(LookTimes(Call(e, CheckNil), i), Message(u, false));
      if Relies(hit) {
        ReliesAlong(hit, j);
      } else {
        OneRemovalBreaks(e, LookTimes(Call(e, CheckNil), i), u);
      }
    }
    if v :| OneIsEnough(e) && v in Loaded(e.target) && Text.Contains(e.target.targetStr, v) {
      OneRemovalIsEnough(e, v);
    }
  }

  // The schedule that does it: the "0" arrives just before the member is taken.
  lemma OneRemovalIsEnough(e: Entry, v: GoString)
    requires OneIsEnough(e) && v in Loaded(e.target) && Text.Contains(e.target.targetStr, v)
    ensures LeavesList(e, WithOneRemoval(LooksToTake(e), v, 1))
  {
    var arr, ready := Loaded(e.target), LookTimes(Call(e, CheckNil), LooksToTake(e));
    ReadyToTake(e);
    WithOneRemovalRuns(Call(e, CheckNil), LooksToTake(e), v, 1);
    RemoveFirstLength(arr, v);
    var hit := Apply(ready, Message(v, false));
    assert LiveOrEmpty(hit.entry.target) == RemoveFirst(arr, v);
    assert LookTimes(hit, 1) == Look(hit);
  }

  // A "0" that arrives between the look that finds the list nil and the assignment of
  // the loaded list is lost: its target stays live, although it is remembered as removed.
  lemma RemovalIsLost(e: Entry, v: GoString)
    requires (e.isHost || e.tcpMode) && e.target.targetArr.None? && v in Pieces(e.target.targetStr)
    requires Text.Contains(e.target.targetStr, v)
    ensures var c := Run(Call(e, CheckNil), [Get, Message(v, false), Get]);
      v in LiveOrEmpty(c.entry.target) && v in c.entry.removed
  {
    var steps := [Get, Message(v, false), Get];
    var c := Call(e, CheckNil);
    assert steps[..2] == [Get, Message(v, false)] && steps[..2][..1] == [Get] && [Get][..0] == [];
    assert Run(c, [Get]) == Look(c);
    assert Run(c, [Get, Message(v, false)]) == Apply(Look(c), Message(v, false));
  }
}
