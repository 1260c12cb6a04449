// The health-check protocol: the client counts failed checks per target and
// reports "0" (down) and "1" (recovered) over a FIFO link; the server edits the
// live target list of every tunnel and host of that client.
module HealthProtocol {
  import opened Common
  import opened Targets
  import Text

  // ---------------------------------------------------------------- list helpers

  function Trimmed(arr: seq<GoString>): seq<GoString> {
    if arr == [] then []
    else if arr[0] == [] then Trimmed(arr[1..])
    else [arr[0]] + Trimmed(arr[1..])
  }

  function RemoveFirst(arr: seq<GoString>, val: GoString): seq<GoString> {
    if arr == [] then []
    else if arr[0] == val then arr[1..]
    else [arr[0]] + RemoveFirst(arr[1..], val)
  }

  lemma {:induction false} TrimmedAppend(a: seq<GoString>, x: GoString)
    ensures Trimmed(a + [x]) == Trimmed(a) + if x == [] then [] else [x]
  {
    if a == [] {
    } else {
      TrimmedAppend(a[1..], x);
      assert (a + [x])[1..] == a[1..] + [x];
    }
  }

  method TrimArr(arr: seq<GoString>) returns (newArr: seq<GoString>)
    ensures newArr == Trimmed(arr)
  {
    newArr := [];
    for i := 0 to |arr|
      invariant newArr == Trimmed(arr[..i])
    {
      TrimmedAppend(arr[..i], arr[i]);
      assert arr[..i + 1] == arr[..i] + [arr[i]];
      if arr[i] != [] {
        newArr := newArr + [arr[i]];
      }
    }
    assert arr[..|arr|] == arr;
  }

  lemma {:induction false} RemoveAt(arr: seq<GoString>, val: GoString, k: nat)
    requires k < |arr| && arr[k] == val && val !in arr[..k]
    ensures RemoveFirst(arr, val) == arr[..k] + arr[k + 1..]
  {
    if k > 0 {
      assert arr[0] in arr[..k];
      assert arr[1..][..k - 1] == arr[..k][1..];
      RemoveAt(arr[1..], val, k - 1);
      assert [arr[0]] + arr[1..][..k - 1] == arr[..k];
    }
  }

  lemma {:induction false} RemoveAbsent(arr: seq<GoString>, val: GoString)
    requires val !in arr
    ensures RemoveFirst(arr, val) == arr
  {
    if arr != [] {
      RemoveAbsent(arr[1..], val);
    }
  }

  method RemoveArrVal(arr: seq<GoString>, val: GoString) returns (r: seq<GoString>)
    ensures r == RemoveFirst(arr, val)
  {
    for k := 0 to |arr|
      invariant val !in arr[..k]
    {
      if arr[k] == val {
        RemoveAt(arr, val, k);
        return arr[..k] + arr[k + 1..];
      }
    }
    assert arr[..|arr|] == arr;
    RemoveAbsent(arr, val);
    return arr;
  }

  method IsArrContains(arr: seq<GoString>, val: GoString) returns (r: bool)
    ensures r <==> val in arr
  {
    for k := 0 to |arr|
      invariant val !in arr[..k]
    {
      if arr[k] == val {
        return true;
      }
    }
    assert arr[..|arr|] == arr;
    return false;
  }

  lemma {:induction false} RemoveFirstMembers(arr: seq<GoString>, val: GoString, x: GoString)
    ensures x in RemoveFirst(arr, val) ==> x in arr
    ensures x != val && x in arr ==> x in RemoveFirst(arr, val)
  {
    if arr != [] && arr[0] != val {
      RemoveFirstMembers(arr[1..], val, x);
    }
  }

  lemma {:induction false} RemoveFirstLength(arr: seq<GoString>, val: GoString)
    requires val in arr
    ensures |RemoveFirst(arr, val)| == |arr| - 1
  {
    if arr[0] != val {
      RemoveFirstLength(arr[1..], val);
    }
  }

  // ------------------------------------------------------------- server: one entry

  // A tunnel (isHost false) or a host (isHost true) of a client. A nil
  // HealthRemoveArr behaves as the empty list.
  datatype Entry = Entry(clientId: int, isHost: bool, tcpMode: bool, target: TargetV, removed: seq<GoString>)

  // The non-empty lines of the configured target text.
  function Lines(e: Entry): seq<GoString> {
    Trimmed(Pieces(e.target.targetStr))
  }

  predicate Watches(e: Entry, id: int) {
    e.clientId == id && (e.isHost || e.tcpMode)
  }

  function MarkDown(e: Entry, info: GoString): Entry {
    var t := e.target;
    var arr := if t.targetArr.None? || (t.targetArr.value == [] && e.removed == [])
               then Lines(e) else t.targetArr.value;
    e.(target := t.(targetArr := Some(RemoveFirst(arr, info))), removed := e.removed + [info])
  }

  function LiveOrEmpty(t: TargetV): seq<GoString> {
    if t.targetArr.None? then [] else t.targetArr.value
  }

  function MarkUp(e: Entry, info: GoString): Entry {
    e.(target := e.target.(targetArr := Some(LiveOrEmpty(e.target) + [info])),
       removed := RemoveFirst(e.removed, info))
  }

  // Effect on one entry of a message (info, status) from client id.
  function OnMessage(e: Entry, id: int, info: GoString, status: bool): Entry {
    if !Watches(e, id) then e
    else if !status then
      if Text.Contains(e.target.targetStr, info) then MarkDown(e, info) else e
    else
      if info in e.removed && info !in LiveOrEmpty(e.target) then MarkUp(e, info) else e
  }

  // b is a without its first x.
  ghost predicate TakenOut(a: seq<GoString>, x: GoString, b: seq<GoString>) {
    if x in a then exists k :: 0 <= k < |a| && a[k] == x && x !in a[..k] && b == a[..k] + a[k + 1..] else b == a
  }

  lemma {:induction false} FirstIndex(a: seq<GoString>, x: GoString) returns (k: nat)
    requires x in a
    ensures k < |a| && a[k] == x && x !in a[..k]
  {
    if a[0] == x {
      k := 0;
    } else {
      var j := FirstIndex(a[1..], x);
      k := j + 1;
      assert a[..k] == [a[0]] + a[1..][..j];
    }
  }

  lemma RemoveFirstTakesOut(a: seq<GoString>, x: GoString)
    ensures TakenOut(a, x, RemoveFirst(a, x))
  {
    if x in a {
      var k := FirstIndex(a, x);
      RemoveAt(a, x, k);
    } else {
      RemoveAbsent(a, x);
    }
  }

  // The list a "0" works on: a nil list, and an empty one if nothing is removed, is loaded.
  function Worked(e: Entry): seq<GoString> {
    match e.target.targetArr
    case None => Lines(e)
    case Some(arr) => if arr == [] && e.removed == [] then Lines(e) else arr
  }

  // What a message changes, field by field: it reaches every host of its client, every tcp
  // task of its client, and nothing else. A "0" for a text that occurs takes its first copy
  // out and is remembered at the end; a "1" for a remembered text that is not live puts it
  // back at the end and is forgotten once; any other changes nothing.
  lemma MessageReaches(e: Entry, id: int, info: GoString, status: bool)
    ensures var e' := OnMessage(e, id, info, status);
      var mine := e.clientId == id && (e.isHost || e.tcpMode);
      var live := if e.target.targetArr.None? then [] else e.target.targetArr.value;
      && e' == e.(target := e.target.(targetArr := e'.target.targetArr), removed := e'.removed)
      && if mine && !status && Text.Contains(e.target.targetStr, info) then
           && e'.target.targetArr.Some? && TakenOut(Worked(e), info, e'.target.targetArr.value)
           && e'.removed == e.removed + [info]
         else if mine && status && info in e.removed && info !in live then
           e'.target.targetArr == Some(live + [info]) && TakenOut(e.removed, info, e'.removed)
         else
           e' == e
  {
    RemoveFirstTakesOut(Worked(e), info);
    RemoveFirstTakesOut(e.removed, info);
  }

  class Watched {
    const clientId: int
    const isHost: bool
    const tcpMode: bool
    const target: Target
    var healthRemoveArr: seq<GoString>

    constructor (clientId: int, isHost: bool, tcpMode: bool, target: Target)
      ensures this.clientId == clientId && this.isHost == isHost && this.tcpMode == tcpMode
      ensures this.target == target && healthRemoveArr == []
    {
      this.clientId, this.isHost, this.tcpMode, this.target := clientId, isHost, tcpMode, target;
      healthRemoveArr := [];
    }

    function View(): Entry
      reads this, target
    {
      Entry(clientId, isHost, tcpMode, target.View(), healthRemoveArr)
    }

    method Receive(id: int, info: GoString, status: bool)
      modifies this, target
      ensures View() == OnMessage(old(View()), id, info, status)
    {
      if clientId != id || !(isHost || tcpMode) {
        return;
      }
      var live := if target.targetArr.None? then [] else target.targetArr.value;
      if !status {
        if Text.Contains(target.targetStr, info) {
          if target.targetArr.None? || (|live| == 0 && |healthRemoveArr| == 0) {
            live := TrimArr(Text.Split(target.targetStr, NEWLINE));
          }
          live := RemoveArrVal(live, info);
          target.targetArr := Some(live);
          healthRemoveArr := healthRemoveArr + [info];
        }
      } else {
        var down := IsArrContains(healthRemoveArr, info);
        var up := IsArrContains(live, info);
        if down && !up {
          target.targetArr := Some(live + [info]);
          healthRemoveArr := RemoveArrVal(healthRemoveArr, info);
        }
      }
    }
  }

  // No two entries share an object.
  ghost predicate Separate(es: seq<Watched>) {
    forall i, j :: 0 <= i < j < |es| ==> es[i] != es[j] && es[i].target != es[j].target
  }

  // One message is applied to every tunnel and host, each exactly once.
  method GetHealthFromClient(es: seq<Watched>, id: int, info: GoString, status: bool)
    requires Separate(es)
    modifies set i | 0 <= i < |es| :: es[i]
    modifies set i | 0 <= i < |es| :: es[i].target
    ensures forall i :: 0 <= i < |es| ==> es[i].View() == OnMessage(old(es[i].View()), id, info, status)
  {
    for k := 0 to |es|
      invariant forall i :: 0 <= i < k ==> es[i].View() == OnMessage(old(es[i].View()), id, info, status)
      invariant forall i :: k <= i < |es| ==> es[i].View() == old(es[i].View())
    {
      es[k].Receive(id, info, status);
    }
  }

  // ---------------------------------------------------------------- client counters

  datatype Msg = Msg(info: GoString, status: bool)

  function CounterOf(m: map<GoString, int>, v: GoString): int {
    if v in m then m[v] else 0
  }

  // The counter of a target after one check.
  function Counted(c: int, maxFail: int, failed: bool): int {
    if failed then c + 1 else if c >= maxFail then 0 else c
  }

  // The report sent by that check, if any.
  function Reported(c: int, maxFail: int, v: GoString, failed: bool): seq<Msg>
    requires maxFail > 0
  {
    var c' := Counted(c, maxFail, failed);
    (if !failed && c >= maxFail then [Msg(v, true)] else [])
    + (if c' > 0 && c' % maxFail == 0 then [Msg(v, false)] else [])
  }

  // A whole pass over a record's targets; failed[i] is the outcome of probing targets[i].
  function Pass(m: map<GoString, int>, maxFail: int, targets: seq<GoString>, failed: seq<bool>):
      (map<GoString, int>, seq<Msg>)
    requires maxFail > 0 && |targets| == |failed|
  {
    if targets == [] then (m, [])
    else
      var n := |targets| - 1;
      var (m', sent) := Pass(m, maxFail, targets[..n], failed[..n]);
      var c := CounterOf(m', targets[n]);
      (if failed[n] || c >= maxFail then m'[targets[n] := Counted(c, maxFail, failed[n])] else m',
       sent + Reported(c, maxFail, targets[n], failed[n]))
  }

  class HealthRecord {
    const maxFail: int
    var healthMap: map<GoString, int>

    constructor (maxFail: int)
      ensures this.maxFail == maxFail && healthMap == map[]
    {
      this.maxFail := maxFail;
      healthMap := map[];
    }

    // sent collects what SendHealthInfo wrote to the link, in order.
    method Check(targets: seq<GoString>, failed: seq<bool>) returns (sent: seq<Msg>)
      requires maxFail > 0 && |targets| == |failed|
      modifies this
      ensures (healthMap, sent) == Pass(old(healthMap), maxFail, targets, failed)
    {
      sent := [];
      for i := 0 to |targets|
        invariant (healthMap, sent) == Pass(old(healthMap), maxFail, targets[..i], failed[..i])
      {
        var v := targets[i];
        ghost var c := CounterOf(healthMap, v);
        ghost var before := sent;
        if failed[i] {
          healthMap := healthMap[v := CounterOf(healthMap, v) + 1];
        } else if CounterOf(healthMap, v) >= maxFail {
          sent := sent + [Msg(v, true)];
          healthMap := healthMap[v := 0];
        }
        if CounterOf(healthMap, v) > 0 && CounterOf(healthMap, v) % maxFail == 0 {
          sent := sent + [Msg(v, false)];
        }
        assert sent == before + Reported(c, maxFail, v, failed[i]);
        assert targets[..i + 1][..i] == targets[..i] && failed[..i + 1][..i] == failed[..i];
      }
      assert targets[..|targets|] == targets && failed[..|failed|] == failed;
    }
  }
}
