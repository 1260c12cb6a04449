// Round-robin choice among the live targets of a tunnel or host.
module Targets {
  import opened Common
  import Text

  const NEWLINE: seq<byte> := [10]

  // The value of a Target object; a nil TargetArr is None.
  datatype TargetV = TargetV(nowIndex: nat, targetStr: GoString, targetArr: Option<seq<GoString>>)

  function Pieces(targetStr: GoString): (ps: seq<GoString>)
    ensures ps != []
  {
    Text.Split(targetStr, NEWLINE)
  }

  // The list GetRandomTarget works on: a nil list is first read from the text.
  function Loaded(t: TargetV): seq<GoString> {
    if t.targetArr.None? then Pieces(t.targetStr) else t.targetArr.value
  }

  // The position after i in a list of n >= 2 entries.
  function NextIndex(i: nat, n: nat): (r: nat)
    ensures n > 0 ==> r < n
  {
    if i >= n - 1 then 0 else i + 1
  }

  // New value and answer of one GetRandomTarget call; None is the offline error.
  function Pick(t: TargetV): (TargetV, Option<GoString>)
  {
    var arr := Loaded(t);
    var loaded := t.(targetArr := Some(arr));
    if |arr| == 1 then (loaded, Some(arr[0]))
    else if |arr| == 0 then (loaded, None)
    else
      var i := NextIndex(t.nowIndex, |arr|);
      (loaded.(nowIndex := i), Some(arr[i]))
  }

  class Target {
    var nowIndex: nat
    var targetStr: GoString
    var targetArr: Option<seq<GoString>>

    function View(): TargetV
      reads this
    {
      TargetV(nowIndex, targetStr, targetArr)
    }

    method GetRandomTarget() returns (r: Option<GoString>)
      modifies this
      ensures (View(), r) == Pick(old(View()))
    {
      if targetArr.None? {
        targetArr := Some(Text.Split(targetStr, NEWLINE));
      }
      var arr := targetArr.value;
      if |arr| == 1 {
        return Some(arr[0]);
      }
      if |arr| == 0 {
        return None;
      }
      var i: int := nowIndex;
      if i >= |arr| - 1 {
        i := -1;
      }
      nowIndex := i + 1;
      return Some(arr[nowIndex]);
    }
  }

  // An error exactly when the list is loaded and empty; otherwise the answer is a
  // member of the list, the one behind the index or, from the last one on (health
  // removals may have left the index past the end), the first.
  lemma PickAnswers(t: TargetV)
    ensures Pick(t).1.None? <==> t.targetArr == Some([])
    ensures Pick(t).1.Some? ==> Pick(t).1.value in Loaded(t)
    ensures var n, i := |Loaded(t)|, t.nowIndex;
      n >= 2 ==>
        && Pick(t).0.nowIndex == (if i + 1 < n then i + 1 else 0)
        && Pick(t).1 == Some(Loaded(t)[Pick(t).0.nowIndex])
  {
  }

  // k positions of a list of n entries, going round from position s.
  function Rotation(s: nat, n: nat, k: nat): (ps: seq<nat>)
    requires s < n
    ensures |ps| == k
    ensures forall j :: 0 <= j < k ==> ps[j] < n
    decreases k
  {
    if k == 0 then [] else [s] + Rotation(if s + 1 == n then 0 else s + 1, n, k - 1)
  }

  // The positions chosen by k further calls on a list of n entries.
  function Positions(i: nat, n: nat, k: nat): seq<nat>
    requires n >= 2
  {
    Rotation(NextIndex(i, n), n, k)
  }

  // The answers of k further calls.
  function Answers(t: TargetV, k: nat): seq<Option<GoString>>
    decreases k
  {
    if k == 0 then []
    else
      var (t', a) := Pick(t);
      [a] + Answers(t', k - 1)
  }

  // Occurrences of p.
  function Count(ps: seq<nat>, p: nat): nat {
    if ps == [] then 0 else (if ps[0] == p then 1 else 0) + Count(ps[1..], p)
  }

  // Steps from position s round to position p.
  function Distance(s: nat, n: nat, p: nat): nat
    requires s < n && p < n
  {
    if p >= s then p - s else p + n - s
  }

  lemma MulMonotone(n: nat, x: int, y: int)
    requires x <= y
    ensures n * x <= n * y
  {
  }

  // n * c is the first multiple of n that reaches a.
  lemma QuotientBelow(a: int, n: nat, c: int)
    requires n > 0 && a - n < n * c
    ensures a / n <= c
  {
    assert a == n * (a / n) + a % n;
    assert n * (c + 1) == n * c + n;
    if a / n > c {
      MulMonotone(n, c + 1, a / n);
    }
  }

  lemma QuotientAbove(a: int, n: nat, c: int)
    requires n > 0 && n * c <= a
    ensures c <= a / n
  {
    assert a == n * (a / n) + a % n;
    assert n * (a / n + 1) == n * (a / n) + n;
    if a / n < c {
      MulMonotone(n, a / n + 1, c);
    }
  }

  // The least c with n * c >= r (0 for r <= 0).
  function CeilDiv(r: int, n: nat): nat
    requires n > 0
    decreases if r > 0 then r else 0
  {
    if r <= 0 then 0 else 1 + CeilDiv(r - n, n)
  }

  lemma {:induction false} CeilDivBounds(r: int, n: nat)
    requires n > 0
    ensures r <= n * CeilDiv(r, n)
    ensures r + n > 0 ==> n * CeilDiv(r, n) - n < r
    decreases if r > 0 then r else 0
  {
    if r > 0 {
      CeilDivBounds(r - n, n);
      assert n * CeilDiv(r, n) == n * CeilDiv(r - n, n) + n;
    }
  }

  // How often position p is served by k calls: once for every n calls that follow
  // its first visit.
  lemma {:induction false} HitCount(s: nat, n: nat, k: nat, p: nat)
    requires s < n && p < n
    ensures Count(Rotation(s, n, k), p) == CeilDiv(k - Distance(s, n, p), n)
    decreases k
  {
    if k > 0 {
      var next := if s + 1 == n then 0 else s + 1;
      var later := Rotation(next, n, k - 1);
      assert ([s] + later)[1..] == later;
      HitCount(next, n, k - 1, p);
    }
  }

  // Fairness: k calls serve every position floor(k/n) or ceil(k/n) times; for
  // k == n that is exactly once.
  lemma RoundRobinFair(i: nat, n: nat, k: nat, p: nat)
    requires n >= 2 && p < n
    ensures k / n <= Count(Positions(i, n, k), p) <= (k + n - 1) / n
    ensures k == n ==> Count(Positions(i, n, k), p) == 1
  {
    var s := NextIndex(i, n);
    HitCount(s, n, k, p);
    CeilDivBounds(k - Distance(s, n, p), n);
    var c := Count(Positions(i, n, k), p);
    QuotientBelow(k, n, c);
    QuotientAbove(k + n - 1, n, c);
    if k == n {
      if c >= 2 { MulMonotone(n, 2, c); }
      if c <= 0 { MulMonotone(n, c, 0); }
    }
  }

  // The calls answer with exactly those positions of the fixed list.
  lemma {:induction false} AnswersFollowPositions(t: TargetV, k: nat)
    requires |Loaded(t)| >= 2
    ensures |Answers(t, k)| == k
    ensures forall j :: 0 <= j < k ==>
      Answers(t, k)[j] == Some(Loaded(t)[Positions(t.nowIndex, |Loaded(t)|, k)[j]])
    decreases k
  {
    if k > 0 {
      AnswersFollowPositions(Pick(t).0, k - 1);
    }
  }
}
