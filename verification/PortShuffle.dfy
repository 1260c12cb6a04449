// The random order in which a peer-to-peer client tries the ports of the other side.
module PortShuffle {
  import opened Common

  // The ports from lo to hi, highest first.
  function Descending(lo: int, hi: int): (s: seq<int>)
    requires lo <= hi
    ensures |s| == hi - lo + 1
  {
    seq(hi - lo + 1, k => hi - k)
  }

  // draws(i) is the random number drawn when index i is shuffled.
  function Shuffled(s: seq<int>, i: nat, draws: nat -> nat): (t: seq<int>)
    requires i < |s|
    ensures |t| == |s|
    decreases i
  {
    if i == 0 then s
    else
      var r := draws(i) % i;
      Shuffled(Swap(s, i, r), i - 1, draws)
  }

  function Swap(s: seq<int>, i: nat, r: nat): (t: seq<int>)
    requires i < |s| && r < |s|
  {
    s[i := s[r]][r := s[i]]
  }

  // What getRandomPortArr fills in and shuffles, whichever bound is the larger.
  function Initial(min: int, max: int): seq<int> {
    if min > max then Descending(max, min) else Descending(min, max)
  }

  function Result(min: int, max: int, draws: nat -> nat): seq<int> {
    var s := Initial(min, max);
    Shuffled(s, |s| - 1, draws)
  }

  method GetRandomPortArr(min: int, max: int, draws: nat -> nat) returns (a: array<int>)
    ensures fresh(a) && a[..] == Result(min, max, draws)
  {
    var lo, hi := min, max;
    if lo > hi {
      lo, hi := hi, lo;
    }
    a := new int[hi - lo + 1];
    for i := lo to hi + 1
      invariant forall k :: hi - i < k < a.Length ==> a[k] == hi - k
    {
      a[hi - i] := i;
    }
    assert a[..] == Initial(min, max);
    Shuffle(a, draws);
  }

  // The second loop of getRandomPortArr.
  method Shuffle(a: array<int>, draws: nat -> nat)
    requires a.Length > 0
    modifies a
    ensures a[..] == Shuffled(old(a[..]), a.Length - 1, draws)
  {
    var i := a.Length - 1;
    while i > 0
      invariant 0 <= i < a.Length
      invariant Shuffled(a[..], i, draws) == Shuffled(old(a[..]), a.Length - 1, draws)
    {
      var r := draws(i) % i;
      ghost var s := a[..];
      var temp := a[i];
      a[i] := a[r];
      a[r] := temp;
      assert a[..] == Swap(s, i, r);
      i := i - 1;
    }
  }

  // ------------------------------------------------------------------ one big cycle

  // Where each of the first i + 1 places gets its port from.
  function Perm(i: nat, draws: nat -> nat): (p: seq<nat>)
    ensures |p| == i + 1
    ensures forall k :: 0 <= k <= i ==> p[k] <= i
  {
    if i == 0 then [0]
    else
      var p, r := Perm(i - 1, draws), draws(i) % i;
      seq(i, k requires 0 <= k < i => if p[k] == r then i else p[k]) + [r]
  }

  lemma {:induction false} ShuffledByPerm(s: seq<int>, i: nat, draws: nat -> nat)
    requires i < |s|
    ensures forall k :: 0 <= k < |s| ==>
      Shuffled(s, i, draws)[k] == if k <= i then s[Perm(i, draws)[k]] else s[k]
    decreases i
  {
    if i > 0 {
      var r := draws(i) % i;
      ShuffledByPerm(Swap(s, i, r), i - 1, draws);
    }
  }

  // c goes through every place once, and p leads from each to the next and from the
  // last back to the first.
  ghost predicate IsCycle(p: seq<nat>, c: seq<nat>) {
    && |c| == |p| && Distinct(c)
    && (forall k :: 0 <= k < |p| ==> k in c)
    && (forall j :: 0 <= j < |c| ==> c[j] < |p| && p[c[j]] == c[if j + 1 == |c| then 0 else j + 1])
  }

  // A cycle may be entered anywhere.
  lemma Rotate(p: seq<nat>, c: seq<nat>, r: nat) returns (c': seq<nat>)
    requires IsCycle(p, c) && r < |p|
    ensures IsCycle(p, c') && c'[0] == r
  {
    var j := Position(c, r, |p|);
    c' := c[j..] + c[..j];
    forall k | 0 <= k < |p| ensures k in c' {
      assert k in c;
      CutAt(c, j);
      assert k in c[..j] || k in c[j..];
    }
    forall k | 0 <= k < |c'| ensures c'[k] < |p| && p[c'[k]] == c'[if k + 1 == |c'| then 0 else k + 1] {
      var m := if k + j < |c| then k + j else k + j - |c|;
      assert c'[k] == c[m];
    }
  }

  lemma {:induction false} PermIsCycle(i: nat, draws: nat -> nat) returns (c: seq<nat>)
    ensures IsCycle(Perm(i, draws), c)
  {
    if i == 0 {
      c := [0];
    } else {
      var r := draws(i) % i;
      var before := PermIsCycle(i - 1, draws);
      before := Rotate(Perm(i - 1, draws), before, r);
      c := before + [i];
      Insert(Perm(i - 1, draws), before, Perm(i, draws), i);
    }
  }

  // A new place goes in behind the last place of the cycle.
  lemma Insert(p: seq<nat>, c: seq<nat>, p': seq<nat>, i: nat)
    requires IsCycle(p, c) && |p| == i > 0
    requires |p'| == i + 1 && p'[i] == c[0]
    requires forall k :: 0 <= k < i ==> p'[k] == if p[k] == c[0] then i else p[k]
    ensures IsCycle(p', c + [i])
  {
    var c' := c + [i];
    forall k | 0 <= k < |p'| ensures k in c' {
      assert k < i ==> k in c;
    }
    forall j | 0 <= j < |c'| ensures c'[j] < |p'| && p'[c'[j]] == c'[if j + 1 == |c'| then 0 else j + 1] {
      if j < i - 1 {
        assert p[c[j]] == c[j + 1] != c[0];
      }
    }
  }

  // Place k of t holds what place p[k] of s held.
  ghost predicate Moves(s: seq<int>, p: seq<nat>, t: seq<int>) {
    |p| == |s| == |t| && forall k :: 0 <= k < |t| ==> p[k] < |s| && t[k] == s[p[k]]
  }

  // Whatever is drawn, the array holds every port of the range once, and the places
  // have been passed round in a single cycle; so with two or more ports none is where
  // it was.
  lemma ShuffleIsOneCycle(min: int, max: int, draws: nat -> nat)
    ensures var s, t := Initial(min, max), Result(min, max, draws);
      && |t| == |s|
      && Distinct(t)
      && (forall port :: port in t <==> min <= port <= max || max <= port <= min)
      && (exists p, c :: IsCycle(p, c) && Moves(s, p, t))
      && (|s| >= 2 ==> forall k :: 0 <= k < |s| ==> t[k] != s[k])
  {
    var s, t, n := Initial(min, max), Result(min, max, draws), |Initial(min, max)|;
    var p := Perm(n - 1, draws);
    ShuffledByPerm(s, n - 1, draws);
    var c := PermIsCycle(n - 1, draws);
    assert Moves(s, p, t);
    CycleFacts(p, c);
    forall port ensures port in t <==> port in s {
      SamePorts(s, p, c, t, port);
    }
    InitialPorts(min, max);
  }

  lemma SamePorts(s: seq<int>, p: seq<nat>, c: seq<nat>, t: seq<int>, port: int)
    requires IsCycle(p, c) && Moves(s, p, t)
    ensures port in t <==> port in s
  {
    if port in s {
      var k :| 0 <= k < |s| && s[k] == port;
      var j := Before(p, c, k);
      assert t[j] == port;
    }
  }

  lemma InitialPorts(min: int, max: int)
    ensures Distinct(Initial(min, max))
    ensures forall port :: port in Initial(min, max) <==> min <= port <= max || max <= port <= min
    ensures forall k :: 0 < k < |Initial(min, max)| ==> Initial(min, max)[k] == Initial(min, max)[k - 1] - 1
  {
    var hi := if min > max then min else max;
    forall port | min <= port <= max || max <= port <= min ensures port in Initial(min, max) {
      assert Initial(min, max)[hi - port] == port;
    }
  }

  lemma Before(p: seq<nat>, c: seq<nat>, k: nat) returns (j: nat)
    requires IsCycle(p, c) && k < |p|
    ensures j < |p| && p[j] == k
  {
    var m := Position(c, k, |p|);
    j := c[if m == 0 then |c| - 1 else m - 1];
  }

  // A cycle sends different places to different places, and none to itself.
  lemma CycleFacts(p: seq<nat>, c: seq<nat>)
    requires IsCycle(p, c)
    ensures Distinct(p)
    ensures forall k :: 0 <= k < |p| ==> p[k] < |p|
    ensures |p| >= 2 ==> forall k :: 0 <= k < |p| ==> p[k] != k
  {
    forall k | 0 <= k < |p| ensures p[k] < |p| && (|p| >= 2 ==> p[k] != k) {
      var i := Position(c, k, |p|);
      assert p[c[i]] == c[if i + 1 == |c| then 0 else i + 1];
    }
    forall k, l | 0 <= k < l < |p| ensures p[k] != p[l] {
      var i := Position(c, k, |p|);
      var j := Position(c, l, |p|);
      assert p[c[i]] == c[if i + 1 == |c| then 0 else i + 1];
      assert p[c[j]] == c[if j + 1 == |c| then 0 else j + 1];
    }
  }

  lemma Position(c: seq<nat>, k: nat, n: nat) returns (j: nat)
    requires k < n && forall k :: 0 <= k < n ==> k in c
    ensures j < |c| && c[j] == k
  {
    assert k in c;
    j :| j < |c| && c[j] == k;
  }

  lemma PrefixOf(s: seq<int>, n: nat)
    requires n <= |s| && Distinct(s)
    ensures Distinct(s[..n]) && forall x :: x in s[..n] ==> x in s
  {
  }

  lemma FirstPorts(min: int, max: int, draws: nat -> nat, n: nat)
    requires n <= |Initial(min, max)|
    ensures |Result(min, max, draws)| == |Initial(min, max)|
    ensures Distinct(Result(min, max, draws)[..n])
    ensures forall port :: port in Result(min, max, draws)[..n] ==> min <= port <= max || max <= port <= min
  {
    ShuffleIsOneCycle(min, max, draws);
    PrefixOf(Result(min, max, draws), n);
  }

  // The ports sendP2PTestMsg tries, from the third port it was told and the interval
  // between the ports seen so far.
  method TestPorts(port3: int, interval: int, draws: nat -> nat) returns (sent: seq<int>)
    ensures interval == 0 ==> sent == []
    ensures interval != 0 ==> |sent| == 51 && sent == Result(port3, port3 + interval * 50, draws)[..51]
    ensures Distinct(sent)
    ensures forall port :: port in sent ==>
      port3 <= port <= port3 + interval * 50 || port3 + interval * 50 <= port <= port3
  {
    sent := [];
    if interval != 0 {
      var ports := GetRandomPortArr(port3, port3 + interval * 50, draws);
      FirstPorts(port3, port3 + interval * 50, draws, 51);
      for i := 0 to 51
        invariant sent == ports[..i]
      {
        sent := sent + [ports[i]];
      }
      assert ports[..51] == ports[..][..51];
    }
  }

  // The 51 indices are in range exactly when the interval is not zero, which the
  // caller checks.
  lemma RangeIsLongEnough(port3: int, interval: int)
    ensures |Initial(port3, port3 + interval * 50)| >= 51 <==> interval != 0
  {
  }
}
