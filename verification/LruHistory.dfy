// What the LRU cache holds after a history that also removes keys. A removal leaves a
// free place, so the reuse distance alone no longer decides; how far a key has been
// pushed back at every moment since it was touched does.
module LruHistory {
  import opened Common
  import opened LruCache

  datatype Call = CallAdd(k: Key, v: Value) | CallGet(k: Key) | CallRemove(k: Key)

  // The contents after a history of calls on a fresh cache.
  function After(calls: seq<Call>, n: int): Contents {
    if calls == [] then []
    else
      var s := After(calls[..|calls| - 1], n);
      match calls[|calls| - 1]
      case CallAdd(k, v) => Added(s, n, k, v)
      case CallGet(k) => Got(s, k)
      case CallRemove(k) => Without(s, k)
  }

  // By the history alone: k is held if its last touch was not undone by a removal, and
  // at no moment since have n other keys been ahead of it.
  predicate Held(calls: seq<Call>, n: nat, k: Key)
    decreases |calls|, 1
  {
    calls != [] &&
    var before, call := calls[..|calls| - 1], calls[|calls| - 1];
    if call.k == k then call.CallAdd? || (call.CallGet? && Held(before, n, k))
    else Held(before, n, k) && (n == 0 || |Ahead(calls, n, k)| < n)
  }

  // A call touches its key: every Add, and every Get of a key that is held.
  predicate Touches(before: seq<Call>, n: nat, call: Call)
    decreases |before|, 2
  {
    call.CallAdd? || (call.CallGet? && Held(before, n, call.k))
  }

  // The other keys touched since k was, and not removed since they were.
  function Ahead(calls: seq<Call>, n: nat, k: Key): set<Key>
    decreases |calls|, 0
  {
    if calls == [] then {}
    else
      var before, call := calls[..|calls| - 1], calls[|calls| - 1];
      if call.k == k then (if Touches(before, n, call) then {} else Ahead(before, n, k))
      else if Touches(before, n, call) then Ahead(before, n, k) + {call.k}
      else if call.CallRemove? then Ahead(before, n, k) - {call.k}
      else Ahead(before, n, k)
  }

  function LastValue(calls: seq<Call>, k: Key): Option<Value> {
    if calls == [] then None
    else
      var call := calls[|calls| - 1];
      if call.CallAdd? && call.k == k then Some(call.v) else LastValue(calls[..|calls| - 1], k)
  }

  // The keys in front of k.
  function InFront(ks: seq<Key>, k: Key): seq<Key> {
    var p := Position(ks, k);
    if p <= |ks| then ks[..p] else ks
  }

  lemma InFrontFacts(ks: seq<Key>, k: Key)
    ensures Position(ks, k) <= |ks| && InFront(ks, k) == ks[..Position(ks, k)] && k !in InFront(ks, k)
    ensures k in ks <==> Position(ks, k) < |ks|
    ensures k in ks ==> ks[Position(ks, k)] == k
  {
    PositionFinds(ks, k);
  }

  // A key comes to the front.
  lemma FrontTouched(ks: seq<Key>, x: Key, k: Key)
    requires Distinct(ks)
    ensures InFront([x] + Drop(ks, x), x) == []
    ensures k != x ==> forall y :: y in InFront([x] + Drop(ks, x), k) <==> y == x || y in InFront(ks, k)
  {
    var moved := [x] + Drop(ks, x);
    assert moved[1..] == Drop(ks, x);
    if k != x {
      DropBefore(ks, x, k);
      InFrontFacts(ks, k);
      InFrontFacts(Drop(ks, x), k);
      var p := Position(Drop(ks, x), k);
      assert Position(moved, k) == p + 1;
      assert moved[..p + 1] == [x] + Drop(ks, x)[..p];
    }
  }

  lemma FrontDropped(ks: seq<Key>, x: Key, k: Key)
    requires Distinct(ks) && k != x
    ensures forall y :: y in InFront(Drop(ks, x), k) <==> y in InFront(ks, k) && y != x
  {
    DropBefore(ks, x, k);
    InFrontFacts(ks, k);
    InFrontFacts(Drop(ks, x), k);
  }

  // Cutting off the tail leaves what is in front of the keys that stay.
  lemma {:induction false} FrontCut(ks: seq<Key>, m: nat, k: Key)
    requires m <= |ks|
    ensures k in ks[..m] <==> Position(ks, k) < m
    ensures k in ks[..m] ==> InFront(ks[..m], k) == InFront(ks, k)
  {
    InFrontFacts(ks, k);
    InFrontFacts(ks[..m], k);
    if ks != [] && m > 0 && ks[0] != k {
      FrontCut(ks[1..], m - 1, k);
      assert ks[1..][..m - 1] == ks[..m][1..];
      assert ks[..m] == [ks[0]] + ks[..m][1..];
    }
    if Position(ks, k) < m {
      assert ks[..m][Position(ks, k)] == k;
    }
  }

  // The keys of a cache are those held, each behind the keys ahead of it.
  ghost predicate Ordered(ks: seq<Key>, calls: seq<Call>, n: nat, k: Key) {
    && (k in ks <==> Held(calls, n, k))
    && (k in ks ==> forall y :: y in InFront(ks, k) <==> y in Ahead(calls, n, k))
  }

  lemma AheadCount(ks: seq<Key>, calls: seq<Call>, n: nat, k: Key)
    requires Distinct(ks) && k in ks
    requires forall y :: y in InFront(ks, k) <==> y in Ahead(calls, n, k)
    ensures |Ahead(calls, n, k)| == Position(ks, k) < |ks|
  {
    InFrontFacts(ks, k);
    DistinctCardinality(InFront(ks, k), Ahead(calls, n, k));
  }

  // The keys after one call.
  function NextKeys(ks: seq<Key>, n: nat, call: Call): seq<Key> {
    match call
    case CallAdd(x, _) => if x in ks then [x] + Drop(ks, x) else Evict([x] + ks, n)
    case CallGet(x) => if x in ks then [x] + Drop(ks, x) else ks
    case CallRemove(x) => Drop(ks, x)
  }

  lemma KeysAfterCall(s: Contents, n: nat, call: Call)
    ensures Keys(match call
                 case CallAdd(x, v) => Added(s, n, x, v)
                 case CallGet(x) => Got(s, x)
                 case CallRemove(x) => Without(s, x)) == NextKeys(Keys(s), n, call)
  {
    KeysWithout(s, call.k);
    if Find(s, call.k).Some? && !call.CallRemove? {
      KeysCons(call.k, if call.CallAdd? then call.v else Find(s, call.k).value, Without(s, call.k), n);
    } else if call.CallAdd? {
      KeysCons(call.k, call.v, s, n);
    }
  }

  // The same keys, the called key in front or gone; what is cut off comes later.
  function Moved(ks: seq<Key>, call: Call): seq<Key> {
    if call.CallRemove? then Drop(ks, call.k)
    else if call.CallAdd? || call.k in ks then [call.k] + Drop(ks, call.k)
    else ks
  }

  // One call keeps, of every other key, what is ahead of it.
  lemma CallMoves(ks: seq<Key>, calls: seq<Call>, n: nat, k: Key)
    requires calls != [] && Distinct(ks)
    requires var before := calls[..|calls| - 1];
      Ordered(ks, before, n, k) && Ordered(ks, before, n, calls[|calls| - 1].k)
    ensures var call, ks' := calls[|calls| - 1], Moved(ks, calls[|calls| - 1]);
      && Distinct(ks')
      && (k in ks' <==> if call.k == k then call.CallAdd? || (call.CallGet? && k in ks) else k in ks)
      && (k in ks' ==> forall y :: y in InFront(ks', k) <==> y in Ahead(calls, n, k))
  {
    var call := calls[|calls| - 1];
    DropMembers(ks, call.k);
    FrontTouched(ks, call.k, k);
    if call.k != k {
      FrontDropped(ks, call.k, k);
    }
  }

  // Cutting off the last key cuts off exactly the one with n keys ahead.
  lemma CallOrders(ks: seq<Key>, calls: seq<Call>, n: nat, k: Key)
    requires calls != [] && Distinct(ks) && (n == 0 || |ks| <= n)
    requires var before := calls[..|calls| - 1];
      Ordered(ks, before, n, k) && Ordered(ks, before, n, calls[|calls| - 1].k)
    ensures var ks' := NextKeys(ks, n, calls[|calls| - 1]);
      Ordered(ks', calls, n, k) && Distinct(ks') && (n == 0 || |ks'| <= n)
  {
    var call := calls[|calls| - 1];
    var moved, ks' := Moved(ks, call), NextKeys(ks, n, call);
    CallMoves(ks, calls, n, k);
    DropMembers(ks, call.k);
    MovedLength(ks, call);
    if k in moved {
      AheadCount(moved, calls, n, k);
    }
    if ks' != moved {
      assert moved == [call.k] + ks by {
        DropAbsent(ks, call.k);
      }
      FrontCut(moved, n, k);
      assert ks' == moved[..n];
    }
  }

  lemma {:induction false} DropLength(ks: seq<Key>, x: Key)
    ensures |Drop(ks, x)| == |ks| - if x in ks then 1 else 0
  {
    if ks != [] && ks[0] != x {
      DropLength(ks[1..], x);
    }
  }

  lemma MovedLength(ks: seq<Key>, call: Call)
    ensures |Moved(ks, call)| <= |ks| + 1
    ensures call.k in ks || !call.CallAdd? ==> |Moved(ks, call)| <= |ks| && Moved(ks, call) == NextKeys(ks, 0, call)
    ensures call.CallAdd? && call.k !in ks ==> Moved(ks, call) == [call.k] + ks
  {
    DropLength(ks, call.k);
    if call.k !in ks {
      DropAbsent(ks, call.k);
    }
  }

  lemma {:induction false} KeysAreHeld(calls: seq<Call>, n: nat, k: Key)
    ensures var ks := Keys(After(calls, n)); Ordered(ks, calls, n, k) && Distinct(ks) && (n == 0 || |ks| <= n)
  {
    if calls != [] {
      var before, call := calls[..|calls| - 1], calls[|calls| - 1];
      KeysAreHeld(before, n, k);
      KeysAreHeld(before, n, call.k);
      KeysAfterCall(After(before, n), n, call);
      CallOrders(Keys(After(before, n)), calls, n, k);
    }
  }

  lemma {:induction false} ValueIsLastAdded(calls: seq<Call>, n: nat, x: Key)
    ensures Find(After(calls, n), x) == None || Find(After(calls, n), x) == LastValue(calls, x)
  {
    if calls != [] {
      var before, call := calls[..|calls| - 1], calls[|calls| - 1];
      var s := After(before, n);
      ValueIsLastAdded(before, n, x);
      KeysAreHeld(before, n, x);
      if x != call.k {
        FindWithout(s, call.k, x);
      }
      match call
      case CallAdd(k, v) =>
        assert ([Entry(k, v)] + s)[1..] == s;
        assert ([Entry(k, v)] + Without(s, k))[1..] == Without(s, k);
        FindPrefix([Entry(k, v)] + s, |s|, x);
      case CallGet(k) =>
        if Find(s, k).Some? {
          assert ([Entry(k, Find(s, k).value)] + Without(s, k))[1..] == Without(s, k);
        }
      case CallRemove(k) =>
        if x == k {
          KeysAfterCall(s, n, call);
          KeysWithout(Without(s, k), k);
          DropMembers(Keys(s), k);
        }
    }
  }

  // The history theorem with removals: a lookup finds the value added last for exactly
  // the keys that are held, and in front of each stand exactly the keys ahead of it.
  lemma CachedExactlyWhenHeld(calls: seq<Call>, n: nat, k: Key)
    ensures Find(After(calls, n), k) == if Held(calls, n, k) then LastValue(calls, k) else None
    ensures Held(calls, n, k) ==> |Ahead(calls, n, k)| == Position(Keys(After(calls, n)), k)
  {
    KeysAreHeld(calls, n, k);
    ValueIsLastAdded(calls, n, k);
    KeysWithout(After(calls, n), k);
    if Held(calls, n, k) {
      AheadCount(Keys(After(calls, n)), calls, n, k);
    }
  }
}
