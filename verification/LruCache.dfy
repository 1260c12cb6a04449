// The LRU cache: a list of elements in recency order and a map into it.
module LruCache {
  import opened Common

  // ------------------------------------------------------------------------- lists

  function Cut<T>(s: seq<T>, i: nat): seq<T>
    requires i < |s|
  {
    s[..i] + s[i + 1..]
  }

  lemma CutFacts<T>(s: seq<T>, i: nat)
    requires i < |s| && Distinct(s)
    ensures var cut := Cut(s, i);
      && Distinct(cut) && s[i] !in cut
      && Distinct([s[i]] + cut)
      && forall x :: x in s <==> x == s[i] || x in cut
  {
    assert s == s[..i] + [s[i]] + s[i + 1..];
  }

  // ---------------------------------------------------------------- cache contents

  // Any comparable value can be a key, any value can be cached.
  type Key(==, !new)
  type Value(!new)

  datatype Entry = Entry(key: Key, value: Value)

  // The entries, most recently touched first.
  type Contents = seq<Entry>

  function Keys(s: Contents): (ks: seq<Key>)
    ensures |ks| == |s|
  {
    seq(|s|, i requires 0 <= i < |s| => s[i].key)
  }

  function Without(s: Contents, k: Key): Contents {
    if s == [] then []
    else if s[0].key == k then s[1..]
    else [s[0]] + Without(s[1..], k)
  }

  function Find(s: Contents, k: Key): Option<Value> {
    if s == [] then None else if s[0].key == k then Some(s[0].value) else Find(s[1..], k)
  }

  function Evict<T>(s: seq<T>, maxEntries: int): seq<T> {
    if maxEntries != 0 && |s| > maxEntries && s != [] then s[..|s| - 1] else s
  }

  function Added(s: Contents, maxEntries: int, k: Key, v: Value): Contents {
    if Find(s, k).Some? then [Entry(k, v)] + Without(s, k) else Evict([Entry(k, v)] + s, maxEntries)
  }

  function Got(s: Contents, k: Key): Contents {
    if Find(s, k).Some? then [Entry(k, Find(s, k).value)] + Without(s, k) else s
  }

  // -------------------------------------------------------------------- the object

  class Element {
    const key: Key
    var value: Value

    constructor (key: Key, value: Value)
      ensures this.key == key && this.value == value
    {
      this.key, this.value := key, value;
    }
  }

  // The pairs held by a list of elements.
  function Snapshot(es: seq<Element>): (c: Contents)
    reads es
    ensures |c| == |es|
    ensures forall j :: 0 <= j < |es| ==> c[j] == Entry(es[j].key, es[j].value)
  {
    seq(|es|, i requires 0 <= i < |es| reads es => Entry(es[i].key, es[i].value))
  }

  lemma SnapshotConcat(a: seq<Element>, b: seq<Element>)
    ensures Snapshot(a + b) == Snapshot(a) + Snapshot(b)
  {
  }

  lemma SnapshotSlice(es: seq<Element>, i: nat)
    requires i <= |es|
    ensures Snapshot(es[..i]) == Snapshot(es)[..i] && Snapshot(es[i..]) == Snapshot(es)[i..]
  {
  }

  // Cutting a list cuts its snapshot at the same place.
  lemma SnapshotCut(es: seq<Element>, i: nat)
    requires i < |es|
    ensures Snapshot(Cut(es, i)) == Cut(Snapshot(es), i)
    ensures Snapshot([es[i]] + Cut(es, i)) == [Entry(es[i].key, es[i].value)] + Cut(Snapshot(es), i)
  {
    SnapshotSlice(es, i);
    SnapshotSlice(es, i + 1);
    SnapshotConcat(es[..i], es[i + 1..]);
    SnapshotFront(es[i], Cut(es, i));
  }

  lemma SnapshotFront(e: Element, rest: seq<Element>)
    ensures Snapshot([e] + rest) == [Entry(e.key, e.value)] + Snapshot(rest)
  {
    SnapshotConcat([e], rest);
  }

  // List and map agree node for node.
  ghost predicate Agrees(ll: seq<Element>, cache: map<Key, Element>) {
    && Distinct(ll)
    && (forall e :: e in ll ==> e.key in cache && cache[e.key] == e)
    && (forall k :: k in cache ==> cache[k] in ll && cache[k].key == k)
  }

  lemma AgreesMoved(ll: seq<Element>, cache: map<Key, Element>, i: nat)
    requires i < |ll| && Agrees(ll, cache)
    ensures Agrees([ll[i]] + Cut(ll, i), cache)
    ensures forall e :: e in [ll[i]] + Cut(ll, i) <==> e in ll
  {
    CutFacts(ll, i);
  }

  lemma AgreesCut(ll: seq<Element>, cache: map<Key, Element>, i: nat)
    requires i < |ll| && Agrees(ll, cache)
    ensures Agrees(Cut(ll, i), cache - {ll[i].key})
  {
    CutFacts(ll, i);
  }

  lemma AgreesAdded(ll: seq<Element>, cache: map<Key, Element>, e: Element)
    requires Agrees(ll, cache) && e !in ll && e.key !in cache
    ensures Agrees([e] + ll, cache[e.key := e])
  {
  }

  class Cache {
    const maxEntries: int
    var ll: seq<Element>
    var cache: map<Key, Element>

    ghost predicate Valid()
      reads this
    {
      Agrees(ll, cache)
    }

    function Content(): Contents
      reads this, ll
    {
      Snapshot(ll)
    }

    constructor (maxEntries: int)
      ensures Valid() && Content() == [] && this.maxEntries == maxEntries
    {
      this.maxEntries := maxEntries;
      ll, cache := [], map[];
    }

    // Where a key's element sits, and what the list without it contains.
    lemma Locate(i: nat)
      requires Valid() && i < |ll|
      ensures Find(Content(), ll[i].key) == Some(ll[i].value)
      ensures Without(Content(), ll[i].key) == Cut(Content(), i)
    {
      var k := ll[i].key;
      forall j | 0 <= j < i ensures Content()[j].key != k {
        assert ll[j] in ll && ll[i] in ll;
      }
      FindAt(Content(), i);
    }

    lemma LocateMiss(k: Key)
      requires Valid() && k !in cache
      ensures Find(Content(), k) == None && Without(Content(), k) == Content()
    {
      forall j | 0 <= j < |ll| ensures Content()[j].key != k {
        assert ll[j] in ll;
      }
      FindNone(Content(), k);
    }

    // The list with one element moved to its front.
    lemma Moved(i: nat)
      requires Valid() && i < |ll|
      ensures var e, moved := ll[i], [ll[i]] + Cut(ll, i);
        && Agrees(moved, cache) && (forall x :: x in moved <==> x in ll)
        && Find(Content(), e.key) == Some(e.value)
        && Snapshot(moved) == [Entry(e.key, e.value)] + Without(Content(), e.key)
    {
      Locate(i);
      AgreesMoved(ll, cache, i);
      SnapshotCut(ll, i);
    }

    // container/list: move an element of the list to its front.
    method MoveToFront(e: Element)
      requires Valid() && e in ll
      modifies this`ll
      ensures Valid() && ll != [] && ll[0] == e
      ensures Find(old(Content()), e.key) == Some(e.value)
      ensures Content() == [Entry(e.key, e.value)] + Without(old(Content()), e.key)
      ensures forall x :: x in ll <==> x in old(ll)
    {
      var i :| 0 <= i < |ll| && ll[i] == e;
      Moved(i);
      ll := [e] + Cut(ll, i);
    }

    method RemoveElement(e: Element)
      requires Valid() && e in ll
      modifies this
      ensures Valid() && cache == old(cache) - {e.key}
      ensures Content() == Without(old(Content()), e.key)
    {
      var i :| 0 <= i < |ll| && ll[i] == e;
      Locate(i);
      AgreesCut(ll, cache, i);
      SnapshotCut(ll, i);
      ll := Cut(ll, i);
      cache := cache - {e.key};
    }

    method RemoveOldest()
      requires Valid()
      modifies this
      ensures Valid()
      ensures Content() == if old(Content()) == [] then [] else old(Content())[..|old(Content())| - 1]
    {
      if |ll| > 0 {
        Locate(|ll| - 1);
        RemoveElement(ll[|ll| - 1]);
      }
    }

    // A new element at the front, entered in the map.
    method PushFront(key: Key, value: Value)
      requires Valid() && key !in cache
      modifies this
      ensures Valid()
      ensures Content() == [Entry(key, value)] + old(Content())
    {
      var ele := new Element(key, value);
      AgreesAdded(ll, cache, ele);
      SnapshotFront(ele, ll);
      ll := [ele] + ll;
      cache := cache[key := ele];
    }

    // Overwrite the value of the front element.
    method SetFront(value: Value)
      requires Valid() && ll != []
      modifies ll[0]
      ensures Valid()
      ensures Content() == [Entry(ll[0].key, value)] + old(Content())[1..]
    {
      ghost var rest := ll[1..];
      assert ll == [ll[0]] + rest;
      SnapshotFront(ll[0], rest);
      ll[0].value := value;
      SnapshotFront(ll[0], rest);
    }

    method Add(key: Key, value: Value)
      requires Valid()
      modifies this, ll
      ensures Valid()
      ensures Content() == Added(old(Content()), maxEntries, key, value)
    {
      if key in cache {
        MoveToFront(cache[key]);
        SetFront(value);
        return;
      }
      LocateMiss(key);
      PushFront(key, value);
      if maxEntries != 0 && |ll| > maxEntries {
        RemoveOldest();
      }
    }

    method Get(key: Key) returns (value: Option<Value>)
      requires Valid()
      modifies this
      ensures Valid()
      ensures value == Find(old(Content()), key)
      ensures Content() == Got(old(Content()), key)
    {
      if key in cache {
        MoveToFront(cache[key]);
        return Some(cache[key].value);
      }
      LocateMiss(key);
      return None;
    }

    method Remove(key: Key)
      requires Valid()
      modifies this
      ensures Valid()
      ensures Content() == Without(old(Content()), key)
      ensures Find(Content(), key) == None
    {
      if key in cache {
        RemoveElement(cache[key]);
      }
      LocateMiss(key);
    }

    method Len() returns (n: nat)
      ensures n == |Content()|
    {
      return |ll|;
    }
  }

  lemma {:induction false} FindAt(s: Contents, i: nat)
    requires i < |s| && forall j :: 0 <= j < i ==> s[j].key != s[i].key
    ensures Find(s, s[i].key) == Some(s[i].value)
    ensures Without(s, s[i].key) == Cut(s, i)
  {
    if i > 0 {
      FindAt(s[1..], i - 1);
      assert s[..i] == [s[0]] + s[1..][..i - 1];
    }
  }

  lemma {:induction false} FindNone(s: Contents, k: Key)
    requires forall j :: 0 <= j < |s| ==> s[j].key != k
    ensures Find(s, k) == None && Without(s, k) == s
  {
    if s != [] {
      FindNone(s[1..], k);
    }
  }

  // ------------------------------------------------------------------ access history

  datatype Op = Add(k: Key, v: Value) | Get(k: Key)

  // The contents after a history of calls on a fresh cache.
  function Run(ops: seq<Op>, n: int): Contents {
    if ops == [] then []
    else
      var s := Run(ops[..|ops| - 1], n);
      match ops[|ops| - 1]
      case Add(k, v) => Added(s, n, k, v)
      case Get(k) => Got(s, k)
  }

  function Drop(ks: seq<Key>, k: Key): seq<Key> {
    if ks == [] then [] else if ks[0] == k then ks[1..] else [ks[0]] + Drop(ks[1..], k)
  }

  // The distinct keys of a touch sequence, latest touch first.
  function MostRecent(touches: seq<Key>): seq<Key> {
    if touches == [] then []
    else
      var k := touches[|touches| - 1];
      [k] + Drop(MostRecent(touches[..|touches| - 1]), k)
  }

  // The first n keys; 0 is no limit, and a negative limit keeps nothing.
  function Top(ks: seq<Key>, n: int): seq<Key> {
    if n == 0 || |ks| <= n then ks else if n < 0 then [] else ks[..n]
  }

  // The keys touched by a history: every Add, and every Get of a key that is among
  // the n most recently touched ones. This looks at the history alone.
  function Touches(ops: seq<Op>, n: int): seq<Key> {
    if ops == [] then []
    else
      var t := Touches(ops[..|ops| - 1], n);
      var op := ops[|ops| - 1];
      if op.Add? || op.k in Top(MostRecent(t), n) then t + [op.k] else t
  }

  // The value of the latest Add of k.
  function LastAdded(ops: seq<Op>, k: Key): Option<Value> {
    if ops == [] then None
    else
      var op := ops[|ops| - 1];
      if op.Add? && op.k == k then Some(op.v) else LastAdded(ops[..|ops| - 1], k)
  }

  lemma {:induction false} DropMembers(ks: seq<Key>, k: Key)
    requires Distinct(ks)
    ensures Distinct(Drop(ks, k))
    ensures forall x :: x in Drop(ks, k) <==> x in ks && x != k
  {
    if ks != [] {
      DropMembers(ks[1..], k);
      assert forall x :: x in ks <==> x == ks[0] || x in ks[1..];
      if ks[0] != k {
        assert ks[0] !in ks[1..];
      }
    }
  }

  lemma {:induction false} MostRecentDistinct(t: seq<Key>)
    ensures Distinct(MostRecent(t))
    ensures forall x :: x in MostRecent(t) <==> x in t
  {
    if t != [] {
      var before := t[..|t| - 1];
      MostRecentDistinct(before);
      var k := t[|t| - 1];
      var rest := Drop(MostRecent(before), k);
      DropMembers(MostRecent(before), k);
      assert MostRecent(t) == [k] + rest && k !in rest;
      assert t == before + [t[|t| - 1]];
    }
  }

  lemma {:induction false} KeysWithout(s: Contents, k: Key)
    ensures Keys(Without(s, k)) == Drop(Keys(s), k)
    ensures Find(s, k).Some? <==> k in Keys(s)
  {
    if s != [] {
      KeysWithout(s[1..], k);
      assert Keys(s) == [s[0].key] + Keys(s[1..]);
      if s[0].key != k {
        assert Keys(Without(s, k)) == [s[0].key] + Keys(Without(s[1..], k));
      }
    }
  }

  lemma {:induction false} DropPrefix(ks: seq<Key>, k: Key, n: nat)
    requires n <= |ks|
    ensures |Drop(ks, k)| >= |ks| - 1
    ensures k in ks[..n] ==> n > 0 && Drop(ks[..n], k) == Drop(ks, k)[..n - 1] && |Drop(ks, k)| == |ks| - 1
    ensures k !in ks[..n] && n > 0 ==> Drop(ks, k)[..n - 1] == ks[..n - 1]
  {
    if ks != [] {
      DropPrefix(ks[1..], k, if n > 0 then n - 1 else 0);
      if n > 0 {
        assert ks[..n] == [ks[0]] + ks[1..][..n - 1];
        if n > 1 {
          assert ks[..n - 1] == [ks[0]] + ks[1..][..n - 2];
        }
      }
    }
  }

  // Touching a key that is in the window, or adding one that is not, moves the
  // window of the n most recent keys along.
  lemma TopTouch(r: seq<Key>, k: Key, n: int)
    requires Distinct(r)
    ensures k in Top(r, n) ==> [k] + Drop(Top(r, n), k) == Top([k] + Drop(r, k), n)
    ensures k !in Top(r, n) ==> Evict([k] + Top(r, n), n) == Top([k] + Drop(r, k), n)
  {
    DropMembers(r, k);
    if 0 < n < |r| {
      DropPrefix(r, k, n);
      if k in r[..n] {
        assert ([k] + Drop(r, k))[..n] == [k] + Drop(r, k)[..n - 1];
      } else {
        assert ([k] + Drop(r, k))[..n] == [k] + Drop(r, k)[..n - 1];
        assert ([k] + r[..n])[..n] == [k] + r[..n - 1];
      }
    } else {
      if k !in r {
        DropAbsent(r, k);
      }
      DropPrefix(r, k, |r|);
      assert r[..|r|] == r;
      if n == |r| && k !in r {
        assert ([k] + r)[..n] == ([k] + r)[..|[k] + r| - 1];
      }
    }
  }

  lemma {:induction false} DropAbsent(ks: seq<Key>, k: Key)
    requires k !in ks
    ensures Drop(ks, k) == ks
  {
    if ks != [] {
      DropAbsent(ks[1..], k);
    }
  }

  lemma KeysCons(k: Key, v: Value, s: Contents, n: int)
    ensures Keys([Entry(k, v)] + s) == [k] + Keys(s)
    ensures Keys(Evict([Entry(k, v)] + s, n)) == Evict([k] + Keys(s), n)
  {
    assert Keys([Entry(k, v)] + s) == [k] + Keys(s);
    var t := [Entry(k, v)] + s;
    assert Keys(t[..|t| - 1]) == Keys(t)[..|t| - 1];
  }

  // One operation on a cache whose keys are the window of r moves the window along.
  lemma OpMovesWindow(s: Contents, r: seq<Key>, op: Op, n: int)
    requires Distinct(r) && Keys(s) == Top(r, n)
    ensures op.Add? ==> Keys(Added(s, n, op.k, op.v)) == Top([op.k] + Drop(r, op.k), n)
    ensures op.Get? && op.k in Top(r, n) ==> Keys(Got(s, op.k)) == Top([op.k] + Drop(r, op.k), n)
    ensures op.Get? && op.k !in Top(r, n) ==> Got(s, op.k) == s
  {
    KeysWithout(s, op.k);
    TopTouch(r, op.k, n);
    if Find(s, op.k).Some? {
      KeysCons(op.k, if op.Add? then op.v else Find(s, op.k).value, Without(s, op.k), n);
    } else if op.Add? {
      KeysCons(op.k, op.v, s, n);
    }
  }

  // The cache holds exactly the n most recently touched keys, in recency order.
  lemma {:induction false} HoldsMostRecent(ops: seq<Op>, n: int)
    ensures Keys(Run(ops, n)) == Top(MostRecent(Touches(ops, n)), n)
  {
    if ops != [] {
      var before := ops[..|ops| - 1];
      var op := ops[|ops| - 1];
      HoldsMostRecent(before, n);
      var t := Touches(before, n);
      MostRecentDistinct(t);
      OpMovesWindow(Run(before, n), MostRecent(t), op, n);
      assert (t + [op.k])[..|t|] == t;
      assert MostRecent(t + [op.k]) == [op.k] + Drop(MostRecent(t), op.k);
    }
  }

  lemma {:induction false} FindWithout(s: Contents, k: Key, x: Key)
    requires x != k
    ensures Find(Without(s, k), x) == Find(s, x)
  {
    if s != [] {
      FindWithout(s[1..], k, x);
    }
  }

  lemma {:induction false} FindPrefix(s: Contents, m: nat, x: Key)
    requires m <= |s|
    ensures Find(s[..m], x) == None || Find(s[..m], x) == Find(s, x)
  {
    if s != [] && m > 0 {
      FindPrefix(s[1..], m - 1, x);
      assert s[..m][1..] == s[1..][..m - 1];
    }
  }

  // Every cached value is the one added last for its key.
  lemma {:induction false} HoldsLastAdded(ops: seq<Op>, n: int, x: Key)
    ensures Find(Run(ops, n), x) == None || Find(Run(ops, n), x) == LastAdded(ops, x)
  {
    if ops != [] {
      var before := ops[..|ops| - 1];
      var op := ops[|ops| - 1];
      HoldsLastAdded(before, n, x);
      var s := Run(before, n);
      if x != op.k {
        FindWithout(s, op.k, x);
      }
      match op
      case Add(k, v) =>
        assert ([Entry(k, v)] + s)[1..] == s;
        assert ([Entry(k, v)] + Without(s, k))[1..] == Without(s, k);
        FindPrefix([Entry(k, v)] + s, |s|, x);
      case Get(k) =>
        if Find(s, k).Some? {
          assert ([Entry(k, Find(s, k).value)] + Without(s, k))[1..] == Without(s, k);
        }
    }
  }

  // The distinct keys touched after the last touch of k.
  function TouchedSince(t: seq<Key>, k: Key): set<Key> {
    if t == [] || t[|t| - 1] == k then {}
    else {t[|t| - 1]} + TouchedSince(t[..|t| - 1], k)
  }

  function Position(ks: seq<Key>, k: Key): nat {
    if ks == [] || ks[0] == k then 0 else 1 + Position(ks[1..], k)
  }

  lemma {:induction false} PositionFinds(ks: seq<Key>, k: Key)
    ensures Position(ks, k) <= |ks|
    ensures k !in ks[..Position(ks, k)]
    ensures Position(ks, k) < |ks| ==> ks[Position(ks, k)] == k
  {
    if ks != [] && ks[0] != k {
      PositionFinds(ks[1..], k);
      var p := Position(ks[1..], k);
      assert ks[..p + 1] == [ks[0]] + ks[1..][..p];
    }
  }

  // Dropping x keeps, in front of another key k, everything but x.
  lemma {:induction false} DropBefore(ks: seq<Key>, x: Key, k: Key)
    requires Distinct(ks) && x != k
    ensures var p := Position(Drop(ks, x), k);
      && p <= |Drop(ks, x)| && Position(ks, k) <= |ks|
      && forall y :: y in Drop(ks, x)[..p] <==> y in ks[..Position(ks, k)] && y != x
  {
    PositionFinds(ks, k);
    PositionFinds(Drop(ks, x), k);
    if ks != [] && ks[0] != k {
      var rest := ks[1..];
      DropBefore(rest, x, k);
      BehindFirst(ks, k);
      if ks[0] == x {
        PositionFinds(rest, k);
        assert x !in rest[..Position(rest, k)];
        DropAbsent(rest, x);
      } else {
        assert Drop(ks, x)[1..] == Drop(rest, x);
        BehindFirst(Drop(ks, x), k);
      }
    }
  }

  // What stands in front of k, from what does so behind the first key.
  lemma BehindFirst(ks: seq<Key>, k: Key)
    requires ks != [] && ks[0] != k
    ensures Position(ks, k) <= |ks| && Position(ks[1..], k) <= |ks[1..]|
    ensures forall y :: y in ks[..Position(ks, k)] <==> y == ks[0] || y in ks[1..][..Position(ks[1..], k)]
  {
    PositionFinds(ks[1..], k);
    var p := Position(ks[1..], k);
    assert ks[..p + 1] == [ks[0]] + ks[1..][..p];
  }

  // A touched key has, in front of it, exactly the keys touched since.
  lemma {:induction false} RecencyIsReuseDistance(t: seq<Key>, k: Key)
    requires k in t
    ensures var p := Position(MostRecent(t), k);
      && p < |MostRecent(t)|
      && forall y :: y in MostRecent(t)[..p] <==> y in TouchedSince(t, k)
  {
    var r := MostRecent(t);
    MostRecentDistinct(t);
    PositionFinds(r, k);
    var x := t[|t| - 1];
    var before := t[..|t| - 1];
    assert t == before + [x];
    if x != k {
      RecencyIsReuseDistance(before, k);
      MostRecentDistinct(before);
      var rest := Drop(MostRecent(before), x);
      DropBefore(MostRecent(before), x, k);
      PositionFinds(rest, k);
      var q := Position(rest, k);
      assert r == [x] + rest && r[1..] == rest;
      assert Position(r, k) == q + 1;
      assert r[..q + 1] == [x] + rest[..q];
      assert TouchedSince(t, k) == {x} + TouchedSince(before, k);
    }
  }

  lemma {:induction false} DistinctCardinality(ks: seq<Key>, s: set<Key>)
    requires Distinct(ks)
    requires forall y :: y in ks <==> y in s
    ensures |s| == |ks|
  {
    if ks == [] {
      assert s == {};
    } else {
      var rest := ks[1..];
      assert ks == [ks[0]] + rest;
      DistinctCardinality(rest, s - {ks[0]});
    }
  }

  // Of a list, the first n hold k when fewer than n stand in front of it.
  lemma InTop(ks: seq<Key>, n: int, k: Key)
    requires n >= 0 && Position(ks, k) < |ks|
    ensures k in Top(ks, n) <==> n == 0 || Position(ks, k) < n
  {
    var p := Position(ks, k);
    PositionFinds(ks, k);
    if 0 < n <= p {
      assert ks[..n] == ks[..p][..n];
    } else {
      assert Top(ks, n)[p] == k;
    }
  }

  // The history theorem: after any history, a key is cached exactly when it was
  // touched and fewer than n distinct keys were touched since (n == 0: no limit);
  // what is cached for it is the value added last.
  lemma CachedExactlyWhenRecent(ops: seq<Op>, n: int, k: Key)
    requires n >= 0
    ensures var t := Touches(ops, n);
      Find(Run(ops, n), k) ==
        if k in t && (n == 0 || |TouchedSince(t, k)| < n) then LastAdded(ops, k) else None
  {
    var t := Touches(ops, n);
    var r := MostRecent(t);
    HoldsMostRecent(ops, n);
    HoldsLastAdded(ops, n, k);
    KeysWithout(Run(ops, n), k);
    MostRecentDistinct(t);
    if k in t {
      RecencyIsReuseDistance(t, k);
      InTop(r, n, k);
      DistinctCardinality(r[..Position(r, k)], TouchedSince(t, k));
    }
  }
}
