// Virtual hosts: the registry that NewHost and DelHost keep, and the choice of a host
// for a request.
module VirtualHosts {
  import opened Common
  import Text

  const COLON: seq<byte> := [58]
  const STAR: byte := 42
  const SLASH: GoString := [47]
  const ALL: GoString := [97, 108, 108]  // "all"

  datatype Host = Host(host: GoString, location: GoString, scheme: GoString, isClose: bool)

  // Host header, URL scheme and request URI.
  datatype Request = Request(addr: GoString, scheme: GoString, uri: GoString)

  // The registered hosts by id.
  type Hosts = map<int, Host>

  // GetIpByAddr: the part in front of the port.
  function HostName(addr: GoString): GoString {
    Text.Split(addr, COLON)[0]
  }

  function WithoutStars(s: GoString): (t: GoString)
    ensures STAR !in t
    ensures STAR !in s ==> t == s
  {
    if s == [] then [] else (if s[0] == STAR then [] else [s[0]]) + WithoutStars(s[1..])
  }

  // The host is open, of the right scheme, and its name fits.
  predicate Serves(h: Host, q: Request) {
    && !h.isClose
    && (h.scheme == ALL || h.scheme == q.scheme)
    && if STAR in h.host then Text.Contains(HostName(q.addr), WithoutStars(h.host)) else h.host == HostName(q.addr)
  }

  // An empty location stands for "/".
  function Path(h: Host): GoString {
    if h.location == [] then SLASH else h.location
  }

  predicate Matches(h: Host, q: Request) {
    Serves(h, q) && Path(h) <= q.uri
  }

  // A match with a longest location.
  ghost predicate Longest(hosts: Hosts, q: Request, id: int) {
    && id in hosts && Matches(hosts[id], q)
    && forall other :: other in hosts && Matches(hosts[other], q) ==> |Path(hosts[other])| <= |Path(hosts[id])|
  }

  // Of the longest matches, the first on the walk.
  ghost predicate Chosen(hosts: Hosts, order: seq<int>, q: Request, id: int) {
    && Longest(hosts, q, id)
    && exists k :: 0 <= k < |order| && order[k] == id
         && forall j :: 0 <= j < k && order[j] in hosts ==> !Longest(hosts, q, order[j])
  }

  // What a lookup leaves behind: "/" written into the empty locations it looked at.
  function Filled(hosts: Hosts, q: Request): Hosts {
    map id | id in hosts :: if Serves(hosts[id], q) then hosts[id].(location := Path(hosts[id])) else hosts[id]
  }

  // The fields IsHostExist compares.
  predicate Clashes(v: Host, h: Host) {
    v.host == h.host && v.location == h.location && (v.scheme == ALL || v.scheme == h.scheme)
  }

  // NewHost: the registry with h under id, unless an older entry clashes with it.
  function Added(hosts: Hosts, id: int, h: Host): Option<Hosts> {
    var t := h.(location := Path(h));
    if exists v :: v in hosts && v != id && Clashes(hosts[v], t) then None else Some(hosts[id := t])
  }

  // A host is refused exactly if another entry has its name, its location, which is "/" if
  // it is empty, and its scheme or all schemes.
  lemma AddedExactly(hosts: Hosts, id: int, h: Host)
    ensures var location := if h.location == [] then [47] else h.location;
      var clash := exists v ::
                     && v in hosts && v != id && hosts[v].host == h.host && hosts[v].location == location
                     && (hosts[v].scheme == [97, 108, 108] || hosts[v].scheme == h.scheme);
      Added(hosts, id, h) == if clash then None else Some(hosts[id := h.(location := location)])
  {
    var location := if h.location == [] then [47] else h.location;
    if v :| v in hosts && v != id && hosts[v].host == h.host && hosts[v].location == location
            && (hosts[v].scheme == [97, 108, 108] || hosts[v].scheme == h.scheme) {
      assert Clashes(hosts[v], h.(location := location));
    }
  }

  // A lookup fills in "/" where a host that serves the request has no location, and
  // changes nothing else.
  lemma FilledExactly(hosts: Hosts, q: Request, id: int)
    ensures id in Filled(hosts, q) <==> id in hosts
    ensures id in hosts ==>
      Filled(hosts, q)[id]
      == if Serves(hosts[id], q) && hosts[id].location == [] then hosts[id].(location := [47]) else hosts[id]
  {
  }

  class Registry {
    var hosts: Hosts

    method IsHostExist(id: int, h: Host, order: seq<int>) returns (exist: bool)
      requires Walk(hosts, order)
      ensures exist <==> exists v ::
                           && v in hosts && v != id && hosts[v].host == h.host && hosts[v].location == h.location
                           && (hosts[v].scheme == [97, 108, 108] || hosts[v].scheme == h.scheme)
    {
      exist := false;
      for i := 0 to |order|
        invariant !exist
        invariant forall j :: 0 <= j < i ==> !(order[j] != id && Clashes(hosts[order[j]], h))
      {
        assert order[i] in order;
        if order[i] != id && Clashes(hosts[order[i]], h) {
          return true;
        }
      }
    }

    method NewHost(id: int, h: Host, order: seq<int>) returns (ok: bool)
      requires Walk(hosts, order)
      modifies this
      ensures ok <==> Added(old(hosts), id, h).Some?
      ensures hosts == if ok then Added(old(hosts), id, h).value else old(hosts)
    {
      var t := h;
      if t.location == [] {
        t := t.(location := SLASH);
      }
      var exist := IsHostExist(id, t, order);
      if exist {
        return false;
      }
      hosts := hosts[id := t];
      return true;
    }

    method DelHost(id: int)
      modifies this
      ensures hosts == old(hosts) - {id}
    {
      hosts := hosts - {id};
    }

    // The first loop of GetInfoByHost: the hosts that serve the request, in the order
    // of the walk.
    method Candidates(q: Request, order: seq<int>) returns (found: seq<int>)
      requires Walk(hosts, order)
      ensures exists at :: Picks(hosts, order, q, |order|, found, at)
    {
      var name := HostName(q.addr);
      found := [];
      ghost var at: seq<nat> := [];
      for i := 0 to |order|
        invariant Walk(hosts, order) && Picks(hosts, order, q, i, found, at)
      {
        var id := order[i];
        assert id in order;
        NextPick(hosts, order, q, i, found, at);
        var v := hosts[id];
        if v.isClose || (v.scheme != ALL && v.scheme != q.scheme) {
          continue;
        }
        if STAR in v.host {
          if Text.Contains(name, WithoutStars(v.host)) {
            found, at := found + [id], at + [i];
          }
        } else if v.host == name {
          found, at := found + [id], at + [i];
        }
      }
    }

    // The second loop: the first of them with a longest matching location.
    method LongestLocation(q: Request, found: seq<int>) returns (r: Option<int>)
      requires forall id :: id in found ==> id in hosts
      modifies this
      ensures PartlyFilled(old(hosts), hosts, found)
      ensures BestSoFar(old(hosts), found, q, r)
    {
      r := None;
      ghost var done: seq<int> := [];
      for i := 0 to |found|
        invariant done == found[..i]
        invariant PartlyFilled(old(hosts), hosts, done)
        invariant BestSoFar(old(hosts), done, q, r)
      {
        var id := found[i];
        assert id in found;
        NextFilled(old(hosts), hosts, done, id);
        NextBest(old(hosts), done, q, r, id);
        if hosts[id].location == [] {
          hosts := hosts[id := hosts[id].(location := SLASH)];
        }
        assert PartlyFilled(old(hosts), hosts, done + [id]);
        if hosts[id].location <= q.uri {
          if r.None? || |hosts[id].location| > |hosts[r.value].location| {
            r := Some(id);
          }
        }
        done := done + [id];
      }
      assert done == found;
    }

    // An open host of the right scheme and name whose location is a longest matching
    // prefix of the request URI, the first such host on the walk; None, the "could not
    // be parsed" error, exactly when no host matches.
    method GetInfoByHost(q: Request, order: seq<int>) returns (r: Option<int>)
      requires Walk(hosts, order)
      modifies this
      ensures r.None? <==> forall id :: id in old(hosts) ==> !Matches(old(hosts)[id], q)
      ensures r.Some? ==> Chosen(old(hosts), order, q, r.value)
      ensures hosts == Filled(old(hosts), q)
    {
      var found := Candidates(q, order);
      ghost var at :| Picks(hosts, order, q, |order|, found, at);
      FoundAll(hosts, order, q, found, at);
      r := LongestLocation(q, found);
      AllFilled(old(hosts), hosts, q, found);
    }
  }

  // found holds the serving hosts among the first i of the walk, in order; at says where.
  ghost predicate Picks(hosts: Hosts, order: seq<int>, q: Request, i: nat, found: seq<int>, at: seq<nat>) {
    && i <= |order| && |at| == |found|
    && (forall j :: 0 <= j < |found| ==> at[j] < i && found[j] == order[at[j]])
    && (forall j, k :: 0 <= j < k < |found| ==> at[j] < at[k])
    && (forall j :: 0 <= j < |found| ==> found[j] in hosts && Serves(hosts[found[j]], q))
    && (forall k :: 0 <= k < i && order[k] in hosts && Serves(hosts[order[k]], q) ==> k in at)
  }

  lemma NextPick(hosts: Hosts, order: seq<int>, q: Request, i: nat, found: seq<int>, at: seq<nat>)
    requires Picks(hosts, order, q, i, found, at) && i < |order| && order[i] in hosts
    ensures if Serves(hosts[order[i]], q) then Picks(hosts, order, q, i + 1, found + [order[i]], at + [i])
            else Picks(hosts, order, q, i + 1, found, at)
  {
    assert forall k :: k in at ==> k in at + [i];
  }

  ghost predicate PartlyFilled(before: Hosts, hosts: Hosts, done: seq<int>) {
    && hosts.Keys == before.Keys
    && forall id :: id in before ==>
         hosts[id] == if id in done then before[id].(location := Path(before[id])) else before[id]
  }

  lemma AllFilled(before: Hosts, hosts: Hosts, q: Request, found: seq<int>)
    requires PartlyFilled(before, hosts, found)
    requires forall id :: id in before && Serves(before[id], q) <==> id in found
    ensures hosts == Filled(before, q)
  {
    forall id | id in hosts ensures hosts[id] == Filled(before, q)[id] {
      assert id in found <==> Serves(before[id], q);
    }
  }

  lemma NextFilled(before: Hosts, hosts: Hosts, done: seq<int>, id: int)
    requires PartlyFilled(before, hosts, done) && id in before
    ensures var t := if hosts[id].location == [] then SLASH else hosts[id].location;
      t == Path(before[id]) && PartlyFilled(before, hosts[id := hosts[id].(location := t)], done + [id])
    ensures hosts[id].location != [] ==> hosts[id := hosts[id].(location := hosts[id].location)] == hosts
  {
  }

  // The first longest match of done, if there is one.
  ghost predicate BestSoFar(hosts: Hosts, done: seq<int>, q: Request, r: Option<int>) {
    && (forall f :: f in done ==> f in hosts)
    && match r
       case None => forall f :: f in done ==> !(Path(hosts[f]) <= q.uri)
       case Some(id) =>
         && id in done && Path(hosts[id]) <= q.uri
         && (forall f :: f in done && Path(hosts[f]) <= q.uri ==> |Path(hosts[f])| <= |Path(hosts[id])|)
         && exists k :: 0 <= k < |done| && done[k] == id && Shorter(hosts, done[..k], q, id)
  }

  // All matches in done have a shorter location than id.
  ghost predicate Shorter(hosts: Hosts, done: seq<int>, q: Request, id: int)
    requires id in hosts && forall f :: f in done ==> f in hosts
  {
    forall f :: f in done && Path(hosts[f]) <= q.uri ==> |Path(hosts[f])| < |Path(hosts[id])|
  }

  function Better(hosts: Hosts, q: Request, r: Option<int>, id: int): Option<int>
    requires id in hosts && (r.Some? ==> r.value in hosts)
  {
    if Path(hosts[id]) <= q.uri && (r.None? || |Path(hosts[id])| > |Path(hosts[r.value])|) then Some(id) else r
  }

  lemma NextBest(hosts: Hosts, done: seq<int>, q: Request, r: Option<int>, id: int)
    requires BestSoFar(hosts, done, q, r) && id in hosts
    ensures BestSoFar(hosts, done + [id], q, Better(hosts, q, r, id))
  {
    var next := done + [id];
    assert forall f :: f in next <==> f in done || f == id;
    if Better(hosts, q, r, id) == Some(id) && r != Some(id) {
      assert next[..|done|] == done && next[|done|] == id;
      assert Shorter(hosts, next[..|done|], q, id);
    } else if r.Some? {
      var k :| 0 <= k < |done| && done[k] == r.value && Shorter(hosts, done[..k], q, r.value);
      assert next[..k] == done[..k] && next[k] == r.value;
    }
  }

  lemma FoundAll(hosts: Hosts, order: seq<int>, q: Request, found: seq<int>, at: seq<nat>)
    requires Walk(hosts, order) && Picks(hosts, order, q, |order|, found, at)
    ensures forall id :: id in hosts && Serves(hosts[id], q) <==> id in found
    ensures forall id :: BestSoFar(hosts, found, q, Some(id)) ==> Chosen(hosts, order, q, id)
  {
    forall id | id in hosts && Serves(hosts[id], q) ensures id in found {
      var k :| 0 <= k < |order| && order[k] == id;
      assert k in at;
    }
    forall id | BestSoFar(hosts, found, q, Some(id)) ensures Chosen(hosts, order, q, id) {
      FirstIsChosen(hosts, order, q, found, at, id);
    }
  }

  lemma FoundEarlier(hosts: Hosts, order: seq<int>, q: Request, found: seq<int>, at: seq<nat>, k: nat, j: nat)
    requires Picks(hosts, order, q, |order|, found, at) && k < |found| && j < at[k]
    requires order[j] in hosts && Serves(hosts[order[j]], q)
    ensures order[j] in found[..k]
  {
    var l :| 0 <= l < |at| && at[l] == j;
    assert found[..k][l] == found[l];
  }

  lemma FirstIsChosen(hosts: Hosts, order: seq<int>, q: Request, found: seq<int>, at: seq<nat>, id: int)
    requires Walk(hosts, order) && Picks(hosts, order, q, |order|, found, at)
    requires forall id :: id in hosts && Serves(hosts[id], q) <==> id in found
    requires BestSoFar(hosts, found, q, Some(id))
    ensures Chosen(hosts, order, q, id)
  {
    var k :| 0 <= k < |found| && found[k] == id && Shorter(hosts, found[..k], q, id);
    assert Longest(hosts, q, id);
    forall j | 0 <= j < at[k] && order[j] in hosts ensures !Longest(hosts, q, order[j]) {
      if Serves(hosts[order[j]], q) {
        FoundEarlier(hosts, order, q, found, at, k, j);
      }
    }
    assert order[at[k]] == id;
  }

  // ------------------------------------------------------ which hosts fit a request

  // The name is what stands in front of the first ':', or all of it.
  lemma HostNameExactly(addr: GoString)
    ensures var name := HostName(addr);
      58 !in name && (addr == name || exists port :: addr == name + [58] + port)
  {
    var parts := Text.Split(addr, COLON);
    Text.SplitPieces(addr, COLON[0]);
    Text.JoinOfSplit(addr, COLON);
    assert parts[0] in parts;
    if |parts| > 1 {
      assert addr == parts[0] + [58] + Text.Join(parts[1..], COLON);
    }
  }

  // A '*' is left out, wherever it stands; other bytes stay where they are.
  lemma {:induction false} StarLeftOut(a: GoString, b: GoString)
    ensures WithoutStars(a + [42] + b) == WithoutStars(a) + WithoutStars(b)
  {
    var s := a + [42] + b;
    if a == [] {
      assert s[0] == 42 && s[1..] == b;
      assert [] + WithoutStars(b) == WithoutStars(b);
    } else {
      StarLeftOut(a[1..], b);
      assert s[0] == a[0] && s[1..] == a[1..] + [42] + b;
      Associate(if a[0] == 42 then [] else [a[0]], WithoutStars(a[1..]), WithoutStars(b));
    }
  }

  // What has to fit besides the name: the host is open, its scheme is that of the request
  // or stands for all, and its location, "/" if it is empty, begins the URI.
  predicate FitsButName(h: Host, q: Request) {
    && !h.isClose
    && (h.scheme == [97, 108, 108] || h.scheme == q.scheme)
    && (if h.location == [] then [47] else h.location) <= q.uri
  }

  // A host whose name has no '*' takes exactly the requests for that name.
  lemma PlainMatchesExactly(h: Host, q: Request)
    requires 42 !in h.host
    ensures Matches(h, q) <==> FitsButName(h, q) && HostName(q.addr) == h.host
  {
  }

  // A host with one '*' takes exactly the requests whose name holds the rest of its name,
  // with anything before and behind it.
  lemma WildcardMatchesExactly(h: Host, q: Request, front: GoString, back: GoString)
    requires h.host == front + [42] + back && 42 !in front && 42 !in back
    ensures Matches(h, q) <==> FitsButName(h, q) && exists a, b :: HostName(q.addr) == a + (front + back) + b
  {
    StarLeftOut(front, back);
    assert h.host[|front|] == 42;
    Text.ContainsExactly(HostName(q.addr), front + back);
  }

  // A registry that holds nothing else answers such a host, or the error, exactly so.
  lemma OnlyHostAnswers(id: int, h: Host, q: Request, front: GoString, back: GoString)
    requires h.host == front + [42] + back && 42 !in front && 42 !in back
    ensures var hosts := map[id := h];
      var fits := FitsButName(h, q) && exists a, b :: HostName(q.addr) == a + (front + back) + b;
      && (Chosen(hosts, [id], q, id) <==> fits)
      && ((forall k :: k in hosts ==> !Matches(hosts[k], q)) <==> !fits)
  {
    var hosts := map[id := h];
    WildcardMatchesExactly(h, q, front, back);
    assert id in hosts && [id][0] == id;
    assert Longest(hosts, q, id) <==> Matches(h, q);
  }

  // Of the hosts that fit, the answer has a longest location, and those in front of it on
  // the walk have shorter ones; an empty location counts as one byte.
  lemma AnswerIsFirstLongest(hosts: Hosts, order: seq<int>, q: Request, k: nat, j: nat)
    requires Walk(hosts, order) && k < |order| && j < |order| && Chosen(hosts, order, q, order[k])
    requires order[j] in hosts && Matches(hosts[order[j]], q)
    ensures order[k] in hosts && Matches(hosts[order[k]], q)
    ensures var a, b := hosts[order[j]].location, hosts[order[k]].location;
      var m, n := if a == [] then 1 else |a|, if b == [] then 1 else |b|;
      if j < k then m < n else m <= n
  {
    if j < k && !Longest(hosts, q, order[j]) {
      var other :| other in hosts && Matches(hosts[other], q) && |Path(hosts[other])| > |Path(hosts[order[j]])|;
    }
  }

  // ---------------------------------------------------------- the registry over time

  // last: the highest id issued so far (HostIncreaseId).
  datatype State = State(hosts: Hosts, last: int)

  datatype Op = New(h: Host) | Del(id: int) | Lookup(q: Request)

  // New issues an id first, also when the host is then refused.
  function Apply(s: State, op: Op): State {
    match op
    case New(h) =>
      var added := Added(s.hosts, s.last + 1, h);
      State(if added.Some? then added.value else s.hosts, s.last + 1)
    case Del(id) => s.(hosts := s.hosts - {id})
    case Lookup(q) => s.(hosts := Filled(s.hosts, q))
  }

  function Run(ops: seq<Op>): State {
    if ops == [] then State(map[], 0) else Apply(Run(ops[..|ops| - 1]), ops[|ops| - 1])
  }

  predicate SamePlace(a: Host, b: Host) {
    a.host == b.host && a.location == b.location
  }

  // Of two entries with the same host and location, the older is not for all schemes
  // and not for the scheme of the younger.
  ghost predicate AgeOrder(hosts: Hosts) {
    forall a, b :: a in hosts && b in hosts && a < b && SamePlace(hosts[a], hosts[b])
      ==> hosts[a].scheme != ALL && hosts[a].scheme != hosts[b].scheme
  }

  ghost predicate Inv(s: State) {
    && (forall id :: id in s.hosts ==> id <= s.last && s.hosts[id].location != [])
    && AgeOrder(s.hosts)
  }

  lemma AddedInv(s: State, h: Host)
    requires Inv(s)
    ensures Inv(Apply(s, New(h)))
  {
  }

  lemma StepInv(s: State, op: Op)
    requires Inv(s)
    ensures Inv(Apply(s, op))
  {
    match op
    case New(h) => AddedInv(s, h);
    case Del(_) =>
    case Lookup(_) =>
  }

  lemma {:induction false} RunInv(ops: seq<Op>)
    ensures Inv(Run(ops))
  {
    if ops != [] {
      RunInv(ops[..|ops| - 1]);
      StepInv(Run(ops[..|ops| - 1]), ops[|ops| - 1]);
    }
  }

  // Whatever is added, deleted and looked up, (host, location, scheme) stay pairwise
  // distinct, no id is used twice, and an entry for all schemes is the youngest of its
  // host and location.
  lemma TriplesStayDistinct(ops: seq<Op>)
    ensures var hosts := Run(ops).hosts;
      forall a, b :: a in hosts && b in hosts && a != b && SamePlace(hosts[a], hosts[b])
        ==> hosts[a].scheme != hosts[b].scheme && (hosts[a].scheme == ALL ==> b < a)
    ensures Run(ops).last + 1 !in Run(ops).hosts
  {
    RunInv(ops);
  }

  // A walk that starts at a given host.
  lemma WalkFrom(hosts: Hosts, id: int) returns (order: seq<int>)
    requires id in hosts
    ensures Walk(hosts, order) && order != [] && order[0] == id
  {
    var rest := Enumerate(hosts.Keys - {id});
    order := [id] + rest;
    assert forall k :: k in order <==> k == id || k in rest;
  }

  lemma Enumerate(ids: set<int>) returns (order: seq<int>)
    ensures Distinct(order) && forall k :: k in order <==> k in ids
  {
    if id :| id in ids {
      var rest := Enumerate(ids - {id});
      order := [id] + rest;
      assert forall k :: k in order <==> k == id || k in rest;
    } else {
      order := [];
    }
  }

  // Two longest matches.
  ghost predicate Tied(hosts: Hosts, q: Request) {
    exists a, b :: a != b && Longest(hosts, q, a) && Longest(hosts, q, b)
  }

  // Every walk of the map leads to the same answer.
  ghost predicate OrderDoesNotMatter(hosts: Hosts, q: Request) {
    forall order, order', a, b ::
      (Walk(hosts, order) && Walk(hosts, order') && Chosen(hosts, order, q, a) && Chosen(hosts, order', q, b)) ==>
      a == b
  }

  lemma IndependentExactlyWhenNotTied(hosts: Hosts, q: Request)
    ensures OrderDoesNotMatter(hosts, q) <==> !Tied(hosts, q)
  {
    if a, b :| a != b && Longest(hosts, q, a) && Longest(hosts, q, b) {
      var order := WalkFrom(hosts, a);
      var order' := WalkFrom(hosts, b);
      assert Chosen(hosts, order, q, a) && Chosen(hosts, order', q, b);
    }
  }

  // In a registry without "*" hosts, an answer depends on the order in which the map
  // is walked exactly when a longest match for the scheme of the request was joined
  // later by an open entry for all schemes with the same host and location.
  lemma OrderMattersExactlyWhenShadowed(ops: seq<Op>, q: Request)
    requires forall id :: id in Run(ops).hosts ==> STAR !in Run(ops).hosts[id].host
    ensures !OrderDoesNotMatter(Run(ops).hosts, q) <==> Shadowed(Run(ops).hosts, q)
  {
    var hosts := Run(ops).hosts;
    RunInv(ops);
    IndependentExactlyWhenNotTied(hosts, q);
    if a, b :| a != b && Longest(hosts, q, a) && Longest(hosts, q, b) {
      SameLength(hosts[a].location, hosts[b].location, q.uri);
      var older, younger := if a < b then a else b, if a < b then b else a;
      assert hosts[older].scheme != ALL && hosts[older].scheme != hosts[younger].scheme;
      assert Shadow(hosts, q, older, younger);
    }
    if a, b :| Shadow(hosts, q, a, b) {
      assert Longest(hosts, q, b);
    }
  }

  ghost predicate Shadow(hosts: Hosts, q: Request, a: int, b: int) {
    && Longest(hosts, q, a) && hosts[a].scheme == q.scheme
    && b in hosts && a < b && !hosts[b].isClose && hosts[b].scheme == ALL
    && SamePlace(hosts[a], hosts[b])
  }

  ghost predicate Shadowed(hosts: Hosts, q: Request) {
    exists a, b :: Shadow(hosts, q, a, b)
  }

  lemma SameLength(a: GoString, b: GoString, uri: GoString)
    requires a <= uri && b <= uri && |a| == |b|
    ensures a == b
  {
  }

  const HTTP: GoString := [104, 116, 116, 112]  // "http"

  // A run in which the order matters: an entry for http, then the same host and location
  // for all schemes, which NewHost accepts. Either may answer a request for http.
  lemma AllJoinsHttp(name: GoString)
    requires STAR !in name && COLON[0] !in name
    ensures var ops := [New(Host(name, SLASH, HTTP, false)), New(Host(name, SLASH, ALL, false))];
      var q := Request(name, HTTP, SLASH);
      Shadow(Run(ops).hosts, q, 1, 2) && !OrderDoesNotMatter(Run(ops).hosts, q)
  {
    var first, second := Host(name, SLASH, HTTP, false), Host(name, SLASH, ALL, false);
    var ops, q := [New(first), New(second)], Request(name, HTTP, SLASH);
    assert [New(first)][..0] == [] && ops[..1] == [New(first)];
    assert Run([New(first)]) == State(map[1 := first], 1);
    assert first.scheme[0] != second.scheme[0];
    assert Run(ops) == State(map[1 := first, 2 := second], 2);
    Text.SplitNone(name, COLON[0]);
    assert HostName(name) == name;
    assert Matches(first, q) && Matches(second, q);
    assert Longest(Run(ops).hosts, q, 1) && Longest(Run(ops).hosts, q, 2);
    IndependentExactlyWhenNotTied(Run(ops).hosts, q);
  }
}
