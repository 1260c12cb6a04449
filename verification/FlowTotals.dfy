// Traffic totals: how the counters of hosts and tasks add up to those of the clients
// and of the dashboard.
module FlowTotals {
  import opened Common

  datatype Flow = Flow(inlet: int, outlet: int)

  // Both counters are treated alike.
  datatype Direction = In | Out

  function Part(f: Flow, d: Direction): int {
    if d.In? then f.inlet else f.outlet
  }

  // A host or a task: the id of its client and its own counters.
  datatype Owned = Owned(client: int, flow: Flow)

  datatype Client = Client(isConnect: bool, flow: Flow)

  ghost predicate Within<R>(m: map<int, R>, order: seq<int>) {
    forall i :: 0 <= i < |order| ==> order[i] in m
  }

  lemma WalkIsWithin<R>(m: map<int, R>, order: seq<int>)
    requires Walk(m, order)
    ensures Within(m, order)
  {
    forall i | 0 <= i < |order| ensures order[i] in m {
      var id := order[i];
      assert id in order;
    }
  }

  // What the entries of one client among those in order have counted.
  function CountedFor(m: map<int, Owned>, order: seq<int>, client: int, d: Direction): int {
    if order == [] then 0
    else
      var id := order[|order| - 1];
      CountedFor(m, order[..|order| - 1], client, d)
      + if id in m && m[id].client == client then Part(m[id].flow, d) else 0
  }

  // What the entries in order whose client is one of clients have counted.
  function CountedIn(m: map<int, Owned>, order: seq<int>, clients: set<int>, d: Direction): int {
    if order == [] then 0
    else
      var id := order[|order| - 1];
      CountedIn(m, order[..|order| - 1], clients, d)
      + if id in m && m[id].client in clients then Part(m[id].flow, d) else 0
  }

  // The sum of the clients' totals.
  function ClientSum(m: map<int, Client>, order: seq<int>, d: Direction): int {
    if order == [] then 0
    else
      var id := order[|order| - 1];
      ClientSum(m, order[..|order| - 1], d) + if id in m then Part(m[id].flow, d) else 0
  }

  function TotalFor(hosts: map<int, Owned>, hostOrder: seq<int>, tasks: map<int, Owned>, taskOrder: seq<int>,
      client: int): Flow
  {
    Flow(CountedFor(hosts, hostOrder, client, In) + CountedFor(tasks, taskOrder, client, In),
         CountedFor(hosts, hostOrder, client, Out) + CountedFor(tasks, taskOrder, client, Out))
  }

  function Raised(f: Flow, m: map<int, Owned>, order: seq<int>, client: int): Flow {
    Flow(f.inlet + CountedFor(m, order, client, In), f.outlet + CountedFor(m, order, client, Out))
  }

  // Only the entry of id has changed, to c.
  ghost predicate Changed(was: map<int, Client>, now: map<int, Client>, id: int, c: Client) {
    && now.Keys == was.Keys
    && id in now && now[id] == c
    && forall k :: k in was && k != id ==> now[k] == was[k]
  }

  // The clients after dealClientData has dealt with those in done.
  ghost predicate Updated(before: map<int, Client>, after: map<int, Client>,
      hosts: map<int, Owned>, hostOrder: seq<int>, tasks: map<int, Owned>, taskOrder: seq<int>,
      online: set<int>, done: seq<int>)
  {
    && after.Keys == before.Keys
    && forall id :: id in before ==>
         after[id] == if id in done then Client(id in online, TotalFor(hosts, hostOrder, tasks, taskOrder, id))
                      else before[id]
  }

  // How many of the clients in order are online.
  function OnlineCount(order: seq<int>, online: set<int>): nat {
    if order == [] then 0
    else OnlineCount(order[..|order| - 1], online) + if order[|order| - 1] in online then 1 else 0
  }

  class Registry {
    var clients: map<int, Client>
    var hosts: map<int, Owned>
    var tasks: map<int, Owned>

    // One client of dealClientData: its counters are set to zero and built up again.
    method DealClient(id: int, online: set<int>, hostOrder: seq<int>, taskOrder: seq<int>)
      requires id in clients && Within(hosts, hostOrder) && Within(tasks, taskOrder)
      modifies this`clients
      ensures Changed(old(clients), clients, id, Client(id in online, TotalFor(hosts, hostOrder, tasks, taskOrder, id)))
    {
      clients := clients[id := Client(id in online, Flow(0, 0))];
      AddFlows(id, hosts, hostOrder);
      AddFlows(id, tasks, taskOrder);
    }

    // The loop over the hosts or the tasks.
    method AddFlows(id: int, m: map<int, Owned>, order: seq<int>)
      requires id in clients && Within(m, order)
      modifies this`clients
      ensures var c := old(clients)[id];
        Changed(old(clients), clients, id, Client(c.isConnect, Raised(c.flow, m, order, id)))
    {
      ghost var c := clients[id];
      for i := 0 to |order|
        invariant Changed(old(clients), clients, id, Client(c.isConnect, Raised(c.flow, m, order[..i], id)))
      {
        assert order[..i + 1][..i] == order[..i];
        var h := m[order[i]];
        if h.client == id {
          var f := clients[id].flow;
          clients := clients[id := clients[id].(flow := Flow(f.inlet + h.flow.inlet, f.outlet + h.flow.outlet))];
        }
      }
      assert order[..|order|] == order;
    }

    method DealClientData(online: set<int>, order: seq<int>, hostOrder: seq<int>, taskOrder: seq<int>)
      requires Walk(clients, order) && Walk(hosts, hostOrder) && Walk(tasks, taskOrder)
      modifies this`clients
      ensures Updated(old(clients), clients, hosts, hostOrder, tasks, taskOrder, online, order)
    {
      WalkIsWithin(clients, order);
      WalkIsWithin(hosts, hostOrder);
      WalkIsWithin(tasks, taskOrder);
      for i := 0 to |order|
        invariant Updated(old(clients), clients, hosts, hostOrder, tasks, taskOrder, online, order[..i])
      {
        assert order[..i + 1] == order[..i] + [order[i]];
        DealClient(order[i], online, hostOrder, taskOrder);
      }
      assert order[..|order|] == order;
    }

    // The traffic part of GetDashboardData.
    method GetDashboardData(online: set<int>, order: seq<int>, hostOrder: seq<int>, taskOrder: seq<int>)
      returns (count: nat, flow: Flow)
      requires Walk(clients, order) && Walk(hosts, hostOrder) && Walk(tasks, taskOrder)
      modifies this`clients
      ensures Updated(old(clients), clients, hosts, hostOrder, tasks, taskOrder, online, order)
      ensures flow == Flow(ClientSum(clients, order, In), ClientSum(clients, order, Out))
      ensures count == OnlineCount(order, online)
    {
      DealClientData(online, order, hostOrder, taskOrder);
      count, flow := 0, Flow(0, 0);
      for i := 0 to |order|
        invariant flow == Flow(ClientSum(clients, order[..i], In), ClientSum(clients, order[..i], Out))
        invariant count == OnlineCount(order[..i], online)
      {
        assert order[..i + 1][..i] == order[..i];
        var id := order[i];
        assert id in order;
        var v := clients[id];
        if v.isConnect {
          count := count + 1;
        }
        flow := Flow(flow.inlet + v.flow.inlet, flow.outlet + v.flow.outlet);
      }
      assert order[..|order|] == order;
    }
  }

  // One more entry on the walk: its own two counters go to its own client.
  lemma OneMoreEntry(m: map<int, Owned>, order: seq<int>, id: int, client: int)
    ensures var mine, longer := id in m && m[id].client == client, order + [id];
      && CountedFor(m, longer, client, In)
         == CountedFor(m, order, client, In) + (if mine then m[id].flow.inlet else 0)
      && CountedFor(m, longer, client, Out)
         == CountedFor(m, order, client, Out) + (if mine then m[id].flow.outlet else 0)
  {
    assert (order + [id])[..|order|] == order;
  }

  lemma OneMoreInSum(m: map<int, Client>, order: seq<int>, id: int)
    ensures ClientSum(m, order + [id], In) == ClientSum(m, order, In) + (if id in m then m[id].flow.inlet else 0)
    ensures ClientSum(m, order + [id], Out) == ClientSum(m, order, Out) + (if id in m then m[id].flow.outlet else 0)
  {
    assert (order + [id])[..|order|] == order;
  }

  // The clients counted as online are those that are.
  lemma {:induction false} OnlineCountExactly(order: seq<int>, online: set<int>)
    requires Distinct(order)
    ensures OnlineCount(order, online) == |Elements(order) * online|
  {
    if order == [] {
      assert Elements(order) * online == {};
    } else {
      OnlineCountExactly(order[..|order| - 1], online);
      LastElement(order);
      OneMoreOnline(Elements(order[..|order| - 1]), order[|order| - 1], online);
    }
  }

  lemma LastElement(order: seq<int>)
    requires order != [] && Distinct(order)
    ensures var before, id := order[..|order| - 1], order[|order| - 1];
      Distinct(before) && id !in Elements(before) && Elements(order) == Elements(before) + {id}
  {
    CutAt(order, |order| - 1);
  }

  lemma OneMoreOnline(ids: set<int>, id: int, online: set<int>)
    requires id !in ids
    ensures |(ids + {id}) * online| == |ids * online| + if id in online then 1 else 0
  {
    assert (ids + {id}) * online == ids * online + if id in online then {id} else {};
  }

  // --------------------------------------------------------------------- conservation

  function Elements(order: seq<int>): set<int> {
    set id | id in order
  }

  // One more client takes in exactly what its own entries have counted.
  lemma {:induction false} OneMoreClient(m: map<int, Owned>, order: seq<int>, clients: set<int>, c: int, d: Direction)
    requires c !in clients
    ensures CountedIn(m, order, clients + {c}, d) == CountedIn(m, order, clients, d) + CountedFor(m, order, c, d)
  {
    if order != [] {
      OneMoreClient(m, order[..|order| - 1], clients, c, d);
    }
  }

  lemma {:induction false} NoClients(m: map<int, Owned>, order: seq<int>, d: Direction)
    ensures CountedIn(m, order, {}, d) == 0
  {
    if order != [] {
      NoClients(m, order[..|order| - 1], d);
    }
  }

  lemma {:induction false} ClientsAddUp(after: map<int, Client>, hosts: map<int, Owned>, hostOrder: seq<int>,
      tasks: map<int, Owned>, taskOrder: seq<int>, order: seq<int>, d: Direction)
    requires Distinct(order)
    requires forall id :: id in order ==>
      id in after && after[id].flow == TotalFor(hosts, hostOrder, tasks, taskOrder, id)
    ensures ClientSum(after, order, d)
      == CountedIn(hosts, hostOrder, Elements(order), d) + CountedIn(tasks, taskOrder, Elements(order), d)
  {
    if order == [] {
      NoClients(hosts, hostOrder, d);
      NoClients(tasks, taskOrder, d);
      assert Elements(order) == {};
    } else {
      var before, id := order[..|order| - 1], order[|order| - 1];
      ClientsAddUp(after, hosts, hostOrder, tasks, taskOrder, before, d);
      assert id in order && id !in before;
      assert Elements(order) == Elements(before) + {id};
      OneMoreClient(hosts, hostOrder, Elements(before), id, d);
      OneMoreClient(tasks, taskOrder, Elements(before), id, d);
    }
  }

  // After dealClientData the clients' totals, which are the dashboard's, add up to what
  // the hosts and tasks of registered clients have counted: no byte is lost, counted
  // twice or counted for a client that is gone.
  lemma TotalsAreConserved(before: map<int, Client>, after: map<int, Client>,
      hosts: map<int, Owned>, hostOrder: seq<int>, tasks: map<int, Owned>, taskOrder: seq<int>,
      online: set<int>, order: seq<int>, d: Direction)
    requires Walk(before, order)
    requires Updated(before, after, hosts, hostOrder, tasks, taskOrder, online, order)
    ensures forall id :: id in after ==> after[id].flow == TotalFor(hosts, hostOrder, tasks, taskOrder, id)
    ensures ClientSum(after, order, d)
      == CountedIn(hosts, hostOrder, after.Keys, d) + CountedIn(tasks, taskOrder, after.Keys, d)
  {
    forall id ensures id in order <==> id in before {
      if id in order {
        var i :| 0 <= i < |order| && order[i] == id;
      }
    }
    ClientsAddUp(after, hosts, hostOrder, tasks, taskOrder, order, d);
    assert Elements(order) == after.Keys;
  }

  // ------------------------------------------------- the order of the walks is no matter

  lemma {:induction false} TakeOut(m: map<int, Owned>, order: seq<int>, client: int, k: nat, d: Direction)
    requires k < |order|
    ensures CountedFor(m, order, client, d)
      == CountedFor(m, order[..k] + order[k + 1..], client, d) + CountedFor(m, [order[k]], client, d)
  {
    var n, id, rest := |order| - 1, order[k], order[..k] + order[k + 1..];
    assert [id][..0] == [] && [id][0] == id;
    if k == n {
      assert rest == order[..n];
    } else {
      TakeOut(m, order[..n], client, k, d);
      assert order[..n][..k] + order[..n][k + 1..] == rest[..n - 1];
      assert rest[n - 1] == order[n];
    }
  }

  lemma SameEmpty(a: seq<int>, b: seq<int>)
    requires forall id :: id in a <==> id in b
    ensures a == [] <==> b == []
  {
    if a != [] {
      var id := a[0];
      assert id in a;
    }
    if b != [] {
      var id := b[0];
      assert id in b;
    }
  }

  lemma {:induction false} OrderIsNoMatter(m: map<int, Owned>, order: seq<int>, order': seq<int>,
      client: int, d: Direction)
    requires Distinct(order) && Distinct(order') && forall id :: id in order <==> id in order'
    ensures CountedFor(m, order, client, d) == CountedFor(m, order', client, d)
  {
    if order == [] {
      SameEmpty(order, order');
    } else {
      var n, id := |order| - 1, order[|order| - 1];
      assert id in order';
      var k :| 0 <= k < |order'| && order'[k] == id;
      var rest := order'[..k] + order'[k + 1..];
      TakeOut(m, order', client, k, d);
      TakeOut(m, order, client, n, d);
      assert order[..n] + order[n + 1..] == order[..n];
      forall x ensures x in order[..n] <==> x in rest {
        SameWithout(order, n, x);
        SameWithout(order', k, x);
        assert x in order <==> x in order';
      }
      OrderIsNoMatter(m, order[..n], rest, client, d);
    }
  }

  lemma SameWithout(order: seq<int>, k: nat, x: int)
    requires Distinct(order) && k < |order|
    ensures x in order[..k] + order[k + 1..] <==> x in order && x != order[k]
    ensures Distinct(order[..k] + order[k + 1..])
  {
    if x in order && x != order[k] {
      var i :| 0 <= i < |order| && order[i] == x;
      assert x in order[..k] || x in order[k + 1..];
    }
  }

  // A second run, whatever order it walks the maps in, changes nothing.
  lemma SecondRunChangesNothing(before: map<int, Client>, once: map<int, Client>, twice: map<int, Client>,
      hosts: map<int, Owned>, tasks: map<int, Owned>, online: set<int>, order: seq<int>, order': seq<int>,
      hostOrder: seq<int>, hostOrder': seq<int>, taskOrder: seq<int>, taskOrder': seq<int>)
    requires Walk(before, order) && Walk(once, order')
    requires Walk(hosts, hostOrder) && Walk(hosts, hostOrder')
    requires Walk(tasks, taskOrder) && Walk(tasks, taskOrder')
    requires Updated(before, once, hosts, hostOrder, tasks, taskOrder, online, order)
    requires Updated(once, twice, hosts, hostOrder', tasks, taskOrder', online, order')
    ensures twice == once
  {
    forall id | id in once ensures twice[id] == once[id] {
      assert id in before && id in order && id in order';
      SameElements(hosts, hostOrder, hostOrder');
      SameElements(tasks, taskOrder, taskOrder');
      forall d: Direction
        ensures CountedFor(hosts, hostOrder, id, d) == CountedFor(hosts, hostOrder', id, d)
        ensures CountedFor(tasks, taskOrder, id, d) == CountedFor(tasks, taskOrder', id, d)
      {
        OrderIsNoMatter(hosts, hostOrder, hostOrder', id, d);
        OrderIsNoMatter(tasks, taskOrder, taskOrder', id, d);
      }
    }
  }

  lemma SameElements(m: map<int, Owned>, order: seq<int>, order': seq<int>)
    requires Walk(m, order) && Walk(m, order')
    ensures forall id :: id in order <==> id in order'
  {
    forall id ensures id in order <==> id in order' {
      assert id in order <==> id in m;
      assert id in order' <==> id in m;
    }
  }
}
