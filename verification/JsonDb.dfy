// The registry on disk: what a store followed by a load at the next start brings back.
module JsonDb {
  import opened Common
  import Text

  const NEWLINE: byte := 10
  const SEPARATOR: seq<byte> := [10, 42, 35, 42]  // "\n*#*"
  const DEFAULT_RATE := 16777216

  // The fields of a record that play no part in storing and loading.
  type Data(!new)

  datatype ClientV = ClientV(id: int, noStore: bool, rateLimit: int, nowConn: int, data: Data)

  // A task or a host with the client it belongs to, which is written into its JSON text.
  datatype OwnedV = OwnedV(id: int, noStore: bool, client: ClientV, data: Data)

  // json.Marshal and json.Unmarshal of one kind of record.
  datatype Codec<!R> = Codec(enc: R -> GoString, dec: GoString -> Option<R>)

  // The text of a record holds no raw newline and reads back as the record; the empty
  // text is not JSON.
  ghost predicate Json<R(!new)>(c: Codec<R>) {
    c.dec([]) == None && forall r :: NEWLINE !in c.enc(r) && c.dec(c.enc(r)) == Some(r)
  }

  // ---------------------------------------------------------------------- the files

  predicate ClientNoStore(v: ClientV) {
    v.noStore
  }

  predicate OwnedNoStore(v: OwnedV) {
    v.noStore
  }

  // The records a walk writes: those that may be stored.
  function Kept<R>(m: map<int, R>, order: seq<int>, noStore: R -> bool): seq<R> {
    if order == [] then []
    else
      var id, before := order[|order| - 1], Kept(m, order[..|order| - 1], noStore);
      if id in m && !noStore(m[id]) then before + [m[id]] else before
  }

  function FileOf<R>(c: Codec<R>, rs: seq<R>): seq<byte> {
    if rs == [] then []
    else FileOf(c, rs[..|rs| - 1]) + c.enc(rs[|rs| - 1]) + SEPARATOR
  }

  lemma FileSnoc<R>(c: Codec<R>, rs: seq<R>, r: R)
    ensures FileOf(c, rs + [r]) == FileOf(c, rs) + c.enc(r) + [10, 42, 35, 42]
  {
    assert (rs + [r])[..|rs|] == rs;
  }

  // What one more id on the walk adds to the file.
  lemma FileStep<R>(c: Codec<R>, m: map<int, R>, order: seq<int>, i: nat, noStore: R -> bool)
    requires i < |order| && order[i] in m
    ensures var r, before := m[order[i]], FileOf(c, Kept(m, order[..i], noStore));
      FileOf(c, Kept(m, order[..i + 1], noStore)) == if noStore(r) then before else before + c.enc(r) + SEPARATOR
  {
    assert order[..i + 1][..i] == order[..i];
    FileSnoc(c, Kept(m, order[..i], noStore), m[order[i]]);
  }

  // The records of a file: every piece between separators that is the text of one.
  function Decoded<R>(c: Codec<R>, pieces: seq<GoString>): seq<R> {
    if pieces == [] then []
    else
      var r, before := c.dec(pieces[|pieces| - 1]), Decoded(c, pieces[..|pieces| - 1]);
      if r.Some? then before + [r.value] else before
  }

  lemma DecodedSnoc<R>(c: Codec<R>, pieces: seq<GoString>)
    requires pieces != [] && c.dec(pieces[|pieces| - 1]).Some?
    ensures var rs := Decoded(c, pieces);
      rs != [] && rs[|rs| - 1] == c.dec(pieces[|pieces| - 1]).value
      && rs[..|rs| - 1] == Decoded(c, pieces[..|pieces| - 1])
  {
  }

  function Pieces(file: seq<byte>): seq<GoString> {
    Text.Split(file, SEPARATOR)
  }

  lemma {:induction false} NoNewlineIsClean(p: GoString)
    requires NEWLINE !in p
    ensures Text.Clean(p, SEPARATOR)
  {
    if p != [] {
      assert (p + SEPARATOR)[0] == p[0];
      NoNewlineIsClean(p[1..]);
    }
  }

  function Texts<R>(c: Codec<R>, rs: seq<R>): seq<GoString> {
    if rs == [] then [] else Texts(c, rs[..|rs| - 1]) + [c.enc(rs[|rs| - 1])]
  }

  lemma {:induction false} TerminatedSnoc(parts: seq<GoString>, p: GoString)
    ensures Text.Terminated(parts + [p], SEPARATOR) == Text.Terminated(parts, SEPARATOR) + (p + SEPARATOR)
  {
    if parts == [] {
      assert [] + [p] == [p] && [p][1..] == [];
      assert Text.Terminated([p], SEPARATOR) == p + SEPARATOR + [];
    } else {
      TerminatedSnoc(parts[1..], p);
      assert (parts + [p])[1..] == parts[1..] + [p];
      Associate(parts[0] + SEPARATOR, Text.Terminated(parts[1..], SEPARATOR), p + SEPARATOR);
    }
  }

  lemma {:induction false} FileIsTerminated<R(!new)>(c: Codec<R>, rs: seq<R>)
    requires Json(c)
    ensures FileOf(c, rs) == Text.Terminated(Texts(c, rs), SEPARATOR)
    ensures forall p :: p in Texts(c, rs) ==> NEWLINE !in p
    ensures Decoded(c, Texts(c, rs)) == rs
  {
    if rs != [] {
      var before, last := rs[..|rs| - 1], rs[|rs| - 1];
      FileIsTerminated(c, before);
      TerminatedSnoc(Texts(c, before), c.enc(last));
      Associate(FileOf(c, before), c.enc(last), SEPARATOR);
      assert Texts(c, rs)[..|Texts(c, before)|] == Texts(c, before);
      assert before + [last] == rs;
    }
  }

  // A file reads back as the records written to it, in order.
  lemma FileRoundTrip<R(!new)>(c: Codec<R>, rs: seq<R>)
    requires Json(c)
    ensures Decoded(c, Pieces(FileOf(c, rs))) == rs
  {
    var texts := Texts(c, rs);
    FileIsTerminated(c, rs);
    forall p | p in texts ensures Text.Clean(p, SEPARATOR) {
      NoNewlineIsClean(p);
    }
    Text.SplitTerminated(texts, SEPARATOR);
    assert (texts + [[]])[..|texts|] == texts;
  }

  // --------------------------------------------------------------- tables and loading

  // A registry table: its records by id, and the highest id issued.
  datatype Table<R> = Table(entries: map<int, R>, last: int)

  function Put<R>(t: Table<R>, id: int, r: R): Table<R> {
    Table(t.entries[id := r], if id > t.last then id else t.last)
  }

  // A client as it is after a load: no connections.
  function Revived(c: ClientV): ClientV {
    c.(nowConn := 0)
  }

  function LoadClients(t: Table<ClientV>, rs: seq<ClientV>): Table<ClientV> {
    if rs == [] then t
    else
      var r := rs[|rs| - 1];
      Put(LoadClients(t, rs[..|rs| - 1]), r.id, Revived(r))
  }

  // A loaded task or host by value; its client is known by its id.
  datatype OwnedRef = OwnedRef(id: int, noStore: bool, clientId: int, data: Data)

  function Ref(r: OwnedV): OwnedRef {
    OwnedRef(r.id, r.noStore, r.client.id, r.data)
  }

  // A record whose client is not registered is dropped, and its id not counted.
  function LoadOwned(t: Table<OwnedRef>, rs: seq<OwnedV>, clients: set<int>): Table<OwnedRef> {
    if rs == [] then t
    else
      var before, r := LoadOwned(t, rs[..|rs| - 1], clients), rs[|rs| - 1];
      if r.client.id in clients then Put(before, r.id, Ref(r)) else before
  }

  // What one more piece of a file adds to the table.
  lemma ClientPiece(c: Codec<ClientV>, t: Table<ClientV>, pieces: seq<GoString>, i: nat)
    requires i < |pieces|
    ensures var v, before := c.dec(pieces[i]), LoadClients(t, Decoded(c, pieces[..i]));
      LoadClients(t, Decoded(c, pieces[..i + 1]))
        == if v.Some? then Put(before, v.value.id, Revived(v.value)) else before
  {
    assert pieces[..i + 1][..i] == pieces[..i];
    if c.dec(pieces[i]).Some? {
      DecodedSnoc(c, pieces[..i + 1]);
    }
  }

  lemma OwnedPiece(c: Codec<OwnedV>, t: Table<OwnedRef>, pieces: seq<GoString>, i: nat, clients: set<int>)
    requires i < |pieces|
    ensures var v, before := c.dec(pieces[i]), LoadOwned(t, Decoded(c, pieces[..i]), clients);
      LoadOwned(t, Decoded(c, pieces[..i + 1]), clients)
        == if v.Some? && v.value.client.id in clients then Put(before, v.value.id, Ref(v.value)) else before
  {
    assert pieces[..i + 1][..i] == pieces[..i];
    if c.dec(pieces[i]).Some? {
      DecodedSnoc(c, pieces[..i + 1]);
    }
  }

  // ------------------------------------------------------------------- the round trip

  // Keys are the records' own ids.
  ghost predicate KeyedClients(m: map<int, ClientV>) {
    forall id :: id in m ==> m[id].id == id
  }

  ghost predicate KeyedOwned(m: map<int, OwnedV>) {
    forall id :: id in m ==> m[id].id == id
  }

  function EmptyTable<R>(): Table<R> {
    Table(map[], 0)
  }

  // The counter is the highest id in the table, or 0.
  ghost predicate CountsHighest<R>(t: Table<R>) {
    && (forall id :: id in t.entries ==> id <= t.last)
    && (t.last == 0 || t.last in t.entries)
  }

  // The clients that survive a restart.
  function Surviving(m: map<int, ClientV>): map<int, ClientV> {
    map id | id in m && !m[id].noStore :: Revived(m[id])
  }

  // The tasks or hosts that survive: stored themselves, of a client that is stored.
  function SurvivingOwned(m: map<int, OwnedV>, clients: map<int, ClientV>): map<int, OwnedRef> {
    map id | id in m && !m[id].noStore && m[id].client.id in Surviving(clients) :: Ref(m[id])
  }

  lemma PutCounts<R>(t: Table<R>, id: int, r: R)
    requires CountsHighest(t)
    ensures CountsHighest(Put(t, id, r))
  {
  }

  // One more id on the walk, and what it adds to the table.
  lemma KeptClient(m: map<int, ClientV>, order: seq<int>)
    requires order != []
    ensures var id := order[|order| - 1];
      var t := LoadClients(EmptyTable(), Kept(m, order[..|order| - 1], ClientNoStore));
      LoadClients(EmptyTable(), Kept(m, order, ClientNoStore))
        == if id in m && !m[id].noStore then Put(t, m[id].id, Revived(m[id])) else t
  {
    var kept, id := Kept(m, order[..|order| - 1], ClientNoStore), order[|order| - 1];
    if id in m && !m[id].noStore {
      assert (kept + [m[id]])[..|kept|] == kept;
    }
  }

  lemma KeptOwned(m: map<int, OwnedV>, order: seq<int>, clients: set<int>)
    requires order != []
    ensures var id := order[|order| - 1];
      var t := LoadOwned(EmptyTable(), Kept(m, order[..|order| - 1], OwnedNoStore), clients);
      LoadOwned(EmptyTable(), Kept(m, order, OwnedNoStore), clients)
        == if id in m && !m[id].noStore && m[id].client.id in clients then Put(t, m[id].id, Ref(m[id])) else t
  {
    var kept, id := Kept(m, order[..|order| - 1], OwnedNoStore), order[|order| - 1];
    if id in m && !m[id].noStore {
      assert (kept + [m[id]])[..|kept|] == kept;
    }
  }

  lemma LastOrBefore(order: seq<int>)
    requires order != []
    ensures forall k :: k in order <==> k in order[..|order| - 1] || k == order[|order| - 1]
  {
    CutAt(order, |order| - 1);
  }

  lemma {:induction false} LoadKeptClients(m: map<int, ClientV>, order: seq<int>)
    requires KeyedClients(m)
    ensures var t := LoadClients(EmptyTable(), Kept(m, order, ClientNoStore));
      && (forall id :: id in t.entries <==> id in m && id in order && !m[id].noStore)
      && (forall id :: id in t.entries ==> t.entries[id] == Revived(m[id]))
      && CountsHighest(t)
  {
    if order != [] {
      var before, id := order[..|order| - 1], order[|order| - 1];
      LoadKeptClients(m, before);
      KeptClient(m, order);
      LastOrBefore(order);
      if id in m {
        PutCounts(LoadClients(EmptyTable(), Kept(m, before, ClientNoStore)), id, Revived(m[id]));
      }
    }
  }

  lemma {:induction false} LoadKeptOwned(m: map<int, OwnedV>, order: seq<int>, clients: set<int>)
    requires KeyedOwned(m)
    ensures var t := LoadOwned(EmptyTable(), Kept(m, order, OwnedNoStore), clients);
      && (forall id :: id in t.entries <==> id in m && id in order && !m[id].noStore && m[id].client.id in clients)
      && (forall id :: id in t.entries ==> t.entries[id] == Ref(m[id]))
      && CountsHighest(t)
  {
    if order != [] {
      var before, id := order[..|order| - 1], order[|order| - 1];
      LoadKeptOwned(m, before, clients);
      KeptOwned(m, order, clients);
      LastOrBefore(order);
      if id in m {
        PutCounts(LoadOwned(EmptyTable(), Kept(m, before, OwnedNoStore), clients), id, Ref(m[id]));
      }
    }
  }

  lemma SameMap<K, R>(a: map<K, R>, b: map<K, R>)
    requires forall k :: k in a <==> k in b
    requires forall k :: k in a ==> a[k] == b[k]
    ensures a == b
  {
  }

  lemma {:induction false} LoadedKeyed(rs: seq<ClientV>)
    ensures KeyedClients(LoadClients(EmptyTable(), rs).entries)
    ensures Counted(LoadClients(EmptyTable(), rs))
  {
    if rs != [] {
      LoadedKeyed(rs[..|rs| - 1]);
    }
  }

  // No id of the table lies above its counter.
  ghost predicate Counted<R>(t: Table<R>) {
    forall id :: id in t.entries ==> id <= t.last
  }

  lemma {:induction false} LoadedOwnedCounted(rs: seq<OwnedV>, clients: set<int>)
    ensures Counted(LoadOwned(EmptyTable(), rs, clients))
  {
    if rs != [] {
      LoadedOwnedCounted(rs[..|rs| - 1], clients);
    }
  }

  // What loading a file into empty tables gives.
  function ClientsIn(c: Codec<ClientV>, file: seq<byte>): Table<ClientV> {
    LoadClients(EmptyTable(), Decoded(c, Pieces(file)))
  }

  function OwnedIn(c: Codec<OwnedV>, file: seq<byte>, clients: set<int>): Table<OwnedRef> {
    LoadOwned(EmptyTable(), Decoded(c, Pieces(file)), clients)
  }

  // Storing the clients in any order and loading the file gives exactly the clients
  // that may be stored, and a counter above which no loaded id lies.
  lemma ClientsSurvive(c: Codec<ClientV>, m: map<int, ClientV>, order: seq<int>, file: seq<byte>)
    requires Json(c) && KeyedClients(m) && Walk(m, order) && file == FileOf(c, Kept(m, order, ClientNoStore))
    ensures ClientsIn(c, file).entries == Surviving(m) && CountsHighest(ClientsIn(c, file))
    ensures forall id :: id in ClientsIn(c, file).entries <==> id in m && !m[id].noStore
    ensures forall id :: id in m && !m[id].noStore ==>
      ClientsIn(c, file).entries[id] == ClientV(id, false, m[id].rateLimit, 0, m[id].data)
  {
    FileRoundTrip(c, Kept(m, order, ClientNoStore));
    LoadKeptClients(m, order);
    var t := ClientsIn(c, file);
    assert forall id :: id in m ==> id in order;
    assert forall id :: id in t.entries <==> id in Surviving(m);
    assert forall id :: id in t.entries ==> t.entries[id] == Surviving(m)[id];
    SameMap(t.entries, Surviving(m));
  }

  // The same for tasks and hosts, of which those whose client was not stored are lost.
  lemma OwnedSurvive(c: Codec<OwnedV>, m: map<int, OwnedV>, order: seq<int>, clients: map<int, ClientV>,
      file: seq<byte>)
    requires Json(c) && KeyedOwned(m) && Walk(m, order) && file == FileOf(c, Kept(m, order, OwnedNoStore))
    ensures var t := OwnedIn(c, file, Surviving(clients).Keys);
      && t.entries == SurvivingOwned(m, clients) && CountsHighest(t)
      && (forall id :: id in t.entries <==>
           id in m && !m[id].noStore && m[id].client.id in clients && !clients[m[id].client.id].noStore)
      && (forall id :: id in t.entries ==> t.entries[id] == OwnedRef(id, false, m[id].client.id, m[id].data))
  {
    FileRoundTrip(c, Kept(m, order, OwnedNoStore));
    var kept := Surviving(clients).Keys;
    LoadKeptOwned(m, order, kept);
    var t := OwnedIn(c, file, kept);
    assert forall id :: id in m ==> id in order;
    assert forall id :: id in t.entries <==> id in SurvivingOwned(m, clients);
    assert forall id :: id in t.entries ==> t.entries[id] == SurvivingOwned(m, clients)[id];
    SameMap(t.entries, SurvivingOwned(m, clients));
  }

  // ------------------------------------------------------------------- the live tables

  class Client {
    var id: int
    var noStore: bool
    var rateLimit: int
    var rate: int
    var nowConn: int
    var data: Data

    constructor (v: ClientV, rate: int)
      ensures View() == v && this.rate == rate
    {
      id, noStore, rateLimit, nowConn, data := v.id, v.noStore, v.rateLimit, v.nowConn, v.data;
      this.rate := rate;
    }

    function View(): ClientV
      reads this
    {
      ClientV(id, noStore, rateLimit, nowConn, data)
    }
  }

  class Owned {
    var id: int
    var noStore: bool
    var client: Client
    var data: Data

    constructor (v: OwnedV, client: Client)
      ensures id == v.id && noStore == v.noStore && this.client == client && data == v.data
    {
      id, noStore, this.client, data := v.id, v.noStore, client, v.data;
    }

    function View(): OwnedV
      reads this, client
    {
      OwnedV(id, noStore, client.View(), data)
    }
  }

  class Clients {
    var entries: map<int, Client>
    var increaseId: int

    constructor ()
      ensures entries == map[] && increaseId == 0
    {
      entries, increaseId := map[], 0;
    }

    ghost function Views(): map<int, ClientV>
      reads this, entries.Values
    {
      map id | id in entries :: entries[id].View()
    }

    method StoreClientsToJsonFile(c: Codec<ClientV>, order: seq<int>) returns (file: seq<byte>)
      requires Walk(Views(), order)
      ensures file == FileOf(c, Kept(Views(), order, ClientNoStore))
    {
      file := [];
      ghost var views := Views();
      for i := 0 to |order|
        invariant file == FileOf(c, Kept(views, order[..i], ClientNoStore))
      {
        var id := order[i];
        assert id in order;
        var obj := entries[id];
        assert views[id] == obj.View();
        FileStep(c, views, order, i, ClientNoStore);
        if obj.noStore {
          continue;
        }
        file := file + c.enc(obj.View()) + SEPARATOR;
      }
      assert order[..|order|] == order;
    }

    // Every client is registered under its own id.
    ghost predicate Keyed()
      reads this, entries.Values
    {
      forall id :: id in entries ==> entries[id].id == id
    }

    // Every client has the rate limiter its settings ask for.
    ghost predicate Rated()
      reads this, entries.Values
    {
      forall id :: id in entries ==>
        entries[id].rate == if entries[id].rateLimit > 0 then entries[id].rateLimit * 1024 else 16777216
    }

    // What LoadClientFromJsonFile does with one record of the file.
    method Load(v: ClientV)
      modifies this
      ensures Table(Views(), increaseId) == Put(Table(old(Views()), old(increaseId)), v.id, Revived(v))
      ensures old(Rated()) ==> Rated()
    {
      var rate := if v.rateLimit > 0 then v.rateLimit * 1024 else DEFAULT_RATE;
      var post := new Client(v.(nowConn := 0), rate);
      entries := entries[post.id := post];
      if post.id > increaseId {
        increaseId := post.id;
      }
    }

    method LoadClientFromJsonFile(c: Codec<ClientV>, file: seq<byte>)
      modifies this
      ensures Table(Views(), increaseId) == LoadClients(Table(old(Views()), old(increaseId)), Decoded(c, Pieces(file)))
      ensures old(Rated()) ==> Rated()
    {
      ghost var start := Table(Views(), increaseId);
      var pieces := Text.Split(file, SEPARATOR);
      for i := 0 to |pieces|
        invariant Table(Views(), increaseId) == LoadClients(start, Decoded(c, pieces[..i]))
        invariant old(Rated()) ==> Rated()
      {
        var v := c.dec(pieces[i]);
        ClientPiece(c, start, pieces, i);
        if v.Some? {
          Load(v.value);
        }
      }
      assert pieces[..|pieces|] == pieces;
    }

    // No registered id lies above the counter.
    ghost predicate Issued()
      reads this
    {
      forall id :: id in entries ==> id <= increaseId
    }

    // A new id, however often it is called.
    method GetClientId() returns (id: int)
      requires Issued()
      modifies this`increaseId
      ensures id == increaseId == old(increaseId) + 1 && entries == old(entries)
      ensures id !in entries && Issued()
    {
      increaseId := increaseId + 1;
      id := increaseId;
    }
  }

  // Tasks and hosts are stored and loaded by the same code on two tables.
  class OwnedTable {
    var entries: map<int, Owned>
    var increaseId: int

    constructor ()
      ensures entries == map[] && increaseId == 0
    {
      entries, increaseId := map[], 0;
    }

    ghost function Views(): map<int, OwnedV>
      reads this, entries.Values, set o | o in entries.Values :: o.client
    {
      map id | id in entries :: entries[id].View()
    }

    ghost function Refs(): map<int, OwnedRef>
      reads this, entries.Values, set o | o in entries.Values :: o.client
    {
      map id | id in entries :: Ref(entries[id].View())
    }

    // Every record points at the registered client object.
    ghost predicate Linked(clients: Clients)
      reads this, entries.Values, clients, set o | o in entries.Values :: o.client
    {
      forall id :: id in entries ==>
        var c := entries[id].client;
        c.id in clients.entries && clients.entries[c.id] == c
    }

    method StoreToJsonFile(c: Codec<OwnedV>, order: seq<int>) returns (file: seq<byte>)
      requires Walk(Views(), order)
      ensures file == FileOf(c, Kept(Views(), order, OwnedNoStore))
    {
      file := [];
      ghost var views := Views();
      for i := 0 to |order|
        invariant file == FileOf(c, Kept(views, order[..i], OwnedNoStore))
      {
        var id := order[i];
        assert id in order;
        var obj := entries[id];
        assert views[id] == obj.View();
        FileStep(c, views, order, i, OwnedNoStore);
        if obj.noStore {
          continue;
        }
        file := file + c.enc(obj.View()) + SEPARATOR;
      }
      assert order[..|order|] == order;
    }

    // No registered id lies above the counter.
    ghost predicate Issued()
      reads this
    {
      forall id :: id in entries ==> id <= increaseId
    }

    // GetTaskId and GetHostId: a new id, however often it is called.
    method GetId() returns (id: int)
      requires Issued()
      modifies this`increaseId
      ensures id == increaseId == old(increaseId) + 1 && entries == old(entries)
      ensures id !in entries && Issued()
    {
      increaseId := increaseId + 1;
      id := increaseId;
    }

    method Register(v: OwnedV, client: Client)
      requires client.id == v.client.id
      modifies this
      ensures Refs() == old(Refs())[v.id := Ref(v)]
      ensures increaseId == if v.id > old(increaseId) then v.id else old(increaseId)
      ensures v.id in entries && entries == old(entries)[v.id := entries[v.id]] && entries[v.id].client == client
      ensures fresh(entries[v.id])
    {
      var post := new Owned(v, client);
      entries := entries[post.id := post];
      if post.id > increaseId {
        increaseId := post.id;
      }
    }

    // What LoadTaskFromJsonFile and LoadHostFromJsonFile do with one record.
    method Load(v: OwnedV, clients: Clients)
      requires clients.Keyed()
      modifies this
      ensures var before := Table(old(Refs()), old(increaseId));
        Table(Refs(), increaseId) == if v.client.id in clients.entries then Put(before, v.id, Ref(v)) else before
      ensures old(Linked(clients)) ==> Linked(clients)
    {
      if v.client.id !in clients.entries {
        return;
      }
      Register(v, clients.entries[v.client.id]);
    }

    method LoadFromJsonFile(c: Codec<OwnedV>, file: seq<byte>, clients: Clients)
      requires clients.Keyed()
      modifies this
      ensures Table(Refs(), increaseId)
        == LoadOwned(Table(old(Refs()), old(increaseId)), Decoded(c, Pieces(file)), clients.entries.Keys)
      ensures old(Linked(clients)) ==> Linked(clients)
    {
      ghost var start := Table(Refs(), increaseId);
      var pieces := Text.Split(file, SEPARATOR);
      for i := 0 to |pieces|
        invariant Table(Refs(), increaseId) == LoadOwned(start, Decoded(c, pieces[..i]), clients.entries.Keys)
        invariant old(Linked(clients)) ==> Linked(clients)
      {
        var v := c.dec(pieces[i]);
        OwnedPiece(c, start, pieces, i, clients.entries.Keys);
        if v.Some? {
          Load(v.value, clients);
        }
      }
      assert pieces[..|pieces|] == pieces;
    }
  }

  method Loaded(c: Codec<OwnedV>, file: seq<byte>, clients: Clients) returns (t: OwnedTable)
    requires clients.Keyed()
    ensures fresh(t)
    ensures Table(t.Refs(), t.increaseId) == OwnedIn(c, file, clients.entries.Keys)
    ensures t.Linked(clients) && t.Issued()
  {
    t := new OwnedTable();
    t.LoadFromJsonFile(c, file, clients);
    LoadedOwnedCounted(Decoded(c, Pieces(file)), clients.entries.Keys);
    assert forall id :: id in t.entries ==> id in t.Refs();
  }

  method LoadedClients(c: Codec<ClientV>, file: seq<byte>) returns (t: Clients)
    ensures Table(t.Views(), t.increaseId) == ClientsIn(c, file)
    ensures t.Rated() && t.Keyed() && t.Issued() && t.entries.Keys == ClientsIn(c, file).entries.Keys
  {
    t := new Clients();
    t.LoadClientFromJsonFile(c, file);
    LoadedKeyed(Decoded(c, Pieces(file)));
    assert t.entries.Keys == t.Views().Keys;
    forall id | id in t.entries ensures t.entries[id].id == id {
      assert t.Views()[id].id == id;
    }
  }

  // GetDb: load the three files into empty tables, the clients first.
  method GetDb(cc: Codec<ClientV>, tc: Codec<OwnedV>, hc: Codec<OwnedV>,
      clientFile: seq<byte>, taskFile: seq<byte>, hostFile: seq<byte>)
    returns (clients: Clients, tasks: OwnedTable, hosts: OwnedTable)
    ensures var loaded := ClientsIn(cc, clientFile);
      && Table(clients.Views(), clients.increaseId) == loaded
      && Table(tasks.Refs(), tasks.increaseId) == OwnedIn(tc, taskFile, loaded.entries.Keys)
      && Table(hosts.Refs(), hosts.increaseId) == OwnedIn(hc, hostFile, loaded.entries.Keys)
    ensures clients.Rated() && tasks.Linked(clients) && hosts.Linked(clients)
    ensures clients.Issued() && tasks.Issued() && hosts.Issued()
  {
    clients := LoadedClients(cc, clientFile);
    ghost var cv := clients.Views();
    tasks := Loaded(tc, taskFile, clients);
    assert clients.Views() == cv;
    ghost var refs := tasks.Refs();
    hosts := Loaded(hc, hostFile, clients);
    assert clients.Views() == cv && tasks.Refs() == refs;
  }

  // Store everything, then start again from the files: the clients come back as they
  // were but without connections, tasks and hosts come back if their client did and
  // point at its new object, and no id issued from then on is a loaded one.
  method Restart(clients: Clients, tasks: OwnedTable, hosts: OwnedTable,
      cc: Codec<ClientV>, tc: Codec<OwnedV>, hc: Codec<OwnedV>,
      clientOrder: seq<int>, taskOrder: seq<int>, hostOrder: seq<int>)
    returns (clients': Clients, tasks': OwnedTable, hosts': OwnedTable)
    requires Json(cc) && Json(tc) && Json(hc)
    requires KeyedClients(clients.Views()) && KeyedOwned(tasks.Views()) && KeyedOwned(hosts.Views())
    requires Walk(clients.Views(), clientOrder) && Walk(tasks.Views(), taskOrder) && Walk(hosts.Views(), hostOrder)
    ensures clients'.Views() == Surviving(old(clients.Views())) && clients'.Rated()
    ensures tasks'.Refs() == SurvivingOwned(old(tasks.Views()), old(clients.Views())) && tasks'.Linked(clients')
    ensures hosts'.Refs() == SurvivingOwned(old(hosts.Views()), old(clients.Views())) && hosts'.Linked(clients')
    ensures CountsHighest(Table(clients'.Views(), clients'.increaseId))
    ensures CountsHighest(Table(tasks'.Refs(), tasks'.increaseId))
    ensures CountsHighest(Table(hosts'.Refs(), hosts'.increaseId))
    ensures clients'.Issued() && tasks'.Issued() && hosts'.Issued()
  {
    var clientFile, taskFile, hostFile := Save(clients, tasks, hosts, cc, tc, hc, clientOrder, taskOrder, hostOrder);
    clients', tasks', hosts' := GetDb(cc, tc, hc, clientFile, taskFile, hostFile);
  }

  // The three files, and what loading them will give.
  method Save(clients: Clients, tasks: OwnedTable, hosts: OwnedTable,
      cc: Codec<ClientV>, tc: Codec<OwnedV>, hc: Codec<OwnedV>,
      clientOrder: seq<int>, taskOrder: seq<int>, hostOrder: seq<int>)
    returns (clientFile: seq<byte>, taskFile: seq<byte>, hostFile: seq<byte>)
    requires Json(cc) && Json(tc) && Json(hc)
    requires KeyedClients(clients.Views()) && KeyedOwned(tasks.Views()) && KeyedOwned(hosts.Views())
    requires Walk(clients.Views(), clientOrder) && Walk(tasks.Views(), taskOrder) && Walk(hosts.Views(), hostOrder)
    ensures Restores(ClientsIn(cc, clientFile), Surviving(old(clients.Views())))
    ensures var cv := old(clients.Views());
      && Restores(OwnedIn(tc, taskFile, Surviving(cv).Keys), SurvivingOwned(old(tasks.Views()), cv))
      && Restores(OwnedIn(hc, hostFile, Surviving(cv).Keys), SurvivingOwned(old(hosts.Views()), cv))
  {
    ghost var cv, tv, hv := clients.Views(), tasks.Views(), hosts.Views();
    clientFile, taskFile, hostFile := Store(clients, tasks, hosts, cc, tc, hc, clientOrder, taskOrder, hostOrder);
    ClientsSurvive(cc, cv, clientOrder, clientFile);
    OwnedSurvive(tc, tv, taskOrder, cv, taskFile);
    OwnedSurvive(hc, hv, hostOrder, cv, hostFile);
  }

  method Store(clients: Clients, tasks: OwnedTable, hosts: OwnedTable,
      cc: Codec<ClientV>, tc: Codec<OwnedV>, hc: Codec<OwnedV>,
      clientOrder: seq<int>, taskOrder: seq<int>, hostOrder: seq<int>)
    returns (clientFile: seq<byte>, taskFile: seq<byte>, hostFile: seq<byte>)
    requires Walk(clients.Views(), clientOrder) && Walk(tasks.Views(), taskOrder) && Walk(hosts.Views(), hostOrder)
    ensures clientFile == FileOf(cc, Kept(old(clients.Views()), clientOrder, ClientNoStore))
    ensures taskFile == FileOf(tc, Kept(old(tasks.Views()), taskOrder, OwnedNoStore))
    ensures hostFile == FileOf(hc, Kept(old(hosts.Views()), hostOrder, OwnedNoStore))
  {
    ghost var tv, hv := tasks.Views(), hosts.Views();
    clientFile := clients.StoreClientsToJsonFile(cc, clientOrder);
    assert tasks.Views() == tv && hosts.Views() == hv;
    taskFile := tasks.StoreToJsonFile(tc, taskOrder);
    assert hosts.Views() == hv;
    hostFile := hosts.StoreToJsonFile(hc, hostOrder);
  }

  ghost predicate Restores<R>(t: Table<R>, m: map<int, R>) {
    t.entries == m && CountsHighest(t)
  }
}
