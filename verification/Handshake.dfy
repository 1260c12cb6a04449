// The verification of a new connection: NewConn on the client and cliProcess on the
// server as programs on two byte streams, and how every run of the two ends.
module Handshake {
  import opened Common
  import opened ByteStreams
  import opened LittleEndian

  const CONN_TEST: GoString := [84, 83, 84]           // "TST"
  const VERIFY_EER: GoString := [118, 107, 101, 121]  // "vkey"
  const VERIFY_SUCCESS: GoString := [115, 117, 99, 115]  // "sucs"
  const MAX_SHORT := 32 * 1024

  datatype ClientRecord = ClientRecord(id: int, verifyKey: GoString, status: bool)

  // Both ends of one connection attempt. core and version are the two version
  // strings; clients are the server's records in the order its map is walked.
  datatype World = World(
    clientCore: GoString, clientVersion: GoString, vkey: GoString, connType: GoString,
    serverCore: GoString, clients: seq<ClientRecord>, md5: GoString -> GoString)

  // Version strings are short, connection types have four letters and an MD5 text
  // has 32 digits.
  ghost predicate Sized(w: World) {
    && |w.clientCore| <= 32768 && |w.clientVersion| <= 32768 && |w.connType| == 4
    && forall s :: |w.md5(s)| == 32
  }

  // GetIdByVerifyKey
  function Lookup(md5: GoString -> GoString, clients: seq<ClientRecord>, hash: GoString): Option<int> {
    if clients == [] then None
    else if md5(clients[0].verifyKey) == hash && clients[0].status then Some(clients[0].id)
    else Lookup(md5, clients[1..], hash)
  }

  // WriteLenContent: the int32 length and the bytes.
  function Framed(b: GoString): seq<byte> {
    Le32(|b| % 0x1_0000_0000) + b
  }

  // The length GetShortLenContent goes on to read, if it accepts it.
  function ShortLength(b: seq<byte>): Option<nat> {
    if |b| != 4 then None
    else
      var l := FromLe32(b);
      if 0 <= l <= MAX_SHORT then Some(l) else None
  }

  // NewConn. f holds the answer to the version and the answer to the key.
  function ClientAction(w: World, step: nat, f: seq<seq<byte>>): Action {
    match step
    case 0 => Write(CONN_TEST)
    case 1 => Write(Framed(w.clientCore))
    case 2 => Write(Framed(w.clientVersion))
    case 3 => Read(32)
    case 4 => if |f| == 1 && f[0] == w.md5(w.clientCore) then Write(w.md5(w.vkey)) else End
    case 5 => Read(4)
    case 6 => if |f| == 2 && f[1] != VERIFY_EER then Write(w.connType) else End
    case _ => End
  }

  // cliProcess. f holds the test flag, two lengths and texts, the key and the flag.
  function ServerAction(w: World, step: nat, f: seq<seq<byte>>): Action {
    match step
    case 0 => Read(3)
    case 1 => Read(4)
    case 2 => if |f| == 2 && ShortLength(f[1]).Some? then Read(ShortLength(f[1]).value) else End
    case 3 => if |f| == 3 && f[2] == w.serverCore then Read(4) else End
    case 4 => if |f| == 4 && ShortLength(f[3]).Some? then Read(ShortLength(f[3]).value) else End
    case 5 => Write(w.md5(w.serverCore))
    case 6 => Read(32)
    case 7 => if |f| == 6 then Write(Answer(w, f[5])) else End
    case 8 => if |f| == 6 && Lookup(w.md5, w.clients, f[5]).Some? then Read(4) else End
    case _ => End
  }

  function Answer(w: World, hash: GoString): GoString {
    if Lookup(w.md5, w.clients, hash).Some? then VERIFY_SUCCESS else VERIFY_EER
  }

  function Client(w: World): Program {
    (step: nat, f: seq<seq<byte>>) => ClientAction(w, step, f)
  }

  function Server(w: World): Program {
    (step: nat, f: seq<seq<byte>>) => ServerAction(w, step, f)
  }

  // How NewConn ends: still waiting; a read that fails, because the server has left and
  // closed the connection and nothing is left to read; the "Validation key incorrect"
  // error; or the verified connection.
  datatype ClientEnd = Waiting | ReadError | KeyIncorrect | Connected

  function ClientResult(w: World, s: Net): ClientEnd {
    var p := s.client;
    if p.step == 7 then Connected
    else if p.step == 6 && |p.fields| == 2 && p.fields[1] == VERIFY_EER then KeyIncorrect
    else if Reading(ClientAction(w, p.step, p.fields), |p.acc|) && s.s2c == []
         && ServerAction(w, s.server.step, s.server.fields).End? then ReadError
    else Waiting
  }

  predicate Reading(a: Action, got: nat) {
    a.Read? && got < a.n
  }

  // What cliProcess hands to typeDeal.
  datatype Dispatch = Dispatch(flag: GoString, id: int, version: GoString)

  function ServerResult(w: World, p: Party): Option<Dispatch> {
    if p.step == 9 && |p.fields| == 7 && Lookup(w.md5, w.clients, p.fields[5]).Some?
    then Some(Dispatch(p.fields[6], Lookup(w.md5, w.clients, p.fields[5]).value, p.fields[4]))
    else None
  }

  // ---------------------------------------------------------------- a reference run

  // evs is a possible history of the two programs and s the state after it.
  ghost predicate Reaches(w: World, evs: seq<Event>, s: Net) {
    Legal(Client(w), Server(w), evs) && Replay(evs) == s
  }

  lemma ClientWrites(w: World, evs: seq<Event>, s: Net, b: seq<byte>) returns (evs': seq<Event>)
    requires Reaches(w, evs, s) && s.client.acc == [] && s.c2s == []
    requires ClientAction(w, s.client.step, s.client.fields) == Write(b)
    ensures Reaches(w, evs', Net(Party(s.client.step + 1, s.client.fields, []), s.server, b, s.s2c))
  {
    evs' := evs + [Event(true, Snd(b))];
    Extend(Client(w), Server(w), evs, Event(true, Snd(b)));
    assert [] + b == b && s.client.fields + [] == s.client.fields;
  }

  lemma ServerWrites(w: World, evs: seq<Event>, s: Net, b: seq<byte>) returns (evs': seq<Event>)
    requires Reaches(w, evs, s) && s.server.acc == [] && s.s2c == []
    requires ServerAction(w, s.server.step, s.server.fields) == Write(b)
    ensures Reaches(w, evs', Net(s.client, Party(s.server.step + 1, s.server.fields, []), s.c2s, b))
  {
    evs' := evs + [Event(false, Snd(b))];
    Extend(Client(w), Server(w), evs, Event(false, Snd(b)));
    assert [] + b == b && s.server.fields + [] == s.server.fields;
  }

  lemma ClientReads(w: World, evs: seq<Event>, s: Net, b: seq<byte>, fields: seq<seq<byte>>) returns (evs': seq<Event>)
    requires Reaches(w, evs, s) && s.s2c == b && fields == s.client.fields + [b]
    requires ClientAction(w, s.client.step, s.client.fields) == Read(|b|)
    ensures Reaches(w, evs', Net(Party(s.client.step + 1, fields, []), s.server, s.c2s, []))
  {
    evs' := evs + [Event(true, Rcv(b))];
    Extend(Client(w), Server(w), evs, Event(true, Rcv(b)));
    assert b[|b|..] == [];
  }

  lemma ServerReads(w: World, evs: seq<Event>, s: Net, b: seq<byte>, rest: seq<byte>, fields: seq<seq<byte>>)
    returns (evs': seq<Event>)
    requires Reaches(w, evs, s) && s.c2s == b + rest && fields == s.server.fields + [b]
    requires ServerAction(w, s.server.step, s.server.fields) == Read(|b|)
    ensures Reaches(w, evs', Net(s.client, Party(s.server.step + 1, fields, []), rest, s.s2c))
  {
    evs' := evs + [Event(false, Rcv(b))];
    Extend(Client(w), Server(w), evs, Event(false, Rcv(b)));
    assert (b + rest)[|b|..] == rest;
  }

  // A length field as GetShortLenContent reads it.
  lemma LengthRead(b: GoString)
    requires |b| <= MAX_SHORT
    ensures Framed(b) == Le32(|b|) + b && ShortLength(Le32(|b|)) == Some(|b|)
  {
    Le32RoundTrip(|b|);
  }

  // What the server has read after n steps of a run in which the versions agree.
  function ServerFields(w: World, n: nat): seq<seq<byte>>
    requires Sized(w)
  {
    var core, version := w.clientCore, w.clientVersion;
    match n
    case 0 => []
    case 1 => [CONN_TEST]
    case 2 => [CONN_TEST, Le32(|core|)]
    case 3 => [CONN_TEST, Le32(|core|), core]
    case 4 => [CONN_TEST, Le32(|core|), core, Le32(|version|)]
    case 5 => [CONN_TEST, Le32(|core|), core, Le32(|version|), version]
    case 6 => [CONN_TEST, Le32(|core|), core, Le32(|version|), version, w.md5(w.vkey)]
    case _ => [CONN_TEST, Le32(|core|), core, Le32(|version|), version, w.md5(w.vkey), w.connType]
  }

  lemma ServerFieldsGrow(w: World)
    requires Sized(w)
    ensures ServerFields(w, 1) == ServerFields(w, 0) + [CONN_TEST]
    ensures ServerFields(w, 2) == ServerFields(w, 1) + [Le32(|w.clientCore|)]
    ensures ServerFields(w, 3) == ServerFields(w, 2) + [w.clientCore]
    ensures ServerFields(w, 4) == ServerFields(w, 3) + [Le32(|w.clientVersion|)]
    ensures ServerFields(w, 5) == ServerFields(w, 4) + [w.clientVersion]
    ensures ServerFields(w, 6) == ServerFields(w, 5) + [w.md5(w.vkey)]
    ensures ServerFields(w, 7) == ServerFields(w, 6) + [w.connType]
  {
  }

  // The server's steps up to the version check.
  lemma ServerActsOnCore(w: World)
    requires Sized(w)
    ensures ServerAction(w, 0, ServerFields(w, 0)) == Read(|CONN_TEST|)
    ensures ServerAction(w, 1, ServerFields(w, 1)) == Read(|Le32(|w.clientCore|)|)
    ensures ServerAction(w, 2, ServerFields(w, 2)) == Read(|w.clientCore|)
    ensures Framed(w.clientCore) == Le32(|w.clientCore|) + w.clientCore
  {
    LengthRead(w.clientCore);
  }

  // The server's steps after it.
  lemma ServerActsOnKey(w: World)
    requires Sized(w) && w.clientCore == w.serverCore
    ensures ServerAction(w, 3, ServerFields(w, 3)) == Read(|Le32(|w.clientVersion|)|)
    ensures ServerAction(w, 4, ServerFields(w, 4)) == Read(|w.clientVersion|)
    ensures ServerAction(w, 5, ServerFields(w, 5)) == Write(w.md5(w.serverCore))
    ensures ServerAction(w, 6, ServerFields(w, 5)) == Read(|w.md5(w.vkey)|)
    ensures ServerAction(w, 7, ServerFields(w, 6)) == Write(Answer(w, w.md5(w.vkey)))
    ensures Framed(w.clientVersion) == Le32(|w.clientVersion|) + w.clientVersion
  {
    LengthRead(w.clientVersion);
  }

  // The history up to the core version: sent, read, and the client's version on its way.
  lemma CoreSent(w: World) returns (evs: seq<Event>)
    requires Sized(w)
    ensures Reaches(w, evs, Net(Party(2, [], []), Party(1, ServerFields(w, 1), []), Framed(w.clientCore), []))
  {
    ServerFieldsGrow(w);
    ServerActsOnCore(w);
    evs := ClientWrites(w, [], START, CONN_TEST);
    evs := ServerReads(w, evs, Net(Party(1, [], []), Party(0, [], []), CONN_TEST, []),
      CONN_TEST, [], ServerFields(w, 1));
    evs := ClientWrites(w, evs, Net(Party(1, [], []), Party(1, ServerFields(w, 1), []), [], []), Framed(w.clientCore));
  }

  lemma CoreArrives(w: World) returns (evs: seq<Event>)
    requires Sized(w)
    ensures Reaches(w, evs, Net(Party(3, [], []), Party(3, ServerFields(w, 3), []), Framed(w.clientVersion), []))
  {
    var core, framed, c := w.clientCore, Framed(w.clientCore), Party(2, [], []);
    ServerFieldsGrow(w);
    ServerActsOnCore(w);
    evs := CoreSent(w);
    evs := ServerReads(w, evs, Net(c, Party(1, ServerFields(w, 1), []), framed, []),
      Le32(|core|), core, ServerFields(w, 2));
    evs := ServerReads(w, evs, Net(c, Party(2, ServerFields(w, 2), []), core, []), core, [], ServerFields(w, 3));
    evs := ClientWrites(w, evs, Net(c, Party(3, ServerFields(w, 3), []), [], []), Framed(w.clientVersion));
  }

  // If the versions agree: the client's version read and the server's answer sent.
  lemma VersionsAgree(w: World) returns (evs: seq<Event>)
    requires Sized(w) && w.clientCore == w.serverCore
    ensures Reaches(w, evs, Net(Party(3, [], []), Party(6, ServerFields(w, 5), []), [], w.md5(w.serverCore)))
  {
    var version, framed, c := w.clientVersion, Framed(w.clientVersion), Party(3, [], []);
    ServerFieldsGrow(w);
    ServerActsOnKey(w);
    evs := CoreArrives(w);
    evs := ServerReads(w, evs, Net(c, Party(3, ServerFields(w, 3), []), framed, []),
      Le32(|version|), version, ServerFields(w, 4));
    evs := ServerReads(w, evs, Net(c, Party(4, ServerFields(w, 4), []), version, []), version, [], ServerFields(w, 5));
    evs := ServerWrites(w, evs, Net(c, Party(5, ServerFields(w, 5), []), [], []), w.md5(w.serverCore));
  }

  // The client's key sent and read.
  lemma KeySent(w: World) returns (evs: seq<Event>)
    requires Sized(w) && w.clientCore == w.serverCore
    ensures Reaches(w, evs,
      Net(Party(5, [w.md5(w.clientCore)], []), Party(6, ServerFields(w, 5), []), w.md5(w.vkey), []))
  {
    var hash, s := w.md5(w.clientCore), Party(6, ServerFields(w, 5), []);
    evs := VersionsAgree(w);
    evs := ClientReads(w, evs, Net(Party(3, [], []), s, [], hash), hash, [hash]);
    evs := ClientWrites(w, evs, Net(Party(4, [hash], []), s, [], []), w.md5(w.vkey));
  }

  lemma KeyArrives(w: World) returns (evs: seq<Event>)
    requires Sized(w) && w.clientCore == w.serverCore
    ensures Reaches(w, evs, Net(Party(5, [w.md5(w.clientCore)], []), Party(7, ServerFields(w, 6), []), [], []))
  {
    var c, key := Party(5, [w.md5(w.clientCore)], []), w.md5(w.vkey);
    ServerFieldsGrow(w);
    ServerActsOnKey(w);
    evs := KeySent(w);
    evs := ServerReads(w, evs, Net(c, Party(6, ServerFields(w, 5), []), key, []), key, [], ServerFields(w, 6));
  }

  // The answer to it sent and read.
  lemma AnswerArrives(w: World) returns (evs: seq<Event>)
    requires Sized(w) && w.clientCore == w.serverCore
    ensures var hash, answer := w.md5(w.clientCore), Answer(w, w.md5(w.vkey));
      Reaches(w, evs, Net(Party(6, [hash, answer], []), Party(8, ServerFields(w, 6), []), [], []))
  {
    var hash, answer := w.md5(w.clientCore), Answer(w, w.md5(w.vkey));
    var c := Party(5, [hash], []);
    ServerActsOnKey(w);
    evs := KeyArrives(w);
    evs := ServerWrites(w, evs, Net(c, Party(7, ServerFields(w, 6), []), [], []), answer);
    evs := ClientReads(w, evs, Net(c, Party(8, ServerFields(w, 6), []), [], answer), answer, [hash, answer]);
  }

  // The connection type sent and read.
  lemma TypeSent(w: World) returns (evs: seq<Event>)
    requires Sized(w) && w.clientCore == w.serverCore && Lookup(w.md5, w.clients, w.md5(w.vkey)).Some?
    ensures var fields := [w.md5(w.clientCore), VERIFY_SUCCESS];
      Reaches(w, evs, Net(Party(7, fields, []), Party(8, ServerFields(w, 6), []), w.connType, []))
  {
    var fields, s := [w.md5(w.clientCore), VERIFY_SUCCESS], Party(8, ServerFields(w, 6), []);
    evs := AnswerArrives(w);
    evs := ClientWrites(w, evs, Net(Party(6, fields, []), s, [], []), w.connType);
  }

  lemma TypeArrives(w: World) returns (evs: seq<Event>)
    requires Sized(w) && w.clientCore == w.serverCore && Lookup(w.md5, w.clients, w.md5(w.vkey)).Some?
    ensures var fields := [w.md5(w.clientCore), VERIFY_SUCCESS];
      Reaches(w, evs, Net(Party(7, fields, []), Party(9, ServerFields(w, 7), []), [], []))
  {
    var c := Party(7, [w.md5(w.clientCore), VERIFY_SUCCESS], []);
    ServerFieldsGrow(w);
    evs := TypeSent(w);
    evs := ServerReads(w, evs, Net(c, Party(8, ServerFields(w, 6), []), w.connType, []), w.connType, [],
      ServerFields(w, 7));
  }

  // ------------------------------------------------------------------- main results

  // The only state in which the two ends can come to rest.
  ghost function Outcome(w: World): Net
    requires Sized(w)
  {
    var hash := w.md5(w.clientCore);
    if w.clientCore != w.serverCore then
      Net(Party(3, [], []), Party(3, ServerFields(w, 3), []), Framed(w.clientVersion), [])
    else if Lookup(w.md5, w.clients, w.md5(w.vkey)).None? then
      Net(Party(6, [hash, VERIFY_EER], []), Party(8, ServerFields(w, 6), []), [], [])
    else
      Net(Party(7, [hash, VERIFY_SUCCESS], []), Party(9, ServerFields(w, 7), []), [], [])
  }

  lemma ReferenceRun(w: World) returns (evs: seq<Event>)
    requires Sized(w)
    ensures Reaches(w, evs, Outcome(w))
  {
    if w.clientCore != w.serverCore {
      evs := CoreArrives(w);
    } else if Lookup(w.md5, w.clients, w.md5(w.vkey)).None? {
      evs := AnswerArrives(w);
    } else {
      evs := TypeArrives(w);
    }
  }

  lemma OutcomeIsRest(w: World)
    requires Sized(w)
    ensures AtRest(Client(w), Server(w), Outcome(w))
  {
  }

  function RunOf(w: World, ts: seq<Turn>): Net {
    Run(Client(w), Server(w), START, ts)
  }

  // Neither end has anything to write, a read to finish or bytes to take.
  predicate Quiet(w: World, s: Net) {
    AtRest(Client(w), Server(w), s)
  }

  ghost predicate AtMost(w: World, n: nat) {
    forall ts :: Effective(Client(w), Server(w), START, ts) <= n
  }

  // However the bytes of the two streams are cut into pieces and however the two
  // ends take turns, they never wait for each other for ever: some move is possible
  // until the outcome is reached, only a bounded number of moves is, and whenever
  // nothing moves any more both ends are exactly where Outcome puts them. On the way
  // every field read is the field the other end wrote.
  lemma HandshakeEnds(w: World, ts: seq<Turn>)
    requires Sized(w)
    ensures var s := RunOf(w, ts);
      && (if Quiet(w, s) then s == Outcome(w) else exists t :: Apply(Client(w), Server(w), s, t) != s)
      && s.client.fields <= Outcome(w).client.fields && s.server.fields <= Outcome(w).server.fields
    ensures exists n :: AtMost(w, n)
  {
    var evs := ReferenceRun(w);
    OutcomeIsRest(w);
    EveryRunComesToRest(Client(w), Server(w), evs, ts);
    FieldsAreWhatWasSent(Client(w), Server(w), evs, ts);
    if Quiet(w, RunOf(w, ts)) {
      EveryRestIsTheSame(Client(w), Server(w), evs, ts);
    }
    var n := |evs| + |Received(Side(evs, true))| + |Received(Side(evs, false))|;
    forall ts ensures Effective(Client(w), Server(w), START, ts) <= n {
      EveryRunComesToRest(Client(w), Server(w), evs, ts);
    }
    assert AtMost(w, n);
  }

  lemma RestIsOutcome(w: World, ts: seq<Turn>)
    requires Sized(w) && Quiet(w, RunOf(w, ts))
    ensures RunOf(w, ts) == Outcome(w)
  {
    HandshakeEnds(w, ts);
  }

  lemma ReadSoFar(w: World, ts: seq<Turn>)
    requires Sized(w)
    ensures RunOf(w, ts).server.fields <= Outcome(w).server.fields
  {
    HandshakeEnds(w, ts);
  }

  // What the two ends have read when nothing moves any more, field by field: "TST", the
  // client's two versions behind their lengths, the hash of its key and its flag on one
  // side; the hash of the core version and "sucs" or "vkey" on the other. With other core
  // versions the server stops behind the first one, and the second is left on the stream.
  ghost predicate ReadInTheEnd(w: World, s: Net) {
    var known := Lookup(w.md5, w.clients, w.md5(w.vkey)).Some?;
    && |w.clientCore| <= 32768 && |w.clientVersion| <= 32768
    && var core := [[84, 83, 84], Le32(|w.clientCore|), w.clientCore];
       var version := [Le32(|w.clientVersion|), w.clientVersion, w.md5(w.vkey)];
       if w.clientCore != w.serverCore then
         && s.server.fields == core && s.client.fields == []
         && s.c2s == Le32(|w.clientVersion|) + w.clientVersion
       else
         && s.server.fields == (if known then core + version + [w.connType] else core + version)
         && s.client.fields == [w.md5(w.serverCore), if known then [115, 117, 99, 115] else [118, 107, 101, 121]]
         && s.c2s == [] && s.s2c == []
  }

  lemma FieldsAtRest(w: World, ts: seq<Turn>)
    requires Sized(w) && Quiet(w, RunOf(w, ts))
    ensures ReadInTheEnd(w, RunOf(w, ts))
  {
    RestIsOutcome(w, ts);
    OutcomeFields(w);
  }

  lemma OutcomeFields(w: World)
    requires Sized(w)
    ensures ReadInTheEnd(w, Outcome(w))
  {
    ServerFieldsAre(w);
  }

  lemma ServerFieldsAre(w: World)
    requires Sized(w)
    ensures var core := [[84, 83, 84], Le32(|w.clientCore|), w.clientCore];
      var version := [Le32(|w.clientVersion|), w.clientVersion, w.md5(w.vkey)];
      && ServerFields(w, 3) == core && ServerFields(w, 6) == core + version
      && ServerFields(w, 7) == core + version + [w.connType]
  {
  }

  // The agreement in terms of the hash lookup, for every hash.
  lemma AgreementByHash(w: World, ts: seq<Turn>)
    requires Sized(w) && Quiet(w, RunOf(w, ts))
    ensures var s, id := RunOf(w, ts), Lookup(w.md5, w.clients, w.md5(w.vkey));
      && ClientResult(w, s)
         == (if w.clientCore != w.serverCore then ReadError else if id.None? then KeyIncorrect else Connected)
      && ServerResult(w, s.server)
         == (if ClientResult(w, s) == Connected then Some(Dispatch(w.connType, id.value, w.clientVersion)) else None)
      && (w.clientCore == w.serverCore ==> s.c2s == [] && s.s2c == [])
  {
    HandshakeEnds(w, ts);
  }

  // An enabled client is registered under the key.
  ghost predicate Holds(c: ClientRecord, clients: seq<ClientRecord>, vkey: GoString) {
    c in clients && c.status && c.verifyKey == vkey
  }

  ghost predicate Known(w: World) {
    exists c :: Holds(c, w.clients, w.vkey)
  }

  // No registered key has the hash of another key that is tried.
  ghost predicate NoCollision(md5: GoString -> GoString, clients: seq<ClientRecord>, vkey: GoString) {
    forall c :: c in clients && md5(c.verifyKey) == md5(vkey) ==> c.verifyKey == vkey
  }

  // The lookup finds an id exactly when an enabled client holds the key, and it is the
  // id of such a client.
  lemma {:induction false} LookupFinds(md5: GoString -> GoString, clients: seq<ClientRecord>, vkey: GoString)
    requires NoCollision(md5, clients, vkey)
    ensures var id := Lookup(md5, clients, md5(vkey));
      && (id.Some? <==> exists c :: Holds(c, clients, vkey))
      && (id.Some? ==> exists c :: Holds(c, clients, vkey) && c.id == id.value)
  {
    if clients != [] {
      var rest := clients[1..];
      LookupFinds(md5, rest, vkey);
      assert clients == [clients[0]] + rest;
      assert forall c :: Holds(c, clients, vkey) <==>
        Holds(c, rest, vkey) || (c == clients[0] && c.status && c.verifyKey == vkey);
    }
  }

  // Agreement. Both ends stop. The client is connected exactly when the core versions
  // are equal and an enabled client is registered under its key; then nothing is left on
  // either stream, and the server serves the connection under the flag and the version
  // that the client sent and the id of such a client. With equal versions and no such
  // client it is the validation error, with different versions a failed read, and
  // nothing is served.
  lemma HandshakeAgreement(w: World, ts: seq<Turn>)
    requires Sized(w) && NoCollision(w.md5, w.clients, w.vkey) && Quiet(w, RunOf(w, ts))
    ensures var s := RunOf(w, ts);
      && (ClientResult(w, s) == Connected <==> w.clientCore == w.serverCore && Known(w))
      && (ClientResult(w, s) == KeyIncorrect <==> w.clientCore == w.serverCore && !Known(w))
      && (ClientResult(w, s) == ReadError <==> w.clientCore != w.serverCore)
      && (if ClientResult(w, s) == Connected
          then exists c :: Holds(c, w.clients, w.vkey)
                 && ServerResult(w, s.server) == Some(Dispatch(w.connType, c.id, w.clientVersion))
          else ServerResult(w, s.server) == None)
      && (w.clientCore == w.serverCore ==> s.c2s == [] && s.s2c == [])
  {
    AgreementByHash(w, ts);
    LookupFinds(w.md5, w.clients, w.vkey);
  }

  // The server never serves a connection before the client counts itself connected, in
  // any state of any run, and then under the client's own flag.
  lemma NeverServedEarly(w: World, ts: seq<Turn>)
    requires Sized(w) && ServerResult(w, RunOf(w, ts).server).Some?
    ensures ClientResult(w, RunOf(w, ts)) == Connected
    ensures w.clientCore == w.serverCore && Lookup(w.md5, w.clients, w.md5(w.vkey)).Some?
    ensures ServerResult(w, RunOf(w, ts).server)
      == Some(Dispatch(w.connType, Lookup(w.md5, w.clients, w.md5(w.vkey)).value, w.clientVersion))
  {
    ServedFields(w, ts);
    var evs := ReferenceRun(w);
    TypeIsLast(w, evs);
    OutcomeIsRest(w);
    LastWordWasSaid(Client(w), Server(w), evs, ts);
  }

  // Whoever is served has sent everything that a successful handshake sends.
  lemma ServedFields(w: World, ts: seq<Turn>)
    requires Sized(w) && ServerResult(w, RunOf(w, ts).server).Some?
    ensures w.clientCore == w.serverCore && Lookup(w.md5, w.clients, w.md5(w.vkey)).Some?
    ensures RunOf(w, ts).server.step == 9 && RunOf(w, ts).server.fields == ServerFields(w, 7)
  {
    ReadSoFar(w, ts);
    var fields, all := RunOf(w, ts).server.fields, Outcome(w).server.fields;
    assert |all| <= 7 && fields == all[..|fields|];
  }

  // In a handshake that succeeds the connection type is the client's last word.
  lemma TypeIsLast(w: World, evs: seq<Event>)
    requires Sized(w) && Reaches(w, evs, Outcome(w))
    requires w.clientCore == w.serverCore && Lookup(w.md5, w.clients, w.md5(w.vkey)).Some?
    ensures var cs := Side(evs, true); |cs| == 7 && cs[6] == Snd(w.connType)
    ensures |Side(evs, false)| == 9
  {
    LegalBooks(Client(w), Server(w), evs);
    var cs := Side(evs, true);
    assert |cs| == 7;
    SeventhOp(w, FieldsOf(cs[..6]), cs[6]);
  }

  lemma SeventhOp(w: World, fields: seq<seq<byte>>, op: Op)
    requires Client(w)(6, fields) == ActionOf(op)
    ensures op == Snd(w.connType)
  {
  }
}
