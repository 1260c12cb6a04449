// The language Unmarshal accepts and what it recovers, against an encoder for the
// ClientHello grammar of section 7.4.1.2 of RFC 5246.
module ClientHelloGrammar {
  import opened Common
  import opened ClientHello

  // --------------------------------------------------------------------- encoder

  function EncodeWords(ws: seq<uint16>): (b: seq<byte>)
    ensures |b| == 2 * |ws|
  {
    if ws == [] then [] else EncodeWord(ws[0]) + EncodeWords(ws[1..])
  }

  // An entry of a server name list; kind 0 is host_name.
  datatype Name = Name(kind: byte, text: seq<byte>)

  predicate FitsWord(n: int) {
    n < 0x1_0000
  }

  predicate NamesFit(names: seq<Name>) {
    forall i :: 0 <= i < |names| ==> FitsWord(|names[i].text|)
  }

  function EncodeName(n: Name): seq<byte>
    requires FitsWord(|n.text|)
  {
    [n.kind] + EncodeWord(|n.text|) + n.text
  }

  // A server name list: entries of other kinds, then perhaps a host_name and,
  // behind it, bytes that are never looked at.
  function EncodeList(others: seq<Name>, host: Option<seq<byte>>, ignored: seq<byte>): seq<byte>
    requires NamesFit(others) && (host.Some? ==> FitsWord(|host.value|))
    decreases others
  {
    if others != [] then EncodeName(others[0]) + EncodeList(others[1..], host, ignored)
    else if host.Some? then EncodeName(Name(0, host.value)) + ignored
    else ignored
  }

  predicate ProtocolsFit(ps: seq<seq<byte>>) {
    forall i :: 0 <= i < |ps| ==> 0 < |ps[i]| < 0x100
  }

  function EncodeProtocol(p: seq<byte>): seq<byte>
    requires |p| < 0x100
  {
    [|p|] + p
  }

  function EncodeProtocols(ps: seq<seq<byte>>): seq<byte>
    requires ProtocolsFit(ps)
  {
    if ps == [] then [] else EncodeProtocol(ps[0]) + EncodeProtocols(ps[1..])
  }

  datatype Ext =
    | ServerName(others: seq<Name>, host: Option<seq<byte>>, ignored: seq<byte>)
    | NextProtoNeg
    | StatusRequest(request: seq<byte>)
    | Curves(ids: seq<uint16>)
    | Points(formats: seq<byte>)
    | Ticket(ticket: seq<byte>)
    | SignatureAlgorithms(schemes: seq<uint16>)
    | Renegotiation(info: seq<byte>)
    | Alpn(protocols: seq<seq<byte>>)
    | Sct
    | Other(other: uint16, data: seq<byte>)

  function Kind(e: Ext): uint16 {
    match e
    case ServerName(_, _, _) => SERVER_NAME
    case NextProtoNeg => NEXT_PROTO_NEG
    case StatusRequest(_) => STATUS_REQUEST
    case Curves(_) => SUPPORTED_CURVES
    case Points(_) => SUPPORTED_POINTS
    case Ticket(_) => SESSION_TICKET
    case SignatureAlgorithms(_) => SIGNATURE_ALGORITHMS
    case Renegotiation(_) => RENEGOTIATION_INFO
    case Alpn(_) => ALPN
    case Sct => SCT
    case Other(other, _) => other
  }

  predicate Known(kind: uint16) {
    kind in [SERVER_NAME, NEXT_PROTO_NEG, STATUS_REQUEST, SUPPORTED_CURVES, SUPPORTED_POINTS, SESSION_TICKET,
             SIGNATURE_ALGORITHMS, RENEGOTIATION_INFO, ALPN, SCT]
  }

  predicate Fits(e: Ext) {
    match e
    case ServerName(others, host, ignored) =>
      && NamesFit(others) && (forall i :: 0 <= i < |others| ==> others[i].kind != 0)
      && (if host.Some? then FitsWord(|host.value|) && !EndsInDot(host.value) else ignored == [])
      && FitsWord(|EncodeList(others, host, ignored)| + 2)
    case NextProtoNeg => true
    case StatusRequest(request) => FitsWord(|request|)
    case Curves(ids) => FitsWord(2 * |ids| + 2)
    case Points(formats) => |formats| < 0x100
    case Ticket(ticket) => FitsWord(|ticket|)
    case SignatureAlgorithms(schemes) => FitsWord(2 * |schemes| + 2)
    case Renegotiation(info) => |info| < 0x100
    case Alpn(protocols) => ProtocolsFit(protocols) && FitsWord(|EncodeProtocols(protocols)| + 2)
    case Sct => true
    case Other(other, data) => !Known(other) && FitsWord(|data|)
  }

  function Body(e: Ext): (b: seq<byte>)
    requires Fits(e)
    ensures FitsWord(|b|)
  {
    match e
    case ServerName(others, host, ignored) =>
      EncodeWord(|EncodeList(others, host, ignored)|) + EncodeList(others, host, ignored)
    case NextProtoNeg => []
    case StatusRequest(request) => request
    case Curves(ids) => EncodeWord(2 * |ids|) + EncodeWords(ids)
    case Points(formats) => [|formats|] + formats
    case Ticket(ticket) => ticket
    case SignatureAlgorithms(schemes) => EncodeWord(2 * |schemes|) + EncodeWords(schemes)
    case Renegotiation(info) => [|info|] + info
    case Alpn(protocols) => EncodeWord(|EncodeProtocols(protocols)|) + EncodeProtocols(protocols)
    case Sct => []
    case Other(other, data) => data
  }

  predicate AllFit(es: seq<Ext>) {
    forall i :: 0 <= i < |es| ==> Fits(es[i])
  }

  // (type, length, body) records back to back.
  function EncodeExts(es: seq<Ext>): seq<byte>
    requires AllFit(es)
  {
    if es == [] then []
    else EncodeWord(Kind(es[0])) + EncodeWord(|Body(es[0])|) + Body(es[0]) + EncodeExts(es[1..])
  }

  // header: handshake type and 24-bit length, which the parser does not look at.
  datatype Hello = Hello(header: seq<byte>, vers: uint16, random: seq<byte>, sessionId: seq<byte>,
                         suites: seq<uint16>, compression: seq<byte>, exts: Option<seq<Ext>>)

  predicate BlockFits(exts: Option<seq<Ext>>) {
    exts.Some? ==> AllFit(exts.value) && FitsWord(|EncodeExts(exts.value)|)
  }

  function EncodeBlock(exts: Option<seq<Ext>>): seq<byte>
    requires BlockFits(exts)
  {
    if exts.None? then [] else EncodeWord(|EncodeExts(exts.value)|) + EncodeExts(exts.value)
  }

  function EncodeCompression(compression: seq<byte>, exts: Option<seq<Ext>>): (b: seq<byte>)
    requires |compression| < 0x100 && BlockFits(exts)
    ensures |b| >= 1
  {
    [|compression|] + compression + EncodeBlock(exts)
  }

  function EncodeSuites(suites: seq<uint16>, tail: seq<byte>): (b: seq<byte>)
    requires FitsWord(2 * |suites|)
    ensures |b| >= 2 + |tail|
  {
    EncodeWord(2 * |suites|) + EncodeWords(suites) + tail
  }

  function EncodeFront(header: seq<byte>, vers: uint16, random: seq<byte>, sessionId: seq<byte>,
      tail: seq<byte>): seq<byte>
    requires |sessionId| <= 32
  {
    header + EncodeWord(vers) + random + [|sessionId|] + sessionId + tail
  }

  predicate WellFormed(h: Hello) {
    && |h.header| == 4 && |h.random| == 32 && |h.sessionId| <= 32
    && FitsWord(2 * |h.suites|) && |h.compression| < 0x100
    && BlockFits(h.exts)
  }

  function Encode(h: Hello): seq<byte>
    requires WellFormed(h)
  {
    EncodeFront(h.header, h.vers, h.random, h.sessionId,
      EncodeSuites(h.suites, EncodeCompression(h.compression, h.exts)))
  }

  // --------------------------------------------------------------------- meaning

  // What one extension sets.
  function Sets(m: Msg, e: Ext): Msg {
    match e
    case ServerName(_, host, _) => if host.Some? then m.(serverName := host.value) else m
    case NextProtoNeg => m.(nextProtoNeg := true)
    case StatusRequest(request) => m.(ocspStapling := request != [] && request[0] == STATUS_OCSP)
    case Curves(ids) => m.(supportedCurves := ids)
    case Points(formats) => m.(supportedPoints := formats)
    case Ticket(ticket) => m.(ticketSupported := true, sessionTicket := ticket)
    case SignatureAlgorithms(schemes) => m.(supportedSignatureAlgorithms := schemes)
    case Renegotiation(info) => m.(secureRenegotiation := info, secureRenegotiationSupported := true)
    case Alpn(protocols) => m.(alpnProtocols := m.alpnProtocols + protocols)
    case Sct => m.(scts := true)
    case Other(_, _) => m
  }

  function SetsAll(m: Msg, es: seq<Ext>): Msg
    decreases es
  {
    if es == [] then m else SetsAll(Sets(m, es[0]), es[1..])
  }

  // An object that held m, before the extensions are looked at.
  function Start(m: Msg, suites: seq<uint16>): Msg {
    Reset(m.(secureRenegotiationSupported := m.secureRenegotiationSupported || SCSV_RENEGOTIATION in suites))
  }

  // The message a hello stands for, on an object that held m before.
  function Meaning(m: Msg, h: Hello): Msg {
    if h.exts.None? then Start(m, h.suites) else SetsAll(Start(m, h.suites), h.exts.value)
  }

  // ----------------------------------------------------------- parsing an encoding

  lemma {:induction false} WordsRoundTrip(ws: seq<uint16>)
    ensures Words(EncodeWords(ws)) == ws
  {
    if ws != [] {
      WordsRoundTrip(ws[1..]);
      WordRoundTrip(ws[0]);
      assert EncodeWords(ws)[2..] == EncodeWords(ws[1..]);
    }
  }

  lemma {:induction false} WordsBytes(b: seq<byte>)
    requires |b| % 2 == 0
    ensures EncodeWords(Words(b)) == b && |b| == 2 * |Words(b)|
  {
    if b != [] {
      WordsBytes(b[2..]);
      WordBytes(b[0], b[1]);
      assert Words(b)[1..] == Words(b[2..]);
    }
  }

  // A body behind its 16-bit length.
  lemma LengthPrefixed(body: seq<byte>)
    requires FitsWord(|body|)
    ensures var b := EncodeWord(|body|) + body;
      Word(b[0], b[1]) == |body| && b[2..] == body
  {
    WordRoundTrip(|body|);
  }

  // What the name loop sees of its first entry.
  lemma NameHead(m: Msg, n: Name, rest: seq<byte>)
    requires FitsWord(|n.text|)
    ensures Names(m, EncodeName(n) + rest)
      == if n.kind == 0 then (!EndsInDot(n.text), m.(serverName := n.text)) else Names(m, rest)
  {
    var d := EncodeName(n) + rest;
    WordRoundTrip(|n.text|);
    assert d[0] == n.kind && d[1] == EncodeWord(|n.text|)[0] && d[2] == EncodeWord(|n.text|)[1];
    assert d[3..] == n.text + rest;
    assert d[3..][..|n.text|] == n.text && d[3..][|n.text|..] == rest;
  }

  lemma {:induction false} ParseNames(m: Msg, others: seq<Name>, host: Option<seq<byte>>, ignored: seq<byte>)
    requires NamesFit(others) && forall i :: 0 <= i < |others| ==> others[i].kind != 0
    requires if host.Some? then FitsWord(|host.value|) && !EndsInDot(host.value) else ignored == []
    ensures Names(m, EncodeList(others, host, ignored)) == (true, Sets(m, ServerName(others, host, ignored)))
    decreases others
  {
    if others != [] {
      NameHead(m, others[0], EncodeList(others[1..], host, ignored));
      ParseNames(m, others[1..], host, ignored);
    } else if host.Some? {
      NameHead(m, Name(0, host.value), ignored);
    }
  }

  lemma ProtocolHead(m: Msg, p: seq<byte>, rest: seq<byte>)
    requires 0 < |p| < 0x100
    ensures Protocols(m, EncodeProtocol(p) + rest) == Protocols(m.(alpnProtocols := m.alpnProtocols + [p]), rest)
  {
    var d := EncodeProtocol(p) + rest;
    assert d[0] == |p| && d[1..] == p + rest;
    assert d[1..][..|p|] == p && d[1..][|p|..] == rest;
  }

  lemma {:induction false} ParseProtocols(m: Msg, ps: seq<seq<byte>>)
    requires ProtocolsFit(ps)
    ensures Protocols(m, EncodeProtocols(ps)) == (true, m.(alpnProtocols := m.alpnProtocols + ps))
    decreases ps
  {
    if ps == [] {
      assert m.alpnProtocols + ps == m.alpnProtocols;
    } else {
      var m' := m.(alpnProtocols := m.alpnProtocols + [ps[0]]);
      ProtocolHead(m, ps[0], EncodeProtocols(ps[1..]));
      ParseProtocols(m', ps[1..]);
      Associate(m.alpnProtocols, [ps[0]], ps[1..]);
      CutOne(ps);
    }
  }

  lemma WordListBody(ws: seq<uint16>)
    requires FitsWord(2 * |ws| + 2)
    ensures var b := EncodeWord(2 * |ws|) + EncodeWords(ws);
      Word(b[0], b[1]) == 2 * |ws| && |b| == 2 * |ws| + 2 && b[2..] == EncodeWords(ws)
  {
    LengthPrefixed(EncodeWords(ws));
  }

  lemma ParseServerName(m: Msg, e: Ext)
    requires Fits(e) && e.ServerName?
    ensures Extension(m, SERVER_NAME, Body(e)) == (true, Sets(m, e))
  {
    LengthPrefixed(EncodeList(e.others, e.host, e.ignored));
    ParseNames(m, e.others, e.host, e.ignored);
  }

  lemma ParseAlpn(m: Msg, ps: seq<seq<byte>>)
    requires Fits(Alpn(ps))
    ensures Extension(m, ALPN, Body(Alpn(ps))) == (true, Sets(m, Alpn(ps)))
  {
    LengthPrefixed(EncodeProtocols(ps));
    ParseProtocols(m, ps);
  }

  lemma ParseCurves(m: Msg, ids: seq<uint16>)
    requires Fits(Curves(ids))
    ensures Extension(m, SUPPORTED_CURVES, Body(Curves(ids))) == (true, Sets(m, Curves(ids)))
  {
    WordListBody(ids);
    WordsRoundTrip(ids);
  }

  lemma ParseSignatureAlgorithms(m: Msg, schemes: seq<uint16>)
    requires Fits(SignatureAlgorithms(schemes))
    ensures Extension(m, SIGNATURE_ALGORITHMS, Body(SignatureAlgorithms(schemes)))
      == (true, Sets(m, SignatureAlgorithms(schemes)))
  {
    WordListBody(schemes);
    WordsRoundTrip(schemes);
    EvenLength(|schemes|);
  }

  lemma EvenLength(n: nat)
    ensures (2 * n + 2) % 2 == 0 && 2 * n % 2 == 0
  {
  }

  lemma ParseExtension(m: Msg, e: Ext)
    requires Fits(e)
    ensures Extension(m, Kind(e), Body(e)) == (true, Sets(m, e))
  {
    match e
    case ServerName(_, _, _) => ParseServerName(m, e);
    case Curves(ids) => ParseCurves(m, ids);
    case SignatureAlgorithms(schemes) => ParseSignatureAlgorithms(m, schemes);
    case Alpn(protocols) => ParseAlpn(m, protocols);
    case Points(formats) => assert Body(e)[1..] == formats;
    case Renegotiation(info) => assert Body(e)[1..] == info;
    case _ =>
  }

  // The block is read as one record and the rest.
  lemma RecordHead(m: Msg, kind: uint16, body: seq<byte>, rest: seq<byte>)
    requires FitsWord(|body|)
    ensures var d := EncodeWord(kind) + EncodeWord(|body|) + body + rest;
      var (ok, m') := Extension(m, kind, body);
      Extensions(m, d) == if ok then Extensions(m', rest) else (false, m')
  {
    var d := EncodeWord(kind) + EncodeWord(|body|) + body + rest;
    WordRoundTrip(kind);
    WordRoundTrip(|body|);
    assert d[0] == EncodeWord(kind)[0] && d[1] == EncodeWord(kind)[1];
    assert d[2] == EncodeWord(|body|)[0] && d[3] == EncodeWord(|body|)[1];
    assert d[4..4 + |body|] == body && d[4 + |body|..] == rest;
  }

  lemma {:induction false} ParseExts(m: Msg, es: seq<Ext>)
    requires AllFit(es)
    ensures Extensions(m, EncodeExts(es)) == (true, SetsAll(m, es))
    decreases es
  {
    if es != [] {
      var body, rest := Body(es[0]), EncodeExts(es[1..]);
      ParseExtension(m, es[0]);
      RecordHead(m, Kind(es[0]), body, rest);
      assert EncodeExts(es) == EncodeWord(Kind(es[0])) + EncodeWord(|body|) + body + rest;
      assert Extensions(m, EncodeExts(es)) == Extensions(Sets(m, es[0]), rest);
      ParseExts(Sets(m, es[0]), es[1..]);
    }
  }

  lemma ParseBlock(m: Msg, exts: Option<seq<Ext>>)
    requires BlockFits(exts)
    ensures ExtensionBlock(m, EncodeBlock(exts)) == (true, if exts.None? then m else SetsAll(m, exts.value))
  {
    if exts.Some? {
      LengthPrefixed(EncodeExts(exts.value));
      ParseExts(m, exts.value);
    }
  }

  lemma ParseCompression(hd: Head, m: Msg, compression: seq<byte>, exts: Option<seq<Ext>>)
    requires |compression| < 0x100 && BlockFits(exts)
    ensures var (ok, m') := ExtensionBlock(Reset(m), EncodeBlock(exts));
      AfterSuites(hd, m, EncodeCompression(compression, exts)) == Result(ok, hd.(compressionMethods := compression), m')
  {
    var d := EncodeCompression(compression, exts);
    var n := |compression|;
    assert d[0] == n && d[1..1 + n] == compression && d[1 + n..] == EncodeBlock(exts);
  }

  lemma ParseSuites(hd: Head, m: Msg, suites: seq<uint16>, tail: seq<byte>)
    requires FitsWord(2 * |suites|)
    ensures var m' := m.(secureRenegotiationSupported :=
        m.secureRenegotiationSupported || SCSV_RENEGOTIATION in suites);
      AfterSession(hd, m, EncodeSuites(suites, tail)) == AfterSuites(hd.(cipherSuites := suites), m', tail)
  {
    var d, n := EncodeSuites(suites, tail), 2 * |suites|;
    SuitesParts(suites, tail);
    WordsRoundTrip(suites);
    EvenLength(|suites|);
    SuitesStep(hd, m, d, n, suites, tail);
  }

  lemma SuitesStep(hd: Head, m: Msg, d: seq<byte>, n: nat, suites: seq<uint16>, tail: seq<byte>)
    requires |d| >= 2 + n && n % 2 == 0 && Word(d[0], d[1]) == n
    requires Words(d[2..2 + n]) == suites && d[2 + n..] == tail
    ensures AfterSession(hd, m, d) == AfterSuites(hd.(cipherSuites := suites), m.(secureRenegotiationSupported :=
        m.secureRenegotiationSupported || SCSV_RENEGOTIATION in suites), tail)
  {
  }

  lemma SuitesParts(suites: seq<uint16>, tail: seq<byte>)
    requires FitsWord(2 * |suites|)
    ensures var d, n := EncodeSuites(suites, tail), 2 * |suites|;
      Word(d[0], d[1]) == n && d[2..2 + n] == EncodeWords(suites) && d[2 + n..] == tail
  {
    var d, n := EncodeSuites(suites, tail), 2 * |suites|;
    WordRoundTrip(n);
    Parts(EncodeWord(n), EncodeWords(suites), tail);
    assert d[0] == EncodeWord(n)[0] && d[1] == EncodeWord(n)[1];
  }

  // The fixed-size front of a hello.
  lemma ParseFront(hd: Head, m: Msg, header: seq<byte>, vers: uint16, random: seq<byte>, sessionId: seq<byte>,
      tail: seq<byte>)
    requires |header| == 4 && |random| == 32 && |sessionId| <= 32 && |tail| >= 3
    ensures Parse(hd, m, EncodeFront(header, vers, random, sessionId, tail))
            == AfterSession(hd.(vers := vers, random := random, sessionId := sessionId), m, tail)
  {
    var d := EncodeFront(header, vers, random, sessionId, tail);
    var n := |sessionId|;
    WordRoundTrip(vers);
    assert d[4] == EncodeWord(vers)[0] && d[5] == EncodeWord(vers)[1];
    assert d[6..38] == random && d[38] == n;
    assert d[39..39 + n] == sessionId && d[39 + n..] == tail;
  }

  // Every well-formed hello is accepted, and the object then holds what it says.
  lemma RoundTrip(hd: Head, m: Msg, h: Hello)
    requires WellFormed(h)
    ensures Parse(hd, m, Encode(h))
            == Result(true, Head(h.vers, h.random, h.sessionId, h.suites, h.compression), Meaning(m, h))
  {
    var tail := EncodeCompression(h.compression, h.exts);
    ParseFront(hd, m, h.header, h.vers, h.random, h.sessionId, EncodeSuites(h.suites, tail));
    var hd' := hd.(vers := h.vers, random := h.random, sessionId := h.sessionId);
    ParseSuites(hd', m, h.suites, tail);
    var m' := m.(secureRenegotiationSupported := m.secureRenegotiationSupported || SCSV_RENEGOTIATION in h.suites);
    ParseCompression(hd'.(cipherSuites := h.suites), m', h.compression, h.exts);
    ParseBlock(Reset(m'), h.exts);
  }

  // --------------------------------------------------- every accepted input is one

  lemma NameCut(d: seq<byte>)
    requires |d| >= 3 && |d[3..]| >= Word(d[1], d[2])
    ensures var n := Word(d[1], d[2]) as int;
      d == EncodeName(Name(d[0], d[3..][..n])) + d[3..][n..]
  {
    var n := Word(d[1], d[2]) as int;
    WordBytes(d[1], d[2]);
    CutAt(d, 3);
    CutAt(d[3..], n);
    assert d[..3] == [d[0]] + [d[1], d[2]];
    Associate(d[..3], d[3..][..n], d[3..][n..]);
  }

  lemma {:induction false} UnparseNames(m: Msg, d: seq<byte>) returns (e: Ext)
    requires Names(m, d).0 && FitsWord(|d| + 2)
    ensures e.ServerName? && Fits(e) && EncodeList(e.others, e.host, e.ignored) == d
    decreases |d|
  {
    if |d| == 0 {
      return ServerName([], None, []);
    }
    var nameLen := Word(d[1], d[2]);
    var n := Name(d[0], d[3..][..nameLen]);
    var rest := d[3..][nameLen..];
    NameCut(d);
    if d[0] == 0 {
      e := ServerName([], Some(n.text), rest);
    } else {
      var e' := UnparseNames(m, rest);
      e := ServerName([n] + e'.others, e'.host, e'.ignored);
      assert e.others[1..] == e'.others;
    }
  }

  lemma {:induction false} UnparseProtocols(m: Msg, d: seq<byte>) returns (ps: seq<seq<byte>>)
    requires Protocols(m, d).0
    ensures ProtocolsFit(ps) && EncodeProtocols(ps) == d
    decreases |d|
  {
    if |d| == 0 {
      return [];
    }
    CutOne(d);
    CutAt(d[1..], d[0]);
    var p, rest := d[1..][..d[0]], d[1..][d[0]..];
    Associate([d[0]], p, rest);
    var tail := UnparseProtocols(m.(alpnProtocols := m.alpnProtocols + [p]), rest);
    ps := [p] + tail;
    assert ps[1..] == tail;
  }

  // An accepted record is the encoding of an extension.
  lemma UnparseExtension(m: Msg, kind: uint16, body: seq<byte>) returns (e: Ext)
    requires Extension(m, kind, body).0 && FitsWord(|body|)
    ensures Fits(e) && Kind(e) == kind && Body(e) == body
  {
    if kind in [SERVER_NAME, SUPPORTED_CURVES, SIGNATURE_ALGORITHMS, ALPN] {
      e := UnparseListed(m, kind, body);
      return;
    }
    if |body| >= 1 {
      CutOne(body);
    }
    e := if kind == NEXT_PROTO_NEG then NextProtoNeg
         else if kind == STATUS_REQUEST then StatusRequest(body)
         else if kind == SUPPORTED_POINTS then Points(body[1..])
         else if kind == SESSION_TICKET then Ticket(body)
         else if kind == RENEGOTIATION_INFO then Renegotiation(body[1..])
         else if kind == SCT then Sct
         else Other(kind, body);
  }

  // The extensions whose body is a list behind its 16-bit length.
  lemma UnparseListed(m: Msg, kind: uint16, body: seq<byte>) returns (e: Ext)
    requires kind in [SERVER_NAME, SUPPORTED_CURVES, SIGNATURE_ALGORITHMS, ALPN]
    requires Extension(m, kind, body).0 && FitsWord(|body|)
    ensures Fits(e) && Kind(e) == kind && Body(e) == body
  {
    var list := body[2..];
    BehindLength(body);
    if kind == SERVER_NAME {
      e := UnparseNames(m, list);
    } else if kind == ALPN {
      var ps := UnparseProtocols(m, list);
      e := Alpn(ps);
    } else {
      e := UnparseWords(m, kind, body);
    }
  }

  lemma UnparseWords(m: Msg, kind: uint16, body: seq<byte>) returns (e: Ext)
    requires kind in [SUPPORTED_CURVES, SIGNATURE_ALGORITHMS]
    requires Extension(m, kind, body).0 && FitsWord(|body|)
    ensures Fits(e) && Kind(e) == kind && Body(e) == body
  {
    var ws := Words(body[2..]);
    WordsBytes(body[2..]);
    BehindLength(body);
    assert body == EncodeWord(2 * |ws|) + EncodeWords(ws);
    e := if kind == SUPPORTED_CURVES then Curves(ws) else SignatureAlgorithms(ws);
  }

  lemma BehindLength(body: seq<byte>)
    requires |body| >= 2
    ensures Word(body[0], body[1]) == |body| - 2 ==> body == EncodeWord(|body| - 2) + body[2..]
  {
    WordBytes(body[0], body[1]);
    CutTwo(body);
  }

  lemma RecordCut(data: seq<byte>)
    requires |data| >= 4 && |data[4..]| >= Word(data[2], data[3])
    ensures var body := data[4..4 + Word(data[2], data[3]) as int];
      data == EncodeWord(Word(data[0], data[1])) + EncodeWord(|body|) + body + data[4 + |body|..]
  {
    var body := data[4..4 + Word(data[2], data[3]) as int];
    WordBytes(data[0], data[1]);
    WordBytes(data[2], data[3]);
    CutAt(data, 4);
    CutAt(data[4..], |body|);
    assert data[..4] == [data[0], data[1]] + [data[2], data[3]];
    assert data[4..][..|body|] == body && data[4..][|body|..] == data[4 + |body|..];
    Associate(data[..4], body, data[4 + |body|..]);
  }

  // An accepted extension block is tiled exactly by its records.
  lemma {:induction false} UnparseExts(m: Msg, data: seq<byte>) returns (es: seq<Ext>)
    requires Extensions(m, data).0
    ensures AllFit(es) && EncodeExts(es) == data
    decreases |data|
  {
    if |data| == 0 {
      return [];
    }
    var kind := Word(data[0], data[1]);
    var length := Word(data[2], data[3]);
    var body := data[4..4 + length as int];
    var rest := data[4 + length as int..];
    RecordCut(data);
    var e := UnparseExtension(m, kind, body);
    var tail := UnparseExts(Extension(m, kind, body).1, rest);
    es := [e] + tail;
    assert es[1..] == tail;
  }

  lemma UnparseBlock(m: Msg, data: seq<byte>) returns (exts: Option<seq<Ext>>)
    requires ExtensionBlock(m, data).0
    ensures BlockFits(exts) && EncodeBlock(exts) == data
  {
    if |data| == 0 {
      return None;
    }
    WordBytes(data[0], data[1]);
    CutTwo(data);
    var es := UnparseExts(m, data[2..]);
    return Some(es);
  }

  lemma UnparseCompression(hd: Head, m: Msg, data: seq<byte>) returns (compression: seq<byte>, exts: Option<seq<Ext>>)
    requires AfterSuites(hd, m, data).ok
    ensures |compression| < 0x100 && BlockFits(exts) && EncodeCompression(compression, exts) == data
  {
    var c := data[0] as int;
    compression := data[1..1 + c];
    exts := UnparseBlock(Reset(m), data[1 + c..]);
    CutOne(data);
    CutAt(data[1..], c);
    assert data[1..][..c] == compression && data[1..][c..] == data[1 + c..];
    Associate([data[0]], compression, data[1 + c..]);
  }

  lemma UnparseSuites(hd: Head, m: Msg, data: seq<byte>)
      returns (suites: seq<uint16>, hd': Head, m': Msg, tail: seq<byte>)
    requires AfterSession(hd, m, data).ok
    ensures FitsWord(2 * |suites|) && EncodeSuites(suites, tail) == data && AfterSuites(hd', m', tail).ok
  {
    var s := Word(data[0], data[1]) as int;
    suites := Words(data[2..2 + s]);
    tail := data[2 + s..];
    hd' := hd.(cipherSuites := suites);
    m' := m.(secureRenegotiationSupported := m.secureRenegotiationSupported || SCSV_RENEGOTIATION in suites);
    WordsBytes(data[2..2 + s]);
    SuitesCut(data, s);
  }

  lemma SuitesCut(data: seq<byte>, s: nat)
    requires |data| >= 2 + s && s == Word(data[0], data[1])
    ensures data == EncodeWord(s) + data[2..2 + s] + data[2 + s..]
  {
    WordBytes(data[0], data[1]);
    CutTwo(data);
    CutAt(data[2..], s);
    assert data[2..][..s] == data[2..2 + s] && data[2..][s..] == data[2 + s..];
    Associate([data[0], data[1]], data[2..2 + s], data[2 + s..]);
  }

  lemma UnparseTail(hd: Head, m: Msg, data: seq<byte>)
      returns (suites: seq<uint16>, compression: seq<byte>, exts: Option<seq<Ext>>)
    requires AfterSession(hd, m, data).ok
    ensures FitsWord(2 * |suites|) && |compression| < 0x100 && BlockFits(exts)
    ensures EncodeSuites(suites, EncodeCompression(compression, exts)) == data
  {
    var hd', m', tail;
    suites, hd', m', tail := UnparseSuites(hd, m, data);
    compression, exts := UnparseCompression(hd', m', tail);
  }

  // Every accepted input is the encoding of a well-formed hello.
  lemma Unparse(hd: Head, m: Msg, data: seq<byte>) returns (h: Hello)
    requires Parse(hd, m, data).ok
    ensures WellFormed(h) && Encode(h) == data
  {
    AcceptedFront(hd, m, data);
    var n := data[38] as int;
    var suites, compression, exts := UnparseTail(FrontOf(hd, data), m, data[39 + n..]);
    h := UnparseFront(data, n, suites, compression, exts);
  }

  function FrontOf(hd: Head, data: seq<byte>): Head
    requires |data| >= 42 && |data| >= 39 + data[38] as int
  {
    var h1 := hd.(vers := Word(data[4], data[5]), random := data[6..38]);
    h1.(sessionId := data[39..39 + data[38] as int])
  }

  lemma AcceptedFront(hd: Head, m: Msg, data: seq<byte>)
    requires Parse(hd, m, data).ok
    ensures |data| >= 42 && |data| >= 39 + data[38] as int && data[38] <= 32
    ensures AfterSession(FrontOf(hd, data), m, data[39 + data[38] as int..]).ok
  {
  }

  lemma UnparseFront(data: seq<byte>, n: nat, suites: seq<uint16>, compression: seq<byte>, exts: Option<seq<Ext>>)
      returns (h: Hello)
    requires |data| >= 39 + n && data[38] == n <= 32
    requires FitsWord(2 * |suites|) && |compression| < 0x100 && BlockFits(exts)
    requires EncodeSuites(suites, EncodeCompression(compression, exts)) == data[39 + n..]
    ensures WellFormed(h) && Encode(h) == data
  {
    h := Hello(data[..4], Word(data[4], data[5]), data[6..38], data[39..39 + n], suites, compression, exts);
    FrontCut(data, n);
  }

  lemma FrontCut(data: seq<byte>, n: nat)
    requires |data| >= 39 + n && data[38] == n <= 32
    ensures data == EncodeFront(data[..4], Word(data[4], data[5]), data[6..38], data[39..39 + n], data[39 + n..])
  {
    WordBytes(data[4], data[5]);
    assert data == data[..4] + [data[4], data[5]] + data[6..38] + [data[38]] + data[39..39 + n] + data[39 + n..];
  }

  // Soundness and completeness: Unmarshal returns true on exactly the encodings of
  // well-formed hellos, whatever the object held before.
  lemma AcceptsExactlyTheGrammar(hd: Head, m: Msg, data: seq<byte>)
    ensures Parse(hd, m, data).ok <==> exists h: Hello :: WellFormed(h) && Encode(h) == data
  {
    if Parse(hd, m, data).ok {
      var h := Unparse(hd, m, data);
    }
    if h: Hello :| WellFormed(h) && Encode(h) == data {
      RoundTrip(hd, m, h);
    }
  }

  // ------------------------------------------------------------------- recovered

  // No two extensions of the same type (section 7.4.1.4 of RFC 5246).
  ghost predicate OnePerType(es: seq<Ext>) {
    forall i, j :: 0 <= i < j < |es| ==> Kind(es[i]) != Kind(es[j])
  }

  // The fields of a message that an extension type governs; the others are blank.
  datatype Fields = Fields(flag: bool, bytes: seq<byte>, words: seq<uint16>, texts: seq<seq<byte>>)

  function Governed(m: Msg, kind: uint16): Fields {
    if kind == SERVER_NAME then Fields(false, m.serverName, [], [])
    else if kind == NEXT_PROTO_NEG then Fields(m.nextProtoNeg, [], [], [])
    else if kind == STATUS_REQUEST then Fields(m.ocspStapling, [], [], [])
    else if kind == SUPPORTED_CURVES then Fields(false, [], m.supportedCurves, [])
    else if kind == SUPPORTED_POINTS then Fields(false, m.supportedPoints, [], [])
    else if kind == SESSION_TICKET then Fields(m.ticketSupported, m.sessionTicket, [], [])
    else if kind == SIGNATURE_ALGORITHMS then Fields(false, [], m.supportedSignatureAlgorithms, [])
    else if kind == RENEGOTIATION_INFO then Fields(m.secureRenegotiationSupported, m.secureRenegotiation, [], [])
    else if kind == ALPN then Fields(false, [], [], m.alpnProtocols)
    else if kind == SCT then Fields(m.scts, [], [], [])
    else Fields(false, [], [], [])
  }

  predicate SameFields(a: Msg, b: Msg, kind: uint16) {
    Governed(a, kind) == Governed(b, kind)
  }

  lemma SetsOnlyItsFields(m: Msg, e: Ext, kind: uint16)
    requires Kind(e) != kind
    ensures SameFields(Sets(m, e), m, kind)
  {
    match e
    case ServerName(_, _, _) =>
    case NextProtoNeg =>
    case StatusRequest(_) =>
    case Curves(_) =>
    case Points(_) =>
    case Ticket(_) =>
    case SignatureAlgorithms(_) =>
    case Renegotiation(_) =>
    case Alpn(_) =>
    case Sct =>
    case Other(_, _) =>
  }

  lemma {:induction false} FieldsUntouched(m: Msg, es: seq<Ext>, kind: uint16)
    requires AllFit(es)
    requires forall i :: 0 <= i < |es| ==> Kind(es[i]) != kind
    ensures SameFields(SetsAll(m, es), m, kind)
    decreases es
  {
    if es != [] {
      SetsOnlyItsFields(m, es[0], kind);
      FieldsUntouched(Sets(m, es[0]), es[1..], kind);
    }
  }

  // The fields governed by the i-th extension are what that extension sets on a
  // message that still has the initial values there.
  lemma {:induction false} FieldsFrom(m: Msg, es: seq<Ext>, i: nat) returns (m': Msg)
    requires AllFit(es) && OnePerType(es) && i < |es|
    ensures SameFields(m', m, Kind(es[i]))
    ensures SameFields(SetsAll(m, es), Sets(m', es[i]), Kind(es[i]))
    decreases es
  {
    if i == 0 {
      m' := m;
      FieldsUntouched(Sets(m, es[0]), es[1..], Kind(es[0]));
    } else {
      SetsOnlyItsFields(m, es[0], Kind(es[i]));
      m' := FieldsFrom(Sets(m, es[0]), es[1..], i - 1);
    }
  }

  // r shows the content of e.
  predicate Shows(r: Msg, e: Ext) {
    match e
    case ServerName(_, host, _) => r.serverName == if host.Some? then host.value else []
    case NextProtoNeg => r.nextProtoNeg
    case StatusRequest(request) => r.ocspStapling <==> request != [] && request[0] == 1
    case Curves(ids) => r.supportedCurves == ids
    case Points(formats) => r.supportedPoints == formats
    case Ticket(ticket) => r.ticketSupported && r.sessionTicket == ticket
    case SignatureAlgorithms(schemes) => r.supportedSignatureAlgorithms == schemes
    case Renegotiation(info) => r.secureRenegotiationSupported && r.secureRenegotiation == info
    case Alpn(protocols) => r.alpnProtocols == protocols
    case Sct => r.scts
    case Other(_, _) => true
  }

  // Parsing a hello with at most one extension per type recovers the fixed part and
  // the content of every extension in it.
  lemma Recovered(hd: Head, m: Msg, h: Hello, i: nat)
    requires WellFormed(h) && h.exts.Some? && OnePerType(h.exts.value) && i < |h.exts.value|
    ensures var r := Parse(hd, m, Encode(h));
      && r.ok && r.head == Head(h.vers, h.random, h.sessionId, h.suites, h.compression)
      && Shows(r.msg, h.exts.value[i])
  {
    RoundTrip(hd, m, h);
    var start := Start(m, h.suites);
    var m' := FieldsFrom(start, h.exts.value, i);
    SetsShows(m', start, h.exts.value[i]);
    ShowsOnlyItsFields(Meaning(m, h), Sets(m', h.exts.value[i]), h.exts.value[i]);
  }

  lemma SetsShows(m': Msg, start: Msg, e: Ext)
    requires SameFields(m', start, Kind(e)) && start.serverName == [] && start.alpnProtocols == []
    ensures Shows(Sets(m', e), e)
  {
  }

  lemma ShowsOnlyItsFields(a: Msg, b: Msg, e: Ext)
    requires SameFields(a, b, Kind(e)) && Shows(b, e)
    ensures Shows(a, e)
  {
  }

  // Without a server name extension the name stays empty.
  lemma NoServerName(hd: Head, m: Msg, h: Hello)
    requires WellFormed(h)
    requires h.exts.Some? ==> forall i :: 0 <= i < |h.exts.value| ==> !h.exts.value[i].ServerName?
    ensures Parse(hd, m, Encode(h)).msg.serverName == []
  {
    RoundTrip(hd, m, h);
    if h.exts.Some? {
      var start := Start(m, h.suites);
      forall i | 0 <= i < |h.exts.value| ensures Kind(h.exts.value[i]) != SERVER_NAME {
        assert Fits(h.exts.value[i]);
      }
      FieldsUntouched(start, h.exts.value, SERVER_NAME);
    }
  }

  // No extension of that type.
  predicate Lacks(h: Hello, kind: uint16) {
    h.exts.Some? ==> forall i :: 0 <= i < |h.exts.value| ==> Kind(h.exts.value[i]) != kind
  }

  lemma AbsentField(m: Msg, h: Hello, kind: uint16)
    requires WellFormed(h) && Lacks(h, kind)
    ensures SameFields(Meaning(m, h), Start(m, h.suites), kind)
  {
    if h.exts.Some? {
      FieldsUntouched(Start(m, h.suites), h.exts.value, kind);
    }
  }

  // The fields of the extensions that a hello does not have, in a message r read into an
  // object that held m: blank, but for curves, points and renegotiation info, which stay
  // as they were; renegotiation is supported if it was or 0x00ff is among the suites.
  predicate RestIsBlank(r: Msg, m: Msg, h: Hello) {
    && (Lacks(h, 0) ==> r.serverName == [])
    && (Lacks(h, 5) ==> !r.ocspStapling)
    && (Lacks(h, 10) ==> r.supportedCurves == m.supportedCurves)
    && (Lacks(h, 11) ==> r.supportedPoints == m.supportedPoints)
    && (Lacks(h, 13) ==> r.supportedSignatureAlgorithms == [])
    && (Lacks(h, 16) ==> r.alpnProtocols == [])
    && (Lacks(h, 18) ==> !r.scts)
    && (Lacks(h, 35) ==> !r.ticketSupported && r.sessionTicket == [])
    && (Lacks(h, 13172) ==> !r.nextProtoNeg)
    && (Lacks(h, 0xff01) ==>
         && r.secureRenegotiation == m.secureRenegotiation
         && (r.secureRenegotiationSupported <==> m.secureRenegotiationSupported || 0x00ff in h.suites))
  }

  lemma BlankByKind(r: Msg, m: Msg, h: Hello, kind: uint16)
    requires SameFields(r, Start(m, h.suites), kind)
    ensures kind == 0 ==> r.serverName == []
    ensures kind == 5 ==> !r.ocspStapling
    ensures kind == 10 ==> r.supportedCurves == m.supportedCurves
    ensures kind == 11 ==> r.supportedPoints == m.supportedPoints
    ensures kind == 13 ==> r.supportedSignatureAlgorithms == []
    ensures kind == 16 ==> r.alpnProtocols == []
    ensures kind == 18 ==> !r.scts
    ensures kind == 35 ==> !r.ticketSupported && r.sessionTicket == []
    ensures kind == 13172 ==> !r.nextProtoNeg
    ensures kind == 0xff01 ==>
      && r.secureRenegotiation == m.secureRenegotiation
      && (r.secureRenegotiationSupported <==> m.secureRenegotiationSupported || 0x00ff in h.suites)
  {
  }

  lemma AllBlank(r: Msg, m: Msg, h: Hello)
    requires forall kind :: Lacks(h, kind) ==> SameFields(r, Start(m, h.suites), kind)
    ensures RestIsBlank(r, m, h)
  {
    if Lacks(h, 0) { BlankByKind(r, m, h, 0); }
    if Lacks(h, 5) { BlankByKind(r, m, h, 5); }
    if Lacks(h, 10) { BlankByKind(r, m, h, 10); }
    if Lacks(h, 11) { BlankByKind(r, m, h, 11); }
    if Lacks(h, 13) { BlankByKind(r, m, h, 13); }
    if Lacks(h, 16) { BlankByKind(r, m, h, 16); }
    if Lacks(h, 18) { BlankByKind(r, m, h, 18); }
    if Lacks(h, 35) { BlankByKind(r, m, h, 35); }
    if Lacks(h, 13172) { BlankByKind(r, m, h, 13172); }
    if Lacks(h, 0xff01) { BlankByKind(r, m, h, 0xff01); }
  }

  // What a hello leaves out is blank in the message, whatever else it has and whatever the
  // object held.
  lemma AbsentFields(hd: Head, m: Msg, h: Hello)
    requires WellFormed(h)
    ensures RestIsBlank(Parse(hd, m, Encode(h)).msg, m, h)
  {
    RoundTrip(hd, m, h);
    forall kind | Lacks(h, kind) ensures SameFields(Meaning(m, h), Start(m, h.suites), kind) {
      AbsentField(m, h, kind);
    }
    AllBlank(Meaning(m, h), m, h);
  }

  // No accepted input leaves a name that ends in a dot.
  lemma NoTrailingDot(hd: Head, m: Msg, data: seq<byte>)
    requires Parse(hd, m, data).ok
    ensures var name := Parse(hd, m, data).msg.serverName; name != [] ==> name[|name| - 1] != 46
  {
    var h := Unparse(hd, m, data);
    NameOfParsed(hd, m, h, data);
  }

  lemma NameOfParsed(hd: Head, m: Msg, h: Hello, data: seq<byte>)
    requires WellFormed(h) && Encode(h) == data
    ensures var name := Parse(hd, m, data).msg.serverName; name != [] ==> name[|name| - 1] != 46
  {
    ParsedMessage(hd, m, h, data);
    NameOfMeaning(m, h);
  }

  lemma ParsedMessage(hd: Head, m: Msg, h: Hello, data: seq<byte>)
    requires WellFormed(h) && Encode(h) == data
    ensures Parse(hd, m, data).msg == Meaning(m, h)
  {
    RoundTrip(hd, m, h);
  }

  lemma NameOfMeaning(m: Msg, h: Hello)
    requires WellFormed(h)
    ensures var name := Meaning(m, h).serverName; name != [] ==> name[|name| - 1] != 46
  {
    if h.exts.Some? {
      DotsNeverSet(Start(m, h.suites), h.exts.value);
    }
  }

  lemma {:induction false} DotsNeverSet(m: Msg, es: seq<Ext>)
    requires AllFit(es) && (m.serverName != [] ==> m.serverName[|m.serverName| - 1] != 46)
    ensures var name := SetsAll(m, es).serverName; name != [] ==> name[|name| - 1] != 46
    decreases es
  {
    if es != [] {
      DotNotSet(m, es[0]);
      DotsNeverSet(Sets(m, es[0]), es[1..]);
    }
  }

  lemma DotNotSet(m: Msg, e: Ext)
    requires Fits(e) && (m.serverName != [] ==> m.serverName[|m.serverName| - 1] != 46)
    ensures var name := Sets(m, e).serverName; name != [] ==> name[|name| - 1] != 46
  {
    if e.ServerName? && e.host.Some? {
      assert !EndsInDot(e.host.value);
    } else {
      assert Sets(m, e).serverName == m.serverName;
    }
  }

  // ------------------------------------------------------- RFC 6066 server name lists

  // The first host_name of a name list.
  function FirstHost(names: seq<Name>): Option<seq<byte>> {
    if names == [] then None
    else if names[0].kind == 0 then Some(names[0].text)
    else FirstHost(names[1..])
  }

  function EncodeNames(names: seq<Name>): seq<byte>
    requires NamesFit(names)
  {
    if names == [] then [] else EncodeName(names[0]) + EncodeNames(names[1..])
  }

  // Any RFC 6066 name list whose first host_name has no trailing dot is a server
  // name extension that encodes as that list and carries the first host_name.
  lemma {:induction false} NameListIsCovered(names: seq<Name>) returns (e: Ext)
    requires NamesFit(names) && FitsWord(|EncodeNames(names)| + 2)
    requires var host := FirstHost(names); host.Some? && host.value != [] ==> host.value[|host.value| - 1] != 46
    ensures e.ServerName? && Fits(e) && e.host == FirstHost(names)
    ensures Body(e) == EncodeWord(|EncodeNames(names)|) + EncodeNames(names)
    decreases names
  {
    e := SplitNames(names);
  }

  lemma {:induction false} SplitNames(names: seq<Name>) returns (e: Ext)
    requires NamesFit(names) && FitsWord(|EncodeNames(names)| + 2)
    requires var host := FirstHost(names); host.Some? && host.value != [] ==> host.value[|host.value| - 1] != 46
    ensures e.ServerName? && Fits(e) && e.host == FirstHost(names)
    ensures EncodeList(e.others, e.host, e.ignored) == EncodeNames(names)
    decreases names
  {
    if names == [] {
      e := ServerName([], None, []);
    } else if names[0].kind == 0 {
      e := ServerName([], Some(names[0].text), EncodeNames(names[1..]));
      assert names[0] == Name(0, names[0].text);
    } else {
      var e' := SplitNames(names[1..]);
      e := ServerName([names[0]] + e'.others, e'.host, e'.ignored);
      assert e.others[1..] == e'.others;
    }
  }
}
