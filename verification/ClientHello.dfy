// The ClientHello parser as a function on byte strings and as the imperative code:
// section 7.4.1.2 of RFC 5246, SNI in section 3 of RFC 6066.
module ClientHello {
  import opened Common

  const STATUS_OCSP: byte := 1
  const SERVER_NAME: uint16 := 0
  const STATUS_REQUEST: uint16 := 5
  const SUPPORTED_CURVES: uint16 := 10
  const SUPPORTED_POINTS: uint16 := 11
  const SIGNATURE_ALGORITHMS: uint16 := 13
  const ALPN: uint16 := 16
  const SCT: uint16 := 18
  const SESSION_TICKET: uint16 := 35
  const NEXT_PROTO_NEG: uint16 := 13172
  const RENEGOTIATION_INFO: uint16 := 0xff01
  const SCSV_RENEGOTIATION: uint16 := 0x00ff
  const DOT: byte := 46

  // The fixed part of a message object.
  datatype Head = Head(vers: uint16, random: seq<byte>, sessionId: seq<byte>,
                       cipherSuites: seq<uint16>, compressionMethods: seq<byte>)

  // What the extensions set; nil and empty slices are not told apart.
  datatype Msg = Msg(
    nextProtoNeg: bool, serverName: seq<byte>, ocspStapling: bool, scts: bool,
    supportedCurves: seq<uint16>, supportedPoints: seq<byte>,
    ticketSupported: bool, sessionTicket: seq<byte>,
    supportedSignatureAlgorithms: seq<uint16>,
    secureRenegotiation: seq<byte>, secureRenegotiationSupported: bool,
    alpnProtocols: seq<seq<byte>>)

  // Big-endian 16-bit values, two bytes each.
  function Words(b: seq<byte>): seq<uint16>
    requires |b| % 2 == 0
  {
    if b == [] then [] else [Word(b[0], b[1])] + Words(b[2..])
  }

  predicate EndsInDot(name: seq<byte>) {
    name != [] && name[|name| - 1] == DOT
  }

  // The result of a loop or a record: acceptance, and the message as it was left.
  type Outcome = (bool, Msg)

  // The loop over a server name list; it stops at the first host_name.
  function Names(m: Msg, d: seq<byte>): Outcome
    decreases |d|
  {
    if |d| == 0 then (true, m)
    else if |d| < 3 then (false, m)
    else
      var nameLen := Word(d[1], d[2]);
      var rest := d[3..];
      if |rest| < nameLen then (false, m)
      else if d[0] == 0 then
        (!EndsInDot(rest[..nameLen]), m.(serverName := rest[..nameLen]))
      else Names(m, rest[nameLen..])
  }

  // The loop over an ALPN protocol list.
  function Protocols(m: Msg, d: seq<byte>): Outcome
    decreases |d|
  {
    if |d| == 0 then (true, m)
    else
      var stringLen := d[0];
      var rest := d[1..];
      if stringLen == 0 || stringLen > |rest| then (false, m)
      else Protocols(m.(alpnProtocols := m.alpnProtocols + [rest[..stringLen]]), rest[stringLen..])
  }

  // One extension record.
  function Extension(m: Msg, kind: uint16, body: seq<byte>): Outcome {
    var length := |body|;
    if kind == SERVER_NAME then
      if length < 2 || |body[2..]| != Word(body[0], body[1]) then (false, m) else Names(m, body[2..])
    else if kind == NEXT_PROTO_NEG then
      if length > 0 then (false, m) else (true, m.(nextProtoNeg := true))
    else if kind == STATUS_REQUEST then
      (true, m.(ocspStapling := length > 0 && body[0] == STATUS_OCSP))
    else if kind == SUPPORTED_CURVES then
      if length < 2 then (false, m)
      else
        var l := Word(body[0], body[1]);
        if l % 2 == 1 || length != l + 2 then (false, m)
        else (true, m.(supportedCurves := Words(body[2..])))
    else if kind == SUPPORTED_POINTS then
      if length < 1 || length != (body[0] as int) + 1 then (false, m)
      else (true, m.(supportedPoints := body[1..]))
    else if kind == SESSION_TICKET then
      (true, m.(ticketSupported := true, sessionTicket := body))
    else if kind == SIGNATURE_ALGORITHMS then
      if length < 2 || length % 2 != 0 || Word(body[0], body[1]) != length - 2 then (false, m)
      else (true, m.(supportedSignatureAlgorithms := Words(body[2..])))
    else if kind == RENEGOTIATION_INFO then
      if length == 0 || body[0] != length - 1 then (false, m)
      else (true, m.(secureRenegotiation := body[1..], secureRenegotiationSupported := true))
    else if kind == ALPN then
      if length < 2 || Word(body[0], body[1]) != length - 2 then (false, m)
      else Protocols(m, body[2..])
    else if kind == SCT then (length == 0, m.(scts := true))
    else (true, m)
  }

  // The loop over the extension block.
  function Extensions(m: Msg, data: seq<byte>): Outcome
    decreases |data|
  {
    if |data| == 0 then (true, m)
    else if |data| < 4 then (false, m)
    else
      var length := Word(data[2], data[3]);
      if |data[4..]| < length then (false, m)
      else
        var (ok, m') := Extension(m, Word(data[0], data[1]), data[4..4 + length]);
        if ok then Extensions(m', data[4 + length..]) else (false, m')
  }

  // What Unmarshal resets before it looks at extensions; the curves, points and
  // renegotiation fields keep their values.
  function Reset(m: Msg): Msg {
    Msg(false, [], false, false, m.supportedCurves, m.supportedPoints, false, [], [],
        m.secureRenegotiation, m.secureRenegotiationSupported, [])
  }

  // The result of the whole parse: acceptance and both halves as they were left.
  datatype Result = Result(ok: bool, head: Head, msg: Msg)

  // Everything behind the session id.
  function AfterSession(h: Head, m: Msg, data: seq<byte>): Result {
    if |data| < 2 then Result(false, h, m)
    else
      var n := Word(data[0], data[1]) as int;
      if n % 2 == 1 || |data| < 2 + n then Result(false, h, m)
      else
        var suites := Words(data[2..2 + n]);
        var m' := m.(secureRenegotiationSupported := m.secureRenegotiationSupported || SCSV_RENEGOTIATION in suites);
        AfterSuites(h.(cipherSuites := suites), m', data[2 + n..])
  }

  function AfterSuites(h: Head, m: Msg, data: seq<byte>): Result {
    if |data| < 1 || |data| < 1 + data[0] as int then Result(false, h, m)
    else
      var n := data[0] as int;
      var (ok, m') := ExtensionBlock(Reset(m), data[1 + n..]);
      Result(ok, h.(compressionMethods := data[1..1 + n]), m')
  }

  function ExtensionBlock(m: Msg, data: seq<byte>): Outcome {
    if |data| == 0 then (true, m)
    else if |data| < 2 || Word(data[0], data[1]) != |data[2..]| then (false, m)
    else Extensions(m, data[2..])
  }

  // Unmarshal on an object that held h and m before the call.
  function Parse(h: Head, m: Msg, data: seq<byte>): Result {
    if |data| < 42 then Result(false, h, m)
    else
      var h1 := h.(vers := Word(data[4], data[5]), random := data[6..38]);
      var n := data[38] as int;
      if n > 32 || |data| < 39 + n then Result(false, h1, m)
      else AfterSession(h1.(sessionId := data[39..39 + n]), m, data[39 + n..])
  }

  // ------------------------------------------------------------------ the object

  lemma {:induction false} WordsAppend(a: seq<byte>, b: seq<byte>)
    requires |a| % 2 == 0 && |b| % 2 == 0
    ensures Words(a + b) == Words(a) + Words(b)
  {
    if a == [] {
      assert a + b == b;
    } else {
      var s := a + b;
      WordsAppend(a[2..], b);
      assert s[0] == a[0] && s[1] == a[1] && s[2..] == a[2..] + b;
      Associate([Word(a[0], a[1])], Words(a[2..]), Words(b));
    }
  }

  // Reads n 16-bit values from the front of d.
  method ReadWords(d: seq<byte>, n: nat) returns (ws: seq<uint16>)
    requires |d| >= 2 * n
    ensures |ws| == n
    ensures ws == Words(d[..2 * n])
  {
    ws := [];
    for i := 0 to n
      invariant |ws| == i && ws == Words(d[..2 * i])
    {
      ws := ws + [Word(d[2 * i], d[2 * i + 1])];
      var next := d[2 * i..2 * i + 2];
      assert next[2..] == [];
      assert Words(next) == [Word(d[2 * i], d[2 * i + 1])];
      WordsAppend(d[..2 * i], next);
      assert d[..2 * (i + 1)] == d[..2 * i] + next;
    }
  }

  class ClientHelloMsg {
    var vers: uint16
    var random: seq<byte>
    var sessionId: seq<byte>
    var cipherSuites: seq<uint16>
    var compressionMethods: seq<byte>
    var nextProtoNeg: bool
    var serverName: seq<byte>
    var ocspStapling: bool
    var scts: bool
    var supportedCurves: seq<uint16>
    var supportedPoints: seq<byte>
    var ticketSupported: bool
    var sessionTicket: seq<byte>
    var supportedSignatureAlgorithms: seq<uint16>
    var secureRenegotiation: seq<byte>
    var secureRenegotiationSupported: bool
    var alpnProtocols: seq<seq<byte>>

    function HeadView(): Head
      reads this
    {
      Head(vers, random, sessionId, cipherSuites, compressionMethods)
    }

    function View(): Msg
      reads this
    {
      Msg(nextProtoNeg, serverName, ocspStapling, scts, supportedCurves, supportedPoints, ticketSupported,
          sessionTicket, supportedSignatureAlgorithms, secureRenegotiation, secureRenegotiationSupported, alpnProtocols)
    }

    method ReadNames(list: seq<byte>) returns (ok: bool)
      modifies this`serverName
      ensures (ok, View()) == Names(old(View()), list)
    {
      var d := list;
      while |d| > 0
        invariant View() == old(View())
        invariant Names(View(), d) == Names(old(View()), list)
        decreases |d|
      {
        if |d| < 3 {
          return false;
        }
        var nameType := d[0];
        var nameLen := Word(d[1], d[2]);
        d := d[3..];
        if |d| < nameLen {
          return false;
        }
        if nameType == 0 {
          serverName := d[..nameLen];
          return !EndsInDot(serverName);
        }
        d := d[nameLen..];
      }
      return true;
    }

    method ReadProtocols(list: seq<byte>) returns (ok: bool)
      modifies this`alpnProtocols
      ensures (ok, View()) == Protocols(old(View()), list)
    {
      var d := list;
      while |d| != 0
        invariant Protocols(View(), d) == Protocols(old(View()), list)
        decreases |d|
      {
        var stringLen := d[0];
        d := d[1..];
        if stringLen == 0 || stringLen > |d| {
          return false;
        }
        alpnProtocols := alpnProtocols + [d[..stringLen]];
        d := d[stringLen..];
      }
      return true;
    }

    method ReadServerName(body: seq<byte>) returns (ok: bool)
      modifies this`serverName
      ensures (ok, View()) == Extension(old(View()), SERVER_NAME, body)
    {
      var d := body;
      if |d| < 2 {
        return false;
      }
      var namesLen := Word(d[0], d[1]);
      d := d[2..];
      if |d| != namesLen {
        return false;
      }
      ok := ReadNames(d);
    }

    method ReadCurves(body: seq<byte>) returns (ok: bool)
      modifies this`supportedCurves
      ensures (ok, View()) == Extension(old(View()), SUPPORTED_CURVES, body)
    {
      if |body| < 2 {
        return false;
      }
      var l := Word(body[0], body[1]);
      if l % 2 == 1 || |body| != l as int + 2 {
        return false;
      }
      var d := body[2..];
      supportedCurves := ReadWords(d, l / 2);
      assert d[..2 * (l / 2)] == d;
      return true;
    }

    method ReadSignatureAlgorithms(body: seq<byte>) returns (ok: bool)
      modifies this`supportedSignatureAlgorithms
      ensures (ok, View()) == Extension(old(View()), SIGNATURE_ALGORITHMS, body)
    {
      if |body| < 2 || |body| % 2 != 0 {
        return false;
      }
      var l := Word(body[0], body[1]);
      if l != |body| - 2 {
        return false;
      }
      var d := body[2..];
      supportedSignatureAlgorithms := ReadWords(d, l / 2);
      assert d[..2 * (l / 2)] == d;
      return true;
    }

    method ReadAlpn(body: seq<byte>) returns (ok: bool)
      modifies this`alpnProtocols
      ensures (ok, View()) == Extension(old(View()), ALPN, body)
    {
      if |body| < 2 {
        return false;
      }
      var l := Word(body[0], body[1]);
      if l != |body| - 2 {
        return false;
      }
      ok := ReadProtocols(body[2..]);
    }

    // The switch on the extension type.
    method ReadExtension(extension: uint16, body: seq<byte>) returns (ok: bool)
      modifies this`nextProtoNeg, this`serverName, this`ocspStapling, this`scts
      modifies this`supportedCurves, this`supportedPoints
      modifies this`ticketSupported, this`sessionTicket, this`supportedSignatureAlgorithms
      modifies this`secureRenegotiation, this`secureRenegotiationSupported, this`alpnProtocols
      ensures (ok, View()) == Extension(old(View()), extension, body)
    {
      if extension == SERVER_NAME {
        ok := ReadServerName(body);
        return;
      }
      if extension == NEXT_PROTO_NEG {
        if |body| > 0 {
          return false;
        }
        nextProtoNeg := true;
        return true;
      }
      if extension == STATUS_REQUEST {
        ocspStapling := |body| > 0 && body[0] == STATUS_OCSP;
        return true;
      }
      if extension == SUPPORTED_CURVES {
        ok := ReadCurves(body);
        return;
      }
      if extension == SUPPORTED_POINTS {
        if |body| < 1 || |body| != body[0] as int + 1 {
          return false;
        }
        supportedPoints := body[1..];
        return true;
      }
      if extension == SESSION_TICKET {
        ticketSupported := true;
        sessionTicket := body;
        return true;
      }
      if extension == SIGNATURE_ALGORITHMS {
        ok := ReadSignatureAlgorithms(body);
        return;
      }
      if extension == RENEGOTIATION_INFO {
        if |body| == 0 || body[0] != |body[1..]| {
          return false;
        }
        secureRenegotiation := body[1..];
        secureRenegotiationSupported := true;
        return true;
      }
      if extension == ALPN {
        ok := ReadAlpn(body);
        return;
      }
      if extension == SCT {
        scts := true;
        return |body| == 0;
      }
      return true;
    }

    method ReadExtensions(block: seq<byte>) returns (ok: bool)
      modifies this`nextProtoNeg, this`serverName, this`ocspStapling, this`scts
      modifies this`supportedCurves, this`supportedPoints
      modifies this`ticketSupported, this`sessionTicket, this`supportedSignatureAlgorithms
      modifies this`secureRenegotiation, this`secureRenegotiationSupported, this`alpnProtocols
      ensures (ok, View()) == Extensions(old(View()), block)
    {
      var data := block;
      while |data| != 0
        invariant Extensions(View(), data) == Extensions(old(View()), block)
        decreases |data|
      {
        if |data| < 4 {
          return false;
        }
        var extension := Word(data[0], data[1]);
        var length := Word(data[2], data[3]);
        ghost var record := data;
        data := data[4..];
        if |data| < length {
          return false;
        }
        assert data[..length] == record[4..4 + length];
        ok := ReadExtension(extension, data[..length]);
        if !ok {
          return false;
        }
        data := data[length..];
        assert data == record[4 + length..];
      }
      return true;
    }

    // The cipher suite list; data starts at its length.
    method ReadSuites(data: seq<byte>) returns (ok: bool)
      modifies this
      ensures Result(ok, HeadView(), View()) == AfterSession(old(HeadView()), old(View()), data)
    {
      if |data| < 2 {
        return false;
      }
      var cipherSuiteLen := Word(data[0], data[1]) as int;
      if cipherSuiteLen % 2 == 1 || |data| < 2 + cipherSuiteLen {
        return false;
      }
      ReadSuiteList(data[2..2 + cipherSuiteLen]);
      ok := ReadCompression(data[2 + cipherSuiteLen..]);
    }

    method ReadSuiteList(list: seq<byte>)
      requires |list| % 2 == 0
      modifies this`cipherSuites, this`secureRenegotiationSupported
      ensures cipherSuites == Words(list)
      ensures secureRenegotiationSupported == (old(secureRenegotiationSupported) || SCSV_RENEGOTIATION in Words(list))
    {
      var numCipherSuites := |list| / 2;
      assert list[..2 * numCipherSuites] == list;
      cipherSuites := ReadWords(list, numCipherSuites);
      for i := 0 to numCipherSuites
        invariant cipherSuites == Words(list)
        invariant secureRenegotiationSupported
          == (old(secureRenegotiationSupported) || SCSV_RENEGOTIATION in cipherSuites[..i])
      {
        if cipherSuites[i] == SCSV_RENEGOTIATION {
          secureRenegotiationSupported := true;
        }
        assert cipherSuites[..i + 1] == cipherSuites[..i] + [cipherSuites[i]];
      }
      assert cipherSuites[..numCipherSuites] == cipherSuites;
    }

    method ResetExtensionFields()
      modifies this`nextProtoNeg, this`serverName, this`ocspStapling, this`scts
      modifies this`supportedCurves, this`supportedPoints
      modifies this`ticketSupported, this`sessionTicket, this`supportedSignatureAlgorithms
      modifies this`secureRenegotiation, this`secureRenegotiationSupported, this`alpnProtocols
      ensures View() == Reset(old(View()))
    {
      nextProtoNeg := false;
      serverName := [];
      ocspStapling := false;
      ticketSupported := false;
      sessionTicket := [];
      supportedSignatureAlgorithms := [];
      alpnProtocols := [];
      scts := false;
    }

    method ReadBlock(data: seq<byte>) returns (ok: bool)
      modifies this`nextProtoNeg, this`serverName, this`ocspStapling, this`scts
      modifies this`supportedCurves, this`supportedPoints
      modifies this`ticketSupported, this`sessionTicket, this`supportedSignatureAlgorithms
      modifies this`secureRenegotiation, this`secureRenegotiationSupported, this`alpnProtocols
      ensures (ok, View()) == ExtensionBlock(old(View()), data)
    {
      if |data| == 0 {
        return true;
      }
      if |data| < 2 {
        return false;
      }
      var extensionsLength := Word(data[0], data[1]);
      if extensionsLength != |data[2..]| {
        return false;
      }
      ok := ReadExtensions(data[2..]);
    }

    method ReadCompression(data: seq<byte>) returns (ok: bool)
      modifies this
      ensures Result(ok, HeadView(), View()) == AfterSuites(old(HeadView()), old(View()), data)
    {
      if |data| < 1 {
        return false;
      }
      var compressionMethodsLen := data[0] as int;
      if |data| < 1 + compressionMethodsLen {
        return false;
      }
      compressionMethods := data[1..1 + compressionMethodsLen];
      assert HeadView() == old(HeadView()).(compressionMethods := compressionMethods) && View() == old(View());
      ResetExtensionFields();
      ok := ReadBlock(data[1 + compressionMethodsLen..]);
    }

    method Unmarshal(data: seq<byte>) returns (ok: bool)
      modifies this
      ensures Result(ok, HeadView(), View()) == Parse(old(HeadView()), old(View()), data)
    {
      if |data| < 42 {
        return false;
      }
      ghost var h := HeadView();
      vers := Word(data[4], data[5]);
      random := data[6..38];
      assert HeadView() == h.(vers := Word(data[4], data[5]), random := data[6..38]);
      var sessionIdLen := data[38] as int;
      if sessionIdLen > 32 || |data| < 39 + sessionIdLen {
        return false;
      }
      sessionId := data[39..39 + sessionIdLen];
      ok := ReadSuites(data[39 + sessionIdLen..]);
    }

    method GetServerName() returns (name: seq<byte>)
      ensures name == View().serverName
    {
      return serverName;
    }
  }
}
