// The SOCKS5 UDP datagram codec (section 7 of RFC 1928, addresses as in section 5),
// with the RSV field doubling as the data length on a stream.
module SocksUdp {
  import opened Common

  const IPV4: byte := 1
  const DOMAIN: byte := 3
  const IPV6: byte := 4
  const POOL_SIZE := 1472 + 200

  // net.ParseIP (always the 16-byte form) and net.IP.String.
  datatype IPText = IPText(parse: GoString -> Option<seq<byte>>, format: seq<byte> -> GoString)

  // The 16-byte form of an IPv4 address.
  function Mapped(b: seq<byte>): seq<byte> {
    [0, 0, 0, 0, 0, 0, 0, 0, 0, 0, 255, 255] + b
  }

  // Printing an address and parsing it again gives the address.
  ghost predicate Laws(ip: IPText) {
    && (forall b :: |b| == 4 ==> ip.parse(ip.format(b)) == Some(Mapped(b)))
    && (forall b :: |b| == 16 ==> ip.parse(ip.format(b)) == Some(b))
    && (forall s :: ip.parse(s).Some? ==> |ip.parse(s).value| == 16)
  }

  function Zeros(n: nat): seq<byte> {
    seq(n, _ => 0)
  }

  // ParseIP(host).To4(), or 0.0.0.0.
  function Bytes4(ip: IPText, host: GoString): (b: seq<byte>)
    ensures |b| == 4
  {
    match ip.parse(host)
    case None => Zeros(4)
    case Some(b) => if |b| == 16 && b[..12] == Mapped([]) then b[12..] else Zeros(4)
  }

  // ParseIP(host).To16(), or ::.
  function Bytes16(ip: IPText, host: GoString): (b: seq<byte>)
    ensures |b| == 16
  {
    match ip.parse(host)
    case None => Zeros(16)
    case Some(b) => if |b| == 16 then b else Zeros(16)
  }

  datatype Addr = Addr(kind: byte, host: GoString, port: uint16)
  datatype Header = Header(rsv: uint16, frag: byte, addr: Addr)

  // What Addr.Encode writes in front of the port.
  function HostBytes(ip: IPText, kind: byte, host: GoString): seq<byte> {
    if kind == IPV4 then [IPV4] + Bytes4(ip, host)
    else if kind == DOMAIN then [DOMAIN, |host| % 0x100] + host
    else if kind == IPV6 then [IPV6] + Bytes16(ip, host)
    else [IPV4] + Zeros(4)
  }

  function Encoded(ip: IPText, a: Addr): seq<byte> {
    HostBytes(ip, a.kind, a.host) + EncodeWord(a.port)
  }

  function HeaderBytes(ip: IPText, h: Header): seq<byte> {
    EncodeWord(h.rsv) + [h.frag] + Encoded(ip, h.addr)
  }

  function Wire(ip: IPText, h: Header, data: seq<byte>): seq<byte> {
    HeaderBytes(ip, h) + data
  }

  // What Addr.Decode makes of the bytes of an address; None is its error.
  function Decoded(ip: IPText, b: seq<byte>): Option<Addr> {
    if |b| == 7 && b[0] == IPV4 then Some(Addr(IPV4, ip.format(b[1..5]), Word(b[5], b[6])))
    else if |b| == 19 && b[0] == IPV6 then Some(Addr(IPV6, ip.format(b[1..17]), Word(b[17], b[18])))
    else if |b| >= 4 && b[0] == DOMAIN && |b| == 4 + b[1] as int then
      Some(Addr(DOMAIN, b[2..2 + b[1] as int], Word(b[|b| - 2], b[|b| - 1])))
    else None
  }

  // How long the address that begins b is; 0 for a type that is not known.
  function AddrLength(b: seq<byte>): nat
    requires b != []
  {
    if b[0] == IPV4 then 7
    else if b[0] == IPV6 then 19
    else if b[0] == DOMAIN then 4 + if |b| > 1 then b[1] as int else 0
    else 0
  }

  // Addr.Decode on a slice of any length: the address at its beginning; the error for an
  // unknown type; or an index beyond the slice, which stops the program.
  datatype Decoding = Address(addr: Addr) | Unknown | TooShort

  function DecodedFrom(ip: IPText, b: seq<byte>): Decoding {
    if b == [] then TooShort
    else
      var n := AddrLength(b);
      if n == 0 then Unknown
      else if |b| < n then TooShort
      else Address(Decoded(ip, b[..n]).value)
  }

  // ------------------------------------------------------------------ buffer writes

  // s with src written over it from pos on.
  function Over(s: seq<byte>, pos: nat, src: seq<byte>): seq<byte>
    requires pos + |src| <= |s|
  {
    s[..pos] + src + s[pos + |src|..]
  }

  lemma OverBehind(s: seq<byte>, pos: nat, front: seq<byte>, src: seq<byte>)
    requires pos + |front| + |src| <= |s|
    ensures Over(Over(s, pos, front), pos + |front|, src) == Over(s, pos, front + src)
  {
  }

  // copy(b[pos:], src): what does not fit is left out.
  method Copy(b: array<byte>, pos: nat, src: seq<byte>) returns (n: nat)
    requires pos <= b.Length
    modifies b
    ensures n == Min(|src|, b.Length - pos)
    ensures b[..] == Over(old(b[..]), pos, src[..n])
  {
    n := Min(|src|, b.Length - pos);
    for i := 0 to n
      invariant forall k :: 0 <= k < b.Length ==> b[k] == if pos <= k < pos + i then src[k - pos] else old(b[k])
    {
      b[pos + i] := src[i];
    }
  }

  // Writes bytes one by one, with an index that must be inside the buffer.
  method Put(b: array<byte>, pos: nat, src: seq<byte>) returns (ok: bool)
    requires pos <= b.Length
    modifies b
    ensures ok == (pos + |src| <= b.Length)
    ensures b[..] == if ok then Over(old(b[..]), pos, src) else old(b[..])
  {
    ok := pos + |src| <= b.Length;
    if ok {
      var n := Copy(b, pos, src);
      assert src[..n] == src;
    }
  }

  // Bytes written with an index, then as much of src as there is room for. The result is
  // where that ends; None is an index outside the buffer, which stops the program.
  method PutCopy(b: array<byte>, base: nat, front: seq<byte>, src: seq<byte>) returns (pos: Option<nat>)
    requires base <= b.Length
    modifies b
    ensures if base + |front + src| <= b.Length then
        pos == Some(base + |front + src|) && b[..] == Over(old(b[..]), base, front + src)
      else pos.None? || pos == Some(b.Length)
  {
    ghost var s := b[..];
    var ok := Put(b, base, front);
    if !ok {
      return None;
    }
    var n := Copy(b, base + |front|, src);
    pos := Some(base + |front| + n);
    if n == |src| {
      assert src[..n] == src;
      OverBehind(s, base, front, src);
    }
  }

  class AddrObject {
    var kind: byte
    var host: GoString
    var port: uint16

    constructor (kind: byte, host: GoString, port: uint16)
      ensures this.kind == kind && this.host == host && this.port == port
    {
      this.kind, this.host, this.port := kind, host, port;
    }

    function View(): Addr
      reads this
    {
      Addr(kind, host, port)
    }

    // Writes at b[base..]; the rest of the buffer keeps whatever it held. None is an
    // index outside the buffer: copy cuts a host off that is too long, and then there
    // is no room for the port.
    method Encode(ip: IPText, b: array<byte>, base: nat) returns (n: Option<nat>)
      requires base <= b.Length
      modifies b
      ensures var e := Encoded(ip, View());
        if base + |e| <= b.Length then n == Some(|e|) && b[..] == Over(old(b[..]), base, e) else n == None
    {
      ghost var s, h := b[..], HostBytes(ip, kind, host);
      assert Encoded(ip, View()) == h + EncodeWord(port);
      var pos := EncodeHost(ip, b, base);
      if pos.None? {
        return None;
      }
      var ok := Put(b, pos.value, EncodeWord(port));
      if !ok {
        return None;
      }
      OverBehind(s, base, h, EncodeWord(port));
      n := Some(pos.value + 2 - base);
    }

    method EncodeHost(ip: IPText, b: array<byte>, base: nat) returns (pos: Option<nat>)
      requires base <= b.Length
      modifies b
      ensures var h := HostBytes(ip, kind, host);
        if base + |h| <= b.Length then pos == Some(base + |h|) && b[..] == Over(old(b[..]), base, h)
        else pos.None? || pos == Some(b.Length)
    {
      if kind == IPV4 {
        pos := PutCopy(b, base, [IPV4], Bytes4(ip, host));
      } else if kind == DOMAIN {
        pos := PutCopy(b, base, [DOMAIN, |host| % 0x100], host);
      } else if kind == IPV6 {
        pos := PutCopy(b, base, [IPV6], Bytes16(ip, host));
      } else {
        pos := PutCopy(b, base, [IPV4] + Zeros(4), []);
        assert [IPV4] + Zeros(4) + [] == [IPV4] + Zeros(4);
      }
    }

    // Reads the address at the beginning of the slice b[lo..hi].
    method Decode(ip: IPText, b: array<byte>, lo: nat, hi: nat) returns (d: Decoding)
      requires lo <= hi <= b.Length
      modifies this
      ensures d == DecodedFrom(ip, b[lo..hi])
      ensures d.Address? ==> View() == d.addr
    {
      var s := b[lo..hi];
      if |s| == 0 {
        return TooShort;
      }
      kind := s[0];
      var pos := 1;
      if kind == IPV4 {
        pos := 5;
      } else if kind == IPV6 {
        pos := 17;
      } else if kind == DOMAIN {
        if |s| < 2 {
          return TooShort;
        }
        pos := 2 + s[1] as int;
      } else {
        return Unknown;
      }
      if |s| < pos + 2 {
        return TooShort;
      }
      var k := if kind == DOMAIN then 2 else 1;
      host := if kind == DOMAIN then s[k..pos] else ip.format(s[k..pos]);
      port := Word(s[pos], s[pos + 1]);
      CutWithin(s, k, pos, pos + 2);
      d := Address(View());
    }
  }

  // The address a header stands for; a missing one is an empty Addr.
  function AddrOf(addr: AddrObject?): Addr
    reads addr
  {
    if addr == null then Addr(0, [], 0) else addr.View()
  }

  // The length of a domain up to which a header fits the pooled buffer.
  const LONGEST_DOMAIN := POOL_SIZE - 7

  predicate TooLong(a: Addr) {
    a.kind == DOMAIN && |a.host| > LONGEST_DOMAIN
  }

  lemma MissingAddress(ip: IPText, rsv: uint16, frag: byte)
    ensures HeaderBytes(ip, Header(rsv, frag, Addr(0, [], 0)))
      == [rsv / 256, rsv % 256, frag, 1, 0, 0, 0, 0, 0, 0]
  {
    assert Zeros(4) == [0, 0, 0, 0];
  }

  // UDPHeader.Write with a pooled buffer: the bytes handed to the writer. None is an
  // index outside the buffer, which stops the program before anything is written.
  method WriteHeader(ip: IPText, b: array<byte>, rsv: uint16, frag: byte, addr: AddrObject?)
      returns (out: Option<seq<byte>>)
    requires b.Length == POOL_SIZE
    modifies b
    ensures out == if TooLong(AddrOf(addr)) then None else Some(HeaderBytes(ip, Header(rsv, frag, AddrOf(addr))))
    ensures out == None <==> addr != null && addr.kind == 3 && |addr.host| > 1665
    ensures addr == null ==> out == Some([rsv / 256, rsv % 256, frag, 1, 0, 0, 0, 0, 0, 0])
  {
    if addr == null {
      MissingAddress(ip, rsv, frag);
    }
    var _ := Put(b, 0, EncodeWord(rsv));
    b[2] := frag;
    assert b[..3] == EncodeWord(rsv) + [frag];
    var a := addr;
    if a == null {
      a := new AddrObject(0, [], 0);
    }
    var length := a.Encode(ip, b, 3);
    if length.None? {
      return None;
    }
    return Some(b[..3 + length.value]);
  }

  // UDPDatagram.Write
  method WriteDatagram(ip: IPText, b: array<byte>, rsv: uint16, frag: byte, addr: AddrObject?, data: seq<byte>)
      returns (out: Option<seq<byte>>)
    requires b.Length == POOL_SIZE
    modifies b
    ensures out == if TooLong(AddrOf(addr)) then None else Some(Wire(ip, Header(rsv, frag, AddrOf(addr)), data))
  {
    var header := WriteHeader(ip, b, rsv, frag, addr);
    if header.None? {
      return None;
    }
    return Some(header.value + data);
  }

  // ------------------------------------------------------------------------ reading

  // OutOfRange is a slice or allocation with a bound outside its limits, which
  // stops the program.
  datatype Outcome = Datagram(header: Header, data: seq<byte>) | Failed | OutOfRange

  function HeaderLength(kind: byte, next: byte): nat {
    if kind == IPV4 then 10
    else if kind == IPV6 then 22
    else if kind == DOMAIN then 7 + next as int
    else 0
  }

  function Drop(s: seq<byte>, n: nat): seq<byte> {
    if n <= |s| then s[n..] else []
  }

  function Finish(ip: IPText, packet: seq<byte>, hlen: nat): Outcome
    requires 7 <= hlen <= |packet|
  {
    match Decoded(ip, packet[3..hlen])
    case None => Failed
    case Some(a) => Datagram(Header(Word(packet[0], packet[1]), packet[2], a), packet[hlen..])
  }

  // ReadUDPDatagram on the bytes still to come (the stream ends after them), and
  // what is left of them.
  function ReadOne(ip: IPText, s: seq<byte>): (Outcome, seq<byte>) {
    if |s| < 5 then (Failed, [])
    else
      var hlen := HeaderLength(s[3], s[4]);
      var dlen := Word(s[0], s[1]) as int;
      if hlen == 0 then (Failed, s[5..])
      else if dlen == 0 then
        (if |s| < hlen || |s| > POOL_SIZE then OutOfRange else Finish(ip, s, hlen), [])
      else if hlen + dlen > POOL_SIZE then (OutOfRange, s[5..])
      else if |s| < hlen + dlen then (Failed, [])
      else (Finish(ip, s[..hlen + dlen], hlen), s[hlen + dlen..])
  }

  class Reader {
    var rest: seq<byte>

    // io.ReadFull into b[lo..hi].
    method ReadFull(b: array<byte>, lo: nat, hi: nat) returns (ok: bool)
      requires lo <= hi <= b.Length
      modifies this, b
      ensures ok == (|old(rest)| >= hi - lo)
      ensures rest == Drop(old(rest), hi - lo)
      ensures ok ==> b[..] == Over(old(b[..]), lo, old(rest)[..hi - lo])
    {
      var n := hi - lo;
      if |rest| < n {
        rest := [];
        return false;
      }
      var _ := Put(b, lo, rest[..n]);
      rest := rest[n..];
      return true;
    }

    method ReadAll() returns (extra: seq<byte>)
      modifies this
      ensures extra == old(rest) && rest == []
    {
      extra := rest;
      rest := [];
    }
  }

  // Reads what follows the first five bytes of a datagram; on success the packet
  // is b[..n].
  method ReadBody(r: Reader, b: array<byte>, hlen: nat, dlen: nat) returns (stop: Option<Outcome>, n: nat)
    requires b.Length == POOL_SIZE && 7 <= hlen
    modifies r, b
    ensures var s := old(b[..5]) + old(r.rest);
      if dlen == 0 then
        && r.rest == []
        && stop == (if hlen <= |s| <= POOL_SIZE then None else Some(OutOfRange))
        && (stop.None? ==> n == |s| && b[..n] == s)
      else if hlen + dlen > POOL_SIZE then stop == Some(OutOfRange) && r.rest == old(r.rest)
      else if |s| < hlen + dlen then stop == Some(Failed) && r.rest == []
      else stop == None && n == hlen + dlen && b[..n] == s[..n] && r.rest == s[n..]
  {
    n := 5;
    if dlen == 0 {
      var extra := r.ReadAll();
      var _ := Copy(b, n, extra);
      n := n + |extra|;
      if n < hlen || n > b.Length {
        return Some(OutOfRange), n;
      }
    } else {
      if hlen + dlen > b.Length {
        return Some(OutOfRange), n;
      }
      var ok := r.ReadFull(b, n, hlen + dlen);
      if !ok {
        return Some(Failed), n;
      }
      n := hlen + dlen;
    }
    return None, n;
  }

  // The switch on the address type; 0 is its error.
  method LengthByType(b: array<byte>) returns (hlen: nat)
    requires b.Length >= 5
    ensures hlen == HeaderLength(b[3], b[4])
  {
    if b[3] == IPV4 {
      return 10;
    } else if b[3] == IPV6 {
      return 22;
    } else if b[3] == DOMAIN {
      return 7 + b[4] as int;
    }
    return 0;
  }

  // The result depends on the stream only, not on what the pooled buffer b held.
  method ReadUDPDatagram(ip: IPText, r: Reader, b: array<byte>) returns (res: Outcome)
    requires b.Length == POOL_SIZE
    modifies r, b
    ensures (res, r.rest) == ReadOne(ip, old(r.rest))
  {
    ghost var s := r.rest;
    var ok := r.ReadFull(b, 0, 5);
    if !ok {
      return Failed;
    }
    CutAt(s, 5);
    assert b[..5] == s[..5];
    assert b[0] == s[0] && b[1] == s[1] && b[3] == s[3] && b[4] == s[4];
    var hlen := LengthByType(b);
    if hlen == 0 {
      return Failed;
    }
    var stop, n := ReadBody(r, b, hlen, Word(b[0], b[1]) as int);
    if stop.Some? {
      return stop.value;
    }
    assert b[..n] == s[..n];
    assert n == |s| ==> s[..n] == s;
    res := DecodePacket(ip, b, n, hlen);
  }

  // The tail of ReadUDPDatagram: the packet is b[..n].
  method DecodePacket(ip: IPText, b: array<byte>, n: nat, hlen: nat) returns (res: Outcome)
    requires 7 <= hlen <= n <= b.Length && hlen == HeaderLength(b[..n][3], b[..n][4])
    ensures res == Finish(ip, b[..n], hlen)
  {
    var addr := new AddrObject(0, [], 0);
    assert b[..n][3..hlen] == b[3..hlen];
    var d := addr.Decode(ip, b, 3, hlen);
    assert b[3..hlen][0] == b[3] && b[3..hlen][1] == b[4];
    assert b[3..hlen][..hlen - 3] == b[3..hlen];
    if !d.Address? {
      return Failed;
    }
    assert b[..n][hlen..] == b[hlen..n];
    return Datagram(Header(Word(b[0], b[1]), b[2], addr.View()), b[hlen..n]);
  }

  // ----------------------------------------------------------------- on the wire

  // An address byte by byte. A host that is no text of an IPv4 address is sent as 0.0.0.0
  // under that type, one that is no text of an address as :: under the other; an unknown
  // type is sent as the IPv4 address 0.0.0.0; a domain stands behind its length, of which
  // the low byte is kept.
  lemma EncodedExactly(ip: IPText, a: Addr)
    ensures var text, port := ip.parse(a.host), [a.port / 256, a.port % 256];
      var known := text.Some? && |text.value| == 16;
      var short := known && text.value[..12] == [0, 0, 0, 0, 0, 0, 0, 0, 0, 0, 255, 255];
      && (a.kind == 1 ==> Encoded(ip, a) == [1] + (if short then text.value[12..] else [0, 0, 0, 0]) + port)
      && (a.kind == 3 ==> Encoded(ip, a) == [3, |a.host| % 256] + a.host + port)
      && (a.kind == 4 ==> Encoded(ip, a) == [4] + (if known then text.value else seq(16, _ => 0)) + port)
      && (a.kind !in [1, 3, 4] ==> Encoded(ip, a) == [1, 0, 0, 0, 0] + port)
  {
    var mapped: seq<byte> := [0, 0, 0, 0, 0, 0, 0, 0, 0, 0, 255, 255];
    assert Mapped([]) == mapped;
    assert Zeros(4) == [0, 0, 0, 0];
  }

  // RSV, FRAG, address, data.
  lemma WireExactly(ip: IPText, h: Header, data: seq<byte>)
    ensures Wire(ip, h, data) == [h.rsv / 256, h.rsv % 256, h.frag] + Encoded(ip, h.addr) + data
  {
  }

  // Which slices Decode refuses, and which are too short for it.
  lemma DecodeFailsExactly(ip: IPText, b: seq<byte>)
    ensures DecodedFrom(ip, b) == Unknown <==> b != [] && b[0] !in [1, 3, 4]
    ensures DecodedFrom(ip, b) == TooShort <==>
      || b == []
      || (b[0] == 1 && |b| < 7)
      || (b[0] == 4 && |b| < 19)
      || (b[0] == 3 && (|b| == 1 || |b| < 4 + b[1] as int))
  {
  }

  // A domain is read back from its own encoding exactly if its length fits one byte.
  lemma DomainReadsBackExactly(ip: IPText, host: GoString, port: uint16)
    ensures DecodedFrom(ip, Encoded(ip, Addr(3, host, port))) == Address(Addr(3, host, port)) <==> |host| < 256
  {
    var a := Addr(3, host, port);
    var e := Encoded(ip, a);
    EncodedExactly(ip, a);
    assert e[0] == 3 && e[1] == |host| % 256;
    if |host| < 256 {
      AddrRoundTrip(ip, a);
      assert e[..|e|] == e;
    } else {
      assert |e[..AddrLength(e)]| < 4 + 256;
    }
  }

  // ------------------------------------------------------------------- round trips

  // Addresses that a peer can mean: canonical IP text, or a domain that fits its
  // length byte.
  ghost predicate Canonical(ip: IPText, a: Addr) {
    || (a.kind == IPV4 && exists b: seq<byte> :: |b| == 4 && a.host == ip.format(b))
    || (a.kind == IPV6 && exists b: seq<byte> :: |b| == 16 && a.host == ip.format(b))
    || (a.kind == DOMAIN && |a.host| < 0x100)
  }

  lemma MappedBytes4(ip: IPText, b: seq<byte>)
    requires Laws(ip) && |b| == 4
    ensures Bytes4(ip, ip.format(b)) == b
  {
    assert Mapped(b)[..12] == Mapped([]) && Mapped(b)[12..] == b;
  }

  lemma AddrRoundTrip(ip: IPText, a: Addr)
    requires a.kind != DOMAIN ==> Laws(ip)
    requires Canonical(ip, a)
    ensures Decoded(ip, Encoded(ip, a)) == Some(a)
  {
    var e := Encoded(ip, a);
    WordRoundTrip(a.port);
    if a.kind == IPV4 {
      var b: seq<byte> :| |b| == 4 && a.host == ip.format(b);
      MappedBytes4(ip, b);
      assert e[1..5] == b;
    } else if a.kind == IPV6 {
      var b: seq<byte> :| |b| == 16 && a.host == ip.format(b);
      assert e[1..17] == b;
    } else {
      assert e[2..2 + |a.host|] == a.host;
    }
  }

  // The bytes of an address in front of its port, from their parts.
  lemma AddrParts(b: seq<byte>, k: nat)
    requires |b| >= k + 2
    ensures b == b[..k] + b[k..|b| - 2] + [b[|b| - 2], b[|b| - 1]]
  {
  }

  lemma DomainUnique(ip: IPText, b: seq<byte>)
    requires |b| >= 4 && b[0] == DOMAIN && |b| == 4 + b[1] as int
    ensures Encoded(ip, Addr(DOMAIN, b[2..|b| - 2], Word(b[|b| - 2], b[|b| - 1]))) == b
  {
    AddrParts(b, 2);
    WordBytes(b[|b| - 2], b[|b| - 1]);
    assert b[..2] == [b[0], b[1]];
  }

  lemma Ip4Unique(ip: IPText, b: seq<byte>)
    requires Laws(ip) && |b| == 7 && b[0] == IPV4
    ensures Encoded(ip, Addr(IPV4, ip.format(b[1..5]), Word(b[5], b[6]))) == b
  {
    MappedBytes4(ip, b[1..5]);
    AddrParts(b, 1);
    WordBytes(b[5], b[6]);
    assert b[..1] == [b[0]];
  }

  lemma Ip6Unique(ip: IPText, b: seq<byte>)
    requires Laws(ip) && |b| == 19 && b[0] == IPV6
    ensures Encoded(ip, Addr(IPV6, ip.format(b[1..17]), Word(b[17], b[18]))) == b
  {
    AddrParts(b, 1);
    WordBytes(b[17], b[18]);
    assert b[..1] == [b[0]];
  }

  // A decoded address is canonical and encodes back to the same bytes.
  lemma AddrUnique(ip: IPText, b: seq<byte>)
    requires Laws(ip) && Decoded(ip, b).Some?
    ensures var a := Decoded(ip, b).value;
      Canonical(ip, a) && Encoded(ip, a) == b
  {
    if b[0] == IPV4 {
      Ip4Unique(ip, b);
    } else if b[0] == IPV6 {
      Ip6Unique(ip, b);
    } else {
      DomainUnique(ip, b);
    }
  }

  lemma EncodedLength(ip: IPText, a: Addr)
    requires Canonical(ip, a)
    ensures var e := Encoded(ip, a);
      |e| + 3 == HeaderLength(e[0], e[1]) && e[0] == a.kind
  {
  }

  // The parts of a datagram on the wire.
  lemma WireParts(ip: IPText, h: Header, data: seq<byte>)
    requires Canonical(ip, h.addr)
    ensures var s := Wire(ip, h, data);
      var hlen := HeaderLength(s[3], s[4]);
      && 7 <= hlen == |HeaderBytes(ip, h)|
      && Word(s[0], s[1]) == h.rsv && s[2] == h.frag
      && s[3..hlen] == Encoded(ip, h.addr) && s[hlen..] == data
  {
    EncodedLength(ip, h.addr);
    WordRoundTrip(h.rsv);
    var e := Encoded(ip, h.addr);
    var s := Wire(ip, h, data);
    Parts(EncodeWord(h.rsv) + [h.frag], e, data);
    assert s == EncodeWord(h.rsv) + [h.frag] + e + data;
    assert s[3] == e[0] && s[4] == e[1];
  }

  // When reading fails: for an unknown type, and for a stream that ends too early; and when
  // it stops the program: for a standard datagram shorter than its header or longer than
  // the buffer, and for one that says it is longer than the buffer.
  lemma ReadFailsExactly(ip: IPText, s: seq<byte>)
    ensures var known := |s| >= 5 && s[3] in [1, 3, 4];
      var header := if !known then 0 else if s[3] == 1 then 10 else if s[3] == 4 then 22 else 7 + s[4] as int;
      var data: int := if known then 256 * (s[0] as int) + s[1] as int else 0;
      && (ReadOne(ip, s).0 == OutOfRange <==>
           known && if data == 0 then |s| < header || |s| > 1672 else header + data > 1672)
      && (ReadOne(ip, s).0 == Failed <==> !known || (0 < data <= 1672 - header && |s| < header + data))
  {
    if |s| >= 5 && s[3] in [1, 3, 4] {
      var header, data := HeaderLength(s[3], s[4]), Word(s[0], s[1]) as int;
      if data == 0 && header <= |s| {
        HeaderDecodes(ip, s, header);
      } else if data > 0 && header + data <= |s| {
        HeaderDecodes(ip, s[..header + data], header);
      }
    }
  }

  // A packet as long as its type says always decodes.
  lemma HeaderDecodes(ip: IPText, packet: seq<byte>, hlen: nat)
    requires |packet| >= 5 && 7 <= hlen <= |packet| && hlen == HeaderLength(packet[3], packet[4])
    ensures Finish(ip, packet, hlen).Datagram?
  {
    var b := packet[3..hlen];
    assert b[0] == packet[3] && b[1] == packet[4];
  }

  // A datagram whose RSV is its data length is read back with exactly its own bytes
  // consumed, whatever follows on the stream.
  lemma ReadBack(ip: IPText, h: Header, data: seq<byte>, rest: seq<byte>)
    requires Laws(ip) && Canonical(ip, h.addr)
    requires h.rsv == |data| > 0 && |Wire(ip, h, data)| <= POOL_SIZE
    ensures ReadOne(ip, Wire(ip, h, data) + rest) == (Datagram(h, data), rest)
  {
    var w := Wire(ip, h, data);
    var s := w + rest;
    WireParts(ip, h, data);
    AddrRoundTrip(ip, h.addr);
    assert s[0] == w[0] && s[1] == w[1] && s[3] == w[3] && s[4] == w[4];
    assert s[..|w|] == w && s[|w|..] == rest;
  }

  // A standard datagram (RSV 0) that fills the rest of the input is read back.
  lemma ReadBackStandard(ip: IPText, h: Header, data: seq<byte>)
    requires Laws(ip) && Canonical(ip, h.addr)
    requires h.rsv == 0 && |Wire(ip, h, data)| <= POOL_SIZE
    ensures ReadOne(ip, Wire(ip, h, data)) == (Datagram(h, data), [])
  {
    WireParts(ip, h, data);
    AddrRoundTrip(ip, h.addr);
  }

  // Whatever is decoded from a packet encodes back to the packet.
  lemma PacketUnique(ip: IPText, packet: seq<byte>, hlen: nat)
    requires Laws(ip) && 7 <= hlen <= |packet| && Finish(ip, packet, hlen).Datagram?
    ensures var d := Finish(ip, packet, hlen);
      && packet == Wire(ip, d.header, d.data) && Canonical(ip, d.header.addr)
      && d.header.rsv == Word(packet[0], packet[1]) && |d.data| == |packet| - hlen
  {
    AddrUnique(ip, packet[3..hlen]);
    WordBytes(packet[0], packet[1]);
    CutAt(packet, hlen);
    CutAt(packet[..hlen], 3);
    assert packet[..hlen][..3] == [packet[0], packet[1]] + [packet[2]];
    assert packet[..hlen][3..] == packet[3..hlen];
  }

  lemma ConsumedIsUnique(ip: IPText, s: seq<byte>, hlen: nat, n: nat)
    requires Laws(ip) && 7 <= hlen <= n <= |s| && Finish(ip, s[..n], hlen).Datagram?
    ensures var d := Finish(ip, s[..n], hlen);
      && s == Wire(ip, d.header, d.data) + s[n..] && Canonical(ip, d.header.addr)
      && d.header.rsv == Word(s[0], s[1]) && |d.data| == n - hlen
  {
    PacketUnique(ip, s[..n], hlen);
    CutAt(s, n);
  }

  lemma NothingBehind(s: seq<byte>)
    ensures s == s + []
  {
  }

  // Whatever is read successfully is the encoding of the result: the bytes consumed
  // are exactly the datagram's own.
  lemma ReadIsUnique(ip: IPText, s: seq<byte>)
    requires Laws(ip) && ReadOne(ip, s).0.Datagram?
    ensures var (d, rest) := ReadOne(ip, s);
      && s == Wire(ip, d.header, d.data) + rest
      && Canonical(ip, d.header.addr)
      && d.header.rsv in [0, |d.data|]
  {
    var hlen := HeaderLength(s[3], s[4]);
    var dlen := Word(s[0], s[1]) as int;
    if dlen == 0 {
      PacketUnique(ip, s, hlen);
      NothingBehind(s);
    } else {
      ConsumedIsUnique(ip, s, hlen, hlen + dlen);
    }
  }

  datatype Packet = Packet(header: Header, data: seq<byte>)

  ghost predicate Streamable(ip: IPText, p: Packet) {
    && Canonical(ip, p.header.addr)
    && p.header.rsv == |p.data| > 0
    && |Wire(ip, p.header, p.data)| <= POOL_SIZE
  }

  function Stream(ip: IPText, ps: seq<Packet>): seq<byte> {
    if ps == [] then [] else Wire(ip, ps[0].header, ps[0].data) + Stream(ip, ps[1..])
  }

  // The datagrams obtained by reading until the first failure.
  function ReadMany(ip: IPText, s: seq<byte>): seq<Packet>
    decreases |s|
  {
    var (d, rest) := ReadOne(ip, s);
    if d.Datagram? && |rest| < |s| then [Packet(d.header, d.data)] + ReadMany(ip, rest) else []
  }

  lemma StreamHead(ip: IPText, p: Packet, rest: seq<byte>)
    requires Laws(ip) && Streamable(ip, p)
    ensures ReadMany(ip, Wire(ip, p.header, p.data) + rest) == [p] + ReadMany(ip, rest)
  {
    ReadBack(ip, p.header, p.data, rest);
  }

  // Any sequence of such datagrams written back to back is read back one by one as
  // the same sequence.
  lemma {:induction false} StreamRoundTrip(ip: IPText, ps: seq<Packet>)
    requires Laws(ip) && forall i :: 0 <= i < |ps| ==> Streamable(ip, ps[i])
    ensures ReadMany(ip, Stream(ip, ps)) == ps
    decreases ps
  {
    if ps != [] {
      var rest := Stream(ip, ps[1..]);
      StreamHead(ip, ps[0], rest);
      StreamRoundTrip(ip, ps[1..]);
      CutOne(ps);
    }
  }
}
