// Port lists: their text form, and the expansion of a task over them.
module Ports {
  import opened Common
  import Text

  const COMMA: byte := 44
  const DASH: byte := 45
  const PLUS: byte := 43
  const COLON: GoString := [58]
  const UNDERSCORE: GoString := [95]
  const ZERO: int := 48
  const INT_LIMIT := 0x8000_0000_0000_0000

  // ------------------------------------------------------------------ decimal numbers

  predicate IsDigit(b: byte) {
    ZERO <= b as int <= ZERO + 9
  }

  predicate AllDigits(s: GoString) {
    forall b :: b in s ==> IsDigit(b)
  }

  function Value(s: GoString): (v: nat)
    requires AllDigits(s)
  {
    if s == [] then 0
    else
      assert s[|s| - 1] in s;
      Value(s[..|s| - 1]) * 10 + (s[|s| - 1] as int - ZERO)
  }

  // strconv.Atoi on a 64-bit machine: a sign, then digits, within the range of int.
  function Atoi(s: GoString): Option<int> {
    if s == [] then None
    else
      var negative := s[0] == DASH;
      var digits := if s[0] == DASH || s[0] == PLUS then s[1..] else s;
      if digits == [] || !AllDigits(digits) then None
      else
        var v := Value(digits);
        if negative then if v <= INT_LIMIT then Some(0 - v) else None
        else if v < INT_LIMIT then Some(v)
        else None
  }

  // strconv.Itoa of a number that is not negative.
  function Itoa(n: nat): (s: GoString)
    ensures s != [] && AllDigits(s)
  {
    if n < 10 then [n + ZERO] else Itoa(n / 10) + [n % 10 + ZERO]
  }

  lemma {:induction false} ValueOfItoa(n: nat)
    ensures Value(Itoa(n)) == n
  {
    if n < 10 {
      assert Itoa(n)[..0] == [];
    } else {
      ValueOfItoa(n / 10);
      assert Itoa(n)[..|Itoa(n)| - 1] == Itoa(n / 10);
    }
  }

  lemma AtoiOfItoa(n: nat)
    requires n < 0x8000_0000_0000_0000
    ensures Atoi(Itoa(n)) == Some(n)
  {
    ValueOfItoa(n);
    assert Itoa(n)[0] in Itoa(n);
  }

  // ------------------------------------------------------------------------ port lists

  predicate IsPort(p: GoString) {
    Atoi(p).Some? && 1 <= Atoi(p).value <= 65536
  }

  function Upto(a: nat, b: int): (r: seq<nat>)
    ensures forall p :: p in r <==> a <= p <= b
    decreases b - a
  {
    if a > b then [] else Upto(a, b - 1) + [b]
  }

  // The ports of one piece between commas; a piece that is neither a port nor a range
  // of two ports counts for nothing.
  function PiecePorts(v: GoString): seq<nat> {
    var fw := Text.Split(v, [DASH]);
    if |fw| == 2 then
      if IsPort(fw[0]) && IsPort(fw[1]) then Upto(Atoi(fw[0]).value, Atoi(fw[1]).value) else []
    else if IsPort(v) then [Atoi(v).value]
    else []
  }

  function AllPorts(pieces: seq<GoString>): seq<nat> {
    if pieces == [] then [] else AllPorts(pieces[..|pieces| - 1]) + PiecePorts(pieces[|pieces| - 1])
  }

  function Parsed(p: GoString): seq<nat> {
    AllPorts(Text.Split(p, [COMMA]))
  }

  // The inner loop of GetPorts.
  method PortRange(start: nat, end: nat) returns (ps: seq<nat>)
    ensures ps == Upto(start, end)
  {
    ps := [];
    var i := start;
    while i <= end
      invariant start <= i && (i <= end + 1 || i == start)
      invariant ps == Upto(start, i - 1)
    {
      ps := ps + [i];
      i := i + 1;
    }
  }

  // One turn of the outer loop.
  method PortsOfPiece(v: GoString) returns (ps: seq<nat>)
    ensures ps == PiecePorts(v)
  {
    var fw := Text.Split(v, [DASH]);
    if |fw| == 2 {
      if IsPort(fw[0]) && IsPort(fw[1]) {
        ps := PortRange(Atoi(fw[0]).value, Atoi(fw[1]).value);
        return;
      }
    } else if IsPort(v) {
      return [Atoi(v).value];
    }
    return [];
  }

  method GetPorts(p: GoString) returns (ps: seq<nat>)
    ensures ps == Parsed(p)
  {
    ps := [];
    var arr := Text.Split(p, [COMMA]);
    for k := 0 to |arr|
      invariant ps == AllPorts(arr[..k])
    {
      assert arr[..k + 1][..k] == arr[..k];
      var more := PortsOfPiece(arr[k]);
      ps := ps + more;
    }
    assert arr[..|arr|] == arr;
  }

  lemma {:induction false} EveryPortIsInRange(p: GoString)
    ensures forall port :: port in Parsed(p) ==> 1 <= port <= 65536
  {
    PiecesInRange(Text.Split(p, [COMMA]));
  }

  lemma {:induction false} PiecesInRange(pieces: seq<GoString>)
    ensures forall port :: port in AllPorts(pieces) ==> 1 <= port <= 65536
  {
    if pieces != [] {
      PiecesInRange(pieces[..|pieces| - 1]);
    }
  }

  // What a user means by a port list.
  datatype Item = Single(port: nat) | Span(first: nat, last: nat)

  predicate ItemOk(i: Item) {
    match i
    case Single(p) => 1 <= p <= 65536
    case Span(a, b) => 1 <= a <= 65536 && 1 <= b <= 65536
  }

  function Show(i: Item): GoString {
    match i
    case Single(p) => Itoa(p)
    case Span(a, b) => Itoa(a) + [DASH] + Itoa(b)
  }

  function ShowAll(items: seq<Item>): seq<GoString> {
    if items == [] then [] else ShowAll(items[..|items| - 1]) + [Show(items[|items| - 1])]
  }

  function Print(items: seq<Item>): GoString {
    Text.Join(ShowAll(items), [COMMA])
  }

  // A range whose ends are the wrong way round is empty.
  function Meant(items: seq<Item>): seq<nat> {
    if items == [] then []
    else
      Meant(items[..|items| - 1]) +
      match items[|items| - 1]
      case Single(p) => [p]
      case Span(a, b) => Upto(a, b)
  }

  lemma ShowReadsBack(i: Item)
    requires ItemOk(i)
    ensures COMMA !in Show(i)
    ensures PiecePorts(Show(i)) == match i case Single(p) => [p] case Span(a, b) => Upto(a, b)
  {
    match i
    case Single(p) =>
      AtoiOfItoa(p);
      Text.SplitNone(Itoa(p), DASH);
    case Span(a, b) =>
      AtoiOfItoa(a);
      AtoiOfItoa(b);
      Text.SplitNone(Itoa(b), DASH);
      Text.CleanChar(Itoa(a), DASH);
      Text.SplitHead(Itoa(a), [DASH], Itoa(b));
  }

  lemma {:induction false} ItemsReadBack(items: seq<Item>)
    requires forall i :: i in items ==> ItemOk(i)
    ensures forall p :: p in ShowAll(items) ==> COMMA !in p
    ensures AllPorts(ShowAll(items)) == Meant(items)
    ensures |ShowAll(items)| == |items|
  {
    if items != [] {
      var before, last := items[..|items| - 1], items[|items| - 1];
      ItemsReadBack(before);
      ShowReadsBack(last);
      assert ShowAll(items)[..|items| - 1] == ShowAll(before);
    }
  }

  // A printed list of ports and ranges reads back as its ports, in order.
  lemma PrintReadsBack(items: seq<Item>)
    requires forall i :: i in items ==> ItemOk(i)
    ensures Parsed(Print(items)) == Meant(items)
  {
    ItemsReadBack(items);
    if items == [] {
      assert Text.Split<byte>([], [COMMA]) == [[]];
      assert AllPorts([[]]) == AllPorts([]) + PiecePorts([]);
    } else {
      Text.SplitJoin(ShowAll(items), COMMA);
    }
  }

  // ----------------------------------------------------------------- texts as typed

  // A number may carry a sign.
  lemma AtoiOfSigned(n: nat)
    requires n < 0x8000_0000_0000_0000
    ensures Atoi([43] + Itoa(n)) == Some(n) && Atoi([45] + Itoa(n)) == Some(0 - n)
  {
    ValueOfItoa(n);
    assert ([43] + Itoa(n))[1..] == Itoa(n) && ([45] + Itoa(n))[1..] == Itoa(n);
  }

  // "80" in bytes.
  lemma Eighty()
    ensures Itoa(80) == [56, 48]
  {
    assert Itoa(8) == [56];
  }

  lemma NinetyAndNinetyTwo()
    ensures Show(Span(90, 92)) == [57, 48, 45, 57, 50] && Upto(90, 92) == [90, 91, 92]
  {
    assert Itoa(9) == [57];
    assert Itoa(90) == [57, 48] && Itoa(92) == [57, 50];
    assert Upto(90, 90) == [90] && Upto(90, 91) == [90, 91];
  }

  // "80,90-92": one port and a range, in that order.
  lemma ListAsTyped()
    ensures Parsed([56, 48, 44, 57, 48, 45, 57, 50]) == [80, 90, 91, 92]
  {
    var one, range := Single(80), Span(90, 92);
    Eighty();
    NinetyAndNinetyTwo();
    TwoItems(one, range);
    assert Show(one) + [COMMA] + Show(range) == [56, 48, 44, 57, 48, 45, 57, 50];
    PrintReadsBack([one, range]);
    assert [80] + [90, 91, 92] == [80, 90, 91, 92];
  }

  lemma TwoItems(a: Item, b: Item)
    requires a.Single? && b.Span?
    ensures Print([a, b]) == Show(a) + [COMMA] + Show(b)
    ensures Meant([a, b]) == [a.port] + Upto(b.first, b.last)
  {
    assert [a, b][..1] == [a] && [a][..0] == [];
    assert ShowAll([a]) == [Show(a)];
    assert ShowAll([a, b]) == [Show(a), Show(b)];
    assert [Show(a), Show(b)][1..] == [Show(b)];
    assert Text.Join([Show(b)], [COMMA]) == Show(b);
    assert Meant([a]) == [] + [a.port];
  }

  // A piece without a digit counts for nothing.
  lemma NoDigitNoPort(v: GoString)
    requires forall b :: b in v ==> !(48 <= b <= 57)
    ensures PiecePorts(v) == []
  {
    var fw := Text.Split(v, [DASH]);
    Text.JoinOfSplit(v, [DASH]);
    NoDigitNoNumber(v);
    if |fw| == 2 {
      assert v == fw[0] + [DASH] + fw[1];
      assert forall b :: b in fw[0] ==> b in v;
      NoDigitNoNumber(fw[0]);
    }
  }

  lemma NoDigitNoNumber(v: GoString)
    requires forall b :: b in v ==> !(48 <= b <= 57)
    ensures Atoi(v).None?
  {
    if v != [] {
      var digits := if v[0] == DASH || v[0] == PLUS then v[1..] else v;
      if digits != [] {
        assert digits[0] in digits && digits[0] in v;
      }
    }
  }
}
