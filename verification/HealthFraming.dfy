// The frames that carry health messages: a little-endian int32 length and the
// fields, each followed by "*#*".
module HealthFraming {
  import opened Common
  import opened LittleEndian
  import Text

  const CONN_DATA_SEQ: seq<byte> := [42, 35, 42]  // "*#*"
  const POOL_SIZE := 64 * 1024
  const ZERO: GoString := [48]  // "0"
  const ONE: GoString := [49]   // "1"
  const TRUE_TEXT: GoString := [116, 114, 117, 101]  // "true"

  // GetWriteStr: every field followed by the separator.
  method GetWriteStr(v: seq<GoString>) returns (b: seq<byte>)
    ensures b == Text.Terminated(v, CONN_DATA_SEQ)
  {
    b := [];
    for i := 0 to |v|
      invariant b + Text.Terminated(v[i..], CONN_DATA_SEQ) == Text.Terminated(v, CONN_DATA_SEQ)
    {
      b := b + v[i] + CONN_DATA_SEQ;
    }
  }

  function Body(info: GoString, status: GoString): (b: seq<byte>)
    ensures b == info + CONN_DATA_SEQ + (status + CONN_DATA_SEQ)
  {
    assert Text.Terminated([status], CONN_DATA_SEQ) == status + CONN_DATA_SEQ;
    Text.Terminated([info, status], CONN_DATA_SEQ)
  }

  // What SendHealthInfo puts on the wire.
  function Frame(info: GoString, status: GoString): seq<byte>
    requires |Body(info, status)| < 0x8000_0000
  {
    Le32(|Body(info, status)|) + Body(info, status)
  }

  function BoolByStr(s: GoString): bool {
    s == ONE || s == TRUE_TEXT
  }

  datatype Received = Received(info: GoString, status: bool, rest: seq<byte>) | ReadError

  // One GetHealthInfo call on the bytes still to come; the stream ends after them.
  function GetHealthInfo(stream: seq<byte>): Received {
    if |stream| < 4 then ReadError
    else
      var l := FromLe32(stream[..4]);
      if l > POOL_SIZE || l <= 0 || 4 + l > |stream| then ReadError
      else
        var arr := Text.Split(stream[4..4 + l], CONN_DATA_SEQ);
        if |arr| >= 2 then Received(arr[0], BoolByStr(arr[1]), stream[4 + l..]) else ReadError
  }

  // A frame is refused exactly if it is too short, its length is not between 1 and 65536,
  // or its body holds no "*#*"; otherwise it means up if the second field is "1" or "true".
  lemma RefusedExactly(stream: seq<byte>)
    ensures var l := if |stream| < 4 then 0 else FromLe32(stream[..4]);
      && (GetHealthInfo(stream).Received? <==>
           1 <= l <= 65536 && |stream| >= 4 + l && Text.Contains(stream[4..4 + l], [42, 35, 42]))
      && (GetHealthInfo(stream).Received? ==>
           var second := Text.Split(stream[4..4 + l], [42, 35, 42])[1];
           && GetHealthInfo(stream).rest == stream[4 + l..]
           && (GetHealthInfo(stream).status <==> second == [49] || second == [116, 114, 117, 101]))
  {
    var l := if |stream| < 4 then 0 else FromLe32(stream[..4]);
    if 1 <= l <= 65536 && |stream| >= 4 + l {
      Text.SplitsExactly(stream[4..4 + l], [42, 35, 42]);
    }
  }

  // The calling convention of the client: status is "0" or "1".
  function StatusText(up: bool): GoString {
    if up then ONE else ZERO
  }

  // info neither contains the separator nor ends in its first two characters.
  ghost predicate Separable(info: GoString) {
    && !Text.Contains(info, CONN_DATA_SEQ)
    && !(|info| >= 2 && info[|info| - 2..] == CONN_DATA_SEQ[..2])
  }

  lemma {:induction false} TooShort(s: GoString)
    requires |s| < 3
    ensures !Text.Contains(s, CONN_DATA_SEQ)
  {
    if s != [] {
      TooShort(s[1..]);
    }
  }

  lemma {:induction false} CleanIsSeparable(info: GoString)
    ensures Text.Clean(info, CONN_DATA_SEQ) <==> Separable(info)
  {
    var t := info + CONN_DATA_SEQ;
    if |info| >= 3 {
      CleanIsSeparable(info[1..]);
      assert info[1..][|info| - 3..] == info[|info| - 2..];
      assert t[..3] == info[..3];
      assert CONN_DATA_SEQ <= t <==> CONN_DATA_SEQ <= info;
    } else {
      TooShort(info);
      if |info| == 2 {
        CleanIsSeparable(info[1..]);
        TooShort(info[1..]);
        assert info == [t[0], t[1]] && t[2] == 42;
        assert info[|info| - 2..] == info;
        assert CONN_DATA_SEQ <= t <==> info == [42, 35];
      } else if |info| == 1 {
        assert t[1] == 42;
        assert info[1..] == [];
      }
    }
  }

  // Splitting a body returns the fields intact exactly when info is separable.
  lemma BodySplit(info: GoString, up: bool)
    ensures var arr := Text.Split(Body(info, StatusText(up)), CONN_DATA_SEQ);
      if Separable(info) then arr == [info, StatusText(up), []] else |arr[0]| < |info|
  {
    CleanIsSeparable(info);
    if Text.Clean(info, CONN_DATA_SEQ) {
      CleanSplit(info, StatusText(up));
    } else {
      Text.SplitUnclean(info, CONN_DATA_SEQ, StatusText(up) + CONN_DATA_SEQ);
    }
  }

  lemma CleanSplit(info: GoString, status: GoString)
    requires Text.Clean(info, CONN_DATA_SEQ) && |status| == 1
    ensures Text.Split(Body(info, status), CONN_DATA_SEQ) == [info, status, []]
  {
    Text.SplitHead(info, CONN_DATA_SEQ, status + CONN_DATA_SEQ);
    TooShort(status);
    CleanIsSeparable(status);
    Text.SplitHead(status, CONN_DATA_SEQ, []);
    assert status + CONN_DATA_SEQ + [] == status + CONN_DATA_SEQ;
  }

  // What the reader sees of a frame in front of more bytes.
  lemma FrameSlices(body: seq<byte>, rest: seq<byte>)
    requires 0 < |body| <= POOL_SIZE
    ensures var stream := Le32(|body|) + body + rest;
      var l := FromLe32(stream[..4]);
      l == |body| && stream[4..4 + l] == body && stream[4 + l..] == rest
  {
    Le32RoundTrip(|body|);
    var stream := Le32(|body|) + body + rest;
    assert stream[..4] == Le32(|body|);
  }

  // A frame is read back as the pair that was sent, and consumed exactly, if and
  // only if info is separable.
  lemma FrameRoundTrip(info: GoString, up: bool, rest: seq<byte>)
    requires |info| + 7 <= 65536
    ensures GetHealthInfo(Frame(info, StatusText(up)) + rest) == Received(info, up, rest) <==> Separable(info)
  {
    var body := Body(info, StatusText(up));
    var stream := Frame(info, StatusText(up)) + rest;
    assert stream == Le32(|body|) + body + rest;
    FrameSlices(body, rest);
    BodySplit(info, up);
    assert BoolByStr(StatusText(up)) == up;
    var arr := Text.Split(body, CONN_DATA_SEQ);
    assert |arr| >= 2 ==> GetHealthInfo(stream) == Received(arr[0], BoolByStr(arr[1]), rest);
  }

  datatype Pair = Pair(info: GoString, up: bool)

  function Stream(ps: seq<Pair>): seq<byte>
    requires forall p :: p in ps ==> |p.info| + 7 <= POOL_SIZE
  {
    if ps == [] then []
    else
      assert ps[0] in ps;
      Frame(ps[0].info, StatusText(ps[0].up)) + Stream(ps[1..])
  }

  // The messages a reader gets before its first error.
  function ReadAll(stream: seq<byte>): seq<Pair>
    decreases |stream|
  {
    match GetHealthInfo(stream)
    case ReadError => []
    case Received(info, up, rest) =>
      if |rest| < |stream| then [Pair(info, up)] + ReadAll(rest) else []
  }

  // A stream of frames is read back as the same messages in the same order.
  lemma {:induction false} StreamRoundTrip(ps: seq<Pair>)
    requires forall p :: p in ps ==> |p.info| + 7 <= POOL_SIZE && Separable(p.info)
    ensures ReadAll(Stream(ps)) == ps
  {
    if ps != [] {
      assert ps[0] in ps;
      FrameRoundTrip(ps[0].info, ps[0].up, Stream(ps[1..]));
      StreamRoundTrip(ps[1..]);
    }
  }

  // "a*#" does not contain the separator, yet its frame is never read back as it
  // was sent: the ending condition is needed.
  lemma EndingConditionNeeded(up: bool, rest: seq<byte>)
    ensures var info := [97, 42, 35];
      && !Text.Contains(info, CONN_DATA_SEQ)
      && GetHealthInfo(Frame(info, StatusText(up)) + rest) != Received(info, up, rest)
  {
    var info := [97, 42, 35];
    TooShort(info[1..]);
    assert info[0] == 97 && !(CONN_DATA_SEQ <= info);
    assert info[|info| - 2..] == CONN_DATA_SEQ[..2];
    FrameRoundTrip(info, up, rest);
  }
}
