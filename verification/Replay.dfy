// Connections that deliver bytes somebody has already looked at: conn.Conn with Rb,
// and the PortConn of the port multiplexer.
module Replay {
  import opened Common

  // One Read: the size of the caller's buffer, and how many bytes the underlying
  // connection is willing to give if it is asked.
  datatype Step = Step(size: nat, k: nat)

  // copy(b[at:], src), of which at most k bytes are given.
  method Copy(b: array<byte>, at: nat, k: nat, src: seq<byte>) returns (n: nat)
    requires at <= b.Length
    modifies b
    ensures n == Min(Min(b.Length - at, k), |src|)
    ensures forall i :: 0 <= i < b.Length ==> b[i] == if at <= i < at + n then src[i - at] else old(b[i])
  {
    n := Min(Min(b.Length - at, k), |src|);
    forall i | 0 <= i < n {
      b[at + i] := src[i];
    }
  }

  // ------------------------------------------------------------------------ Conn.Read

  // rb is None where Rb is nil; stream is what the underlying connection still holds.
  datatype ConnV = ConnV(rb: Option<seq<byte>>, stream: seq<byte>)

  function ConnRead(c: ConnV, s: Step): (r: (ConnV, seq<byte>)) {
    if c.rb.Some? && c.rb.value != [] then
      var n := Min(s.size, |c.rb.value|);
      (c.(rb := Some(c.rb.value[n..])), c.rb.value[..n])
    else
      var n := Min(Min(s.size, s.k), |c.stream|);
      (ConnV(None, c.stream[n..]), c.stream[..n])
  }

  class Conn {
    var rb: Option<seq<byte>>
    var stream: seq<byte>

    function View(): ConnV
      reads this
    {
      ConnV(rb, stream)
    }

    method Read(b: array<byte>, k: nat) returns (n: nat)
      modifies this, b
      ensures n <= b.Length
      ensures (View(), b[..n]) == ConnRead(old(View()), Step(b.Length, k))
      ensures b[n..] == old(b[..])[n..]
    {
      if rb.Some? {
        if |rb.value| > 0 {
          n := Copy(b, 0, b.Length, rb.value);
          assert b[..n] == rb.value[..n];
          rb := Some(rb.value[n..]);
          return;
        }
        rb := None;
      }
      n := Copy(b, 0, k, stream);
      assert b[..n] == stream[..n];
      stream := stream[n..];
    }
  }

  // What is still to come.
  function Pending(c: ConnV): seq<byte> {
    (if c.rb.Some? then c.rb.value else []) + c.stream
  }

  // The connection after some reads, and everything they delivered.
  function ConnRun(c: ConnV, steps: seq<Step>): (r: (ConnV, seq<byte>)) {
    if steps == [] then (c, [])
    else
      var (before, out) := ConnRun(c, steps[..|steps| - 1]);
      var (after, more) := ConnRead(before, steps[|steps| - 1]);
      (after, out + more)
  }

  lemma OneReadConserves(c: ConnV, s: Step)
    ensures ConnRead(c, s).1 + Pending(ConnRead(c, s).0) == Pending(c)
  {
    if c.rb.Some? && c.rb.value != [] {
      var n := Min(s.size, |c.rb.value|);
      CutAt(c.rb.value, n);
      Associate(c.rb.value[..n], c.rb.value[n..], c.stream);
    } else {
      CutAt(c.stream, Min(Min(s.size, s.k), |c.stream|));
      assert [] + c.stream == c.stream;
    }
  }

  // Whatever buffers are used, nothing is lost, repeated or reordered: delivered bytes
  // and bytes still to come are Rb followed by the stream.
  lemma {:induction false} ReadsDeliverInOrder(c: ConnV, steps: seq<Step>)
    ensures ConnRun(c, steps).1 + Pending(ConnRun(c, steps).0) == Pending(c)
  {
    if steps != [] {
      var before := steps[..|steps| - 1];
      ReadsDeliverInOrder(c, before);
      var (mid, out) := ConnRun(c, before);
      OneReadConserves(mid, steps[|steps| - 1]);
      Associate(out, ConnRead(mid, steps[|steps| - 1]).1, Pending(ConnRead(mid, steps[|steps| - 1]).0));
    } else {
      assert [] + Pending(c) == Pending(c);
    }
  }

  // What a read delivers: all there is room for of Rb, or of what the connection gives; so
  // something, if the buffer has room, something is left and the connection gives.
  lemma ReadsMakeProgress(c: ConnV, s: Step)
    ensures var kept, n := if c.rb.Some? then |c.rb.value| else 0, |ConnRead(c, s).1|;
      && (kept > 0 ==> n == if s.size <= kept then s.size else kept)
      && (kept == 0 ==> n <= s.size && n <= s.k && n <= |c.stream| && (n == s.size || n == s.k || n == |c.stream|))
    ensures s.size > 0 && s.k > 0 && Pending(c) != [] ==> ConnRead(c, s).1 != []
  {
  }

  // Enough reads of such a kind deliver everything.
  lemma {:induction false} ReadsDrain(c: ConnV, steps: seq<Step>)
    requires forall i :: 0 <= i < |steps| ==> steps[i].size > 0 && steps[i].k > 0
    ensures |Pending(ConnRun(c, steps).0)| + |steps| <= |Pending(c)| || Pending(ConnRun(c, steps).0) == []
    ensures |steps| >= |Pending(c)| ==> ConnRun(c, steps).1 == Pending(c)
  {
    if steps != [] {
      var before := steps[..|steps| - 1];
      ReadsDrain(c, before);
      ReadsMakeProgress(ConnRun(c, before).0, steps[|steps| - 1]);
      OneReadConserves(ConnRun(c, before).0, steps[|steps| - 1]);
    }
    ReadsDeliverInOrder(c, steps);
  }

  // GetServerNameFromClientHello: one read of up to 4096 bytes is kept for replay if it
  // got at least 42 bytes. k bytes have arrived.
  const PEEK := 4096
  const SHORTEST_HELLO := 42

  function Peeked(stream: seq<byte>, k: nat): ConnV {
    var n := Min(Min(PEEK, k), |stream|);
    ConnV(if n < SHORTEST_HELLO then None else Some(stream[..n]), stream[n..])
  }

  // The peer behind the peek sees the original bytes exactly when the first read got a
  // whole beginning of a hello, or nothing at all.
  lemma PeekIsTransparent(stream: seq<byte>, k: nat)
    ensures Pending(Peeked(stream, k)) == stream <==> (k >= 42 && |stream| >= 42) || k == 0 || stream == []
  {
    var n := Min(Min(PEEK, k), |stream|);
    CutAt(stream, n);
    assert [] + stream[n..] == stream[n..];
    if n == 0 {
      assert stream[0..] == stream;
    }
  }

  // -------------------------------------------------------------------- PortConn.Read

  // start: how much of rs has been delivered; stream: what the connection still holds.
  datatype PortV = PortV(start: nat, stream: seq<byte>)

  // A buffer smaller than the rest of rs is filled from the beginning of rs.
  predicate Short(rs: seq<byte>, start: nat, size: nat) {
    size < |rs| - start
  }

  function PortRead(rs: seq<byte>, readMore: bool, c: PortV, s: Step): (r: (PortV, seq<byte>))
    requires c.start <= |rs|
    ensures r.0.start <= |rs|
  {
    if Short(rs, c.start, s.size) then (c.(start := c.start + s.size), rs[..s.size])
    else
      var head := rs[c.start..];
      if head != [] && !readMore then (c.(start := |rs|), head)
      else
        var n := Min(Min(s.size - |head|, s.k), |c.stream|);
        (PortV(|rs|, c.stream[n..]), head + c.stream[..n])
  }

  class PortConn {
    const rs: seq<byte>
    const readMore: bool
    var start: nat
    var stream: seq<byte>

    constructor (rs: seq<byte>, readMore: bool, stream: seq<byte>)
      ensures this.rs == rs && this.readMore == readMore && start == 0 && this.stream == stream
    {
      this.rs, this.readMore, start, this.stream := rs, readMore, 0, stream;
    }

    function View(): PortV
      reads this
    {
      PortV(start, stream)
    }

    method Read(b: array<byte>, k: nat) returns (n: nat)
      requires start <= |rs|
      modifies this, b
      ensures n <= b.Length && start <= |rs|
      ensures (View(), b[..n]) == PortRead(rs, readMore, old(View()), Step(b.Length, k))
      ensures b[n..] == old(b[..])[n..]
    {
      n := 0;
      if b.Length < |rs| - start {
        n := Copy(b, 0, b.Length, rs);
        assert b[..n] == rs[..n];
        start := start + b.Length;
        return;
      }
      var head := rs[start..];
      if start < |rs| {
        n := Copy(b, 0, b.Length, head);
        assert b[..n] == head;
        start := |rs|;
        if !readMore {
          return;
        }
      }
      var n2 := Copy(b, n, k, stream);
      assert b[..n + n2] == head + stream[..n2];
      stream := stream[n2..];
      n := n + n2;
      assert b[n..] == old(b[..])[n..];
    }
  }

  function PortRun(rs: seq<byte>, readMore: bool, stream: seq<byte>, steps: seq<Step>): (r: (PortV, seq<byte>))
    ensures r.0.start <= |rs|
  {
    if steps == [] then (PortV(0, stream), [])
    else
      var (before, out) := PortRun(rs, readMore, stream, steps[..|steps| - 1]);
      var (after, more) := PortRead(rs, readMore, before, steps[|steps| - 1]);
      (after, out + more)
  }

  // How much of l peeked bytes is delivered after some reads; only the sizes matter.
  function StartAfter(l: nat, steps: seq<Step>): (r: nat)
    ensures r <= l
  {
    if steps == [] then 0
    else
      var start, size := StartAfter(l, steps[..|steps| - 1]), steps[|steps| - 1].size;
      if size < l - start then start + size else l
  }

  // Every short read that asks for bytes is made before anything was delivered.
  ghost predicate ShortOnlyAtStart(l: nat, steps: seq<Step>) {
    forall i :: 0 <= i < |steps| ==>
      (0 < steps[i].size < l - StartAfter(l, steps[..i]) ==> StartAfter(l, steps[..i]) == 0)
  }

  lemma {:induction false} StartDependsOnSizes(rs: seq<byte>, readMore: bool, stream: seq<byte>, steps: seq<Step>)
    ensures PortRun(rs, readMore, stream, steps).0.start == StartAfter(|rs|, steps)
  {
    if steps != [] {
      StartDependsOnSizes(rs, readMore, stream, steps[..|steps| - 1]);
    }
  }

  predicate InPlace(rs: seq<byte>, c: PortV, s: Step) {
    Short(rs, c.start, s.size) && s.size > 0 ==> c.start == 0
  }

  // What has been delivered so far is what it should be.
  ghost predicate OnTrack(rs: seq<byte>, stream: seq<byte>, c: PortV, out: seq<byte>) {
    && c.start <= |rs| && out + rs[c.start..] + c.stream == rs + stream
    && (c.start < |rs| ==> c.stream == stream && out == rs[..c.start])
  }

  lemma ReadOnTrack(rs: seq<byte>, readMore: bool, stream: seq<byte>, c: PortV, out: seq<byte>, s: Step)
    requires OnTrack(rs, stream, c, out) && InPlace(rs, c, s)
    ensures var (c', more) := PortRead(rs, readMore, c, s); OnTrack(rs, stream, c', out + more)
  {
    var head := rs[c.start..];
    if Short(rs, c.start, s.size) {
      assert out + rs[..s.size] == rs[..c.start + s.size];
      CutAt(rs, c.start + s.size);
    } else {
      var n := Min(Min(s.size - |head|, s.k), |c.stream|);
      assert rs[|rs|..] == [];
      CutAt(c.stream, n);
      assert out + (head + c.stream[..n]) + [] + c.stream[n..] == out + head + (c.stream[..n] + c.stream[n..]);
      assert out + head + [] + c.stream == out + head + c.stream;
    }
  }

  lemma {:induction false} GoodRunsStayOnTrack(rs: seq<byte>, readMore: bool, stream: seq<byte>, steps: seq<Step>)
    requires ShortOnlyAtStart(|rs|, steps)
    ensures var (c, out) := PortRun(rs, readMore, stream, steps); OnTrack(rs, stream, c, out)
  {
    if steps == [] {
      assert rs[0..] == rs && [] + rs + stream == rs + stream;
    } else {
      var before, last := steps[..|steps| - 1], steps[|steps| - 1];
      assert forall i :: 0 <= i < |before| ==> before[..i] == steps[..i];
      GoodRunsStayOnTrack(rs, readMore, stream, before);
      var (c, out) := PortRun(rs, readMore, stream, before);
      StartDependsOnSizes(rs, readMore, stream, before);
      ReadOnTrack(rs, readMore, stream, c, out, last);
    }
  }

  ghost predicate DeliversOriginal(rs: seq<byte>, readMore: bool, stream: seq<byte>, steps: seq<Step>) {
    PortRun(rs, readMore, stream, steps).1 <= rs + stream
  }

  lemma {:induction false} OutputGrows(rs: seq<byte>, readMore: bool, stream: seq<byte>, steps: seq<Step>, i: nat)
    requires i <= |steps|
    ensures PortRun(rs, readMore, stream, steps[..i]).1 <= PortRun(rs, readMore, stream, steps).1
  {
    if i == |steps| {
      assert steps[..i] == steps;
    } else {
      OutputGrows(rs, readMore, stream, steps[..|steps| - 1], i);
      assert steps[..|steps| - 1][..i] == steps[..i];
    }
  }

  // One nonempty short read away from the start shows the wrong bytes for some content.
  lemma BadReadShows(l: nat, readMore: bool, steps: seq<Step>, i: nat) returns (rs: seq<byte>)
    requires i < |steps| && ShortOnlyAtStart(l, steps[..i])
    requires 0 < steps[i].size < l - StartAfter(l, steps[..i]) && StartAfter(l, steps[..i]) > 0
    ensures |rs| == l && !DeliversOriginal(rs, readMore, [], steps)
  {
    var start, size := StartAfter(l, steps[..i]), steps[i].size;
    rs := seq(l, k => if k == start then 1 else 0);
    GoodRunsStayOnTrack(rs, readMore, [], steps[..i]);
    StartDependsOnSizes(rs, readMore, [], steps[..i]);
    var next := steps[..i + 1];
    assert next[..i] == steps[..i];
    var out := PortRun(rs, readMore, [], next).1;
    assert out == rs[..start] + rs[..size];
    assert out[start] == 0;
    OutputGrows(rs, readMore, [], steps, i + 1);
    assert (rs + [])[start] == 1;
  }

  // The exact condition on the buffer sizes under which a PortConn that has peeked at l
  // bytes delivers the original bytes, whatever they are.
  lemma PortConnExactly(l: nat, readMore: bool, steps: seq<Step>)
    ensures (forall rs, stream :: |rs| == l ==> DeliversOriginal(rs, readMore, stream, steps))
      <==> ShortOnlyAtStart(l, steps)
  {
    if ShortOnlyAtStart(l, steps) {
      forall rs, stream | |rs| == l ensures DeliversOriginal(rs, readMore, stream, steps) {
        GoodRunsStayOnTrack(rs, readMore, stream, steps);
        var (c, out) := PortRun(rs, readMore, stream, steps);
        Associate(out, rs[c.start..], c.stream);
        assert out <= out + (rs[c.start..] + c.stream);
      }
    } else {
      var i := FirstBad(l, steps);
      var rs := BadReadShows(l, readMore, steps, i);
    }
  }

  lemma {:induction false} FirstBad(l: nat, steps: seq<Step>) returns (i: nat)
    requires !ShortOnlyAtStart(l, steps)
    ensures i < |steps| && ShortOnlyAtStart(l, steps[..i])
    ensures 0 < steps[i].size < l - StartAfter(l, steps[..i]) && StartAfter(l, steps[..i]) > 0
  {
    var n := |steps| - 1;
    var before := steps[..n];
    if ShortOnlyAtStart(l, before) {
      i := n;
      assert forall j :: 0 <= j < n ==> before[..j] == steps[..j] && before[j] == steps[j];
    } else {
      i := FirstBad(l, before);
      assert before[..i] == steps[..i];
    }
  }

  // What a read delivers: the buffer full of peeked bytes if it is shorter than the rest of
  // them; else that rest, and behind it, unless the rest is not empty and readMore is off,
  // what there is still room for of what the connection gives.
  lemma PortReadsMakeProgress(rs: seq<byte>, readMore: bool, c: PortV, s: Step)
    requires c.start <= |rs|
    ensures var (left, n, c') := (|rs| - c.start, |PortRead(rs, readMore, c, s).1|, PortRead(rs, readMore, c, s).0);
      if s.size < left then n == s.size && c' == PortV(c.start + s.size, c.stream)
      else
        var more := n - left;
        && more >= 0 && n <= s.size && c'.start == |rs|
        && PortRead(rs, readMore, c, s).1 == rs[c.start..] + c.stream[..more] && c'.stream == c.stream[more..]
        && (if left > 0 && !readMore then more == 0
            else more <= s.k && (n == s.size || more == s.k || more == |c.stream|))
    ensures s.size > 0 && s.k > 0 && (c.start < |rs| || c.stream != []) ==> PortRead(rs, readMore, c, s).1 != []
  {
    assert c.stream[..0] == [] && c.stream[0..] == c.stream;
    assert rs[c.start..] + [] == rs[c.start..];
  }

  // How much is still to come.
  function ToCome(rs: seq<byte>, c: PortV): int {
    |rs| - c.start + |c.stream|
  }

  lemma PortReadShrinks(rs: seq<byte>, readMore: bool, c: PortV, s: Step)
    requires c.start <= |rs| && s.size > 0 && s.k > 0
    ensures var c' := PortRead(rs, readMore, c, s).0;
      c'.start <= |rs| && if ToCome(rs, c) > 0 then ToCome(rs, c') < ToCome(rs, c) else ToCome(rs, c') == 0
  {
  }

  lemma {:induction false} PortReadsReachEnd(rs: seq<byte>, readMore: bool, stream: seq<byte>, steps: seq<Step>)
    requires forall i :: 0 <= i < |steps| ==> steps[i].size > 0 && steps[i].k > 0
    ensures var left := ToCome(rs, PortRun(rs, readMore, stream, steps).0);
      left + |steps| <= |rs| + |stream| || left == 0
  {
    if steps != [] {
      var n := |steps| - 1;
      PortReadsReachEnd(rs, readMore, stream, steps[..n]);
      var c := PortRun(rs, readMore, stream, steps[..n]).0;
      PortReadShrinks(rs, readMore, c, steps[n]);
      assert PortRun(rs, readMore, stream, steps).0 == PortRead(rs, readMore, c, steps[n]).0;
    }
  }

  // Enough reads with room, from a connection that gives, come to the end of everything;
  // and if no short read comes at the wrong place, they have delivered the original bytes.
  lemma PortReadsDrain(rs: seq<byte>, readMore: bool, stream: seq<byte>, steps: seq<Step>)
    requires forall i :: 0 <= i < |steps| ==> steps[i].size > 0 && steps[i].k > 0
    requires |steps| >= |rs| + |stream|
    ensures PortRun(rs, readMore, stream, steps).0 == PortV(|rs|, [])
    ensures ShortOnlyAtStart(|rs|, steps) ==> PortRun(rs, readMore, stream, steps).1 == rs + stream
  {
    PortReadsReachEnd(rs, readMore, stream, steps);
    if ShortOnlyAtStart(|rs|, steps) {
      GoodRunsStayOnTrack(rs, readMore, stream, steps);
      var (c, out) := PortRun(rs, readMore, stream, steps);
      assert rs[|rs|..] == [] && out + [] + [] == out;
    }
  }

  // Three peeked bytes and two reads of one byte each: the first byte comes twice.
  lemma SecondShortReadRepeats(readMore: bool, stream: seq<byte>)
    ensures var rs: seq<byte> := [1, 2, 3];
      var steps := [Step(1, 1), Step(1, 1)];
      && PortRun(rs, readMore, stream, steps).1 == [1, 1]
      && !DeliversOriginal(rs, readMore, stream, steps) && !ShortOnlyAtStart(3, steps)
  {
    var rs: seq<byte> := [1, 2, 3];
    var steps := [Step(1, 1), Step(1, 1)];
    assert steps[..1] == [Step(1, 1)] && [Step(1, 1)][..0] == [];
    assert rs[..1] == [1] && [] + [1] == [1] && [1] + [1] == [1, 1];
    assert PortRun(rs, readMore, stream, [Step(1, 1)]) == (PortV(1, stream), [1]);
    assert (rs + stream)[1] == 2;
    assert StartAfter(3, [Step(1, 1)]) == 1;
    assert StartAfter(3, steps[..1]) == 1 && steps[1].size == 1;
  }
}
