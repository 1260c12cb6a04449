// Types and small functions that several modules use.
module Common {

  datatype Option<+T> = None | Some(value: T)

  // Go strings and []byte values are both sequences of bytes here.
  type byte = b: int | 0 <= b < 0x100
  type uint16 = n: int | 0 <= n < 0x1_0000
  type GoString = seq<byte>

  // True when no element occurs twice.
  ghost predicate Distinct<T>(s: seq<T>) {
    forall i, j :: 0 <= i < j < |s| ==> s[i] != s[j]
  }

  // order lists the ids of the map, each once: one way to walk it.
  ghost predicate Walk<R>(m: map<int, R>, order: seq<int>) {
    Distinct(order) && forall id :: id in order <==> id in m
  }

  function Min(a: int, b: int): (m: int)
    ensures m <= a && m <= b && (m == a || m == b)
  {
    if a <= b then a else b
  }

  // Big-endian 16-bit values.
  function Word(hi: byte, lo: byte): uint16 {
    (hi as int) * 0x100 + lo
  }

  function EncodeWord(n: uint16): (b: seq<byte>)
    ensures |b| == 2
  {
    [n / 0x100, n % 0x100]
  }

  lemma WordRoundTrip(n: uint16)
    ensures Word(EncodeWord(n)[0], EncodeWord(n)[1]) == n
  {
  }

  lemma WordBytes(hi: byte, lo: byte)
    ensures EncodeWord(Word(hi, lo)) == [hi, lo]
  {
  }

  lemma HighAndLow(n: nat, hi: nat, lo: byte)
    ensures n == 256 * hi + lo <==> n / 256 == hi && n % 256 == lo
  {
  }

  // The bytes of a 16-bit value, the high one first.
  lemma WordDigits(n: uint16, hi: byte, lo: byte)
    ensures EncodeWord(n) == [hi, lo] <==> n == 256 * hi + lo
    ensures Word(hi, lo) == n <==> n == 256 * hi + lo
  {
    HighAndLow(n, hi, lo);
  }

  // A sequence is what stands before a cut and what stands behind it.
  lemma CutAt<T>(s: seq<T>, n: nat)
    requires n <= |s|
    ensures s == s[..n] + s[n..]
  {
  }

  lemma CutOne<T>(s: seq<T>)
    requires |s| >= 1
    ensures s == [s[0]] + s[1..]
  {
  }

  lemma CutTwo<T>(s: seq<T>)
    requires |s| >= 2
    ensures s == [s[0], s[1]] + s[2..]
  {
  }

  lemma CutWithin<T>(s: seq<T>, i: nat, j: nat, n: nat)
    requires i <= j <= n <= |s|
    ensures s[..n][i..j] == s[i..j]
  {
  }

  lemma Associate<T>(a: seq<T>, b: seq<T>, c: seq<T>)
    ensures a + (b + c) == a + b + c
  {
  }

  // The parts of a concatenation.
  lemma Parts<T>(a: seq<T>, b: seq<T>, c: seq<T>)
    ensures (a + b + c)[..|a|] == a
    ensures (a + b + c)[|a|..|a| + |b|] == b
    ensures (a + b + c)[|a| + |b|..] == c
  {
  }
}
