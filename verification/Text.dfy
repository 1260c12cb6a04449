// The parts of Go's strings package that the protocols lean on, with the laws
// that make separators usable as framing.
module Text {
  // strings.Split for a non-empty separator: leftmost, non-overlapping matches.
  function Split<T(==)>(s: seq<T>, sep: seq<T>): (parts: seq<seq<T>>)
    requires sep != []
    ensures parts != []
    decreases |s|
  {
    if sep <= s then [[]] + Split(s[|sep|..], sep)
    else if s == [] then [[]]
    else
      var rest := Split(s[1..], sep);
      [[s[0]] + rest[0]] + rest[1..]
  }

  // sub occurs in s (strings.Contains).
  predicate Contains<T(==)>(s: seq<T>, sub: seq<T>)
    decreases |s|
  {
    sub <= s || (s != [] && Contains(s[1..], sub))
  }

  // s is sub with something before and behind it.
  lemma {:induction false} ContainsExactly<T(!new)>(s: seq<T>, sub: seq<T>)
    ensures Contains(s, sub) <==> exists a, b :: s == a + sub + b
  {
    if sub <= s {
      assert s == [] + sub + s[|sub|..];
    } else if s != [] {
      ContainsExactly(s[1..], sub);
      if a, b :| s[1..] == a + sub + b {
        assert s == [s[0]] + a + sub + b;
      }
      if a, b :| s == a + sub + b {
        assert a != [] && s[1..] == a[1..] + sub + b;
      }
    }
  }

  // Something is cut exactly if the separator occurs.
  lemma {:induction false} SplitsExactly<T>(s: seq<T>, sep: seq<T>)
    requires sep != []
    ensures |Split(s, sep)| >= 2 <==> Contains(s, sep)
    decreases |s|
  {
    if !(sep <= s) && s != [] {
      SplitsExactly(s[1..], sep);
    }
  }

  // Joining what Split has cut gives the text back.
  lemma {:induction false} JoinOfSplit<T>(s: seq<T>, sep: seq<T>)
    requires sep != []
    ensures Join(Split(s, sep), sep) == s
    decreases |s|
  {
    if sep <= s {
      var rest := Split(s[|sep|..], sep);
      JoinOfSplit(s[|sep|..], sep);
      assert ([[]] + rest)[1..] == rest && [] + sep == sep;
      assert s == sep + s[|sep|..];
    } else if s != [] {
      JoinOfSplit(s[1..], sep);
      JoinFirst(s[0], Split(s[1..], sep), sep);
      assert s == [s[0]] + s[1..];
    }
  }

  lemma JoinFirst<T>(x: T, parts: seq<seq<T>>, sep: seq<T>)
    requires parts != []
    ensures Join([[x] + parts[0]] + parts[1..], sep) == [x] + Join(parts, sep)
  {
    var longer := [[x] + parts[0]] + parts[1..];
    if |parts| > 1 {
      assert longer[1..] == parts[1..];
    }
  }

  // No occurrence of sep starts inside p once sep itself is written behind it.
  predicate Clean<T(==)>(p: seq<T>, sep: seq<T>) {
    p == [] || (!(sep <= p + sep) && Clean(p[1..], sep))
  }

  // Each part followed by the separator.
  function Terminated<T>(parts: seq<seq<T>>, sep: seq<T>): seq<T> {
    if parts == [] then [] else parts[0] + sep + Terminated(parts[1..], sep)
  }

  // strings.Join
  function Join<T>(parts: seq<seq<T>>, sep: seq<T>): seq<T>
  {
    if parts == [] then []
    else if |parts| == 1 then parts[0]
    else parts[0] + sep + Join(parts[1..], sep)
  }

  // A clean part is exactly what Split cuts off in front of the separator.
  lemma {:induction false} SplitHead<T>(p: seq<T>, sep: seq<T>, rest: seq<T>)
    requires sep != [] && Clean(p, sep)
    ensures Split(p + sep + rest, sep) == [p] + Split(rest, sep)
  {
    var s := p + sep + rest;
    if p == [] {
      assert s == sep + rest && s[|sep|..] == rest;
    } else {
      assert s[..|sep|] == (p + sep)[..|sep|];
      assert !(sep <= s);
      assert s[1..] == p[1..] + sep + rest;
      SplitHead(p[1..], sep, rest);
      var r := Split(s[1..], sep);
      assert r[0] == p[1..] && r[1..] == Split(rest, sep);
      assert [s[0]] + p[1..] == p;
    }
  }

  // A part that is not clean is cut short.
  lemma {:induction false} SplitUnclean<T>(p: seq<T>, sep: seq<T>, rest: seq<T>)
    requires sep != [] && !Clean(p, sep)
    ensures |Split(p + sep + rest, sep)[0]| < |p|
  {
    var s := p + sep + rest;
    assert s[..|sep|] == (p + sep)[..|sep|];
    if !(sep <= p + sep) {
      SplitUnclean(p[1..], sep, rest);
      assert s[1..] == p[1..] + sep + rest;
    }
  }

  // Splitting a file of terminated clean parts gives the parts and one empty tail.
  lemma {:induction false} SplitTerminated<T>(parts: seq<seq<T>>, sep: seq<T>)
    requires sep != []
    requires forall p :: p in parts ==> Clean(p, sep)
    ensures Split(Terminated(parts, sep), sep) == parts + [[]]
  {
    if parts == [] {
    } else {
      SplitTerminated(parts[1..], sep);
      SplitHead(parts[0], sep, Terminated(parts[1..], sep));
    }
  }

  lemma {:induction false} SplitNone<T>(s: seq<T>, c: T)
    requires c !in s
    ensures Split(s, [c]) == [s]
  {
    if s != [] {
      SplitNone(s[1..], c);
      assert [s[0]] + s[1..] == s;
    }
  }

  lemma {:induction false} CleanChar<T>(s: seq<T>, c: T)
    requires c !in s
    ensures Clean(s, [c])
  {
    if s != [] {
      assert (s + [c])[0] == s[0];
      CleanChar(s[1..], c);
    }
  }

  // Split undoes Join for a one-character separator that no part contains.
  lemma {:induction false} SplitJoin<T>(parts: seq<seq<T>>, c: T)
    requires parts != []
    requires forall p :: p in parts ==> c !in p
    ensures Split(Join(parts, [c]), [c]) == parts
  {
    if |parts| == 1 {
      SplitNone(parts[0], c);
    } else {
      SplitJoin(parts[1..], c);
      CleanChar(parts[0], c);
      SplitHead(parts[0], [c], Join(parts[1..], [c]));
    }
  }

  // Every piece of a split occurs in the text, and no piece contains the
  // (one-character) separator.
  lemma {:induction false} SplitPieces<T>(s: seq<T>, c: T)
    ensures forall p :: p in Split(s, [c]) ==> Contains(s, p) && c !in p
  {
    if s == [] {
    } else if s[0] == c {
      SplitPieces(s[1..], c);
    } else {
      SplitPieces(s[1..], c);
      var rest := Split(s[1..], [c]);
      forall p | p in Split(s, [c]) ensures Contains(s, p) && c !in p {
        if p == [s[0]] + rest[0] {
          SplitFirstIsPrefix(s[1..], c);
          assert rest[0] in rest;
        }
      }
    }
  }

  lemma {:induction false} SplitFirstIsPrefix<T>(s: seq<T>, c: T)
    ensures Split(s, [c])[0] <= s
  {
    if s != [] && s[0] != c {
      SplitFirstIsPrefix(s[1..], c);
    }
  }
}
