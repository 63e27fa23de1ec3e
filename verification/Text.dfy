/** strings.Split, strings.Join and the byte-wise string order, with one-character separators. */
module Text {

  predicate Free(s: string, sep: char) {
    sep !in s
  }

  function IndexOf(s: string, sep: char): (i: nat)
    requires sep in s
    ensures i < |s| && s[i] == sep && sep !in s[..i]
  {
    if s[0] == sep then 0 else 1 + IndexOf(s[1..], sep)
  }

  function Split(s: string, sep: char): (parts: seq<string>)
    ensures parts != [] && forall p :: p in parts ==> Free(p, sep)
    decreases |s|
  {
    if sep !in s then [s]
    else var i := IndexOf(s, sep); [s[..i]] + Split(s[i + 1..], sep)
  }

  function Join(parts: seq<string>, sep: char): (s: string) {
    if parts == [] then ""
    else if |parts| == 1 then parts[0]
    else parts[0] + [sep] + Join(parts[1..], sep)
  }

  lemma {:induction false} JoinOfSplit(s: string, sep: char)
    ensures Join(Split(s, sep), sep) == s
    decreases |s|
  {
    if sep in s {
      var i := IndexOf(s, sep);
      JoinOfSplit(s[i + 1..], sep);
      JoinCons(s[..i], Split(s[i + 1..], sep), sep);
      assert s == s[..i] + [sep] + s[i + 1..];
    }
  }

  lemma JoinCons(head: string, rest: seq<string>, sep: char)
    requires rest != []
    ensures Join([head] + rest, sep) == head + [sep] + Join(rest, sep)
  {
    assert ([head] + rest)[1..] == rest;
  }

  lemma FirstSeparator(head: string, tail: string, sep: char)
    requires Free(head, sep)
    ensures var s := head + [sep] + tail;
      sep in s && IndexOf(s, sep) == |head| && s[..|head|] == head && s[|head| + 1..] == tail
  {
    var s := head + [sep] + tail;
    assert s[|head|] == sep;
    var i := IndexOf(s, sep);
    assert forall k :: 0 <= k < |head| ==> s[k] == head[k] != sep;
    assert forall k :: 0 <= k < i ==> s[..i][k] == s[k] != sep;
  }

  lemma {:induction false} SplitOfJoin(parts: seq<string>, sep: char)
    requires parts != [] && forall p :: p in parts ==> Free(p, sep)
    ensures Split(Join(parts, sep), sep) == parts
    decreases |parts|
  {
    assert parts[0] in parts && parts == [parts[0]] + parts[1..];
    if |parts| > 1 {
      JoinCons(parts[0], parts[1..], sep);
      SplitCons(parts[0], Join(parts[1..], sep), sep);
      SplitOfJoin(parts[1..], sep);
    }
  }

  lemma SplitCons(head: string, tail: string, sep: char)
    requires Free(head, sep)
    ensures Split(head + [sep] + tail, sep) == [head] + Split(tail, sep)
  {
    FirstSeparator(head, tail, sep);
  }

  /** Joining separator-free parts loses nothing. */
  lemma JoinInjective(a: seq<string>, b: seq<string>, sep: char)
    requires a != [] && b != []
    requires forall p :: p in a + b ==> Free(p, sep)
    requires Join(a, sep) == Join(b, sep)
    ensures a == b
  {
    assert forall p :: p in a ==> p in a + b;
    assert forall p :: p in b ==> p in a + b;
    SplitOfJoin(a, sep);
    SplitOfJoin(b, sep);
  }

  /** `p` is `s` or a prefix of it that ends right before a separator. */
  predicate PrefixAt(p: string, s: string, sep: char) {
    |p| <= |s| && s[..|p|] == p && (|p| == |s| || s[|p|] == sep)
  }

  lemma PrefixStep(p: string, head: string, tail: string, sep: char)
    requires Free(head, sep)
    ensures PrefixAt(p, head + [sep] + tail, sep) <==>
            p == head || (|p| > |head| && p[..|head| + 1] == head + [sep] && PrefixAt(p[|head| + 1..], tail, sep))
  {
    var s, k := head + [sep] + tail, |head|;
    assert s[..k] == head && s[k] == sep && s[..k + 1] == head + [sep] && s[k + 1..] == tail;
    if PrefixAt(p, s, sep) {
      if |p| > k {
        assert p[..k + 1] == s[..|p|][..k + 1] == s[..k + 1];
        assert p[k + 1..] == s[..|p|][k + 1..] == tail[..|p| - k - 1];
      }
    }
  }

  /** Joining a non-empty run of leading parts gives exactly the prefixes that end before a separator. */
  lemma {:induction false} PrefixesAreJoins(p: string, s: string, sep: char)
    ensures PrefixAt(p, s, sep) <==> JoinsLeading(p, Split(s, sep), sep)
    decreases |s|
  {
    var parts := Split(s, sep);
    if sep !in s {
      assert parts[..1] == [s] && Join([s], sep) == s;
      assert |p| < |s| ==> s[|p|] in s;
    } else {
      var k := IndexOf(s, sep);
      var head, tail := s[..k], s[k + 1..];
      assert s == head + [sep] + tail;
      if |p| > k {
        PrefixesAreJoins(p[k + 1..], tail, sep);
      }
      PrefixesOneMore(p, head, tail, Split(tail, sep), sep);
    }
  }

  lemma PrefixesOneMore(p: string, head: string, tail: string, rest: seq<string>, sep: char)
    requires Free(head, sep)
    requires |p| > |head| ==> (PrefixAt(p[|head| + 1..], tail, sep) <==> JoinsLeading(p[|head| + 1..], rest, sep))
    ensures PrefixAt(p, head + [sep] + tail, sep) <==> JoinsLeading(p, [head] + rest, sep)
  {
    PrefixStep(p, head, tail, sep);
    PrefixesOfParts(p, head, rest, sep);
  }

  /** `p` joins a non-empty run of leading parts. */
  ghost predicate JoinsLeading(p: string, parts: seq<string>, sep: char) {
    exists i :: 1 <= i <= |parts| && p == Join(parts[..i], sep)
  }

  lemma PrefixesOfParts(p: string, head: string, rest: seq<string>, sep: char)
    ensures JoinsLeading(p, [head] + rest, sep) <==>
      p == head || (|p| > |head| && p[..|head| + 1] == head + [sep] && JoinsLeading(p[|head| + 1..], rest, sep))
  {
    var parts := [head] + rest;
    assert parts[..1] == [head] && Join([head], sep) == head;
    forall i | 1 <= i <= |rest|
      ensures Join(parts[..i + 1], sep) == head + [sep] + Join(rest[..i], sep)
    {
      assert parts[..i + 1][1..] == rest[..i] && parts[..i + 1][0] == head;
    }
    if i :| 1 <= i <= |parts| && p == Join(parts[..i], sep) {
      if i > 1 {
        assert p == head + [sep] + Join(rest[..i - 1], sep);
      }
    }
    if |p| > |head| && p[..|head| + 1] == head + [sep] {
      assert p == head + [sep] + p[|head| + 1..];
      if i :| 1 <= i <= |rest| && p[|head| + 1..] == Join(rest[..i], sep) {
        assert p == Join(parts[..i + 1], sep);
      }
    }
  }

  /** Byte-wise order, the one sort.Strings uses. */
  predicate Less(a: string, b: string) {
    b != "" && (a == "" || a[0] < b[0] || (a[0] == b[0] && Less(a[1..], b[1..])))
  }

  lemma {:induction false} LessIrreflexive(a: string)
    ensures !Less(a, a)
  {
    if a != "" { LessIrreflexive(a[1..]); }
  }

  lemma {:induction false} LessTotal(a: string, b: string)
    ensures a == b || Less(a, b) || Less(b, a)
    ensures !(Less(a, b) && Less(b, a)) && !Less(a, a)
    decreases |a| + |b|
  {
    if a != "" {
      LessIrreflexive(a);
      if b != "" && a[0] == b[0] {
        LessTotal(a[1..], b[1..]);
        if a[1..] == b[1..] { assert a == [a[0]] + a[1..] == b; }
      }
    }
  }

  lemma {:induction false} LessTransitive(a: string, b: string, c: string)
    requires Less(a, b) && Less(b, c)
    ensures Less(a, c)
    decreases |a|
  {
    if a != "" && a[0] == b[0] == c[0] {
      LessTransitive(a[1..], b[1..], c[1..]);
    }
  }

  ghost predicate StrictlySorted(s: seq<string>) {
    forall i, j :: 0 <= i < j < |s| ==> Less(s[i], s[j])
  }

  /** A set has only one sorted listing, so sorting hides the iteration order of a map. */
  lemma {:induction false} SortedListingUnique(a: seq<string>, b: seq<string>)
    requires StrictlySorted(a) && StrictlySorted(b)
    requires forall x :: x in a <==> x in b
    ensures a == b
    decreases |a|
  {
    assert a != [] ==> a[0] in a;
    assert b != [] ==> b[0] in b;
    if b != [] {
      LessTotal(a[0], b[0]);
      var i :| 0 <= i < |b| && b[i] == a[0];
      var j :| 0 <= j < |a| && a[j] == b[0];
      assert i == 0 && j == 0;
      forall x ensures x in a[1..] <==> x in b[1..] {
        LessTotal(a[0], a[0]);
        assert x in a[1..] ==> x in a && x != a[0];
        assert x in b[1..] ==> x in b && x != b[0];
      }
      SortedListingUnique(a[1..], b[1..]);
      assert a == [a[0]] + a[1..] && b == [b[0]] + b[1..];
    }
  }

  /** Keys of a map-as-set in sorted order. */
  method SortedKeys(keys: set<string>) returns (out: seq<string>)
    ensures StrictlySorted(out)
    ensures forall x :: x in out <==> x in keys
  {
    out := [];
    var rest := keys;
    while rest != {}
      invariant rest <= keys && forall x :: x in out <==> x in keys - rest
      invariant StrictlySorted(out)
      invariant forall i, x :: 0 <= i < |out| && x in rest ==> Less(out[i], x)
      decreases |rest|
    {
      var least :| least in rest;
      var todo := rest - {least};
      while todo != {}
        invariant todo <= rest && least in rest - todo
        invariant forall x :: x in rest - todo && x != least ==> Less(least, x)
        decreases |todo|
      {
        var x :| x in todo;
        LessTotal(x, least);
        if Less(x, least) {
          forall y | y in rest - todo && y != least ensures Less(x, y) {
            LessTransitive(x, least, y);
          }
          least := x;
        }
        todo := todo - {x};
      }
      out := out + [least];
      rest := rest - {least};
    }
  }
}
