/** Trimming, word splitting and case folding of cell texts, for characters up to U+00FF. */
module Ascii {
  import opened Text

  predicate IsSpace(c: char) {
    c == ' ' || '\t' <= c <= '\r' || c == 0x85 as char || c == 0xA0 as char
  }

  predicate IsAlpha(c: char) {
    'A' <= c <= 'Z' || 'a' <= c <= 'z'
  }

  predicate IsDigit(c: char) {
    '0' <= c <= '9'
  }

  /** strings.TrimSpace leaves nothing. */
  predicate AllSpace(s: string) {
    forall c :: c in s ==> IsSpace(c)
  }

  function TrimLeft(s: string): (t: string)
    ensures |t| <= |s|
    ensures t != "" ==> !IsSpace(t[0]) && t[|t| - 1] == s[|s| - 1]
    ensures t == "" <==> AllSpace(s)
  {
    if s != "" && IsSpace(s[0]) then TrimLeft(s[1..]) else s
  }

  function TrimRight(s: string): (t: string)
    ensures t <= s
    ensures t != "" ==> !IsSpace(t[|t| - 1])
    ensures t == "" <==> AllSpace(s)
  {
    if s != "" && IsSpace(s[|s| - 1]) then TrimRight(s[..|s| - 1]) else s
  }

  /** strings.TrimSpace. */
  function TrimSpace(s: string): (t: string)
    ensures t == "" <==> AllSpace(s)
    ensures t != "" ==> !IsSpace(t[0]) && !IsSpace(t[|t| - 1])
  {
    TrimRight(TrimLeft(s))
  }

  function LowerChar(c: char): (l: char) {
    if 'A' <= c <= 'Z' then c + 32 as char else c
  }

  function UpperChar(c: char): (u: char) {
    if 'a' <= c <= 'z' then c - 32 as char else c
  }

  function ToLower(s: string): (t: string)
    ensures |t| == |s|
  {
    seq(|s|, i requires 0 <= i < |s| => LowerChar(s[i]))
  }

  function ToUpper(s: string): (t: string)
    ensures |t| == |s|
  {
    seq(|s|, i requires 0 <= i < |s| => UpperChar(s[i]))
  }

  /** White space, character by character. */
  lemma SpaceIff(c: char)
    ensures IsSpace(c) <==>
      c in {' ', '\t', '\n', '\r', 0x0B as char, 0x0C as char, 0x85 as char, 0xA0 as char}
  {
    if '\t' <= c <= '\r' {
      assert c == '\t' || c == '\n' || c == 0x0B as char || c == 0x0C as char || c == '\r';
    }
  }

  /** Letter by letter the two cases stand at the same place of the alphabet; nothing else changes. */
  lemma CasesAre(c: char)
    ensures 'A' <= c <= 'Z' ==> 'a' <= LowerChar(c) <= 'z' && LowerChar(c) - 'a' == c - 'A' && UpperChar(c) == c
    ensures 'a' <= c <= 'z' ==> 'A' <= UpperChar(c) <= 'Z' && UpperChar(c) - 'A' == c - 'a' && LowerChar(c) == c
    ensures !IsAlpha(c) ==> LowerChar(c) == c == UpperChar(c)
  {
  }

  /** Trimming takes white space off both ends and keeps what is between. */
  lemma TrimIs(s: string) returns (p: string, q: string)
    ensures s == p + TrimSpace(s) + q && AllSpace(p) && AllSpace(q)
  {
    p := TrimLeftIs(s);
    q := TrimRightIs(TrimLeft(s));
  }

  lemma {:induction false} TrimLeftIs(s: string) returns (p: string)
    ensures s == p + TrimLeft(s) && AllSpace(p)
    decreases |s|
  {
    p := "";
    if s != "" && IsSpace(s[0]) {
      var rest := TrimLeftIs(s[1..]);
      p := [s[0]] + rest;
    }
  }

  lemma {:induction false} TrimRightIs(s: string) returns (q: string)
    ensures s == TrimRight(s) + q && AllSpace(q)
    decreases |s|
  {
    q := "";
    if s != "" && IsSpace(s[|s| - 1]) {
      var rest := TrimRightIs(s[..|s| - 1]);
      q := rest + [s[|s| - 1]];
    }
  }

  /** Length of the word `s` starts with. */
  function WordLength(s: string): (n: nat)
    ensures n <= |s| && forall i :: 0 <= i < n ==> !IsSpace(s[i])
    ensures n < |s| ==> IsSpace(s[n])
  {
    if s == "" || IsSpace(s[0]) then 0 else 1 + WordLength(s[1..])
  }

  /** strings.Fields. */
  function Fields(s: string): (words: seq<string>)
    ensures forall w :: w in words ==> w != "" && forall c :: c in w ==> !IsSpace(c)
    decreases |s|
  {
    if s == "" then []
    else if IsSpace(s[0]) then Fields(s[1..])
    else [s[..WordLength(s)]] + Fields(s[WordLength(s)..])
  }

  lemma {:induction false} WordLengthIs(s: string, n: nat)
    requires n <= |s| && (forall i :: 0 <= i < n ==> !IsSpace(s[i])) && (n < |s| ==> IsSpace(s[n]))
    ensures WordLength(s) == n
    decreases n
  {
    if n > 0 { WordLengthIs(s[1..], n - 1); }
  }

  /** A text without white space is one word. */
  lemma FieldsOfWord(w: string)
    requires w != "" && forall c :: c in w ==> !IsSpace(c)
    ensures Fields(w) == [w]
  {
    WordLengthIs(w, |w|);
    assert w[..|w|] == w && w[|w|..] == "" && Fields("") == [];
  }

  /** White space separates words, and there are no others on either side of it. */
  lemma {:induction false} FieldsSplit(a: string, c: char, b: string)
    requires IsSpace(c)
    ensures Fields(a + [c] + b) == Fields(a) + Fields(b)
    decreases |a|
  {
    var s := a + [c] + b;
    if a == "" {
      assert s[1..] == b;
    } else if IsSpace(a[0]) {
      assert s[1..] == a[1..] + [c] + b;
      FieldsSplit(a[1..], c, b);
    } else {
      var n := WordLength(a);
      assert forall i :: 0 <= i < |a| ==> s[i] == a[i];
      assert s[|a|] == c;
      WordLengthIs(s, n);
      assert s[..n] == a[..n] && s[n..] == a[n..] + [c] + b;
      FieldsSplit(a[n..], c, b);
    }
  }

  /** A header with its white space squeezed. */
  function NormalizeHeader(s: string): (n: string) {
    Join(Fields(s), ' ')
  }

  /** A header that is squeezed already stays as it is. */
  lemma {:induction false} SqueezedStays(words: seq<string>)
    requires forall w :: w in words ==> w != "" && forall c :: c in w ==> !IsSpace(c)
    ensures Fields(Join(words, ' ')) == words && NormalizeHeader(Join(words, ' ')) == Join(words, ' ')
    decreases |words|
  {
    if words != [] {
      assert words[0] in words;
      FieldsOfWord(words[0]);
      if |words| > 1 {
        assert forall w :: w in words[1..] ==> w in words;
        SqueezedStays(words[1..]);
        FieldsSplit(words[0], ' ', Join(words[1..], ' '));
        assert words == [words[0]] + words[1..];
      } else {
        assert words == [words[0]];
      }
    }
  }

  /** Two headers become the same exactly when they have the same words. */
  lemma HeadersAgreeIff(a: string, b: string)
    ensures NormalizeHeader(a) == NormalizeHeader(b) <==> Fields(a) == Fields(b)
  {
    var v, w := Fields(a), Fields(b);
    assert (v != [] ==> v[0] in v) && (w != [] ==> w[0] in w);
    if v != [] && w != [] && Join(v, ' ') == Join(w, ' ') {
      assert forall p :: p in v + w ==> p in v || p in w;
      JoinInjective(v, w, ' ');
    }
  }

  /** A header is nameless exactly when it is blank. */
  lemma {:induction false} BlankHeaderIff(s: string)
    ensures NormalizeHeader(s) == "" <==> AllSpace(s)
    ensures Fields(s) == [] <==> AllSpace(s)
    decreases |s|
  {
    if s != "" {
      if IsSpace(s[0]) {
        BlankHeaderIff(s[1..]);
        assert s == [s[0]] + s[1..];
      } else {
        assert s[0] in s;
        assert Fields(s)[0] == s[..WordLength(s)] != "";
      }
    }
  }
}
