/**
 Content hashes of toll rows (client/toll/normalize.go): the same crossing must get the same key from a file
 and its re-send, and identical rows of one file must get different keys.
 */
module TollHash {
  import opened Text
  import opened Wrappers

  const SEP: char := 0x1f as char

  /**
   A parsed row. Dates, times and the amount stand in the text forms they are hashed in; `other` is everything
   not hashed.
   */
  datatype Row = Row(
    postDate: string, deviceId: string, agencyRef: string, plate: string, exitAt: Option<string>,
    exitPlaza: string, agency: string, amount: string, other: string, hash: string)

  /** SHA-256 in hexadecimal. */
  type Digest = string -> string

  ghost predicate Injective(digest: Digest) {
    forall a, b :: digest(a) == digest(b) ==> a == b
  }

  function DigitChar(d: nat): (c: char)
    requires d < 10
    ensures '0' <= c <= '9'
  {
    '0' + d as char
  }

  /** strconv.Itoa of a count. */
  function Itoa(n: nat): (s: string)
    ensures s != "" && Free(s, SEP)
  {
    if n < 10 then [DigitChar(n)] else Itoa(n / 10) + [DigitChar(n % 10)]
  }

  lemma {:induction false} ItoaInjective(m: nat, n: nat)
    requires Itoa(m) == Itoa(n)
    ensures m == n
    decreases m
  {
    var s, t := Itoa(m), Itoa(n);
    assert s[|s| - 1] == DigitChar(m % 10) && t[|t| - 1] == DigitChar(n % 10);
    assert m % 10 == n % 10;
    if m >= 10 && n >= 10 {
      assert Itoa(m / 10) == s[..|s| - 1] && Itoa(n / 10) == t[..|t| - 1];
      ItoaInjective(m / 10, n / 10);
    } else {
      assert |Itoa(m / 10)| >= 1 && |Itoa(n / 10)| >= 1;
    }
  }

  /** The hashed fields, in order. */
  function Key(provider: string, r: Row): (parts: seq<string>) {
    [provider, r.postDate, r.deviceId, r.agencyRef, r.plate, if r.exitAt.Some? then r.exitAt.value else "",
     r.exitPlaza, r.agency, r.amount]
  }

  /** `HashRow`, from the hashed fields and the occurrence number. */
  function HashKey(digest: Digest, key: seq<string>, occurrence: nat): (h: string) {
    digest(Join(key + [Itoa(occurrence)], SEP))
  }

  function HashRow(digest: Digest, provider: string, r: Row, occurrence: nat): (h: string) {
    HashKey(digest, Key(provider, r), occurrence)
  }

  /** Decimal notation: a number over nine is its tens followed by its ones, and the digits are the usual ones. */
  lemma ItoaIs(q: nat, d: nat)
    requires d < 10
    ensures Itoa(d) == ["0123456789"[d]]
    ensures q > 0 ==> Itoa(10 * q + d) == Itoa(q) + ["0123456789"[d]]
  {
    DigitCharIs(d);
    assert (10 * q + d) / 10 == q && (10 * q + d) % 10 == d;
  }

  lemma DigitCharIs(d: nat)
    requires d < 10
    ensures DigitChar(d) == "0123456789"[d]
  {
  }

  /** What is digested, in full: nine fields, unit separators between them, and then the occurrence number. */
  lemma HashRowIs(digest: Digest, provider: string, r: Row, n: nat)
    ensures var u := [0x1F as char];
      && HashRow(digest, provider, r, n) == digest(Content(provider, r) + u + Itoa(n))
      && Content(provider, r) ==
           provider + u + r.postDate + u + r.deviceId + u + r.agencyRef + u + r.plate
           + u + (if r.exitAt.Some? then r.exitAt.value else "") + u + r.exitPlaza + u + r.agency + u + r.amount
  {
    HashKeyIs(digest, Key(provider, r), n);
    JoinNine(provider, r.postDate, r.deviceId, r.agencyRef, r.plate,
             if r.exitAt.Some? then r.exitAt.value else "", r.exitPlaza, r.agency, r.amount);
  }

  lemma JoinFive(a: string, b: string, c: string, d: string, e: string)
    ensures Join([a, b, c, d, e], SEP) == a + [SEP] + b + [SEP] + c + [SEP] + d + [SEP] + e
  {
    JoinSnoc([a], b, SEP);
    JoinSnoc([a, b], c, SEP);
    JoinSnoc([a, b, c], d, SEP);
    JoinSnoc([a, b, c, d], e, SEP);
    assert [a] + [b] == [a, b] && [a, b] + [c] == [a, b, c] && [a, b, c] + [d] == [a, b, c, d];
    assert [a, b, c, d] + [e] == [a, b, c, d, e];
  }

  lemma JoinNine(a: string, b: string, c: string, d: string, e: string, f: string, g: string, h: string, i: string)
    ensures Join([a, b, c, d, e, f, g, h, i], SEP)
         == a + [SEP] + b + [SEP] + c + [SEP] + d + [SEP] + e + [SEP] + f + [SEP] + g + [SEP] + h + [SEP] + i
  {
    JoinFive(a, b, c, d, e);
    var five := [a, b, c, d, e];
    JoinSnoc(five, f, SEP);
    JoinSnoc(five + [f], g, SEP);
    JoinSnoc(five + [f] + [g], h, SEP);
    JoinSnoc(five + [f] + [g] + [h], i, SEP);
    assert five + [f] + [g] + [h] + [i] == [a, b, c, d, e, f, g, h, i];
  }

  /** The hashed fields as one text. */
  function Content(provider: string, r: Row): (text: string) {
    Join(Key(provider, r), SEP)
  }

  function HashText(digest: Digest, text: string, occurrence: nat): (h: string) {
    digest(text + [SEP] + Itoa(occurrence))
  }

  predicate Clean(key: seq<string>) {
    forall p :: p in key ==> Free(p, SEP)
  }

  // ---------------------------------------------------------------- when a hash identifies a row

  function Count(s: string, c: char): (n: nat) {
    if s == "" then 0 else (if s[0] == c then 1 else 0) + Count(s[1..], c)
  }

  lemma {:induction false} CountAppend(a: string, b: string, c: char)
    ensures Count(a + b, c) == Count(a, c) + Count(b, c)
    decreases |a|
  {
    if a == "" {
      assert a + b == b;
    } else {
      assert (a + b)[1..] == a[1..] + b;
      CountAppend(a[1..], b, c);
    }
  }

  lemma {:induction false} CountZero(s: string, c: char)
    ensures Count(s, c) == 0 <==> Free(s, c)
  {
    if s != "" {
      CountZero(s[1..], c);
      assert Free(s, c) <==> s[0] != c && Free(s[1..], c);
    }
  }

  /** A join holds a separator between any two parts, and no others exactly when all parts are free of it. */
  lemma {:induction false} CountOfJoin(parts: seq<string>, sep: char)
    requires parts != []
    ensures Count(Join(parts, sep), sep) >= |parts| - 1
    ensures Count(Join(parts, sep), sep) == |parts| - 1 <==> forall p :: p in parts ==> Free(p, sep)
    decreases |parts|
  {
    CountZero(parts[0], sep);
    if |parts| == 1 {
      assert parts == [parts[0]];
    } else {
      var rest := Join(parts[1..], sep);
      CountOfJoin(parts[1..], sep);
      assert Join(parts, sep) == parts[0] + ([sep] + rest);
      CountAppend(parts[0], [sep] + rest, sep);
      CountAppend([sep], rest, sep);
      assert Count([sep], sep) == 1;
      assert parts == [parts[0]] + parts[1..];
    }
  }

  /** Among lists of one length, a list of separator-free parts shares its join with no other list. */
  lemma FreeJoinUnique(a: seq<string>, b: seq<string>, sep: char)
    requires |a| == |b| > 0 && Join(a, sep) == Join(b, sep)
    requires forall p :: p in a ==> Free(p, sep)
    ensures a == b
  {
    CountOfJoin(a, sep);
    CountOfJoin(b, sep);
    JoinInjective(a, b, sep);
  }

  /** A separator inside a part can be read as the one between two parts, and the other way round. */
  lemma {:induction false} JoinRegroup(a: seq<string>, p: string, q: string, b: seq<string>, sep: char)
    ensures Join(a + [p + [sep] + q] + b, sep) == Join(a + [p, q] + b, sep)
    decreases |a|
  {
    if a == [] {
      var s, t := [p + [sep] + q] + b, [p, q] + b;
      assert a + [p + [sep] + q] + b == s && a + [p, q] + b == t;
      assert t[1..] == [q] + b && t[1..][1..] == b && s[1..] == b;
      assert Join([q] + b, sep) == if b == [] then q else q + [sep] + Join(b, sep);
    } else {
      JoinRegroup(a[1..], p, q, b, sep);
      assert (a + [p + [sep] + q] + b)[1..] == a[1..] + [p + [sep] + q] + b;
      assert (a + [p, q] + b)[1..] == a[1..] + [p, q] + b;
    }
  }

  lemma MoveSeparator(a: seq<string>, x: string, p: string, q: string, b: seq<string>, sep: char)
    ensures Join(a + [x, p + [sep] + q] + b, sep) == Join(a + [x + [sep] + p, q] + b, sep)
  {
    JoinRegroup(a + [x], p, q, b, sep);
    JoinRegroup(a, x, p, [q] + b, sep);
    assert (a + [x]) + [p + [sep] + q] + b == a + [x, p + [sep] + q] + b;
    assert (a + [x]) + [p, q] + b == a + [x, p] + ([q] + b);
    assert a + [x + [sep] + p] + ([q] + b) == a + [x + [sep] + p, q] + b;
  }

  lemma {:induction false} JoinSnoc(parts: seq<string>, last: string, sep: char)
    requires parts != []
    ensures Join(parts + [last], sep) == Join(parts, sep) + [sep] + last
    decreases |parts|
  {
    if |parts| == 1 {
      JoinCons(parts[0], [last], sep);
      assert parts + [last] == [parts[0]] + [last];
    } else {
      JoinSnoc(parts[1..], last, sep);
      JoinCons(parts[0], parts[1..] + [last], sep);
      assert parts + [last] == [parts[0]] + (parts[1..] + [last]);
    }
  }

  /** The occurrence number is what stands behind the last separator, whatever the fields hold. */
  lemma HashKeyIs(digest: Digest, key: seq<string>, n: nat)
    requires key != []
    ensures HashKey(digest, key, n) == HashText(digest, Join(key, SEP), n)
  {
    JoinSnoc(key, Itoa(n), SEP);
  }

  lemma LastSeparator(s: string, a: string, t: string, b: string, sep: char)
    requires Free(a, sep) && Free(b, sep) && s + [sep] + a == t + [sep] + b
    ensures s == t && a == b
  {
    var x, y := s + [sep] + a, t + [sep] + b;
    assert x[|s|] == sep && y[|t|] == sep;
    assert forall k :: |s| < k < |x| ==> x[k] == a[k - |s| - 1] && a[k - |s| - 1] in a;
    assert forall k :: |t| < k < |y| ==> y[k] == b[k - |t| - 1] && b[k - |t| - 1] in b;
    assert |s| == |t|;
    assert s == x[..|s|] == y[..|t|] == t;
    assert a == x[|s| + 1..] == y[|t| + 1..] == b;
  }

  /**
   Rows hash alike exactly when their joined fields and occurrence numbers agree; this needs nothing of the
   fields.
   */
  lemma TextIdentifies(digest: Digest, s: string, m: nat, t: string, n: nat)
    requires Injective(digest)
    ensures HashText(digest, s, m) == HashText(digest, t, n) <==> s == t && m == n
  {
    if HashText(digest, s, m) == HashText(digest, t, n) {
      LastSeparator(s, Itoa(m), t, Itoa(n), SEP);
      ItoaInjective(m, n);
    }
  }

  /** Two clean rows have the same hash exactly when their hashed fields and occurrence numbers agree. */
  lemma HashIdentifies(digest: Digest, a: seq<string>, m: nat, b: seq<string>, n: nat)
    requires Injective(digest) && |a| == |b| && Clean(a)
    ensures HashKey(digest, a, m) == HashKey(digest, b, n) <==> a == b && m == n
  {
    var s, t := a + [Itoa(m)], b + [Itoa(n)];
    if HashKey(digest, a, m) == HashKey(digest, b, n) {
      FreeJoinUnique(s, t, SEP);
      assert a == s[..|a|] == t[..|b|] == b;
      assert s[|a|] == t[|b|];
      ItoaInjective(m, n);
    }
  }

  /** The fields the code formats itself never hold the separator; the four free-text fields might. */
  predicate Formatted(provider: string, r: Row) {
    && Free(provider, SEP) && Free(r.postDate, SEP) && Free(r.plate, SEP) && Free(r.amount, SEP)
    && (r.exitAt.Some? ==> Free(r.exitAt.value, SEP))
  }

  predicate TextFree(r: Row) {
    Free(r.deviceId, SEP) && Free(r.agencyRef, SEP) && Free(r.exitPlaza, SEP) && Free(r.agency, SEP)
  }

  lemma CleanIff(provider: string, r: Row)
    requires Formatted(provider, r)
    ensures Clean(Key(provider, r)) <==> TextFree(r)
  {
    var k := Key(provider, r);
    assert k[2] == r.deviceId && k[3] == r.agencyRef && k[6] == r.exitPlaza && k[7] == r.agency;
  }

  /** No other row content and occurrence number hashes like this one. */
  ghost predicate Unmistakable(digest: Digest, provider: string, r: Row, occurrence: nat) {
    forall s: Row, n: nat ::
      Formatted(provider, s) && HashRow(digest, provider, s, n) == HashRow(digest, provider, r, occurrence)
      ==> Key(provider, s) == Key(provider, r) && n == occurrence
  }

  /**
   The comment on the separator says it cannot occur in the text. Where it does, a hash is shared: a row's
   hash is its own exactly when the separator is in none of its free-text fields.
   */
  lemma UnmistakableIff(digest: Digest, provider: string, r: Row, occurrence: nat)
    requires Injective(digest) && Formatted(provider, r)
    ensures Unmistakable(digest, provider, r, occurrence) <==> TextFree(r)
  {
    CleanIff(provider, r);
    if TextFree(r) {
      forall s: Row, n: nat
        | Formatted(provider, s) && HashRow(digest, provider, s, n) == HashRow(digest, provider, r, occurrence)
        ensures Key(provider, s) == Key(provider, r) && n == occurrence
      {
        HashIdentifies(digest, Key(provider, r), occurrence, Key(provider, s), n);
      }
    } else {
      var s := Confused(digest, provider, r, occurrence);
      assert Key(provider, s)[2] == s.deviceId && Key(provider, s)[6] == s.exitPlaza;
      assert HashRow(digest, provider, s, occurrence) == HashRow(digest, provider, r, occurrence);
    }
  }

  lemma CutAt(t: string, sep: char) returns (p: string, q: string)
    requires sep in t
    ensures t == p + [sep] + q
  {
    var i := IndexOf(t, sep);
    p, q := t[..i], t[i + 1..];
  }

  /**
   A different row that hashes the same: the separator and what stands before or after it moves to the field
   beside it.
   */
  lemma Confused(digest: Digest, provider: string, r: Row, occurrence: nat) returns (s: Row)
    requires Formatted(provider, r) && !TextFree(r)
    ensures Formatted(provider, s) && (s.deviceId != r.deviceId || s.exitPlaza != r.exitPlaza)
    ensures HashRow(digest, provider, s, occurrence) == HashRow(digest, provider, r, occurrence)
  {
    var exit := if r.exitAt.Some? then r.exitAt.value else "";
    if SEP in r.deviceId || SEP in r.agencyRef {
      var a, b := [provider, r.postDate], [r.plate, exit, r.exitPlaza, r.agency, r.amount] + [Itoa(occurrence)];
      var d, e := Regroup(a, r.deviceId, r.agencyRef, b, SEP);
      s := r.(deviceId := d, agencyRef := e);
      assert Key(provider, r) + [Itoa(occurrence)] == a + [r.deviceId, r.agencyRef] + b;
      assert Key(provider, s) + [Itoa(occurrence)] == a + [d, e] + b;
    } else {
      var a := [provider, r.postDate, r.deviceId, r.agencyRef, r.plate, exit];
      var b := [r.amount] + [Itoa(occurrence)];
      var d, e := Regroup(a, r.exitPlaza, r.agency, b, SEP);
      s := r.(exitPlaza := d, agency := e);
      assert Key(provider, r) + [Itoa(occurrence)] == a + [r.exitPlaza, r.agency] + b;
      assert Key(provider, s) + [Itoa(occurrence)] == a + [d, e] + b;
    }
  }

  lemma Regroup(a: seq<string>, x: string, y: string, b: seq<string>, sep: char) returns (d: string, e: string)
    requires sep in x || sep in y
    ensures d != x && Join(a + [d, e] + b, sep) == Join(a + [x, y] + b, sep)
  {
    if sep in x {
      var p, q := CutAt(x, sep);
      MoveSeparator(a, p, q, y, b, sep);
      d, e := p, q + [sep] + y;
      assert |d| < |x|;
    } else {
      var p, q := CutAt(y, sep);
      MoveSeparator(a, x, p, q, b, sep);
      d, e := x + [sep] + p, q;
      assert |d| > |x|;
    }
  }

  // ---------------------------------------------------------------- assignHashes

  /** How many rows have the base hash `base`. */
  function Siblings(digest: Digest, provider: string, rows: seq<Row>, base: string): (n: nat) {
    if rows == [] then 0
    else Siblings(digest, provider, rows[..|rows| - 1], base)
         + (if HashRow(digest, provider, rows[|rows| - 1], 0) == base then 1 else 0)
  }

  /** The rows with their hashes: each numbered by the rows before it that have the same base hash. */
  function Assigned(digest: Digest, provider: string, rows: seq<Row>): (out: seq<Row>)
    ensures |out| == |rows|
  {
    if rows == [] then []
    else
      var init, r := rows[..|rows| - 1], rows[|rows| - 1];
      var n := Siblings(digest, provider, init, HashRow(digest, provider, r, 0));
      Assigned(digest, provider, init) + [r.(hash := HashRow(digest, provider, r, n))]
  }

  /** `seen` holds how many of the rows have each base hash. */
  ghost predicate Counts(seen: map<string, nat>, digest: Digest, provider: string, rows: seq<Row>) {
    forall base :: (if base in seen then seen[base] else 0) == Siblings(digest, provider, rows, base)
  }

  lemma CountsStep(seen: map<string, nat>, digest: Digest, provider: string, rows: seq<Row>, r: Row, base: string,
                   n: nat)
    requires Counts(seen, digest, provider, rows) && base == HashRow(digest, provider, r, 0)
    requires n == Siblings(digest, provider, rows, base)
    ensures Counts(seen[base := n + 1], digest, provider, rows + [r])
  {
    forall b
      ensures Siblings(digest, provider, rows + [r], b)
           == Siblings(digest, provider, rows, b) + (if b == base then 1 else 0)
    {
      SiblingsOne(digest, provider, rows, r, b);
    }
  }

  lemma SiblingsOne(digest: Digest, provider: string, rows: seq<Row>, r: Row, base: string)
    ensures Siblings(digest, provider, rows + [r], base)
         == Siblings(digest, provider, rows, base) + (if HashRow(digest, provider, r, 0) == base then 1 else 0)
  {
    assert (rows + [r])[..|rows|] == rows;
  }

  lemma AssignedStep(digest: Digest, provider: string, rows: seq<Row>, r: Row, base: string, n: nat)
    requires base == HashRow(digest, provider, r, 0) && n == Siblings(digest, provider, rows, base)
    ensures Assigned(digest, provider, rows + [r]) ==
        Assigned(digest, provider, rows) + [r.(hash := HashRow(digest, provider, r, n))]
  {
    assert (rows + [r])[..|rows|] == rows;
  }

  /** Appending rows leaves the hashes of the rows before them as they were. */
  lemma {:induction false} HashesNeedNoLaterRows(digest: Digest, provider: string, rows: seq<Row>, more: seq<Row>)
    ensures Assigned(digest, provider, rows + more)[..|rows|] == Assigned(digest, provider, rows)
    decreases |more|
  {
    if more == [] {
      assert rows + more == rows;
    } else {
      HashesNeedNoLaterRows(digest, provider, rows, more[..|more| - 1]);
      assert (rows + more)[..|rows + more| - 1] == rows + more[..|more| - 1];
    }
  }

  /** One round of the loop: number row `i` and count it. */
  method NumberRow(digest: Digest, provider: string, r: Row, seen: map<string, nat>, ghost rows: seq<Row>, ghost i: nat)
    returns (hashed: Row, counted: map<string, nat>)
    requires i < |rows| && rows[i] == r && Counts(seen, digest, provider, rows[..i])
    ensures Counts(counted, digest, provider, rows[..i + 1])
    ensures hashed == Assigned(digest, provider, rows)[i]
  {
    ghost var done := rows[..i];
    var base := HashRow(digest, provider, r, 0);
    var n := if base in seen then seen[base] else 0;
    assert done + [r] == rows[..i + 1];
    CountsStep(seen, digest, provider, done, r, base, n);
    AssignedAt(digest, provider, rows, i, base, n);
    counted := seen[base := n + 1];
    if n == 0 {
      hashed := r.(hash := base);
    } else {
      hashed := r.(hash := HashRow(digest, provider, r, n));
    }
  }

  lemma AssignedAt(digest: Digest, provider: string, rows: seq<Row>, i: nat, base: string, n: nat)
    requires i < |rows| && base == HashRow(digest, provider, rows[i], 0)
    requires n == Siblings(digest, provider, rows[..i], base)
    ensures Assigned(digest, provider, rows)[i] == rows[i].(hash := HashRow(digest, provider, rows[i], n))
  {
    assert rows[..i + 1] == rows[..i] + [rows[i]] && rows == rows[..i + 1] + rows[i + 1..];
    AssignedStep(digest, provider, rows[..i], rows[i], base, n);
    HashesNeedNoLaterRows(digest, provider, rows[..i + 1], rows[i + 1..]);
    assert Assigned(digest, provider, rows)[..i + 1][i] == Assigned(digest, provider, rows)[i];
  }

  method AssignHashes(digest: Digest, provider: string, rows: array<Row>)
    modifies rows
    ensures rows[..] == Assigned(digest, provider, old(rows[..]))
  {
    ghost var was := rows[..];
    ghost var out := Assigned(digest, provider, was);
    var seen: map<string, nat> := map[];
    for i := 0 to rows.Length
      invariant forall k :: 0 <= k < i ==> rows[k] == out[k]
      invariant forall k :: i <= k < rows.Length ==> rows[k] == was[k]
      invariant Counts(seen, digest, provider, was[..i])
    {
      rows[i], seen := NumberRow(digest, provider, rows[i], seen, was, i);
    }
  }

  // ---------------------------------------------------------------- what the hashes mean, for every file

  /** How many of the rows have the text as content. */
  function Multiplicity(provider: string, rows: seq<Row>, text: string): (n: nat) {
    if rows == [] then 0
    else
      var last := if Content(provider, rows[|rows| - 1]) == text then 1 else 0;
      Multiplicity(provider, rows[..|rows| - 1], text) + last
  }

  lemma SameBaseIff(digest: Digest, provider: string, r: Row, s: Row)
    requires Injective(digest)
    ensures HashRow(digest, provider, r, 0) == HashRow(digest, provider, s, 0) <==>
        Content(provider, r) == Content(provider, s)
  {
    HashKeyIs(digest, Key(provider, r), 0);
    HashKeyIs(digest, Key(provider, s), 0);
    TextIdentifies(digest, Content(provider, r), 0, Content(provider, s), 0);
  }

  /** Counting siblings by base hash counts rows of the same content. */
  lemma {:induction false} SiblingsAreSameContent(digest: Digest, provider: string, rows: seq<Row>, r: Row)
    requires Injective(digest)
    ensures Siblings(digest, provider, rows, HashRow(digest, provider, r, 0)) ==
        Multiplicity(provider, rows, Content(provider, r))
    decreases |rows|
  {
    if rows != [] {
      SiblingsAreSameContent(digest, provider, rows[..|rows| - 1], r);
      SameBaseIff(digest, provider, rows[|rows| - 1], r);
    }
  }

  /** A row's hash says: its content, and how many rows before it had the same. */
  lemma {:induction false} HashIs(digest: Digest, provider: string, rows: seq<Row>, i: nat)
    requires Injective(digest) && i < |rows|
    ensures var text := Content(provider, rows[i]);
      Assigned(digest, provider, rows)[i] ==
          rows[i].(hash := HashText(digest, text, Multiplicity(provider, rows[..i], text)))
    decreases |rows|
  {
    var n := |rows| - 1;
    var init := rows[..n];
    if i == n {
      SiblingsAreSameContent(digest, provider, init, rows[i]);
      HashKeyIs(digest, Key(provider, rows[i]), Multiplicity(provider, init, Content(provider, rows[i])));
    } else {
      HashIs(digest, provider, init, i);
      assert init[..i] == rows[..i];
    }
  }

  lemma {:induction false} MultiplicityGrows(provider: string, rows: seq<Row>, i: nat, j: nat, text: string)
    requires i <= j <= |rows|
    ensures Multiplicity(provider, rows[..i], text) <= Multiplicity(provider, rows[..j], text)
    ensures i < j && Content(provider, rows[i]) == text
      ==> Multiplicity(provider, rows[..i], text) < Multiplicity(provider, rows[..j], text)
    decreases j
  {
    if i < j {
      assert rows[..j][..j - 1] == rows[..j - 1] && rows[..j][j - 1] == rows[j - 1];
      MultiplicityGrows(provider, rows, i, j - 1, text);
    }
  }

  /** No two rows of a file share a hash. */
  lemma HashesDistinct(digest: Digest, provider: string, rows: seq<Row>, i: nat, j: nat)
    requires Injective(digest) && i < j < |rows|
    ensures Assigned(digest, provider, rows)[i].hash != Assigned(digest, provider, rows)[j].hash
  {
    HashIs(digest, provider, rows, i);
    HashIs(digest, provider, rows, j);
    var s, t := Content(provider, rows[i]), Content(provider, rows[j]);
    MultiplicityGrows(provider, rows, i, j, s);
    TextIdentifies(digest, s, Multiplicity(provider, rows[..i], s), t, Multiplicity(provider, rows[..j], t));
  }

  /** The hashes of a file. */
  function HashSet(digest: Digest, provider: string, rows: seq<Row>): (hs: set<string>) {
    set r | r in Assigned(digest, provider, rows) :: r.hash
  }

  lemma {:induction false} EveryNumberOccurs(provider: string, rows: seq<Row>, text: string, m: nat) returns (i: nat)
    requires m < Multiplicity(provider, rows, text)
    ensures i < |rows| && Content(provider, rows[i]) == text && Multiplicity(provider, rows[..i], text) == m
    decreases |rows|
  {
    var init := rows[..|rows| - 1];
    if m < Multiplicity(provider, init, text) {
      i := EveryNumberOccurs(provider, init, text, m);
      assert init[..i] == rows[..i];
    } else {
      i := |rows| - 1;
    }
  }

  /** Where a hash of a file comes from. */
  lemma HashComesFrom(digest: Digest, provider: string, rows: seq<Row>, h: string) returns (text: string, m: nat)
    requires Injective(digest) && h in HashSet(digest, provider, rows)
    ensures h == HashText(digest, text, m) && m < Multiplicity(provider, rows, text)
  {
    var out := Assigned(digest, provider, rows);
    var i :| 0 <= i < |out| && out[i].hash == h;
    HashIs(digest, provider, rows, i);
    text := Content(provider, rows[i]);
    m := Multiplicity(provider, rows[..i], text);
    MultiplicityGrows(provider, rows, i, |rows|, text);
    assert rows[..|rows|] == rows;
  }

  /** A content of multiplicity n contributes exactly its hashes number 0 to n - 1. */
  lemma HashSetIs(digest: Digest, provider: string, rows: seq<Row>, text: string, m: nat)
    requires Injective(digest)
    ensures HashText(digest, text, m) in HashSet(digest, provider, rows) <==> m < Multiplicity(provider, rows, text)
  {
    if m < Multiplicity(provider, rows, text) {
      var i := EveryNumberOccurs(provider, rows, text, m);
      HashIs(digest, provider, rows, i);
      assert Assigned(digest, provider, rows)[i] in Assigned(digest, provider, rows);
    }
    if HashText(digest, text, m) in HashSet(digest, provider, rows) {
      var t, n := HashComesFrom(digest, provider, rows, HashText(digest, text, m));
      TextIdentifies(digest, text, m, t, n);
    }
  }

  ghost predicate NoMoreOf(provider: string, a: seq<Row>, b: seq<Row>) {
    forall text :: Multiplicity(provider, a, text) <= Multiplicity(provider, b, text)
  }

  /** Two files have the same contents, up to order and fields that are not hashed. */
  ghost predicate SameContents(provider: string, a: seq<Row>, b: seq<Row>) {
    forall text :: Multiplicity(provider, a, text) == Multiplicity(provider, b, text)
  }

  lemma HashSetsNestIff(digest: Digest, provider: string, a: seq<Row>, b: seq<Row>)
    requires Injective(digest)
    ensures HashSet(digest, provider, a) <= HashSet(digest, provider, b) <==> NoMoreOf(provider, a, b)
  {
    var sa, sb := HashSet(digest, provider, a), HashSet(digest, provider, b);
    if sa <= sb {
      forall text ensures Multiplicity(provider, a, text) <= Multiplicity(provider, b, text) {
        var n := Multiplicity(provider, b, text);
        HashSetIs(digest, provider, a, text, n);
        HashSetIs(digest, provider, b, text, n);
      }
    }
    if NoMoreOf(provider, a, b) {
      forall h | h in sa ensures h in sb {
        var text, m := HashComesFrom(digest, provider, a, h);
        HashSetIs(digest, provider, b, text, m);
      }
    }
  }

  /**
   The set of hashes is blind to order, and to nothing else: two files have the same one exactly if they have the
   same contents.
   */
  lemma HashSetIffContents(digest: Digest, provider: string, a: seq<Row>, b: seq<Row>)
    requires Injective(digest)
    ensures HashSet(digest, provider, a) == HashSet(digest, provider, b) <==> SameContents(provider, a, b)
  {
    HashSetsNestIff(digest, provider, a, b);
    HashSetsNestIff(digest, provider, b, a);
    assert NoMoreOf(provider, a, b) && NoMoreOf(provider, b, a) ==> SameContents(provider, a, b);
  }

  function Keys(provider: string, rows: seq<Row>): (keys: seq<seq<string>>) {
    seq(|rows|, i requires 0 <= i < |rows| => Key(provider, rows[i]))
  }

  function Mapped<T, U>(f: T -> U, s: seq<T>): (t: seq<U>) {
    seq(|s|, i requires 0 <= i < |s| => f(s[i]))
  }

  lemma Without<T>(s: seq<T>, j: nat)
    requires j < |s|
    ensures multiset(s) == multiset{s[j]} + multiset(s[..j] + s[j + 1..])
    ensures multiset(s[..j] + s[j + 1..]) == multiset(s) - multiset{s[j]}
  {
    assert s == s[..j] + [s[j]] + s[j + 1..];
  }

  lemma BothWithout<T>(a: seq<T>, i: nat, b: seq<T>, j: nat)
    requires multiset(a) == multiset(b) && i < |a| && j < |b| && a[i] == b[j]
    ensures multiset(a[..i] + a[i + 1..]) == multiset(b[..j] + b[j + 1..])
  {
    Without(a, i);
    Without(b, j);
  }

  lemma MappedWithout<T, U>(f: T -> U, s: seq<T>, j: nat)
    requires j < |s|
    ensures multiset(Mapped(f, s)) == multiset{f(s[j])} + multiset(Mapped(f, s[..j] + s[j + 1..]))
  {
    Without(Mapped(f, s), j);
    assert Mapped(f, s)[..j] + Mapped(f, s)[j + 1..] == Mapped(f, s[..j] + s[j + 1..]);
  }

  /** Rearranged lists stay rearrangements of each other when mapped. */
  lemma {:induction false} MappedPermuted<T, U>(f: T -> U, a: seq<T>, b: seq<T>)
    requires multiset(a) == multiset(b)
    ensures multiset(Mapped(f, a)) == multiset(Mapped(f, b))
    decreases |a|
  {
    if a == [] {
      assert |multiset(b)| == 0;
    } else {
      assert a[0] in multiset(a);
      var j :| 0 <= j < |b| && b[j] == a[0];
      BothWithout(a, 0, b, j);
      MappedPermuted(f, a[..0] + a[1..], b[..j] + b[j + 1..]);
      MappedWithout(f, a, 0);
      MappedWithout(f, b, j);
    }
  }

  function Joined(keys: seq<seq<string>>): (texts: seq<string>) {
    Mapped((key: seq<string>) => Join(key, SEP), keys)
  }

  lemma {:induction false} MultiplicityCounts(provider: string, rows: seq<Row>, text: string)
    ensures Multiplicity(provider, rows, text) == multiset(Joined(Keys(provider, rows)))[text]
    decreases |rows|
  {
    if rows != [] {
      var init, last := rows[..|rows| - 1], rows[|rows| - 1];
      MultiplicityCounts(provider, init, text);
      assert Joined(Keys(provider, rows)) == Joined(Keys(provider, init)) + [Content(provider, last)];
    }
  }

  /** Reordering a file keeps its set of hashes. */
  lemma ReorderingKeepsHashes(digest: Digest, provider: string, a: seq<Row>, b: seq<Row>)
    requires Injective(digest) && multiset(Keys(provider, a)) == multiset(Keys(provider, b))
    ensures HashSet(digest, provider, a) == HashSet(digest, provider, b)
  {
    MappedPermuted((key: seq<string>) => Join(key, SEP), Keys(provider, a), Keys(provider, b));
    forall text ensures Multiplicity(provider, a, text) == Multiplicity(provider, b, text) {
      MultiplicityCounts(provider, a, text);
      MultiplicityCounts(provider, b, text);
    }
    HashSetIffContents(digest, provider, a, b);
  }

  // ---------------------------------------------------------------- pooling files by hash

  /** What a store that keeps one row per hash holds after importing the files. */
  function Stored(digest: Digest, provider: string, files: seq<seq<Row>>): (hs: set<string>) {
    if files == [] then {}
    else Stored(digest, provider, files[..|files| - 1]) + HashSet(digest, provider, files[|files| - 1])
  }

  function MaxMultiplicity(provider: string, files: seq<seq<Row>>, text: string): (n: nat) {
    if files == [] then 0
    else
      var before := MaxMultiplicity(provider, files[..|files| - 1], text);
      var here := Multiplicity(provider, files[|files| - 1], text);
      if before < here then here else before
  }

  lemma {:induction false} StoredIs(digest: Digest, provider: string, files: seq<seq<Row>>, text: string, m: nat)
    requires Injective(digest)
    ensures HashText(digest, text, m) in Stored(digest, provider, files) <==> m < MaxMultiplicity(provider, files, text)
    decreases |files|
  {
    if files != [] {
      StoredIs(digest, provider, files[..|files| - 1], text, m);
      HashSetIs(digest, provider, files[|files| - 1], text, m);
    }
  }

  /** Hashes number 0 to n - 1 of a content. */
  ghost function FirstHashes(digest: Digest, text: string, n: nat): (hs: set<string>) {
    if n == 0 then {} else FirstHashes(digest, text, n - 1) + {HashText(digest, text, n - 1)}
  }

  lemma {:induction false} FirstHashesAre(digest: Digest, text: string, n: nat)
    requires Injective(digest)
    ensures |FirstHashes(digest, text, n)| == n
    ensures forall h :: h in FirstHashes(digest, text, n) <==> exists m: nat :: m < n && h == HashText(digest, text, m)
    decreases n
  {
    if n > 0 {
      FirstHashesAre(digest, text, n - 1);
      forall m: nat | m < n - 1 ensures HashText(digest, text, m) != HashText(digest, text, n - 1) {
        TextIdentifies(digest, text, m, text, n - 1);
      }
    }
  }

  /** `h` is a hash of the content, under some occurrence number. */
  ghost predicate OfContent(digest: Digest, text: string, h: string) {
    exists m: nat :: h == HashText(digest, text, m)
  }

  /**
   Importing any sequence of files, with repeats and reorderings, stores for each content exactly as many
   rows as the file that had most of them.
   */
  lemma PoolingKeepsTheMaximum(digest: Digest, provider: string, files: seq<seq<Row>>, text: string)
    requires Injective(digest)
    ensures |set h | h in Stored(digest, provider, files) && OfContent(digest, text, h)|
         == MaxMultiplicity(provider, files, text)
  {
    var n := MaxMultiplicity(provider, files, text);
    var mine := set h | h in Stored(digest, provider, files) && OfContent(digest, text, h);
    FirstHashesAre(digest, text, n);
    forall m: nat ensures HashText(digest, text, m) in Stored(digest, provider, files) <==> m < n {
      StoredIs(digest, provider, files, text, m);
    }
    assert mine == FirstHashes(digest, text, n);
  }

  // ---------------------------------------------------------------- in terms of the nine fields

  ghost predicate AllClean(provider: string, rows: seq<Row>) {
    forall r :: r in rows ==> Clean(Key(provider, r))
  }

  /** How many of the rows have these hashed fields. */
  function KeyMultiplicity(provider: string, rows: seq<Row>, key: seq<string>): (n: nat) {
    if rows == [] then 0
    else KeyMultiplicity(provider, rows[..|rows| - 1], key) + (if Key(provider, rows[|rows| - 1]) == key then 1 else 0)
  }

  /** Without separators in the fields, content and fields are the same thing. */
  lemma {:induction false} CleanMultiplicity(provider: string, rows: seq<Row>, key: seq<string>)
    requires AllClean(provider, rows) && |key| == 9
    ensures Multiplicity(provider, rows, Join(key, SEP)) == KeyMultiplicity(provider, rows, key)
    decreases |rows|
  {
    if rows != [] {
      var last := rows[|rows| - 1];
      assert last in rows;
      CleanMultiplicity(provider, rows[..|rows| - 1], key);
      if Content(provider, last) == Join(key, SEP) {
        FreeJoinUnique(Key(provider, last), key, SEP);
      }
    }
  }

  ghost predicate SameRows(provider: string, a: seq<Row>, b: seq<Row>) {
    forall key :: |key| == 9 ==> KeyMultiplicity(provider, a, key) == KeyMultiplicity(provider, b, key)
  }

  lemma {:induction false} SomeRow(provider: string, rows: seq<Row>, text: string) returns (r: Row)
    requires Multiplicity(provider, rows, text) > 0
    ensures r in rows && Content(provider, r) == text
    decreases |rows|
  {
    if Content(provider, rows[|rows| - 1]) == text {
      r := rows[|rows| - 1];
    } else {
      r := SomeRow(provider, rows[..|rows| - 1], text);
    }
  }

  /** Clean files have the same set of hashes exactly if they have the same rows, field by field. */
  lemma CleanHashSetIffRows(digest: Digest, provider: string, a: seq<Row>, b: seq<Row>)
    requires Injective(digest) && AllClean(provider, a) && AllClean(provider, b)
    ensures HashSet(digest, provider, a) == HashSet(digest, provider, b) <==> SameRows(provider, a, b)
  {
    HashSetIffContents(digest, provider, a, b);
    forall key | |key| == 9
      ensures Multiplicity(provider, a, Join(key, SEP)) == KeyMultiplicity(provider, a, key)
      ensures Multiplicity(provider, b, Join(key, SEP)) == KeyMultiplicity(provider, b, key)
    {
      CleanMultiplicity(provider, a, key);
      CleanMultiplicity(provider, b, key);
    }
    if SameRows(provider, a, b) {
      forall text ensures Multiplicity(provider, a, text) == Multiplicity(provider, b, text) {
        if Multiplicity(provider, a, text) > 0 {
          var r := SomeRow(provider, a, text);
          assert |Key(provider, r)| == 9;
        } else if Multiplicity(provider, b, text) > 0 {
          var r := SomeRow(provider, b, text);
          assert |Key(provider, r)| == 9;
        }
      }
    }
  }

  function MaxKeyMultiplicity(provider: string, files: seq<seq<Row>>, key: seq<string>): (n: nat) {
    if files == [] then 0
    else
      var before := MaxKeyMultiplicity(provider, files[..|files| - 1], key);
      var here := KeyMultiplicity(provider, files[|files| - 1], key);
      if before < here then here else before
  }

  lemma {:induction false} CleanMaximum(provider: string, files: seq<seq<Row>>, key: seq<string>)
    requires |key| == 9 && forall f :: f in files ==> AllClean(provider, f)
    ensures MaxMultiplicity(provider, files, Join(key, SEP)) == MaxKeyMultiplicity(provider, files, key)
    decreases |files|
  {
    if files != [] {
      assert files[|files| - 1] in files;
      CleanMaximum(provider, files[..|files| - 1], key);
      CleanMultiplicity(provider, files[|files| - 1], key);
    }
  }

  /** Pooling clean files stores, for nine given fields, exactly as many rows as the file that had most of them. */
  lemma CleanPoolingKeepsTheMaximum(digest: Digest, provider: string, files: seq<seq<Row>>, key: seq<string>)
    requires Injective(digest) && |key| == 9 && forall f :: f in files ==> AllClean(provider, f)
    ensures |set h | h in Stored(digest, provider, files) && OfContent(digest, Join(key, SEP), h)|
         == MaxKeyMultiplicity(provider, files, key)
  {
    PoolingKeepsTheMaximum(digest, provider, files, Join(key, SEP));
    CleanMaximum(provider, files, key);
  }

  // ---------------------------------------------------------------- which row carries which hash

  /** A row as the file gives it, whatever hash it carried. */
  function Unhashed(r: Row): (u: Row) {
    r.(hash := "")
  }

  /** The rows of a content, in the order of the file. */
  function OfText(provider: string, rows: seq<Row>, text: string): (own: seq<Row>) {
    if rows == [] then []
    else
      var last := rows[|rows| - 1];
      OfText(provider, rows[..|rows| - 1], text) + (if Content(provider, last) == text then [Unhashed(last)] else [])
  }

  /** The rows of a file, each with the hash it was given. */
  function Carried(digest: Digest, provider: string, rows: seq<Row>): (hashed: set<Row>) {
    set r | r in Assigned(digest, provider, rows)
  }

  lemma {:induction false} OfTextCounts(provider: string, rows: seq<Row>, text: string)
    ensures |OfText(provider, rows, text)| == Multiplicity(provider, rows, text)
    decreases |rows|
  {
    if rows != [] { OfTextCounts(provider, rows[..|rows| - 1], text); }
  }

  /** The rows of a content are numbered by their place among them. */
  lemma {:induction false} OfTextAt(provider: string, rows: seq<Row>, i: nat)
    requires i < |rows|
    ensures var text := Content(provider, rows[i]);
      var m := Multiplicity(provider, rows[..i], text);
      m < |OfText(provider, rows, text)| && OfText(provider, rows, text)[m] == Unhashed(rows[i])
    decreases |rows|
  {
    var n := |rows| - 1;
    if i < n {
      OfTextAt(provider, rows[..n], i);
      assert rows[..n][..i] == rows[..i];
    } else {
      OfTextCounts(provider, rows[..n], Content(provider, rows[i]));
    }
  }

  /** What a file carries under hash number `m` of a content: row number `m` of that content. */
  lemma CarriedIs(digest: Digest, provider: string, rows: seq<Row>, r: Row, text: string, m: nat)
    requires Injective(digest) && r.hash == HashText(digest, text, m)
    ensures r in Carried(digest, provider, rows) <==>
      m < |OfText(provider, rows, text)| && OfText(provider, rows, text)[m] == Unhashed(r)
  {
    var out := Assigned(digest, provider, rows);
    OfTextCounts(provider, rows, text);
    if r in out {
      var i :| 0 <= i < |out| && out[i] == r;
      HashIs(digest, provider, rows, i);
      OfTextAt(provider, rows, i);
      var t := Content(provider, rows[i]);
      TextIdentifies(digest, text, m, t, Multiplicity(provider, rows[..i], t));
    }
    if m < |OfText(provider, rows, text)| && OfText(provider, rows, text)[m] == Unhashed(r) {
      var i := EveryNumberOccurs(provider, rows, text, m);
      HashIs(digest, provider, rows, i);
      OfTextAt(provider, rows, i);
      SameRow(out[i], r);
    }
  }

  lemma SameRow(r: Row, s: Row)
    requires Unhashed(r) == Unhashed(s) && r.hash == s.hash
    ensures r == s
  {
    assert r == Unhashed(r).(hash := r.hash);
  }

  /** The rows of every content come in the same order, up to rows that agree in everything. */
  ghost predicate SameOrder(provider: string, a: seq<Row>, b: seq<Row>) {
    forall text :: OfText(provider, a, text) == OfText(provider, b, text)
  }

  /**
   Every row carries the same hash in both files exactly if the rows that are alike in the hashed fields come in
   the same order in both, up to rows that are alike in all fields. So a rearrangement that swaps two rows alike in
   the hashed fields and different elsewhere moves hashes, and any other rearrangement does not.
   */
  lemma HashesStayIff(digest: Digest, provider: string, a: seq<Row>, b: seq<Row>)
    requires Injective(digest)
    ensures Carried(digest, provider, a) == Carried(digest, provider, b) <==> SameOrder(provider, a, b)
  {
    if Carried(digest, provider, a) == Carried(digest, provider, b) {
      forall text ensures OfText(provider, a, text) == OfText(provider, b, text) {
        CarriesPrefix(digest, provider, a, b, text);
        CarriesPrefix(digest, provider, b, a, text);
      }
    }
    if SameOrder(provider, a, b) {
      CarriesNoMore(digest, provider, a, b);
      CarriesNoMore(digest, provider, b, a);
    }
  }

  lemma CarriesPrefix(digest: Digest, provider: string, a: seq<Row>, b: seq<Row>, text: string)
    requires Injective(digest) && Carried(digest, provider, a) <= Carried(digest, provider, b)
    ensures OfText(provider, a, text) <= OfText(provider, b, text)
  {
    var own, other := OfText(provider, a, text), OfText(provider, b, text);
    if own != [] { CarriesAt(digest, provider, a, b, text, |own| - 1); }
    forall m | 0 <= m < |own| ensures m < |other| && other[m] == own[m] {
      CarriesAt(digest, provider, a, b, text, m);
    }
  }

  lemma CarriesAt(digest: Digest, provider: string, a: seq<Row>, b: seq<Row>, text: string, m: nat)
    requires Injective(digest) && Carried(digest, provider, a) <= Carried(digest, provider, b)
    requires m < |OfText(provider, a, text)|
    ensures m < |OfText(provider, b, text)| && OfText(provider, b, text)[m] == OfText(provider, a, text)[m]
  {
    var u := OfText(provider, a, text)[m];
    var r := u.(hash := HashText(digest, text, m));
    OwnIsUnhashed(provider, a, text, m);
    assert Unhashed(r) == u;
    CarriedIs(digest, provider, a, r, text, m);
    CarriedIs(digest, provider, b, r, text, m);
  }

  lemma {:induction false} OwnIsUnhashed(provider: string, rows: seq<Row>, text: string, m: nat)
    requires m < |OfText(provider, rows, text)|
    ensures OfText(provider, rows, text)[m].hash == ""
    decreases |rows|
  {
    var init := rows[..|rows| - 1];
    if m < |OfText(provider, init, text)| {
      OwnIsUnhashed(provider, init, text, m);
    }
  }

  lemma CarriesNoMore(digest: Digest, provider: string, a: seq<Row>, b: seq<Row>)
    requires Injective(digest) && SameOrder(provider, a, b)
    ensures Carried(digest, provider, a) <= Carried(digest, provider, b)
  {
    var out := Assigned(digest, provider, a);
    forall r | r in out ensures r in Carried(digest, provider, b) {
      var i :| 0 <= i < |out| && out[i] == r;
      HashIs(digest, provider, a, i);
      var text := Content(provider, a[i]);
      var m := Multiplicity(provider, a[..i], text);
      CarriedIs(digest, provider, a, r, text, m);
      CarriedIs(digest, provider, b, r, text, m);
    }
  }

  lemma {:induction false} OfTextAppend(provider: string, a: seq<Row>, b: seq<Row>, text: string)
    ensures OfText(provider, a + b, text) == OfText(provider, a, text) + OfText(provider, b, text)
    decreases |b|
  {
    if b == [] {
      assert a + b == a;
    } else {
      assert (a + b)[..|a + b| - 1] == a + b[..|b| - 1] && (a + b)[|a + b| - 1] == b[|b| - 1];
      OfTextAppend(provider, a, b[..|b| - 1], text);
    }
  }

  /** The rows of a content in a file with `r` and `s` at two places. */
  lemma OfTextAround(provider: string, x: seq<Row>, r: Row, y: seq<Row>, s: Row, z: seq<Row>, text: string)
    ensures OfText(provider, x + [r] + y + [s] + z, text)
         == OfText(provider, x, text) + OfText(provider, [r], text) + OfText(provider, y, text)
            + OfText(provider, [s], text) + OfText(provider, z, text)
  {
    OfTextAppend(provider, x + [r] + y + [s], z, text);
    OfTextAppend(provider, x + [r] + y, [s], text);
    OfTextAppend(provider, x + [r], y, text);
    OfTextAppend(provider, x, [r], text);
  }

  lemma OfTextOne(provider: string, r: Row, text: string)
    ensures OfText(provider, [r], text) == if Content(provider, r) == text then [Unhashed(r)] else []
  {
    assert OfText(provider, [r][..0], text) == [];
  }

  /** Swapping two rows alike in the hashed fields, anywhere in any file, moves hashes exactly if they differ. */
  lemma SwapMovesHashesIff(digest: Digest, provider: string, x: seq<Row>, r: Row, y: seq<Row>, s: Row, z: seq<Row>)
    requires Injective(digest) && Content(provider, r) == Content(provider, s)
    ensures Carried(digest, provider, x + [r] + y + [s] + z) != Carried(digest, provider, x + [s] + y + [r] + z)
            <==> Unhashed(r) != Unhashed(s)
  {
    var a, b := x + [r] + y + [s] + z, x + [s] + y + [r] + z;
    HashesStayIff(digest, provider, a, b);
    forall text
      ensures OfText(provider, a, text) == OfText(provider, b, text) <==>
              (Content(provider, r) == text ==> Unhashed(r) == Unhashed(s))
    {
      SwappedOfText(provider, x, r, y, s, z, text);
    }
    assert SameOrder(provider, a, b) ==>
      OfText(provider, a, Content(provider, r)) == OfText(provider, b, Content(provider, r));
  }

  lemma SwappedOfText(provider: string, x: seq<Row>, r: Row, y: seq<Row>, s: Row, z: seq<Row>, text: string)
    requires Content(provider, r) == Content(provider, s)
    ensures OfText(provider, x + [r] + y + [s] + z, text) == OfText(provider, x + [s] + y + [r] + z, text)
            <==> (Content(provider, r) == text ==> Unhashed(r) == Unhashed(s))
  {
    OfTextAround(provider, x, r, y, s, z, text);
    OfTextAround(provider, x, s, y, r, z, text);
    OfTextOne(provider, r, text);
    OfTextOne(provider, s, text);
    if Content(provider, r) == text {
      var own := OfText(provider, x, text);
      assert OfText(provider, x + [r] + y + [s] + z, text)[|own|] == Unhashed(r);
      assert OfText(provider, x + [s] + y + [r] + z, text)[|own|] == Unhashed(s);
    }
  }
}
