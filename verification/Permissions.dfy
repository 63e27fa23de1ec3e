/**
 Hierarchical permission codes (middleware/perms.go, enums/user_permissions.go): the ancestor rule in its
 two implementations, CompactHierarchy, and the inverse pair ExpandPermissions / RollupPermissions over a
 catalog of modules, entities and actions.
 */
module Permissions {
  import opened Text

  /** `a` is `c` or a dotted ancestor of it. */
  predicate Covers(a: string, c: string) {
    PrefixAt(a, c, '.')
  }

  /** The rule of `impliedBy`: the code itself or a non-empty ancestor is in the set. */
  ghost predicate Implied(code: string, codes: set<string>) {
    code in codes || exists a :: a in codes && a != "" && Covers(a, code)
  }

  /** The rule of `HasPermission`: a required code is non-empty, and it or any ancestor is held. */
  ghost predicate Granted(codes: set<string>, required: string) {
    required != "" && exists a :: a in codes && Covers(a, required)
  }

  function Elements(s: seq<string>): (e: set<string>) {
    set x | x in s
  }

  lemma CoversTransitive(a: string, b: string, c: string)
    requires Covers(a, b) && Covers(b, c)
    ensures Covers(a, c)
  {
    assert c[..|b|][..|a|] == c[..|a|];
  }

  /** Two codes covering a third are comparable: the ancestors of a code form a chain. */
  lemma CoversChain(a: string, b: string, c: string)
    requires Covers(a, c) && Covers(b, c)
    ensures Covers(a, b) || Covers(b, a)
  {
    if |a| <= |b| {
      assert c[..|b|][..|a|] == c[..|a|];
    } else {
      assert c[..|a|][..|b|] == c[..|b|];
    }
  }

  lemma ProperCover(a: string, c: string)
    requires Covers(a, c) && a != c
    ensures |a| < |c| && c[|a|] == '.' && c[..|a|] == a
  {
    assert c[..|c|] == c;
  }

  // ---------------------------------------------------------------- the two scans

  /** `HasPermission`: split the code and join every run of leading parts. */
  method HasPermission(userPerms: seq<string>, required: string) returns (ok: bool)
    ensures ok <==> Granted(Elements(userPerms), required)
  {
    if required == "" {
      return false;
    }
    var parts := Split(required, '.');
    for i := 1 to |parts| + 1
      invariant forall k, p :: 1 <= k < i && p in userPerms ==> p != Join(parts[..k], '.')
    {
      var prefix := Join(parts[..i], '.');
      for j := 0 to |userPerms|
        invariant forall l :: 0 <= l < j ==> userPerms[l] != prefix
      {
        if userPerms[j] == prefix {
          PrefixesAreJoins(prefix, required, '.');
          assert Covers(prefix, required) && prefix in Elements(userPerms);
          return true;
        }
      }
    }
    forall a | a in Elements(userPerms) ensures !Covers(a, required) {
      PrefixesAreJoins(a, required, '.');
    }
    return false;
  }

  /** `impliedBy`: scan the dots from the right, in place. */
  method ImpliedBy(code: string, codes: set<string>) returns (ok: bool)
    ensures ok <==> Implied(code, codes)
  {
    if code in codes {
      return true;
    }
    var i := |code| - 1;
    while i > 0
      invariant -1 <= i < |code|
      invariant forall k :: i < k < |code| && k > 0 && code[k] == '.' ==> code[..k] !in codes
    {
      if code[i] == '.' && code[..i] in codes {
        assert Covers(code[..i], code);
        return true;
      }
      i := i - 1;
    }
    forall a | a in codes && a != "" ensures !Covers(a, code) {
      if Covers(a, code) {
        ProperCover(a, code);
        assert false;
      }
    }
    return false;
  }

  /** `hasAncestorIn`: a proper ancestor is in the set. */
  method HasAncestorIn(key: string, codes: set<string>) returns (ok: bool)
    ensures ok <==> exists a :: a in codes && a != key && Covers(a, key)
  {
    var parts := Split(key, '.');
    for i := 1 to |parts|
      invariant forall k :: 1 <= k < i ==> Join(parts[..k], '.') !in codes
    {
      var prefix := Join(parts[..i], '.');
      if prefix in codes {
        ProperAncestorsAreJoins(prefix, key);
        assert IsJoin(prefix, parts, |parts|);
        return true;
      }
    }
    forall a | a in codes ensures !(a != key && Covers(a, key)) {
      ProperAncestorsAreJoins(a, key);
    }
    return false;
  }

  ghost predicate IsJoin(a: string, parts: seq<string>, below: nat)
    requires below <= |parts| + 1
  {
    exists i :: 1 <= i < below && a == Join(parts[..i], '.')
  }

  lemma ProperAncestorsAreJoins(a: string, key: string)
    ensures a != key && Covers(a, key) <==> IsJoin(a, Split(key, '.'), |Split(key, '.')|)
  {
    var parts := Split(key, '.');
    var n := |parts|;
    JoinOfSplit(key, '.');
    assert parts[..n] == parts;
    PrefixesAreJoins(a, key, '.');
    assert Covers(a, key) <==> IsJoin(a, parts, n + 1);
    if IsJoin(a, parts, n + 1) && a != key {
      var i :| 1 <= i < n + 1 && a == Join(parts[..i], '.');
      assert i != n;
    }
    if IsJoin(a, parts, n) {
      var i :| 1 <= i < n && a == Join(parts[..i], '.');
      ProperPrefix(parts, i);
    }
  }

  /** Dropping parts shortens the join. */
  lemma {:induction false} ProperPrefix(parts: seq<string>, i: nat)
    requires 1 <= i < |parts|
    ensures |Join(parts[..i], '.')| < |Join(parts, '.')|
    decreases |parts|
  {
    if i == 1 {
      assert parts[..1] == [parts[0]];
    } else {
      assert parts[..i][1..] == parts[1..][..i - 1];
      ProperPrefix(parts[1..], i - 1);
    }
  }

  /** A code longer than, and hence different from, every code of the set. */
  lemma {:induction false} LongCode(codes: set<string>) returns (n: nat)
    ensures forall c :: c in codes ==> |c| < n
    decreases codes
  {
    if codes == {} {
      n := 0;
    } else {
      var c :| c in codes;
      n := LongCode(codes - {c});
      n := if |c| < n then n else |c| + 1;
    }
  }

  /** A code of the form ".aaa" that the set does not hold; only "" covers it besides itself. */
  lemma UncoveredDotCode(codes: set<string>) returns (c: string)
    ensures c != "" && c !in codes && c[0] == '.' && Covers("", c) && !Implied(c, codes)
  {
    var n := LongCode(codes);
    c := ['.'] + seq(n, i => 'a');
    forall a | a in codes && a != "" ensures !Covers(a, c) {
      assert |a| < |c| && c[|a|] == 'a';
    }
  }

  /**
   The two implementations agree on every non-empty code exactly when the set does not hold "": the split
   scan would accept the empty prefix of a code that starts with a dot.
   */
  lemma ScansAgreeIff(codes: set<string>)
    ensures (forall c :: c != "" ==> (Granted(codes, c) <==> Implied(c, codes))) <==> "" !in codes
  {
    if "" in codes {
      var c := UncoveredDotCode(codes);
      assert Granted(codes, c) && !Implied(c, codes);
    } else {
      forall c | c != "" ensures Granted(codes, c) <==> Implied(c, codes) {
        assert Covers(c, c);
      }
    }
  }

  // ---------------------------------------------------------------- CompactHierarchy

  /** The non-empty codes that no other non-empty code of the set covers. */
  ghost function Compact(codes: set<string>): (kept: set<string>) {
    set p | p in codes && p != "" && !exists a :: a in codes && a != "" && a != p && Covers(a, p)
  }

  method CompactHierarchy(perms: seq<string>) returns (out: seq<string>)
    ensures Elements(out) == Compact(Elements(perms)) && StrictlySorted(out)
  {
    var seen: set<string> := {};
    for i := 0 to |perms|
      invariant seen == set p | p in perms[..i] && p != ""
    {
      assert perms[..i + 1] == perms[..i] + [perms[i]];
      if perms[i] != "" {
        seen := seen + {perms[i]};
      }
    }
    assert perms[..|perms|] == perms;
    var kept: set<string> := {};
    var rest := seen;
    while rest != {}
      invariant rest <= seen
      invariant kept == set p | p in seen - rest && !exists a :: a in seen && a != p && Covers(a, p)
      decreases |rest|
    {
      var p :| p in rest;
      var covered := HasAncestorIn(p, seen);
      if !covered {
        kept := kept + {p};
      }
      rest := rest - {p};
    }
    out := SortedKeys(kept);
    assert Elements(out) == kept;
  }

  /** Climbing to the topmost ancestor held. */
  lemma {:induction false} TopAncestor(codes: set<string>, a: string) returns (t: string)
    requires a in codes && a != ""
    ensures t in Compact(codes) && Covers(t, a)
    decreases |a|
  {
    if b :| b in codes && b != "" && b != a && Covers(b, a) {
      t := TopAncestor(codes, b);
      CoversTransitive(t, b, a);
    } else {
      t := a;
    }
  }

  /** Compacting changes no answer for any required code, and leaves no code below another. */
  lemma CompactKeepsMeaning(codes: set<string>)
    ensures forall c :: Implied(c, Compact(codes)) <==> Implied(c, codes - {""})
    ensures forall a, b :: a in Compact(codes) && b in Compact(codes) && Covers(a, b) ==> a == b
  {
    forall c ensures Implied(c, Compact(codes)) <==> Implied(c, codes - {""}) {
      if Implied(c, codes - {""}) {
        var a :| a in codes && a != "" && Covers(a, c);
        var t := TopAncestor(codes, a);
        CoversTransitive(t, a, c);
      }
    }
  }

  /** In terms of `HasPermission` this is every required code if and only if the input does not hold "". */
  lemma CompactPreservesGrantsIff(codes: set<string>)
    ensures (forall c :: Granted(Compact(codes), c) <==> Granted(codes, c)) <==> "" !in codes
  {
    CompactKeepsMeaning(codes);
    ScansAgreeIff(Compact(codes));
    ScansAgreeIff(codes);
    if "" in codes {
      var c := UncoveredDotCode(codes);
      assert Granted(codes, c);
      assert !Granted(Compact(codes), c) by {
        assert !Implied(c, codes - {""});
        assert !Implied(c, Compact(codes));
      }
    } else {
      assert codes - {""} == codes;
    }
  }

  // ---------------------------------------------------------------- catalog

  /** One catalog row; modules have an empty parent and no actions. */
  datatype Entry = Entry(code: string, parent: string, actions: seq<string>)

  datatype Index = Index(moduleEntities: map<string, seq<string>>, entityLeaves: map<string, seq<string>>,
                         entityModule: map<string, string>)

  function Leaves(code: string, actions: seq<string>): (ls: seq<string>)
    ensures |ls| == |actions|
  {
    seq(|actions|, i requires 0 <= i < |actions| => code + "." + actions[i])
  }

  function AddEntry(ix: Index, e: Entry): (ix': Index) {
    var known := if e.parent in ix.moduleEntities then ix.moduleEntities[e.parent] else [];
    if e.parent == "" then
      if e.code in ix.moduleEntities then ix else ix.(moduleEntities := ix.moduleEntities[e.code := []])
    else
      Index(ix.moduleEntities[e.parent := known + [e.code]], ix.entityLeaves[e.code := Leaves(e.code, e.actions)],
            ix.entityModule[e.code := e.parent])
  }

  function IndexOfCatalog(entries: seq<Entry>): (ix: Index) {
    if entries == [] then Index(map[], map[], map[])
    else AddEntry(IndexOfCatalog(entries[..|entries| - 1]), entries[|entries| - 1])
  }

  method BuildCatalogIndex(entries: seq<Entry>) returns (ix: Index)
    ensures ix == IndexOfCatalog(entries)
  {
    ix := Index(map[], map[], map[]);
    for i := 0 to |entries|
      invariant ix == IndexOfCatalog(entries[..i])
    {
      var e := entries[i];
      assert entries[..i + 1][..i] == entries[..i];
      if e.parent == "" {
        if e.code !in ix.moduleEntities {
          ix := ix.(moduleEntities := ix.moduleEntities[e.code := []]);
        }
      } else {
        var leaves: seq<string> := [];
        for k := 0 to |e.actions|
          invariant leaves == Leaves(e.code, e.actions[..k])
        {
          leaves := leaves + [e.code + "." + e.actions[k]];
          assert leaves == Leaves(e.code, e.actions[..k + 1]);
        }
        assert e.actions[..|e.actions|] == e.actions;
        var known := if e.parent in ix.moduleEntities then ix.moduleEntities[e.parent] else [];
        ix := Index(ix.moduleEntities[e.parent := known + [e.code]], ix.entityLeaves[e.code := leaves],
                    ix.entityModule[e.code := e.parent]);
      }
    }
    assert entries[..|entries|] == entries;
  }

  /** `c` is `p` with one more dot-free segment. */
  predicate Child(p: string, c: string) {
    |p| < |c| && c[..|p|] == p && c[|p|] == '.' && Free(c[|p| + 1..], '.')
  }

  /**
   The shape of the catalog: modules are dot-free, entities are module.x, leaves are entity.action, every
   module has an entity and every entity has an action.
   */
  ghost predicate WellFormed(ix: Index) {
    && (forall m :: m in ix.moduleEntities ==> m != "" && Free(m, '.') && ix.moduleEntities[m] != [])
    && (forall m, e :: m in ix.moduleEntities && e in ix.moduleEntities[m] ==>
          e in ix.entityLeaves && e in ix.entityModule && ix.entityModule[e] == m)
    && (forall e :: e in ix.entityLeaves ==>
          && e in ix.entityModule && ix.entityModule[e] in ix.moduleEntities
          && e in ix.moduleEntities[ix.entityModule[e]] && Child(ix.entityModule[e], e)
          && ix.entityLeaves[e] != [])
    && (forall e, l :: e in ix.entityLeaves && l in ix.entityLeaves[e] ==> Child(e, l))
  }

  ghost predicate IsLeaf(ix: Index, l: string) {
    exists e :: e in ix.entityLeaves && l in ix.entityLeaves[e]
  }

  lemma ChildCovers(p: string, c: string)
    requires Child(p, c)
    ensures Covers(p, c) && p != c
    ensures forall a :: Covers(a, c) && a != c ==> Covers(a, p)
  {
    forall a | Covers(a, c) && a != c ensures Covers(a, p) {
      assert c[|a|] == '.' && |a| <= |p|;
      assert c[..|p|][..|a|] == c[..|a|];
    }
  }

  /** The ancestors of a leaf are itself, its entity and its module. */
  lemma LeafAncestors(ix: Index, e: string, l: string, a: string)
    requires WellFormed(ix) && e in ix.entityLeaves && l in ix.entityLeaves[e]
    ensures Covers(ix.entityModule[e], e) && Covers(e, l) && Covers(ix.entityModule[e], l)
    ensures Covers(a, l) ==> a == l || a == e || a == ix.entityModule[e]
    ensures Covers(a, e) ==> a == e || a == ix.entityModule[e]
  {
    var m := ix.entityModule[e];
    ChildCovers(e, l);
    ChildCovers(m, e);
    CoversTransitive(m, e, l);
    assert Covers(a, m) ==> a == m;
  }

  lemma ChildUnique(p: string, q: string, c: string)
    requires Child(p, c) && Child(q, c)
    ensures p == q
  {
    ChildCovers(p, c);
    ChildCovers(q, c);
    assert Covers(p, q) && Covers(q, p);
  }

  /** No code is of two kinds, and a leaf belongs to one entity. */
  lemma KindsDisjoint(ix: Index, e: string, l: string)
    requires WellFormed(ix) && e in ix.entityLeaves && l in ix.entityLeaves[e]
    ensures e !in ix.moduleEntities && l !in ix.moduleEntities && l !in ix.entityLeaves
    ensures forall f :: f in ix.entityLeaves && l in ix.entityLeaves[f] ==> f == e
    ensures l != "" && e != "" && ix.entityModule[e] != ""
  {
    var m := ix.entityModule[e];
    assert '.' in e && '.' in l by {
      assert e[|m|] == '.' && l[|e|] == '.';
    }
    if l in ix.entityLeaves {
      ChildUnique(ix.entityModule[l], e, l);
      assert false;
    }
    forall f | f in ix.entityLeaves && l in ix.entityLeaves[f] ensures f == e {
      ChildUnique(f, e, l);
    }
  }

  // ---------------------------------------------------------------- catalogs that are well formed

  /** A row of the documented shape: a dot-free module, or an entity `parent.x` with dot-free actions. */
  ghost predicate WellFormedEntry(e: Entry) {
    if e.parent == "" then e.code != "" && Free(e.code, '.')
    else Child(e.parent, e.code) && e.actions != [] && forall a :: a in e.actions ==> Free(a, '.')
  }

  ghost predicate HasModule(entries: seq<Entry>, m: string) {
    exists e :: e in entries && e.parent == "" && e.code == m
  }

  ghost predicate HasEntityOf(entries: seq<Entry>, m: string) {
    exists e :: e in entries && e.parent == m
  }

  /** Rows are well shaped, every entity's module is listed, and every module has an entity. */
  ghost predicate WellFormedEntries(entries: seq<Entry>) {
    forall e :: e in entries ==>
      WellFormedEntry(e) && if e.parent == "" then HasEntityOf(entries, e.code) else HasModule(entries, e.parent)
  }

  /** Row `e` is where the index got everything it says about entity `c`. */
  ghost predicate Describes(ix: Index, e: Entry, c: string) {
    && e.parent != "" && e.code == c
    && c in ix.entityLeaves && ix.entityLeaves[c] == Leaves(e.code, e.actions)
    && c in ix.entityModule && ix.entityModule[c] == e.parent
  }

  ghost predicate Lists(ix: Index, m: string, c: string) {
    m in ix.moduleEntities && c in ix.moduleEntities[m]
  }

  lemma {:induction false} EntitiesDescribed(entries: seq<Entry>, c: string) returns (e: Entry)
    requires c in IndexOfCatalog(entries).entityLeaves
    ensures e in entries && Describes(IndexOfCatalog(entries), e, c) && Lists(IndexOfCatalog(entries), e.parent, c)
    decreases |entries|
  {
    var init, last := entries[..|entries| - 1], entries[|entries| - 1];
    if last.parent != "" && last.code == c {
      e := last;
    } else {
      e := EntitiesDescribed(init, c);
    }
  }

  lemma {:induction false} EntitiesListed(entries: seq<Entry>, e: Entry)
    requires e in entries && e.parent != ""
    ensures e.code in IndexOfCatalog(entries).entityLeaves && Lists(IndexOfCatalog(entries), e.parent, e.code)
    decreases |entries|
  {
    var init, last := entries[..|entries| - 1], entries[|entries| - 1];
    if e != last {
      assert entries == init + [last];
      EntitiesListed(init, e);
    }
  }

  /** Conversely, what the index lists comes from a row. */
  lemma {:induction false} ListedIsEntry(entries: seq<Entry>, m: string, c: string) returns (e: Entry)
    requires Lists(IndexOfCatalog(entries), m, c)
    ensures e in entries && e.parent == m && m != "" && e.code == c
    decreases |entries|
  {
    var init, last := entries[..|entries| - 1], entries[|entries| - 1];
    if last.parent == m && last.code == c && m != "" {
      e := last;
    } else {
      e := ListedIsEntry(init, m, c);
    }
  }

  lemma {:induction false} ModuleIsEntry(entries: seq<Entry>, m: string) returns (e: Entry)
    requires m in IndexOfCatalog(entries).moduleEntities
    ensures e in entries && (if e.parent == "" then e.code == m else e.parent == m)
    decreases |entries|
  {
    var init, last := entries[..|entries| - 1], entries[|entries| - 1];
    if if last.parent == "" then last.code == m else last.parent == m {
      e := last;
    } else {
      e := ModuleIsEntry(init, m);
    }
  }

  /** No two entities of the catalog have one code. */
  ghost predicate DistinctEntities(entries: seq<Entry>) {
    forall i, j :: 0 <= i < j < |entries| && entries[i].parent != "" && entries[j].parent != "" ==>
      entries[i].code != entries[j].code
  }

  /** Exactly what the index says of an entity: one leaf for each action of its row, in order, and the row's module. */
  lemma {:induction false} EntityIsRow(entries: seq<Entry>, i: nat)
    requires DistinctEntities(entries) && i < |entries| && entries[i].parent != ""
    ensures var ix, e := IndexOfCatalog(entries), entries[i];
      && e.code in ix.entityModule && ix.entityModule[e.code] == e.parent
      && e.code in ix.entityLeaves && |ix.entityLeaves[e.code]| == |e.actions|
      && forall k :: 0 <= k < |e.actions| ==> ix.entityLeaves[e.code][k] == e.code + "." + e.actions[k]
    decreases |entries|
  {
    var n := |entries| - 1;
    if i < n {
      EntityIsRow(entries[..n], i);
    }
  }

  /** The leaves of the index are the actions of the catalog: each under its entity's code, and no other. */
  lemma LeafIff(entries: seq<Entry>, l: string)
    requires DistinctEntities(entries)
    ensures IsLeaf(IndexOfCatalog(entries), l) <==>
      exists e, a :: e in entries && e.parent != "" && a in e.actions && l == e.code + "." + a
  {
    var ix := IndexOfCatalog(entries);
    if IsLeaf(ix, l) {
      var c :| c in ix.entityLeaves && l in ix.entityLeaves[c];
      var e := EntitiesDescribed(entries, c);
      var i :| 0 <= i < |entries| && entries[i] == e;
      EntityIsRow(entries, i);
      var k :| 0 <= k < |ix.entityLeaves[c]| && ix.entityLeaves[c][k] == l;
      assert e.actions[k] in e.actions;
    }
    if e, a :| e in entries && e.parent != "" && a in e.actions && l == e.code + "." + a {
      RowLeaf(entries, e, a);
    }
  }

  lemma RowLeaf(entries: seq<Entry>, e: Entry, a: string)
    requires DistinctEntities(entries) && e in entries && e.parent != "" && a in e.actions
    ensures var ix := IndexOfCatalog(entries);
      e.code in ix.entityLeaves && e.code + "." + a in ix.entityLeaves[e.code]
  {
    var i :| 0 <= i < |entries| && entries[i] == e;
    var k :| 0 <= k < |e.actions| && e.actions[k] == a;
    EntityIsRow(entries, i);
    assert IndexOfCatalog(entries).entityLeaves[e.code][k] == e.code + "." + a;
  }

  /** Every entity of the index is a row, and the entities of a module are exactly the codes of its rows. */
  lemma EntityIff(entries: seq<Entry>, m: string, c: string)
    ensures c in IndexOfCatalog(entries).entityLeaves <==> exists e :: e in entries && e.parent != "" && e.code == c
    ensures m in IndexOfCatalog(entries).moduleEntities && c in IndexOfCatalog(entries).moduleEntities[m] <==>
      m != "" && exists e :: e in entries && e.parent == m && e.code == c
    ensures m in IndexOfCatalog(entries).moduleEntities <==>
      exists e :: e in entries && (if e.parent == "" then e.code == m else e.parent == m)
  {
    var ix := IndexOfCatalog(entries);
    if c in ix.entityLeaves { var e := EntitiesDescribed(entries, c); }
    if Lists(ix, m, c) { var e := ListedIsEntry(entries, m, c); }
    if m in ix.moduleEntities { var e := ModuleIsEntry(entries, m); }
    forall e | e in entries && e.parent != ""
      ensures e.code in ix.entityLeaves && Lists(ix, e.parent, e.code)
    {
      EntitiesListed(entries, e);
    }
    forall e | e in entries && e.parent == "" ensures e.code in ix.moduleEntities {
      ModuleListed(entries, e);
    }
  }

  lemma {:induction false} ModuleListed(entries: seq<Entry>, e: Entry)
    requires e in entries && e.parent == ""
    ensures e.code in IndexOfCatalog(entries).moduleEntities
    decreases |entries|
  {
    var init, last := entries[..|entries| - 1], entries[|entries| - 1];
    if e != last {
      assert entries == init + [last];
      ModuleListed(init, e);
    }
  }

  lemma LeavesAreChildren(e: string, actions: seq<string>)
    requires forall a :: a in actions ==> Free(a, '.')
    ensures forall l :: l in Leaves(e, actions) ==> Child(e, l)
  {
    forall l | l in Leaves(e, actions) ensures Child(e, l) {
      var k :| 0 <= k < |actions| && l == e + "." + actions[k];
      assert l[|e| + 1..] == actions[k];
    }
  }

  lemma ModuleIsProper(entries: seq<Entry>, m: string)
    requires WellFormedEntries(entries) && m in IndexOfCatalog(entries).moduleEntities
    ensures m != "" && Free(m, '.') && IndexOfCatalog(entries).moduleEntities[m] != []
  {
    var e := ModuleIsEntry(entries, m);
    if e.parent != "" {
      assert HasModule(entries, m);
    }
    var top :| top in entries && top.parent == "" && top.code == m;
    assert HasEntityOf(entries, m);
    var child :| child in entries && child.parent == m;
    assert WellFormedEntry(top);
    EntitiesListed(entries, child);
  }

  lemma EntityIsProper(entries: seq<Entry>, c: string)
    requires WellFormedEntries(entries) && c in IndexOfCatalog(entries).entityLeaves
    ensures var ix := IndexOfCatalog(entries);
      && c in ix.entityModule && Lists(ix, ix.entityModule[c], c) && Child(ix.entityModule[c], c)
      && ix.entityLeaves[c] != [] && forall l :: l in ix.entityLeaves[c] ==> Child(c, l)
  {
    var e := EntitiesDescribed(entries, c);
    assert WellFormedEntry(e);
    LeavesAreChildren(e.code, e.actions);
  }

  /** The listed entities of a module belong to it. */
  lemma ListedIsProper(entries: seq<Entry>, m: string, c: string)
    requires WellFormedEntries(entries) && Lists(IndexOfCatalog(entries), m, c)
    ensures var ix := IndexOfCatalog(entries); c in ix.entityLeaves && c in ix.entityModule && ix.entityModule[c] == m
  {
    var e := ListedIsEntry(entries, m, c);
    EntitiesListed(entries, e);
    var d := EntitiesDescribed(entries, c);
    assert WellFormedEntry(e) && WellFormedEntry(d);
    ChildUnique(e.parent, d.parent, c);
  }

  /** A catalog of the documented shape gives a well-formed index. */
  lemma IndexIsWellFormed(entries: seq<Entry>)
    requires WellFormedEntries(entries)
    ensures WellFormed(IndexOfCatalog(entries))
  {
    var ix := IndexOfCatalog(entries);
    ModulesAreProper(entries, ix);
    ListedAreProper(entries, ix);
    EntitiesAreProper(entries, ix);
  }

  lemma ModulesAreProper(entries: seq<Entry>, ix: Index)
    requires WellFormedEntries(entries) && ix == IndexOfCatalog(entries)
    ensures forall m :: m in ix.moduleEntities ==> m != "" && Free(m, '.') && ix.moduleEntities[m] != []
  {
    forall m | m in ix.moduleEntities ensures m != "" && Free(m, '.') && ix.moduleEntities[m] != [] {
      ModuleIsProper(entries, m);
    }
  }

  lemma ListedAreProper(entries: seq<Entry>, ix: Index)
    requires WellFormedEntries(entries) && ix == IndexOfCatalog(entries)
    ensures forall m, c :: m in ix.moduleEntities && c in ix.moduleEntities[m] ==>
      c in ix.entityLeaves && c in ix.entityModule && ix.entityModule[c] == m
  {
    forall m, c | m in ix.moduleEntities && c in ix.moduleEntities[m]
      ensures c in ix.entityLeaves && c in ix.entityModule && ix.entityModule[c] == m
    {
      assert Lists(ix, m, c);
      ListedIsProper(entries, m, c);
    }
  }

  lemma EntitiesAreProper(entries: seq<Entry>, ix: Index)
    requires WellFormedEntries(entries) && ix == IndexOfCatalog(entries)
    ensures forall c :: c in ix.entityLeaves ==>
      && c in ix.entityModule && Lists(ix, ix.entityModule[c], c) && Child(ix.entityModule[c], c)
      && ix.entityLeaves[c] != []
    ensures forall c, l :: c in ix.entityLeaves && l in ix.entityLeaves[c] ==> Child(c, l)
  {
    forall c | c in ix.entityLeaves
      ensures c in ix.entityModule && Lists(ix, ix.entityModule[c], c) && Child(ix.entityModule[c], c)
      ensures ix.entityLeaves[c] != [] && forall l :: l in ix.entityLeaves[c] ==> Child(c, l)
    {
      EntityIsProper(entries, c);
    }
  }

  /** A module and its entities, all with the same actions. */
  function ModuleRows(m: string, names: seq<string>, actions: seq<string>): (rows: seq<Entry>) {
    [Entry(m, "", [])] + seq(|names|, i requires 0 <= i < |names| => Entry(m + "." + names[i], m, actions))
  }

  lemma ModuleRowsAreWellFormed(m: string, names: seq<string>, actions: seq<string>)
    requires m != "" && Free(m, '.') && names != [] && actions != []
    requires forall x :: x in names + actions ==> Free(x, '.')
    ensures WellFormedEntries(ModuleRows(m, names, actions))
  {
    var rows := ModuleRows(m, names, actions);
    assert rows[0] in rows && rows[1] in rows && HasModule(rows, m) && HasEntityOf(rows, m);
    forall e | e in rows && e.parent != "" ensures WellFormedEntry(e) && e.parent == m {
      var i :| 0 <= i < |names| && e == Entry(m + "." + names[i], m, actions);
      assert names[i] in names + actions;
      assert e.code[|m| + 1..] == names[i];
      assert forall a :: a in actions ==> a in names + actions;
    }
  }

  lemma WellFormedTogether(a: seq<Entry>, b: seq<Entry>)
    requires WellFormedEntries(a) && WellFormedEntries(b)
    ensures WellFormedEntries(a + b)
  {
    forall e | e in a + b
      ensures WellFormedEntry(e) && if e.parent == "" then HasEntityOf(a + b, e.code) else HasModule(a + b, e.parent)
    {
    }
  }

  /** Two modules of the real catalog, so that the hypothesis is not empty. */
  lemma SampleIsWellFormed() returns (entries: seq<Entry>)
    ensures entries == ModuleRows("dashboard", ["stats", "hierarchy"], ["view"])
                     + ModuleRows("customers", ["brokers"], ["view", "create"])
    ensures WellFormed(IndexOfCatalog(entries))
  {
    var dashboard, customers := "dashboard", "customers";
    ModuleRowsAreWellFormed(dashboard, ["stats", "hierarchy"], ["view"]);
    ModuleRowsAreWellFormed(customers, ["brokers"], ["view", "create"]);
    var first := ModuleRows(dashboard, ["stats", "hierarchy"], ["view"]);
    var second := ModuleRows(customers, ["brokers"], ["view", "create"]);
    WellFormedTogether(first, second);
    entries := first + second;
    IndexIsWellFormed(entries);
  }
}
