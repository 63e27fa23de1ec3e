/**
 ExpandPermissions and RollupPermissions (enums/user_permissions.go): meaning preservation, order
 independence of the map iterations, canonical form and minimality.
 */
module Rollup {
  import opened Text
  import opened Permissions

  // ---------------------------------------------------------------- ExpandPermissions

  function EntityLeaves(ix: Index, e: string): (ls: set<string>) {
    if e in ix.entityLeaves then Elements(ix.entityLeaves[e]) else {}
  }

  function ExpandCode(ix: Index, c: string): (ls: set<string>) {
    if c in ix.moduleEntities then set e, l | e in ix.moduleEntities[c] && l in EntityLeaves(ix, e) :: l
    else if c in ix.entityLeaves then EntityLeaves(ix, c)
    else {c}
  }

  function Expand(ix: Index, codes: set<string>): (ls: set<string>) {
    set c, l | c in codes && c != "" && l in ExpandCode(ix, c) :: l
  }

  method ExpandPermissions(ix: Index, codes: seq<string>) returns (out: seq<string>)
    ensures Elements(out) == Expand(ix, Elements(codes)) && StrictlySorted(out)
  {
    var found: set<string> := {};
    for i := 0 to |codes|
      invariant found == Expand(ix, Elements(codes[..i]))
    {
      var c := codes[i];
      ghost var before := found;
      if c == "" {
      } else if c in ix.moduleEntities {
        var ents := ix.moduleEntities[c];
        for j := 0 to |ents|
          invariant found == before + set e, l | e in ents[..j] && l in EntityLeaves(ix, e) :: l
        {
          found := found + EntityLeaves(ix, ents[j]);
          assert ents[..j + 1] == ents[..j] + [ents[j]];
        }
        assert ents[..|ents|] == ents;
      } else if c in ix.entityLeaves {
        found := found + Elements(ix.entityLeaves[c]);
      } else {
        found := found + {c};
      }
      assert found == before + (if c == "" then {} else ExpandCode(ix, c));
      ExpandAppend(ix, codes[..i], c);
      assert codes[..i + 1] == codes[..i] + [c];
    }
    assert codes[..|codes|] == codes;
    out := SortedKeys(found);
    assert Elements(out) == found;
  }

  lemma ExpandAppend(ix: Index, codes: seq<string>, c: string)
    ensures Expand(ix, Elements(codes + [c])) ==
        Expand(ix, Elements(codes)) + (if c == "" then {} else ExpandCode(ix, c))
  {
    assert Elements(codes + [c]) == Elements(codes) + {c};
  }

  // ---------------------------------------------------------------- RollupPermissions

  ghost predicate EntityComplete(ix: Index, codes: set<string>, e: string) {
    e in ix.entityLeaves && ix.entityLeaves[e] != [] && forall l :: l in ix.entityLeaves[e] ==> Implied(l, codes)
  }

  ghost predicate ModuleComplete(ix: Index, codes: set<string>, m: string) {
    && m in ix.moduleEntities && ix.moduleEntities[m] != []
    && forall e :: e in ix.moduleEntities[m] ==> EntityComplete(ix, codes, e)
  }

  ghost predicate ModuleOfComplete(ix: Index, codes: set<string>, e: string) {
    e in ix.entityModule && ModuleComplete(ix, codes, ix.entityModule[e])
  }

  /** Complete modules, and complete entities of incomplete modules. */
  ghost function Base(ix: Index, codes: set<string>): (b: set<string>) {
    (set m | m in ix.moduleEntities && ModuleComplete(ix, codes, m)) +
    (set e | e in ix.entityLeaves && EntityComplete(ix, codes, e) && !ModuleOfComplete(ix, codes, e))
  }

  /** Whatever the index: an entity without leaves and a module without entities are never complete. */
  lemma EmptyNeverRollsUp(ix: Index, codes: set<string>, c: string)
    requires c in Base(ix, codes)
    ensures || (c in ix.moduleEntities && |ix.moduleEntities[c]| > 0)
            || (c in ix.entityLeaves && |ix.entityLeaves[c]| > 0)
  {
  }

  /** The last loop: codes in iteration order, each emitted unless the growing result implies it. */
  ghost function AddUncovered(order: seq<string>, base: set<string>): (out: set<string>) {
    if order == [] then base
    else
      var out := AddUncovered(order[..|order| - 1], base);
      if Implied(order[|order| - 1], out) then out else out + {order[|order| - 1]}
  }

  /** `order` lists every code once: a possible iteration order of the map. */
  ghost predicate IsOrder(order: seq<string>, codes: set<string>) {
    Elements(order) == codes && forall i, j :: 0 <= i < j < |order| ==> order[i] != order[j]
  }

  ghost function Roll(ix: Index, codes: set<string>, order: seq<string>): (out: set<string>) {
    AddUncovered(order, Base(ix, codes))
  }

  method AllImpliedBy(codes: seq<string>, held: set<string>) returns (ok: bool)
    ensures ok <==> forall c :: c in codes ==> Implied(c, held)
  {
    for i := 0 to |codes|
      invariant forall k :: 0 <= k < i ==> Implied(codes[k], held)
    {
      var implied := ImpliedBy(codes[i], held);
      if !implied {
        return false;
      }
    }
    return true;
  }

  method CompleteEntities(ix: Index, present: set<string>) returns (entities: set<string>)
    ensures entities == set e | e in ix.entityLeaves && EntityComplete(ix, present, e)
  {
    entities := {};
    var todo := ix.entityLeaves.Keys;
    while todo != {}
      invariant todo <= ix.entityLeaves.Keys
      invariant entities == set e | e in ix.entityLeaves.Keys - todo && EntityComplete(ix, present, e)
      decreases |todo|
    {
      var e :| e in todo;
      var leaves := ix.entityLeaves[e];
      var all := AllImpliedBy(leaves, present);
      if |leaves| > 0 && all {
        entities := entities + {e};
      }
      todo := todo - {e};
    }
  }

  /** `allIn`. */
  predicate AllIn(codes: seq<string>, held: set<string>) {
    forall c :: c in codes ==> c in held
  }

  method CompleteModules(ix: Index, ghost present: set<string>, entities: set<string>) returns (modules: set<string>)
    requires entities == set e | e in ix.entityLeaves && EntityComplete(ix, present, e)
    ensures modules == set m | m in ix.moduleEntities && ModuleComplete(ix, present, m)
  {
    modules := {};
    var todo := ix.moduleEntities.Keys;
    while todo != {}
      invariant todo <= ix.moduleEntities.Keys
      invariant modules == set m | m in ix.moduleEntities.Keys - todo && ModuleComplete(ix, present, m)
      decreases |todo|
    {
      var m :| m in todo;
      var ents := ix.moduleEntities[m];
      if |ents| > 0 && AllIn(ents, entities) {
        modules := modules + {m};
      }
      todo := todo - {m};
    }
  }

  method EmitUncovered(present: set<string>, base: set<string>) returns (out: set<string>, ghost order: seq<string>)
    ensures IsOrder(order, present) && out == AddUncovered(order, base)
  {
    out, order := base, [];
    var todo := present;
    while todo != {}
      invariant todo <= present && IsOrder(order, present - todo)
      invariant out == AddUncovered(order, base)
      decreases |todo|
    {
      var c :| c in todo;
      var implied := ImpliedBy(c, out);
      if !implied {
        out := out + {c};
      }
      AppendToOrder(order, present - todo, c, base);
      order := order + [c];
      assert present - (todo - {c}) == (present - todo) + {c};
      todo := todo - {c};
    }
  }

  lemma AppendToOrder(order: seq<string>, codes: set<string>, c: string, base: set<string>)
    requires IsOrder(order, codes) && c !in codes
    ensures IsOrder(order + [c], codes + {c})
    ensures var out := AddUncovered(order, base);
      AddUncovered(order + [c], base) == if Implied(c, out) then out else out + {c}
  {
    assert (order + [c])[..|order|] == order;
    assert Elements(order + [c]) == Elements(order) + {c};
    assert forall i :: 0 <= i < |order| ==> order[i] in Elements(order);
  }

  /** `RollupPermissions`; every map is iterated in an arbitrary order, and `order` is the last one taken. */
  method RollupPermissions(ix: Index, codes: seq<string>) returns (out: seq<string>, ghost order: seq<string>)
    requires forall e :: e in ix.entityLeaves ==> e in ix.entityModule
    ensures IsOrder(order, Elements(codes) - {""})
    ensures Elements(out) == Roll(ix, Elements(codes) - {""}, order) && StrictlySorted(out)
  {
    var present := (set c | c in codes && c != "");
    assert present == Elements(codes) - {""};
    var entities := CompleteEntities(ix, present);
    var modules := CompleteModules(ix, present, entities);
    var base := modules + set e | e in entities && ix.entityModule[e] !in modules;
    assert base == Base(ix, present);
    var rolled: set<string>;
    rolled, order := EmitUncovered(present, base);
    out := SortedKeys(rolled);
    assert Elements(out) == rolled;
  }

  // ---------------------------------------------------------------- meaning, for every input

  lemma ImpliedMonotone(c: string, a: set<string>, b: set<string>)
    requires a <= b && Implied(c, a)
    ensures Implied(c, b)
  {
  }

  /** Whatever is implied by an implied code is implied. */
  lemma ImpliedTransitive(c: string, a: string, codes: set<string>)
    requires a != "" && Covers(a, c) && Implied(a, codes)
    ensures Implied(c, codes)
  {
    if a !in codes {
      var b :| b in codes && b != "" && Covers(b, a);
      CoversTransitive(b, a, c);
    }
  }

  lemma {:induction false} AddUncoveredHolds(order: seq<string>, base: set<string>)
    ensures base <= AddUncovered(order, base) <= base + Elements(order)
    ensures forall c :: c in order ==> Implied(c, AddUncovered(order, base))
    decreases |order|
  {
    if order != [] {
      var init, last := order[..|order| - 1], order[|order| - 1];
      AddUncoveredHolds(init, base);
      assert order == init + [last] && Elements(order) == Elements(init) + {last};
      forall c | c in init ensures Implied(c, AddUncovered(order, base)) {
        ImpliedMonotone(c, AddUncovered(init, base), AddUncovered(order, base));
      }
    }
  }

  /** Representatives imply only leaves that were implied before. */
  lemma BaseImpliesOldLeaves(ix: Index, codes: set<string>, e: string, l: string, a: string)
    requires WellFormed(ix) && e in ix.entityLeaves && l in ix.entityLeaves[e] && a in Base(ix, codes) && Covers(a, l)
    ensures Implied(l, codes)
  {
    LeafAncestors(ix, e, l, a);
    KindsDisjoint(ix, e, l);
    if a == ix.entityModule[e] {
      assert ModuleComplete(ix, codes, a);
      assert EntityComplete(ix, codes, e);
    } else {
      assert a == e && EntityComplete(ix, codes, e);
    }
  }

  /**
   Rollup keeps meaning, for every input and iteration order: a catalog leaf is granted after if and only if
   it was granted before, and no input code loses its grant.
   */
  lemma RollupKeepsMeaning(ix: Index, codes: set<string>, order: seq<string>)
    requires WellFormed(ix) && "" !in codes && Elements(order) == codes
    ensures forall l :: IsLeaf(ix, l) ==> (Implied(l, Roll(ix, codes, order)) <==> Implied(l, codes))
    ensures forall c :: c in codes ==> Implied(c, Roll(ix, codes, order))
  {
    var out := Roll(ix, codes, order);
    AddUncoveredHolds(order, Base(ix, codes));
    forall l | IsLeaf(ix, l) ensures Implied(l, out) <==> Implied(l, codes) {
      var e :| e in ix.entityLeaves && l in ix.entityLeaves[e];
      KindsDisjoint(ix, e, l);
      assert Covers(l, l);
      if Implied(l, codes) {
        var a :| a in codes && a != "" && Covers(a, l);
        ImpliedTransitive(l, a, out);
      }
      if Implied(l, out) {
        var a :| a in out && a != "" && Covers(a, l);
        if a !in codes {
          BaseImpliesOldLeaves(ix, codes, e, l, a);
        }
      }
    }
  }

  // ---------------------------------------------------------------- iteration order

  /** A code of the input strictly below another one, with neither covered by the representatives. */
  ghost predicate LooseChain(codes: set<string>, base: set<string>) {
    exists c, d :: c in codes && d in codes && c != d && Covers(c, d) && !Implied(d, base)
  }

  /** The representatives and every code they do not imply. */
  ghost function Canon(ix: Index, codes: set<string>): (out: set<string>) {
    Base(ix, codes) + set c | c in codes && !Implied(c, Base(ix, codes))
  }

  lemma {:induction false} NoChainAddsAll(order: seq<string>, base: set<string>)
    requires "" !in order && !LooseChain(Elements(order), base)
    requires forall i, j :: 0 <= i < j < |order| ==> order[i] != order[j]
    ensures AddUncovered(order, base) == base + set c | c in order && !Implied(c, base)
    decreases |order|
  {
    if order != [] {
      var init, last := order[..|order| - 1], order[|order| - 1];
      assert order == init + [last] && Elements(order) == Elements(init) + {last};
      assert forall i :: 0 <= i < |init| ==> init[i] == order[i] != last;
      NoChainAddsAll(init, base);
      var out := AddUncovered(init, base);
      assert Implied(last, base) ==> Implied(last, out);
      assert Implied(last, out) ==> Implied(last, base);
    }
  }

  lemma {:induction false} ListInAnyOrder(codes: set<string>) returns (order: seq<string>)
    ensures IsOrder(order, codes)
    decreases codes
  {
    if codes == {} {
      order := [];
    } else {
      var c :| c in codes;
      var rest := ListInAnyOrder(codes - {c});
      order := [c] + rest;
      assert Elements(order) == {c} + Elements(rest);
      assert forall i :: 0 <= i < |rest| ==> rest[i] in Elements(rest);
    }
  }

  lemma {:induction false} AddedStays(order: seq<string>, n: nat, base: set<string>, c: string)
    requires n <= |order| && c in AddUncovered(order[..n], base)
    ensures c in AddUncovered(order, base)
    decreases |order|
  {
    if n == |order| {
      assert order[..n] == order;
    } else {
      assert order[..|order| - 1][..n] == order[..n];
      AddedStays(order[..|order| - 1], n, base, c);
    }
  }

  lemma {:induction false} ImpliedIsNotAdded(order: seq<string>, n: nat, base: set<string>, d: string)
    requires n <= |order| && d !in AddUncovered(order[..n], base) && Implied(d, AddUncovered(order[..n], base))
    ensures d !in AddUncovered(order, base) && Implied(d, AddUncovered(order, base))
    decreases |order|
  {
    if n == |order| {
      assert order[..n] == order;
    } else {
      var init := order[..|order| - 1];
      assert init[..n] == order[..n];
      ImpliedIsNotAdded(init, n, base, d);
      if order[|order| - 1] != d {
        ImpliedMonotone(d, AddUncovered(init, base), AddUncovered(order, base));
      }
    }
  }

  /**
   The result is independent of the iteration order exactly when no input code is a strict descendant of
   another one without being covered by a representative; it is then the canonical form.
   */
  lemma OrderIndependentIff(ix: Index, codes: set<string>)
    requires "" !in codes
    ensures !LooseChain(codes, Base(ix, codes)) <==>
      forall p, q :: IsOrder(p, codes) && IsOrder(q, codes) ==> Roll(ix, codes, p) == Roll(ix, codes, q)
    ensures !LooseChain(codes, Base(ix, codes)) ==>
      forall p :: IsOrder(p, codes) ==> Roll(ix, codes, p) == Canon(ix, codes)
  {
    var base := Base(ix, codes);
    if !LooseChain(codes, base) {
      forall p | IsOrder(p, codes) ensures Roll(ix, codes, p) == Canon(ix, codes) {
        NoChainAddsAll(p, base);
      }
    } else {
      var c, d :| c in codes && d in codes && c != d && Covers(c, d) && !Implied(d, base);
      var p, q := ChainOrders(codes, base, c, d);
      assert Roll(ix, codes, p) != Roll(ix, codes, q);
    }
  }

  /** Visiting the ancestor first swallows the descendant; visiting it second does not. */
  lemma ChainOrders(codes: set<string>, base: set<string>, c: string, d: string)
    returns (p: seq<string>, q: seq<string>)
    requires c in codes && d in codes && c != d && c != "" && Covers(c, d) && !Implied(d, base)
    ensures IsOrder(p, codes) && IsOrder(q, codes)
    ensures d !in AddUncovered(p, base) && d in AddUncovered(q, base)
  {
    var rest := ListInAnyOrder(codes - {c, d});
    assert forall i :: 0 <= i < |rest| ==> rest[i] in Elements(rest);
    p, q := [c, d] + rest, [d, c] + rest;
    assert Elements(p) == {c, d} + Elements(rest) && Elements(q) == {c, d} + Elements(rest);
    assert p[..1] == [c] && q[..1] == [d] && p[..1][..0] == [] && q[..1][..0] == [];
    if Implied(c, base) {
      ImpliedTransitive(d, c, base);
      assert false;
    }
    assert c in AddUncovered(p[..1], base);
    assert d !in base;
    ImpliedIsNotAdded(p, 1, base, d);
    AddedStays(q, 1, base, d);
  }

  /** Unknown dotted chains are such inputs: {foo, foo.bar} has two results. */
  lemma UnknownChainDependsOnOrder(ix: Index)
    requires ix == Index(map[], map[], map[])
    ensures Roll(ix, {"foo", "foo.bar"}, ["foo", "foo.bar"]) != Roll(ix, {"foo", "foo.bar"}, ["foo.bar", "foo"])
  {
    var foo, bar := "foo", "foo.bar";
    assert bar[..3] == foo && Covers(foo, bar);
    assert Base(ix, {foo, bar}) == {};
    assert [foo, bar][..1] == [foo] && [bar, foo][..1] == [bar];
    assert AddUncovered([foo], {}) == {foo} && AddUncovered([bar], {}) == {bar};
    assert AddUncovered([foo, bar], {}) == {foo};
    assert bar in AddUncovered([bar, foo], {});
  }

  // ---------------------------------------------------------------- valid codes

  /** Grantable codes: catalog codes, and flat codes outside the catalog. */
  ghost predicate IsValid(ix: Index, c: string) {
    c != "" && (c in ix.moduleEntities || c in ix.entityLeaves || IsLeaf(ix, c) || Free(c, '.'))
  }

  ghost predicate IsFlat(ix: Index, c: string) {
    c != "" && Free(c, '.') && c !in ix.moduleEntities
  }

  ghost predicate AllValid(ix: Index, codes: set<string>) {
    forall c :: c in codes ==> IsValid(ix, c)
  }

  /** The leaves a set grants and the flat codes it holds: all that a set of valid codes means. */
  ghost predicate SameMeaning(ix: Index, a: set<string>, b: set<string>) {
    && (forall l :: IsLeaf(ix, l) ==> (Implied(l, a) <==> Implied(l, b)))
    && (forall f :: IsFlat(ix, f) ==> (f in a <==> f in b))
  }

  lemma FlatHasNoAncestor(f: string, a: string)
    requires Free(f, '.') && Covers(a, f)
    ensures a == f
  {
    if a != f { ProperCover(a, f); }
  }

  /** An entity is complete if it or its module is held, or all of its leaves are. */
  lemma EntityCompleteness(ix: Index, codes: set<string>, e: string)
    requires WellFormed(ix) && e in ix.entityLeaves
    ensures EntityComplete(ix, codes, e) <==>
            e in codes || ix.entityModule[e] in codes || forall l :: l in ix.entityLeaves[e] ==> l in codes
  {
    forall l | l in ix.entityLeaves[e]
      ensures Implied(l, codes) <==> l in codes || e in codes || ix.entityModule[e] in codes
    {
      LeafImplied(ix, codes, e, l);
    }
    assert ix.entityLeaves[e][0] in ix.entityLeaves[e];
  }

  lemma LeafImplied(ix: Index, codes: set<string>, e: string, l: string)
    requires WellFormed(ix) && e in ix.entityLeaves && l in ix.entityLeaves[e]
    ensures Implied(l, codes) <==> l in codes || e in codes || ix.entityModule[e] in codes
  {
    LeafAncestors(ix, e, l, l);
    KindsDisjoint(ix, e, l);
    forall a | a in codes && Covers(a, l) ensures a == l || a == e || a == ix.entityModule[e] {
      LeafAncestors(ix, e, l, a);
    }
  }

  /** A held module is complete. */
  lemma HeldModuleComplete(ix: Index, codes: set<string>, m: string)
    requires WellFormed(ix) && m in codes && m in ix.moduleEntities
    ensures ModuleComplete(ix, codes, m)
  {
    forall e | e in ix.moduleEntities[m] ensures EntityComplete(ix, codes, e) {
      EntityCompleteness(ix, codes, e);
    }
  }

  /** Only a module covers an entity, and only a module or its entity covers a leaf. */
  lemma ValidHasNoLooseChain(ix: Index, codes: set<string>)
    requires WellFormed(ix) && AllValid(ix, codes)
    ensures !LooseChain(codes, Base(ix, codes))
  {
    var base := Base(ix, codes);
    forall c, d | c in codes && d in codes && c != d && Covers(c, d) ensures Implied(d, base) {
      assert IsValid(ix, d);
      if Free(d, '.') {
        FlatHasNoAncestor(d, c);
      } else if d in ix.entityLeaves {
        AncestorOfEntity(ix, d, c);
        HeldModuleComplete(ix, codes, c);
        assert c in base;
      } else {
        var e :| e in ix.entityLeaves && d in ix.entityLeaves[e];
        LeafAncestors(ix, e, d, c);
        EntityCompleteness(ix, codes, e);
        CompleteIsCovered(ix, codes, e, d);
      }
    }
  }

  lemma AncestorOfEntity(ix: Index, e: string, c: string)
    requires WellFormed(ix) && e in ix.entityLeaves && Covers(c, e) && c != e
    ensures c == ix.entityModule[e] && c in ix.moduleEntities && c != ""
  {
    LeafAncestors(ix, e, ix.entityLeaves[e][0], c);
  }

  /** Everything at or below a complete entity is implied by the representatives. */
  lemma CompleteIsCovered(ix: Index, codes: set<string>, e: string, d: string)
    requires WellFormed(ix) && EntityComplete(ix, codes, e) && Covers(e, d)
    ensures Implied(d, Base(ix, codes))
  {
    var m := ix.entityModule[e];
    KindsDisjoint(ix, e, ix.entityLeaves[e][0]);
    LeafAncestors(ix, e, ix.entityLeaves[e][0], e);
    if ModuleComplete(ix, codes, m) {
      CoversTransitive(m, e, d);
      assert m in Base(ix, codes);
    } else {
      assert e in Base(ix, codes);
    }
  }

  /**
   The canonical form of a valid set, code by code: complete modules; complete entities of incomplete
   modules; granted leaves of incomplete entities; and the flat codes held.
   */
  lemma CanonIs(ix: Index, codes: set<string>)
    requires WellFormed(ix) && AllValid(ix, codes)
    ensures AllValid(ix, Canon(ix, codes))
    ensures forall m :: m in ix.moduleEntities ==> (m in Canon(ix, codes) <==> ModuleComplete(ix, codes, m))
    ensures forall e :: e in ix.entityLeaves ==>
      (e in Canon(ix, codes) <==> EntityComplete(ix, codes, e) && !ModuleComplete(ix, codes, ix.entityModule[e]))
    ensures forall e, l :: e in ix.entityLeaves && l in ix.entityLeaves[e] ==>
      (l in Canon(ix, codes) <==> Implied(l, codes) && !EntityComplete(ix, codes, e))
    ensures forall f :: IsFlat(ix, f) ==> (f in Canon(ix, codes) <==> f in codes)
  {
    var base := Base(ix, codes);
    forall m | m in ix.moduleEntities ensures m in Canon(ix, codes) <==> ModuleComplete(ix, codes, m) {
      if m in codes { HeldModuleComplete(ix, codes, m); }
      assert m !in ix.entityLeaves;
    }
    forall e | e in ix.entityLeaves
      ensures e in Canon(ix, codes) <==> EntityComplete(ix, codes, e) && !ModuleComplete(ix, codes, ix.entityModule[e])
    {
      KindsDisjoint(ix, e, ix.entityLeaves[e][0]);
      if e in codes {
        EntityCompleteness(ix, codes, e);
        CompleteIsCovered(ix, codes, e, e);
      }
    }
    forall e, l | e in ix.entityLeaves && l in ix.entityLeaves[e]
      ensures l in Canon(ix, codes) <==> Implied(l, codes) && !EntityComplete(ix, codes, e)
    {
      CanonLeaf(ix, codes, e, l);
    }
    forall f | IsFlat(ix, f) ensures f in Canon(ix, codes) <==> f in codes {
      CanonFlat(ix, codes, f);
    }
  }

  lemma CanonLeaf(ix: Index, codes: set<string>, e: string, l: string)
    requires WellFormed(ix) && e in ix.entityLeaves && l in ix.entityLeaves[e]
    ensures l in Canon(ix, codes) <==> Implied(l, codes) && !EntityComplete(ix, codes, e)
  {
    var base := Base(ix, codes);
    KindsDisjoint(ix, e, l);
    LeafImplied(ix, codes, e, l);
    LeafImplied(ix, base, e, l);
    LeafAncestors(ix, e, l, e);
    EntityCompleteness(ix, codes, e);
    assert l !in base;
    if EntityComplete(ix, codes, e) {
      CompleteIsCovered(ix, codes, e, l);
    } else {
      assert !ModuleComplete(ix, codes, ix.entityModule[e]);
      assert ix.entityModule[e] !in base by {
        if ix.entityModule[e] in ix.entityLeaves {
          KindsDisjoint(ix, ix.entityModule[e], ix.entityLeaves[ix.entityModule[e]][0]);
          assert false;
        }
      }
    }
  }

  lemma CanonFlat(ix: Index, codes: set<string>, f: string)
    requires WellFormed(ix) && IsFlat(ix, f)
    ensures f in Canon(ix, codes) <==> f in codes
  {
    assert f !in ix.entityLeaves;
    if Implied(f, Base(ix, codes)) {
      var a :| a in Base(ix, codes) && Covers(a, f);
      FlatHasNoAncestor(f, a);
      assert false;
    }
  }

  /** On valid codes every iteration order gives the canonical form: the result is a function of the set. */
  lemma ValidRollupIsCanon(ix: Index, codes: set<string>, order: seq<string>)
    requires WellFormed(ix) && AllValid(ix, codes) && IsOrder(order, codes)
    ensures Roll(ix, codes, order) == Canon(ix, codes)
  {
    ValidHasNoLooseChain(ix, codes);
    assert "" !in codes;
    OrderIndependentIff(ix, codes);
  }

  /** Completeness depends on the granted leaves only. */
  lemma CompletenessByMeaning(ix: Index, a: set<string>, b: set<string>)
    requires WellFormed(ix) && SameMeaning(ix, a, b)
    ensures forall e :: EntityComplete(ix, a, e) <==> EntityComplete(ix, b, e)
    ensures forall m :: ModuleComplete(ix, a, m) <==> ModuleComplete(ix, b, m)
  {
    forall e, l | e in ix.entityLeaves && l in ix.entityLeaves[e] ensures Implied(l, a) <==> Implied(l, b) {
      assert IsLeaf(ix, l);
    }
  }

  /** Valid sets that mean the same roll up to the same set. */
  lemma CanonByMeaning(ix: Index, a: set<string>, b: set<string>)
    requires WellFormed(ix) && AllValid(ix, a) && AllValid(ix, b) && SameMeaning(ix, a, b)
    ensures Canon(ix, a) == Canon(ix, b)
  {
    CompletenessByMeaning(ix, a, b);
    CanonIs(ix, a);
    CanonIs(ix, b);
    forall c ensures c in Canon(ix, a) <==> c in Canon(ix, b) {
      if c in Canon(ix, a) || c in Canon(ix, b) {
        assert IsValid(ix, c);
        if c !in ix.moduleEntities && c !in ix.entityLeaves && IsLeaf(ix, c) {
          var e :| e in ix.entityLeaves && c in ix.entityLeaves[e];
        }
      }
    }
  }

  lemma CanonKeepsMeaning(ix: Index, codes: set<string>)
    requires WellFormed(ix) && AllValid(ix, codes)
    ensures SameMeaning(ix, codes, Canon(ix, codes))
  {
    var order := ListInAnyOrder(codes);
    ValidRollupIsCanon(ix, codes, order);
    RollupKeepsMeaning(ix, codes, order);
    CanonIs(ix, codes);
  }

  /** Expansion of a valid set: the granted leaves and the flat codes. */
  lemma ExpandIs(ix: Index, codes: set<string>)
    requires WellFormed(ix) && AllValid(ix, codes)
    ensures forall x :: x in Expand(ix, codes) <==>
        (IsLeaf(ix, x) && Implied(x, codes)) || (IsFlat(ix, x) && x in codes)
  {
    forall x ensures x in Expand(ix, codes) <==> (IsLeaf(ix, x) && Implied(x, codes)) || (IsFlat(ix, x) && x in codes) {
      if x in Expand(ix, codes) {
        var c :| c in codes && c != "" && x in ExpandCode(ix, c);
        ExpandedIsImplied(ix, codes, c, x);
      }
      if IsLeaf(ix, x) && Implied(x, codes) {
        ImpliedIsExpanded(ix, codes, x);
      }
      if IsFlat(ix, x) && x in codes {
        assert x !in ix.entityLeaves;
        assert x in ExpandCode(ix, x);
      }
    }
  }

  /** For every input: what is neither module nor entity is kept as it is, and of the rest nothing but leaves. */
  lemma ExpandKeepsOthers(ix: Index, codes: set<string>, x: string)
    requires !IsLeaf(ix, x)
    ensures x in Expand(ix, codes) <==> x in codes && x != "" && x !in ix.moduleEntities && x !in ix.entityLeaves
  {
    if x in codes && x != "" && x !in ix.moduleEntities && x !in ix.entityLeaves {
      assert x in ExpandCode(ix, x);
    }
  }

  /** In terms of the catalog: a module grants every action of all its entities, an entity its own. */
  lemma CatalogExpands(entries: seq<Entry>, m: string, x: string)
    requires DistinctEntities(entries) && WellFormedEntries(entries)
    ensures HasModule(entries, m) ==> (x in Expand(IndexOfCatalog(entries), {m}) <==>
      exists e, a :: e in entries && e.parent == m && a in e.actions && x == e.code + "." + a)
    ensures forall e :: e in entries && e.parent != "" ==> (x in Expand(IndexOfCatalog(entries), {e.code}) <==>
      exists a :: a in e.actions && x == e.code + "." + a)
  {
    var ix := IndexOfCatalog(entries);
    IndexIsWellFormed(entries);
    if HasModule(entries, m) { ModuleExpands(entries, ix, m, x); }
    forall e | e in entries && e.parent != ""
      ensures x in Expand(ix, {e.code}) <==> exists a :: a in e.actions && x == e.code + "." + a
    {
      EntityExpands(entries, ix, e, x);
    }
  }

  lemma EntityExpands(entries: seq<Entry>, ix: Index, e: Entry, x: string)
    requires DistinctEntities(entries) && ix == IndexOfCatalog(entries) && WellFormed(ix)
    requires e in entries && e.parent != ""
    ensures e.code in ix.entityLeaves && e.code !in ix.moduleEntities && e.code != ""
    ensures x in EntityLeaves(ix, e.code) <==> exists a :: a in e.actions && x == e.code + "." + a
    ensures x in Expand(ix, {e.code}) <==> x in EntityLeaves(ix, e.code)
  {
    var i :| 0 <= i < |entries| && entries[i] == e;
    EntityIsRow(entries, i);
    var leaves := ix.entityLeaves[e.code];
    assert leaves[0] in leaves;
    KindsDisjoint(ix, e.code, leaves[0]);
    if x in leaves {
      var k :| 0 <= k < |leaves| && leaves[k] == x;
      assert e.actions[k] in e.actions;
    }
    if a :| a in e.actions && x == e.code + "." + a { RowLeaf(entries, e, a); }
    assert ExpandCode(ix, e.code) == EntityLeaves(ix, e.code);
  }

  lemma ModuleExpands(entries: seq<Entry>, ix: Index, m: string, x: string)
    requires DistinctEntities(entries) && ix == IndexOfCatalog(entries) && WellFormed(ix) && HasModule(entries, m)
    ensures x in Expand(ix, {m}) <==>
      exists e, a :: e in entries && e.parent == m && a in e.actions && x == e.code + "." + a
  {
    EntityIff(entries, m, "");
    assert m in ix.moduleEntities && m != "";
    if x in Expand(ix, {m}) {
      var c :| c in ix.moduleEntities[m] && x in EntityLeaves(ix, c);
      EntityIff(entries, m, c);
      var e :| e in entries && e.parent == m && e.code == c;
      EntityExpands(entries, ix, e, x);
    }
    if e, a :| e in entries && e.parent == m && a in e.actions && x == e.code + "." + a {
      EntityIff(entries, m, e.code);
      EntityExpands(entries, ix, e, x);
      assert x in ExpandCode(ix, m);
    }
  }

  lemma ExpandedIsImplied(ix: Index, codes: set<string>, c: string, x: string)
    requires WellFormed(ix) && c in codes && IsValid(ix, c) && x in ExpandCode(ix, c)
    ensures (IsLeaf(ix, x) && Implied(x, codes)) || (IsFlat(ix, x) && x in codes)
  {
    if c in ix.moduleEntities {
      var e :| e in ix.moduleEntities[c] && x in EntityLeaves(ix, e);
      LeafImplied(ix, codes, e, x);
    } else if c in ix.entityLeaves {
      LeafImplied(ix, codes, c, x);
    }
  }

  lemma ImpliedIsExpanded(ix: Index, codes: set<string>, x: string)
    requires WellFormed(ix) && IsLeaf(ix, x) && Implied(x, codes)
    ensures x in Expand(ix, codes)
  {
    var e :| e in ix.entityLeaves && x in ix.entityLeaves[e];
    KindsDisjoint(ix, e, x);
    LeafImplied(ix, codes, e, x);
    var m := ix.entityModule[e];
    if x in codes {
      assert x in ExpandCode(ix, x);
    } else if e in codes {
      assert x in ExpandCode(ix, e);
    } else {
      assert x in EntityLeaves(ix, e) && x in ExpandCode(ix, m);
    }
  }

  /** Expansion keeps the meaning and stays valid. */
  lemma ExpandKeepsMeaning(ix: Index, codes: set<string>)
    requires WellFormed(ix) && AllValid(ix, codes)
    ensures AllValid(ix, Expand(ix, codes)) && SameMeaning(ix, codes, Expand(ix, codes))
  {
    ExpandIs(ix, codes);
    var x := Expand(ix, codes);
    forall l | l in x ensures IsValid(ix, l) {
      if IsLeaf(ix, l) {
        var e :| e in ix.entityLeaves && l in ix.entityLeaves[e];
        KindsDisjoint(ix, e, l);
      }
    }
    forall l | IsLeaf(ix, l) ensures Implied(l, x) <==> Implied(l, codes) {
      ExpandImplies(ix, codes, l);
    }
    forall f | IsFlat(ix, f) ensures f in codes <==> f in x {
      assert !IsLeaf(ix, f);
    }
  }

  /** Expansion drops no leaf and adds none, for every input. */
  lemma ExpandImplies(ix: Index, codes: set<string>, l: string)
    requires WellFormed(ix) && IsLeaf(ix, l)
    ensures Implied(l, Expand(ix, codes)) <==> Implied(l, codes)
  {
    var x := Expand(ix, codes);
    var e :| e in ix.entityLeaves && l in ix.entityLeaves[e];
    KindsDisjoint(ix, e, l);
    LeafImplied(ix, x, e, l);
    NeverExpandedTo(ix, codes, e);
    NeverExpandedTo(ix, codes, ix.entityModule[e]);
    if Implied(l, codes) {
      ImpliedIsExpanded(ix, codes, l);
    } else if l in x {
      var c :| c in codes && c != "" && l in ExpandCode(ix, c);
      LeafImplied(ix, codes, e, l);
      assert false;
    }
  }

  lemma NeverExpandedTo(ix: Index, codes: set<string>, x: string)
    requires WellFormed(ix) && (x in ix.moduleEntities || x in ix.entityLeaves)
    ensures x !in Expand(ix, codes)
  {
    NotExpanded(ix, x);
    assert forall c, e :: c in ix.moduleEntities && e in ix.moduleEntities[c] ==> x !in EntityLeaves(ix, e);
  }

  /** Modules and entities are neither leaves nor flat. */
  lemma NotExpanded(ix: Index, c: string)
    requires WellFormed(ix) && (c in ix.moduleEntities || c in ix.entityLeaves)
    ensures !IsLeaf(ix, c) && !IsFlat(ix, c)
  {
    if IsLeaf(ix, c) {
      var e :| e in ix.entityLeaves && c in ix.entityLeaves[e];
      KindsDisjoint(ix, e, c);
      assert false;
    }
    if c in ix.entityLeaves {
      assert c[|ix.entityModule[c]|] == '.';
    }
  }

  /**
   On valid codes Expand and Rollup are inverse to each other up to granularity, and Rollup is idempotent:
   expanding a rolled-up set gives the expansion, rolling up an expansion gives the roll-up.
   */
  lemma ExpandRollupInverse(ix: Index, codes: set<string>)
    requires WellFormed(ix) && AllValid(ix, codes)
    ensures Expand(ix, Canon(ix, codes)) == Expand(ix, codes)
    ensures Canon(ix, Expand(ix, codes)) == Canon(ix, codes)
    ensures Canon(ix, Canon(ix, codes)) == Canon(ix, codes)
  {
    CanonIs(ix, codes);
    CanonKeepsMeaning(ix, codes);
    ExpandKeepsMeaning(ix, codes);
    CanonByMeaning(ix, codes, Canon(ix, codes));
    CanonByMeaning(ix, codes, Expand(ix, codes));
    ExpandIs(ix, codes);
    ExpandIs(ix, Canon(ix, codes));
    assert forall x :: x in Expand(ix, Canon(ix, codes)) <==> x in Expand(ix, codes);
  }

  // ---------------------------------------------------------------- minimality

  /** No rolled-up code covers another one. */
  lemma CanonIsAntichain(ix: Index, codes: set<string>, a: string, b: string)
    requires WellFormed(ix) && AllValid(ix, codes) && a in Canon(ix, codes) && b in Canon(ix, codes) && Covers(a, b)
    ensures a == b
  {
    CanonIs(ix, codes);
    if a != b {
      if Free(b, '.') {
        FlatHasNoAncestor(b, a);
      } else if b in ix.entityLeaves {
        AncestorOfEntity(ix, b, a);
      } else {
        assert IsValid(ix, b);
        assert b !in ix.moduleEntities;
        var e :| e in ix.entityLeaves && b in ix.entityLeaves[e];
        LeafAncestors(ix, e, b, a);
      }
      assert false;
    }
  }

  /** A set that means the same has, for each rolled-up code, a code at or below it. */
  lemma WitnessBelow(ix: Index, codes: set<string>, other: set<string>, r: string) returns (t: string)
    requires WellFormed(ix) && AllValid(ix, codes) && AllValid(ix, other) && SameMeaning(ix, codes, other)
    requires r in Canon(ix, codes)
    ensures t in other && Covers(r, t)
  {
    CanonIs(ix, codes);
    CompletenessByMeaning(ix, codes, other);
    assert IsValid(ix, r);
    if IsFlat(ix, r) {
      t := r;
    } else {
      var e, l := LeafBelow(ix, r);
      CanonImpliesBelow(ix, codes, r, e, l);
      assert Implied(l, other);
      KindsDisjoint(ix, e, l);
      LeafImplied(ix, other, e, l);
      LeafAncestors(ix, e, l, r);
      t := if l in other then l else if e in other then e else ix.entityModule[e];
      if ix.entityModule[e] in other {
        HeldModuleComplete(ix, other, ix.entityModule[e]);
      }
      EntityCompleteness(ix, other, e);
    }
  }

  lemma LeafBelow(ix: Index, r: string) returns (e: string, l: string)
    requires WellFormed(ix) && IsValid(ix, r) && !IsFlat(ix, r)
    ensures e in ix.entityLeaves && l in ix.entityLeaves[e] && Covers(r, l)
  {
    if r in ix.moduleEntities {
      e := ix.moduleEntities[r][0];
      l := ix.entityLeaves[e][0];
      LeafAncestors(ix, e, l, l);
    } else if r in ix.entityLeaves {
      e, l := r, ix.entityLeaves[r][0];
      LeafAncestors(ix, e, l, l);
    } else {
      e :| e in ix.entityLeaves && r in ix.entityLeaves[e];
      l := r;
    }
  }

  lemma CanonImpliesBelow(ix: Index, codes: set<string>, r: string, e: string, l: string)
    requires WellFormed(ix) && AllValid(ix, codes) && r in Canon(ix, codes)
    requires e in ix.entityLeaves && l in ix.entityLeaves[e] && Covers(r, l)
    ensures Implied(l, codes)
  {
    CanonKeepsMeaning(ix, codes);
    assert IsLeaf(ix, l);
    KindsDisjoint(ix, e, l);
    LeafAncestors(ix, e, l, r);
  }

  /** Members of an antichain lie above different codes, so it is no larger than a set with a code below each. */
  lemma {:induction false} AntichainIsSmall(chainFree: set<string>, other: set<string>)
    requires forall a, b :: a in chainFree && b in chainFree && Covers(a, b) ==> a == b
    requires forall r :: r in chainFree ==> exists t :: t in other && Covers(r, t)
    ensures |chainFree| <= |other|
    decreases chainFree
  {
    if chainFree != {} {
      var r :| r in chainFree;
      var t :| t in other && Covers(r, t);
      forall q | q in chainFree - {r} ensures exists u :: u in other - {t} && Covers(q, u) {
        var u :| u in other && Covers(q, u);
        if u == t {
          CoversChain(q, r, t);
          assert false;
        }
      }
      AntichainIsSmall(chainFree - {r}, other - {t});
    }
  }

  /** Minimality: no valid set that grants the same leaves and flat codes is smaller than the roll-up. */
  lemma RollupIsMinimal(ix: Index, codes: set<string>, other: set<string>)
    requires WellFormed(ix) && AllValid(ix, codes) && AllValid(ix, other) && SameMeaning(ix, codes, other)
    ensures |Canon(ix, codes)| <= |other|
  {
    forall a, b | a in Canon(ix, codes) && b in Canon(ix, codes) && Covers(a, b) ensures a == b {
      CanonIsAntichain(ix, codes, a, b);
    }
    forall r | r in Canon(ix, codes) ensures exists t :: t in other && Covers(r, t) {
      var t := WitnessBelow(ix, codes, other, r);
    }
    AntichainIsSmall(Canon(ix, codes), other);
  }

  /** The method on valid codes: one sorted answer, whatever the map iterations did. */
  lemma ValidResultUnique(ix: Index, codes: set<string>, p: seq<string>, q: seq<string>, out: seq<string>,
                          out': seq<string>)
    requires WellFormed(ix) && AllValid(ix, codes) && IsOrder(p, codes) && IsOrder(q, codes)
    requires StrictlySorted(out) && Elements(out) == Roll(ix, codes, p)
    requires StrictlySorted(out') && Elements(out') == Roll(ix, codes, q)
    ensures out == out'
  {
    ValidRollupIsCanon(ix, codes, p);
    ValidRollupIsCanon(ix, codes, q);
    assert forall x :: x in out <==> x in Elements(out);
    assert forall x :: x in out' <==> x in Elements(out');
    SortedListingUnique(out, out');
  }
}
