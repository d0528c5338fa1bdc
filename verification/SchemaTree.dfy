/** The collection schemas built from groups of minor-unit fields (jsonSchemaValidators.ts). */
module SchemaTree {
  import opened Text
  import opened Wrappers

  datatype FieldGroup = FieldGroup(prefix: string, fields: seq<string>, nullable: bool, isArray: bool)

  /** A schema node: a field rule, an object with properties, or an array of objects with properties. */
  datatype Node = Rule(nullable: bool) | Obj(props: map<string, Node>) | Arr(fields: map<string, Node>)

  datatype Kind = RuleKind(nullable: bool) | ObjKind | ArrKind

  function Segments(g: FieldGroup): seq<string> {
    if g.prefix == "" then [] else Split(g.prefix, {'.'})
  }

  /** The array flag of a group without prefix is not looked at. */
  predicate IsArray(g: FieldGroup) {
    g.prefix != "" && g.isArray
  }

  function Rules(fields: seq<string>, nullable: bool): (r: map<string, Node>)
    ensures forall f :: f in r <==> f in fields
    ensures forall f :: f in r ==> r[f] == Rule(nullable)
  {
    if fields == [] then map[] else Rules(fields[..|fields| - 1], nullable)[fields[|fields| - 1] := Rule(nullable)]
  }

  /** `existing.properties ?? {}`: only an object node has properties of its own. */
  function PropsOf(existing: Option<Node>): map<string, Node> {
    if existing.Some? && existing.value.Obj? then existing.value.props else map[]
  }

  function Lookup(props: map<string, Node>, key: string): Option<Node> {
    if key in props then Some(props[key]) else None
  }

  /** The node that stands at `segs` after the group is written there, over what existed. */
  function Put(existing: Option<Node>, segs: seq<string>, g: FieldGroup): Node
    decreases |segs|
  {
    if segs == [] then
      if IsArray(g) then Arr(Rules(g.fields, g.nullable)) else Obj(PropsOf(existing) + Rules(g.fields, g.nullable))
    else
      var props := PropsOf(existing);
      Obj(props[segs[0] := Put(Lookup(props, segs[0]), segs[1..], g)])
  }

  function Schema(groups: seq<FieldGroup>): (root: Node)
    ensures root.Obj?
  {
    if groups == [] then Obj(map[])
    else
      var g := groups[|groups| - 1];
      Put(Some(Schema(groups[..|groups| - 1])), Segments(g), g)
  }

  // ---------- what a schema says, path by path ----------

  function KindOf(n: Node): Kind {
    match n
    case Rule(nullable) => RuleKind(nullable)
    case Obj(_) => ObjKind
    case Arr(_) => ArrKind
  }

  function Children(n: Node): map<string, Node> {
    match n
    case Rule(_) => map[]
    case Obj(props) => props
    case Arr(fields) => fields
  }

  /** The kind of the node reached along `path`; the items of an array are entered without a step. */
  function At(n: Option<Node>, path: seq<string>): Option<Kind>
    decreases |path|
  {
    if n.None? then None
    else if path == [] then Some(KindOf(n.value))
    else At(Lookup(Children(n.value), path[0]), path[1..])
  }

  /** What a group registers at a path: objects down to its prefix, its array, and its field rules. */
  function Claim(g: FieldGroup, path: seq<string>): Option<Kind> {
    ClaimFrom(Segments(g), g, path)
  }

  function ClaimFrom(segs: seq<string>, g: FieldGroup, path: seq<string>): Option<Kind> {
    if path <= segs then Some(if path == segs && IsArray(g) then ArrKind else ObjKind)
    else if |path| == |segs| + 1 && segs <= path && path[|segs|] in g.fields then Some(RuleKind(g.nullable))
    else None
  }

  /** Paths under the group's own array or field rules: the write leaves nothing there but its claims. */
  predicate Shadowed(segs: seq<string>, g: FieldGroup, path: seq<string>) {
    (IsArray(g) && segs <= path) || (segs < path && path[|segs|] in g.fields)
  }

  /** The group written last always gets what it claims. */
  lemma {:induction false} PutClaims(existing: Option<Node>, segs: seq<string>, g: FieldGroup, path: seq<string>)
    requires ClaimFrom(segs, g, path).Some?
    ensures At(Some(Put(existing, segs, g)), path) == ClaimFrom(segs, g, path)
    decreases |segs|
  {
    if path != [] {
      if segs == [] {
        assert path[1..] == [];
      } else {
        var props := PropsOf(existing);
        assert path[0] == segs[0];
        ClaimTail(segs, g, path);
        PutClaims(Lookup(props, segs[0]), segs[1..], g, path[1..]);
      }
    }
  }

  lemma ClaimTail(segs: seq<string>, g: FieldGroup, path: seq<string>)
    requires segs != [] && path != [] && path[0] == segs[0]
    ensures ClaimFrom(segs, g, path) == ClaimFrom(segs[1..], g, path[1..])
    ensures Shadowed(segs, g, path) <==> Shadowed(segs[1..], g, path[1..])
  {
    PrefixTail(path, segs);
    PrefixTail(segs, path);
    assert path == segs <==> path[1..] == segs[1..] by {
      assert path == [path[0]] + path[1..] && segs == [segs[0]] + segs[1..];
    }
  }

  lemma PrefixTail(a: seq<string>, b: seq<string>)
    requires a != [] && b != [] && a[0] == b[0]
    ensures a <= b <==> a[1..] <= b[1..]
  {
    assert a == [a[0]] + a[1..] && b == [b[0]] + b[1..];
    if a <= b {
      assert forall i :: 0 <= i < |a[1..]| ==> a[1..][i] == b[1..][i];
    }
    if a[1..] <= b[1..] {
      forall i | 0 <= i < |a|
        ensures a[i] == b[i]
      {
        if i > 0 { assert a[i] == a[1..][i - 1] && b[i] == b[1..][i - 1]; }
      }
    }
  }

  /** Where the group claims nothing, what was there stays, if only objects stood on its way and nothing in its
      shadow. */
  lemma {:induction false} PutKeeps(existing: Option<Node>, segs: seq<string>, g: FieldGroup, path: seq<string>)
    requires ClaimFrom(segs, g, path).None?
    requires forall q :: q <= segs && ClaimFrom(segs, g, q) == Some(ObjKind) ==>
      At(existing, q) in {None, Some(ObjKind)}
    requires Shadowed(segs, g, path) ==> At(existing, path).None?
    ensures At(Some(Put(existing, segs, g)), path) == At(existing, path)
    decreases |segs|
  {
    assert path != [];
    var props := PropsOf(existing);
    if segs == [] {
      assert !IsArray(g) ==> ClaimFrom(segs, g, []) == Some(ObjKind);
      assert !IsArray(g) ==> At(existing, []) in {None, Some(ObjKind)};
      var rules := Rules(g.fields, g.nullable);
      if path[0] in g.fields {
        assert Shadowed(segs, g, path);
        assert path[1..] != [];
        assert At(Some(rules[path[0]]), path[1..]) == None;
      } else {
        assert Lookup(props + rules, path[0]) == Lookup(props, path[0]);
      }
    } else {
      assert [] <= segs && ClaimFrom(segs, g, []) == Some(ObjKind);
      assert At(existing, []) in {None, Some(ObjKind)};
      if path[0] == segs[0] {
        ClaimTail(segs, g, path);
        var child := Lookup(props, segs[0]);
        forall q | q <= segs[1..] && ClaimFrom(segs[1..], g, q) == Some(ObjKind)
          ensures At(child, q) in {None, Some(ObjKind)}
        {
          var q' := [segs[0]] + q;
          assert q'[1..] == q;
          PrefixTail(q', segs);
          ClaimTail(segs, g, q');
        }
        PutKeeps(child, segs[1..], g, path[1..]);
      }
    }
  }

  // ---------- compatible groups ----------

  /** One-sided conflicts: an array over the other group, or a field rule where the other keeps an object. */
  predicate Undisturbed(g: FieldGroup, h: FieldGroup) {
    var s, t := Segments(g), Segments(h);
    && (IsArray(g) && s <= t ==> s == t && IsArray(h) && forall f :: f in h.fields ==> f in g.fields)
    && (forall f :: f in g.fields ==> !(s + [f] <= t))
    && (s == t && (exists f :: f in g.fields && f in h.fields) ==> g.nullable == h.nullable)
  }

  predicate Compatible(g: FieldGroup, h: FieldGroup) {
    Undisturbed(g, h) && Undisturbed(h, g)
  }

  ghost predicate AllCompatible(groups: seq<FieldGroup>) {
    forall g, h :: g in groups && h in groups ==> Compatible(g, h)
  }

  lemma Prefixes(a: seq<string>, b: seq<string>, c: seq<string>)
    requires a <= c && b <= c && |a| <= |b|
    ensures a <= b
  {
  }

  /** Compatible groups never claim different kinds for one path. */
  lemma ClaimsAgree(g: FieldGroup, h: FieldGroup, path: seq<string>)
    requires Compatible(g, h)
    requires Claim(g, path).Some? && Claim(h, path).Some?
    ensures Claim(g, path) == Claim(h, path)
  {
    var s, t := Segments(g), Segments(h);
    if path <= s && path <= t {
      if path == s && IsArray(g) { assert s <= t; }
      if path == t && IsArray(h) { assert t <= s; }
    } else if path <= s {
      FieldPath(t, path);
    } else if path <= t {
      FieldPath(s, path);
    } else {
      FieldPath(s, path);
      FieldPath(t, path);
      assert s == t;
    }
  }

  lemma FieldPath(s: seq<string>, path: seq<string>)
    requires |path| == |s| + 1 && s <= path
    ensures path == s + [path[|s|]] && s == path[..|s|]
  {
  }

  /** The schema says exactly what the groups claim. */
  ghost predicate Exact(root: Node, groups: seq<FieldGroup>) {
    && (forall path, g :: g in groups && Claim(g, path).Some? ==> At(Some(root), path) == Claim(g, path))
    && (forall path :: At(Some(root), path).Some? && path != [] ==>
      exists g :: g in groups && Claim(g, path) == At(Some(root), path))
  }

  lemma ShadowIsEmpty(root: Node, groups: seq<FieldGroup>, g: FieldGroup, path: seq<string>)
    requires Exact(root, groups)
    requires forall h :: h in groups ==> Compatible(h, g)
    requires Claim(g, path).None? && Shadowed(Segments(g), g, path)
    ensures At(Some(root), path).None?
  {
    if At(Some(root), path).Some? {
      assert path != [];
      var h :| h in groups && Claim(h, path) == At(Some(root), path);
      ShadowedClaim(g, h, path);
    }
  }

  /** Who claims a path in another group's shadow is not compatible with it. */
  lemma ShadowedClaim(g: FieldGroup, h: FieldGroup, path: seq<string>)
    requires Claim(g, path).None? && Shadowed(Segments(g), g, path)
    requires Claim(h, path).Some?
    ensures !Compatible(h, g)
  {
    var s, t := Segments(g), Segments(h);
    if !(path <= t) { FieldPath(t, path); }
    if s < path && path[|s|] in g.fields {
      var rule := s + [path[|s|]];
      assert rule <= path;
      if path <= t { Prefixes(rule, path, t); } else { Prefixes(rule, t, path); }
    } else if !(path <= t) {
      Prefixes(s, t, path);
    }
  }

  lemma ExactStep(root: Node, groups: seq<FieldGroup>, g: FieldGroup)
    requires Exact(root, groups) && root.Obj?
    requires forall h :: h in groups ==> Compatible(h, g)
    ensures Exact(Put(Some(root), Segments(g), g), groups + [g])
  {
    var next, all := Put(Some(root), Segments(g), g), groups + [g];
    forall path
      ensures At(Some(next), path) == if Claim(g, path).Some? then Claim(g, path) else At(Some(root), path)
    {
      if Claim(g, path).Some? {
        PutClaims(Some(root), Segments(g), g, path);
      } else {
        forall q | q <= Segments(g) && ClaimFrom(Segments(g), g, q) == Some(ObjKind)
          ensures At(Some(root), q) in {None, Some(ObjKind)}
        {
          if At(Some(root), q).Some? && q != [] {
            var h :| h in groups && Claim(h, q) == At(Some(root), q);
            ClaimsAgree(h, g, q);
          }
        }
        if Shadowed(Segments(g), g, path) { ShadowIsEmpty(root, groups, g, path); }
        PutKeeps(Some(root), Segments(g), g, path);
      }
    }
    forall path, h | h in all && Claim(h, path).Some?
      ensures At(Some(next), path) == Claim(h, path)
    {
      if h in groups && Claim(g, path).Some? { ClaimsAgree(h, g, path); }
    }
    forall path | At(Some(next), path).Some? && path != []
      ensures exists h :: h in all && Claim(h, path) == At(Some(next), path)
    {
      if Claim(g, path).Some? {
        assert g in all;
      } else {
        var h :| h in groups && Claim(h, path) == At(Some(root), path);
        assert h in all;
      }
    }
  }

  /** Main result: for compatible groups every registered prefix and field resolves to its rule, and there is nothing
      else. */
  lemma {:induction false} SchemaExact(groups: seq<FieldGroup>)
    requires AllCompatible(groups)
    ensures Exact(Schema(groups), groups)
  {
    if groups == [] {
      assert forall path :: path != [] ==> At(Some(Obj(map[])), path) == At(None, path[1..]);
    } else {
      var before, g := groups[..|groups| - 1], groups[|groups| - 1];
      SchemaExact(before);
      assert groups == before + [g];
      ExactStep(Schema(before), before, g);
    }
  }

  /** Schemas that agree on every path are the same. */
  lemma {:induction false} SameTree(n: Node, m: Node)
    requires forall path :: At(Some(n), path) == At(Some(m), path)
    ensures n == m
    decreases n
  {
    assert At(Some(n), []) == At(Some(m), []);
    var p, q := Children(n), Children(m);
    forall key: string
      ensures Lookup(p, key) == Lookup(q, key)
    {
      forall path
        ensures At(Lookup(p, key), path) == At(Lookup(q, key), path)
      {
        var longer := [key] + path;
        assert longer[1..] == path;
        assert At(Some(n), longer) == At(Some(m), longer);
      }
      assert At(Lookup(p, key), []) == At(Lookup(q, key), []);
      if key in p {
        SameTree(p[key], q[key]);
      }
    }
    assert forall key :: key in p ==> Lookup(p, key) == Lookup(q, key);
    assert forall key :: key in q ==> Lookup(p, key) == Lookup(q, key);
    assert p == q;
  }

  /** Main result: compatible groups give the same schema in every order. */
  lemma SchemaOrderIndependent(groups: seq<FieldGroup>, groups': seq<FieldGroup>)
    requires AllCompatible(groups)
    requires forall g :: g in groups <==> g in groups'
    ensures Schema(groups) == Schema(groups')
  {
    SchemaExact(groups);
    SchemaExact(groups');
    var n, m := Schema(groups), Schema(groups');
    forall path
      ensures At(Some(n), path) == At(Some(m), path)
    {
      if path != [] {
        if At(Some(n), path).Some? {
          var g :| g in groups && Claim(g, path) == At(Some(n), path);
          assert g in groups';
        }
        if At(Some(m), path).Some? {
          var g :| g in groups' && Claim(g, path) == At(Some(m), path);
          assert g in groups;
        }
      }
    }
    SameTree(n, m);
  }

  // ---------- compatibility is also necessary ----------

  /** Every group gets what it registers. */
  ghost predicate ResolvesAll(groups: seq<FieldGroup>) {
    forall g, path :: g in groups && Claim(g, path).Some? ==> At(Some(Schema(groups)), path) == Claim(g, path)
  }

  ghost predicate EveryOrderResolves(groups: seq<FieldGroup>) {
    forall gs :: multiset(gs) == multiset(groups) ==> ResolvesAll(gs)
  }

  lemma ClaimsMeet(groups: seq<FieldGroup>, g: FieldGroup, h: FieldGroup, path: seq<string>)
    requires ResolvesAll(groups) && g in groups && h in groups
    requires Claim(g, path).Some? && Claim(h, path).Some?
    ensures Claim(g, path) == Claim(h, path)
  {
  }

  /** An array group leaves under its prefix its own fields only. */
  lemma {:induction false} PutClears(existing: Option<Node>, segs: seq<string>, g: FieldGroup, f: string)
    requires IsArray(g) && f !in g.fields
    ensures At(Some(Put(existing, segs, g)), segs + [f]).None?
    decreases |segs|
  {
    if segs == [] {
      assert [f][1..] == [];
    } else {
      assert (segs + [f])[1..] == segs[1..] + [f];
      PutClears(Lookup(PropsOf(existing), segs[0]), segs[1..], g, f);
    }
  }

  lemma MoveLast(groups: seq<FieldGroup>, g: FieldGroup) returns (rest: seq<FieldGroup>)
    requires g in groups
    ensures multiset(rest + [g]) == multiset(groups)
    ensures forall h :: h in groups && h != g ==> h in rest
  {
    var i :| 0 <= i < |groups| && groups[i] == g;
    rest := groups[..i] + groups[i + 1..];
    assert groups == groups[..i] + [g] + groups[i + 1..];
  }

  lemma SharedArrayFields(groups: seq<FieldGroup>, g: FieldGroup, h: FieldGroup, f: string)
    requires EveryOrderResolves(groups) && g in groups && h in groups
    requires IsArray(g) && IsArray(h) && Segments(g) == Segments(h) && f in h.fields
    ensures f in g.fields
  {
    if f !in g.fields {
      var rest := MoveLast(groups, g);
      var gs, path := rest + [g], Segments(g) + [f];
      assert ResolvesAll(gs);
      assert gs[..|gs| - 1] == rest;
      assert h in gs;
      assert Claim(h, path) == Some(RuleKind(h.nullable));
      PutClears(Some(Schema(rest)), Segments(g), g, f);
    }
  }

  /** Main result: every order of the groups resolves every registration exactly when the groups are pairwise
      compatible. */
  lemma CompatibleExactly(groups: seq<FieldGroup>)
    ensures EveryOrderResolves(groups) <==> AllCompatible(groups)
  {
    if AllCompatible(groups) {
      forall gs | multiset(gs) == multiset(groups)
        ensures ResolvesAll(gs)
      {
        assert forall g :: g in gs ==> g in multiset(groups);
        SchemaExact(gs);
      }
    }
    if EveryOrderResolves(groups) {
      assert ResolvesAll(groups);
      forall g, h | g in groups && h in groups
        ensures Undisturbed(g, h)
      {
        OrdersForceUndisturbed(groups, g, h);
      }
    }
  }

  lemma RuleClaim(g: FieldGroup, f: string)
    requires f in g.fields
    ensures Claim(g, Segments(g) + [f]) == Some(RuleKind(g.nullable))
  {
  }

  /** Two groups that differ in nothing but whether their fields may be null: the later one decides. */
  lemma NullableDecides(g: FieldGroup, f: string)
    requires f in g.fields
    ensures var h, path := g.(nullable := !g.nullable), Segments(g) + [f];
      && At(Some(Schema([g] + [h])), path) == Some(RuleKind(h.nullable))
      && At(Some(Schema([h] + [g])), path) == Some(RuleKind(g.nullable))
      && !EveryOrderResolves([g] + [h])
  {
    var h, path := g.(nullable := !g.nullable), Segments(g) + [f];
    RuleClaim(g, f);
    RuleClaim(h, f);
    LastClaims([g], h, path);
    LastClaims([h], g, path);
    assert ([g] + [h])[0] == g && ([g] + [h])[1] == h;
    ClashBreaks([g] + [h], g, h, path);
  }

  /** Two groups that claim different kinds for one path cannot both have it. */
  lemma ClashBreaks(groups: seq<FieldGroup>, g: FieldGroup, h: FieldGroup, path: seq<string>)
    requires g in groups && h in groups
    requires Claim(g, path).Some? && Claim(h, path).Some? && Claim(g, path) != Claim(h, path)
    ensures !EveryOrderResolves(groups)
  {
    assert multiset(groups) == multiset(groups);
    assert !ResolvesAll(groups);
  }

  ghost predicate OrderFree(groups: seq<FieldGroup>) {
    forall gs :: multiset(gs) == multiset(groups) ==> Schema(gs) == Schema(groups)
  }

  /** Main result: the schema is the same for every order of the groups exactly when they are pairwise compatible. */
  lemma OrderFreeExactly(groups: seq<FieldGroup>)
    ensures OrderFree(groups) <==> AllCompatible(groups)
  {
    if AllCompatible(groups) {
      forall gs | multiset(gs) == multiset(groups)
        ensures Schema(gs) == Schema(groups)
      {
        assert forall g :: g in gs <==> g in multiset(gs);
        assert forall g :: g in groups <==> g in multiset(groups);
        SchemaOrderIndependent(groups, gs);
      }
    }
    if OrderFree(groups) {
      forall gs | multiset(gs) == multiset(groups)
        ensures ResolvesAll(gs)
      {
        OrderFreeResolves(groups, gs);
      }
      CompatibleExactly(groups);
    }
  }

  /** Any group might be the last one written. */
  lemma OrderFreeResolves(groups: seq<FieldGroup>, gs: seq<FieldGroup>)
    requires OrderFree(groups) && multiset(gs) == multiset(groups)
    ensures ResolvesAll(gs)
  {
    forall g, path | g in gs && Claim(g, path).Some?
      ensures At(Some(Schema(gs)), path) == Claim(g, path)
    {
      var rest := MoveLast(gs, g);
      LastClaims(rest, g, path);
      assert Schema(rest + [g]) == Schema(groups) && Schema(gs) == Schema(groups);
    }
  }

  lemma LastClaims(before: seq<FieldGroup>, g: FieldGroup, path: seq<string>)
    requires Claim(g, path).Some?
    ensures At(Some(Schema(before + [g])), path) == Claim(g, path)
  {
    var all := before + [g];
    assert all[..|all| - 1] == before && all[|all| - 1] == g;
    PutClaims(Some(Schema(before)), Segments(g), g, path);
  }

  lemma OrdersForceUndisturbed(groups: seq<FieldGroup>, g: FieldGroup, h: FieldGroup)
    requires EveryOrderResolves(groups) && ResolvesAll(groups) && g in groups && h in groups
    ensures Undisturbed(g, h)
  {
    var s, t := Segments(g), Segments(h);
    if IsArray(g) && s <= t {
      ClaimsMeet(groups, g, h, s);
      forall f | f in h.fields
        ensures f in g.fields
      {
        SharedArrayFields(groups, g, h, f);
      }
    }
    forall f | f in g.fields
      ensures !(s + [f] <= t)
    {
      if s + [f] <= t { ClaimsMeet(groups, g, h, s + [f]); }
    }
    if f :| s == t && f in g.fields && f in h.fields {
      ClaimsMeet(groups, g, h, s + [f]);
    }
  }
}
