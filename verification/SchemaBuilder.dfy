/** The builder as it runs: a cursor walks down mutable property tables and replaces nodes by copies. */
module SchemaBuilder {
  import opened Text
  import opened Wrappers
  import opened SchemaTree

  /** An entry of a property table; objects are shared by reference. */
  datatype Ref = RuleRef(nullable: bool) | ObjRef(props: Props) | ArrRef(fields: map<string, Node>)

  class Props {
    var entries: map<string, Ref>
    /** What the finished table stands for. */
    ghost var tree: map<string, Node>

    constructor (entries: map<string, Ref>, ghost tree: map<string, Node>)
      ensures this.entries == entries && this.tree == tree
    {
      this.entries := entries;
      this.tree := tree;
    }
  }

  ghost predicate Stands(r: Ref, n: Node)
    reads if r.ObjRef? then {r.props} else {}
  {
    match r
    case RuleRef(nullable) => n == Rule(nullable)
    case ObjRef(props) => n == Obj(props.tree)
    case ArrRef(fields) => n == Arr(fields)
  }

  /** The entries stand for `tree`, by tables of the region other than the root and `self`. */
  ghost predicate StandFor(entries: map<string, Ref>, tree: map<string, Node>, region: set<Props>, root: Props,
                           self: Props)
    reads region
  {
    && entries.Keys == tree.Keys
    && forall k :: k in entries ==>
         && (entries[k].ObjRef? ==> entries[k].props in region && entries[k].props != root && entries[k].props != self)
         && Stands(entries[k], tree[k])
  }

  ghost predicate Consistent(o: Props, region: set<Props>, root: Props)
    reads o, region
  {
    StandFor(o.entries, o.tree, region, root, o)
  }

  function RuleRefs(fields: seq<string>, nullable: bool): (r: map<string, Ref>)
    ensures forall f :: f in r <==> f in fields
    ensures forall f :: f in r ==> r[f] == RuleRef(nullable)
  {
    if fields == [] then map[]
    else RuleRefs(fields[..|fields| - 1], nullable)[fields[|fields| - 1] := RuleRef(nullable)]
  }

  /** The entries of `existing.properties`, empty unless the entry is an object. */
  function EntriesOf(entries: map<string, Ref>, segment: string): map<string, Ref>
    reads if segment in entries && entries[segment].ObjRef? then {entries[segment].props} else {}
  {
    if segment in entries && entries[segment].ObjRef? then entries[segment].props.entries else map[]
  }

  lemma ExistingStandsFor(cursor: Props, current: map<string, Node>, segment: string, region: set<Props>, root: Props,
                          next: Props)
    requires StandFor(cursor.entries, current, region, root, cursor)
    requires forall o :: o in region && o != cursor ==> Consistent(o, region, root)
    requires next !in region
    ensures StandFor(EntriesOf(cursor.entries, segment), PropsOf(Lookup(current, segment)), region, root, next)
  {
  }

  lemma StandForMore(entries: map<string, Ref>, tree: map<string, Node>, region: set<Props>, root: Props, self: Props,
                     more: set<Props>)
    requires StandFor(entries, tree, region, root, self)
    ensures StandFor(entries, tree, region + more, root, self)
  {
  }

  lemma StandForUpdate(entries: map<string, Ref>, tree: map<string, Node>, region: set<Props>, root: Props, self: Props,
                       segment: string, r: Ref, n: Node)
    requires StandFor(entries, tree, region, root, self) && Stands(r, n)
    requires r.ObjRef? ==> r.props in region && r.props != root && r.props != self
    ensures StandFor(entries[segment := r], tree[segment := n], region, root, self)
  {
  }

  lemma StandForRules(entries: map<string, Ref>, tree: map<string, Node>, region: set<Props>, root: Props, self: Props,
                      g: FieldGroup)
    requires StandFor(entries, tree, region, root, self)
    ensures StandFor(entries + RuleRefs(g.fields, g.nullable), tree + Rules(g.fields, g.nullable), region, root, self)
  {
  }

  lemma OthersMore(cursor: Props, region: set<Props>, root: Props, node: Props)
    requires forall o :: o in region && o != cursor ==> Consistent(o, region, root)
    ensures forall o :: o in region && o != cursor ==> Consistent(o, region + {node}, root)
  {
    forall o | o in region && o != cursor
      ensures Consistent(o, region + {node}, root)
    {
      StandForMore(o.entries, o.tree, region, root, o, {node});
    }
  }

  lemma PutOne(current: map<string, Node>, segment: string, g: FieldGroup)
    ensures Put(Some(Obj(current)), [segment], g) == Obj(current[segment := Put(Lookup(current, segment), [], g)])
  {
    assert [segment][1..] == [];
  }

  /** Every table but the cursor's is finished; writing the group along `segs` will finish the cursor's too. */
  ghost predicate Pending(cursor: Props, current: map<string, Node>, segs: seq<string>, g: FieldGroup,
                          region: set<Props>, root: Props)
    reads region, cursor
  {
    && cursor in region
    && (forall o :: o in region && o != cursor ==> Consistent(o, region, root))
    && StandFor(cursor.entries, current, region, root, cursor)
    && Put(Some(Obj(current)), segs, g) == Obj(cursor.tree)
  }

  /** An inner segment: put a copy of what exists there and move the cursor onto it. */
  method Descend(root: Props, cursor: Props, ghost current: map<string, Node>, ghost segs: seq<string>, segment: string,
                 g: FieldGroup, ghost region: set<Props>)
    returns (next: Props, ghost current': map<string, Node>)
    requires |segs| > 1 && segs[0] == segment && Pending(cursor, current, segs, g, region, root)
    modifies cursor`entries
    ensures fresh(next) && Pending(next, current', segs[1..], g, region + {next}, root)
  {
    var existing := EntriesOf(cursor.entries, segment);
    current' := PropsOf(Lookup(current, segment));
    next := new Props(existing, PropsOf(Some(Put(Lookup(current, segment), segs[1..], g))));
    ExistingStandsFor(cursor, current, segment, region, root, next);
    assert StandFor(next.entries, current', region + {next}, root, next);
    cursor.entries := cursor.entries[segment := ObjRef(next)];
    assert StandFor(cursor.entries, cursor.tree, region + {next}, root, cursor);
  }

  /** The last segment of an object group: a merged copy of what exists there. */
  method MergeLast(root: Props, cursor: Props, ghost current: map<string, Node>, segment: string,
                   g: FieldGroup, ghost region: set<Props>)
    returns (ghost merged: Props)
    requires !IsArray(g) && Pending(cursor, current, [segment], g, region, root)
    modifies cursor`entries
    ensures fresh(merged)
    ensures forall o :: o in region + {merged} ==> Consistent(o, region + {merged}, root)
  {
    var node := new Props(EntriesOf(cursor.entries, segment) + RuleRefs(g.fields, g.nullable),
                          PropsOf(Lookup(current, segment)) + Rules(g.fields, g.nullable));
    merged := node;
    ghost var region' := region + {node};
    PutOne(current, segment, g);
    ExistingStandsFor(cursor, current, segment, region, root, node);
    StandForRules(EntriesOf(cursor.entries, segment), PropsOf(Lookup(current, segment)), region, root, node, g);
    StandForMore(node.entries, node.tree, region, root, node, {node});
    StandForMore(cursor.entries, current, region, root, cursor, {node});
    StandForUpdate(cursor.entries, current, region', root, cursor, segment, ObjRef(node), Obj(node.tree));
    OthersMore(cursor, region, root, node);
    cursor.entries := cursor.entries[segment := ObjRef(node)];
  }

  /** The last segment: an array node replaces what was there, an object node takes its properties over. */
  method WriteLast(root: Props, cursor: Props, ghost current: map<string, Node>, segment: string,
                   g: FieldGroup, ghost region: set<Props>)
    returns (ghost region': set<Props>)
    requires g.prefix != "" && Pending(cursor, current, [segment], g, region, root)
    modifies cursor`entries
    ensures region <= region' && fresh(region' - region)
    ensures forall o :: o in region' ==> Consistent(o, region', root)
  {
    if g.isArray {
      region' := region;
      PutOne(current, segment, g);
      cursor.entries := cursor.entries[segment := ArrRef(Rules(g.fields, g.nullable))];
    } else {
      ghost var merged := MergeLast(root, cursor, current, segment, g, region);
      region' := region + {merged};
    }
  }

  /** The walk of the cursor from the root to the last segment. */
  method WriteAlong(root: Props, ghost start: map<string, Node>, segments: seq<string>, g: FieldGroup,
                    ghost region: set<Props>)
    returns (ghost region': set<Props>)
    requires segments != [] && g.prefix != "" && Pending(root, start, segments, g, region, root)
    modifies root`entries
    ensures region <= region' && fresh(region' - region)
    ensures forall o :: o in region' ==> Consistent(o, region', root)
  {
    region' := region;
    ghost var current := start;
    var cursor := root;
    var i := 0;
    assert segments[0..] == segments;
    while i < |segments| - 1
      invariant 0 <= i < |segments|
      invariant cursor == root || fresh(cursor)
      invariant region <= region' && fresh(region' - region)
      invariant Pending(cursor, current, segments[i..], g, region', root)
    {
      ghost var segs := segments[i..];
      assert segs[1..] == segments[i + 1..];
      cursor, current := Descend(root, cursor, current, segs, segments[i], g, region');
      region' := region' + {cursor};
      i := i + 1;
    }
    assert segments[i..] == [segments[i]];
    region' := WriteLast(root, cursor, current, segments[i], g, region');
  }

  /** A group without prefix: its rules go into the root's own table. */
  method AddTopLevel(root: Props, g: FieldGroup, ghost region: set<Props>)
    requires g.prefix == "" && root in region && forall o :: o in region ==> Consistent(o, region, root)
    modifies root
    ensures Put(Some(Obj(old(root.tree))), [], g) == Obj(root.tree)
    ensures forall o :: o in region ==> Consistent(o, region, root)
  {
    StandForRules(root.entries, root.tree, region, root, root, g);
    root.entries := root.entries + RuleRefs(g.fields, g.nullable);
    root.tree := root.tree + Rules(g.fields, g.nullable);
  }

  method AddGroup(root: Props, g: FieldGroup, ghost region: set<Props>) returns (ghost region': set<Props>)
    requires root in region && forall o :: o in region ==> Consistent(o, region, root)
    modifies root
    ensures Put(Some(Obj(old(root.tree))), Segments(g), g) == Obj(root.tree)
    ensures region <= region' && fresh(region' - region)
    ensures forall o :: o in region' ==> Consistent(o, region', root)
  {
    if g.prefix == "" {
      region' := region;
      AddTopLevel(root, g, region);
    } else {
      ghost var current := root.tree;
      root.tree := Put(Some(Obj(root.tree)), Segments(g), g).props;
      region' := WriteAlong(root, current, Split(g.prefix, {'.'}), g, region);
    }
  }

  /** Main result: the tables built by the cursor stand for the schema tree of the groups. */
  method BuildCollectionJsonSchema(groups: seq<FieldGroup>) returns (root: Props, ghost region: set<Props>)
    ensures root in region && Obj(root.tree) == Schema(groups)
    ensures forall o :: o in region ==> Consistent(o, region, root)
  {
    root := new Props(map[], map[]);
    region := {root};
    for k := 0 to |groups|
      invariant root in region && fresh(region) && Obj(root.tree) == Schema(groups[..k])
      invariant forall o :: o in region ==> Consistent(o, region, root)
    {
      assert groups[..k + 1][..k] == groups[..k];
      region := AddGroup(root, groups[k], region);
    }
    assert groups[..|groups|] == groups;
  }
}
