/** The materialised action classification of invoices, kept by save and update hooks (invoice.actionSeverity.ts). */
module ActionSeverity {

  /** Top-level fields of an invoice by name, and the stored pair of actionReason and actionSeverity. */
  datatype Doc<V, S> = Doc(fields: map<string, V>, stored: S)

  /** An update: the names that each operator writes (its keys, and for `$rename` the new names as well) and the keys
      that stand at its top level, or a pipeline, which is an array and has none of these keys. */
  datatype Update = Update(operators: map<string, seq<string>>, bare: set<string>) | Pipeline(written: set<string>)

  const INSPECTED: seq<string> := ["$set", "$unset", "$setOnInsert", "$push", "$pull", "$addToSet"]

  const STATUS := "status"
  const PARSED := "parsed"
  const EXPORT := "export"
  const COMPLIANCE := "compliance"

  const ROOTS: set<string> := {STATUS, PARSED, EXPORT, COMPLIANCE}

  const PATHS: seq<string> :=
    [STATUS, PARSED, PARSED + ['.'] + "currency", PARSED + ['.'] + "customerGstin",
     EXPORT, EXPORT + ['.'] + "error", COMPLIANCE, COMPLIANCE + ['.'] + "riskSignals"]

  const STORED_FIELDS: set<string> := {"actionReason", "actionSeverity"}

  // ---------- does an update touch the classification ----------

  predicate KeyMatches(key: string, path: string) {
    key == path || path + ['.'] <= key
  }

  ghost predicate KeyTouches(key: string) {
    exists p :: 0 <= p < |PATHS| && KeyMatches(key, PATHS[p])
  }

  ghost predicate AnyTouches(keys: seq<string>) {
    exists k :: 0 <= k < |keys| && KeyTouches(keys[k])
  }

  ghost predicate Touches(u: Update) {
    && u.Update?
    && ((exists o :: 0 <= o < |INSPECTED| && INSPECTED[o] in u.operators && AnyTouches(u.operators[INSPECTED[o]]))
        || (exists p :: 0 <= p < |PATHS| && PATHS[p] in u.bare))
  }

  method KeysTouch(keys: seq<string>) returns (touch: bool)
    ensures touch <==> AnyTouches(keys)
  {
    for k := 0 to |keys|
      invariant forall l :: 0 <= l < k ==> !KeyTouches(keys[l])
    {
      for p := 0 to |PATHS|
        invariant forall q :: 0 <= q < p ==> !KeyMatches(keys[k], PATHS[q])
      {
        if KeyMatches(keys[k], PATHS[p]) {
          assert KeyTouches(keys[k]);
          return true;
        }
      }
    }
    return false;
  }

  method UpdateTouchesClassification(u: Update) returns (touch: bool)
    ensures touch <==> Touches(u)
  {
    if u.Pipeline? {
      return false;
    }
    for o := 0 to |INSPECTED|
      invariant forall q :: 0 <= q < o && INSPECTED[q] in u.operators ==> !AnyTouches(u.operators[INSPECTED[q]])
    {
      if INSPECTED[o] in u.operators {
        var found := KeysTouch(u.operators[INSPECTED[o]]);
        if found {
          return true;
        }
      }
    }
    for p := 0 to |PATHS|
      invariant forall q :: 0 <= q < p ==> PATHS[q] !in u.bare
    {
      if PATHS[p] in u.bare {
        return true;
      }
    }
    return false;
  }

  /** The top-level field a dotted key writes to. */
  function Root(key: string): string {
    if key == "" || key[0] == '.' then "" else [key[0]] + Root(key[1..])
  }

  lemma {:induction false} RootOf(key: string, root: string)
    requires forall i :: 0 <= i < |root| ==> root[i] != '.'
    ensures Root(key) == root <==> KeyMatches(key, root)
  {
    if root == "" {
      assert Root(key) == "" <==> key == "" || key[0] == '.';
      assert "" + ['.'] == ['.'];
    } else if key != "" && key[0] == root[0] {
      RootOf(key[1..], root[1..]);
      var rest := root[1..];
      assert root == [root[0]] + rest && key == [key[0]] + key[1..];
      assert root + ['.'] == [root[0]] + (rest + ['.']);
      PrefixTail(rest + ['.'], key[1..], root[0]);
    } else {
      assert (root + ['.'])[0] == root[0];
    }
  }

  lemma PrefixTail(a: string, b: string, c: char)
    ensures [c] + a <= [c] + b <==> a <= b
  {
    assert ([c] + a)[1..] == a && ([c] + b)[1..] == b;
    if a <= b {
      assert b == a + b[|a|..];
      assert [c] + b == [c] + a + b[|a|..];
    }
  }

  lemma RootsAreFlat()
    ensures forall r :: r in ROOTS ==> forall i :: 0 <= i < |r| ==> r[i] != '.'
  {
  }

  /** Every path is a root or lies below one. */
  lemma PathsHaveRoots(p: nat)
    requires p < |PATHS|
    ensures exists r :: r in ROOTS && (PATHS[p] == r || r + ['.'] <= PATHS[p])
  {
    var r := if p == 0 then STATUS else if p <= 3 then PARSED else if p <= 5 then EXPORT else COMPLIANCE;
    assert r in ROOTS;
  }

  lemma RootsArePaths(r: string)
    requires r in ROOTS
    ensures exists p :: 0 <= p < |PATHS| && PATHS[p] == r
  {
    assert PATHS[0] == STATUS && PATHS[1] == PARSED && PATHS[4] == EXPORT && PATHS[6] == COMPLIANCE;
  }

  /** Main result of the key search: a key is inspected exactly when its top-level field feeds the classifier. */
  lemma KeyTouchesExactly(key: string)
    ensures KeyTouches(key) <==> Root(key) in ROOTS
  {
    RootsAreFlat();
    if p :| 0 <= p < |PATHS| && KeyMatches(key, PATHS[p]) {
      PathsHaveRoots(p);
      var r :| r in ROOTS && (PATHS[p] == r || r + ['.'] <= PATHS[p]);
      MatchesAbove(key, PATHS[p], r);
      RootOf(key, r);
    }
    if Root(key) in ROOTS {
      RootsArePaths(Root(key));
      RootOf(key, Root(key));
    }
  }

  lemma MatchesAbove(key: string, path: string, r: string)
    requires KeyMatches(key, path) && (path == r || r + ['.'] <= path)
    ensures KeyMatches(key, r)
  {
  }

  // ---------- the hooks ----------

  /** The fields the classifier reads. */
  function Inputs<V, S>(d: Doc<V, S>): map<string, V> {
    map f | f in d.fields && f in ROOTS :: d.fields[f]
  }

  function Classified<V, S>(classify: map<string, V> -> S, d: Doc<V, S>): Doc<V, S> {
    d.(stored := classify(Inputs(d)))
  }

  /** The collection after the hook of an update that left the documents `changed`. */
  ghost function AfterUpdate<V, S>(classify: map<string, V> -> S, u: Update, filter: Doc<V, S> -> bool,
                                   changed: map<nat, Doc<V, S>>)
    : map<nat, Doc<V, S>>
  {
    if !Touches(u) then changed
    else map id | id in changed :: if filter(changed[id]) then Classified(classify, changed[id]) else changed[id]
  }

  class Invoices<V(==), S(==)> {
    var docs: map<nat, Doc<V, S>>

    method Save(classify: map<string, V> -> S, id: nat, fields: map<string, V>, stored: S)
      modifies this
      ensures docs == old(docs)[id := Classified(classify, Doc(fields, stored))]
    {
      var doc := Doc(fields, stored);
      docs := docs[id := doc.(stored := classify(Inputs(doc)))];
    }

    /** The post hook: refresh every document the filter still finds, where it is stale. */
    method PostUpdate(classify: map<string, V> -> S, u: Update, filter: Doc<V, S> -> bool)
      modifies this
      ensures docs == AfterUpdate(classify, u, filter, old(docs))
    {
      var touch := UpdateTouchesClassification(u);
      if !touch {
        return;
      }
      var found := set id | id in docs && filter(docs[id]);
      ghost var all := found;
      while found != {}
        invariant found <= all && docs.Keys == old(docs).Keys
        invariant forall id :: id in docs ==>
          docs[id] == if id in all && id !in found then Classified(classify, old(docs)[id]) else old(docs)[id]
        decreases found
      {
        var id :| id in found;
        var fields := classify(Inputs(docs[id]));
        if docs[id].stored != fields {
          docs := docs[id := docs[id].(stored := fields)];
        }
        found := found - {id};
      }
    }
  }

  // ---------- when the stored classification stays right ----------

  ghost predicate Consistent<V, S>(classify: map<string, V> -> S, docs: map<nat, Doc<V, S>>) {
    forall id :: id in docs ==> docs[id].stored == classify(Inputs(docs[id]))
  }

  /** The update names something in the top-level field. */
  ghost predicate Names(u: Update, field: string) {
    match u
    case Update(operators, bare) =>
      || (exists o, k :: o in operators && k in operators[o] && Root(k) == field)
      || (exists k :: k in bare && Root(k) == field)
    case Pipeline(written) => exists k :: k in written && Root(k) == field
  }

  /** ... and writes it in documents that are already there. */
  ghost predicate Writes(u: Update, field: string) {
    match u
    case Update(operators, bare) =>
      || (exists o, k :: o in operators && o != "$setOnInsert" && k in operators[o] && Root(k) == field)
      || (exists k :: k in bare && Root(k) == field)
    case Pipeline(written) => exists k :: k in written && Root(k) == field
  }

  ghost predicate WritesClassified(u: Update) {
    exists f :: f in ROOTS + STORED_FIELDS && Writes(u, f)
  }

  ghost predicate SameField<V, S>(before: Doc<V, S>, after: Doc<V, S>, f: string) {
    (f in before.fields <==> f in after.fields) && (f in before.fields ==> before.fields[f] == after.fields[f])
  }

  /** `after` differs from `before` only where the update writes. */
  ghost predicate Respects<V, S>(u: Update, before: Doc<V, S>, after: Doc<V, S>) {
    && (forall f :: !Writes(u, f) ==> SameField(before, after, f))
    && ((forall f :: f in STORED_FIELDS ==> !Writes(u, f)) ==> before.stored == after.stored)
  }

  /** An update as the database runs it: the documents it selects, what it may make of one of them, and the documents
      that it may insert when it selects none (without upsert, no document). */
  datatype Operation<!V, !S> = Operation(
    u: Update, filter: Doc<V, S> -> bool, effect: (Doc<V, S>, Doc<V, S>) -> bool, inserts: Doc<V, S> -> bool)

  /** The database's part of an update: only selected documents change. */
  ghost predicate Updated<V, S>(op: Operation<V, S>, docs: map<nat, Doc<V, S>>, changed: map<nat, Doc<V, S>>) {
    && docs.Keys <= changed.Keys
    && (forall id :: id in docs && changed[id] != docs[id] ==> op.filter(docs[id]) && op.effect(docs[id], changed[id]))
    && (forall id :: id in changed && id !in docs ==> op.inserts(changed[id]) && NoneSelected(op, docs))
  }

  ghost predicate NoneSelected<V, S>(op: Operation<V, S>, docs: map<nat, Doc<V, S>>) {
    forall id :: id in docs ==> !op.filter(docs[id])
  }

  ghost predicate Differs<V, S>(before: Doc<V, S>, after: Doc<V, S>) {
    Inputs(before) != Inputs(after) || before.stored != after.stored
  }

  /** The hook looks at the update and then finds the document by the same filter. */
  ghost predicate Refreshed<V, S>(op: Operation<V, S>, d: Doc<V, S>) {
    Touches(op.u) && op.filter(d)
  }

  /** What the update changes in a classified field is still selected by its filter afterwards. */
  ghost predicate Survives<V(!new), S(!new)>(op: Operation<V, S>) {
    forall before, after :: op.filter(before) && op.effect(before, after) && Differs(before, after) ==> op.filter(after)
  }

  /** The update changes no classified field of a document that it selects. */
  ghost predicate Harmless<V(!new), S(!new)>(op: Operation<V, S>) {
    forall before, after :: op.filter(before) && op.effect(before, after) ==> !Differs(before, after)
  }

  ghost predicate InsertsFound<V(!new), S(!new)>(op: Operation<V, S>) {
    forall d :: op.inserts(d) ==> op.filter(d)
  }

  ghost predicate InsertsNothing<V(!new), S(!new)>(op: Operation<V, S>) {
    forall d :: !op.inserts(d)
  }

  /** An inspected update must leave its documents within its filter; one that is not must leave them alone. */
  ghost predicate Covered<V(!new), S(!new)>(op: Operation<V, S>) {
    if Touches(op.u) then Survives(op) && InsertsFound(op) else Harmless(op) && InsertsNothing(op)
  }

  // ---------- under one classifier ----------

  ghost predicate Right<V, S>(classify: map<string, V> -> S, d: Doc<V, S>) {
    d.stored == classify(Inputs(d))
  }

  /** No collection goes wrong by the update. */
  ghost predicate KeepsUnder<V(!new), S(!new)>(classify: map<string, V> -> S, op: Operation<V, S>) {
    forall docs: map<nat, Doc<V, S>>, changed: map<nat, Doc<V, S>> ::
      Consistent(classify, docs) && Updated(op, docs, changed) ==>
      Consistent(classify, AfterUpdate(classify, op.u, op.filter, changed))
  }

  /** Inserted documents that the hook misses are right as they are. */
  ghost predicate InsertsRight<V(!new), S(!new)>(classify: map<string, V> -> S, op: Operation<V, S>) {
    forall d :: op.inserts(d) && !Refreshed(op, d) ==> Right(classify, d)
  }

  /** Selected documents that the hook misses afterwards stay right. */
  ghost predicate ChangesRight<V(!new), S(!new)>(classify: map<string, V> -> S, op: Operation<V, S>) {
    forall before, after ::
      Right(classify, before) && op.filter(before) && op.effect(before, after) && !Refreshed(op, after) ==>
      Right(classify, after)
  }

  /** Main result: under a given classifier an update keeps every collection right if and only if what the hook misses
      is right without it. */
  lemma KeepsUnderExactly<V(!new), S(!new)>(classify: map<string, V> -> S, op: Operation<V, S>)
    ensures KeepsUnder(classify, op) <==> InsertsRight(classify, op) && ChangesRight(classify, op)
  {
    if InsertsRight(classify, op) && ChangesRight(classify, op) {
      forall docs: map<nat, Doc<V, S>>, changed: map<nat, Doc<V, S>>
        | Consistent(classify, docs) && Updated(op, docs, changed)
        ensures Consistent(classify, AfterUpdate(classify, op.u, op.filter, changed))
      {
        MissedRightKeeps(classify, op, docs, changed);
      }
    }
    if KeepsUnder(classify, op) {
      forall d | op.inserts(d) && !Refreshed(op, d)
        ensures Right(classify, d)
      {
        OneInserted(classify, op, d);
      }
      forall before, after
        | Right(classify, before) && op.filter(before) && op.effect(before, after) && !Refreshed(op, after)
        ensures Right(classify, after)
      {
        OneChanged(classify, op, before, after);
      }
    }
  }

  lemma MissedRightKeeps<V(!new), S(!new)>(classify: map<string, V> -> S, op: Operation<V, S>,
                                           docs: map<nat, Doc<V, S>>,
                                           changed: map<nat, Doc<V, S>>)
    requires InsertsRight(classify, op) && ChangesRight(classify, op)
    requires Consistent(classify, docs) && Updated(op, docs, changed)
    ensures Consistent(classify, AfterUpdate(classify, op.u, op.filter, changed))
  {
    forall id | id in changed
      ensures Right(classify, AfterUpdate(classify, op.u, op.filter, changed)[id])
    {
      if Refreshed(op, changed[id]) {
        RightAgain(classify, changed[id]);
      } else if id in docs && changed[id] != docs[id] {
        assert Right(classify, docs[id]);
      }
    }
  }

  lemma OneInserted<V(!new), S(!new)>(classify: map<string, V> -> S, op: Operation<V, S>, d: Doc<V, S>)
    requires KeepsUnder(classify, op) && op.inserts(d) && !Refreshed(op, d)
    ensures Right(classify, d)
  {
    var docs: map<nat, Doc<V, S>>, changed: map<nat, Doc<V, S>> := map[], map[0 := d];
    assert Consistent(classify, docs) && Updated(op, docs, changed);
    assert AfterUpdate(classify, op.u, op.filter, changed)[0] == d;
  }

  lemma OneChanged<V(!new), S(!new)>(classify: map<string, V> -> S, op: Operation<V, S>, before: Doc<V, S>,
                                     after: Doc<V, S>)
    requires KeepsUnder(classify, op)
    requires Right(classify, before) && op.filter(before) && op.effect(before, after) && !Refreshed(op, after)
    ensures Right(classify, after)
  {
    var docs: map<nat, Doc<V, S>>, changed: map<nat, Doc<V, S>> := map[0 := before], map[0 := after];
    assert Consistent(classify, docs) && Updated(op, docs, changed);
    assert AfterUpdate(classify, op.u, op.filter, changed)[0] == after;
  }

  // ---------- under every classifier ----------

  /** No collection goes wrong by the update, whatever the classifier. */
  ghost predicate AlwaysKeeps(op: Operation<string, int>) {
    forall classify: map<string, string> -> int :: KeepsUnder(classify, op)
  }

  /** Main result: an update keeps every collection right under every classifier if and only if it is covered. */
  lemma KeepsExactly(op: Operation<string, int>)
    ensures AlwaysKeeps(op) <==> Covered(op)
  {
    if Covered(op) {
      forall classify: map<string, string> -> int
        ensures KeepsUnder(classify, op)
      {
        CoveredKeeps(classify, op);
      }
    } else if d :| op.inserts(d) && !Refreshed(op, d) {
      MissedInsertBreaks(op, d);
    } else {
      var before, after :|
        op.filter(before) && op.effect(before, after) && Differs(before, after) && !Refreshed(op, after);
      MissedChangeBreaks(op, before, after);
    }
  }

  lemma CoveredKeeps<V(!new), S(!new)>(classify: map<string, V> -> S, op: Operation<V, S>)
    requires Covered(op)
    ensures KeepsUnder(classify, op)
  {
    KeepsUnderExactly(classify, op);
  }

  lemma MissedInsertBreaks(op: Operation<string, int>, d: Doc<string, int>)
    requires op.inserts(d) && !Refreshed(op, d)
    ensures !AlwaysKeeps(op)
  {
    var classify := (m: map<string, string>) => d.stored + 1;
    KeepsUnderExactly(classify, op);
    assert !Right(classify, d);
  }

  lemma MissedChangeBreaks(op: Operation<string, int>, before: Doc<string, int>, after: Doc<string, int>)
    requires op.filter(before) && op.effect(before, after) && Differs(before, after) && !Refreshed(op, after)
    ensures !AlwaysKeeps(op)
  {
    var was, s := Inputs(before), before.stored;
    var classify := (m: map<string, string>) => if m == was then s else after.stored + 1;
    KeepsUnderExactly(classify, op);
    assert Right(classify, before) && !Right(classify, after);
  }

  // ---------- what the keys and the filter tell ----------

  ghost predicate Somewhere<V(!new), S(!new)>(filter: Doc<V, S> -> bool) {
    exists d :: filter(d)
  }

  /** The operation that may do whatever the keys of the update allow. */
  ghost function KeysOnly<V, S>(u: Update, filter: Doc<V, S> -> bool): Operation<V, S> {
    Operation(u, filter, (before, after) => Respects(u, before, after), d => false)
  }

  lemma UntouchedInputs<V, S>(u: Update, before: Doc<V, S>, after: Doc<V, S>)
    requires Respects(u, before, after) && !WritesClassified(u)
    ensures !Differs(before, after)
  {
    assert forall f :: f in ROOTS || f in STORED_FIELDS ==> f in ROOTS + STORED_FIELDS && !Writes(u, f);
    assert forall f :: f in ROOTS ==> SameField(before, after, f);
  }

  /** An update that is not inspected is safe under every classifier exactly if it writes no classified field or selects
      nothing. */
  lemma UninspectedExactly(u: Update, filter: Doc<string, int> -> bool)
    requires !Touches(u)
    ensures AlwaysKeeps(KeysOnly(u, filter)) <==> !WritesClassified(u) || !Somewhere(filter)
  {
    var op := KeysOnly(u, filter);
    KeepsExactly(op);
    if WritesClassified(u) {
      if before :| filter(before) { WrittenMayDiffer(u, before); }
    } else {
      forall before, after | op.effect(before, after)
        ensures !Differs(before, after)
      {
        UntouchedInputs(u, before, after);
      }
    }
  }

  lemma WrittenMayDiffer(u: Update, before: Doc<string, int>)
    requires WritesClassified(u)
    ensures exists after :: Respects(u, before, after) && Differs(before, after)
  {
    var f :| f in ROOTS + STORED_FIELDS && Writes(u, f);
    if f in ROOTS {
      var value := if f in before.fields then before.fields[f] + "?" else "";
      assert f in before.fields ==> |value| == |before.fields[f]| + 1;
      RootMayDiffer(u, before, f, value);
    } else {
      var after := before.(stored := before.stored + 1);
      assert Respects(u, before, after) && Differs(before, after);
    }
  }

  lemma RootMayDiffer(u: Update, before: Doc<string, int>, f: string, value: string)
    requires f in ROOTS && Writes(u, f) && (f in before.fields ==> before.fields[f] != value)
    ensures exists after :: Respects(u, before, after) && Differs(before, after)
  {
    var after := before.(fields := before.fields[f := value]);
    assert Inputs(after)[f] == value && (f in Inputs(before) ==> Inputs(before)[f] != value);
    assert Respects(u, before, after) && Differs(before, after);
  }

  /** Main result: an inspected update without upsert is safe under every classifier exactly if its filter survives
      it. */
  lemma InspectedExactly(u: Update, filter: Doc<string, int> -> bool)
    requires Touches(u)
    ensures AlwaysKeeps(KeysOnly(u, filter)) <==>
      forall before, after :: Respects(u, before, after) && filter(before) && Differs(before, after) ==> filter(after)
  {
    KeepsExactly(KeysOnly(u, filter));
  }

  /** The filter reads none of the fields that the update writes, such as one by identifier. */
  ghost predicate ReadsElsewhere<V(!new), S(!new)>(u: Update, filter: Doc<V, S> -> bool) {
    forall d, e :: (forall f :: !Writes(u, f) ==> SameField(d, e, f)) ==> filter(d) == filter(e)
  }

  /** ... and then it survives. */
  lemma FilterElsewhereSurvives<V(!new), S(!new)>(op: Operation<V, S>)
    requires forall before, after :: op.effect(before, after) ==> Respects(op.u, before, after)
    requires ReadsElsewhere(op.u, op.filter)
    ensures Survives(op)
  {
  }

  /** Select by status and something else, write a new status. */
  ghost function StatusMove<V, S>(u: Update, also: Doc<V, S> -> bool, from: set<V>, to: V): Operation<V, S> {
    Operation(u, (d: Doc<V, S>) => STATUS in d.fields && d.fields[STATUS] in from && also(d),
              (before: Doc<V, S>, after: Doc<V, S>) =>
                Respects(u, before, after) && STATUS in after.fields && after.fields[STATUS] == to,
              d => false)
  }

  /** Main result: an update that selects by status, and by fields it leaves alone, and writes a status keeps the
      classification under every classifier exactly if the new status is one of those selected, or nothing is
      selected. */
  lemma StatusMoveExactly(u: Update, also: Doc<string, int> -> bool, from: set<string>, to: string)
    requires u.Update? && "$set" in u.operators && STATUS in u.operators["$set"] && ReadsElsewhere(u, also)
    ensures AlwaysKeeps(StatusMove(u, also, from, to)) <==>
      to in from || !Somewhere(StatusMove(u, also, from, to).filter)
  {
    var op := StatusMove(u, also, from, to);
    KeepsExactly(op);
    StatusTouches(u);
    if to !in from {
      if d :| op.filter(d) { StatusLost(u, also, from, to, d); }
    }
  }

  lemma StatusWritten(u: Update, o: string)
    requires u.Update? && o in u.operators && o != "$setOnInsert" && STATUS in u.operators[o]
    ensures Writes(u, STATUS)
  {
    RootsAreFlat();
    RootOf(STATUS, STATUS);
  }

  lemma StatusLost(u: Update, also: Doc<string, int> -> bool, from: set<string>, to: string, before: Doc<string, int>)
    requires u.Update? && "$set" in u.operators && STATUS in u.operators["$set"]
    requires StatusMove(u, also, from, to).filter(before) && to !in from
    ensures !Survives(StatusMove(u, also, from, to))
  {
    var op := StatusMove(u, also, from, to);
    var after := before.(fields := before.fields[STATUS := to]);
    StatusWritten(u, "$set");
    assert Respects(u, before, after) by {
      assert forall f :: f != STATUS ==> SameField(before, after, f);
    }
    assert Inputs(before)[STATUS] != Inputs(after)[STATUS];
    assert op.filter(before) && op.effect(before, after) && Differs(before, after) && !op.filter(after);
  }

  /** The bulk approval of parsed invoices, once it selects any, leaves a stale classification under some classifier. */
  lemma ApprovalBreaks(u: Update, also: Doc<string, int> -> bool)
    requires u.Update? && "$set" in u.operators && STATUS in u.operators["$set"] && ReadsElsewhere(u, also)
    requires Somewhere(StatusMove(u, also, {"PARSED", "NEEDS_REVIEW"}, "APPROVED").filter)
    ensures Touches(u) && !AlwaysKeeps(StatusMove(u, also, {"PARSED", "NEEDS_REVIEW"}, "APPROVED"))
  {
    StatusTouches(u);
    var from, to := {"PARSED", "NEEDS_REVIEW"}, "APPROVED";
    assert to[0] == 'A' && "PARSED"[0] == 'P' && "NEEDS_REVIEW"[0] == 'N';
    StatusMoveExactly(u, also, from, to);
  }

  /** Of the classified fields the update writes the status and no other. */
  ghost predicate WritesStatusOnly(u: Update) {
    && u.Update? && "$set" in u.operators && STATUS in u.operators["$set"]
    && forall f :: f in ROOTS + STORED_FIELDS && f != STATUS ==> !Writes(u, f)
  }

  lemma StatusMoved<V(!new), S(!new)>(u: Update, before: Doc<V, S>, after: Doc<V, S>, to: V)
    requires WritesStatusOnly(u) && Respects(u, before, after) && STATUS in after.fields && after.fields[STATUS] == to
    ensures Inputs(after) == Inputs(before)[STATUS := to] && after.stored == before.stored
  {
    assert forall f :: f in ROOTS && f != STATUS ==> SameField(before, after, f);
    assert forall f :: f in STORED_FIELDS ==> f != STATUS by {
      assert |STATUS| == 6 && |"actionReason"| == 12 && |"actionSeverity"| == 14;
    }
  }

  /** Setting the status of a selected document whose stored pair is right. */
  lemma MoveOf<V(!new), S(!new)>(classify: map<string, V> -> S, u: Update, also: Doc<V, S> -> bool, from: set<V>, to: V,
                                 d: Doc<V, S>)
    returns (before: Doc<V, S>, after: Doc<V, S>)
    requires WritesStatusOnly(u) && ReadsElsewhere(u, also) && StatusMove(u, also, from, to).filter(d)
    ensures Right(classify, before) && Inputs(before) == Inputs(d)
    ensures StatusMove(u, also, from, to).filter(before) && StatusMove(u, also, from, to).effect(before, after)
  {
    before := d.(stored := classify(Inputs(d)));
    after := before.(fields := before.fields[STATUS := to]);
    assert forall f :: SameField(d, before, f);
    assert also(before) == also(d);
    StatusWritten(u, "$set");
    assert forall f :: f != STATUS ==> SameField(before, after, f);
    assert Respects(u, before, after);
  }

  /** Main result: under a given classifier such an update, where it takes documents out of its filter, is safe exactly
      if the new status changes the classification of no document that it selects. */
  lemma StatusMoveUnder<V(!new), S(!new)>(classify: map<string, V> -> S, u: Update, also: Doc<V, S> -> bool,
                                          from: set<V>, to: V)
    requires WritesStatusOnly(u) && ReadsElsewhere(u, also) && to !in from
    ensures KeepsUnder(classify, StatusMove(u, also, from, to)) <==>
      forall d :: StatusMove(u, also, from, to).filter(d) ==> classify(Inputs(d)) == classify(Inputs(d)[STATUS := to])
  {
    var op := StatusMove(u, also, from, to);
    KeepsUnderExactly(classify, op);
    if ChangesRight(classify, op) {
      forall d | op.filter(d)
        ensures classify(Inputs(d)) == classify(Inputs(d)[STATUS := to])
      {
        var before, after := MoveOf(classify, u, also, from, to, d);
        StatusMoved(u, before, after, to);
        assert !Refreshed(op, after) && Right(classify, after);
      }
    }
    forall before, after | Right(classify, before) && op.filter(before) && op.effect(before, after)
      ensures Inputs(after) == Inputs(before)[STATUS := to] && after.stored == before.stored
    {
      StatusMoved(u, before, after, to);
    }
  }

  /** Within its filter such an update is safe under every classifier. */
  lemma StatusMoveWithin<V(!new), S(!new)>(classify: map<string, V> -> S, u: Update, also: Doc<V, S> -> bool,
                                           from: set<V>, to: V)
    requires WritesStatusOnly(u) && ReadsElsewhere(u, also) && to in from
    ensures KeepsUnder(classify, StatusMove(u, also, from, to))
  {
    var op := StatusMove(u, also, from, to);
    StatusTouches(u);
    forall before, after | op.filter(before) && op.effect(before, after)
      ensures op.filter(after)
    {
      assert also(before) == also(after);
    }
    CoveredKeeps(classify, op);
  }

  lemma StatusTouches(u: Update)
    requires u.Update? && "$set" in u.operators && STATUS in u.operators["$set"]
    ensures Touches(u)
  {
    var keys := u.operators["$set"];
    var k :| 0 <= k < |keys| && keys[k] == STATUS;
    assert KeyMatches(keys[k], PATHS[0]);
    assert KeyTouches(keys[k]) && AnyTouches(keys) && INSPECTED[0] == "$set";
  }

  lemma RenameIsNotInspected(names: seq<string>)
    ensures !Touches(Update(map["$rename" := names], {}))
  {
    assert |"$rename"| == 7;
    assert forall o :: 0 <= o < |INSPECTED| ==> |INSPECTED[o]| != 7;
  }

  /** A rename onto a classified field is not inspected, and breaks under some classifier. */
  lemma RenameBreaks(source: string, filter: Doc<string, int> -> bool)
    requires Somewhere(filter)
    ensures !AlwaysKeeps(KeysOnly(Update(map["$rename" := [source, STATUS]], {}), filter))
  {
    var names := [source, STATUS];
    var u := Update(map["$rename" := names], {});
    assert names[1] == STATUS;
    assert |"$rename"| == 7;
    StatusWritten(u, "$rename");
    assert STATUS in ROOTS + STORED_FIELDS;
    RenameIsNotInspected(names);
    UninspectedExactly(u, filter);
  }

  /** Updates that use the six inspected operators only are inspected as soon as they write a classified field. */
  lemma SixOperatorsInspected(u: Update)
    requires u.Update? && u.bare == {} && forall o :: o in u.operators ==> o in INSPECTED
    ensures Touches(u) <==> exists f :: f in ROOTS && Names(u, f)
  {
    if Touches(u) {
      var o :| 0 <= o < |INSPECTED| && INSPECTED[o] in u.operators && AnyTouches(u.operators[INSPECTED[o]]);
      var keys := u.operators[INSPECTED[o]];
      var k :| 0 <= k < |keys| && KeyTouches(keys[k]);
      KeyTouchesExactly(keys[k]);
      assert keys[k] in keys;
      assert Names(u, Root(keys[k]));
    }
    if f :| f in ROOTS && Names(u, f) {
      var o, key :| o in u.operators && key in u.operators[o] && Root(key) == f;
      KeyTouchesExactly(key);
      var i :| 0 <= i < |INSPECTED| && INSPECTED[i] == o;
      var k :| 0 <= k < |u.operators[o]| && u.operators[o][k] == key;
      assert AnyTouches(u.operators[o]);
    }
  }

  /** The hook's own update. */
  const REFRESH: Update := Update(map["$set" := ["actionReason", "actionSeverity"]], {})

  lemma NoRootBeginsWithA(key: string)
    requires key != "" && key[0] == 'a'
    ensures !KeyTouches(key)
  {
    KeyTouchesExactly(key);
    assert Root(key)[0] == 'a';
    assert STATUS[0] == 's' && PARSED[0] == 'p' && EXPORT[0] == 'e' && COMPLIANCE[0] == 'c';
  }

  /** Main result: the hook's own refresh triggers no second refresh. */
  lemma RefreshIsNotInspected<V, S>(classify: map<string, V> -> S, filter: Doc<V, S> -> bool, docs: map<nat, Doc<V, S>>)
    ensures !Touches(REFRESH) && AfterUpdate(classify, REFRESH, filter, docs) == docs
  {
    var keys := ["actionReason", "actionSeverity"];
    forall k | 0 <= k < |keys|
      ensures !KeyTouches(keys[k])
    {
      NoRootBeginsWithA(keys[k]);
    }
    assert !AnyTouches(keys);
    assert forall o :: o in REFRESH.operators ==> REFRESH.operators[o] == keys;
  }

  // ---------- runs ----------

  datatype Event<!V, !S> =
    | Saved(id: nat, fields: map<string, V>, stored: S)
    | HookedUpdate(op: Operation<V, S>, changed: map<nat, Doc<V, S>>)
    | Removed(id: nat)

  ghost predicate Allowed<V, S>(docs: map<nat, Doc<V, S>>, e: Event<V, S>) {
    e.HookedUpdate? ==> Updated(e.op, docs, e.changed)
  }

  ghost function Next<V, S>(classify: map<string, V> -> S, docs: map<nat, Doc<V, S>>, e: Event<V, S>)
    : map<nat, Doc<V, S>>
  {
    match e
    case Saved(id, fields, stored) => docs[id := Classified(classify, Doc(fields, stored))]
    case HookedUpdate(op, changed) => AfterUpdate(classify, op.u, op.filter, changed)
    case Removed(id) => docs - {id}
  }

  /** The documents that the hook missed: changed or added outside its reach, and neither saved nor refreshed since. */
  ghost function Missed<V, S>(docs: map<nat, Doc<V, S>>, missed: set<nat>, e: Event<V, S>): set<nat> {
    match e
    case Saved(id, _, _) => missed - {id}
    case HookedUpdate(op, changed) =>
      set id | id in changed && !Refreshed(op, changed[id]) &&
        (id in missed || id !in docs || Differs(docs[id], changed[id]))
    case Removed(id) => missed - {id}
  }

  ghost predicate Run<V, S>(classify: map<string, V> -> S, docs: map<nat, Doc<V, S>>, missed: set<nat>,
                            events: seq<Event<V, S>>,
                            end: map<nat, Doc<V, S>>, endMissed: set<nat>)
    decreases |events|
  {
    if events == [] then end == docs && endMissed == missed
    else
      Allowed(docs, events[0])
      && Run(classify, Next(classify, docs, events[0]), Missed(docs, missed, events[0]), events[1..], end, endMissed)
  }

  ghost predicate ConsistentBut<V, S>(classify: map<string, V> -> S, docs: map<nat, Doc<V, S>>, missed: set<nat>) {
    forall id :: id in docs && id !in missed ==> docs[id].stored == classify(Inputs(docs[id]))
  }

  lemma RightAgain<V, S>(classify: map<string, V> -> S, d: Doc<V, S>)
    ensures Classified(classify, d).stored == classify(Inputs(Classified(classify, d)))
  {
    assert Inputs(Classified(classify, d)) == Inputs(d);
  }

  lemma UpdateLeavesStale<V(!new), S(!new)>(classify: map<string, V> -> S, op: Operation<V, S>,
                                            docs: map<nat, Doc<V, S>>, missed: set<nat>,
                                changed: map<nat, Doc<V, S>>)
    requires ConsistentBut(classify, docs, missed) && Updated(op, docs, changed)
    ensures ConsistentBut(classify, AfterUpdate(classify, op.u, op.filter, changed),
                          Missed(docs, missed, HookedUpdate(op, changed)))
    ensures Covered(op) && missed == {} ==> Missed(docs, missed, HookedUpdate(op, changed)) == {}
  {
    forall id | id in changed && Refreshed(op, changed[id])
      ensures Classified(classify, changed[id]).stored == classify(Inputs(Classified(classify, changed[id])))
    {
      RightAgain(classify, changed[id]);
    }
  }

  /** Main result: over every run of saves, removals and updates of any kind, every stored classification is the
      classifier's except where the hook missed a document. */
  lemma {:induction false} OnlyMissedAreStale<V(!new), S(!new)>(
    classify: map<string, V> -> S, docs: map<nat, Doc<V, S>>, missed: set<nat>, events: seq<Event<V, S>>,
    end: map<nat, Doc<V, S>>, endMissed: set<nat>)
    requires ConsistentBut(classify, docs, missed) && Run(classify, docs, missed, events, end, endMissed)
    ensures ConsistentBut(classify, end, endMissed)
    decreases |events|
  {
    if events != [] {
      var e := events[0];
      match e {
        case Saved(id, fields, stored) => RightAgain(classify, Doc(fields, stored));
        case HookedUpdate(op, changed) => UpdateLeavesStale(classify, op, docs, missed, changed);
        case Removed(id) =>
      }
      OnlyMissedAreStale(classify, Next(classify, docs, e), Missed(docs, missed, e), events[1..], end, endMissed);
    }
  }

  /** Main result: when all updates are covered nothing is missed, and every stored classification is right. */
  lemma {:induction false} RunsStayConsistent<V(!new), S(!new)>(
    classify: map<string, V> -> S, docs: map<nat, Doc<V, S>>, events: seq<Event<V, S>>,
    end: map<nat, Doc<V, S>>, endMissed: set<nat>)
    requires Consistent(classify, docs) && Run(classify, docs, {}, events, end, endMissed)
    requires forall k :: 0 <= k < |events| && events[k].HookedUpdate? ==> Covered(events[k].op)
    ensures endMissed == {} && Consistent(classify, end)
    decreases |events|
  {
    if events != [] {
      var e := events[0];
      OnlyMissedAreStale(classify, docs, {}, [e], Next(classify, docs, e), Missed(docs, {}, e));
      assert Missed(docs, {}, e) == {} || e.HookedUpdate?;
      if e.HookedUpdate? { UpdateLeavesStale(classify, e.op, docs, {}, e.changed); }
      assert forall k :: 0 <= k < |events| - 1 ==> events[1..][k] == events[k + 1];
      RunsStayConsistent(classify, Next(classify, docs, e), events[1..], end, endMissed);
    }
  }
}
