/** Resumable polling of uploaded objects with a printed checkpoint (S3UploadIngestionSource.ts). */
module Ingestion {
  import opened Text
  import opened Sorting
  import opened Wrappers

  /** A listed object: its key and the time of its last change in milliseconds. */
  datatype Object = Object(key: string, ms: int)

  /** The date functions of the platform: toISOString and Date.parse. */
  datatype Clock = Clock(toIso: int -> string, parseDate: string -> Option<int>)

  /** Printed dates are read back, are not empty and hold no delimiter. */
  ghost predicate Lawful(clock: Clock) {
    forall t :: clock.parseDate(clock.toIso(t)) == Some(t) && clock.toIso(t) != "" && Free(clock.toIso(t), {'|'})
  }

  /** Where polling resumes: before everything, or behind one object. */
  datatype Mark = Start | Behind(ms: int, key: string)

  function EncodeCheckpoint(clock: Clock, o: Object): string {
    clock.toIso(o.ms) + ['|'] + o.key
  }

  /** Index of the first delimiter; the length when there is none. */
  function IndexOfBar(s: string): (i: nat)
    ensures i <= |s| && Free(s[..i], {'|'}) && (i < |s| ==> s[i] == '|')
  {
    if s == "" || s[0] == '|' then 0 else 1 + IndexOfBar(s[1..])
  }

  function ParseCheckpoint(clock: Clock, value: Option<string>): Mark {
    if value.None? || value.value == "" then Start
    else
      var s, i := value.value, IndexOfBar(value.value);
      var isoPart := s[..i];
      var keyPart := if i == |s| then "" else s[i + 1..];
      var parsed := clock.parseDate(isoPart);
      if parsed.None? then Start else Behind(parsed.value, keyPart)
  }

  lemma {:induction false} FirstBar(a: string, b: string)
    requires Free(a, {'|'})
    ensures IndexOfBar(a + ['|'] + b) == |a|
  {
    var s := a + ['|'] + b;
    if a == "" {
      assert s[0] == '|';
    } else {
      assert s[0] == a[0] && s[1..] == a[1..] + ['|'] + b;
      FirstBar(a[1..], b);
    }
  }

  /** Main result: a printed checkpoint is read back, delimiters in the key included. */
  lemma CheckpointRoundTrip(clock: Clock, o: Object)
    requires Lawful(clock)
    ensures ParseCheckpoint(clock, Some(EncodeCheckpoint(clock, o))) == Behind(o.ms, o.key)
  {
    var iso := clock.toIso(o.ms);
    FirstBar(iso, o.key);
    var s := EncodeCheckpoint(clock, o);
    assert s[..|iso|] == iso && s[|iso| + 1..] == o.key;
  }

  // ---------- the order of objects ----------

  /** String comparison, character by character. */
  predicate StrLe(a: string, b: string) {
    a == "" || (b != "" && (a[0] < b[0] || (a[0] == b[0] && StrLe(a[1..], b[1..]))))
  }

  lemma {:induction false} StrLeTotal(a: string, b: string)
    ensures StrLe(a, b) || StrLe(b, a)
    ensures StrLe(a, b) && StrLe(b, a) ==> a == b
  {
    if a != "" && b != "" {
      StrLeTotal(a[1..], b[1..]);
      if a[0] == b[0] && a[1..] == b[1..] {
        assert a == [a[0]] + a[1..] && b == [b[0]] + b[1..];
      }
    }
  }

  lemma {:induction false} StrLeTransitive(a: string, b: string, c: string)
    requires StrLe(a, b) && StrLe(b, c)
    ensures StrLe(a, c)
  {
    if a != "" && a[0] == b[0] && b[0] == c[0] {
      StrLeTransitive(a[1..], b[1..], c[1..]);
    }
  }

  predicate Before(a: Object, b: Object) {
    a.ms < b.ms || (a.ms == b.ms && StrLe(a.key, b.key))
  }

  lemma BeforeIsTotalOrder()
    ensures TotalPreorder(Before) && Antisymmetric(Before)
  {
    forall a, b
      ensures Before(a, b) || Before(b, a)
      ensures Before(a, b) && Before(b, a) ==> a == b
    {
      StrLeTotal(a.key, b.key);
    }
    forall a, b, c | Before(a, b) && Before(b, c)
      ensures Before(a, c)
    {
      if a.ms == b.ms == c.ms { StrLeTransitive(a.key, b.key, c.key); }
    }
  }

  // ---------- one poll ----------

  predicate Fresh(o: Object, mark: Mark) {
    match mark
    case Start => true
    case Behind(ms, key) => o.ms > ms || (o.ms == ms && !StrLe(o.key, key))
  }

  function FreshOnes(s: seq<Object>, mark: Mark): seq<Object> {
    if s == [] then []
    else FreshOnes(s[..|s| - 1], mark) + if Fresh(s[|s| - 1], mark) then [s[|s| - 1]] else []
  }

  datatype IngestedFile<Mime, Body> =
    IngestedFile(documentId: string, attachmentName: string, mimeType: Mime, receivedAt: int, body: Body,
                 checkpoint: string)

  /** What the source cannot see for itself: file names, supported types, and the bytes behind a key. */
  datatype Files<Mime, Body> = Files(baseName: string -> string, mimeOf: string -> Option<Mime>,
                                     read: string -> Option<Body>)

  predicate Deliverable<Mime, Body>(files: Files<Mime, Body>, o: Object) {
    files.mimeOf(files.baseName(o.key)).Some? && files.read(o.key).Some?
  }

  function Deliver<Mime, Body>(clock: Clock, files: Files<Mime, Body>, o: Object): IngestedFile<Mime, Body>
    requires Deliverable(files, o)
  {
    var name := files.baseName(o.key);
    IngestedFile(o.key, name, files.mimeOf(name).value, o.ms, files.read(o.key).value, EncodeCheckpoint(clock, o))
  }

  function DeliverAll<Mime, Body>(clock: Clock, files: Files<Mime, Body>, s: seq<Object>)
    : seq<IngestedFile<Mime, Body>>
  {
    if s == [] then []
    else (if Deliverable(files, s[0]) then [Deliver(clock, files, s[0])] else []) + DeliverAll(clock, files, s[1..])
  }

  function Queue(listing: seq<Object>, mark: Mark): seq<Object> {
    Sort(FreshOnes(listing, mark), Before)
  }

  function Fetched<Mime, Body>(clock: Clock, files: Files<Mime, Body>, listing: seq<Object>, last: Option<string>)
    : seq<IngestedFile<Mime, Body>>
  {
    DeliverAll(clock, files, Queue(listing, ParseCheckpoint(clock, last)))
  }

  lemma {:induction false} DeliverAllAppend<Mime, Body>(clock: Clock, files: Files<Mime, Body>, a: seq<Object>,
                                                        b: seq<Object>)
    ensures DeliverAll(clock, files, a + b) == DeliverAll(clock, files, a) + DeliverAll(clock, files, b)
  {
    if a == [] {
      assert a + b == b;
    } else {
      assert (a + b)[1..] == a[1..] + b;
      DeliverAllAppend(clock, files, a[1..], b);
    }
  }

  method FetchNewFiles<Mime, Body>(clock: Clock, files: Files<Mime, Body>, listing: seq<Object>, last: Option<string>)
    returns (fetched: seq<IngestedFile<Mime, Body>>)
    ensures fetched == Fetched(clock, files, listing, last)
  {
    var queue := Queue(listing, ParseCheckpoint(clock, last));
    fetched := [];
    for n := 0 to |queue|
      invariant fetched == DeliverAll(clock, files, queue[..n])
    {
      var o := queue[n];
      assert queue[..n + 1] == queue[..n] + [o];
      DeliverAllAppend(clock, files, queue[..n], [o]);
      var name := files.baseName(o.key);
      var mimeType := files.mimeOf(name);
      if mimeType.None? {
        continue;
      }
      var body := files.read(o.key);
      if body.None? {
        continue;
      }
      fetched := fetched + [IngestedFile(o.key, name, mimeType.value, o.ms, body.value, EncodeCheckpoint(clock, o))];
    }
    assert queue[..|queue|] == queue;
  }

  // ---------- resuming ----------

  lemma {:induction false} FreshCount(s: seq<Object>, mark: Mark, o: Object)
    ensures multiset(FreshOnes(s, mark))[o] == if Fresh(o, mark) then multiset(s)[o] else 0
  {
    if s != [] {
      FreshCount(s[..|s| - 1], mark, o);
      assert s == s[..|s| - 1] + [s[|s| - 1]];
    }
  }

  ghost predicate StrictlyOrdered(s: seq<Object>) {
    Ordered(s, Before) && Distinct(s)
  }

  lemma QueueShape(listing: seq<Object>, mark: Mark)
    requires Distinct(listing)
    ensures StrictlyOrdered(Queue(listing, mark))
    ensures forall o :: multiset(Queue(listing, mark))[o] == if Fresh(o, mark) then multiset(listing)[o] else 0
    ensures forall o :: o in Queue(listing, mark) <==> o in listing && Fresh(o, mark)
  {
    BeforeIsTotalOrder();
    var unsorted, queue := FreshOnes(listing, mark), Queue(listing, mark);
    SortOrdered(unsorted, Before);
    SortKeeps(unsorted, Before);
    DistinctOnce(listing);
    forall o
      ensures multiset(queue)[o] == if Fresh(o, mark) then multiset(listing)[o] else 0
    {
      FreshCount(listing, mark, o);
    }
    forall i, j | 0 <= i < j < |queue|
      ensures queue[i] != queue[j]
    {
      CountedTwice(queue, i, j);
    }
    forall o
      ensures o in queue <==> o in listing && Fresh(o, mark)
    {
      assert o in queue <==> o in multiset(queue);
      assert o in listing <==> o in multiset(listing);
    }
  }

  lemma NotFreshIsBefore(o: Object, p: Object)
    ensures Fresh(o, Behind(p.ms, p.key)) <==> !Before(o, p)
  {
  }

  /** Polling behind the i-th queued object leaves the rest of the queue. */
  lemma QueueResumes(listing: seq<Object>, mark: Mark, i: nat)
    requires Distinct(listing) && i < |Queue(listing, mark)|
    ensures var queue := Queue(listing, mark);
      Queue(listing, Behind(queue[i].ms, queue[i].key)) == queue[i + 1..]
  {
    var queue := Queue(listing, mark);
    var rest, resumed := queue[i + 1..], Queue(listing, Behind(queue[i].ms, queue[i].key));
    forall o
      ensures multiset(rest)[o] == multiset(resumed)[o]
    {
      RestIsFresh(listing, mark, i, o);
    }
    QueueOrdered(listing, mark);
    QueueOrdered(listing, Behind(queue[i].ms, queue[i].key));
    SameOrdered(rest, resumed);
  }

  lemma QueueOrdered(listing: seq<Object>, mark: Mark)
    ensures Ordered(Queue(listing, mark), Before)
  {
    BeforeIsTotalOrder();
    SortOrdered(FreshOnes(listing, mark), Before);
  }

  lemma SameOrdered(a: seq<Object>, b: seq<Object>)
    requires Ordered(a, Before) && Ordered(b, Before)
    requires forall o :: multiset(a)[o] == multiset(b)[o]
    ensures a == b
  {
    BeforeIsTotalOrder();
    assert multiset(a) == multiset(b);
    OrderedUnique(a, b, Before);
  }

  lemma RestIsFresh(listing: seq<Object>, mark: Mark, i: nat, o: Object)
    requires Distinct(listing) && i < |Queue(listing, mark)|
    ensures var queue := Queue(listing, mark);
      multiset(queue[i + 1..])[o] == multiset(Queue(listing, Behind(queue[i].ms, queue[i].key)))[o]
  {
    QueueShape(listing, mark);
    var queue := Queue(listing, mark);
    var at := queue[i];
    QueueShape(listing, Behind(at.ms, at.key));
    NotFreshIsBefore(o, at);
    RestCount(queue, i, o);
    if !Before(o, at) {
      StrLeTotal(o.key, at.key);
      FreshBeyond(o, at, mark);
    }
  }

  lemma FreshBeyond(o: Object, at: Object, mark: Mark)
    requires Fresh(at, mark) && Before(at, o)
    ensures Fresh(o, mark)
  {
    if mark.Behind? && o.ms == at.ms == mark.ms && StrLe(o.key, mark.key) {
      StrLeTransitive(at.key, o.key, mark.key);
    }
  }

  lemma RestCount(queue: seq<Object>, i: nat, o: Object)
    requires StrictlyOrdered(queue) && i < |queue|
    ensures multiset(queue[i + 1..])[o] == if Before(o, queue[i]) then 0 else multiset(queue)[o]
  {
    BeforeIsTotalOrder();
    var head, rest := queue[..i + 1], queue[i + 1..];
    assert queue == head + rest;
    forall j | 0 <= j < |rest|
      ensures !Before(rest[j], queue[i])
    {
      assert rest[j] == queue[i + 1 + j] && Before(queue[i], queue[i + 1 + j]);
    }
    assert forall j :: 0 <= j < |head| ==> Before(head[j], queue[i]);
    assert Before(o, queue[i]) ==> o !in rest;
    assert !Before(o, queue[i]) ==> o !in head;
    assert multiset(rest)[o] == 0 <==> o !in rest;
    assert multiset(head)[o] == 0 <==> o !in head;
  }

  // ---------- over whole runs ----------

  /** Main result: resuming from the checkpoint of the last consumed file yields exactly the files after it. */
  lemma ResumeYieldsSuffix<Mime, Body>(clock: Clock, files: Files<Mime, Body>, listing: seq<Object>,
                                       last: Option<string>, n: nat)
    requires Lawful(clock) && Distinct(listing)
    requires 0 < n <= |Fetched(clock, files, listing, last)|
    ensures var all := Fetched(clock, files, listing, last);
      Fetched(clock, files, listing, Some(all[n - 1].checkpoint)) == all[n..]
  {
    var mark := ParseCheckpoint(clock, last);
    var queue := Queue(listing, mark);
    var i := DeliveredAt(clock, files, queue, n - 1);
    CheckpointRoundTrip(clock, queue[i]);
    QueueResumes(listing, mark, i);
  }

  lemma HeadOfDelivered<Mime, Body>(clock: Clock, files: Files<Mime, Body>, queue: seq<Object>, j: nat)
    requires j < |queue|
    ensures DeliverAll(clock, files, queue[..j + 1]) ==
      (if Deliverable(files, queue[0]) then [Deliver(clock, files, queue[0])] else [])
        + DeliverAll(clock, files, queue[1..][..j])
  {
    assert queue[..j + 1][1..] == queue[1..][..j] && queue[..j + 1][0] == queue[0];
  }

  /** The queue position of the n-th delivered file. */
  lemma {:induction false} DeliveredAt<Mime, Body>(clock: Clock, files: Files<Mime, Body>, queue: seq<Object>, n: nat)
    returns (i: nat)
    requires n < |DeliverAll(clock, files, queue)|
    ensures i < |queue| && Deliverable(files, queue[i])
    ensures DeliverAll(clock, files, queue)[n] == Deliver(clock, files, queue[i])
    ensures DeliverAll(clock, files, queue)[n + 1..] == DeliverAll(clock, files, queue[i + 1..])
    ensures DeliverAll(clock, files, queue)[..n] == DeliverAll(clock, files, queue[..i])
  {
    var all := DeliverAll(clock, files, queue);
    if Deliverable(files, queue[0]) && n == 0 {
      i := 0;
    } else {
      var m := if Deliverable(files, queue[0]) then n - 1 else n;
      var tail := DeliverAll(clock, files, queue[1..]);
      var j := DeliveredAt(clock, files, queue[1..], m);
      i := j + 1;
      assert queue[1..][j + 1..] == queue[i + 1..];
      assert all[n + 1..] == tail[m + 1..];
      HeadOfDelivered(clock, files, queue, j);
    }
  }

  /** The bucket, the stored checkpoint, and what has been handed over so far. */
  datatype State = State(store: map<string, int>, marker: Option<string>, delivered: seq<Object>)

  /** An upload or overwrite, a removal, or a poll over some listing whose first `n` files are consumed. */
  datatype Event = Upload(o: Object) | Remove(key: string) | Poll(listing: seq<Object>, n: nat)

  predicate Stored(store: map<string, int>, o: Object) {
    o.key in store && store[o.key] == o.ms
  }

  ghost predicate Lists(listing: seq<Object>, store: map<string, int>) {
    Distinct(listing) && forall o :: o in listing <==> Stored(store, o)
  }

  function Names<Mime, Body>(fetched: seq<IngestedFile<Mime, Body>>): seq<Object> {
    if fetched == [] then [] else [Object(fetched[0].documentId, fetched[0].receivedAt)] + Names(fetched[1..])
  }

  /** A poll sees the bucket and consumes no more than it fetched. */
  ghost predicate Allowed<Mime, Body>(clock: Clock, files: Files<Mime, Body>, s: State, e: Event) {
    match e
    case Upload(_) => true
    case Remove(_) => true
    case Poll(listing, n) => Lists(listing, s.store) && n <= |Fetched(clock, files, listing, s.marker)|
  }

  function Step<Mime, Body>(clock: Clock, files: Files<Mime, Body>, s: State, e: Event): State {
    match e
    case Upload(o) => s.(store := s.store[o.key := o.ms])
    case Remove(key) => s.(store := s.store - {key})
    case Poll(listing, n) =>
      var all := Fetched(clock, files, listing, s.marker);
      if 0 < n <= |all| then s.(marker := Some(all[n - 1].checkpoint), delivered := s.delivered + Names(all[..n]))
      else s
  }

  /** Objects that came too late: written when the checkpoint had passed their time and key. */
  function Late(clock: Clock, s: State, late: set<Object>, e: Event): set<Object> {
    if e.Upload? && !Fresh(e.o, ParseCheckpoint(clock, s.marker)) && e.o !in s.delivered then late + {e.o} else late
  }

  /** What holds after every step. */
  ghost predicate Inv<Mime, Body>(clock: Clock, files: Files<Mime, Body>, s: State, late: set<Object>) {
    var mark := ParseCheckpoint(clock, s.marker);
    && StrictlyOrdered(s.delivered)
    && (forall o :: o in s.delivered || o in late ==> !Fresh(o, mark))
    && (forall o :: o in late ==> o !in s.delivered)
    && (forall o :: Stored(s.store, o) && Deliverable(files, o) && !Fresh(o, mark) ==> o in s.delivered || o in late)
  }

  lemma FirstIsFirst(queue: seq<Object>, names: seq<Object>)
    requires queue != [] && StrictlyOrdered(queue) && StrictlyOrdered(names) &&
      forall o :: o in names ==> o in queue[1..]
    ensures StrictlyOrdered([queue[0]] + names)
  {
    forall o | o in names
      ensures Before(queue[0], o) && o != queue[0]
    {
      assert o in queue[1..];
    }
  }

  lemma {:induction false} NamesOfDelivered<Mime, Body>(clock: Clock, files: Files<Mime, Body>, queue: seq<Object>)
    requires StrictlyOrdered(queue)
    ensures var names := Names(DeliverAll(clock, files, queue));
      StrictlyOrdered(names) && forall o :: o in names <==> o in queue && Deliverable(files, o)
  {
    if queue != [] {
      var rest := queue[1..];
      NamesOfDelivered(clock, files, rest);
      assert queue == [queue[0]] + rest;
      var names := Names(DeliverAll(clock, files, queue));
      if Deliverable(files, queue[0]) {
        assert DeliverAll(clock, files, queue)[1..] == DeliverAll(clock, files, rest);
        assert names == [queue[0]] + Names(DeliverAll(clock, files, rest));
        FirstIsFirst(queue, Names(DeliverAll(clock, files, rest)));
      } else {
        assert DeliverAll(clock, files, queue) == DeliverAll(clock, files, rest);
      }
    }
  }

  lemma StaleBeforeFresh(a: Object, b: Object, mark: Mark)
    requires !Fresh(a, mark) && Fresh(b, mark)
    ensures Before(a, b) && a != b
  {
    var m := Object(mark.key, mark.ms);
    BeforeIsTotalOrder();
    assert Before(a, m) && Before(m, b);
  }

  /** The files consumed in one poll are the deliverable objects up to the i-th queued one. */
  lemma ConsumedNames<Mime, Body>(clock: Clock, files: Files<Mime, Body>, queue: seq<Object>, n: nat) returns (i: nat)
    requires StrictlyOrdered(queue) && 0 < n <= |DeliverAll(clock, files, queue)|
    ensures i < |queue|
    ensures DeliverAll(clock, files, queue)[n - 1].checkpoint == EncodeCheckpoint(clock, queue[i])
    ensures var names := Names(DeliverAll(clock, files, queue)[..n]);
      StrictlyOrdered(names) && forall o :: o in names <==> o in queue && Deliverable(files, o) && Before(o, queue[i])
    ensures n == |DeliverAll(clock, files, queue)| ==>
      forall o :: o in queue && Deliverable(files, o) ==> Before(o, queue[i])
  {
    var all := DeliverAll(clock, files, queue);
    i := DeliveredAt(clock, files, queue, n - 1);
    var head, rest := queue[..i + 1], queue[i + 1..];
    HeadDelivers(clock, files, queue, i, n);
    assert queue == head + rest;
    NamesOfDelivered(clock, files, head);
    HeadIsBefore(queue, i);
    if n == |all| {
      assert DeliverAll(clock, files, rest) == all[n..] == [];
      NamesOfDelivered(clock, files, rest);
    }
  }

  /** Consuming up to the file of the i-th queued object consumes the queue up to it. */
  lemma HeadDelivers<Mime, Body>(clock: Clock, files: Files<Mime, Body>, queue: seq<Object>, i: nat, n: nat)
    requires 0 < n <= |DeliverAll(clock, files, queue)| && i < |queue| && Deliverable(files, queue[i])
    requires DeliverAll(clock, files, queue)[n - 1] == Deliver(clock, files, queue[i])
    requires DeliverAll(clock, files, queue)[..n - 1] == DeliverAll(clock, files, queue[..i])
    ensures DeliverAll(clock, files, queue)[..n] == DeliverAll(clock, files, queue[..i + 1])
  {
    var all := DeliverAll(clock, files, queue);
    assert queue[..i + 1] == queue[..i] + [queue[i]];
    DeliverAllAppend(clock, files, queue[..i], [queue[i]]);
    assert DeliverAll(clock, files, [queue[i]]) == [Deliver(clock, files, queue[i])] + DeliverAll(clock, files, []);
    assert all[..n] == all[..n - 1] + [all[n - 1]];
  }

  lemma HeadIsBefore(queue: seq<Object>, i: nat)
    requires StrictlyOrdered(queue) && i < |queue|
    ensures forall o :: o in queue[..i + 1] <==> o in queue && Before(o, queue[i])
  {
    BeforeIsTotalOrder();
    forall o | o in queue && Before(o, queue[i])
      ensures o in queue[..i + 1]
    {
      var j :| 0 <= j < |queue| && queue[j] == o;
      if j <= i { assert o == queue[..i + 1][j]; }
    }
  }

  /** What a poll that consumes something hands over: the fresh deliverable objects up to `at`. */
  lemma Consumed<Mime, Body>(clock: Clock, files: Files<Mime, Body>, s: State, listing: seq<Object>, n: nat)
    returns (at: Object, names: seq<Object>)
    requires Lawful(clock) && Lists(listing, s.store)
    requires 0 < n <= |Fetched(clock, files, listing, s.marker)|
    ensures var s', mark := Step(clock, files, s, Poll(listing, n)), ParseCheckpoint(clock, s.marker);
      && ParseCheckpoint(clock, s'.marker) == Behind(at.ms, at.key) && Fresh(at, mark)
      && s' == s.(marker := s'.marker, delivered := s.delivered + names)
      && StrictlyOrdered(names)
      && (forall o :: o in names <==> Stored(s.store, o) && Deliverable(files, o) && Fresh(o, mark) && Before(o, at))
      && (n == |Fetched(clock, files, listing, s.marker)| ==>
            forall o :: Stored(s.store, o) && Deliverable(files, o) && Fresh(o, mark) ==> Before(o, at))
  {
    var mark := ParseCheckpoint(clock, s.marker);
    var queue := Queue(listing, mark);
    QueueShape(listing, mark);
    var i := ConsumedNames(clock, files, queue, n);
    at, names := queue[i], Names(DeliverAll(clock, files, queue)[..n]);
    CheckpointRoundTrip(clock, at);
  }

  lemma AppendOrdered(a: seq<Object>, b: seq<Object>)
    requires StrictlyOrdered(a) && StrictlyOrdered(b)
    requires forall x, y :: x in a && y in b ==> Before(x, y) && x != y
    ensures StrictlyOrdered(a + b)
  {
  }

  lemma NothingFetched<Mime, Body>(clock: Clock, files: Files<Mime, Body>, s: State, listing: seq<Object>, o: Object)
    requires Lists(listing, s.store) && Fetched(clock, files, listing, s.marker) == []
    requires Stored(s.store, o) && Fresh(o, ParseCheckpoint(clock, s.marker))
    ensures !Deliverable(files, o)
  {
    var mark := ParseCheckpoint(clock, s.marker);
    QueueShape(listing, mark);
    NamesOfDelivered(clock, files, Queue(listing, mark));
    assert o in Queue(listing, mark);
    assert o !in Names(Fetched(clock, files, listing, s.marker));
  }

  lemma PollKeepsInv<Mime, Body>(clock: Clock, files: Files<Mime, Body>, s: State, late: set<Object>,
                                 listing: seq<Object>, n: nat)
    requires Lawful(clock) && Inv(clock, files, s, late) && Lists(listing, s.store)
    requires 0 < n <= |Fetched(clock, files, listing, s.marker)|
    ensures Inv(clock, files, Step(clock, files, s, Poll(listing, n)), late)
  {
    var mark := ParseCheckpoint(clock, s.marker);
    var at, names := Consumed(clock, files, s, listing, n);
    var s' := Step(clock, files, s, Poll(listing, n));
    forall o
      ensures Fresh(o, Behind(at.ms, at.key)) <==> !Before(o, at)
      ensures !Fresh(o, mark) ==> Before(o, at)
    {
      NotFreshIsBefore(o, at);
      if !Fresh(o, mark) { StaleBeforeFresh(o, at, mark); }
    }
    forall a, b | a in s.delivered && b in names
      ensures Before(a, b) && a != b
    {
      StaleBeforeFresh(a, b, mark);
    }
    AppendOrdered(s.delivered, names);
  }

  /** Events in order, each allowed where it happens. */
  ghost predicate Run<Mime, Body>(clock: Clock, files: Files<Mime, Body>, s: State, late: set<Object>,
                                  events: seq<Event>,
                                  end: State, endLate: set<Object>)
    decreases |events|
  {
    if events == [] then end == s && endLate == late
    else
      Allowed(clock, files, s, events[0])
      && Run(clock, files, Step(clock, files, s, events[0]), Late(clock, s, late, events[0]), events[1..], end, endLate)
  }

  lemma StepKeepsInv<Mime, Body>(clock: Clock, files: Files<Mime, Body>, s: State, late: set<Object>, e: Event)
    requires Lawful(clock) && Inv(clock, files, s, late) && Allowed(clock, files, s, e)
    ensures Inv(clock, files, Step(clock, files, s, e), Late(clock, s, late, e))
  {
    match e
    case Upload(o) =>
    case Remove(key) =>
    case Poll(listing, n) =>
      if n > 0 { PollKeepsInv(clock, files, s, late, listing, n); }
  }

  lemma {:induction false} RunKeepsInv<Mime, Body>(clock: Clock, files: Files<Mime, Body>, s: State, late: set<Object>,
                                                   events: seq<Event>, end: State, endLate: set<Object>)
    requires Lawful(clock) && Inv(clock, files, s, late) && Run(clock, files, s, late, events, end, endLate)
    ensures Inv(clock, files, end, endLate) && late <= endLate
    decreases |events|
  {
    if events != [] {
      StepKeepsInv(clock, files, s, late, events[0]);
      RunKeepsInv(clock, files, Step(clock, files, s, events[0]), Late(clock, s, late, events[0]), events[1..], end,
                  endLate);
    }
  }

  /** Main result: on every run of a source without checkpoint over any bucket, files are delivered in strictly
      increasing order, none twice, and a deliverable object at or before the checkpoint was delivered if and only if it
      did not come too late. */
  lemma RunsDeliverOnce<Mime, Body>(clock: Clock, files: Files<Mime, Body>, store: map<string, int>, events: seq<Event>,
                                    end: State, late: set<Object>, o: Object)
    requires Lawful(clock) && Run(clock, files, State(store, None, []), {}, events, end, late)
    ensures StrictlyOrdered(end.delivered)
    ensures Stored(end.store, o) && Deliverable(files, o) && !Fresh(o, ParseCheckpoint(clock, end.marker)) ==>
              (o in end.delivered <==> o !in late)
  {
    RunKeepsInv(clock, files, State(store, None, []), {}, events, end, late);
  }

  /** Every upload of the run sorts behind the checkpoint stored at its time. */
  ghost predicate Punctual<Mime, Body>(clock: Clock, files: Files<Mime, Body>, s: State, events: seq<Event>)
    decreases |events|
  {
    events != [] ==>
      (events[0].Upload? ==> Fresh(events[0].o, ParseCheckpoint(clock, s.marker)))
      && Punctual(clock, files, Step(clock, files, s, events[0]), events[1..])
  }

  /** With punctual uploads nothing comes too late, so everything at or before the checkpoint was delivered. */
  lemma {:induction false} PunctualRunsMissNothing<Mime, Body>(clock: Clock, files: Files<Mime, Body>, s: State,
                                                               events: seq<Event>,
                                                               end: State, late: set<Object>)
    requires Run(clock, files, s, {}, events, end, late) && Punctual(clock, files, s, events)
    ensures late == {}
    decreases |events|
  {
    if events != [] { PunctualRunsMissNothing(clock, files, Step(clock, files, s, events[0]), events[1..], end, late); }
  }

  /** Main result: an object that the checkpoint has passed undelivered is never delivered on any continuation; written
      again with another time it is another object. */
  lemma {:induction false} LateIsNeverDelivered<Mime, Body>(clock: Clock, files: Files<Mime, Body>, s: State,
                                                            late: set<Object>,
                                                            events: seq<Event>, end: State, endLate: set<Object>,
                                                            o: Object)
    requires Lawful(clock) && Run(clock, files, s, late, events, end, endLate)
    requires !Fresh(o, ParseCheckpoint(clock, s.marker)) && o !in s.delivered
    ensures !Fresh(o, ParseCheckpoint(clock, end.marker)) && o !in end.delivered
    decreases |events|
  {
    if events != [] {
      var e := events[0];
      if e.Poll? && e.n > 0 { PollPasses(clock, files, s, e.listing, e.n, o); }
      LateIsNeverDelivered(clock, files, Step(clock, files, s, e), Late(clock, s, late, e), events[1..], end, endLate,
                           o);
    }
  }

  lemma PollPasses<Mime, Body>(clock: Clock, files: Files<Mime, Body>, s: State, listing: seq<Object>, n: nat,
                               o: Object)
    requires Lawful(clock) && Lists(listing, s.store)
    requires 0 < n <= |Fetched(clock, files, listing, s.marker)|
    requires !Fresh(o, ParseCheckpoint(clock, s.marker)) && o !in s.delivered
    ensures var s' := Step(clock, files, s, Poll(listing, n));
      !Fresh(o, ParseCheckpoint(clock, s'.marker)) && o !in s'.delivered
  {
    var at, names := Consumed(clock, files, s, listing, n);
    StaleBeforeFresh(o, at, ParseCheckpoint(clock, s.marker));
    NotFreshIsBefore(o, at);
  }

  /** Main result: a poll consumed to its end delivers what is stored, supported, readable and behind the checkpoint,
      and nothing else. */
  lemma FullPollDelivers<Mime, Body>(clock: Clock, files: Files<Mime, Body>, s: State, listing: seq<Object>, o: Object)
    requires Lawful(clock) && Lists(listing, s.store)
    ensures var s' := Step(clock, files, s, Poll(listing, |Fetched(clock, files, listing, s.marker)|));
      o in s'.delivered <==>
        o in s.delivered || (Stored(s.store, o) && Deliverable(files, o) && Fresh(o, ParseCheckpoint(clock, s.marker)))
  {
    var n := |Fetched(clock, files, listing, s.marker)|;
    if n > 0 {
      var _, _ := Consumed(clock, files, s, listing, n);
    } else if Stored(s.store, o) && Fresh(o, ParseCheckpoint(clock, s.marker)) {
      NothingFetched(clock, files, s, listing, o);
    }
  }

  // ---------- a poll in plain terms ----------

  /** The strings agree up to place `i`; there `a` ends or has the lower character. */
  predicate LexAt(a: string, b: string, i: nat) {
    i <= |a| && i < |b| && a[..i] == b[..i] && (i == |a| || a[i] < b[i])
  }

  ghost predicate LexBefore(a: string, b: string) {
    exists i: nat :: LexAt(a, b, i)
  }

  lemma LexAtCons(c: char, a: string, b: string, i: nat)
    ensures LexAt([c] + a, [c] + b, i + 1) <==> LexAt(a, b, i)
    ensures !LexAt([c] + a, [c] + b, 0)
  {
    var a', b' := [c] + a, [c] + b;
    if i <= |a| && i < |b| {
      assert a'[..i + 1] == [c] + a[..i] && b'[..i + 1] == [c] + b[..i];
      assert a[..i] == a'[..i + 1][1..] && b[..i] == b'[..i + 1][1..];
    }
  }

  lemma LexCons(c: char, a: string, b: string)
    ensures LexBefore([c] + a, [c] + b) <==> LexBefore(a, b)
  {
    if i: nat :| LexAt(a, b, i) { LexAtCons(c, a, b, i); }
    if i: nat :| LexAt([c] + a, [c] + b, i) { LexAtCons(c, a, b, if i == 0 then 0 else i - 1); }
  }

  lemma LexHeads(a: string, b: string)
    requires a == "" || b == "" || a[0] != b[0]
    ensures LexBefore(a, b) <==> b != "" && (a == "" || a[0] < b[0])
  {
    if b != "" && (a == "" || a[0] < b[0]) { assert LexAt(a, b, 0); }
    assert forall i: nat :: 0 < i <= |a| && i < |b| ==> a[..i][0] == a[0] && b[..i][0] == b[0];
  }

  /** Main result: strings compare by the first place where they differ. */
  lemma {:induction false} StrLeMeans(a: string, b: string)
    ensures StrLe(a, b) <==> a == b || LexBefore(a, b)
  {
    if a != "" && b != "" && a[0] == b[0] {
      StrLeMeans(a[1..], b[1..]);
      assert a == [a[0]] + a[1..] && b == [a[0]] + b[1..];
      LexCons(a[0], a[1..], b[1..]);
    } else {
      LexHeads(a, b);
    }
  }

  /** The object comes strictly after the one that a checkpoint names; without checkpoint every object does. */
  ghost predicate After(o: Object, mark: Option<Object>) {
    mark.None? || o.ms > mark.value.ms || (o.ms == mark.value.ms && LexBefore(mark.value.key, o.key))
  }

  ghost predicate Marks(clock: Clock, last: Option<string>, mark: Option<Object>) {
    last == if mark.None? then None else Some(clock.toIso(mark.value.ms) + "|" + mark.value.key)
  }

  lemma FreshIsAfter(clock: Clock, last: Option<string>, mark: Option<Object>, o: Object)
    requires Lawful(clock) && Marks(clock, last, mark)
    ensures Fresh(o, ParseCheckpoint(clock, last)) <==> After(o, mark)
  {
    if mark.Some? {
      CheckpointRoundTrip(clock, mark.value);
      assert last == Some(EncodeCheckpoint(clock, mark.value));
      StrLeMeans(mark.value.key, o.key);
      StrLeMeans(o.key, mark.value.key);
      StrLeTotal(o.key, mark.value.key);
      if LexBefore(mark.value.key, o.key) && o.key == mark.value.key { LexIrreflexive(o.key); }
    }
  }

  lemma LexIrreflexive(a: string)
    ensures !LexBefore(a, a)
  {
  }

  /** Supported, and its bytes can be read. */
  ghost predicate Usable<Mime, Body>(files: Files<Mime, Body>, o: Object) {
    files.mimeOf(files.baseName(o.key)).Some? && files.read(o.key).Some?
  }

  /** The file that the ingestion gets for an object. */
  ghost predicate FileOf<Mime, Body>(clock: Clock, files: Files<Mime, Body>, o: Object, f: IngestedFile<Mime, Body>) {
    && Usable(files, o)
    && f.documentId == o.key && f.attachmentName == files.baseName(o.key) && f.receivedAt == o.ms
    && f.mimeType == files.mimeOf(files.baseName(o.key)).value && f.body == files.read(o.key).value
    && f.checkpoint == clock.toIso(o.ms) + "|" + o.key
  }

  /** Main result: each file of a poll is that of a usable object after the checkpoint ... */
  lemma FetchedFrom<Mime, Body>(clock: Clock, files: Files<Mime, Body>, listing: seq<Object>, last: Option<string>,
                                mark: Option<Object>, n: nat) returns (o: Object)
    requires Lawful(clock) && Distinct(listing) && Marks(clock, last, mark) &&
      n < |Fetched(clock, files, listing, last)|
    ensures o in listing && After(o, mark) && FileOf(clock, files, o, Fetched(clock, files, listing, last)[n])
  {
    var queue := Queue(listing, ParseCheckpoint(clock, last));
    QueueShape(listing, ParseCheckpoint(clock, last));
    var i := DeliveredAt(clock, files, queue, n);
    o := queue[i];
    assert o in queue;
    FreshIsAfter(clock, last, mark, o);
  }

  /** Main result: ... and each such object has its file. */
  lemma FetchedFor<Mime, Body>(clock: Clock, files: Files<Mime, Body>, listing: seq<Object>, last: Option<string>,
                               mark: Option<Object>, o: Object) returns (n: nat)
    requires Lawful(clock) && Distinct(listing) && Marks(clock, last, mark)
    requires o in listing && After(o, mark) && Usable(files, o)
    ensures n < |Fetched(clock, files, listing, last)| &&
      FileOf(clock, files, o, Fetched(clock, files, listing, last)[n])
  {
    var queue := Queue(listing, ParseCheckpoint(clock, last));
    QueueShape(listing, ParseCheckpoint(clock, last));
    FreshIsAfter(clock, last, mark, o);
    n := DeliveredFor(clock, files, queue, o);
  }

  lemma {:induction false} DeliveredFor<Mime, Body>(clock: Clock, files: Files<Mime, Body>, queue: seq<Object>,
                                                    o: Object)
    returns (n: nat)
    requires o in queue && Usable(files, o)
    ensures n < |DeliverAll(clock, files, queue)| && FileOf(clock, files, o, DeliverAll(clock, files, queue)[n])
  {
    if queue[0] == o {
      n := 0;
    } else {
      var m := DeliveredFor(clock, files, queue[1..], o);
      n := if Deliverable(files, queue[0]) then m + 1 else m;
    }
  }

  /** Main result: the files come in strictly ascending order of time and then key. */
  lemma FetchedInOrder<Mime, Body>(clock: Clock, files: Files<Mime, Body>, listing: seq<Object>, last: Option<string>,
                                   n: nat, m: nat)
    requires Lawful(clock) && Distinct(listing) && n < m < |Fetched(clock, files, listing, last)|
    ensures var f, g := Fetched(clock, files, listing, last)[n], Fetched(clock, files, listing, last)[m];
      f.receivedAt < g.receivedAt || (f.receivedAt == g.receivedAt && LexBefore(f.documentId, g.documentId))
  {
    var queue := Queue(listing, ParseCheckpoint(clock, last));
    QueueShape(listing, ParseCheckpoint(clock, last));
    var names := Names(DeliverAll(clock, files, queue));
    NamesOfDelivered(clock, files, queue);
    NameAt(DeliverAll(clock, files, queue), n);
    NameAt(DeliverAll(clock, files, queue), m);
    assert Before(names[n], names[m]) && names[n] != names[m];
    StrLeMeans(names[n].key, names[m].key);
  }

  lemma {:induction false} NameAt<Mime, Body>(fetched: seq<IngestedFile<Mime, Body>>, n: nat)
    requires n < |fetched|
    ensures |Names(fetched)| == |fetched| && Names(fetched)[n] == Object(fetched[n].documentId, fetched[n].receivedAt)
    decreases |fetched|
  {
    if |fetched| > 1 { NameAt(fetched[1..], if n == 0 then 0 else n - 1); }
  }

  /** Main result: a checkpoint that does not begin with a date counts for none. */
  lemma UnreadableCheckpoint(clock: Clock, date: string, rest: string)
    requires Free(date, {'|'}) && clock.parseDate(date).None?
    ensures ParseCheckpoint(clock, Some(date + "|" + rest)) == Start
    ensures ParseCheckpoint(clock, Some(date)) == Start && ParseCheckpoint(clock, Some("")) == Start
  {
    FirstBar(date, rest);
    var s := date + "|" + rest;
    assert s[..|date|] == date;
    NoBar(date);
    assert date[..|date|] == date;
  }

  lemma {:induction false} NoBar(s: string)
    requires Free(s, {'|'})
    ensures IndexOfBar(s) == |s|
  {
    if s != "" { NoBar(s[1..]); }
  }
}
