/** The key mapping of the S3 file store: where a key is put, how it is listed, and where it is read back
    (S3FileStore.ts). */
module S3Keys {
  import opened Text
  import opened Wrappers

  const SLASH: set<char> := {'/'}

  function ForwardSlashes(s: string): (r: string)
    ensures |r| == |s|
    ensures forall i :: 0 <= i < |s| ==> r[i] == if s[i] == '\\' then '/' else s[i]
  {
    if s == "" then "" else [if s[0] == '\\' then '/' else s[0]] + ForwardSlashes(s[1..])
  }

  /** The trimmed segments that name something. */
  function Keep(parts: seq<string>): seq<string> {
    if parts == [] then []
    else
      var segment := Trim(parts[0], JS_SPACE);
      (if segment != "" && segment != "." && segment != ".." then [segment] else []) + Keep(parts[1..])
  }

  function SegmentsOf(value: string): seq<string> {
    Keep(Split(ForwardSlashes(value), SLASH))
  }

  function NormalizeKey(value: string): string {
    Join(SegmentsOf(value), '/')
  }

  ghost predicate CleanSegment(s: string) {
    s != "" && s != "." && s != ".." && Free(s, {'/', '\\'}) && Tight(s, JS_SPACE)
  }

  ghost predicate Clean(segments: seq<string>) {
    forall k :: 0 <= k < |segments| ==> CleanSegment(segments[k])
  }

  lemma {:induction false} KeepClean(parts: seq<string>)
    requires forall k :: 0 <= k < |parts| ==> Free(parts[k], {'/', '\\'})
    ensures Clean(Keep(parts))
  {
    if parts != [] {
      KeepClean(parts[1..]);
      var head, tail := TrimShape(parts[0], JS_SPACE);
      var core := Trim(parts[0], JS_SPACE);
      forall i | 0 <= i < |core|
        ensures core[i] !in {'/', '\\'}
      {
        assert parts[0][|head| + i] == core[i];
      }
    }
  }

  lemma {:induction false} KeepOfClean(segments: seq<string>)
    requires Clean(segments)
    ensures Keep(segments) == segments
  {
    if segments != [] {
      TrimTight(segments[0], JS_SPACE);
      KeepOfClean(segments[1..]);
    }
  }

  lemma {:induction false} SplitOverSlashes(s: string)
    requires Free(s, {'\\'})
    ensures forall k :: 0 <= k < |Split(s, SLASH)| ==> Free(Split(s, SLASH)[k], {'/', '\\'})
  {
    if s != "" { SplitOverSlashes(s[1..]); }
  }

  lemma SegmentsClean(value: string)
    ensures Clean(SegmentsOf(value))
  {
    SplitOverSlashes(ForwardSlashes(value));
    KeepClean(Split(ForwardSlashes(value), SLASH));
  }

  lemma {:induction false} JoinFree(segments: seq<string>)
    requires Clean(segments)
    ensures Free(Join(segments, '/'), {'\\'})
    ensures segments != [] ==> var s := Join(segments, '/'); s != "" && s[0] != '/' && s[|s| - 1] != '/'
  {
    if segments != [] {
      assert CleanSegment(segments[0]);
      if |segments| > 1 { JoinFree(segments[1..]); }
    }
  }

  lemma NoBackslash(s: string)
    requires Free(s, {'\\'})
    ensures ForwardSlashes(s) == s
  {
  }

  /** A joined list of clean segments is read back as that list. */
  lemma SegmentsOfJoin(segments: seq<string>)
    requires Clean(segments)
    ensures SegmentsOf(Join(segments, '/')) == segments
  {
    JoinFree(segments);
    NoBackslash(Join(segments, '/'));
    if segments == [] {
      assert Split("", SLASH) == [""];
      assert Trim("", JS_SPACE) == "";
      assert Keep([""]) == [] + Keep([""][1..]);
    } else {
      assert forall k :: 0 <= k < |segments| ==> CleanSegment(segments[k]);
      SplitJoin(segments, '/');
      KeepOfClean(segments);
    }
  }

  /** Main result: normalising is idempotent and keeps the segments. */
  lemma NormalizeIdempotent(value: string)
    ensures SegmentsOf(NormalizeKey(value)) == SegmentsOf(value)
    ensures NormalizeKey(NormalizeKey(value)) == NormalizeKey(value)
  {
    SegmentsClean(value);
    SegmentsOfJoin(SegmentsOf(value));
  }

  // ---------- the store's three mappings ----------

  /** The key under which the bucket holds an object; `prefix` is the store's normalised prefix. */
  function StoredKey(prefix: string, key: string): string {
    if prefix != "" then prefix + "/" + NormalizeKey(key) else NormalizeKey(key)
  }

  /** The prefix that listObjects sends. */
  function ListPrefix(prefix: string, under: string): string {
    Slashed(StoredKey(prefix, under))
  }

  function Slashed(full: string): string {
    if full != "" && full[|full| - 1] == '/' then full else full + "/"
  }

  /** The key that listObjects reports for a stored key. */
  function Stripped(prefix: string, stored: string): string {
    if prefix != "" then (if |prefix| + 1 <= |stored| then stored[|prefix| + 1..] else "") else stored
  }

  /** Main result: what is listed for a put key is read back from the very place it was put, whatever the prefix. */
  lemma StrippedKeyRoundTrip(prefix: string, key: string)
    ensures Stripped(prefix, StoredKey(prefix, key)) == NormalizeKey(key)
    ensures StoredKey(prefix, Stripped(prefix, StoredKey(prefix, key))) == StoredKey(prefix, key)
  {
    NormalizeIdempotent(key);
  }

  /** Below `under`: its segments are the first of the key's, and the key has more. */
  ghost predicate Below(under: string, key: string) {
    SegmentsOf(under) < SegmentsOf(key)
  }

  lemma JoinExtends(p: seq<string>, q: seq<string>)
    requires Clean(p) && Clean(q) && p != []
    ensures Join(p, '/') + "/" <= Join(q, '/') <==> p < q
  {
    var a, b := Join(p, '/') + "/", Join(q, '/');
    if p < q {
      var rest := q[|p|..];
      assert q == p + rest;
      JoinAppend(p, rest, '/');
      assert b == a + Join(rest, '/');
    }
    if a <= b {
      var rest := b[|a|..];
      assert b == Join(p, '/') + ['/'] + rest;
      SplitAt(Join(p, '/'), '/', rest, SLASH);
      assert forall k :: 0 <= k < |p| ==> CleanSegment(p[k]);
      assert forall k :: 0 <= k < |q| ==> CleanSegment(q[k]);
      SplitJoin(p, '/');
      if q != [] {
        SplitJoin(q, '/');
        assert q == p + Split(rest, SLASH);
      }
    }
  }

  /** The prefix sent for a directory that has a name. */
  lemma SlashBehind(head: string, p: string)
    requires p != "" && p[|p| - 1] != '/'
    ensures Slashed(head + p) == head + (p + "/")
  {
    assert (head + p)[|head + p| - 1] == p[|p| - 1];
  }

  lemma NamedListPrefix(prefix: string, under: string)
    requires SegmentsOf(under) != []
    ensures ListPrefix(prefix, under) == (if prefix != "" then prefix + "/" else "") + (NormalizeKey(under) + "/")
  {
    SegmentsClean(under);
    JoinFree(SegmentsOf(under));
    var p := NormalizeKey(under);
    if prefix != "" {
      SlashBehind(prefix + "/", p);
    } else {
      assert "" + (p + "/") == p + "/";
    }
  }

  lemma ListedBelow(prefix: string, under: string, key: string)
    requires SegmentsOf(under) != []
    ensures ListPrefix(prefix, under) <= StoredKey(prefix, key) <==> Below(under, key)
  {
    SegmentsClean(under);
    SegmentsClean(key);
    NamedListPrefix(prefix, under);
    JoinExtends(SegmentsOf(under), SegmentsOf(key));
    var head := if prefix != "" then prefix + "/" else "";
    assert StoredKey(prefix, key) == head + NormalizeKey(key);
    PrefixCancels(head, NormalizeKey(under) + "/", NormalizeKey(key));
  }

  lemma ListedEverywhere(prefix: string, under: string, key: string)
    requires SegmentsOf(under) == []
    ensures ListPrefix(prefix, under) <= StoredKey(prefix, key) <==> prefix != ""
  {
    assert NormalizeKey(under) == "";
    if prefix != "" {
      assert StoredKey(prefix, under) == prefix + "/";
      assert ListPrefix(prefix, under) == prefix + "/";
      assert StoredKey(prefix, key) == prefix + "/" + NormalizeKey(key);
    } else {
      assert ListPrefix(prefix, under) == "/";
      SegmentsClean(key);
      JoinFree(SegmentsOf(key));
    }
  }

  /** Main result: exactly which put keys a listing shows; without any prefix at all it shows none. */
  lemma ListedExactly(prefix: string, under: string, key: string)
    ensures ListPrefix(prefix, under) <= StoredKey(prefix, key) <==>
      if SegmentsOf(under) == [] then prefix != "" else Below(under, key)
  {
    if SegmentsOf(under) == [] {
      ListedEverywhere(prefix, under, key);
    } else {
      ListedBelow(prefix, under, key);
    }
  }

  lemma PrefixCancels(head: string, a: string, b: string)
    ensures head + a <= head + b <==> a <= b
  {
    if head + a <= head + b {
      assert (head + a)[|head|..] == a && (head + b)[|head|..] == b;
      forall i | 0 <= i < |a|
        ensures a[i] == b[i]
      {
        assert (head + a)[|head| + i] == (head + b)[|head| + i];
      }
    }
  }

  // ---------- the store over a bucket ----------

  datatype StoredObject = StoredObject(body: seq<bv8>, lastModified: int)

  datatype Listed = Listed(key: string, lastModified: int)

  /** The service returns the stored objects whose keys begin with the sent prefix. */
  ghost predicate Answers(prefix: string, bucket: map<string, StoredObject>, under: string, entries: seq<Listed>) {
    forall e :: e in entries <==>
      e.key in bucket && ListPrefix(prefix, under) <= e.key && e.lastModified == bucket[e.key].lastModified
  }

  /** The listing of the service's entries in the order they come; an entry without a key is skipped. */
  function ListedOf(prefix: string, entries: seq<Listed>): seq<Listed> {
    if entries == [] then []
    else
      var e := entries[|entries| - 1];
      ListedOf(prefix, entries[..|entries| - 1]) + if e.key != "" then [e.(key := Stripped(prefix, e.key))] else []
  }

  lemma {:induction false} ListedOfAppend(prefix: string, a: seq<Listed>, b: seq<Listed>)
    ensures ListedOf(prefix, a + b) == ListedOf(prefix, a) + ListedOf(prefix, b)
  {
    if b == [] {
      assert a + b == a;
    } else {
      assert (a + b)[..|a + b| - 1] == a + b[..|b| - 1];
      ListedOfAppend(prefix, a, b[..|b| - 1]);
    }
  }

  class S3FileStore {
    const prefix: string
    var bucket: map<string, StoredObject>

    constructor (prefix: string)
      ensures this.prefix == NormalizeKey(prefix) && bucket == map[]
    {
      this.prefix := NormalizeKey(prefix);
      this.bucket := map[];
    }

    method PutObject(key: string, item: StoredObject) returns (stored: string)
      modifies this`bucket
      ensures stored == StoredKey(prefix, key)
      ensures bucket == old(bucket)[stored := item]
    {
      stored := if prefix != "" then prefix + "/" + NormalizeKey(key) else NormalizeKey(key);
      bucket := bucket[stored := item];
    }

    method GetObject(key: string) returns (found: Option<StoredObject>)
      ensures found == if StoredKey(prefix, key) in bucket then Some(bucket[StoredKey(prefix, key)]) else None
    {
      var full := if prefix != "" then prefix + "/" + NormalizeKey(key) else NormalizeKey(key);
      found := if full in bucket then Some(bucket[full]) else None;
    }

    method DeleteObject(key: string)
      modifies this`bucket
      ensures bucket == old(bucket) - {StoredKey(prefix, key)}
    {
      var full := if prefix != "" then prefix + "/" + NormalizeKey(key) else NormalizeKey(key);
      bucket := bucket - {full};
    }

    /** The entries of one page. */
    method StripPage(page: seq<Listed>) returns (results: seq<Listed>)
      ensures results == ListedOf(prefix, page)
    {
      results := [];
      for i := 0 to |page|
        invariant results == ListedOf(prefix, page[..i])
      {
        assert page[..i + 1][..i] == page[..i];
        if page[i].key != "" {
          results := results + [page[i].(key := Stripped(prefix, page[i].key))];
        }
      }
      assert page[..|page|] == page;
    }

    method ListObjects(under: string, pages: seq<seq<Listed>>) returns (results: seq<Listed>)
      requires Answers(prefix, bucket, under, Flatten(pages))
      ensures results == ListedOf(prefix, Flatten(pages))
    {
      results := [];
      for p := 0 to |pages|
        invariant results == ListedOf(prefix, Flatten(pages[..p]))
      {
        var listed := StripPage(pages[p]);
        FlattenTake(pages, p);
        ListedOfAppend(prefix, Flatten(pages[..p]), pages[p]);
        results := results + listed;
      }
      assert pages[..|pages|] == pages;
    }
  }

  lemma FlattenTake(pages: seq<seq<Listed>>, p: nat)
    requires p < |pages|
    ensures Flatten(pages[..p + 1]) == Flatten(pages[..p]) + pages[p]
  {
    assert pages[..p + 1] == pages[..p] + [pages[p]];
    FlattenAppend(pages[..p], [pages[p]]);
    assert Flatten([pages[p]]) == pages[p] + Flatten<Listed>([]);
  }

  lemma {:induction false} ListedOfShows(prefix: string, entries: seq<Listed>, e: Listed)
    requires e in entries && e.key != ""
    ensures e.(key := Stripped(prefix, e.key)) in ListedOf(prefix, entries)
  {
    if e != entries[|entries| - 1] {
      ListedOfShows(prefix, entries[..|entries| - 1], e);
    }
  }

  /** Main result: an object put under a directory is listed there, and the listed key reads that object back. */
  lemma PutIsListedAndReadBack(prefix: string, bucket: map<string, StoredObject>, under: string, key: string,
                               item: StoredObject, entries: seq<Listed>)
    requires if SegmentsOf(under) == [] then prefix != "" else Below(under, key)
    requires Answers(prefix, bucket[StoredKey(prefix, key) := item], under, entries)
    ensures Listed(NormalizeKey(key), item.lastModified) in ListedOf(prefix, entries)
    ensures var after := bucket[StoredKey(prefix, key) := item];
      StoredKey(prefix, NormalizeKey(key)) in after && after[StoredKey(prefix, NormalizeKey(key))] == item
  {
    ListedExactly(prefix, under, key);
    StrippedKeyRoundTrip(prefix, key);
    ListedOfShows(prefix, entries, Listed(StoredKey(prefix, key), item.lastModified));
  }

  // ---------- what the segments are ----------

  /** Slashes of either kind part the segments. */
  lemma SegmentsAt(a: string, c: char, b: string)
    requires c == '/' || c == '\\'
    ensures SegmentsOf(a + [c] + b) == SegmentsOf(a) + SegmentsOf(b)
  {
    ForwardAppend(a + [c], b);
    ForwardAppend(a, [c]);
    assert ForwardSlashes([c]) == ['/'];
    SplitAt(ForwardSlashes(a), '/', ForwardSlashes(b), SLASH);
    KeepAppend(Split(ForwardSlashes(a), SLASH), Split(ForwardSlashes(b), SLASH));
  }

  lemma ForwardAppend(a: string, b: string)
    ensures ForwardSlashes(a + b) == ForwardSlashes(a) + ForwardSlashes(b)
  {
  }

  lemma {:induction false} KeepAppend(a: seq<string>, b: seq<string>)
    ensures Keep(a + b) == Keep(a) + Keep(b)
  {
    if a == [] {
      assert a + b == b;
    } else {
      assert (a + b)[1..] == a[1..] + b;
      KeepAppend(a[1..], b);
    }
  }

  lemma KeepOne(s: string)
    ensures var t := Trim(s, JS_SPACE); Keep([s]) == if t == "" || t == "." || t == ".." then [] else [t]
  {
    assert [s][1..] == [];
  }

  /** Main result: text without slashes is one segment, trimmed, unless that leaves nothing, a dot or two dots. */
  lemma OneSegment(s: string)
    requires Free(s, {'/', '\\'})
    ensures var t := Trim(s, JS_SPACE); SegmentsOf(s) == if t == "" || t == "." || t == ".." then [] else [t]
  {
    NoBackslash(s);
    assert Free(s, SLASH);
    SplitFree(s, SLASH);
    KeepOne(s);
  }
}
