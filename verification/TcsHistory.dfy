/** The TCS rate of a client organisation with its bounded change history (tcsConfig.ts). */
module TcsHistory {
  import opened Wrappers
  import opened Text

  const MAX_HISTORY: nat := 1000
  const PAGE_SIZE: nat := 20

  /** One entry of the history: the rate it replaced, the rate it set, and since when the replaced one held. */
  datatype Entry = Entry(previousRate: real, newRate: real, changedBy: string, changedAt: int, reason: Option<string>,
                         effectiveFrom: int)

  datatype Config = Config(rate: real, effectiveFrom: int, enabled: bool, history: seq<Entry>)

  /** The body of a PUT request; `None` stands for a value of the wrong type or form. */
  datatype Request = Request(rate: Option<real>, effectiveFrom: Option<int>, enabled: Option<bool>,
                             reason: Option<string>)

  predicate Acceptable(r: Request) {
    r.rate.Some? && 0.0 <= r.rate.value <= 100.0 && r.effectiveFrom.Some? && r.enabled.Some?
  }

  function Newest(log: seq<Entry>): seq<Entry> {
    if |log| > MAX_HISTORY then log[..MAX_HISTORY] else log
  }

  function RateOf(config: Option<Config>): real {
    if config.Some? then config.value.rate else 0.0
  }

  function EntryFor(config: Option<Config>, r: Request, user: string, now: int): Entry
    requires Acceptable(r)
  {
    var text := if r.reason.Some? then Trim(r.reason.value, JS_SPACE) else "";
    var since := if config.Some? then config.value.effectiveFrom else r.effectiveFrom.value;
    Entry(RateOf(config), r.rate.value, user, now, if text != "" then Some(text) else None, since)
  }

  function HistoryOf(config: Option<Config>): seq<Entry> {
    if config.Some? then config.value.history else []
  }

  /** The stored document, created with its defaults where there is none. */
  function Existing(config: Option<Config>, now: int): Option<Config> {
    if config.Some? then config else Some(Config(0.0, now, false, []))
  }

  /** The stored document after a request; a request that is not acceptable changes nothing. */
  function Put(config: Option<Config>, r: Request, user: string, now: int): Option<Config> {
    if !Acceptable(r) then config
    else
      Some(Config(r.rate.value, r.effectiveFrom.value, r.enabled.value,
                  Newest([EntryFor(config, r, user, now)] + HistoryOf(config))))
  }

  /** The entries that a request adds to the full log. */
  function Logged(config: Option<Config>, r: Request, user: string, now: int): seq<Entry> {
    if Acceptable(r) then [EntryFor(config, r, user, now)] else []
  }

  class ConfigStore {
    var config: Option<Config>
    /** Every change ever accepted, newest first. */
    ghost var log: seq<Entry>

    /** The store holds the newest part of the whole log, and the log is a chain that ends in the current rate. */
    ghost predicate Valid()
      reads this
    {
      && HistoryOf(config) == Newest(log)
      && (log != [] ==> log[0].newRate == RateOf(config))
      && forall i :: 0 <= i < |log| - 1 ==> log[i].previousRate == log[i + 1].newRate
    }

    constructor ()
      ensures Valid() && config == None && log == []
    {
      config := None;
      log := [];
    }

    /** The first GET, and a change of roles, create the document with its defaults. */
    method EnsureExists(now: int)
      requires Valid()
      modifies this
      ensures Valid() && log == old(log)
      ensures config == Existing(old(config), now)
    {
      if config.None? {
        config := Some(Config(0.0, now, false, []));
      }
    }

    /** Main result: a change is logged against the rate it replaces, and the kept history stays the newest part of the
        log. */
    method PutRate(r: Request, user: string, now: int) returns (ok: bool)
      requires Valid()
      modifies this
      ensures Valid() && (ok <==> Acceptable(r))
      ensures config == Put(old(config), r, user, now) && log == Logged(old(config), r, user, now) + old(log)
      ensures ok <==> r.rate.Some? && 0.0 <= r.rate.value <= 100.0 && r.effectiveFrom.Some? && r.enabled.Some?
      ensures !ok ==> config == old(config) && log == old(log)
      ensures ok ==> config == Some(Config(r.rate.value, r.effectiveFrom.value, r.enabled.value,
                                           if |log| > 1000 then log[..1000] else log))
      ensures ok ==> var e := log[0];
        && log == [e] + old(log) && e.newRate == r.rate.value && e.changedBy == user && e.changedAt == now
        && e.previousRate == (if old(config).Some? then old(config).value.rate else 0.0)
        && e.effectiveFrom == (if old(config).Some? then old(config).value.effectiveFrom else r.effectiveFrom.value)
        && e.reason == (if r.reason.Some? && !Blank(r.reason.value, JS_SPACE) then Some(Trim(r.reason.value, JS_SPACE))
          else None)
    {
      if r.rate.None? || r.rate.value < 0.0 || r.rate.value > 100.0 || r.effectiveFrom.None? || r.enabled.None? {
        return false;
      }
      var entry := EntryFor(config, r, user, now);
      ReasonKept(r);
      var pushed := [entry] + HistoryOf(config);
      PushNewest(entry, log);
      config := Some(Config(r.rate.value, r.effectiveFrom.value, r.enabled.value, Newest(pushed)));
      log := [entry] + log;
      ok := true;
    }

    method GetHistoryPage(requested: int) returns (items: seq<Entry>, total: nat)
      requires Valid()
      ensures total == |Newest(log)|
      ensures items == PageOf(Newest(log), if requested < 1 then 1 else requested)
    {
      var page: nat := if requested < 1 then 1 else requested;
      items, total := PageOf(HistoryOf(config), page), |HistoryOf(config)|;
    }
  }

  lemma ReasonKept(r: Request)
    ensures r.reason.Some? ==> (Trim(r.reason.value, JS_SPACE) == "" <==> Blank(r.reason.value, JS_SPACE))
  {
    if r.reason.Some? { var _, _ := TrimShape(r.reason.value, JS_SPACE); }
  }

  /** Truncating at each push keeps the same entries as truncating the whole log once. */
  lemma PushNewest(entry: Entry, log: seq<Entry>)
    ensures Newest([entry] + Newest(log)) == Newest([entry] + log)
  {
    if |log| > MAX_HISTORY {
      assert ([entry] + log[..MAX_HISTORY])[..MAX_HISTORY] == ([entry] + log)[..MAX_HISTORY];
    }
  }

  /** slice(skip, skip + limit), cut off at the end. */
  function PageOf(history: seq<Entry>, page: nat): seq<Entry>
    requires page >= 1
  {
    var skip := (page - 1) * PAGE_SIZE;
    var from := if skip < |history| then skip else |history|;
    var to := if skip + PAGE_SIZE < |history| then skip + PAGE_SIZE else |history|;
    history[from..to]
  }

  function FirstPages(history: seq<Entry>, n: nat): seq<Entry> {
    if n == 0 then [] else FirstPages(history, n - 1) + PageOf(history, n)
  }

  /** Main result: the pages one after the other are the history, each entry once. */
  lemma {:induction false} PagesCoverHistory(history: seq<Entry>, n: nat)
    ensures FirstPages(history, n) == if n * PAGE_SIZE < |history| then history[..n * PAGE_SIZE] else history
  {
    if n > 0 {
      PagesCoverHistory(history, n - 1);
      var k := (n - 1) * PAGE_SIZE;
      if k < |history| {
        var to := if k + PAGE_SIZE < |history| then k + PAGE_SIZE else |history|;
        assert history[..k] + history[k..to] == history[..to];
      }
    }
  }

  // ---------- serial runs ----------

  /** A rate change, or a first read or a change of roles, which creates the document where there is none. */
  datatype Event = Change(r: Request, user: string, now: int) | Touch(now: int)

  function ConfigAfter(config: Option<Config>, events: seq<Event>): Option<Config> {
    if events == [] then config
    else
      var before := ConfigAfter(config, events[..|events| - 1]);
      match events[|events| - 1]
      case Change(r, user, now) => Put(before, r, user, now)
      case Touch(now) => Existing(before, now)
  }

  /** The log after a serial run, newest first. */
  function LogOf(config: Option<Config>, events: seq<Event>): seq<Entry> {
    if events == [] then []
    else
      var before := events[..|events| - 1];
      match events[|events| - 1]
      case Change(r, user, now) => Logged(ConfigAfter(config, before), r, user, now) + LogOf(config, before)
      case Touch(_) => LogOf(config, before)
  }

  /** The history is the newest part of the log, whose rates link up from zero to the current one. */
  ghost predicate Linked(config: Option<Config>, log: seq<Entry>) {
    && HistoryOf(config) == Newest(log)
    && (log != [] ==> log[0].newRate == RateOf(config) && log[|log| - 1].previousRate == 0.0)
    && (log == [] ==> RateOf(config) == 0.0)
    && forall i :: 0 <= i < |log| - 1 ==> log[i].previousRate == log[i + 1].newRate
  }

  lemma PushKeepsLinked(config: Option<Config>, log: seq<Entry>, entry: Entry, after: Config)
    requires Linked(config, log) && entry.previousRate == RateOf(config)
    requires after.rate == entry.newRate && after.history == Newest([entry] + HistoryOf(config))
    ensures Linked(Some(after), [entry] + log)
  {
    var pushed := [entry] + log;
    PushNewest(entry, log);
    assert log != [] ==> pushed[|pushed| - 1] == log[|log| - 1];
    assert forall i :: 1 <= i < |pushed| ==> pushed[i] == log[i - 1];
  }

  lemma PutKeepsLinked(config: Option<Config>, log: seq<Entry>, r: Request, user: string, now: int)
    requires Linked(config, log)
    ensures Linked(Put(config, r, user, now), Logged(config, r, user, now) + log)
  {
    if Acceptable(r) {
      PushKeepsLinked(config, log, EntryFor(config, r, user, now), Put(config, r, user, now).value);
    } else {
      assert [] + log == log;
    }
  }

  /** Main result: over a serial run on a fresh store the history is the newest 1000 entries of the full log,
      it ends in the current rate, and its rates link up down to the initial zero. */
  lemma {:induction false} SerialRuns(events: seq<Event>)
    ensures Linked(ConfigAfter(None, events), LogOf(None, events))
  {
    if events != [] {
      var before := events[..|events| - 1];
      SerialRuns(before);
      match events[|events| - 1] {
        case Change(r, user, now) => PutKeepsLinked(ConfigAfter(None, before), LogOf(None, before), r, user, now);
        case Touch(now) =>
      }
    }
  }
}
