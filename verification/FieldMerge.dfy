/** Merging a model's field selections into the current fields, with heuristic fallback (ai/slm/app). */
module FieldMerge {
  import opened Text
  import opened Wrappers

  /** A field value; `Other` stands for every value that is neither null, text nor an integer. */
  datatype Value = Null | Str(s: string) | Int(n: int) | Other(tag: int)

  type Fields = map<string, Value>

  datatype Mode = Strict | Relaxed

  const INVOICE := "invoiceNumber"
  const VENDOR := "vendorName"
  const CURRENCY := "currency"
  const TOTAL := "totalAmountMinor"
  const META: set<string> :=
    {"_blockIndices", "_fieldConfidence", "_fieldProvenance", "_lineItemProvenance", "_classification"}

  predicate Empty(v: Value) { v == Null || v == Str("") }

  /** The tests on texts: address-like, number of letters, looks like an invoice number; and upper case. */
  datatype Texts = Texts(address: string -> bool, letters: string -> nat, invoiceNumber: string -> bool,
                         upper: string -> string)

  // ---------- apply_mode ----------

  /** What strict mode keeps of a field that both sides have. */
  function StrictValue(key: string, current: Value, selected: Value, texts: Texts): Value {
    if Empty(current) then selected
    else if key == VENDOR && current.Str? && selected.Str? then
      if texts.address(current.s) && !texts.address(selected.s) then selected else current
    else if key == TOTAL && current.Int? && selected.Int? then
      if current.n <= 0 && selected.n > 0 then selected else current
    else current
  }

  function Applied(mode: Mode, current: Fields, selected: Fields, texts: Texts): Fields {
    if mode == Relaxed then current + selected
    else
      map k | k in current.Keys + selected.Keys ::
        if k !in current then selected[k]
        else if k !in selected then current[k]
        else StrictValue(k, current[k], selected[k], texts)
  }

  function Restricted(selected: Fields, keys: set<string>): Fields {
    map k | k in selected && k in keys :: selected[k]
  }

  /** Taking one more key of the selection changes that key alone. */
  lemma AppliedStep(current: Fields, selected: Fields, done: set<string>, key: string, texts: Texts)
    requires key in selected && key !in done
    ensures var merged := Applied(Strict, current, Restricted(selected, done), texts);
      && (key in merged <==> key in current) && (key in current ==> merged[key] == current[key])
      && Applied(Strict, current, Restricted(selected, done + {key}), texts) ==
           merged[key := if key in current then StrictValue(key, current[key], selected[key], texts) else selected[key]]
  {
  }

  method ApplyMode(mode: Mode, current: Fields, selected: Fields, texts: Texts) returns (merged: Fields)
    ensures merged == Applied(mode, current, selected, texts)
  {
    if mode == Relaxed {
      return current + selected;
    }
    merged := current;
    var keys := selected.Keys;
    while keys != {}
      invariant keys <= selected.Keys
      invariant merged == Applied(Strict, current, Restricted(selected, selected.Keys - keys), texts)
      decreases keys
    {
      var key :| key in keys;
      var value := selected[key];
      AppliedStep(current, selected, selected.Keys - keys, key, texts);
      assert selected.Keys - (keys - {key}) == selected.Keys - keys + {key};
      assert key in merged <==> key in current;
      if key !in merged || Empty(merged[key]) {
        merged := merged[key := value];
      } else if key == VENDOR && merged[key].Str? && value.Str? {
        if texts.address(merged[key].s) && !texts.address(value.s) {
          merged := merged[key := value];
        }
      } else if key == TOTAL && merged[key].Int? && value.Int? {
        if merged[key].n <= 0 && value.n > 0 {
          merged := merged[key := value];
        }
      }
      keys := keys - {key};
    }
    assert Restricted(selected, selected.Keys - keys) == selected;
  }

  /** Main result: the merge has the fields of both sides. In relaxed mode the selection wins. In strict mode the
      current value stays, unless it is empty, or an address-like vendor name against one that is not, or a total that
      is not positive against one that is. */
  lemma AppliedMeans(mode: Mode, current: Fields, selected: Fields, texts: Texts, k: string)
    ensures var merged := Applied(mode, current, selected, texts);
      && (k in merged <==> k in current || k in selected)
      && (k in selected && k !in current ==> merged[k] == selected[k])
      && (k in current && k !in selected ==> merged[k] == current[k])
      && (k in current && k in selected && mode == Relaxed ==> merged[k] == selected[k])
      && (k in current && k in selected && mode == Strict ==>
            merged[k] ==
              if || current[k] == Null || current[k] == Str("")
                 || (k == "vendorName" && current[k].Str? && selected[k].Str?
                     && texts.address(current[k].s) && !texts.address(selected[k].s))
                 || (k == "totalAmountMinor" && current[k].Int? && selected[k].Int?
                     && current[k].n <= 0 < selected[k].n)
              then selected[k] else current[k])
  {
    assert VENDOR[0] != TOTAL[0];
  }

  /** Main result: applying the same selection twice changes nothing more. */
  lemma ApplyIdempotent(mode: Mode, current: Fields, selected: Fields, texts: Texts)
    ensures Applied(mode, Applied(mode, current, selected, texts), selected, texts) ==
      Applied(mode, current, selected, texts)
  {
  }

  // ---------- the heuristics ----------

  /** What the heuristics are given: candidate lists, and what the blocks say of a vendor line and of a total. */
  datatype Evidence = Evidence(
    vendors: seq<string>, totals: seq<int>, invoiceNumbers: seq<string>, currencies: seq<string>,
    score: string -> real, nearCorner: int -> bool)

  predicate IsVendorCandidate(line: string, texts: Texts) {
    |line| >= 3 && !texts.address(line) && texts.letters(line) >= 3
  }

  /** The first longest candidate that looks like an invoice number. */
  function PickInvoiceNumber(candidates: seq<string>, texts: Texts): (pick: Option<string>)
    ensures pick.Some? ==> pick.value in candidates && texts.invoiceNumber(pick.value)
    ensures pick.None? ==> forall c :: c in candidates ==> !texts.invoiceNumber(c)
    ensures pick.Some? ==> forall c :: c in candidates && texts.invoiceNumber(c) ==> |c| <= |pick.value|
  {
    if candidates == [] then None
    else
      var last, best := candidates[|candidates| - 1], PickInvoiceNumber(candidates[..|candidates| - 1], texts);
      if texts.invoiceNumber(last) && (best.None? || |last| > |best.value|) then Some(last) else best
  }

  const CURRENCIES: set<string> := {"USD", "EUR", "GBP", "INR", "AUD", "CAD", "JPY", "AED", "SGD", "CHF", "CNY"}

  /** The first candidate that is a currency code, or rupees. */
  function PickCurrency(candidates: seq<string>, texts: Texts): string {
    if candidates == [] then "INR"
    else
      var code := texts.upper(Trim(candidates[0], PY_SPACE));
      if code in CURRENCIES then code else PickCurrency(candidates[1..], texts)
  }

  /** The first best-scoring vendor candidate. */
  function PickVendor(vendors: seq<string>, ev: Evidence, texts: Texts): (pick: Option<string>)
    ensures pick.Some? ==> pick.value in vendors && IsVendorCandidate(pick.value, texts)
    ensures pick.Some? <==> exists v :: v in vendors && IsVendorCandidate(v, texts)
    ensures pick.Some? ==>
      forall v :: v in vendors && IsVendorCandidate(v, texts) ==> ev.score(v) <= ev.score(pick.value)
  {
    if vendors == [] then None
    else
      var last, best := vendors[|vendors| - 1], PickVendor(vendors[..|vendors| - 1], ev, texts);
      if IsVendorCandidate(last, texts) && (best.None? || ev.score(last) > ev.score(best.value)) then Some(last)
      else best
  }

  /** A total's score in hundredths: five per cent more near the bottom right corner. */
  function TotalScore(value: int, ev: Evidence): int {
    if ev.nearCorner(value) then 105 * value else 100 * value
  }

  predicate Outweighs(a: int, b: int, ev: Evidence) {
    TotalScore(a, ev) > TotalScore(b, ev) || (TotalScore(a, ev) == TotalScore(b, ev) && a >= b)
  }

  /** The positive candidate of the greatest score, the greater value on a tie. */
  function BestTotal(totals: seq<int>, ev: Evidence): (best: Option<int>)
    ensures best.Some? ==> best.value in totals && best.value > 0
    ensures best.None? ==> forall c :: c in totals ==> c <= 0
    ensures best.Some? ==> forall c :: c in totals && c > 0 ==> Outweighs(best.value, c, ev)
  {
    if totals == [] then None
    else
      assert forall c :: c in totals ==> c in totals[..|totals| - 1] || c == totals[|totals| - 1];
      var last, best := totals[|totals| - 1], BestTotal(totals[..|totals| - 1], ev);
      if last > 0 && (best.None? || !Outweighs(best.value, last, ev)) then Some(last) else best
  }

  function Distance(a: int, b: int): int { if a < b then b - a else a - b }

  function PickTotal(ev: Evidence, current: Fields, mode: Mode): Option<int> {
    var best := BestTotal(ev.totals, ev);
    if best.None? then None
    else if mode == Strict && TOTAL in current && current[TOTAL].Int? && current[TOTAL].n > 0
      && Distance(best.value, current[TOTAL].n) > (if current[TOTAL].n / 20 > 100 then current[TOTAL].n / 20 else 100)
    then Some(current[TOTAL].n)
    else best
  }

  /** Main result: in relaxed mode the picked total is a positive candidate that no other exceeds by more than five per
      cent. */
  lemma RelaxedTotalNearMaximum(ev: Evidence, current: Fields)
    ensures PickTotal(ev, current, Relaxed).Some? <==> exists c :: c in ev.totals && c > 0
    ensures var v := PickTotal(ev, current, Relaxed);
      v.Some? ==>
        v.value in ev.totals && v.value > 0 && forall c :: c in ev.totals && c > 0 ==> 105 * v.value >= 100 * c
  {
    var v := PickTotal(ev, current, Relaxed);
    if v.Some? {
      forall c | c in ev.totals && c > 0
        ensures 105 * v.value >= 100 * c
      {
        assert Outweighs(v.value, c, ev);
      }
    }
  }

  /** In strict mode the picked total stays close to a positive current one. */
  lemma StrictTotalNearCurrent(ev: Evidence, current: Fields)
    requires TOTAL in current && current[TOTAL].Int? && current[TOTAL].n > 0
    ensures var v, n := PickTotal(ev, current, Strict), current[TOTAL].n;
      v.Some? ==> Distance(v.value, n) <= 100 || Distance(v.value, n) <= n / 20
  {
  }

  function Heuristic(ev: Evidence, current: Fields, mode: Mode, texts: Texts): Fields {
    Choice(PickInvoiceNumber(ev.invoiceNumbers, texts), PickVendor(ev.vendors, ev, texts),
           PickCurrency(ev.currencies, texts),
           PickTotal(ev, current, mode))
  }

  function Choice(number: Option<string>, vendor: Option<string>, currency: string, total: Option<int>): Fields {
    (if number.Some? && number.value != "" then map[INVOICE := Str(number.value)] else map[])
    + (if vendor.Some? then map[VENDOR := Str(vendor.value)] else map[])
    + map[CURRENCY := Str(currency)]
    + (if total.Some? then map[TOTAL := Int(total.value)] else map[])
  }

  /** A vendor name that is not even looked at for repair: text, not blank, no address. */
  predicate SoundVendor(v: Value, texts: Texts) {
    v.Str? && Trim(v.s, PY_SPACE) != "" && !texts.address(v.s)
  }

  function Repaired(merged: Fields, ev: Evidence, texts: Texts): Fields {
    if VENDOR in merged && SoundVendor(merged[VENDOR], texts) then merged
    else
      var pick := PickVendor(ev.vendors, ev, texts);
      if pick.None? || (VENDOR in merged && merged[VENDOR] == Str(pick.value)) then merged
      else merged[VENDOR := Str(pick.value)]
  }

  // ---------- select_with_fallback ----------

  /** The selection of the model without its bookkeeping entries. */
  function Core(selected: Fields): Fields { selected - META }

  /** The bookkeeping entries worth keeping. */
  function Bookkeeping(selected: Fields, usable: (string, Value) -> bool): Fields {
    map k | k in selected && k in META && usable(k, selected[k]) :: selected[k]
  }

  function Selected(mode: Mode, current: Fields, slm: Option<Fields>, ev: Evidence, texts: Texts,
                    usable: (string, Value) -> bool): Fields {
    if slm.Some? && Core(slm.value) != map[] then
      Repaired(Applied(mode, current, Core(slm.value), texts), ev, texts) + Bookkeeping(slm.value, usable)
    else Applied(mode, current, Heuristic(ev, current, mode, texts), texts)
  }

  /** Pop the bookkeeping entries off the selection. */
  method PopBookkeeping(slm: Fields, usable: (string, Value) -> bool) returns (selected: Fields, bookkeeping: Fields)
    ensures selected == Core(slm) && bookkeeping == Bookkeeping(slm, usable)
  {
    selected, bookkeeping := slm, map[];
    var keys := META;
    while keys != {}
      invariant keys <= META
      invariant selected == slm - (META - keys)
      invariant bookkeeping == map k | k in slm && k in META && k !in keys && usable(k, slm[k]) :: slm[k]
      decreases keys
    {
      var key :| key in keys;
      ghost var popped := META - keys + {key};
      assert META - (keys - {key}) == popped;
      if key in selected {
        if usable(key, selected[key]) {
          bookkeeping := bookkeeping[key := selected[key]];
        }
        selected := selected - {key};
      }
      keys := keys - {key};
    }
  }

  method SelectWithFallback(mode: Mode, current: Fields, slm: Option<Fields>, ev: Evidence, texts: Texts,
                            usable: (string, Value) -> bool)
    returns (merged: Fields)
    ensures merged == Selected(mode, current, slm, ev, texts, usable)
  {
    if slm.Some? {
      var selected, bookkeeping := PopBookkeeping(slm.value, usable);
      if selected != map[] {
        merged := ApplyMode(mode, current, selected, texts);
        merged := Repaired(merged, ev, texts);
        return merged + bookkeeping;
      }
    }
    merged := ApplyMode(mode, current, Heuristic(ev, current, mode, texts), texts);
  }

  /** Strict mode keeps the field on the model path, whatever was selected. */
  predicate KeptByModel(key: string, v: Value, texts: Texts) {
    && !Empty(v) && key !in META
    && (key == VENDOR ==> SoundVendor(v, texts))
    && (key == TOTAL && v.Int? ==> v.n > 0)
  }

  /** Strict mode keeps the field on the fallback path. */
  predicate KeptByFallback(key: string, v: Value, texts: Texts) {
    && !Empty(v)
    && (key == VENDOR && v.Str? ==> !texts.address(v.s))
    && (key == TOTAL && v.Int? ==> v.n > 0)
  }

  predicate Carries(fields: Fields, key: string, v: Value) {
    key in fields && fields[key] == v
  }

  /** Whatever is selected and whatever the evidence, a current value `v` of `key` comes out of the model path
      unchanged. */
  ghost predicate AlwaysKept(key: string, v: Value, texts: Texts, usable: (string, Value) -> bool) {
    forall current: Fields, slm: Fields, ev: Evidence ::
      Carries(current, key, v) && Core(slm) != map[] ==>
        Carries(Selected(Strict, current, Some(slm), ev, texts, usable), key, v)
  }

  ghost predicate AlwaysKeptByFallback(key: string, v: Value, texts: Texts, usable: (string, Value) -> bool) {
    forall current: Fields, ev: Evidence ::
      Carries(current, key, v) ==> Carries(Selected(Strict, current, None, ev, texts, usable), key, v)
  }

  function NoEvidence(): Evidence {
    Evidence([], [], [], [], (v: string) => 0.0, (n: int) => false)
  }

  /** Main result: in strict mode the model path keeps a field exactly when it is not empty, no bookkeeping entry,
      no unsound vendor name and no total that is not positive. */
  lemma StrictModelKeepsExactly(key: string, v: Value, texts: Texts, usable: (string, Value) -> bool, name: string,
                                entry: Value)
    requires IsVendorCandidate(name, texts) && v != Str(name)
    requires key in META ==> usable(key, entry) && entry != v
    ensures AlwaysKept(key, v, texts, usable) <==> KeptByModel(key, v, texts)
  {
    if !KeptByModel(key, v, texts) {
      ModelReplaces(key, v, texts, usable, name, entry);
    }
  }

  lemma ModelReplaces(key: string, v: Value, texts: Texts, usable: (string, Value) -> bool, name: string, entry: Value)
    requires IsVendorCandidate(name, texts) && v != Str(name)
    requires key in META ==> usable(key, entry) && entry != v
    requires !KeptByModel(key, v, texts)
    ensures !AlwaysKept(key, v, texts, usable)
  {
    NamesApart();
    if key in META {
      BookkeepingReplaces(key, v, texts, usable, entry);
    } else if key == VENDOR && !SoundVendor(v, texts) {
      RepairReplaces(v, texts, usable, name);
    } else {
      SelectionReplaces(key, v, texts, usable, if Empty(v) then Str(name) else Int(1));
    }
  }

  lemma NamesApart()
    ensures INVOICE !in META && VENDOR !in META && TOTAL !in META && INVOICE != VENDOR && INVOICE != TOTAL &&
      VENDOR != TOTAL
  {
    assert INVOICE[0] == 'i' && VENDOR[0] == 'v' && TOTAL[0] == 't';
    assert forall k :: k in META ==> k[0] == '_';
  }

  lemma BookkeepingReplaces(key: string, v: Value, texts: Texts, usable: (string, Value) -> bool, entry: Value)
    requires key in META && INVOICE !in META && usable(key, entry) && entry != v
    ensures !AlwaysKept(key, v, texts, usable)
  {
    var current: Fields, slm: Fields := map[key := v], map[INVOICE := Int(1), key := entry];
    assert INVOICE in Core(slm);
    var merged := Selected(Strict, current, Some(slm), NoEvidence(), texts, usable);
    assert Carries(current, key, v) && merged[key] == entry;
  }

  lemma RepairReplaces(v: Value, texts: Texts, usable: (string, Value) -> bool, name: string)
    requires IsVendorCandidate(name, texts) && v != Str(name) && !SoundVendor(v, texts)
    requires INVOICE !in META && VENDOR !in META && INVOICE != VENDOR
    ensures !AlwaysKept(VENDOR, v, texts, usable)
  {
    var current: Fields, slm: Fields := map[VENDOR := v], map[INVOICE := Int(1)];
    var ev := NoEvidence().(vendors := [name]);
    assert IsVendorCandidate(ev.vendors[0], texts);
    assert INVOICE in Core(slm) && VENDOR !in Core(slm);
    var applied := Applied(Strict, current, Core(slm), texts);
    assert applied[VENDOR] == v;
    assert Repaired(applied, ev, texts)[VENDOR] == Str(name);
    var merged := Selected(Strict, current, Some(slm), ev, texts, usable);
    assert Carries(current, VENDOR, v) && merged[VENDOR] != v;
  }

  /** A blank vendor name and one that is no text are replaced although they are neither empty nor like an address. */
  lemma OddVendorReplaced(texts: Texts, usable: (string, Value) -> bool, name: string, tag: int)
    requires IsVendorCandidate(name, texts)
    ensures !Empty(Str(" ")) && !AlwaysKept(VENDOR, Str(" "), texts, usable)
    ensures !Empty(Other(tag)) && !AlwaysKept(VENDOR, Other(tag), texts, usable)
  {
    NamesApart();
    assert |name| >= 3 && |" "| == 1;
    OneSpaceTrims();
    RepairReplaces(Str(" "), texts, usable, name);
    RepairReplaces(Other(tag), texts, usable, name);
  }

  lemma OneSpaceTrims()
    ensures Trim(" ", PY_SPACE) == ""
  {
    assert ' ' in PY_SPACE && Blank(" ", PY_SPACE);
    var _, _ := TrimShape(" ", PY_SPACE);
  }

  lemma SelectionReplaces(key: string, v: Value, texts: Texts, usable: (string, Value) -> bool, value: Value)
    requires key !in META && value != v
    requires key == VENDOR ==> SoundVendor(v, texts)
    requires Empty(v) || (key == TOTAL && v.Int? && v.n <= 0 && value.Int? && value.n > 0)
    requires VENDOR != TOTAL
    ensures !AlwaysKept(key, v, texts, usable)
  {
    var current: Fields, slm: Fields := map[key := v], map[key := value];
    assert key in Core(slm);
    var merged := Selected(Strict, current, Some(slm), NoEvidence(), texts, usable);
    assert Carries(current, key, v) && merged[key] == value;
  }

  predicate Heuristical(key: string) {
    key == INVOICE || key == VENDOR || key == CURRENCY || key == TOTAL
  }

  lemma ChoiceKeys(number: Option<string>, vendor: Option<string>, currency: string, total: Option<int>, key: string)
    requires key in Choice(number, vendor, currency, total)
    ensures Heuristical(key)
  {
  }

  lemma ChoiceAt(number: string, vendor: string, currency: string, total: int)
    requires number != ""
    ensures var picked := Choice(Some(number), Some(vendor), currency, Some(total));
      && INVOICE in picked && picked[INVOICE] == Str(number) && VENDOR in picked && picked[VENDOR] == Str(vendor)
      && CURRENCY in picked && picked[CURRENCY] == Str(currency) && TOTAL in picked && picked[TOTAL] == Int(total)
  {
    assert CURRENCY[0] == 'c' && INVOICE[0] == 'i' && VENDOR[0] == 'v' && TOTAL[0] == 't';
  }

  lemma OneVendor(name: string, ev: Evidence, texts: Texts)
    requires IsVendorCandidate(name, texts)
    ensures PickVendor([name], ev, texts) == Some(name)
  {
    assert [name][0] == name;
  }

  lemma OneNumber(number: string, texts: Texts)
    requires texts.invoiceNumber(number)
    ensures PickInvoiceNumber([number], texts) == Some(number)
  {
    assert [number][0] == number;
  }

  lemma OneTotal(ev: Evidence, current: Fields)
    requires ev.totals == [1]
    ensures PickTotal(ev, current, Strict).Some? && PickTotal(ev, current, Strict).value > 0
  {
    assert ev.totals[0] == 1;
  }

  /** What is selected from one vendor line, one positive total, one invoice number and no currency. */
  lemma HeuristicPicks(current: Fields, texts: Texts, name: string, number: string) returns (ev: Evidence, total: int)
    requires IsVendorCandidate(name, texts) && texts.invoiceNumber(number)
    ensures Heuristic(ev, current, Strict, texts) == Choice(Some(number), Some(name), "INR", Some(total)) && total > 0
  {
    ev := NoEvidence().(vendors := [name], totals := [1], invoiceNumbers := [number]);
    OneVendor(name, ev, texts);
    OneNumber(number, texts);
    OneTotal(ev, current);
    total := PickTotal(ev, current, Strict).value;
    assert PickCurrency([], texts) == "INR";
  }

  /** Main result: on the fallback path it loses a field exactly when a heuristic selects it and it is empty,
      an address-like vendor name or a total that is not positive. */
  lemma StrictFallbackKeepsExactly(key: string, v: Value, texts: Texts, usable: (string, Value) -> bool, name: string,
                                   number: string)
    requires IsVendorCandidate(name, texts) && v != Str(name) && texts.invoiceNumber(number) && number != ""
    ensures AlwaysKeptByFallback(key, v, texts, usable) <==> !Heuristical(key) || KeptByFallback(key, v, texts)
  {
    if Heuristical(key) && !KeptByFallback(key, v, texts) {
      FallbackReplaces(key, v, texts, usable, name, number);
    } else {
      forall current: Fields, ev: Evidence | Carries(current, key, v)
        ensures Carries(Selected(Strict, current, None, ev, texts, usable), key, v)
      {
        FallbackKeeps(key, v, texts, current, ev);
      }
    }
  }

  lemma FallbackKeeps(key: string, v: Value, texts: Texts, current: Fields, ev: Evidence)
    requires Carries(current, key, v) && (KeptByFallback(key, v, texts) || !Heuristical(key))
    ensures Carries(Applied(Strict, current, Heuristic(ev, current, Strict, texts), texts), key, v)
  {
    var number, vendor := PickInvoiceNumber(ev.invoiceNumbers, texts), PickVendor(ev.vendors, ev, texts);
    var currency, total := PickCurrency(ev.currencies, texts), PickTotal(ev, current, Strict);
    if key in Choice(number, vendor, currency, total) { ChoiceKeys(number, vendor, currency, total, key); }
    AppliedKeeps(key, v, texts, current, Choice(number, vendor, currency, total));
  }

  lemma AppliedKeeps(key: string, v: Value, texts: Texts, current: Fields, selected: Fields)
    requires Carries(current, key, v) && (KeptByFallback(key, v, texts) || key !in selected)
    ensures Carries(Applied(Strict, current, selected, texts), key, v)
  {
  }

  lemma FallbackReplaces(key: string, v: Value, texts: Texts, usable: (string, Value) -> bool, name: string,
                         number: string)
    requires IsVendorCandidate(name, texts) && v != Str(name) && texts.invoiceNumber(number) && number != ""
    requires Heuristical(key) && !KeptByFallback(key, v, texts)
    ensures !AlwaysKeptByFallback(key, v, texts, usable)
  {
    var current: Fields := map[key := v];
    var ev, total := HeuristicPicks(current, texts, name, number);
    ChoiceReplaces(key, v, texts, current, number, name, total);
    SelectedByFallback(current, ev, texts, usable);
    assert Carries(current, key, v);
  }

  lemma SelectedByFallback(current: Fields, ev: Evidence, texts: Texts, usable: (string, Value) -> bool)
    ensures Selected(Strict, current, None, ev, texts, usable) ==
      Applied(Strict, current, Heuristic(ev, current, Strict, texts), texts)
  {
  }

  lemma ChoiceReplaces(key: string, v: Value, texts: Texts, current: Fields, number: string, name: string, total: int)
    requires Carries(current, key, v) && Heuristical(key) && !KeptByFallback(key, v, texts)
    requires number != "" && v != Str(name) && !texts.address(name) && name != "" && total > 0
    ensures !Carries(Applied(Strict, current, Choice(Some(number), Some(name), "INR", Some(total)), texts), key, v)
  {
    ChoiceAt(number, name, "INR", total);
    TakesSelected(key, v, texts, current, Choice(Some(number), Some(name), "INR", Some(total)));
  }

  lemma TakesSelected(key: string, v: Value, texts: Texts, current: Fields, selected: Fields)
    requires key in current && current[key] == v && !KeptByFallback(key, v, texts) && key in selected &&
      selected[key] != v
    requires key == VENDOR ==> selected[key].Str? && !texts.address(selected[key].s)
    requires key == TOTAL ==> selected[key].Int? && selected[key].n > 0
    ensures key in Applied(Strict, current, selected, texts) && Applied(Strict, current, selected, texts)[key] != v
  {
    NamesApart();
  }
}
