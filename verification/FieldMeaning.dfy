/** What the heuristics pick and what a selection makes of each field (ai/slm/app). */
module FieldMeaning {
  import opened Text
  import opened Wrappers
  import opened FieldMerge

  // ---------- the picks ----------

  /** Main result: the vendor is the first of the best-scoring candidates: at least three characters, three of them
      letters, and not like an address. */
  lemma {:induction false} FirstVendor(vendors: seq<string>, ev: Evidence, texts: Texts) returns (i: nat)
    requires PickVendor(vendors, ev, texts).Some?
    ensures i < |vendors| && PickVendor(vendors, ev, texts) == Some(vendors[i])
    ensures |vendors[i]| >= 3 && !texts.address(vendors[i]) && texts.letters(vendors[i]) >= 3
    ensures forall k :: 0 <= k < |vendors| ==>
              var v, s, best := vendors[k], ev.score(vendors[k]), ev.score(vendors[i]);
              |v| >= 3 && !texts.address(v) && texts.letters(v) >= 3 ==> if k < i then s < best else s <= best
  {
    var n := |vendors| - 1;
    var before := PickVendor(vendors[..n], ev, texts);
    var better :=
      IsVendorCandidate(vendors[n], texts) && (before.None? || ev.score(vendors[n]) > ev.score(before.value));
    if !better {
      i := FirstVendor(vendors[..n], ev, texts);
      assert forall k :: 0 <= k < n ==> vendors[..n][k] == vendors[k];
    } else {
      i := n;
      VendorsBefore(vendors[..n], ev, texts, vendors[n]);
      assert forall k :: 0 <= k < n ==> vendors[..n][k] == vendors[k];
    }
  }

  lemma VendorsBefore(vendors: seq<string>, ev: Evidence, texts: Texts, v: string)
    requires var best := PickVendor(vendors, ev, texts); best.None? || ev.score(best.value) < ev.score(v)
    ensures forall k :: 0 <= k < |vendors| && IsVendorCandidate(vendors[k], texts) ==>
      ev.score(vendors[k]) < ev.score(v)
  {
    forall k | 0 <= k < |vendors| && IsVendorCandidate(vendors[k], texts)
      ensures ev.score(vendors[k]) < ev.score(v)
    {
      assert vendors[k] in vendors;
    }
  }

  /** Main result: the invoice number is the first of the longest candidates of the right form. */
  lemma {:induction false} FirstNumber(candidates: seq<string>, texts: Texts) returns (i: nat)
    requires PickInvoiceNumber(candidates, texts).Some?
    ensures i < |candidates| && PickInvoiceNumber(candidates, texts) == Some(candidates[i]) &&
      texts.invoiceNumber(candidates[i])
    ensures forall k :: 0 <= k < |candidates| && texts.invoiceNumber(candidates[k]) ==>
              if k < i then |candidates[k]| < |candidates[i]| else |candidates[k]| <= |candidates[i]|
  {
    var n := |candidates| - 1;
    var before := PickInvoiceNumber(candidates[..n], texts);
    assert forall k :: 0 <= k < n ==> candidates[..n][k] == candidates[k];
    if before.Some? && !(texts.invoiceNumber(candidates[n]) && |candidates[n]| > |before.value|) {
      i := FirstNumber(candidates[..n], texts);
    } else {
      i := n;
      assert forall k :: 0 <= k < n ==> candidates[k] in candidates[..n];
    }
  }

  /** Main result: the currency is the first candidate whose trimmed capitals are a known code, and INR without one. */
  lemma {:induction false} FirstCurrency(candidates: seq<string>, texts: Texts) returns (i: nat)
    ensures var known := {"USD", "EUR", "GBP", "INR", "AUD", "CAD", "JPY", "AED", "SGD", "CHF", "CNY"};
      && i <= |candidates|
      && (forall k :: 0 <= k < i ==> texts.upper(Trim(candidates[k], PY_SPACE)) !in known)
      && (i < |candidates| ==> texts.upper(Trim(candidates[i], PY_SPACE)) in known)
      && (i < |candidates| ==> PickCurrency(candidates, texts) == texts.upper(Trim(candidates[i], PY_SPACE)))
      && (i == |candidates| ==> PickCurrency(candidates, texts) == "INR")
  {
    if candidates == [] || texts.upper(Trim(candidates[0], PY_SPACE)) in CURRENCIES {
      i := 0;
    } else {
      var j := FirstCurrency(candidates[1..], texts);
      i := j + 1;
      assert forall k :: 1 <= k < |candidates| ==> candidates[k] == candidates[1..][k - 1];
    }
  }

  /** Main result: the total is the positive candidate of the greatest weight, 105 hundredths near the corner and 100
      elsewhere, and the greater of two that weigh alike; in strict mode a positive current total holds against one that
      is further away than 100 and than a twentieth. */
  lemma TotalMeans(ev: Evidence, current: Fields, mode: Mode)
    ensures var pick := PickTotal(ev, current, mode);
      && (pick.None? <==> forall c :: c in ev.totals ==> c <= 0)
      && (pick.Some? ==> exists best ::
            && best in ev.totals && best > 0 && Heaviest(best, ev)
            && pick == Some(if mode == Strict && Holds(current, best) then current["totalAmountMinor"].n else best))
  {
    var best := BestTotal(ev.totals, ev);
    if best.Some? {
      forall c | c in ev.totals && c > 0
        ensures Weight(c, ev) < Weight(best.value, ev) || (Weight(c, ev) == Weight(best.value, ev) && c <= best.value)
      {
        assert Outweighs(best.value, c, ev);
      }
      assert Heaviest(best.value, ev);
    }
  }

  function Weight(c: int, ev: Evidence): int { c * if ev.nearCorner(c) then 105 else 100 }

  ghost predicate Heaviest(best: int, ev: Evidence) {
    forall c :: c in ev.totals && c > 0 ==>
      Weight(c, ev) < Weight(best, ev) || (Weight(c, ev) == Weight(best, ev) && c <= best)
  }

  /** A positive current total, further from `best` than 100 and than a twentieth of itself. */
  predicate Holds(current: Fields, best: int) {
    && "totalAmountMinor" in current && current["totalAmountMinor"].Int? && current["totalAmountMinor"].n > 0
    && var n := current["totalAmountMinor"].n;
       (best - n > 100 || n - best > 100) && (best - n > n / 20 || n - best > n / 20)
  }

  // ---------- the merged fields ----------

  lemma KeysApart()
    ensures INVOICE != VENDOR && INVOICE != CURRENCY && INVOICE != TOTAL
    ensures VENDOR != CURRENCY && VENDOR != TOTAL && CURRENCY != TOTAL
  {
    assert CURRENCY[0] == 'c' && INVOICE[0] == 'i' && VENDOR[0] == 'v' && TOTAL[0] == 't';
  }

  /** What a set of fields holds under a name, if anything. */
  ghost predicate HoldsExactly(fields: Fields, key: string, value: Option<Value>) {
    (key in fields <==> value.Some?) && (key in fields ==> fields[key] == value.value)
  }

  /** The four fields that may be picked, each under its name. */
  ghost predicate PickedAs(picks: Fields, number: Option<string>, vendor: Option<string>, currency: string,
                           total: Option<int>) {
    && picks.Keys <= {"invoiceNumber", "vendorName", "currency", "totalAmountMinor"}
    && HoldsExactly(picks, "invoiceNumber",
                    if number.Some? && number.value != "" then Some(Str(number.value)) else None)
    && HoldsExactly(picks, "vendorName", if vendor.Some? then Some(Str(vendor.value)) else None)
    && HoldsExactly(picks, "currency", Some(Str(currency)))
    && HoldsExactly(picks, "totalAmountMinor", if total.Some? then Some(Int(total.value)) else None)
  }

  lemma ChoiceMeans(number: Option<string>, vendor: Option<string>, currency: string, total: Option<int>)
    ensures PickedAs(Choice(number, vendor, currency, total), number, vendor, currency, total)
  {
    KeysApart();
  }

  lemma SelectedWithout(mode: Mode, current: Fields, ev: Evidence, texts: Texts, usable: (string, Value) -> bool)
    ensures Selected(mode, current, None, ev, texts, usable) ==
      Applied(mode, current, Heuristic(ev, current, mode, texts), texts)
  {
  }

  /** Main result: on the fallback path what was picked is merged, each pick under its name, by the rules of the
      mode. */
  lemma FallbackMeans(mode: Mode, current: Fields, ev: Evidence, texts: Texts, usable: (string, Value) -> bool)
    returns (picks: Fields)
    ensures Selected(mode, current, None, ev, texts, usable) == Applied(mode, current, picks, texts)
    ensures PickedAs(picks, PickInvoiceNumber(ev.invoiceNumbers, texts), PickVendor(ev.vendors, ev, texts),
                     PickCurrency(ev.currencies, texts), PickTotal(ev, current, mode))
  {
    picks := Heuristic(ev, current, mode, texts);
    SelectedWithout(mode, current, ev, texts, usable);
    ChoiceMeans(PickInvoiceNumber(ev.invoiceNumbers, texts), PickVendor(ev.vendors, ev, texts),
                PickCurrency(ev.currencies, texts), PickTotal(ev, current, mode));
  }

  /** Main result: on the model path a bookkeeping entry is the model's, if usable, and otherwise the current one. */
  lemma BookkeepingMeans(mode: Mode, current: Fields, slm: Fields, ev: Evidence, texts: Texts,
                         usable: (string, Value) -> bool, k: string)
    requires Core(slm) != map[]
    requires k in {"_blockIndices", "_fieldConfidence", "_fieldProvenance", "_lineItemProvenance", "_classification"}
    ensures var merged := Selected(mode, current, Some(slm), ev, texts, usable);
      if k in slm && usable(k, slm[k]) then k in merged && merged[k] == slm[k]
      else (k in merged <==> k in current) && (k in current ==> merged[k] == current[k])
  {
    NamesApart();
    assert k in META && k != VENDOR && k !in Core(slm);
  }

  /** Main result: any other field but the vendor name is that of the merge. */
  lemma ModelMeans(mode: Mode, current: Fields, slm: Fields, ev: Evidence, texts: Texts,
                   usable: (string, Value) -> bool, k: string)
    requires Core(slm) != map[] && k != "vendorName"
    requires k !in {"_blockIndices", "_fieldConfidence", "_fieldProvenance", "_lineItemProvenance", "_classification"}
    ensures var merged := Selected(mode, current, Some(slm), ev, texts, usable);
      var applied := Applied(mode, current, Core(slm), texts);
      (k in merged <==> k in applied) && (k in applied ==> merged[k] == applied[k])
  {
  }

  /** Main result: the vendor name of the merge stays if it is text, not blank and not like an address; otherwise the
      best vendor candidate replaces it, if there is one. */
  lemma VendorMeans(mode: Mode, current: Fields, slm: Fields, ev: Evidence, texts: Texts,
                    usable: (string, Value) -> bool)
    requires Core(slm) != map[]
    ensures var merged := Selected(mode, current, Some(slm), ev, texts, usable);
      var applied := Applied(mode, current, Core(slm), texts);
      var pick := PickVendor(ev.vendors, ev, texts);
      var sound := "vendorName" in applied && applied["vendorName"].Str? && !Blank(applied["vendorName"].s, PY_SPACE)
                   && !texts.address(applied["vendorName"].s);
      if sound || pick.None?
      then
        ("vendorName" in merged <==> "vendorName" in applied)
        && ("vendorName" in applied ==> merged["vendorName"] == applied["vendorName"])
      else "vendorName" in merged && merged["vendorName"] == Str(pick.value)
  {
    NamesApart();
    var applied := Applied(mode, current, Core(slm), texts);
    if "vendorName" in applied && applied["vendorName"].Str? {
      var _, _ := TrimShape(applied["vendorName"].s, PY_SPACE);
    }
  }
}
