/** The registered minor-unit fields of the invoice collection (jsonSchemaValidators.ts, MINOR_FIELD_REGISTRY). */
module SchemaRegistry {
  import opened Text
  import opened SchemaTree

  const PARSED := "parsed"
  const GST := "gst"
  const LINE_ITEMS := "lineItems"
  const COMPLIANCE := "compliance"
  const TDS := "tds"
  const TCS := "tcs"
  const WORKFLOW_STATE := "workflowState"
  const STEP_RESULTS := "stepResults"
  const INVOICE_AMOUNT := "invoiceAmountMinor"
  const TOTAL_AMOUNT := "totalAmountMinor"

  function Dotted(a: string, b: string): string { a + ['.'] + b }

  const ROOT_GROUP := FieldGroup("", [INVOICE_AMOUNT], true, false)
  const PARSED_GROUP := FieldGroup(PARSED, [TOTAL_AMOUNT], true, false)
  const GST_GROUP := FieldGroup(Dotted(PARSED, GST),
    ["subtotalMinor", "cgstMinor", "sgstMinor", "igstMinor", "cessMinor", "totalTaxMinor"], true, false)
  const LINE_ITEMS_GROUP :=
    FieldGroup(Dotted(PARSED, LINE_ITEMS), ["amountMinor", "cgstMinor", "sgstMinor", "igstMinor"], true, true)
  const TDS_GROUP := FieldGroup(Dotted(COMPLIANCE, TDS), ["amountMinor", "netPayableMinor", "taxableBaseMinor"], true,
                                false)
  const TCS_GROUP := FieldGroup(Dotted(COMPLIANCE, TCS), ["amountMinor"], true, false)
  const STEPS_GROUP := FieldGroup(Dotted(WORKFLOW_STATE, STEP_RESULTS), [INVOICE_AMOUNT], true, true)

  const INVOICE: seq<FieldGroup> :=
    [ROOT_GROUP, PARSED_GROUP, GST_GROUP, LINE_ITEMS_GROUP, TDS_GROUP, TCS_GROUP, STEPS_GROUP]

  lemma TwoSegments(g: FieldGroup, a: string, b: string)
    requires g.prefix == Dotted(a, b) && Free(a, {'.'}) && Free(b, {'.'})
    ensures Segments(g) == [a, b]
  {
    SplitAt(a, '.', b, {'.'});
    SplitFree(a, {'.'});
    SplitFree(b, {'.'});
  }

  lemma Undotted()
    ensures Free(PARSED, {'.'}) && Free(COMPLIANCE, {'.'}) && Free(WORKFLOW_STATE, {'.'}) && Free(STEP_RESULTS, {'.'})
    ensures Free(GST, {'.'}) && Free(LINE_ITEMS, {'.'}) && Free(TDS, {'.'}) && Free(TCS, {'.'})
    ensures PARSED != ""
  {
  }

  lemma InvoiceSegments()
    ensures Segments(ROOT_GROUP) == []
    ensures Segments(PARSED_GROUP) == [PARSED]
    ensures Segments(GST_GROUP) == [PARSED, GST] && Segments(LINE_ITEMS_GROUP) == [PARSED, LINE_ITEMS]
    ensures Segments(TDS_GROUP) == [COMPLIANCE, TDS] && Segments(TCS_GROUP) == [COMPLIANCE, TCS]
    ensures Segments(STEPS_GROUP) == [WORKFLOW_STATE, STEP_RESULTS]
  {
    Undotted();
    OneSegment(PARSED_GROUP, PARSED);
    TwoSegments(GST_GROUP, PARSED, GST);
    TwoSegments(LINE_ITEMS_GROUP, PARSED, LINE_ITEMS);
    TwoSegments(TDS_GROUP, COMPLIANCE, TDS);
    TwoSegments(TCS_GROUP, COMPLIANCE, TCS);
    TwoSegments(STEPS_GROUP, WORKFLOW_STATE, STEP_RESULTS);
  }

  lemma OneSegment(g: FieldGroup, a: string)
    requires g.prefix == a != "" && Free(a, {'.'})
    ensures Segments(g) == [a]
  {
    SplitFree(a, {'.'});
  }

  lemma NamesDiffer()
    ensures PARSED != COMPLIANCE && PARSED != WORKFLOW_STATE && COMPLIANCE != WORKFLOW_STATE
    ensures GST != LINE_ITEMS && TDS != TCS
    ensures INVOICE_AMOUNT !in {PARSED, COMPLIANCE, WORKFLOW_STATE}
    ensures TOTAL_AMOUNT !in {GST, LINE_ITEMS}
  {
    assert PARSED[0] == 'p' && COMPLIANCE[0] == 'c' && WORKFLOW_STATE[0] == 'w' && INVOICE_AMOUNT[0] == 'i';
    assert GST[0] == 'g' && LINE_ITEMS[0] == 'l' && TOTAL_AMOUNT[0] == 't';
    assert TDS[1] == 'd' && TCS[1] == 'c';
  }

  /** Neither prefix begins with the other. */
  lemma DivergingCompatible(g: FieldGroup, h: FieldGroup, k: nat)
    requires k < |Segments(g)| && k < |Segments(h)| && Segments(g)[k] != Segments(h)[k]
    ensures Compatible(g, h)
  {
  }

  /** An object group above another one, with none of its fields on the way. */
  lemma AboveCompatible(g: FieldGroup, h: FieldGroup)
    requires Segments(g) < Segments(h) && !IsArray(g) && Segments(h)[|Segments(g)|] !in g.fields
    ensures Compatible(g, h)
  {
  }

  lemma SelfCompatible(g: FieldGroup)
    ensures Compatible(g, g)
  {
  }

  lemma BelowRoot(h: FieldGroup)
    requires h in INVOICE && h != ROOT_GROUP
    ensures Compatible(ROOT_GROUP, h)
  {
    InvoiceSegments();
    NamesDiffer();
    AboveCompatible(ROOT_GROUP, h);
  }

  lemma UnderParsed()
    ensures Compatible(PARSED_GROUP, GST_GROUP) && Compatible(PARSED_GROUP, LINE_ITEMS_GROUP)
    ensures Compatible(GST_GROUP, LINE_ITEMS_GROUP) && Compatible(TDS_GROUP, TCS_GROUP)
  {
    InvoiceSegments();
    NamesDiffer();
    AboveCompatible(PARSED_GROUP, GST_GROUP);
    AboveCompatible(PARSED_GROUP, LINE_ITEMS_GROUP);
    DivergingCompatible(GST_GROUP, LINE_ITEMS_GROUP, 1);
    DivergingCompatible(TDS_GROUP, TCS_GROUP, 1);
  }

  predicate UnderPrefix(g: FieldGroup) {
    g == PARSED_GROUP || g == GST_GROUP || g == LINE_ITEMS_GROUP || g == TDS_GROUP || g == TCS_GROUP || g == STEPS_GROUP
  }

  lemma AcrossTops(g: FieldGroup, h: FieldGroup)
    requires UnderPrefix(g) && UnderPrefix(h) && Segments(g)[..1] != Segments(h)[..1]
    ensures Compatible(g, h)
  {
    InvoiceSegments();
    DivergingCompatible(g, h, 0);
  }

  lemma SameTop(g: FieldGroup, h: FieldGroup)
    requires UnderPrefix(g) && UnderPrefix(h) && Segments(g)[..1] == Segments(h)[..1] && g != h
    ensures Compatible(g, h)
  {
    UnderParsed();
    TopsOf(g);
    TopsOf(h);
  }

  /** The first segment tells the three subtrees apart. */
  lemma TopsOf(g: FieldGroup)
    requires UnderPrefix(g)
    ensures Segments(g)[..1] == [PARSED] <==> g == PARSED_GROUP || g == GST_GROUP || g == LINE_ITEMS_GROUP
    ensures Segments(g)[..1] == [COMPLIANCE] <==> g == TDS_GROUP || g == TCS_GROUP
    ensures Segments(g)[..1] == [WORKFLOW_STATE] <==> g == STEPS_GROUP
  {
    InvoiceSegments();
    NamesDiffer();
  }

  lemma InvoiceGroups(g: FieldGroup)
    requires g in INVOICE
    ensures g == ROOT_GROUP || UnderPrefix(g)
  {
  }

  lemma InvoiceCompatible(g: FieldGroup, h: FieldGroup)
    requires g in INVOICE && h in INVOICE
    ensures Compatible(g, h)
  {
    InvoiceGroups(g);
    InvoiceGroups(h);
    if g == h {
      SelfCompatible(g);
    } else if g == ROOT_GROUP {
      BelowRoot(h);
    } else if h == ROOT_GROUP {
      BelowRoot(g);
    } else if Segments(g)[..1] != Segments(h)[..1] {
      AcrossTops(g, h);
    } else {
      SameTop(g, h);
    }
  }

  /** Main result for the invoice collection: every registration resolves in every order, and nothing else is in the
      schema. */
  lemma InvoiceRegistryResolves()
    ensures EveryOrderResolves(INVOICE) && Exact(Schema(INVOICE), INVOICE)
  {
    forall g, h | g in INVOICE && h in INVOICE
      ensures Compatible(g, h)
    {
      InvoiceCompatible(g, h);
    }
    CompatibleExactly(INVOICE);
    SchemaExact(INVOICE);
  }
}
