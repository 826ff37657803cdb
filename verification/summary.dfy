/** The accumulation loop of the `/api/partner/:partnerCode/summary` handler:
    over the partner's records it sums the positive affiliate amounts whose
    affiliate name matches, the positive invitor amounts whose invitor name
    matches, and counts orders. */
module PartnerSummary {
  import opened Ingest
  import opened Attribution
  import opened JsText

  /** The `summary` object of the response. */
  datatype Summary = Summary(totalOrders: nat, commission10: real, commission15: real, totalCommission: real)

  /** What one record adds to `total10`: its affiliate amount when the
      affiliate name matches and the amount is positive, else nothing. */
  function AffiliateShare(r: CommissionRecord, partnerCode: string): (x: real)
    ensures x >= 0.0
    ensures x == 0.0 || x == r.affiliate10Amount
    ensures x != 0.0 <==> TierMatches(r.affiliate10Recipient, partnerCode) && r.affiliate10Amount > 0.0
  {
    if TierMatches(r.affiliate10Recipient, partnerCode) && r.affiliate10Amount > 0.0 then r.affiliate10Amount else 0.0
  }

  /** What one record adds to `total15`: its invitor amount when the invitor
      name matches and the amount is positive, else nothing. */
  function InvitorShare(r: CommissionRecord, partnerCode: string): (x: real)
    ensures x >= 0.0
    ensures x == 0.0 || x == r.invitor15Amount
    ensures x != 0.0 <==> TierMatches(r.invitor15Recipient, partnerCode) && r.invitor15Amount > 0.0
  {
    if TierMatches(r.invitor15Recipient, partnerCode) && r.invitor15Amount > 0.0 then r.invitor15Amount else 0.0
  }

  /** What one record adds to `totalOrders`: one for a counted affiliate
      share, and one for a counted invitor share unless the affiliate name
      matched. Never more than one. */
  function OrderWeight(r: CommissionRecord, partnerCode: string): (n: nat)
    ensures n <= 1
  {
    var isAffiliate := TierMatches(r.affiliate10Recipient, partnerCode);
    var isInvitor := TierMatches(r.invitor15Recipient, partnerCode);
    (if isAffiliate && r.affiliate10Amount > 0.0 then 1 else 0)
      + (if isInvitor && r.invitor15Amount > 0.0 && !isAffiliate then 1 else 0)
  }

  /** `total10` after the loop has seen `records`. */
  function Commission10(records: seq<CommissionRecord>, partnerCode: string): (x: real)
    ensures x >= 0.0
    decreases |records|
  {
    if records == [] then 0.0
    else Commission10(records[..|records| - 1], partnerCode) + AffiliateShare(records[|records| - 1], partnerCode)
  }

  /** `total15` after the loop has seen `records`. */
  function Commission15(records: seq<CommissionRecord>, partnerCode: string): (x: real)
    ensures x >= 0.0
    decreases |records|
  {
    if records == [] then 0.0
    else Commission15(records[..|records| - 1], partnerCode) + InvitorShare(records[|records| - 1], partnerCode)
  }

  /** `totalOrders` after the loop has seen `records`: at most one per record. */
  function OrderCount(records: seq<CommissionRecord>, partnerCode: string): (n: nat)
    ensures n <= |records|
    decreases |records|
  {
    if records == [] then 0
    else OrderCount(records[..|records| - 1], partnerCode) + OrderWeight(records[|records| - 1], partnerCode)
  }

  /** The summary the handler returns for the partner's records. */
  method Summarize(records: seq<CommissionRecord>, partnerCode: string) returns (summary: Summary)
    ensures summary.totalOrders == OrderCount(records, partnerCode) <= |records|
    ensures summary.commission10 == Commission10(records, partnerCode) >= 0.0
    ensures summary.commission15 == Commission15(records, partnerCode) >= 0.0
    ensures summary.totalCommission == summary.commission10 + summary.commission15
  {
    var totalOrders: nat := 0;
    var total10: real := 0.0;
    var total15: real := 0.0;
    var i := 0;
    while i < |records|
      invariant i <= |records|
      invariant totalOrders == OrderCount(records[..i], partnerCode)
      invariant total10 == Commission10(records[..i], partnerCode)
      invariant total15 == Commission15(records[..i], partnerCode)
    {
      var record := records[i];
      var isAffiliate := TierMatches(record.affiliate10Recipient, partnerCode);
      var isInvitor := TierMatches(record.invitor15Recipient, partnerCode);
      if isAffiliate && record.affiliate10Amount > 0.0 {
        total10 := total10 + record.affiliate10Amount;
        totalOrders := totalOrders + 1;
      }
      if isInvitor && record.invitor15Amount > 0.0 {
        total15 := total15 + record.invitor15Amount;
        if !isAffiliate {
          totalOrders := totalOrders + 1;
        }
      }
      assert records[..i + 1][..i] == records[..i];
      i := i + 1;
    }
    assert records[..i] == records;
    summary := Summary(totalOrders, total10, total15, total10 + total15);
  }

  /** The totals over two batches of records add up. */
  lemma {:induction false} SummaryAppend(a: seq<CommissionRecord>, b: seq<CommissionRecord>, partnerCode: string)
    ensures Commission10(a + b, partnerCode) == Commission10(a, partnerCode) + Commission10(b, partnerCode)
    ensures Commission15(a + b, partnerCode) == Commission15(a, partnerCode) + Commission15(b, partnerCode)
    ensures OrderCount(a + b, partnerCode) == OrderCount(a, partnerCode) + OrderCount(b, partnerCode)
    decreases |b|
  {
    if b == [] {
      assert a + b == a;
    } else {
      var b' := b[..|b| - 1];
      assert (a + b)[..|a + b| - 1] == a + b';
      SummaryAppend(a, b', partnerCode);
    }
  }

  /** A record of another partner adds nothing to any total. */
  lemma UnmatchedRecordAddsNothing(r: CommissionRecord, partnerCode: string)
    requires !MatchesPartner(r, partnerCode)
    ensures AffiliateShare(r, partnerCode) == 0.0 && InvitorShare(r, partnerCode) == 0.0
    ensures OrderWeight(r, partnerCode) == 0
  {
    MatchesEitherTier(r, partnerCode);
  }

  /** Summing over the `/data` output gives the same totals as summing over
      all records: the summary's own name tests already ignore the records
      the partner filter drops. */
  lemma {:induction false} FilterKeepsTotals(records: seq<CommissionRecord>, partnerCode: string)
    ensures var kept := FilterPartnerRecords(records, partnerCode);
      && Commission10(kept, partnerCode) == Commission10(records, partnerCode)
      && Commission15(kept, partnerCode) == Commission15(records, partnerCode)
      && OrderCount(kept, partnerCode) == OrderCount(records, partnerCode)
    decreases |records|
  {
    if records != [] {
      var r := records[0];
      var rest := records[1..];
      var keptRest := FilterPartnerRecords(rest, partnerCode);
      var head := FilterPartnerRecords([r], partnerCode);
      var kept := FilterPartnerRecords(records, partnerCode);
      assert records == [r] + rest;
      FilterAppend([r], rest, partnerCode);
      assert kept == head + keptRest;
      FilterKeepsTotals(rest, partnerCode);
      SingleRecordKept(r, partnerCode);
      SummaryAppend([r], rest, partnerCode);
      SummaryAppend(head, keptRest, partnerCode);
    }
  }

  /** Filtering one record keeps its totals. */
  lemma SingleRecordKept(r: CommissionRecord, partnerCode: string)
    ensures var head := FilterPartnerRecords([r], partnerCode);
      && Commission10(head, partnerCode) == Commission10([r], partnerCode)
      && Commission15(head, partnerCode) == Commission15([r], partnerCode)
      && OrderCount(head, partnerCode) == OrderCount([r], partnerCode)
  {
    assert [r][1..] == [];
    if !MatchesPartner(r, partnerCode) {
      SingleRecordTotals(r, partnerCode);
      UnmatchedRecordAddsNothing(r, partnerCode);
    }
  }

  /** The totals over one record are its shares. */
  lemma SingleRecordTotals(r: CommissionRecord, partnerCode: string)
    ensures Commission10([r], partnerCode) == AffiliateShare(r, partnerCode)
    ensures Commission15([r], partnerCode) == InvitorShare(r, partnerCode)
    ensures OrderCount([r], partnerCode) == OrderWeight(r, partnerCode)
  {
    assert [r][..0] == [];
  }

  /** The order count never exceeds the number of records the partner
      filter keeps. */
  lemma OrdersAtMostPartnerRecords(records: seq<CommissionRecord>, partnerCode: string)
    ensures OrderCount(records, partnerCode) <= |FilterPartnerRecords(records, partnerCode)|
  {
    FilterKeepsTotals(records, partnerCode);
  }

  /** A record is counted as an order exactly when its affiliate share is
      counted, or its invitor share is counted while its affiliate name does
      not match. A record whose affiliate name matches with a non-positive
      affiliate amount therefore adds its invitor share without adding an
      order. */
  lemma OrderWeightIff(r: CommissionRecord, partnerCode: string)
    ensures OrderWeight(r, partnerCode) == 1 <==>
      AffiliateShare(r, partnerCode) > 0.0
      || (InvitorShare(r, partnerCode) > 0.0 && !TierMatches(r.affiliate10Recipient, partnerCode))
  {
  }

  /** The quirk on a concrete record: a partner named as both recipients,
      with no affiliate amount and a positive invitor amount, earns the
      invitor commission on zero orders. */
  lemma MaskedInvitorOrder(r: CommissionRecord, partnerCode: string)
    requires r.affiliate10Recipient == partnerCode && r.invitor15Recipient == partnerCode
    requires r.affiliate10Amount == 0.0 && r.invitor15Amount > 0.0
    ensures Commission15([r], partnerCode) == r.invitor15Amount
    ensures Commission10([r], partnerCode) == 0.0
    ensures OrderCount([r], partnerCode) == 0
  {
    IncludesEmptyAndSelf(Lower(partnerCode));
    SingleRecordTotals(r, partnerCode);
  }
}
