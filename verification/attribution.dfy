/** The partner filter of the `/api/partner/:partnerCode/data` handler: a
    record belongs to a partner when, ignoring case, one of its two recipient
    names and the partner code contain one another. */
module Attribution {
  import opened JsText
  import opened Ingest

  /** One tier's name test: after lower-casing both sides, the recipient
      contains the partner code or the partner code contains the recipient. */
  predicate TierMatches(recipient: string, partnerCode: string)
  {
    var name := Lower(recipient);
    var searchName := Lower(partnerCode);
    Includes(name, searchName) || Includes(searchName, name)
  }

  /** The filter callback, with its four substring tests in source order. */
  predicate MatchesPartner(r: CommissionRecord, partnerCode: string)
  {
    var affiliate := Lower(r.affiliate10Recipient);
    var invitor := Lower(r.invitor15Recipient);
    var searchName := Lower(partnerCode);
    Includes(affiliate, searchName) || Includes(invitor, searchName)
      || Includes(searchName, affiliate) || Includes(searchName, invitor)
  }

  /** A record belongs to a partner exactly when one of its tiers names the
      partner; this is the tier test the summary applies afterwards. */
  lemma MatchesEitherTier(r: CommissionRecord, partnerCode: string)
    ensures MatchesPartner(r, partnerCode)
      <==> TierMatches(r.affiliate10Recipient, partnerCode) || TierMatches(r.invitor15Recipient, partnerCode)
  {
  }

  /** An empty recipient name is contained in every partner code, so a
      record with an empty recipient field matches every partner. */
  lemma EmptyRecipientMatchesEveryPartner(r: CommissionRecord, partnerCode: string)
    requires r.affiliate10Recipient == "" || r.invitor15Recipient == ""
    ensures MatchesPartner(r, partnerCode)
  {
    IncludesEmptyAndSelf(Lower(partnerCode));
  }

  /** The test ignores the case of the partner code and of the recipients. */
  lemma MatchIgnoresCase(r: CommissionRecord, partnerCode: string)
    ensures MatchesPartner(r, partnerCode) == MatchesPartner(r, Lower(partnerCode))
    ensures MatchesPartner(r, partnerCode) ==
      MatchesPartner(r.(affiliate10Recipient := Lower(r.affiliate10Recipient),
                        invitor15Recipient := Lower(r.invitor15Recipient)), partnerCode)
  {
    LowerIdempotent(partnerCode);
    LowerIdempotent(r.affiliate10Recipient);
    LowerIdempotent(r.invitor15Recipient);
  }

  /** A partner code that contains a recipient's name matches that record,
      however the code is cased around the name: the partner `neenyweplus`
      owns a record whose invitor is `neeny` (head `""`, tail `"weplus"`);
      with `MatchIgnoresCase` the same holds for an invitor `Neeny`. */
  lemma NameInsideCodeMatches(r: CommissionRecord, head: string, tail: string)
    ensures MatchesPartner(r, head + r.invitor15Recipient + tail)
  {
    var name := r.invitor15Recipient;
    var code := head + name + tail;
    LowerAppend(head + name, tail);
    LowerAppend(head, name);
    assert Lower(code) == Lower(head) + Lower(name) + Lower(tail);
    assert OccursAt(Lower(code), Lower(name), |Lower(head)|) by {
      assert Lower(code)[|Lower(head)|..|Lower(head)| + |Lower(name)|] == Lower(name);
    }
    IncludesIff(Lower(code), Lower(name));
  }

  /** `allRecords.filter(...)` with the partner test: the records that match,
      and no others. */
  function FilterPartnerRecords(records: seq<CommissionRecord>, partnerCode: string): (out: seq<CommissionRecord>)
    ensures |out| <= |records|
    ensures forall r :: r in out <==> r in records && MatchesPartner(r, partnerCode)
  {
    if records == [] then []
    else
      (if MatchesPartner(records[0], partnerCode) then [records[0]] else [])
        + FilterPartnerRecords(records[1..], partnerCode)
  }

  /** The filter keeps every matching record as many times as it occurs,
      duplicates included, and no other record. */
  lemma {:induction false} FilterKeepsMultiplicity(records: seq<CommissionRecord>, partnerCode: string)
    ensures var out := FilterPartnerRecords(records, partnerCode);
      forall r :: multiset(out)[r] == if MatchesPartner(r, partnerCode) then multiset(records)[r] else 0
    decreases |records|
  {
    if records != [] {
      var x := records[0];
      var tail := records[1..];
      var head := if MatchesPartner(x, partnerCode) then [x] else [];
      var rest := FilterPartnerRecords(tail, partnerCode);
      FilterKeepsMultiplicity(tail, partnerCode);
      assert FilterPartnerRecords(records, partnerCode) == head + rest;
      assert records == [x] + tail;
      forall r
        ensures multiset(head + rest)[r] == if MatchesPartner(r, partnerCode) then multiset(records)[r] else 0
      {
        assert multiset(head + rest) == multiset(head) + multiset(rest);
        assert multiset(records) == multiset([x]) + multiset(tail);
      }
    }
  }

  /** `xs` is `ys` with some elements removed, the rest in their order. */
  predicate IsSubsequence(xs: seq<CommissionRecord>, ys: seq<CommissionRecord>)
    decreases |ys|
  {
    if xs == [] then true
    else if ys == [] then false
    else if xs[0] == ys[0] then IsSubsequence(xs[1..], ys[1..])
    else IsSubsequence(xs, ys[1..])
  }

  /** The filter keeps the order of the records it keeps. */
  lemma {:induction false} FilterIsSubsequence(records: seq<CommissionRecord>, partnerCode: string)
    ensures IsSubsequence(FilterPartnerRecords(records, partnerCode), records)
    decreases |records|
  {
    if records != [] {
      FilterIsSubsequence(records[1..], partnerCode);
      var rest := FilterPartnerRecords(records[1..], partnerCode);
      if MatchesPartner(records[0], partnerCode) {
        assert ([records[0]] + rest)[1..] == rest;
      } else {
        assert FilterPartnerRecords(records, partnerCode) == rest;
        SubsequenceSkip(rest, records);
      }
    }
  }

  /** Skipping the head of `ys` keeps a subsequence of its tail a subsequence. */
  lemma {:induction false} SubsequenceSkip(xs: seq<CommissionRecord>, ys: seq<CommissionRecord>)
    requires ys != [] && IsSubsequence(xs, ys[1..])
    ensures IsSubsequence(xs, ys)
    decreases |ys|, 0
  {
    if xs != [] && xs[0] == ys[0] {
      SubsequenceTail(xs, ys[1..]);
    }
  }

  /** Dropping the head of a subsequence leaves a subsequence. */
  lemma {:induction false} SubsequenceTail(xs: seq<CommissionRecord>, ys: seq<CommissionRecord>)
    requires xs != [] && IsSubsequence(xs, ys)
    ensures IsSubsequence(xs[1..], ys)
    decreases |ys|, 1
  {
    assert ys != [];
    if xs[0] == ys[0] {
      if xs[1..] != [] {
        SubsequenceSkip(xs[1..], ys);
      }
    } else {
      SubsequenceTail(xs, ys[1..]);
      if xs[1..] != [] {
        SubsequenceSkip(xs[1..], ys);
      }
    }
  }

  /** Filtering a concatenation filters each part. */
  lemma {:induction false} FilterAppend(a: seq<CommissionRecord>, b: seq<CommissionRecord>, partnerCode: string)
    ensures FilterPartnerRecords(a + b, partnerCode)
      == FilterPartnerRecords(a, partnerCode) + FilterPartnerRecords(b, partnerCode)
    decreases |a|
  {
    if a != [] {
      var head := if MatchesPartner(a[0], partnerCode) then [a[0]] else [];
      assert (a + b)[0] == a[0];
      assert (a + b)[1..] == a[1..] + b;
      assert FilterPartnerRecords(a + b, partnerCode) == head + FilterPartnerRecords(a[1..] + b, partnerCode);
      assert FilterPartnerRecords(a, partnerCode) == head + FilterPartnerRecords(a[1..], partnerCode);
      FilterAppend(a[1..], b, partnerCode);
    } else {
      assert a + b == b;
    }
  }

  /** Filtering twice for the same partner changes nothing. */
  lemma {:induction false} FilterIdempotent(records: seq<CommissionRecord>, partnerCode: string)
    ensures FilterPartnerRecords(FilterPartnerRecords(records, partnerCode), partnerCode)
      == FilterPartnerRecords(records, partnerCode)
    decreases |records|
  {
    if records != [] {
      var head := if MatchesPartner(records[0], partnerCode) then [records[0]] else [];
      var rest := FilterPartnerRecords(records[1..], partnerCode);
      FilterIdempotent(records[1..], partnerCode);
      FilterAppend(head, rest, partnerCode);
      if head != [] {
        assert FilterPartnerRecords(head, partnerCode) == head by {
          assert head[1..] == [];
        }
      }
    }
  }
}
