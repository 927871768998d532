/**
 * The barcode pass of the combined app (combo_app/processors/extractor_pyzbar.py):
 * every page of a DANFE is rasterised and its barcodes decoded; each decoded
 * payload is recorded as an "other reading" and, when its digits alone form an
 * access key, that digit string becomes a key. Keys are deduplicated keeping
 * the first occurrence.
 *
 * Rasterisation and decoding are not modelled: the input is, page by page, the
 * payload texts already decoded.
 */
module BarcodeKeys {
  import opened Wrappers
  import opened Seqs
  import opened Text

  /** The key a single payload yields, if any. */
  function KeyOf(payload: string): (r: Option<string>)
    ensures r.Some? <==> |OnlyDigits(payload)| == AccessKeyLength
    ensures r.Some? ==> IsAccessKey(r.value) && r.value == OnlyDigits(payload)
  {
    var dig := OnlyDigits(payload);
    if |dig| == AccessKeyLength then Some(dig) else None
  }

  /** A payload is recorded only when it is not empty. */
  predicate IsReading(payload: string) {
    payload != ""
  }

  /** The "other readings": every non-empty payload, in order, repeats kept. */
  function Readings(payloads: seq<string>): seq<string> {
    Filter(IsReading, payloads)
  }

  /** Keys before deduplication, in order of the payloads they come from. */
  function Candidates(payloads: seq<string>): seq<string>
  {
    if payloads == [] then []
    else
      var p := payloads[|payloads| - 1];
      Candidates(payloads[..|payloads| - 1]) +
        (if IsReading(p) && KeyOf(p).Some? then [KeyOf(p).value] else [])
  }

  lemma CandidatesSnoc(payloads: seq<string>, p: string)
    ensures Candidates(payloads + [p]) ==
      Candidates(payloads) + (if IsReading(p) && KeyOf(p).Some? then [KeyOf(p).value] else [])
  {
    assert (payloads + [p])[..|payloads|] == payloads;
  }

  /** Every candidate is a 44-digit access key. */
  lemma {:induction false} CandidatesAreKeys(payloads: seq<string>)
    ensures forall k :: k in Candidates(payloads) ==> IsAccessKey(k)
  {
    if payloads != [] {
      CandidatesAreKeys(payloads[..|payloads| - 1]);
    }
  }

  /**
   * A key is a candidate exactly when some payload's digits form it:
   * separators inside the payload do not matter.
   */
  lemma {:induction false} CandidateMembership(payloads: seq<string>, k: string)
    ensures k in Candidates(payloads) <==>
      exists i :: 0 <= i < |payloads| && |OnlyDigits(payloads[i])| == AccessKeyLength
                  && OnlyDigits(payloads[i]) == k
  {
    if payloads != [] {
      var init := payloads[..|payloads| - 1];
      CandidateMembership(init, k);
      var n := |payloads| - 1;
      if exists i :: 0 <= i < |payloads| && |OnlyDigits(payloads[i])| == AccessKeyLength
                     && OnlyDigits(payloads[i]) == k {
        var i :| 0 <= i < |payloads| && |OnlyDigits(payloads[i])| == AccessKeyLength
                 && OnlyDigits(payloads[i]) == k;
        if i < n { assert init[i] == payloads[i]; }
        else { assert payloads[n] != ""; }
      }
      if k in Candidates(init) {
        var i :| 0 <= i < |init| && |OnlyDigits(init[i])| == AccessKeyLength
                 && OnlyDigits(init[i]) == k;
        assert payloads[i] == init[i];
      }
    }
  }

  /** Each key comes from a payload that was also recorded as a reading. */
  lemma {:induction false} CandidatesAtMostReadings(payloads: seq<string>)
    ensures |Candidates(payloads)| <= |Readings(payloads)|
  {
    if payloads != [] {
      var init, p := payloads[..|payloads| - 1], payloads[|payloads| - 1];
      assert payloads == init + [p];
      CandidatesAtMostReadings(init);
      FilterAppend(IsReading, init, [p]);
    }
  }

  /** What one more payload adds to the readings and to the keys. */
  lemma PayloadStep(before: seq<string>, raw: string)
    ensures Readings(before + [raw]) == Readings(before) + (if raw == "" then [] else [raw])
    ensures Candidates(before + [raw]) == Candidates(before) +
      (if raw != "" && |OnlyDigits(raw)| == AccessKeyLength then [OnlyDigits(raw)] else [])
  {
    FilterAppend(IsReading, before, [raw]);
    CandidatesSnoc(before, raw);
  }

  /** What the payload at `j` of a page adds to the readings and the keys. */
  lemma PageStep(done: seq<string>, decoded: seq<string>, j: nat)
    requires j < |decoded|
    ensures Readings(done + decoded[..j + 1]) ==
      Readings(done + decoded[..j]) + (if decoded[j] == "" then [] else [decoded[j]])
    ensures Candidates(done + decoded[..j + 1]) == Candidates(done + decoded[..j]) +
      (if decoded[j] != "" && |OnlyDigits(decoded[j])| == AccessKeyLength then [OnlyDigits(decoded[j])] else [])
  {
    assert decoded[..j + 1] == decoded[..j] + [decoded[j]];
    assert done + decoded[..j + 1] == (done + decoded[..j]) + [decoded[j]];
    PayloadStep(done + decoded[..j], decoded[j]);
  }

  /**
   * `extrair_chaves_de_pdf`: walks pages, then payloads; records non-empty
   * payloads and their keys; then drops repeated keys keeping the first.
   */
  method ExtractKeys(pages: seq<seq<string>>) returns (chaves: seq<string>, outras: seq<string>)
    ensures outras == Readings(Flatten(pages))
    ensures chaves == Dedup(Candidates(Flatten(pages)))
  {
    var found: seq<string> := [];
    outras := [];
    for i := 0 to |pages|
      invariant outras == Readings(Flatten(pages[..i]))
      invariant found == Candidates(Flatten(pages[..i]))
    {
      outras, found := ScanPage(Flatten(pages[..i]), pages[i], outras, found);
      assert pages[..i + 1] == pages[..i] + [pages[i]];
      FlattenSnoc(pages[..i], pages[i]);
    }
    assert pages[..|pages|] == pages;
    chaves := DedupKeys(found);
  }

  /** The inner loop over the payloads decoded from one page. */
  method ScanPage(ghost done: seq<string>, decoded: seq<string>, outras0: seq<string>, found0: seq<string>)
    returns (outras: seq<string>, found: seq<string>)
    requires outras0 == Readings(done) && found0 == Candidates(done)
    ensures outras == Readings(done + decoded)
    ensures found == Candidates(done + decoded)
  {
    outras, found := outras0, found0;
    assert done + decoded[..0] == done;
    for j := 0 to |decoded|
      invariant outras == Readings(done + decoded[..j])
      invariant found == Candidates(done + decoded[..j])
    {
      var raw := decoded[j];
      PageStep(done, decoded, j);
      if raw == "" {
        continue;
      }
      outras := outras + [raw];
      var dig := OnlyDigits(raw);
      if |dig| == AccessKeyLength {
        found := found + [dig];
      }
    }
    assert decoded[..|decoded|] == decoded;
  }

  /** The `seen`-set comprehension that drops repeated keys, keeping the first. */
  method DedupKeys(found: seq<string>) returns (chaves: seq<string>)
    ensures chaves == Dedup(found)
  {
    var seen: set<string> := {};
    chaves := [];
    for k := 0 to |found|
      invariant chaves == Dedup(found[..k])
      invariant seen == Elems(chaves)
    {
      var c := found[k];
      assert found[..k + 1] == found[..k] + [c];
      DedupSnoc(found[..k], c);
      if c !in seen {
        seen := seen + {c};
        chaves := chaves + [c];
      }
    }
    assert found[..|found|] == found;
  }

  /**
   * What `extrair_chaves_de_pdf` promises about its keys: 44 digits each, no
   * repeats, first-occurrence order, and the same set as before deduplication;
   * before deduplication there are no more keys than readings.
   */
  lemma ExtractedKeys(pages: seq<seq<string>>)
    ensures var found := Candidates(Flatten(pages));
      && (forall k :: k in Dedup(found) ==> IsAccessKey(k))
      && NoDup(Dedup(found))
      && Elems(Dedup(found)) == Elems(found)
      && InFirstOccurrenceOrder(Dedup(found), found)
      && |found| <= |Readings(Flatten(pages))|
  {
    var found := Candidates(Flatten(pages));
    CandidatesAreKeys(Flatten(pages));
    DedupElems(found);
    DedupFirstOccurrenceOrder(found);
    CandidatesAtMostReadings(Flatten(pages));
    forall k | k in Dedup(found) ensures IsAccessKey(k) {
      assert k in Elems(Dedup(found));
    }
  }

  /** An empty payload contributes neither a reading nor a key. */
  lemma EmptyPayloadIgnored(before: seq<string>, after: seq<string>)
    ensures Readings(before + [""] + after) == Readings(before + after)
    ensures Candidates(before + [""] + after) == Candidates(before + after)
  {
    FilterAppend(IsReading, before + [""], after);
    FilterAppend(IsReading, before, [""]);
    FilterAppend(IsReading, before, after);
    CandidatesSkipEmpty(before, after);
  }

  lemma {:induction false} CandidatesSkipEmpty(before: seq<string>, after: seq<string>)
    ensures Candidates(before + [""] + after) == Candidates(before + after)
  {
    if after == [] {
      assert before + [""] + after == before + [""];
      assert before + after == before;
      CandidatesSnoc(before, "");
    } else {
      var init, p := after[..|after| - 1], after[|after| - 1];
      assert after == init + [p];
      CandidatesSkipEmpty(before, init);
      assert before + [""] + after == (before + [""] + init) + [p];
      assert before + after == (before + init) + [p];
      CandidatesSnoc(before + [""] + init, p);
      CandidatesSnoc(before + init, p);
    }
  }
}
