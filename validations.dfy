/** The server-side check run on every validate of a Delivery Note: a note in
    scan verification mode cannot be submitted while a row is unverified. */
module SubmitValidation {
  import opened DeliveryItems
  import DeliveryNoteScanner

  /** The validator's outcome: it returns, or it raises listing the rows that
      were not verified, by position in the items table (a row's idx minus
      one). */
  datatype Verdict = Pass | Fail(unverified: seq<nat>)

  /** Positions of the rows whose custom_verified flag is not set, in document
      order, each once. */
  function UnverifiedPositions(s: seq<Line>): (r: seq<nat>)
    ensures forall k :: 0 <= k < |r| ==> r[k] < |s| && !s[r[k]].verified
    ensures |r| + CountVerified(s) == |s|
  {
    if s == [] then []
    else
      var n := |s| - 1;
      var p := s[..n];
      var r := UnverifiedPositions(p);
      assert forall j :: 0 <= j < n ==> p[j] == s[j];
      if s[n].verified then r
      else
        var r' := r + [n];
        assert forall k :: 0 <= k < |r| ==> r'[k] == r[k] < n;
        r'
  }

  /** The collected positions are strictly increasing (document order, no
      repeats) and include every unverified row. */
  lemma {:induction false} UnverifiedPositionsExact(s: seq<Line>)
    ensures forall k, l :: 0 <= k < l < |UnverifiedPositions(s)| ==>
      UnverifiedPositions(s)[k] < UnverifiedPositions(s)[l]
    ensures forall j :: 0 <= j < |s| && !s[j].verified ==> j in UnverifiedPositions(s)
  {
    if s != [] {
      var n := |s| - 1;
      var p := s[..n];
      UnverifiedPositionsExact(p);
      assert forall j :: 0 <= j < n ==> p[j] == s[j];
    }
  }

  /** `validate_all_items_scanned`: nothing is checked unless verification
      mode is on and the note is being submitted (docstatus 1); then the
      unverified rows are collected in one pass and the validator raises
      exactly when there is one. It reads the table and changes nothing. */
  method ValidateAllItemsScanned(verificationMode: bool, docstatus: int, items: array<Line>)
    returns (r: Verdict)
    ensures !verificationMode ==> r == Pass
    ensures docstatus != 1 ==> r == Pass
    ensures verificationMode && docstatus == 1 ==>
      (r.Fail? <==> exists j :: 0 <= j < items.Length && !items[j].verified)
    ensures r.Fail? ==> r.unverified == UnverifiedPositions(items[..])
  {
    if !verificationMode {
      return Pass;
    }
    if docstatus != 1 {
      return Pass;
    }
    var unverified: seq<nat> := [];
    for i := 0 to items.Length
      invariant unverified == UnverifiedPositions(items[..i])
    {
      assert items[..i + 1][..i] == items[..i];
      if !items[i].verified {
        unverified := unverified + [i];
      }
    }
    assert items[..items.Length] == items[..];
    if unverified != [] {
      return Fail(unverified);
    }
    return Pass;
  }

  /** In verification mode a note can be submitted exactly when the progress
      headline counts every row as verified (or the table is empty). */
  lemma SubmitAllowedIffComplete(s: seq<Line>)
    ensures UnverifiedPositions(s) == [] <==>
      match DeliveryNoteScanner.ScanSummary(s)
      case None => true
      case Some(h) => h.verified == h.total
  {
  }

  /** Each matching scan removes exactly the matched position from the
      validator's unverified list and keeps every other one. */
  lemma ScanRemovesOneUnverified(s: seq<Line>, scan: DeliveryNoteScanner.ScanData, fields: DeliveryNoteScanner.FieldFlags)
    requires DeliveryNoteScanner.FindMatch(s, scan).Some?
    ensures |UnverifiedPositions(DeliveryNoteScanner.ScanStep(s, scan, fields))| + 1 == |UnverifiedPositions(s)|
    ensures forall j :: j in UnverifiedPositions(DeliveryNoteScanner.ScanStep(s, scan, fields)) <==>
      j in UnverifiedPositions(s) && j != DeliveryNoteScanner.FindMatch(s, scan).value
  {
    DeliveryNoteScanner.ScanStepCount(s, scan, fields);
    UnverifiedPositionsExact(s);
    UnverifiedPositionsExact(DeliveryNoteScanner.ScanStep(s, scan, fields));
  }
}
