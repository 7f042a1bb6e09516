/** The browser-side scan-to-verify workflow of a Delivery Note: choosing the
    row a resolved scan verifies, writing the scan's data into that row, and
    the progress headline shown after every scan. Resolving a barcode is done
    by remote calls outside this model; a resolved scan is an input. */
module DeliveryNoteScanner {
  import opened DeliveryItems

  /** A resolved scan (the `scan_data` record). "" stands for a field the
      resolver did not return; the fallback lookup returns only the item code
      and the barcode. */
  datatype ScanData = ScanData(
    itemCode: string,
    batchNo: string,
    serialNo: string,
    barcode: string)

  /** Which optional fields the Delivery Note Item doctype has: the answers of
      the host framework's `has_field` for batch_no, serial_no and barcode. */
  datatype FieldFlags = FieldFlags(hasBatchNo: bool, hasSerialNo: bool, hasBarcode: bool)

  // ---------------------------------------------------------------------------
  // Matching a scan to a row
  // ---------------------------------------------------------------------------

  /** A row the item-only pass accepts: same item code, not yet verified. */
  predicate ItemEligible(line: Line, scan: ScanData)
  {
    line.itemCode == scan.itemCode && !line.verified
  }

  /** A row the batch-aware pass accepts: item-eligible, and its batch is
      empty or equal to the scanned batch. */
  predicate BatchEligible(line: Line, scan: ScanData)
  {
    ItemEligible(line, scan) && (line.batchNo == "" || line.batchNo == scan.batchNo)
  }

  predicate Eligible(line: Line, scan: ScanData, batchPass: bool)
  {
    if batchPass then BatchEligible(line, scan) else ItemEligible(line, scan)
  }

  /** The position of the first row in document order that one pass accepts. */
  function FirstEligible(s: seq<Line>, scan: ScanData, batchPass: bool): (r: Option<nat>)
    ensures r.Some? ==> r.value < |s| && Eligible(s[r.value], scan, batchPass)
    ensures r.Some? ==> forall j :: 0 <= j < r.value ==> !Eligible(s[j], scan, batchPass)
    ensures r.None? <==> forall j :: 0 <= j < |s| ==> !Eligible(s[j], scan, batchPass)
  {
    if s == [] then None
    else if Eligible(s[0], scan, batchPass) then Some(0)
    else match FirstEligible(s[1..], scan, batchPass)
      case None => None
      case Some(k) => Some(k + 1)
  }

  /** The row `find_matching_unverified_row` returns: the batch-aware pass when
      the scan carries a batch, then the item-only pass. */
  function FindMatch(s: seq<Line>, scan: ScanData): (r: Option<nat>)
    ensures r.Some? ==> r.value < |s| && ItemEligible(s[r.value], scan)
    ensures r.None? <==> forall j :: 0 <= j < |s| ==> !ItemEligible(s[j], scan)
  {
    var first := if scan.batchNo != "" then FirstEligible(s, scan, true) else None;
    if first.Some? then first else FirstEligible(s, scan, false)
  }

  /** Without a scanned batch the match is the lowest-index unverified row of
      the scanned item. */
  lemma MatchWithoutBatch(s: seq<Line>, scan: ScanData, k: nat)
    requires scan.batchNo == ""
    requires k < |s| && ItemEligible(s[k], scan)
    requires forall j :: 0 <= j < k ==> !ItemEligible(s[j], scan)
    ensures FindMatch(s, scan) == Some(k)
  {
  }

  /** With a scanned batch, a row of the item whose batch is empty or equal to
      the scanned one is preferred, the lowest-index such row first. */
  lemma MatchPrefersBatch(s: seq<Line>, scan: ScanData, k: nat)
    requires scan.batchNo != ""
    requires k < |s| && BatchEligible(s[k], scan)
    requires forall j :: 0 <= j < k ==> !BatchEligible(s[j], scan)
    ensures FindMatch(s, scan) == Some(k)
  {
  }

  /** With a scanned batch that no unverified row of the item can take, the
      match falls back to the lowest-index unverified row of the item. */
  lemma MatchBatchFallback(s: seq<Line>, scan: ScanData, k: nat)
    requires scan.batchNo != ""
    requires forall j :: 0 <= j < |s| ==> !BatchEligible(s[j], scan)
    requires k < |s| && ItemEligible(s[k], scan)
    requires forall j :: 0 <= j < k ==> !ItemEligible(s[j], scan)
    ensures FindMatch(s, scan) == Some(k)
  {
  }

  /** The two passes of `find_matching_unverified_row`, each a loop in document
      order that stops at the first accepted row. The method has no modifies
      clause: it changes no row. */
  method FindMatchingUnverifiedRow(items: array<Line>, scan: ScanData) returns (r: Option<nat>)
    ensures r == FindMatch(items[..], scan)
  {
    if scan.batchNo != "" {
      var i := 0;
      while i < items.Length
        invariant 0 <= i <= items.Length
        invariant forall j :: 0 <= j < i ==> !BatchEligible(items[j], scan)
      {
        if BatchEligible(items[i], scan) {
          MatchPrefersBatch(items[..], scan, i);
          return Some(i);
        }
        i := i + 1;
      }
    }
    var i := 0;
    while i < items.Length
      invariant 0 <= i <= items.Length
      invariant forall j :: 0 <= j < i ==> !ItemEligible(items[j], scan)
    {
      if ItemEligible(items[i], scan) {
        if scan.batchNo == "" {
          MatchWithoutBatch(items[..], scan, i);
        } else {
          MatchBatchFallback(items[..], scan, i);
        }
        return Some(i);
      }
      i := i + 1;
    }
    return None;
  }

  // ---------------------------------------------------------------------------
  // Marking the chosen row
  // ---------------------------------------------------------------------------

  /** The `updates` record handed to `set_value`: custom_verified is always in
      it, each other field only when the scan supplies it and the field exists. */
  datatype RowUpdates = RowUpdates(
    verified: bool,
    batchNo: Option<string>,
    serialNo: Option<string>,
    barcode: Option<string>)

  /** The serial number list after appending one scanned serial: joined with a
      newline to a non-empty list, the scanned serial alone otherwise. */
  function AppendSerial(existing: string, serial: string): (r: string)
    ensures existing != "" ==> |r| == |existing| + 1 + |serial|
    ensures existing != "" ==> r[..|existing|] == existing && r[|existing|] == '\n'
    ensures existing != "" ==> r[|existing| + 1..] == serial
    ensures existing == "" ==> r == serial
  {
    if existing != "" then existing + "\n" + serial else serial
  }

  /** The update record `mark_row_verified` builds for `row`. */
  function UpdatesFor(row: Line, scan: ScanData, fields: FieldFlags): RowUpdates
  {
    RowUpdates(
      true,
      if scan.batchNo != "" && fields.hasBatchNo then Some(scan.batchNo) else None,
      if scan.serialNo != "" && fields.hasSerialNo then Some(AppendSerial(row.serialNo, scan.serialNo)) else None,
      if scan.barcode != "" && fields.hasBarcode then Some(scan.barcode) else None)
  }

  /** `set_value(row, updates)`: every field named in the record is written,
      every other field is kept. */
  function ApplyUpdates(row: Line, u: RowUpdates): Line
  {
    Line(
      row.itemCode,
      if u.batchNo.Some? then u.batchNo.value else row.batchNo,
      if u.serialNo.Some? then u.serialNo.value else row.serialNo,
      if u.barcode.Some? then u.barcode.value else row.barcode,
      u.verified)
  }

  /** The row as `mark_row_verified` leaves it: the flag is set, the item code
      kept, batch and barcode overwritten only when scanned and present, and
      the serial list only ever extended, the old list staying a prefix. */
  function MarkedRow(row: Line, scan: ScanData, fields: FieldFlags): (r: Line)
    ensures r.verified
    ensures r.itemCode == row.itemCode
    ensures r.batchNo == if scan.batchNo != "" && fields.hasBatchNo then scan.batchNo else row.batchNo
    ensures r.barcode == if scan.barcode != "" && fields.hasBarcode then scan.barcode else row.barcode
    ensures scan.serialNo == "" || !fields.hasSerialNo ==> r.serialNo == row.serialNo
    ensures scan.serialNo != "" && fields.hasSerialNo && row.serialNo != "" ==>
      r.serialNo == row.serialNo + "\n" + scan.serialNo
    ensures scan.serialNo != "" && fields.hasSerialNo && row.serialNo == "" ==>
      r.serialNo == scan.serialNo
    ensures row.serialNo <= r.serialNo
  {
    ApplyUpdates(row, UpdatesFor(row, scan, fields))
  }

  /** `mark_row_verified`: builds the update record field by field and applies
      it to the row at position `i`, and to no other row. */
  method MarkRowVerified(items: array<Line>, i: nat, scan: ScanData, fields: FieldFlags)
    requires i < items.Length
    modifies items
    ensures items[..] == old(items[..])[i := MarkedRow(old(items[i]), scan, fields)]
    ensures !old(items[i]).verified ==> CountVerified(items[..]) == CountVerified(old(items[..])) + 1
  {
    var updates := RowUpdates(true, None, None, None);
    if scan.batchNo != "" && fields.hasBatchNo {
      updates := updates.(batchNo := Some(scan.batchNo));
    }
    if scan.serialNo != "" && fields.hasSerialNo {
      var existing := items[i].serialNo;
      updates := updates.(serialNo := Some(if existing != "" then existing + "\n" + scan.serialNo else scan.serialNo));
    }
    if scan.barcode != "" && fields.hasBarcode {
      updates := updates.(barcode := Some(scan.barcode));
    }
    ghost var before := items[..];
    items[i] := ApplyUpdates(items[i], updates);
    assert items[..] == before[i := MarkedRow(before[i], scan, fields)];
    if !before[i].verified {
      CountVerifiedSetOne(before, i, MarkedRow(before[i], scan, fields));
    }
  }

  // ---------------------------------------------------------------------------
  // One resolved scan: match, then mark
  // ---------------------------------------------------------------------------

  /** The table after one resolved scan: unchanged when nothing matches,
      otherwise the matched row marked. */
  function ScanStep(s: seq<Line>, scan: ScanData, fields: FieldFlags): (t: seq<Line>)
    ensures |t| == |s|
    ensures FindMatch(s, scan).None? ==> t == s
    ensures FindMatch(s, scan).Some? ==>
      t[FindMatch(s, scan).value] == MarkedRow(s[FindMatch(s, scan).value], scan, fields)
    ensures forall j :: 0 <= j < |s| && Some(j) != FindMatch(s, scan) ==> t[j] == s[j]
  {
    match FindMatch(s, scan)
    case None => s
    case Some(k) => s[k := MarkedRow(s[k], scan, fields)]
  }

  /** A scan that matches raises the verified count by exactly one; a scan
      that does not changes nothing. No flag is ever cleared. */
  lemma ScanStepCount(s: seq<Line>, scan: ScanData, fields: FieldFlags)
    ensures FindMatch(s, scan).None? ==> ScanStep(s, scan, fields) == s
    ensures FindMatch(s, scan).Some? ==>
      CountVerified(ScanStep(s, scan, fields)) == CountVerified(s) + 1
    ensures forall j :: 0 <= j < |s| && s[j].verified ==> ScanStep(s, scan, fields)[j].verified
  {
    match FindMatch(s, scan)
    case None =>
    case Some(k) =>
      CountVerifiedSetOne(s, k, MarkedRow(s[k], scan, fields));
  }

  /** Once no unverified row of an item is left, every further scan of that
      item is a no-match and leaves the table as it is. */
  lemma {:induction false} ScanExhaustedItem(s: seq<Line>, scan: ScanData, fields: FieldFlags, n: nat)
    requires forall j :: 0 <= j < |s| && s[j].itemCode == scan.itemCode ==> s[j].verified
    ensures Rescan(s, scan, fields, n) == s
  {
    if n > 0 {
      assert FindMatch(s, scan) == None;
      ScanExhaustedItem(s, scan, fields, n - 1);
    }
  }

  /** The table after the same scan is repeated n times. */
  function Rescan(s: seq<Line>, scan: ScanData, fields: FieldFlags, n: nat): (t: seq<Line>)
    ensures |t| == |s|
    decreases n
  {
    if n == 0 then s else Rescan(ScanStep(s, scan, fields), scan, fields, n - 1)
  }

  /** Two unverified rows of item "X" are verified by two batch-less scans in
      document order, and a third scan of "X" finds nothing. */
  lemma TwoScansOfOneItem(fields: FieldFlags)
    ensures var scan := ScanData("X", "", "", "");
      var s0 := [Line("X", "", "", "", false), Line("X", "", "", "", false)];
      var s1 := ScanStep(s0, scan, fields);
      var s2 := ScanStep(s1, scan, fields);
      && FindMatch(s0, scan) == Some(0) && s1[0].verified && !s1[1].verified
      && FindMatch(s1, scan) == Some(1) && s2[0].verified && s2[1].verified
      && FindMatch(s2, scan) == None
  {
  }

  /** With an unbatched and a "B1" row of item "A", a scan of batch "B1" picks
      the unbatched first row: an empty batch qualifies in the batch-aware
      pass. A scan of an unknown batch picks it too. */
  lemma EmptyBatchRowQualifies()
    ensures var s := [Line("A", "", "", "", false), Line("A", "B1", "", "", false)];
      && FindMatch(s, ScanData("A", "B1", "", "")) == Some(0)
      && FindMatch(s, ScanData("A", "B2", "", "")) == Some(0)
  {
  }

  /** The scan callback once a barcode is resolved: find the row; report a
      no-match and change nothing when there is none; otherwise mark it. */
  method HandleResolvedScan(items: array<Line>, scan: ScanData, fields: FieldFlags) returns (r: Option<nat>)
    modifies items
    ensures r == FindMatch(old(items[..]), scan)
    ensures items[..] == ScanStep(old(items[..]), scan, fields)
  {
    r := FindMatchingUnverifiedRow(items, scan);
    if r.Some? {
      MarkRowVerified(items, r.value, scan, fields);
    }
  }

  // ---------------------------------------------------------------------------
  // Progress headline
  // ---------------------------------------------------------------------------

  datatype Indicator = Green | Blue | Orange

  datatype Headline = Headline(verified: nat, total: nat, percent: nat, indicator: Indicator)

  /** `Math.round(verified / total * 100)` in integers: 100·v/t rounded to
      the nearest integer, halves rounded up. */
  function RoundedPercent(v: nat, t: nat): (p: nat)
    requires 0 < t
    ensures 2 * t * p <= 200 * v + t < 2 * t * p + 2 * t
    ensures v <= t ==> p <= 100
    ensures v == t ==> p == 100
    ensures v == 0 ==> p == 0
  {
    var p := (200 * v + t) / (2 * t);
    PercentBounds(v, t, p);
    p
  }

  /** Facts about the quotient that the division alone does not give the
      solver: a nonlinear case split on the size of the quotient. */
  lemma PercentBounds(v: nat, t: nat, p: nat)
    requires 0 < t && p == (200 * v + t) / (2 * t)
    ensures 2 * t * p <= 200 * v + t < 2 * t * p + 2 * t
    ensures v <= t ==> p <= 100
    ensures v == t ==> p == 100
    ensures v == 0 ==> p == 0
  {
    var q := 200 * v + t;
    assert q == (2 * t) * p + q % (2 * t) && 0 <= q % (2 * t) < 2 * t;
  }

  /** Green at 100, blue from 50, orange below. */
  function IndicatorFor(percent: nat): (c: Indicator)
    ensures c == Green <==> percent == 100
    ensures c == Blue <==> 50 <= percent && percent != 100
    ensures c == Orange <==> percent < 50
  {
    if percent == 100 then Green else if percent >= 50 then Blue else Orange
  }

  /** `show_scan_summary`: no headline for an empty table, otherwise the
      counts, the rounded percent and its colour. */
  function ScanSummary(s: seq<Line>): (h: Option<Headline>)
    ensures h.None? <==> |s| == 0
    ensures h.Some? ==> h.value.total == |s| && h.value.verified == CountVerified(s)
    ensures h.Some? ==> h.value.percent == RoundedPercent(h.value.verified, h.value.total)
    ensures h.Some? ==> h.value.percent <= 100
    ensures h.Some? ==> h.value.indicator == IndicatorFor(h.value.percent)
    ensures h.Some? && h.value.verified == h.value.total ==>
      h.value.percent == 100 && h.value.indicator == Green
    ensures h.Some? && h.value.verified == 0 ==> h.value.indicator == Orange
  {
    if |s| == 0 then None
    else
      var v := CountVerified(s);
      var p := RoundedPercent(v, |s|);
      Some(Headline(v, |s|, p, IndicatorFor(p)))
  }

  /** More verified rows never give a smaller percent. */
  lemma RoundedPercentMonotone(v1: nat, v2: nat, t: nat)
    requires 0 < t && v1 <= v2
    ensures RoundedPercent(v1, t) <= RoundedPercent(v2, t)
  {
    var p1, p2 := RoundedPercent(v1, t), RoundedPercent(v2, t);
    assert 2 * t * p1 < 2 * t * (p2 + 1);
    CancelFactor(2 * t, p1, p2 + 1);
  }

  lemma CancelFactor(c: int, a: int, b: int)
    requires 0 < c && c * a < c * b
    ensures a < b
  {
  }

  /** A scan never lowers the progress shown. */
  lemma ScanNeverLowersProgress(s: seq<Line>, scan: ScanData, fields: FieldFlags)
    requires |s| > 0
    ensures ScanSummary(ScanStep(s, scan, fields)).Some?
    ensures ScanSummary(s).value.percent <= ScanSummary(ScanStep(s, scan, fields)).value.percent
  {
    var t := ScanStep(s, scan, fields);
    ScanStepCount(s, scan, fields);
    CountVerifiedMonotone(s, t);
    RoundedPercentMonotone(CountVerified(s), CountVerified(t), |s|);
  }

  /** The rounding shows 100% and green while a row is still unverified: 199
      of 200 rows is 99.5%, which rounds up. */
  lemma GreenBeforeComplete()
    ensures RoundedPercent(199, 200) == 100 && IndicatorFor(RoundedPercent(199, 200)) == Green
  {
  }
}
