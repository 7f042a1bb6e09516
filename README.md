# SurgiShop Delivery Scanner — verified model

This project models the decision logic of the SurgiShop scan-to-verify workflow for
Delivery Notes. It covers four operations:

- The scan matcher. It picks which row of the items table a resolved barcode scan
  verifies: first a batch-aware pass, then an item-only pass, each in document order.
- The row update. It writes the scan into the chosen row. The verified flag is always
  set. Batch and barcode are written when scanned and present. Scanned serials are
  appended with a newline.
- The progress headline. It shows the verified count, the rounded percentage and a
  green, blue or orange indicator.
- The submit validation. A note in scan verification mode cannot be submitted while
  a row is unverified.

Files:

- `rows.dfy`, module `DeliveryItems`: the row datatype `Line` and the verified count
  shared by both sides.
- `scanner.dfy`, module `DeliveryNoteScanner`: the browser-side logic.
- `validations.dfy`, module `SubmitValidation`: the server-side validator, plus lemmas
  that tie it to the scanner.

Modelling choices:

- The items table is an `array<Line>`. `mark_row_verified` overwrites one element in place.
- The source passes a row reference. The model passes the row's position instead; a
  row's `idx` is its position plus one.
- The source's optional text fields (batch, serial, barcode) are strings, with `""`
  standing for null, undefined or empty. The source only tests these fields for
  truthiness or compares them with `===`, so one value is enough for all three.
- `custom_verified` and `custom_scan_verification_mode` are booleans. The source only
  uses their truthiness.
- The source calls `frappe.meta.has_field` to ask whether a field exists. The model
  passes the answers in as a `FieldFlags` record of booleans instead.
- The percentage is `Math.round(verified / total * 100)`. The model computes it in
  integers as half-up rounding of 100·v/t, that is `(200·v + t) / (2·t)`.
- The validator's error lists the unverified rows by position. The message text is
  not modelled.

Behaviour worth knowing, proved as stated:

- A row with an empty batch qualifies in the batch-aware pass. So with rows
  `[A/no batch, A/B1]`, a scan of A with batch B1 takes the first row
  (`EmptyBatchRowQualifies`).
- The rounding reports 100 % and a green indicator with 199 of 200 rows verified
  (`GreenBeforeComplete`). The submit validation still refuses that note, because it
  looks at the flags and not at the percentage (`SubmitAllowedIffComplete`).

## Model

| member | source | states |
|---|---|---|
| `DeliveryItems.CountVerified` | surgishop_delivery_scanner/public/js/delivery_note_scanner.js:247 | the verified count is at most the row count. It equals the row count exactly when every row is verified, and is 0 exactly when none is |
| `DeliveryItems.CountVerifiedSetOne` | surgishop_delivery_scanner/public/js/delivery_note_scanner.js:177-209 | setting the flag on one unverified row raises the verified count by exactly one |
| `DeliveryItems.CountVerifiedMonotone` | surgishop_delivery_scanner/public/js/delivery_note_scanner.js:247 | a table in which no flag was cleared has a verified count at least as large |
| `DeliveryNoteScanner.FirstEligible` | surgishop_delivery_scanner/public/js/delivery_note_scanner.js:154-160 | one search pass returns the lowest position its condition accepts. It returns none exactly when no row is accepted |
| `DeliveryNoteScanner.FindMatch` | surgishop_delivery_scanner/public/js/delivery_note_scanner.js:147-171 | a returned row has the scanned item code and is unverified. The result is null exactly when no unverified row has the scanned item code |
| `DeliveryNoteScanner.MatchWithoutBatch` | surgishop_delivery_scanner/public/js/delivery_note_scanner.js:164-168 | with no scanned batch, the match is the lowest-index unverified row of the scanned item |
| `DeliveryNoteScanner.MatchPrefersBatch` | surgishop_delivery_scanner/public/js/delivery_note_scanner.js:153-160 | with a scanned batch, the match is the lowest-index unverified row of the item whose batch is empty or equal to the scanned one |
| `DeliveryNoteScanner.MatchBatchFallback` | surgishop_delivery_scanner/public/js/delivery_note_scanner.js:153-168 | with a scanned batch that no such row takes, the match falls back to the lowest-index unverified row of the item |
| `DeliveryNoteScanner.FindMatchingUnverifiedRow` | surgishop_delivery_scanner/public/js/delivery_note_scanner.js:147-171 | the two early-return loops compute the match specified by `FindMatch`. The method has no modifies clause, so no row changes |
| `DeliveryNoteScanner.EmptyBatchRowQualifies` | surgishop_delivery_scanner/public/js/delivery_note_scanner.js:153-160 | with rows `[A/no batch, A/B1]`, scans of A with batch B1 and with batch B2 both take the first row |
| `DeliveryNoteScanner.AppendSerial` | surgishop_delivery_scanner/public/js/delivery_note_scanner.js:196-201 | a non-empty existing serial list is kept as a prefix, followed by a newline and the scanned serial. An empty list becomes the scanned serial alone |
| `DeliveryNoteScanner.MarkedRow` | surgishop_delivery_scanner/public/js/delivery_note_scanner.js:177-209 | after marking, the row is verified and keeps its item code. Batch and barcode are overwritten only when the scan supplies them and the field exists. The serial list is never overwritten: it is unchanged without a scanned serial (or without the field), becomes old list + newline + scanned serial when the old list is non-empty and the scanned serial alone when it is empty, so the old list is always a prefix |
| `DeliveryNoteScanner.MarkRowVerified` | surgishop_delivery_scanner/public/js/delivery_note_scanner.js:176-209 | only the chosen row changes, and it becomes the marked row. If that row was unverified, the verified count rises by exactly one |
| `DeliveryNoteScanner.ScanStep` | surgishop_delivery_scanner/public/js/delivery_note_scanner.js:79-92 | a scan with no match leaves the table as it is. A scan with a match replaces the matched row by the marked row (flag, batch, serial and barcode as `MarkedRow` states) and leaves every other row as it was |
| `DeliveryNoteScanner.ScanStepCount` | surgishop_delivery_scanner/public/js/delivery_note_scanner.js:79-92 | a matching scan raises the verified count by one and a non-matching scan changes nothing. No scan clears a flag |
| `DeliveryNoteScanner.ScanExhaustedItem` | surgishop_delivery_scanner/public/js/delivery_note_scanner.js:82-89 | once every row of an item is verified, any number of further scans of it leave the table unchanged |
| `DeliveryNoteScanner.TwoScansOfOneItem` | surgishop_delivery_scanner/public/js/delivery_note_scanner.js:147-209 | two unverified rows of item X are verified by two batch-less scans, in document order. A third scan of X finds no match |
| `DeliveryNoteScanner.HandleResolvedScan` | surgishop_delivery_scanner/public/js/delivery_note_scanner.js:77-92 | the scan callback returns the match and leaves the table as `ScanStep` describes |
| `DeliveryNoteScanner.RoundedPercent` | surgishop_delivery_scanner/public/js/delivery_note_scanner.js:254 | the percent is 100·v/t rounded half up (2t·p ≤ 200v + t < 2t·p + 2t). It lies in 0..100 when v ≤ t, is 100 when every row is verified and 0 when none is |
| `DeliveryNoteScanner.IndicatorFor` | surgishop_delivery_scanner/public/js/delivery_note_scanner.js:255-261 | the indicator is green exactly at 100, blue exactly for 50 and above but not 100, and orange exactly below 50 |
| `DeliveryNoteScanner.ScanSummary` | surgishop_delivery_scanner/public/js/delivery_note_scanner.js:244-261 | there is no headline exactly when the table is empty. Otherwise the headline carries the row count, the verified count, the percent `RoundedPercent(verified, total)` (at most 100) and that percent's indicator. A fully verified table shows 100 and green; a table with nothing verified shows orange |
| `DeliveryNoteScanner.RoundedPercentMonotone` | surgishop_delivery_scanner/public/js/delivery_note_scanner.js:254 | more verified rows never give a smaller percent |
| `DeliveryNoteScanner.ScanNeverLowersProgress` | surgishop_delivery_scanner/public/js/delivery_note_scanner.js:234-235 | the headline recomputed after a scan never shows a lower percent than before |
| `DeliveryNoteScanner.GreenBeforeComplete` | surgishop_delivery_scanner/public/js/delivery_note_scanner.js:254-258 | 199 verified rows of 200 already round to 100 and show green |
| `SubmitValidation.UnverifiedPositions` | surgishop_delivery_scanner/validations.py:28-34 | the collected positions are in range and each names an unverified row. Their number is the row count minus the verified count |
| `SubmitValidation.UnverifiedPositionsExact` | surgishop_delivery_scanner/validations.py:28-34 | the collected positions are strictly increasing, so they are in document order with none repeated, and every unverified row is among them |
| `SubmitValidation.ValidateAllItemsScanned` | surgishop_delivery_scanner/validations.py:10-49 | the validator passes when the mode is off or docstatus is not 1. Otherwise it raises exactly when some row is unverified, and the error lists the collected unverified positions. It has no modifies clause |
| `SubmitValidation.SubmitAllowedIffComplete` | surgishop_delivery_scanner/validations.py:37 | the validator's unverified list is empty exactly when the progress headline counts every row verified, or when there is no headline |
| `SubmitValidation.ScanRemovesOneUnverified` | surgishop_delivery_scanner/validations.py:28-37 | a matching scan removes exactly the matched position from the validator's unverified list and keeps every other position, so the list is one shorter |

## Left out

- Barcode resolution is left out. The two remote calls `verify_item_scan` and `fallback_barcode_lookup` (delivery_note_scanner.js:59-141) and their fallback between them are server endpoints outside this repository. A resolved scan is an input (`ScanData`); the fallback lookup's result is a `ScanData` with only item code and barcode.
- The batch expiry lookup (delivery_note_scanner.js:186-192) is left out. It is an asynchronous database call whose answer arrives later.
- The user interface is left out: alerts, sounds, `refresh_field`, `clear_headline`, the headline HTML, `highlight_verified_row`, `add_scanner_badge`.
- The form event wiring (delivery_note_scanner.js:16-53) is left out. It only decides when the modelled operations run.
- The `scanned_items` map (delivery_note_scanner.js:11, 27, 212-213) is left out. It is written and never read, so it has no effect on matching.
- The change handlers that `frappe.model.set_value` (delivery_note_scanner.js:209) triggers for each written field are not modelled. Such handlers for `batch_no` or `barcode` would belong to the host application, whose code is not part of this model. Writing the update record is modelled as a plain field write that keeps every field it does not name.
- `frappe.meta.has_field` is not modelled. Its answers are the `FieldFlags` parameters.
- RoundedPercent: computes exact half-up rounding. `Math.round` on the floating-point quotient can differ from it where the quotient is not exactly representable.
- The validator's message text, its translation and its title are left out. The error carries the unverified rows' positions, not the formatted strings. Item names appear only in that text, so `Line` has no item name.
- hooks.py is left out. It is static configuration; it registers the validator on the Delivery Note `validate` event.
- `frm.doc.items || []` is not modelled separately: a missing table is an empty array.
