/** Rows of a Delivery Note's items table, shared by the browser-side scanner
    and the server-side submit validation. */
module DeliveryItems {

  datatype Option<+T> = None | Some(value: T)

  /** One Delivery Note Item. The optional text fields of the form (batch_no,
      serial_no, barcode) are strings in which "" stands for an absent value:
      null, undefined and "" are all falsy in the source, and the source
      only ever tests them for truthiness or compares them with ===.
      `verified` is the custom_verified check box. A row's idx is its
      position in the table plus one. */
  datatype Line = Line(
    itemCode: string,
    batchNo: string,
    serialNo: string,
    barcode: string,
    verified: bool)

  /** Number of rows whose custom_verified flag is set: the length of
      `items.filter(i => i.custom_verified)`. */
  function CountVerified(s: seq<Line>): (n: nat)
    ensures n <= |s|
    ensures n == |s| <==> forall j :: 0 <= j < |s| ==> s[j].verified
    ensures n == 0 <==> forall j :: 0 <= j < |s| ==> !s[j].verified
  {
    if s == [] then 0
    else CountVerified(s[..|s| - 1]) + (if s[|s| - 1].verified then 1 else 0)
  }

  /** Setting the flag of one unverified row, whatever else the new row holds,
      raises the count by exactly one. */
  lemma {:induction false} CountVerifiedSetOne(s: seq<Line>, i: nat, row: Line)
    requires i < |s|
    requires !s[i].verified && row.verified
    ensures CountVerified(s[i := row]) == CountVerified(s) + 1
    decreases |s|
  {
    var t := s[i := row];
    var n := |s| - 1;
    assert CountVerified(t) == CountVerified(t[..n]) + (if t[n].verified then 1 else 0);
    assert CountVerified(s) == CountVerified(s[..n]) + (if s[n].verified then 1 else 0);
    if i < n {
      assert t[..n] == s[..n][i := row];
      CountVerifiedSetOne(s[..n], i, row);
    } else {
      assert t[..n] == s[..n];
    }
  }

  /** Replacing a row by one that keeps or gains the flag never lowers the count. */
  lemma {:induction false} CountVerifiedMonotone(s: seq<Line>, t: seq<Line>)
    requires |s| == |t|
    requires forall j :: 0 <= j < |s| && s[j].verified ==> t[j].verified
    ensures CountVerified(s) <= CountVerified(t)
    decreases |s|
  {
    if s != [] {
      var n := |s| - 1;
      CountVerifiedMonotone(s[..n], t[..n]);
    }
  }
}
