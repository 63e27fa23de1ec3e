/** What a factoring batch must satisfy before anything is uploaded (client/factoring/factoring.go, rules.go). */
module FactoringRules {
  import opened Ascii
  import opened Bits
  import opened Wrappers

  type Bytes = seq<Byte>

  datatype Invoice = Invoice(debtorName: string, number: string, poNumber: string, amount: real)

  datatype Pdf = Pdf(number: string, bytes: Bytes)

  /** `stamp` is the UTC submission time as it appears in the manifest name. */
  datatype Batch = Batch(invoices: seq<Invoice>, pdfs: seq<Pdf>, stamp: string)

  datatype BatchError = NoInvoices | CountMismatch | MissingNumber(i: nat) | NumberMismatch(i: nat) | EmptyPdf(i: nat)

  /** `Batch.validate` from invoice `i` on. */
  function ValidateFrom(b: Batch, i: nat): (e: Option<BatchError>)
    requires |b.invoices| == |b.pdfs| && i <= |b.invoices|
    decreases |b.invoices| - i
  {
    if i == |b.invoices| then None
    else if b.invoices[i].number == "" then Some(MissingNumber(i))
    else if b.pdfs[i].number != b.invoices[i].number then Some(NumberMismatch(i))
    else if b.pdfs[i].bytes == [] then Some(EmptyPdf(i))
    else ValidateFrom(b, i + 1)
  }

  function Validate(b: Batch): (e: Option<BatchError>) {
    if b.invoices == [] then Some(NoInvoices)
    else if |b.invoices| != |b.pdfs| then Some(CountMismatch)
    else ValidateFrom(b, 0)
  }

  /** An invoice and the PDF beside it belong together. */
  predicate Paired(b: Batch, k: nat)
    requires k < |b.invoices| == |b.pdfs|
  {
    b.invoices[k].number != "" && b.pdfs[k].number == b.invoices[k].number && b.pdfs[k].bytes != []
  }

  lemma {:induction false} ValidateFromIff(b: Batch, i: nat)
    requires |b.invoices| == |b.pdfs| && i <= |b.invoices|
    ensures ValidateFrom(b, i).None? <==> forall k :: i <= k < |b.invoices| ==> Paired(b, k)
    decreases |b.invoices| - i
  {
    if i < |b.invoices| {
      ValidateFromIff(b, i + 1);
      assert ValidateFrom(b, i).None? <==> Paired(b, i) && ValidateFrom(b, i + 1).None?;
    }
  }

  /**
   `Batch.validate` accepts exactly the batches of at least one invoice, each with its own non-empty PDF at its
   place.
   */
  lemma ValidateIff(b: Batch)
    ensures Validate(b).None? <==>
      b.invoices != [] && |b.invoices| == |b.pdfs| && forall k :: 0 <= k < |b.invoices| ==> Paired(b, k)
  {
    if |b.invoices| == |b.pdfs| { ValidateFromIff(b, 0); }
  }

  /** What is wrong at place `i`, the number before the PDF's number before the PDF's bytes. */
  predicate FaultAt(b: Batch, i: nat, e: BatchError)
    requires i < |b.invoices| == |b.pdfs|
  {
    || (e == MissingNumber(i) && b.invoices[i].number == "")
    || (e == NumberMismatch(i) && b.invoices[i].number != "" && b.pdfs[i].number != b.invoices[i].number)
    || (e == EmptyPdf(i) && b.invoices[i].number != "" && b.pdfs[i].number == b.invoices[i].number
        && b.pdfs[i].bytes == [])
  }

  lemma {:induction false} FirstFault(b: Batch, from: nat) returns (i: nat)
    requires |b.invoices| == |b.pdfs| && from <= |b.invoices| && ValidateFrom(b, from).Some?
    ensures from <= i < |b.invoices| && FaultAt(b, i, ValidateFrom(b, from).value)
    ensures forall k :: from <= k < i ==> Paired(b, k)
    decreases |b.invoices| - from
  {
    i := from;
    if Paired(b, from) { i := FirstFault(b, from + 1); }
  }

  /** Which error is reported: no invoices, then different counts, else the first place at fault. */
  lemma ValidateReports(b: Batch)
    ensures Validate(b) == Some(NoInvoices) <==> b.invoices == []
    ensures Validate(b) == Some(CountMismatch) <==> b.invoices != [] && |b.invoices| != |b.pdfs|
    ensures Validate(b).Some? && b.invoices != [] && |b.invoices| == |b.pdfs| ==>
      exists i :: 0 <= i < |b.invoices| && FaultAt(b, i, Validate(b).value) && forall k :: 0 <= k < i ==> Paired(b, k)
  {
    if Validate(b).Some? && b.invoices != [] && |b.invoices| == |b.pdfs| {
      var i := FirstFault(b, 0);
    }
  }

  const RTS_MAX_RECORDS := 999

  datatype Violation = TooMany | Duplicate(number: string) | BlankNumber | BlankDebtor(number: string)
    | BlankPo(number: string) | NotPositive(number: string)

  predicate Compliant(inv: Invoice) {
    !AllSpace(inv.number) && !AllSpace(inv.debtorName) && !AllSpace(inv.poNumber) && inv.amount > 0.0
  }

  predicate UniqueNumbers(invoices: seq<Invoice>) {
    forall i, j :: 0 <= i < j < |invoices| ==> invoices[i].number != invoices[j].number
  }

  /** `v` is what is wrong with `inv`, blank fields before the amount. */
  predicate Reports(v: Violation, inv: Invoice) {
    match v
    case BlankNumber => AllSpace(inv.number)
    case BlankDebtor(n) => n == inv.number && !AllSpace(n) && AllSpace(inv.debtorName)
    case BlankPo(n) => n == inv.number && !AllSpace(n) && !AllSpace(inv.debtorName) && AllSpace(inv.poNumber)
    case NotPositive(n) =>
      n == inv.number && !AllSpace(n) && !AllSpace(inv.debtorName) && !AllSpace(inv.poNumber) && inv.amount <= 0.0
    case _ => false
  }

  /**
   `ValidateInvoicesForProvider` under the RTS rules: accepts exactly the batches of at most 999 invoices
   with unique numbers, no blank field and positive amounts. The number of invoices is checked first, then
   the whole batch for duplicates; otherwise the fault of the first invoice that has one is reported.
   */
  method ValidateForRts(invoices: seq<Invoice>) returns (v: Option<Violation>)
    ensures v.None? <==> |invoices| <= 999 && UniqueNumbers(invoices)
                         && forall i :: 0 <= i < |invoices| ==> Compliant(invoices[i])
    ensures v == Some(TooMany) <==> |invoices| > RTS_MAX_RECORDS
    ensures v.Some? && v.value.Duplicate? <==> |invoices| <= RTS_MAX_RECORDS && !UniqueNumbers(invoices)
    ensures v.Some? && v.value.Duplicate? ==>
      exists i, j :: 0 <= i < j < |invoices| && UniqueNumbers(invoices[..j])
                     && v.value.number == invoices[i].number == invoices[j].number
    ensures v.Some? && !v.value.TooMany? && !v.value.Duplicate? ==>
      exists i :: 0 <= i < |invoices| && Reports(v.value, invoices[i])
                  && forall k :: 0 <= k < i ==> Compliant(invoices[k])
  {
    if |invoices| > RTS_MAX_RECORDS {
      return Some(TooMany);
    }
    var seen: set<string> := {};
    for j := 0 to |invoices|
      invariant seen == set i | 0 <= i < j :: invoices[i].number
      invariant UniqueNumbers(invoices[..j])
    {
      if invoices[j].number in seen {
        ghost var i :| 0 <= i < j && invoices[i].number == invoices[j].number;
        assert !UniqueNumbers(invoices);
        return Some(Duplicate(invoices[j].number));
      }
      assert invoices[..j + 1] == invoices[..j] + [invoices[j]];
      seen := seen + {invoices[j].number};
    }
    assert invoices[..|invoices|] == invoices;
    for i := 0 to |invoices|
      invariant forall k :: 0 <= k < i ==> Compliant(invoices[k])
    {
      var inv := invoices[i];
      if AllSpace(inv.number) {
        return Some(BlankNumber);
      } else if AllSpace(inv.debtorName) {
        return Some(BlankDebtor(inv.number));
      } else if AllSpace(inv.poNumber) {
        return Some(BlankPo(inv.number));
      }
      if inv.amount <= 0.0 {
        return Some(NotPositive(inv.number));
      }
    }
    return None;
  }
}
