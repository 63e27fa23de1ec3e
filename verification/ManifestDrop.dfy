/**
 The folder protocol of the factoring SFTP drops (client/factoring): an uploader writes the PDFs of a
 batch and then its manifest, chunk by chunk, while the factor's poller watches the folder. RTS ingests
 and clears the folder as soon as it sees a spreadsheet name, so the RTS manifest is uploaded under an
 inert name and renamed. The poller may look between any two steps and the uploader may stop after any.
 */
module ManifestDrop {
  import opened Ascii
  import opened FactoringRules
  import opened Wrappers

  type Folder = map<string, Bytes>

  datatype File = File(name: string, content: Bytes)

  /** A batch as the provider ships it: files in upload order, then an optional rename `from` -> `to`. */
  datatype Plan = Plan(files: seq<File>, activate: Option<(string, string)>)

  /** Where the uploader is: before opening file `i`, inside it, before the rename, or stopped. */
  datatype Uploader = Opening(i: nat) | Writing(i: nat, done: nat) | Renaming | Stopped(renameTried: bool)

  /** `firings` are the folder contents the poller ingested, oldest first. */
  datatype State = State(folder: Folder, up: Uploader, firings: seq<Folder>)

  /**
   Truncate, Chunk and CloseFile make up `Upload`; a Rename may fail without effect. Halt is an error return,
   a cancelled context or a crash. Retry starts over after a stop that never reached the rename; Reship
   starts over after one that did.
   */
  datatype Action = Truncate | Chunk(n: nat) | CloseFile | Rename(effective: bool) | Halt | Poll | Retry | Reship

  predicate EndsWith(name: string, suffix: string) {
    |name| >= |suffix| && forall k :: 0 <= k < |suffix| ==> LowerChar(name[|name| - |suffix| + k]) == suffix[k]
  }

  /** The names the poller reacts to, in any letter case. */
  predicate IsSpreadsheet(name: string) {
    EndsWith(name, ".csv") || EndsWith(name, ".xlsx")
  }

  ghost predicate Triggered(folder: Folder) {
    exists n :: n in folder && IsSpreadsheet(n)
  }

  ghost predicate Enabled(p: Plan, s: State, a: Action) {
    match a
    case Truncate => s.up.Opening? && s.up.i < |p.files|
    case Chunk(n) => s.up.Writing? && s.up.i < |p.files| && s.up.done + n <= |p.files[s.up.i].content|
    case CloseFile => s.up.Writing? && s.up.i < |p.files| && s.up.done == |p.files[s.up.i].content|
    case Rename(effective) => s.up.Renaming? && p.activate.Some? && (effective ==> p.activate.value.0 in s.folder)
    case Halt => !s.up.Stopped?
    case Poll => Triggered(s.folder)
    case Retry => s.up == Stopped(false)
    case Reship => s.up == Stopped(true)
  }

  /** After file `i` was closed. */
  function Next(p: Plan, i: nat): (u: Uploader) {
    if i + 1 < |p.files| then Opening(i + 1) else if p.activate.Some? then Renaming else Stopped(true)
  }

  /** A chunk reaches the folder only while the file is still there. */
  ghost function Apply(p: Plan, s: State, a: Action): (s': State)
    requires Enabled(p, s, a)
  {
    match a
    case Truncate => s.(folder := s.folder[p.files[s.up.i].name := []], up := Writing(s.up.i, 0))
    case Chunk(n) =>
      var f := p.files[s.up.i];
      var chunk := f.content[s.up.done..s.up.done + n];
      s.(folder := if f.name in s.folder then s.folder[f.name := s.folder[f.name] + chunk] else s.folder,
         up := Writing(s.up.i, s.up.done + n))
    case CloseFile => s.(up := Next(p, s.up.i))
    case Rename(effective) =>
      var (from, to) := p.activate.value;
      s.(folder := if effective then (s.folder - {from})[to := s.folder[from]] else s.folder, up := Stopped(true))
    case Halt => s.(up := Stopped(s.up.Renaming?))
    case Poll => s.(folder := map[], firings := s.firings + [s.folder])
    case Retry => s.(up := Opening(0))
    case Reship => s.(up := Opening(0))
  }

  ghost function Step(p: Plan, s: State, a: Action): (s': State) {
    if Enabled(p, s, a) then Apply(p, s, a) else s
  }

  ghost function Play(p: Plan, s: State, trace: seq<Action>): (s': State) {
    if trace == [] then s else Step(p, Play(p, s, trace[..|trace| - 1]), trace[|trace| - 1])
  }

  function Start(folder: Folder): (s: State) {
    State(folder, Opening(0), [])
  }

  lemma {:induction false} PlayAppend(p: Plan, s: State, a: seq<Action>, b: seq<Action>)
    ensures Play(p, s, a + b) == Play(p, Play(p, s, a), b)
    decreases |b|
  {
    if b == [] {
      assert a + b == a;
    } else {
      assert (a + b)[..|a + b| - 1] == a + b[..|b| - 1];
      PlayAppend(p, s, a, b[..|b| - 1]);
    }
  }

  lemma PlayOne(p: Plan, s: State, trace: seq<Action>, a: Action)
    ensures Play(p, s, trace + [a]) == Step(p, Play(p, s, trace), a)
  {
    assert (trace + [a])[..|trace|] == trace;
  }

  // ---------------------------------------------------------------- names

  predicate SafeChar(c: char) {
    'A' <= c <= 'Z' || 'a' <= c <= 'z' || '0' <= c <= '9' || c == '.' || c == '_' || c == '-'
  }

  function Sanitized(number: string): (name: string)
    ensures |name| == |number| + 4
  {
    seq(|number|, i requires 0 <= i < |number| => if SafeChar(number[i]) then number[i] else '_') + ".pdf"
  }

  /** `sanitizePDFName`, rune by rune. */
  method SanitizePdfName(number: string) returns (name: string)
    ensures name == Sanitized(number)
    ensures forall c :: c in name ==> SafeChar(c)
    ensures (forall c :: c in number ==> SafeChar(c)) ==> name == number + ".pdf"
    ensures |name| == |number| + 4 && name[|number|..] == ".pdf"
    ensures forall i :: 0 <= i < |number| ==> name[i] == if SafeChar(number[i]) then number[i] else '_'
  {
    name := "";
    for i := 0 to |number|
      invariant |name| == i && forall k :: 0 <= k < i ==> name[k] == if SafeChar(number[k]) then number[k] else '_'
    {
      name := name + [if SafeChar(number[i]) then number[i] else '_'];
    }
    assert (forall c :: c in number ==> SafeChar(c)) ==> name == number by {
      assert forall i :: 0 <= i < |number| ==> number[i] in number;
    }
    name := name + ".pdf";
  }

  const SAFE := "ABCDEFGHIJKLMNOPQRSTUVWXYZ" + "abcdefghijklmnopqrstuvwxyz" + "0123456789" + "._-"

  /** The safe alphabet, letter by letter. */
  lemma SafeAlphabet(c: char)
    ensures SafeChar(c) <==> c in SAFE
  {
    if SafeChar(c) {
      SafeIsListed(c);
    }
    if c in SAFE {
      var i :| 0 <= i < |SAFE| && SAFE[i] == c;
      ListedIsSafe(i);
    }
  }

  lemma SafeIsListed(c: char)
    requires SafeChar(c)
    ensures c in SAFE
  {
    if 'A' <= c <= 'Z' {
      assert SAFE[c as int - 65] == c;
    } else if 'a' <= c <= 'z' {
      assert SAFE[c as int - 97 + 26] == c;
    } else if '0' <= c <= '9' {
      assert SAFE[c as int - 48 + 52] == c;
    } else {
      assert c == SAFE[62] || c == SAFE[63] || c == SAFE[64];
    }
  }

  lemma ListedIsSafe(i: nat)
    requires i < |SAFE|
    ensures SafeChar(SAFE[i])
  {
  }

  /** Two names agree at a place wherever the numbers do. */
  lemma SanitizedPlaces(a: string, b: string, i: nat)
    requires i < |a| && i < |b| && a[i] == b[i]
    ensures Sanitized(a)[i] == Sanitized(b)[i] && (Sanitized(a)[i] == a[i] || Sanitized(a)[i] == '_')
  {
  }

  /** The poller reacts to every name that ends in .csv or .xlsx, in whatever case the letters are. */
  lemma SpreadsheetIff(name: string)
    ensures IsSpreadsheet(name) <==>
      exists base, end :: name == base + end && (ToLower(end) == ".csv" || ToLower(end) == ".xlsx")
  {
    if EndsWith(name, ".csv") {
      assert name == name[..|name| - 4] + name[|name| - 4..] && ToLower(name[|name| - 4..]) == ".csv";
    } else if EndsWith(name, ".xlsx") {
      assert name == name[..|name| - 5] + name[|name| - 5..] && ToLower(name[|name| - 5..]) == ".xlsx";
    }
    if base, end :| name == base + end && (ToLower(end) == ".csv" || ToLower(end) == ".xlsx") {
      EndsIn(name, base, end);
    }
  }

  lemma EndsIn(name: string, base: string, end: string)
    requires name == base + end
    ensures EndsWith(name, ToLower(end))
  {
  }

  lemma LastLetter(name: string, suffix: string)
    requires suffix != "" && EndsWith(name, suffix)
    ensures LowerChar(name[|name| - 1]) == suffix[|suffix| - 1]
  {
  }

  /** A name whose last letter is neither v nor x is no spreadsheet. */
  lemma Inert(name: string)
    requires name != "" && LowerChar(name[|name| - 1]) != 'v' && LowerChar(name[|name| - 1]) != 'x'
    ensures !IsSpreadsheet(name)
  {
    if EndsWith(name, ".csv") { LastLetter(name, ".csv"); }
    if EndsWith(name, ".xlsx") { LastLetter(name, ".xlsx"); }
  }

  lemma SanitizedIsInert(number: string)
    ensures EndsWith(Sanitized(number), ".pdf") && !IsSpreadsheet(Sanitized(number))
    ensures Sanitized(number)[|number| + 3] == 'f'
  {
    var n := Sanitized(number);
    assert n[|n| - 4..] == ".pdf";
    Inert(n);
  }

  /** Over the safe alphabet two invoice numbers never share a file name. */
  lemma SanitizedInjective(a: string, b: string)
    requires forall c :: c in a + b ==> SafeChar(c)
    requires Sanitized(a) == Sanitized(b)
    ensures a == b
  {
    assert |a| == |b|;
    forall i | 0 <= i < |a| ensures a[i] == b[i] {
      assert a[i] in a + b && b[i] in a + b;
      assert Sanitized(a)[i] == a[i] && Sanitized(b)[i] == b[i];
    }
  }

  /** Outside it they can: unique invoice numbers do not imply unique file names. */
  lemma SanitizedCollides()
    ensures "A 1" != "A_1" && Sanitized("A 1") == Sanitized("A_1")
  {
    assert Sanitized("A 1") == "A_1.pdf" == Sanitized("A_1");
  }

  function CsvName(stamp: string): (name: string) {
    "invoices_" + stamp + ".csv"
  }

  function PdfFiles(pdfs: seq<Pdf>): (files: seq<File>)
    ensures |files| == |pdfs|
  {
    seq(|pdfs|, i requires 0 <= i < |pdfs| => File(Sanitized(pdfs[i].number), pdfs[i].bytes))
  }

  /** RTS: PDFs, the manifest under an inert name, then the rename. */
  function RtsPlan(b: Batch, manifest: Bytes): (p: Plan) {
    var tmp := CsvName(b.stamp) + ".uploading";
    Plan(PdfFiles(b.pdfs) + [File(tmp, manifest)], Some((tmp, CsvName(b.stamp))))
  }

  /** Triumph: PDFs, then the manifest directly under its spreadsheet name. */
  function TriumphPlan(b: Batch, manifest: Bytes): (p: Plan) {
    Plan(PdfFiles(b.pdfs) + [File(CsvName(b.stamp), manifest)], None)
  }

  /** What the factor needs to find when it ingests: the whole manifest and every PDF whole. */
  ghost predicate Complete(b: Batch, manifest: Bytes, folder: Folder) {
    && CsvName(b.stamp) in folder && folder[CsvName(b.stamp)] == manifest
    && forall pdf :: pdf in b.pdfs ==> Sanitized(pdf.number) in folder && folder[Sanitized(pdf.number)] == pdf.bytes
  }

  /** PDFs that share a file name have the same bytes. */
  ghost predicate CollisionFree(b: Batch) {
    forall i, j :: 0 <= i < j < |b.pdfs| && Sanitized(b.pdfs[i].number) == Sanitized(b.pdfs[j].number) ==>
      b.pdfs[i].bytes == b.pdfs[j].bytes
  }

  lemma CsvNames(stamp: string)
    ensures IsSpreadsheet(CsvName(stamp)) && !IsSpreadsheet(CsvName(stamp) + ".uploading")
    ensures (CsvName(stamp) + ".uploading")[|CsvName(stamp)| + 9] == 'g'
  {
    CsvEnds("invoices_" + stamp, ".csv");
    Inert(CsvName(stamp) + ".uploading");
  }

  lemma CsvEnds(name: string, suffix: string)
    requires forall k :: 0 <= k < |suffix| ==> LowerChar(suffix[k]) == suffix[k]
    ensures EndsWith(name + suffix, suffix)
  {
  }

  // ---------------------------------------------------------------- RTS safety

  /** Files before `i` are whole in the folder. */
  ghost predicate Uploaded(p: Plan, folder: Folder, i: nat)
    requires i <= |p.files|
  {
    forall j :: 0 <= j < i ==> p.files[j].name in folder && folder[p.files[j].name] == p.files[j].content
  }

  /** While file `i` is open, its first `done` bytes are in the folder and the others before it are whole. */
  ghost predicate PartlyUploaded(p: Plan, folder: Folder, i: nat, done: nat)
    requires i < |p.files|
  {
    && done <= |p.files[i].content|
    && p.files[i].name in folder && folder[p.files[i].name] == p.files[i].content[..done]
    && forall j :: 0 <= j < i && p.files[j].name != p.files[i].name ==>
         p.files[j].name in folder && folder[p.files[j].name] == p.files[j].content
  }

  /** Files of one name have one content, no file is a spreadsheet, and the last one is what gets renamed. */
  ghost predicate SoundPlan(p: Plan) {
    && p.files != [] && p.activate.Some? && p.activate.value.0 == p.files[|p.files| - 1].name
    && IsSpreadsheet(p.activate.value.1)
    && (forall i :: 0 <= i < |p.files| ==> !IsSpreadsheet(p.files[i].name))
    && (forall i :: 0 <= i < |p.files| - 1 ==> p.files[i].name != p.activate.value.0)
    && (forall i, j :: 0 <= i < j < |p.files| && p.files[i].name == p.files[j].name ==>
        p.files[i].content == p.files[j].content)
  }

  /** The manifest is live under its final name and every other file is whole. */
  ghost predicate Live(p: Plan, folder: Folder)
    requires SoundPlan(p)
  {
    var to, n := p.activate.value.1, |p.files|;
    && to in folder && folder[to] == p.files[n - 1].content
    && (forall j :: 0 <= j < n - 1 ==> p.files[j].name in folder && folder[p.files[j].name] == p.files[j].content)
  }

  ghost predicate Inv(p: Plan, s: State)
    requires SoundPlan(p)
  {
    if s.up == Stopped(true) then
      || (s.firings == [] && (Triggered(s.folder) ==> Live(p, s.folder)))
      || (|s.firings| == 1 && Live(p, s.firings[0]) && !Triggered(s.folder))
    else
      && s.firings == [] && !Triggered(s.folder)
      && (s.up.Opening? ==> s.up.i < |p.files| && Uploaded(p, s.folder, s.up.i))
      && (s.up.Writing? ==> s.up.i < |p.files| && PartlyUploaded(p, s.folder, s.up.i, s.up.done))
      && (s.up.Renaming? ==> Uploaded(p, s.folder, |p.files|))
  }

  lemma StepKeepsInv(p: Plan, s: State, a: Action)
    requires SoundPlan(p) && Inv(p, s) && Enabled(p, s, a) && !a.Reship?
    ensures Inv(p, Apply(p, s, a))
  {
    match a
    case Truncate =>
      assert !IsSpreadsheet(p.files[s.up.i].name);
    case Chunk(n) =>
      var f := p.files[s.up.i];
      assert f.content[..s.up.done] + f.content[s.up.done..s.up.done + n] == f.content[..s.up.done + n];
    case CloseFile =>
      var f := p.files[s.up.i];
      assert f.content[..s.up.done] == f.content;
    case Rename(effective) =>
      if effective {
        assert p.files[|p.files| - 1].name in s.folder;
        forall j | 0 <= j < |p.files| - 1 ensures p.files[j].name != p.activate.value.1 {
        }
      }
    case _ =>
  }

  lemma {:induction false} PlayKeepsInv(p: Plan, folder: Folder, trace: seq<Action>)
    requires SoundPlan(p) && !Triggered(folder) && Reship !in trace
    ensures Inv(p, Play(p, Start(folder), trace))
    decreases |trace|
  {
    if trace != [] {
      var init, last := trace[..|trace| - 1], trace[|trace| - 1];
      assert last in trace;
      PlayKeepsInv(p, folder, init);
      if Enabled(p, Play(p, Start(folder), init), last) {
        StepKeepsInv(p, Play(p, Start(folder), init), last);
      }
    }
  }

  lemma RtsPlanIsSound(b: Batch, manifest: Bytes)
    requires CollisionFree(b)
    ensures SoundPlan(RtsPlan(b, manifest))
  {
    CsvNames(b.stamp);
    PdfNames(b.pdfs, CsvName(b.stamp) + ".uploading");
  }

  /** No PDF is named like a spreadsheet, or like a file whose name ends in g. */
  lemma PdfNames(pdfs: seq<Pdf>, other: string)
    requires other != "" && other[|other| - 1] == 'g'
    ensures forall i :: 0 <= i < |pdfs| ==> !IsSpreadsheet(PdfFiles(pdfs)[i].name) && PdfFiles(pdfs)[i].name != other
  {
    forall i | 0 <= i < |pdfs| ensures !IsSpreadsheet(Sanitized(pdfs[i].number)) && Sanitized(pdfs[i].number) != other {
      SanitizedIsInert(pdfs[i].number);
    }
  }

  /**
   Trigger safety: whatever inert files were in the folder before, however the poller interleaves and
   wherever the uploader stops or is retried from before its rename, the poller fires at most once for the
   batch, and then it finds the complete manifest and every complete PDF.
   */
  lemma RtsFiresCompleteAtMostOnce(b: Batch, manifest: Bytes, folder: Folder, trace: seq<Action>)
    requires CollisionFree(b) && !Triggered(folder) && Reship !in trace
    ensures var s := Play(RtsPlan(b, manifest), Start(folder), trace);
      |s.firings| <= 1 && forall f :: f in s.firings ==> Complete(b, manifest, f)
  {
    var p := RtsPlan(b, manifest);
    RtsPlanIsSound(b, manifest);
    PlayKeepsInv(p, folder, trace);
    var s := Play(p, Start(folder), trace);
    if s.firings != [] {
      assert Live(p, s.firings[0]);
      forall pdf | pdf in b.pdfs
        ensures Sanitized(pdf.number) in s.firings[0] && s.firings[0][Sanitized(pdf.number)] == pdf.bytes
      {
        var i :| 0 <= i < |b.pdfs| && b.pdfs[i] == pdf;
        assert p.files[i] == File(Sanitized(pdf.number), pdf.bytes);
      }
    }
  }

  // ---------------------------------------------------------------- validated batches

  /** Both validations together do not rule collisions out: these two numbers differ and share a file name. */
  lemma CompliantBatchCanCollide() returns (b: Batch)
    ensures Validate(b).None? && |b.invoices| <= RTS_MAX_RECORDS && UniqueNumbers(b.invoices)
    ensures forall i :: 0 <= i < |b.invoices| ==> Compliant(b.invoices[i])
    ensures !CollisionFree(b)
  {
    var x, y := Invoice("D", "A 1", "P", 1.0), Invoice("D", "A_1", "P", 1.0);
    b := Batch([x, y], [Pdf("A 1", [0]), Pdf("A_1", [1])], "");
    assert x.number[1] == ' ' && y.number[1] == '_';
    assert 'A' in x.number && 'A' in y.number && 'D' in x.debtorName && 'P' in x.poNumber;
    assert !IsSpace('A') && !IsSpace('D') && !IsSpace('P');
    assert Compliant(x) && Compliant(y);
    assert Paired(b, 0) && Paired(b, 1);
    ValidateIff(b);
    SanitizedCollides();
    assert b.pdfs[0].number == "A 1" && b.pdfs[1].number == "A_1";
  }

  /** A batch that passed both validations and uses the safe alphabet has one file per PDF. */
  lemma ValidatedBatchIsCollisionFree(b: Batch)
    requires Validate(b).None? && UniqueNumbers(b.invoices)
    requires forall i, c :: 0 <= i < |b.pdfs| && c in b.pdfs[i].number ==> SafeChar(c)
    ensures CollisionFree(b)
  {
    forall i, j | 0 <= i < j < |b.pdfs|
      ensures Sanitized(b.pdfs[i].number) != Sanitized(b.pdfs[j].number)
    {
      ValidateIff(b);
      assert Paired(b, i) && Paired(b, j);
      if Sanitized(b.pdfs[i].number) == Sanitized(b.pdfs[j].number) {
        SanitizedInjective(b.pdfs[i].number, b.pdfs[j].number);
        assert false;
      }
    }
  }
}
