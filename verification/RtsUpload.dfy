/**
 The RTS upload step by step (client/factoring/rtssftp.go, sftp.go), with the poller acting in between: every
 run of it is a run of the plan that `ManifestDrop` is about.
 */
module RtsUpload {
  import opened FactoringRules
  import opened ManifestDrop
  import opened Wrappers

  /** How an upload fares: it cannot be opened, the connection fails after so many bytes, or the close fails. */
  datatype Fate = Stored | NotOpened | CutAt(done: nat) | NotClosed

  predicate Fails(fate: Fate, content: Bytes) {
    fate.NotOpened? || fate.NotClosed? || (fate.CutAt? && fate.done < |content|)
  }

  /** How the rename fares: done, refused, or done with its answer lost. */
  datatype RenameFate = Renamed | Refused | AnswerLost

  /** The remote folder, with the poller acting on it at any moment. */
  class Remote {
    var folder: Folder
    ghost var plan: Plan
    ghost var initial: Folder
    ghost var trace: seq<Action>
    ghost var state: State

    ghost predicate Valid()
      reads this
    {
      state == Play(plan, Start(initial), trace) && folder == state.folder && Reship !in trace
    }

    constructor (folder: Folder, ghost plan: Plan)
      ensures Valid() && this.folder == initial == folder && this.plan == plan && trace == [] && state == Start(folder)
    {
      this.folder, this.plan, this.initial, this.trace, this.state := folder, plan, folder, [], Start(folder);
    }

    ghost method Act(a: Action)
      requires state == Play(plan, Start(initial), trace) && Reship !in trace && a != Reship
      modifies this`trace, this`state
      ensures state == Play(plan, Start(initial), trace) && Reship !in trace && trace == old(trace) + [a]
      ensures state == Step(plan, old(state), a)
    {
      PlayOne(plan, Start(initial), trace, a);
      state, trace := Step(plan, state, a), trace + [a];
    }

    method Look()
      requires Valid()
      modifies this`folder, this`trace, this`state
      ensures Valid() && state.up == old(state).up && trace == old(trace) + [Poll]
      ensures !Triggered(old(folder)) ==> folder == old(folder)
    {
      Act(Poll);
      if exists n :: n in folder && IsSpreadsheet(n) {
        folder := map[];
      }
    }

    /** The poller looks, or does not. */
    method MaybePoll()
      requires Valid()
      modifies this`folder, this`trace, this`state
      ensures Valid() && state.up == old(state).up && old(trace) <= trace
      ensures !Triggered(old(folder)) ==> folder == old(folder)
    {
      if * {
        Look();
      }
    }

    method Create(ghost i: nat, name: string)
      requires Valid() && state.up == Opening(i) && i < |plan.files| && plan.files[i].name == name
      modifies this`folder, this`trace, this`state
      ensures Valid() && state.up == Writing(i, 0) && trace == old(trace) + [Truncate]
      ensures name in folder && folder[name] == []
      ensures !Triggered(old(folder)) && !IsSpreadsheet(name) ==> !Triggered(folder)
    {
      folder := folder[name := []];
      Act(Truncate);
    }

    method WriteChunk(ghost i: nat, name: string, content: Bytes, done: nat, n: nat)
      requires Valid() && state.up == Writing(i, done) && i < |plan.files| && plan.files[i] == File(name, content)
      requires done + n <= |content|
      modifies this`folder, this`trace, this`state
      ensures Valid() && state.up == Writing(i, done + n) && trace == old(trace) + [Chunk(n)]
      ensures !Triggered(old(folder)) ==> !Triggered(folder)
      ensures name in old(folder) && old(folder)[name] == content[..done] ==>
        name in folder && folder[name] == content[..done + n]
    {
      assert content[..done] + content[done..done + n] == content[..done + n];
      if name in folder {
        folder := folder[name := folder[name] + content[done..done + n]];
      }
      Act(Chunk(n));
    }

    /**
     `Upload` of file `i` of the plan: open with truncation, write chunk after chunk, close. Any of the
     three may fail, and the poller may look before each of them. Unless the poller clears it away, a file
     whose upload succeeded is there whole.
     */
    method Upload(ghost i: nat, name: string, content: Bytes, fate: Fate) returns (ok: bool)
      requires Valid() && state.up == Opening(i) && i < |plan.files| && plan.files[i] == File(name, content)
      modifies this`folder, this`trace, this`state
      ensures Valid() && old(trace) <= trace
      ensures ok ==> state.up == Next(plan, i)
      ensures ok <==> !Fails(fate, content)
      ensures !Triggered(old(folder)) && !IsSpreadsheet(name) ==>
        !Triggered(folder) && (ok ==> name in folder && folder[name] == content)
    {
      MaybePoll();
      if fate.NotOpened? { return false; }
      Create(i, name);
      var written := WriteAll(i, name, content, fate);
      if !written { return false; }
      MaybePoll();
      if fate.NotClosed? { return false; }
      Act(CloseFile);
      return true;
    }

    /** Chunk after chunk, of any sizes. */
    method WriteAll(ghost i: nat, name: string, content: Bytes, fate: Fate) returns (ok: bool)
      requires Valid() && state.up == Writing(i, 0) && i < |plan.files| && plan.files[i] == File(name, content)
      requires name in folder && folder[name] == []
      modifies this`folder, this`trace, this`state
      ensures Valid() && old(trace) <= trace
      ensures ok ==> state.up == Writing(i, |content|)
      ensures ok <==> !(fate.CutAt? && fate.done < |content|)
      ensures !Triggered(old(folder)) ==>
        !Triggered(folder) && (ok ==> name in folder && folder[name] == content)
    {
      var done := 0;
      while done < |content|
        invariant Valid() && old(trace) <= trace
        invariant state.up == Writing(i, done) && done <= |content|
        invariant fate.CutAt? && fate.done < |content| ==> done <= fate.done
        invariant !Triggered(old(folder)) ==> !Triggered(folder) && name in folder && folder[name] == content[..done]
      {
        MaybePoll();
        if fate.CutAt? && done == fate.done { return false; }
        var n :| 0 < n <= |content| - done && (fate.CutAt? && done < fate.done ==> done + n <= fate.done);
        WriteChunk(i, name, content, done, n);
        done := done + n;
      }
      assert content[..|content|] == content;
      return true;
    }

    /** The atomic rename of the uploaded manifest. It may be refused, or done with its answer lost. */
    method Activate(from: string, to: string, fate: RenameFate) returns (ok: bool)
      requires Valid() && state.up == Renaming && plan.activate == Some((from, to))
      modifies this`folder, this`trace, this`state
      ensures Valid() && (trace == old(trace) || trace == old(trace) + [Rename(true)])
      ensures trace != old(trace) ==> state.up == Stopped(true)
      ensures trace != old(trace) <==> !fate.Refused? && from in old(folder)
      ensures ok <==> fate.Renamed? && from in old(folder)
      ensures trace != old(trace) ==> folder == (old(folder) - {from})[to := old(folder)[from]]
    {
      if fate.Refused? { return false; }
      if from !in folder {
        return false;
      }
      folder := (folder - {from})[to := folder[from]];
      Act(Rename(true));
      return fate.Renamed?;
    }
  }

  /** No upload of a PDF fails. */
  predicate AllStored(b: Batch, fates: seq<Fate>)
    requires |fates| >= |b.pdfs|
  {
    forall i :: 0 <= i < |b.pdfs| ==> !Fails(fates[i], b.pdfs[i].bytes)
  }

  function NamesOf(pdfs: seq<Pdf>): (names: seq<string>)
    ensures |names| == |pdfs| && forall i :: 0 <= i < |pdfs| ==> names[i] == Sanitized(pdfs[i].number)
  {
    seq(|pdfs|, i requires 0 <= i < |pdfs| => Sanitized(pdfs[i].number))
  }

  lemma PdfAt(b: Batch, manifest: Bytes, i: nat)
    requires i < |b.pdfs|
    ensures var p := RtsPlan(b, manifest);
      && |p.files| == |b.pdfs| + 1 && p.files[i] == File(Sanitized(b.pdfs[i].number), b.pdfs[i].bytes)
      && Next(p, i) == Opening(i + 1)
  {
  }

  method UploadPdf(w: Remote, b: Batch, manifest: Bytes, i: nat, fate: Fate) returns (name: string, ok: bool)
    requires w.Valid() && w.plan == RtsPlan(b, manifest) && w.state.up == Opening(i) && i < |b.pdfs|
    modifies w
    ensures w.Valid() && w.plan == old(w.plan) && w.initial == old(w.initial)
    ensures name == Sanitized(b.pdfs[i].number)
    ensures ok ==> w.state.up == Opening(i + 1)
    ensures ok <==> !Fails(fate, b.pdfs[i].bytes)
    ensures !Triggered(old(w.folder)) ==>
      !Triggered(w.folder) && (ok ==> name in w.folder && w.folder[name] == b.pdfs[i].bytes)
  {
    var pdf := b.pdfs[i];
    SanitizedIsInert(pdf.number);
    PdfAt(b, manifest, i);
    name := SanitizePdfName(pdf.number);
    ok := w.Upload(i, name, pdf.bytes, fate);
  }

  /** The PDFs, in order, up to the first that fails. */
  method UploadPdfs(w: Remote, b: Batch, manifest: Bytes, fates: seq<Fate>) returns (uploaded: seq<string>)
    requires w.Valid() && w.plan == RtsPlan(b, manifest) && w.state == Start(w.initial) && |fates| == |b.pdfs| + 1
    modifies w
    ensures w.Valid() && w.plan == old(w.plan) && w.initial == old(w.initial)
    ensures |uploaded| <= |b.pdfs| && forall k :: 0 <= k < |uploaded| ==> uploaded[k] == Sanitized(b.pdfs[k].number)
    ensures forall i :: 0 <= i < |uploaded| ==> !Fails(fates[i], b.pdfs[i].bytes)
    ensures |uploaded| < |b.pdfs| ==> Fails(fates[|uploaded|], b.pdfs[|uploaded|].bytes)
    ensures |uploaded| == |b.pdfs| ==> w.state.up == Opening(|b.pdfs|)
    ensures !Triggered(old(w.folder)) ==> !Triggered(w.folder)
  {
    uploaded := [];
    for i := 0 to |b.pdfs|
      invariant w.Valid() && w.plan == old(w.plan) && w.initial == old(w.initial)
      invariant w.state.up == Opening(i) && |uploaded| == i
      invariant forall k :: 0 <= k < i ==> uploaded[k] == Sanitized(b.pdfs[k].number)
      invariant forall k :: 0 <= k < i ==> !Fails(fates[k], b.pdfs[k].bytes)
      invariant !Triggered(old(w.folder)) ==> !Triggered(w.folder)
    {
      var name, stored := UploadPdf(w, b, manifest, i, fates[i]);
      if !stored {
        return;
      }
      uploaded := uploaded + [name];
    }
  }

  /**
   `RTSSFTPProvider.SubmitBatch` after validation. It only ever takes steps of the RTS plan, in order, so
   `RtsFiresCompleteAtMostOnce` covers every run of it. On success the rename took effect and every PDF and
   the manifest are reported, in upload order; on an error what is reported is a prefix of that, up to the first
   upload that failed. Into a folder that does not trigger the poller it succeeds exactly if nothing fails.
   */
  method SubmitBatch(w: Remote, b: Batch, manifest: Bytes, fates: seq<Fate>, rename: RenameFate)
    returns (ok: bool, uploaded: seq<string>)
    requires w.Valid() && w.plan == RtsPlan(b, manifest) && w.state == Start(w.initial) && |fates| == |b.pdfs| + 1
    modifies w
    ensures w.Valid() && w.plan == old(w.plan) && w.initial == old(w.initial)
    ensures ok <==> uploaded == NamesOf(b.pdfs) + ["invoices_" + b.stamp + ".csv"]
    ensures uploaded <= NamesOf(b.pdfs) + ["invoices_" + b.stamp + ".csv"]
    ensures ok ==> w.state.up == Stopped(true) && Rename(true) in w.trace
    ensures forall i :: 0 <= i < |uploaded| && i < |b.pdfs| ==> !Fails(fates[i], b.pdfs[i].bytes)
    ensures |uploaded| < |b.pdfs| ==> Fails(fates[|uploaded|], b.pdfs[|uploaded|].bytes)
    ensures !Triggered(old(w.folder)) ==>
      (ok <==> AllStored(b, fates) && !Fails(fates[|b.pdfs|], manifest) && rename.Renamed?)
  {
    uploaded := UploadPdfs(w, b, manifest, fates);
    if |uploaded| < |b.pdfs| {
      return false, uploaded;
    }
    assert uploaded == NamesOf(b.pdfs);
    ok := DropManifest(w, b, manifest, fates[|b.pdfs|], rename);
    if ok {
      uploaded := uploaded + [CsvName(b.stamp)];
    }
  }

  /** The manifest under its inert name, then the rename. */
  method DropManifest(w: Remote, b: Batch, manifest: Bytes, fate: Fate, rename: RenameFate) returns (ok: bool)
    requires w.Valid() && w.plan == RtsPlan(b, manifest) && w.state.up == Opening(|b.pdfs|)
    modifies w
    ensures w.Valid() && w.plan == old(w.plan) && w.initial == old(w.initial)
    ensures ok ==> w.state.up == Stopped(true) && Rename(true) in w.trace
    ensures !Triggered(old(w.folder)) ==> (ok <==> !Fails(fate, manifest) && rename.Renamed?)
    ensures ok ==> !Fails(fate, manifest) && rename.Renamed?
  {
    var tmp := CsvName(b.stamp) + ".uploading";
    CsvNames(b.stamp);
    var stored := w.Upload(|b.pdfs|, tmp, manifest, fate);
    if !stored {
      return false;
    }
    w.MaybePoll();
    ok := w.Activate(tmp, CsvName(b.stamp), rename);
    assert ok ==> w.trace[|w.trace| - 1] == Rename(true);
  }
}
