/**
 Runs of the two uploads (client/factoring): that an undisturbed RTS submission does fire, exactly when its
 safety holds, and what goes wrong when a batch is shipped again or uploaded the Triumph way.
 */
module ManifestRuns {
  import opened FactoringRules
  import opened ManifestDrop
  import opened Wrappers

  /** The steps that upload files `i` to the end, one chunk each. */
  function Uploads(p: Plan, i: nat): (trace: seq<Action>)
    requires i <= |p.files|
    decreases |p.files| - i
  {
    if i == |p.files| then [] else [Truncate, Chunk(|p.files[i].content|), CloseFile] + Uploads(p, i + 1)
  }

  lemma UploadOne(p: Plan, s: State)
    requires s.up.Opening? && s.up.i < |p.files|
    ensures var f := p.files[s.up.i];
      Play(p, s, [Truncate, Chunk(|f.content|), CloseFile]) ==
          State(s.folder[f.name := f.content], Next(p, s.up.i), s.firings)
  {
    var f := p.files[s.up.i];
    var t := [Truncate, Chunk(|f.content|), CloseFile];
    assert t[..2][..1][..0] == [];
    var s1 := Step(p, s, t[0]);
    assert Play(p, s, t[..2][..1]) == s1;
    var s2 := Step(p, s1, t[1]);
    assert Play(p, s, t[..2]) == s2;
    assert f.content[0..|f.content|] == f.content && [] + f.content == f.content;
    assert s.folder[f.name := []][f.name := f.content] == s.folder[f.name := f.content];
    assert Play(p, s, t) == Step(p, s2, t[2]);
  }

  lemma {:induction false} UploadsRun(p: Plan, s: State, i: nat)
    requires i < |p.files| && s.up == Opening(i)
    ensures var s' := Play(p, s, Uploads(p, i));
      && s'.up == Next(p, |p.files| - 1) && s'.firings == s.firings
      && s'.folder.Keys >= s.folder.Keys
      && p.files[|p.files| - 1].name in s'.folder
    decreases |p.files| - i
  {
    var f := p.files[i];
    var one := [Truncate, Chunk(|f.content|), CloseFile];
    UploadOne(p, s);
    PlayAppend(p, s, one, Uploads(p, i + 1));
    if i + 1 < |p.files| {
      UploadsRun(p, Play(p, s, one), i + 1);
    } else {
      assert Uploads(p, i + 1) == [];
    }
  }

  /** An undisturbed submission followed by a poll does fire. */
  lemma RtsCleanRunFires(b: Batch, manifest: Bytes, folder: Folder) returns (trace: seq<Action>)
    ensures Reship !in trace && |Play(RtsPlan(b, manifest), Start(folder), trace).firings| == 1
  {
    CsvNames(b.stamp);
    trace := CleanRunFires(RtsPlan(b, manifest), Start(folder));
  }

  lemma CleanRunFires(p: Plan, s: State) returns (trace: seq<Action>)
    requires p.files != [] && p.activate.Some? && s.up == Opening(0) && s.firings == []
    requires p.activate.value.0 == p.files[|p.files| - 1].name && IsSpreadsheet(p.activate.value.1)
    ensures Reship !in trace && |Play(p, s, trace).firings| == 1
  {
    var up := Uploads(p, 0);
    UploadsHaveNoReship(p, 0);
    UploadsRun(p, s, 0);
    PlayOne(p, s, up, Rename(true));
    PlayOne(p, s, up + [Rename(true)], Poll);
    RenamedFires(p, Play(p, s, up));
    trace := up + [Rename(true)] + [Poll];
  }

  lemma RenamedFires(p: Plan, s: State)
    requires s.up.Renaming? && p.activate.Some? && p.activate.value.0 in s.folder && IsSpreadsheet(p.activate.value.1)
    ensures |Step(p, Step(p, s, Rename(true)), Poll).firings| == |s.firings| + 1
  {
    PollFires(p, Step(p, s, Rename(true)), p.activate.value.1);
  }

  lemma {:induction false} UploadsHaveNoReship(p: Plan, i: nat)
    requires i <= |p.files|
    ensures Reship !in Uploads(p, i) && Poll !in Uploads(p, i)
    decreases |p.files| - i
  {
    if i < |p.files| { UploadsHaveNoReship(p, i + 1); }
  }

  /** Every firing of a run finds the complete batch. */
  ghost predicate FiresComplete(b: Batch, manifest: Bytes, folder: Folder, trace: seq<Action>) {
    forall f :: f in Play(RtsPlan(b, manifest), Start(folder), trace).firings ==> Complete(b, manifest, f)
  }

  /**
   The exact condition: every firing of every run is complete if and only if no two PDFs with different
   bytes are given the same file name.
   */
  lemma RtsSafeIffCollisionFree(b: Batch, manifest: Bytes)
    ensures CollisionFree(b) <==>
      forall folder, trace :: !Triggered(folder) && Reship !in trace ==> FiresComplete(b, manifest, folder, trace)
  {
    if CollisionFree(b) {
      forall folder, trace | !Triggered(folder) && Reship !in trace ensures FiresComplete(b, manifest, folder, trace) {
        RtsFiresCompleteAtMostOnce(b, manifest, folder, trace);
      }
    } else {
      var trace := RtsCleanRunFires(b, manifest, map[]);
      var f := Play(RtsPlan(b, manifest), Start(map[]), trace).firings[0];
      assert f in Play(RtsPlan(b, manifest), Start(map[]), trace).firings;
      var i, j :| 0 <= i < j < |b.pdfs| && Sanitized(b.pdfs[i].number) == Sanitized(b.pdfs[j].number)
                  && b.pdfs[i].bytes != b.pdfs[j].bytes;
      assert b.pdfs[i] in b.pdfs && b.pdfs[j] in b.pdfs;
      assert !Complete(b, manifest, f);
      assert !FiresComplete(b, manifest, map[], trace);
    }
  }

  /**
   Why a batch that may have reached its rename must not be shipped again: the second upload rewrites the
   PDFs beside the live manifest, and a poll in between ingests a truncated one.
   */
  lemma ReshipBreaksTheBatch(b: Batch, manifest: Bytes) returns (trace: seq<Action>)
    requires b.pdfs != [] && b.pdfs[0].bytes != []
    ensures exists f :: f in Play(RtsPlan(b, manifest), Start(map[]), trace).firings && !Complete(b, manifest, f)
  {
    var p := RtsPlan(b, manifest);
    var up := Uploads(p, 0);
    UploadsRun(p, Start(map[]), 0);
    CsvNames(b.stamp);
    var s := Play(p, Start(map[]), up);
    PlayOne(p, Start(map[]), up, Rename(true));
    PlayOne(p, Start(map[]), up + [Rename(true)], Reship);
    PlayOne(p, Start(map[]), up + [Rename(true)] + [Reship], Truncate);
    trace := up + [Rename(true)] + [Reship] + [Truncate];
    var t := Play(p, Start(map[]), trace);
    ReshipOpensFirstFile(p, s);
    assert p.files[0] == File(Sanitized(b.pdfs[0].number), b.pdfs[0].bytes);
    assert b.pdfs[0] in b.pdfs && t.folder[Sanitized(b.pdfs[0].number)] == [];
    assert !Complete(b, manifest, t.folder);
    PlayOne(p, Start(map[]), trace, Poll);
    PollFires(p, t, CsvName(b.stamp));
    trace := trace + [Poll];
  }

  lemma PollFires(p: Plan, s: State, name: string)
    requires name in s.folder && IsSpreadsheet(name)
    ensures s.folder in Step(p, s, Poll).firings && |Step(p, s, Poll).firings| == |s.firings| + 1
  {
    assert Triggered(s.folder);
    assert Step(p, s, Poll).firings == s.firings + [s.folder];
  }

  lemma ReshipOpensFirstFile(p: Plan, s: State)
    requires s.up.Renaming? && p.files != [] && p.activate.Some? && p.activate.value.0 in s.folder
    ensures var temp, final := p.activate.value.0, p.activate.value.1;
      Step(p, Step(p, Step(p, s, Rename(true)), Reship), Truncate)
      == State((s.folder - {temp})[final := s.folder[temp]][p.files[0].name := []], Writing(0, 0), s.firings)
  {
  }

  // ---------------------------------------------------------------- Triumph

  ghost predicate TriumphFiresComplete(b: Batch, manifest: Bytes, folder: Folder, trace: seq<Action>) {
    forall f :: f in Play(TriumphPlan(b, manifest), Start(folder), trace).firings ==> Complete(b, manifest, f)
  }

  /** Triumph's direct upload has a run in which the poller finds an empty manifest. */
  lemma TriumphCanFireOnTruncatedManifest(b: Batch, manifest: Bytes) returns (trace: seq<Action>)
    requires manifest != []
    ensures Reship !in trace && Retry !in trace && !TriumphFiresComplete(b, manifest, map[], trace)
  {
    var p := TriumphPlan(b, manifest);
    var up, f := ManifestJustOpened(b, manifest, Start(map[]));
    trace := up + [Truncate] + [Poll];
    assert f in Play(p, Start(map[]), trace).firings && !Complete(b, manifest, f);
  }

  /** With the PDFs uploaded and the manifest just opened, a poll fires. */
  lemma ManifestJustOpened(b: Batch, manifest: Bytes, s: State) returns (up: seq<Action>, f: Folder)
    requires s.up == Opening(0) && s.firings == []
    ensures Reship !in up && Retry !in up
    ensures f in Play(TriumphPlan(b, manifest), s, up + [Truncate] + [Poll]).firings
    ensures CsvName(b.stamp) in f && f[CsvName(b.stamp)] == []
  {
    var p := TriumphPlan(b, manifest);
    up := UploadsUpTo(p, s, 0, |b.pdfs|);
    CsvNames(b.stamp);
    PlayOne(p, s, up, Truncate);
    PlayOne(p, s, up + [Truncate], Poll);
    f := PollFindsEmpty(p, Play(p, s, up), CsvName(b.stamp));
  }

  /** Where one attempt stands: whole PDFs and no spreadsheet, until the manifest appears beside all of them. */
  ghost predicate OneAttempt(b: Batch, s: State) {
    var p := TriumphPlan(b, []);
    && (forall f :: f in s.firings ==> Complete(b, [], f))
    && match s.up
       case Opening(i) => i < |p.files| && !Triggered(s.folder) && Uploaded(p, s.folder, i)
       case Writing(i, done) =>
         if i < |b.pdfs| then !Triggered(s.folder) && PartlyUploaded(p, s.folder, i, done)
         else Triggered(s.folder) ==> Complete(b, [], s.folder)
       case Renaming => false
       case Stopped(_) => Triggered(s.folder) ==> Complete(b, [], s.folder)
  }

  /** The manifest is the only spreadsheet of the plan, and PDFs of one name have one content. */
  ghost predicate TriumphNames(p: Plan, b: Batch) {
    && p == TriumphPlan(b, []) && |p.files| == |b.pdfs| + 1
    && p.files[|b.pdfs|] == File(CsvName(b.stamp), []) && IsSpreadsheet(CsvName(b.stamp))
    && (forall i :: 0 <= i < |b.pdfs| ==> p.files[i] == File(Sanitized(b.pdfs[i].number), b.pdfs[i].bytes))
    && (forall i :: 0 <= i < |b.pdfs| ==> !IsSpreadsheet(p.files[i].name))
  }

  lemma TriumphNamesHold(b: Batch)
    ensures TriumphNames(TriumphPlan(b, []), b)
  {
    CsvNames(b.stamp);
    PdfNames(b.pdfs, "g");
  }

  lemma UploadedIsComplete(p: Plan, b: Batch, folder: Folder)
    requires TriumphNames(p, b) && Uploaded(p, folder, |b.pdfs|)
    ensures Complete(b, [], folder[CsvName(b.stamp) := []])
  {
    forall pdf | pdf in b.pdfs
      ensures Sanitized(pdf.number) in folder && folder[Sanitized(pdf.number)] == pdf.bytes
              && Sanitized(pdf.number) != CsvName(b.stamp)
    {
      var i :| 0 <= i < |b.pdfs| && b.pdfs[i] == pdf;
      assert p.files[i].name == Sanitized(pdf.number);
    }
  }

  lemma StepKeepsAttempt(p: Plan, b: Batch, s: State, a: Action)
    requires TriumphNames(p, b) && CollisionFree(b) && OneAttempt(b, s) && Enabled(p, s, a) && !a.Reship? && !a.Retry?
    ensures OneAttempt(b, Apply(p, s, a))
  {
    match a
    case Truncate =>
      if s.up.i == |b.pdfs| { UploadedIsComplete(p, b, s.folder); }
    case Chunk(n) => ChunkKeepsAttempt(p, b, s, n);
    case CloseFile => CloseKeepsAttempt(p, b, s);
    case _ =>
  }

  lemma ChunkKeepsAttempt(p: Plan, b: Batch, s: State, n: nat)
    requires TriumphNames(p, b) && OneAttempt(b, s) && Enabled(p, s, Chunk(n))
    ensures OneAttempt(b, Apply(p, s, Chunk(n)))
  {
    var f := p.files[s.up.i];
    if s.up.i == |b.pdfs| {
      NothingToAdd(p, s, n);
    } else {
      assert f.content[..s.up.done] + f.content[s.up.done..s.up.done + n] == f.content[..s.up.done + n];
    }
  }

  lemma NothingToAdd(p: Plan, s: State, n: nat)
    requires Enabled(p, s, Chunk(n)) && p.files[s.up.i].content == []
    ensures Apply(p, s, Chunk(n)).folder == s.folder
  {
    var f := p.files[s.up.i];
    if f.name in s.folder {
      assert s.folder[f.name] + f.content[s.up.done..s.up.done + n] == s.folder[f.name];
    }
  }

  lemma CloseKeepsAttempt(p: Plan, b: Batch, s: State)
    requires TriumphNames(p, b) && CollisionFree(b) && OneAttempt(b, s) && Enabled(p, s, CloseFile)
    ensures OneAttempt(b, Apply(p, s, CloseFile))
  {
    var f := p.files[s.up.i];
    assert f.content[..s.up.done] == f.content;
    if s.up.i < |b.pdfs| {
      forall j | 0 <= j <= s.up.i
        ensures p.files[j].name in s.folder && s.folder[p.files[j].name] == p.files[j].content
      {
        assert j < s.up.i && p.files[j].name == f.name ==> b.pdfs[j].bytes == b.pdfs[s.up.i].bytes;
      }
    }
  }

  lemma {:induction false} PlayKeepsAttempt(p: Plan, b: Batch, folder: Folder, trace: seq<Action>)
    requires TriumphNames(p, b) && CollisionFree(b) && !Triggered(folder) && Reship !in trace && Retry !in trace
    ensures OneAttempt(b, Play(p, Start(folder), trace))
    decreases |trace|
  {
    if trace != [] {
      var init, last := trace[..|trace| - 1], trace[|trace| - 1];
      assert last in trace;
      PlayKeepsAttempt(p, b, folder, init);
      if Enabled(p, Play(p, Start(folder), init), last) {
        StepKeepsAttempt(p, b, Play(p, Start(folder), init), last);
      }
    }
  }

  /**
   The direct upload, tried once: every firing of every run is complete if and only if there is nothing in the
   manifest to be truncated and no two PDFs with different bytes share a name.
   */
  lemma TriumphSafeIff(b: Batch, manifest: Bytes)
    ensures (manifest == [] && CollisionFree(b)) <==>
      forall folder, trace :: !Triggered(folder) && Reship !in trace && Retry !in trace ==>
        TriumphFiresComplete(b, manifest, folder, trace)
  {
    var p := TriumphPlan(b, manifest);
    if manifest != [] {
      var trace := TriumphCanFireOnTruncatedManifest(b, manifest);
    } else if CollisionFree(b) {
      forall folder, trace | !Triggered(folder) && Reship !in trace && Retry !in trace
        ensures TriumphFiresComplete(b, manifest, folder, trace)
      {
        TriumphNamesHold(b);
        PlayKeepsAttempt(p, b, folder, trace);
      }
    } else {
      var up, f := ManifestJustOpened(b, manifest, Start(map[]));
      CollisionIsIncomplete(b, manifest, f);
      assert !TriumphFiresComplete(b, manifest, map[], up + [Truncate] + [Poll]);
    }
  }

  /** No folder holds both of two different PDFs under one name. */
  lemma CollisionIsIncomplete(b: Batch, manifest: Bytes, f: Folder)
    requires !CollisionFree(b)
    ensures !Complete(b, manifest, f)
  {
    var i, j :| 0 <= i < j < |b.pdfs| && Sanitized(b.pdfs[i].number) == Sanitized(b.pdfs[j].number)
                && b.pdfs[i].bytes != b.pdfs[j].bytes;
    assert b.pdfs[i] in b.pdfs && b.pdfs[j] in b.pdfs;
  }

  /**
   And a retry costs even that: with any PDF at all, an attempt that stopped at the manifest and is started over
   has a run in which the poller clears the PDFs away and then fires on the manifest alone.
   */
  lemma TriumphRetryBreaksTheBatch(b: Batch, manifest: Bytes) returns (trace: seq<Action>)
    requires b.pdfs != []
    ensures Reship !in trace && !TriumphFiresComplete(b, manifest, map[], trace)
  {
    var p := TriumphPlan(b, manifest);
    var up := UploadsUpTo(p, Start(map[]), 0, |b.pdfs|);
    var stopped := [Truncate, Halt, Retry];
    CsvNames(b.stamp);
    var s := Play(p, Start(map[]), up);
    StopsAtManifest(p, s, CsvName(b.stamp));
    var s1 := Play(p, s, stopped);
    var again := UploadsUpTo(p, s1, 0, |b.pdfs|);
    var s2 := Play(p, s1, again);
    var polls := [Poll, Truncate, Poll];
    FiresOnManifestAlone(p, s2, CsvName(b.stamp));
    PlayParts(p, Start(map[]), up, stopped, again, polls);
    ManifestAloneIsIncomplete(b, manifest);
    trace := up + (stopped + (again + polls));
  }

  lemma PlayParts(p: Plan, s: State, a: seq<Action>, b: seq<Action>, c: seq<Action>, d: seq<Action>)
    ensures Play(p, s, a + (b + (c + d))) == Play(p, Play(p, Play(p, Play(p, s, a), b), c), d)
  {
    PlayAppend(p, s, a, b + (c + d));
    PlayAppend(p, Play(p, s, a), b, c + d);
    PlayAppend(p, Play(p, Play(p, s, a), b), c, d);
  }

  lemma ManifestAloneIsIncomplete(b: Batch, manifest: Bytes)
    requires b.pdfs != []
    ensures !Complete(b, manifest, map[CsvName(b.stamp) := []])
  {
    CsvNames(b.stamp);
    PdfNames(b.pdfs, "g");
    assert b.pdfs[0] in b.pdfs && PdfFiles(b.pdfs)[0].name == Sanitized(b.pdfs[0].number);
  }

  lemma PlayThree(p: Plan, s: State, x: Action, y: Action, z: Action)
    ensures Play(p, s, [x, y, z]) == Step(p, Step(p, Step(p, s, x), y), z)
  {
    assert [x, y, z][..2] == [x, y] && [x, y][..1] == [x] && [x][..0] == [];
    assert Play(p, s, [x]) == Step(p, s, x);
    assert Play(p, s, [x, y]) == Step(p, Step(p, s, x), y);
  }

  lemma StopsAtManifest(p: Plan, s: State, name: string)
    requires p.files != [] && s.up == Opening(|p.files| - 1) && p.files[|p.files| - 1].name == name
    ensures var s' := Play(p, s, [Truncate, Halt, Retry]); s'.up == Opening(0) && name in s'.folder
  {
    PlayThree(p, s, Truncate, Halt, Retry);
  }

  lemma FiresOnManifestAlone(p: Plan, s: State, name: string)
    requires p.files != [] && s.up == Opening(|p.files| - 1) && p.files[|p.files| - 1].name == name
    requires name in s.folder && IsSpreadsheet(name)
    ensures map[name := []] in Play(p, s, [Poll, Truncate, Poll]).firings
  {
    PlayThree(p, s, Poll, Truncate, Poll);
    PollFires(p, s, name);
    var truncated := Step(p, Step(p, s, Poll), Truncate);
    assert truncated.folder == map[name := []];
    PollFires(p, truncated, name);
  }

  /** A poll right after the last file was opened finds it empty. */
  lemma PollFindsEmpty(p: Plan, s: State, name: string) returns (f: Folder)
    requires p.files != [] && s.up == Opening(|p.files| - 1) && p.files[|p.files| - 1].name == name
    requires IsSpreadsheet(name)
    ensures f in Step(p, Step(p, s, Truncate), Poll).firings && name in f && f[name] == []
  {
    var t := Step(p, s, Truncate);
    f := t.folder;
    PollFires(p, t, name);
  }

  lemma {:induction false} UploadsUpTo(p: Plan, s: State, i: nat, n: nat) returns (trace: seq<Action>)
    requires i <= n < |p.files| && s.up == Opening(i)
    ensures Reship !in trace && Retry !in trace
    ensures Play(p, s, trace).up == Opening(n) && Play(p, s, trace).firings == s.firings
    ensures s.folder.Keys <= Play(p, s, trace).folder.Keys
    decreases n - i
  {
    if i == n {
      trace := [];
    } else {
      var one := [Truncate, Chunk(|p.files[i].content|), CloseFile];
      UploadOne(p, s);
      var rest := UploadsUpTo(p, Play(p, s, one), i + 1, n);
      trace := one + rest;
      PlayAppend(p, s, one, rest);
    }
  }
}
