/** The batch loop (JpegQuality.cs, ProcessImages and ProcessImage). It runs sequentially
    over the submitted paths:

      report (0, n); then for each file in order: stop if cancellation is pending, throw if
      the file does not exist, compute the destination, decode and re-encode it, and report
      (++complete, n).

    The file system is a map from path to content. GDI+ decoding and encoding are function
    values that the model does not look into; either may fail. Cancellation is an oracle
    asked once per loop step. A ghost log records which file each access belongs to (the
    existence check, the read of the source, the write of the copy), so the model can state
    which files a run never touches. */
module BatchProcessor {
  import opened Wrappers
  import opened Strings
  import opened PathPolicy

  newtype byte = x: int | 0 <= x < 256

  type FileSystem = map<string, seq<byte>>

  /** Decoded pixel data; the model never looks inside it. */
  datatype Bitmap = Bitmap(pixels: seq<int>)

  /** The GDI+ capability: `decode` is Bitmap.FromFile on the file's bytes, `save` is
      Image.Save with the JPEG encoder at the given quality to the given path, giving the
      bytes it writes there. `None` stands for the exception either may throw. */
  datatype Codec = Codec(
    decode: seq<byte> -> Option<Bitmap>,
    save: (Bitmap, Quality, string) -> Option<seq<byte>>)

  /** What ends a run early: the FileNotFoundException of the loop, the ArgumentException
      String.Replace throws for an empty extension, and the two codec failures. */
  datatype Error = FileNotFound | EmptyExtension | DecodeFailed | SaveFailed

  datatype Outcome = Completed | Cancelled(done: nat) | Failed(error: Error, index: nat)

  /** One Worker.ReportProgress(complete, total) call. */
  datatype Report = Report(complete: nat, total: nat)

  datatype Op = Checked | ReadSource | Wrote(destination: string)

  /** An access to the file system on behalf of the file at `index` in the batch. */
  datatype Access = Access(index: nat, op: Op)

  datatype StepResult = Done(fs: FileSystem, log: seq<Access>) | Stopped(error: Error, log: seq<Access>)

  datatype Run = Run(outcome: Outcome, fs: FileSystem, reports: seq<Report>, log: seq<Access>)

  /** The index at which a run over `n` files stopped (`n` when it went through). */
  function StopIndex(o: Outcome, n: nat): nat
  {
    match o
    case Completed => n
    case Cancelled(k) => k
    case Failed(_, i) => i
  }

  /** The paths a log says were written. */
  ghost function Written(log: seq<Access>): set<string>
  {
    set a | a in log && a.op.Wrote? :: a.op.destination
  }

  // ---------------------------------------------------------------- one file

  /** ProcessImage(source, destination), for the file at `index`: decode the source, encode
      it at `quality` and write the result to `destination`. Only the destination changes,
      and it changes exactly when both codec calls succeed, to the bytes the encoder made;
      a failed decode is reported as such, and any other failure is the save's. */
  function ProcessImage(fs: FileSystem, source: string, destination: string, quality: Quality,
                        codec: Codec, index: nat): (r: StepResult)
    requires source in fs
    ensures r.log != [] && r.log[0] == Access(index, ReadSource)
    ensures r.Done? ==> destination in r.fs && r.fs == fs[destination := r.fs[destination]]
    ensures r.Done? <==> codec.decode(fs[source]).Some? &&
                         codec.save(codec.decode(fs[source]).value, quality, destination).Some?
    ensures r.Done? ==>
              r.fs[destination] == codec.save(codec.decode(fs[source]).value, quality, destination).value
    ensures r.Stopped? ==> (r.error == DecodeFailed <==> codec.decode(fs[source]).None?) &&
                           (r.error == DecodeFailed || r.error == SaveFailed)
  {
    match codec.decode(fs[source])
    case None => Stopped(DecodeFailed, [Access(index, ReadSource)])
    case Some(bitmap) =>
      match codec.save(bitmap, quality, destination)
      case None => Stopped(SaveFailed, [Access(index, ReadSource)])
      case Some(bytes) =>
        Done(fs[destination := bytes], [Access(index, ReadSource), Access(index, Wrote(destination))])
  }

  /** Every access of ProcessImage belongs to its file, the only write is to the
      destination, and it writes exactly when it succeeds. */
  lemma ProcessImageAccesses(fs: FileSystem, source: string, destination: string,
                             quality: Quality, codec: Codec, index: nat)
    requires source in fs
    ensures var r := ProcessImage(fs, source, destination, quality, codec, index);
      && (r.Done? <==> Access(index, Wrote(destination)) in r.log)
      && forall a :: a in r.log ==> a.index == index && (a.op.Wrote? ==> a.op.destination == destination)
  {
  }

  /** The body of the loop for the file at `index`, after the cancellation check. */
  function Step(fs: FileSystem, file: string, index: nat, quality: Quality, codec: Codec): StepResult
  {
    if file !in fs then Stopped(FileNotFound, [Access(index, Checked)])
    else if Extension(FileName(file)) == [] then Stopped(EmptyExtension, [Access(index, Checked)])
    else
      match ProcessImage(fs, file, Destination(file, quality), quality, codec, index)
      case Done(fs', log) => Done(fs', [Access(index, Checked)] + log)
      case Stopped(e, log) => Stopped(e, [Access(index, Checked)] + log)
  }

  /** The path the loop writes the copy of `file` to; none when the file name has no
      extension, since String.Replace then throws before anything is written. */
  function Target(file: string, quality: Quality): Option<string>
  {
    if Extension(FileName(file)) != [] then Some(Destination(file, quality)) else None
  }

  // ---------------------------------------------------------------- the run

  /** A loop body: what one step does for the file at an index, given the file system. */
  type Body = (FileSystem, string, nat) -> StepResult

  /** The loop from step `i` on, for any loop body, with the file system as it is at that
      step: stop when cancellation is pending, stop at the first step that fails, and report
      each completed file. */
  function RunFrom(files: seq<string>, cancel: nat -> bool, body: Body, i: nat, fs: FileSystem): Run
    requires i <= |files|
    decreases |files| - i
  {
    if i == |files| then Run(Completed, fs, [], [])
    else if cancel(i) then Run(Cancelled(i), fs, [], [])
    else
      match body(fs, files[i], i)
      case Stopped(e, log) => Run(Failed(e, i), fs, [], log)
      case Done(fs', log) =>
        var rest := RunFrom(files, cancel, body, i + 1, fs');
        Run(rest.outcome, rest.fs, [Report(i + 1, |files|)] + rest.reports, log + rest.log)
  }

  /** The loop body of ProcessImages. */
  function Loop(quality: Quality, codec: Codec): Body
  {
    (fs: FileSystem, file: string, index: nat) => Step(fs, file, index, quality, codec)
  }

  /** The whole run: the initial report (0, n), then the loop from its first step. */
  function Batch(fs: FileSystem, files: seq<string>, quality: Quality, cancel: nat -> bool,
                 codec: Codec): Run
  {
    var r := RunFrom(files, cancel, Loop(quality, codec), 0, fs);
    r.(reports := [Report(0, |files|)] + r.reports)
  }

  /** A run with `reports` and `log` already behind it. */
  function Resume(reports: seq<Report>, log: seq<Access>, r: Run): Run
  {
    Run(r.outcome, r.fs, reports + r.reports, log + r.log)
  }

  /** One step of the loop, for any body: a pending cancellation ends the run there; otherwise
      a failing step ends it with that step's log, and a succeeding one reports and goes on. */
  lemma RunFromUnfolds(files: seq<string>, cancel: nat -> bool, body: Body, k: nat, fs: FileSystem)
    requires k < |files|
    ensures var st := body(fs, files[k], k);
      RunFrom(files, cancel, body, k, fs) ==
        if cancel(k) then Run(Cancelled(k), fs, [], [])
        else if st.Stopped? then Run(Failed(st.error, k), fs, [], st.log)
        else Resume([Report(k + 1, |files|)], st.log, RunFrom(files, cancel, body, k + 1, st.fs))
  {
  }

  /** The body of the loop of ProcessImages after the cancellation check, for the file at
      index `k`: throw when the file does not exist, compute the destination (String.Replace
      throws on an empty extension), then ProcessImage. */
  method ProcessFile(fs: FileSystem, file: string, k: nat, quality: Quality, codec: Codec)
    returns (step: StepResult)
    ensures step == Step(fs, file, k, quality, codec)
  {
    var checked := [Access(k, Checked)];
    if file !in fs {
      return Stopped(FileNotFound, checked);
    }
    if Extension(FileName(file)) == [] {
      return Stopped(EmptyExtension, checked);
    }
    var path := Destination(file, quality);
    var r := ProcessImage(fs, file, path, quality, codec, k);
    step := if r.Done? then Done(r.fs, checked + r.log) else Stopped(r.error, checked + r.log);
  }

  /** Applying the loop body is taking one step. */
  lemma LoopIsStep(quality: Quality, codec: Codec, fs: FileSystem, file: string, k: nat)
    ensures Loop(quality, codec)(fs, file, k) == Step(fs, file, k, quality, codec)
  {
  }

  /** Resuming twice is resuming once with both prefixes. */
  lemma ResumeStep(reports: seq<Report>, log: seq<Access>, more: seq<Report>, steps: seq<Access>,
                   r: Run)
    ensures Resume(reports, log, Resume(more, steps, r)) == Resume(reports + more, log + steps, r)
  {
  }

  /** ProcessImages(files): the loop, with early return on cancellation and on error. */
  method ProcessImages(fs0: FileSystem, files: seq<string>, quality: Quality,
                       cancel: nat -> bool, codec: Codec)
    returns (outcome: Outcome, fs: FileSystem, reports: seq<Report>, ghost log: seq<Access>)
    ensures var r := Batch(fs0, files, quality, cancel, codec);
      outcome == r.outcome && fs == r.fs && reports == r.reports
    ensures log == Batch(fs0, files, quality, cancel, codec).log
  {
    ghost var whole := Batch(fs0, files, quality, cancel, codec);
    ghost var body := Loop(quality, codec);
    var complete := 0;
    reports := [Report(complete, |files|)];
    fs, log := fs0, [];
    for k := 0 to |files|
      invariant complete == k
      invariant whole == Resume(reports, log, RunFrom(files, cancel, body, k, fs))
    {
      RunFromUnfolds(files, cancel, body, k, fs);
      if cancel(k) {
        outcome := Cancelled(complete);
        return;
      }
      var step := ProcessFile(fs, files[k], k, quality, codec);
      LoopIsStep(quality, codec, fs, files[k], k);
      if step.Stopped? {
        outcome := Failed(step.error, k);
        log := log + step.log;
        return;
      }
      ResumeStep(reports, log, [Report(complete + 1, |files|)], step.log,
                 RunFrom(files, cancel, body, k + 1, step.fs));
      log := log + step.log;
      fs := step.fs;
      complete := complete + 1;
      reports := reports + [Report(complete, |files|)];
    }
    outcome := Completed;
  }
}

/** What a run promises. The loop's control (reports, cancellation, stopping) is proved once
    for any loop body; what it writes is proved for any body whose steps are tidy (each
    access belongs to its own file, and a step writes exactly the copy of its file at that
    file's target, and only when it succeeds), and the body of ProcessImages is shown to be
    tidy. */
module BatchProperties {
  import opened Wrappers
  import opened Strings
  import opened PathPolicy
  import opened BatchProcessor

  /** Every access of a step belongs to the step's own file. */
  ghost predicate StepOwned(st: StepResult, index: nat)
  {
    forall a :: a in st.log ==> a.index == index
  }

  /** A step writes only when it succeeds, and only at its file's target. */
  ghost predicate StepWrites(st: StepResult, target: Option<string>)
  {
    forall a :: a in st.log && a.op.Wrote? ==> st.Done? && target == Some(a.op.destination)
  }

  /** A step that succeeds wrote its file's target, and changed nothing else. */
  ghost predicate StepUpdates(st: StepResult, fs: FileSystem, index: nat, target: Option<string>)
  {
    st.Done? ==>
      && target.Some?
      && Access(index, Wrote(target.value)) in st.log
      && target.value in st.fs
      && st.fs == fs[target.value := st.fs[target.value]]
  }

  /** One application of a loop body. The properties of a body below are stated on this
      term, so that they are used for the steps a proof names and for no others. */
  ghost function StepAt(body: Body, fs: FileSystem, file: string, index: nat): StepResult
  {
    body(fs, file, index)
  }

  ghost predicate Owned(body: Body)
  {
    forall fs, file, index :: StepOwned(StepAt(body, fs, file, index), index)
  }

  ghost predicate WritesTargets(body: Body, target: string -> Option<string>)
  {
    forall fs, file, index :: StepWrites(StepAt(body, fs, file, index), target(file))
  }

  ghost predicate UpdatesTargets(body: Body, target: string -> Option<string>)
  {
    forall fs, file, index :: StepUpdates(StepAt(body, fs, file, index), fs, index, target(file))
  }

  /** A tidy loop body: each step's accesses are its own, and a step writes exactly its
      file's target, exactly when it succeeds. */
  ghost predicate Tidy(body: Body, target: string -> Option<string>)
  {
    Owned(body) && WritesTargets(body, target) && UpdatesTargets(body, target)
  }

  /** A step that succeeds found its file, and left it in place. */
  ghost predicate StepFinds(st: StepResult, fs: FileSystem, file: string)
  {
    st.Done? ==> file in fs && file in st.fs
  }

  /** A loop body that goes past only files it finds. */
  ghost predicate Finds(body: Body)
  {
    forall fs, file, index :: StepFinds(StepAt(body, fs, file, index), fs, file)
  }

  function Targets(quality: Quality): string -> Option<string>
  {
    (file: string) => Target(file, quality)
  }

  // ---------------------------------------------------------------- the body of ProcessImages

  /** Each step of ProcessImages is tidy: it checks, reads and writes only on behalf of its
      own file, and the only path it writes is that file's destination. */
  lemma StepIsTidy(fs: FileSystem, file: string, index: nat, quality: Quality, codec: Codec)
    ensures var st := Step(fs, file, index, quality, codec);
      && StepOwned(st, index)
      && StepWrites(st, Target(file, quality))
      && StepUpdates(st, fs, index, Target(file, quality))
  {
    if file in fs && Extension(FileName(file)) != [] {
      ProcessImageAccesses(fs, file, Destination(file, quality), quality, codec, index);
    }
  }

  lemma LoopIsTidy(quality: Quality, codec: Codec)
    ensures Tidy(Loop(quality, codec), Targets(quality))
  {
    var body, target := Loop(quality, codec), Targets(quality);
    forall fs, file, index
      ensures && StepOwned(StepAt(body, fs, file, index), index)
              && StepWrites(StepAt(body, fs, file, index), target(file))
              && StepUpdates(StepAt(body, fs, file, index), fs, index, target(file))
    {
      StepIsTidy(fs, file, index, quality, codec);
    }
  }

  /** ProcessImages goes past a file only when it exists, since the loop checks that first. */
  lemma LoopFinds(quality: Quality, codec: Codec)
    ensures Finds(Loop(quality, codec))
  {
    var body := Loop(quality, codec);
    forall fs, file, index
      ensures StepFinds(StepAt(body, fs, file, index), fs, file)
    {
      assert StepAt(body, fs, file, index) == Step(fs, file, index, quality, codec);
    }
  }

  // ---------------------------------------------------------------- any loop body, from step i on

  /** From step `i`, the reports are (i+1, n), (i+2, n), ... up to the stop index. */
  lemma {:induction false} RunFromReports(files: seq<string>, cancel: nat -> bool, body: Body,
                                          i: nat, fs: FileSystem)
    requires i <= |files|
    ensures var r := RunFrom(files, cancel, body, i, fs);
      && i <= StopIndex(r.outcome, |files|) <= |files|
      && (!r.outcome.Completed? ==> StopIndex(r.outcome, |files|) < |files|)
      && |r.reports| == StopIndex(r.outcome, |files|) - i
      && forall j :: 0 <= j < |r.reports| ==> r.reports[j] == Report(i + 1 + j, |files|)
    decreases |files| - i
  {
    if i < |files| && !cancel(i) {
      var step := body(fs, files[i], i);
      if step.Done? {
        RunFromReports(files, cancel, body, i + 1, step.fs);
      }
    }
  }

  /** Cancellation was not pending at any step before the stop; a cancelled run stopped at a
      step where it was pending; a failed run stopped at a step where it was not, and that
      step, taken again on the final file system, fails with the same error. */
  lemma {:induction false} RunFromStops(files: seq<string>, cancel: nat -> bool, body: Body,
                                        i: nat, fs: FileSystem)
    requires i <= |files|
    ensures var r := RunFrom(files, cancel, body, i, fs);
      var s := StopIndex(r.outcome, |files|);
      && (forall j :: i <= j < s ==> !cancel(j))
      && (r.outcome.Cancelled? ==> i <= s < |files| && cancel(s))
      && (r.outcome.Failed? ==>
            && i <= s < |files| && !cancel(s)
            && body(r.fs, files[s], s).Stopped?
            && body(r.fs, files[s], s).error == r.outcome.error)
    decreases |files| - i
  {
    if i < |files| && !cancel(i) {
      var step := body(fs, files[i], i);
      if step.Done? {
        RunFromStops(files, cancel, body, i + 1, step.fs);
      }
    }
  }

  /** A cancellation pending at step `k` stops the run at `k` at the latest, and a run that
      gets as far as `k` ends there as cancelled. */
  lemma {:induction false} RunFromPending(files: seq<string>, cancel: nat -> bool, body: Body,
                                          i: nat, fs: FileSystem, k: nat)
    requires i <= k < |files| && cancel(k)
    ensures var r := RunFrom(files, cancel, body, i, fs);
      && StopIndex(r.outcome, |files|) <= k
      && (StopIndex(r.outcome, |files|) == k ==> r.outcome == Cancelled(k))
    decreases k - i
  {
    if i < k && !cancel(i) {
      var step := body(fs, files[i], i);
      if step.Done? {
        RunFromPending(files, cancel, body, i + 1, step.fs, k);
      }
    }
  }

  /** For a body whose steps own their accesses, from step `i`: every access belongs to a
      file from `i` up to the stop index, and to the stop index only when the run failed
      there. */
  lemma {:induction false} RunFromIndices(files: seq<string>, cancel: nat -> bool, body: Body,
                                          i: nat, fs: FileSystem)
    requires i <= |files| && Owned(body)
    ensures var r := RunFrom(files, cancel, body, i, fs);
      var s := StopIndex(r.outcome, |files|);
      forall a :: a in r.log ==>
        i <= a.index <= s && a.index < |files| && (a.index == s ==> r.outcome.Failed?)
    decreases |files| - i
  {
    var r := RunFrom(files, cancel, body, i, fs);
    if i < |files| && !cancel(i) {
      var step := body(fs, files[i], i);
      assert StepOwned(StepAt(body, fs, files[i], i), i);
      if step.Done? {
        var rest := RunFrom(files, cancel, body, i + 1, step.fs);
        RunFromIndices(files, cancel, body, i + 1, step.fs);
        RunFromReports(files, cancel, body, i + 1, step.fs);
        forall a | a in r.log
          ensures a in step.log || a in rest.log
        {
        }
      }
    }
  }

  /** For a tidy body, from step `i`: every write is the copy of a file before the stop index,
      at that file's target. */
  lemma {:induction false} RunFromWrites(files: seq<string>, cancel: nat -> bool, body: Body,
                                         target: string -> Option<string>, i: nat, fs: FileSystem)
    requires i <= |files| && Owned(body) && WritesTargets(body, target)
    ensures var r := RunFrom(files, cancel, body, i, fs);
      var s := StopIndex(r.outcome, |files|);
      forall a :: a in r.log && a.op.Wrote? ==>
        i <= a.index < s && a.index < |files| && target(files[a.index]) == Some(a.op.destination)
    decreases |files| - i
  {
    var r := RunFrom(files, cancel, body, i, fs);
    if i < |files| && !cancel(i) {
      var step := body(fs, files[i], i);
      assert StepOwned(StepAt(body, fs, files[i], i), i);
      assert StepWrites(StepAt(body, fs, files[i], i), target(files[i]));
      if step.Done? {
        var rest := RunFrom(files, cancel, body, i + 1, step.fs);
        RunFromWrites(files, cancel, body, target, i + 1, step.fs);
        RunFromReports(files, cancel, body, i + 1, step.fs);
        forall a | a in r.log
          ensures a in step.log || a in rest.log
        {
        }
      }
    }
  }

  /** For a tidy body, from step `i`: every file before the stop index had a target, and its
      copy was written there. */
  lemma {:induction false} RunFromWritten(files: seq<string>, cancel: nat -> bool, body: Body,
                                          target: string -> Option<string>, i: nat, fs: FileSystem)
    requires i <= |files| && UpdatesTargets(body, target)
    ensures var r := RunFrom(files, cancel, body, i, fs);
      var s := StopIndex(r.outcome, |files|);
      forall j :: i <= j < s && j < |files| ==>
        target(files[j]).Some? && Access(j, Wrote(target(files[j]).value)) in r.log
    decreases |files| - i
  {
    var r := RunFrom(files, cancel, body, i, fs);
    if i < |files| && !cancel(i) {
      var step := body(fs, files[i], i);
      assert StepUpdates(StepAt(body, fs, files[i], i), fs, i, target(files[i]));
      if step.Done? {
        var rest := RunFrom(files, cancel, body, i + 1, step.fs);
        RunFromWritten(files, cancel, body, target, i + 1, step.fs);
        assert r.log == step.log + rest.log;
      }
    }
  }

  lemma WrittenConcat(x: seq<Access>, y: seq<Access>)
    ensures Written(x + y) == Written(x) + Written(y)
  {
    forall a | a in x + y
      ensures a in x || a in y
    {
    }
  }

  /** What one step writes, by its log: its target when it succeeds, nothing otherwise. */
  lemma WrittenByStep(st: StepResult, fs: FileSystem, index: nat, target: Option<string>)
    requires StepWrites(st, target) && StepUpdates(st, fs, index, target)
    ensures st.Done? ==> Written(st.log) == {target.value}
    ensures st.Stopped? ==> Written(st.log) == {}
  {
    if st.Done? {
      assert Access(index, Wrote(target.value)) in st.log;
    }
  }

  /** For a body that writes only its targets, from step `i`: every path that is not written
      was there before and keeps its content. */
  lemma {:induction false} RunFromFrame(files: seq<string>, cancel: nat -> bool, body: Body,
                                        target: string -> Option<string>, i: nat, fs: FileSystem)
    requires i <= |files| && WritesTargets(body, target) && UpdatesTargets(body, target)
    ensures var r := RunFrom(files, cancel, body, i, fs);
      forall p :: p in r.fs && p !in Written(r.log) ==> p in fs && r.fs[p] == fs[p]
    decreases |files| - i
  {
    if i < |files| && !cancel(i) {
      var step := body(fs, files[i], i);
      assert StepWrites(StepAt(body, fs, files[i], i), target(files[i]));
      assert StepUpdates(StepAt(body, fs, files[i], i), fs, i, target(files[i]));
      WrittenByStep(step, fs, i, target(files[i]));
      if step.Done? {
        var r := RunFrom(files, cancel, body, i, fs);
        var rest := RunFrom(files, cancel, body, i + 1, step.fs);
        var t := target(files[i]).value;
        RunFromFrame(files, cancel, body, target, i + 1, step.fs);
        WrittenConcat(step.log, rest.log);
        assert r.fs == rest.fs && r.log == step.log + rest.log;
        assert Written(r.log) == {t} + Written(rest.log);
        forall p | p in r.fs && p !in Written(r.log)
          ensures p in fs && r.fs[p] == fs[p]
        {
          assert p != t && p !in Written(rest.log);
          assert p in step.fs && rest.fs[p] == step.fs[p];
        }
      }
    }
  }

  /** For a body that writes only its targets, from step `i`: the paths at the end are the
      paths at the start and the paths written. */
  lemma {:induction false} RunFromKeys(files: seq<string>, cancel: nat -> bool, body: Body,
                                       target: string -> Option<string>, i: nat, fs: FileSystem)
    requires i <= |files| && WritesTargets(body, target) && UpdatesTargets(body, target)
    ensures var r := RunFrom(files, cancel, body, i, fs);
      forall p :: p in r.fs <==> p in fs || p in Written(r.log)
    decreases |files| - i
  {
    var r := RunFrom(files, cancel, body, i, fs);
    if i < |files| && !cancel(i) {
      var step := body(fs, files[i], i);
      assert StepWrites(StepAt(body, fs, files[i], i), target(files[i]));
      assert StepUpdates(StepAt(body, fs, files[i], i), fs, i, target(files[i]));
      WrittenByStep(step, fs, i, target(files[i]));
      if step.Done? {
        var rest := RunFrom(files, cancel, body, i + 1, step.fs);
        var t := target(files[i]).value;
        RunFromKeys(files, cancel, body, target, i + 1, step.fs);
        WrittenConcat(step.log, rest.log);
        assert r.fs == rest.fs && r.log == step.log + rest.log;
        forall p
          ensures p in r.fs <==> p in fs || p in Written(r.log)
        {
          assert p in step.fs <==> p in fs || p == t;
        }
      }
    } else {
      assert r.log == [];
    }
  }

  /** For a body that finds its files and writes only its targets, from step `i`: every file
      the run went past is still present when the run ends. */
  lemma {:induction false} RunFromFound(files: seq<string>, cancel: nat -> bool, body: Body,
                                        target: string -> Option<string>, i: nat, fs: FileSystem)
    requires i <= |files| && Finds(body) && WritesTargets(body, target) && UpdatesTargets(body, target)
    ensures var r := RunFrom(files, cancel, body, i, fs);
      forall j :: i <= j < StopIndex(r.outcome, |files|) && j < |files| ==> files[j] in r.fs
    decreases |files| - i
  {
    if i < |files| && !cancel(i) {
      var step := body(fs, files[i], i);
      if step.Done? {
        assert StepFinds(StepAt(body, fs, files[i], i), fs, files[i]);
        RunFromKeys(files, cancel, body, target, i + 1, step.fs);
        RunFromFound(files, cancel, body, target, i + 1, step.fs);
      }
    }
  }

  // ---------------------------------------------------------------- the loop of ProcessImages

  /** What the log of a run of ProcessImages says, over the whole run. */
  lemma BatchLog(fs: FileSystem, files: seq<string>, quality: Quality, cancel: nat -> bool, codec: Codec)
    ensures var r := Batch(fs, files, quality, cancel, codec);
      var s := StopIndex(r.outcome, |files|);
      && s <= |files|
      && (forall a :: a in r.log ==>
            a.index <= s && a.index < |files| && (a.index == s ==> r.outcome.Failed?))
      && (forall a :: a in r.log && a.op.Wrote? ==>
            a.index < s && Target(files[a.index], quality) == Some(a.op.destination))
      && (forall j :: 0 <= j < s ==>
            Target(files[j], quality).Some? && Access(j, Wrote(Target(files[j], quality).value)) in r.log)
  {
    LoopIsTidy(quality, codec);
    RunFromReports(files, cancel, Loop(quality, codec), 0, fs);
    RunFromIndices(files, cancel, Loop(quality, codec), 0, fs);
    RunFromWrites(files, cancel, Loop(quality, codec), Targets(quality), 0, fs);
    RunFromWritten(files, cancel, Loop(quality, codec), Targets(quality), 0, fs);
  }

  /** What a run of ProcessImages leaves in the file system, by its log. */
  lemma BatchFrame(fs: FileSystem, files: seq<string>, quality: Quality, cancel: nat -> bool, codec: Codec)
    ensures var r := Batch(fs, files, quality, cancel, codec);
      && (forall p :: p in fs ==> p in r.fs)
      && (forall p :: p in r.fs && p !in Written(r.log) ==> p in fs && r.fs[p] == fs[p])
      && (forall p :: p in r.fs <==> p in fs || p in Written(r.log))
  {
    LoopIsTidy(quality, codec);
    RunFromFrame(files, cancel, Loop(quality, codec), Targets(quality), 0, fs);
    RunFromKeys(files, cancel, Loop(quality, codec), Targets(quality), 0, fs);
  }

  // ---------------------------------------------------------------- the whole run

  /** The reports are (0, n), (1, n), ..., (m, n): strictly increasing by one, always with
      the batch's length as total, never more than n, and m is where the run stopped. */
  lemma ProgressReports(fs: FileSystem, files: seq<string>, quality: Quality, cancel: nat -> bool, codec: Codec)
    ensures var r := Batch(fs, files, quality, cancel, codec);
      && 1 <= |r.reports| <= |files| + 1
      && |r.reports| - 1 == StopIndex(r.outcome, |files|)
      && (forall j :: 0 <= j < |r.reports| ==> r.reports[j] == Report(j, |files|))
      && (r.outcome == Completed <==> |r.reports| == |files| + 1)
  {
    RunFromReports(files, cancel, Loop(quality, codec), 0, fs);
  }

  /** A cancelled run was cancelled at a step where cancellation was pending and at no earlier
      one, before that step's file was looked at: files 0..k-1 were each written at their
      destinations, no access belongs to file k or later, and k completions were reported. */
  lemma CancelledRun(fs: FileSystem, files: seq<string>, quality: Quality, cancel: nat -> bool, codec: Codec)
    ensures var r := Batch(fs, files, quality, cancel, codec);
      r.outcome.Cancelled? ==>
        var k := r.outcome.done;
        && k < |files| && cancel(k)
        && (forall j :: 0 <= j < k ==> !cancel(j))
        && |r.reports| == k + 1
        && (forall a :: a in r.log ==> a.index < k)
        && (forall j :: 0 <= j < k ==>
              Extension(FileName(files[j])) != [] && Access(j, Wrote(Destination(files[j], quality))) in r.log)
  {
    var r := Batch(fs, files, quality, cancel, codec);
    ProgressReports(fs, files, quality, cancel, codec);
    RunFromStops(files, cancel, Loop(quality, codec), 0, fs);
    BatchLog(fs, files, quality, cancel, codec);
    if r.outcome.Cancelled? {
      var k := r.outcome.done;
      forall j | 0 <= j < k
        ensures Extension(FileName(files[j])) != [] && Access(j, Wrote(Destination(files[j], quality))) in r.log
      {
        assert Target(files[j], quality).Some?;
      }
    }
  }

  /** Cancellation pending at step k, before any earlier stop, ends the run as Cancelled(k);
      in every case no access belongs to file k or to any file after it. */
  lemma PendingCancellation(fs: FileSystem, files: seq<string>, quality: Quality, cancel: nat -> bool,
                            codec: Codec, k: nat)
    requires k < |files| && cancel(k)
    ensures var r := Batch(fs, files, quality, cancel, codec);
      && StopIndex(r.outcome, |files|) <= k
      && (StopIndex(r.outcome, |files|) == k ==> r.outcome == Cancelled(k))
      && (forall a :: a in r.log ==> a.index < k)
  {
    var r := Batch(fs, files, quality, cancel, codec);
    RunFromPending(files, cancel, Loop(quality, codec), 0, fs, k);
    BatchLog(fs, files, quality, cancel, codec);
  }

  /** A failed run fails fast: it stopped at file i, and the step for file i fails with the
      same error on the final file system (so a missing file is still missing), and no
      completion is reported for file i. */
  lemma FailedRun(fs: FileSystem, files: seq<string>, quality: Quality, cancel: nat -> bool, codec: Codec)
    ensures var r := Batch(fs, files, quality, cancel, codec);
      r.outcome.Failed? ==>
        var i := r.outcome.index;
        && i < |files| && !cancel(i)
        && Step(r.fs, files[i], i, quality, codec).Stopped?
        && Step(r.fs, files[i], i, quality, codec).error == r.outcome.error
        && (r.outcome.error == FileNotFound <==> files[i] !in r.fs)
        && |r.reports| == i + 1
  {
    var r := Batch(fs, files, quality, cancel, codec);
    ProgressReports(fs, files, quality, cancel, codec);
    RunFromStops(files, cancel, Loop(quality, codec), 0, fs);
    if r.outcome.Failed? {
      var i := r.outcome.index;
      assert Loop(quality, codec)(r.fs, files[i], i) == Step(r.fs, files[i], i, quality, codec);
    }
  }

  /** After a failure at file i, nothing after file i was touched, file i itself was not
      written, and the copies of files 0..i-1 are in place. */
  lemma FailedRunLeaves(fs: FileSystem, files: seq<string>, quality: Quality, cancel: nat -> bool, codec: Codec)
    ensures var r := Batch(fs, files, quality, cancel, codec);
      r.outcome.Failed? ==>
        var i := r.outcome.index;
        && i < |files|
        && (forall a :: a in r.log ==> a.index <= i && (a.index == i ==> !a.op.Wrote?))
        && (forall j :: 0 <= j < i ==>
              Extension(FileName(files[j])) != [] && Destination(files[j], quality) in r.fs)
  {
    var r := Batch(fs, files, quality, cancel, codec);
    RunFromStops(files, cancel, Loop(quality, codec), 0, fs);
    BatchLog(fs, files, quality, cancel, codec);
    BatchFrame(fs, files, quality, cancel, codec);
    if r.outcome.Failed? {
      var i := r.outcome.index;
      forall j | 0 <= j < i
        ensures Extension(FileName(files[j])) != [] && Destination(files[j], quality) in r.fs
      {
        assert Target(files[j], quality).Some?;
        assert Access(j, Wrote(Destination(files[j], quality))) in r.log;
      }
    }
  }

  /** Why a run failed at file i, each cause exactly in its case: the file was missing, its
      name had no extension, the decoder refused its content, or the encoder failed. */
  lemma FailedRunCause(fs: FileSystem, files: seq<string>, quality: Quality, cancel: nat -> bool, codec: Codec)
    ensures var r := Batch(fs, files, quality, cancel, codec);
      r.outcome.Failed? ==>
        var i := r.outcome.index;
        && i < |files|
        && (r.outcome.error == FileNotFound <==> files[i] !in r.fs)
        && (r.outcome.error == EmptyExtension <==>
              files[i] in r.fs && Extension(FileName(files[i])) == [])
        && (r.outcome.error == DecodeFailed <==>
              files[i] in r.fs && Extension(FileName(files[i])) != [] && codec.decode(r.fs[files[i]]).None?)
        && (r.outcome.error == SaveFailed <==>
              files[i] in r.fs && Extension(FileName(files[i])) != [] && codec.decode(r.fs[files[i]]).Some?)
  {
    var r := Batch(fs, files, quality, cancel, codec);
    FailedRun(fs, files, quality, cancel, codec);
    if r.outcome.Failed? {
      var i := r.outcome.index;
      var file := files[i];
      if file in r.fs && Extension(FileName(file)) != [] {
        var pi := ProcessImage(r.fs, file, Destination(file, quality), quality, codec, i);
        assert pi.Stopped? && pi.error == r.outcome.error;
      }
    }
  }

  /** The run goes past only files it found: every file before the stop index is present at
      the end. */
  lemma ExistBeforeStop(fs: FileSystem, files: seq<string>, quality: Quality, cancel: nat -> bool, codec: Codec)
    ensures var r := Batch(fs, files, quality, cancel, codec);
      forall j :: 0 <= j < StopIndex(r.outcome, |files|) && j < |files| ==> files[j] in r.fs
  {
    LoopIsTidy(quality, codec);
    LoopFinds(quality, codec);
    RunFromFound(files, cancel, Loop(quality, codec), Targets(quality), 0, fs);
  }

  /** Fail fast on a missing file: a file that is absent and that no other file's copy would
      create stops the run at its index at the latest, and a run that reaches it without a
      pending cancellation fails there with FileNotFound. */
  lemma MissingFileFails(fs: FileSystem, files: seq<string>, quality: Quality, cancel: nat -> bool,
                         codec: Codec, i: nat)
    requires i < |files| && files[i] !in fs
    requires forall j :: 0 <= j < |files| ==> Target(files[j], quality) != Some(files[i])
    ensures var r := Batch(fs, files, quality, cancel, codec);
      && StopIndex(r.outcome, |files|) <= i
      && (StopIndex(r.outcome, |files|) == i && !cancel(i) ==> r.outcome == Failed(FileNotFound, i))
  {
    var r := Batch(fs, files, quality, cancel, codec);
    var s := StopIndex(r.outcome, |files|);
    BatchLog(fs, files, quality, cancel, codec);
    BatchFrame(fs, files, quality, cancel, codec);
    assert files[i] !in Written(r.log);
    ExistBeforeStop(fs, files, quality, cancel, codec);
    if s == i && !cancel(i) {
      RunFromStops(files, cancel, Loop(quality, codec), 0, fs);
      FailedRun(fs, files, quality, cancel, codec);
    }
  }

  /** A run that completes met no pending cancellation and wrote every file's copy. */
  lemma CompletedRun(fs: FileSystem, files: seq<string>, quality: Quality, cancel: nat -> bool, codec: Codec)
    ensures var r := Batch(fs, files, quality, cancel, codec);
      r.outcome == Completed ==>
        && (forall j :: 0 <= j < |files| ==> !cancel(j))
        && (forall j :: 0 <= j < |files| ==>
              Extension(FileName(files[j])) != [] && Destination(files[j], quality) in r.fs)
  {
    var r := Batch(fs, files, quality, cancel, codec);
    RunFromStops(files, cancel, Loop(quality, codec), 0, fs);
    BatchLog(fs, files, quality, cancel, codec);
    BatchFrame(fs, files, quality, cancel, codec);
    if r.outcome == Completed {
      forall j | 0 <= j < |files|
        ensures Extension(FileName(files[j])) != [] && Destination(files[j], quality) in r.fs
      {
        assert Target(files[j], quality).Some?;
        assert Access(j, Wrote(Destination(files[j], quality))) in r.log;
      }
    }
  }

  /** Nothing else changes: no path is removed, each write is the copy of a processed file at
      that file's destination, never at the file itself, and every path not written keeps its
      content. */
  lemma OnlyDestinationsChange(fs: FileSystem, files: seq<string>, quality: Quality, cancel: nat -> bool, codec: Codec)
    ensures var r := Batch(fs, files, quality, cancel, codec);
      && (forall p :: p in fs ==> p in r.fs)
      && (forall p :: p in r.fs && p !in Written(r.log) ==> p in fs && r.fs[p] == fs[p])
      && (forall a :: a in r.log && a.op.Wrote? ==>
            && a.index < StopIndex(r.outcome, |files|)
            && a.index < |files|
            && Extension(FileName(files[a.index])) != []
            && a.op.destination == Destination(files[a.index], quality)
            && a.op.destination != files[a.index])
  {
    var r := Batch(fs, files, quality, cancel, codec);
    BatchFrame(fs, files, quality, cancel, codec);
    BatchLog(fs, files, quality, cancel, codec);
    forall a | a in r.log && a.op.Wrote?
      ensures && a.index < StopIndex(r.outcome, |files|)
              && a.index < |files|
              && Extension(FileName(files[a.index])) != []
              && a.op.destination == Destination(files[a.index], quality)
              && a.op.destination != files[a.index]
    {
      assert Target(files[a.index], quality) == Some(a.op.destination);
      DestinationIsNotSource(files[a.index], quality);
    }
  }
}
