/** The form's event handlers (JpegQuality.cs): the drag cursor, the drop, the startup
    arguments and the worker's DoWork handler. All of them share one BackgroundWorker; the
    model keeps the part of it the handlers observe: whether it is busy and the argument
    of the run it was started with. The worker's thread is not modelled: DoWork is the
    whole run, executed when the model calls it. */
module JpegQualityForm {
  import opened Wrappers
  import opened Strings
  import opened FileValidator
  import opened PathPolicy
  import opened BatchProcessor

  /** DragEventArgs.Effect as the DragOver handler sets it. */
  datatype DragDropEffect = Copy | NoEffect

  /** `e.Data.GetData("FileDrop") as string[] ?? new string[0]`: the dropped paths in their
      order, or none when the data holds no file list. */
  function DroppedFiles(data: Option<seq<string>>): seq<string>
  {
    if data.Some? then data.value else []
  }

  /** `args` without its first entry, the path of the executable (`list.RemoveAt(0)`). */
  function StartupFiles(args: seq<string>): (files: seq<string>)
    requires |args| > 0
    ensures |files| == |args| - 1
    ensures forall k :: 0 <= k < |files| ==> files[k] == args[k + 1]
  {
    args[1..]
  }

  /** The cursor a drag shows: Copy exactly when a drop would be accepted. */
  ghost function Effect(busy: bool, files: seq<string>): (effect: DragDropEffect)
  {
    if Accept(busy, files) then Copy else NoEffect
  }

  /** The BackgroundWorker. */
  class Worker {
    /** BackgroundWorker.IsBusy. */
    var isBusy: bool
    /** The argument of the last RunWorkerAsync call that started a run. */
    var argument: seq<string>

    constructor()
      ensures !isBusy && argument == []
    {
      isBusy := false;
      argument := [];
    }

    /** RunWorkerAsync(files): a busy worker throws InvalidOperationException (`started` is
        false and nothing changes); an idle one becomes busy with `files` as its argument. */
    method RunWorkerAsync(files: seq<string>) returns (started: bool)
      modifies this
      ensures started == !old(isBusy)
      ensures started ==> isBusy && argument == files
      ensures !started ==> isBusy == old(isBusy) && argument == old(argument)
    {
      if isBusy {
        return false;
      }
      isBusy := true;
      argument := files;
      started := true;
    }

    /** The run the worker executes on its thread (ProcessImagesAsync, which calls
        ProcessImages on the argument), after which the worker is idle again. A run that
        stops with an exception ends the same way; its outcome is what the handler would
        find in RunWorkerCompletedEventArgs. */
    method DoWork(fs0: FileSystem, quality: Quality, cancel: nat -> bool, codec: Codec)
      returns (outcome: Outcome, fs: FileSystem, reports: seq<Report>, ghost log: seq<Access>)
      requires isBusy
      modifies this
      ensures var r := Batch(fs0, old(argument), quality, cancel, codec);
        outcome == r.outcome && fs == r.fs && reports == r.reports
      ensures log == Batch(fs0, old(argument), quality, cancel, codec).log
      ensures !isBusy && argument == old(argument)
    {
      outcome, fs, reports, log := ProcessImages(fs0, argument, quality, cancel, codec);
      isBusy := false;
    }
  }

  /** The form; its state is the worker the handlers share. */
  class JpegQuality {
    const worker: Worker

    constructor()
      ensures fresh(worker) && !worker.isBusy
    {
      worker := new Worker();
    }

    /** DropLabel_DragOver: the cursor is Copy exactly when the worker is idle and every
        dropped path matches `\.jpe?g$`. */
    method DragOver(data: Option<seq<string>>) returns (effect: DragDropEffect)
      ensures effect == Effect(worker.isBusy, DroppedFiles(data))
      ensures effect == Copy <==> !worker.isBusy && forall k :: 0 <= k < |DroppedFiles(data)| ==>
                                    HasJpegExtension(DroppedFiles(data)[k])
    {
      var files := DroppedFiles(data);
      var valid := ScanBatch(worker.isBusy, files);
      AcceptIsSuffixCheck(worker.isBusy, files);
      effect := if valid then Copy else NoEffect;
    }

    /** DropLabel_DragDrop: the same check as DragOver; when it holds the worker starts on
        the dropped paths in their dropped order, otherwise nothing changes. The check
        makes the worker's exception impossible here. */
    method DragDrop(data: Option<seq<string>>) returns (started: bool)
      modifies worker
      ensures started <==> Effect(old(worker.isBusy), DroppedFiles(data)) == Copy
      ensures started ==> worker.isBusy && worker.argument == DroppedFiles(data)
      ensures !started ==> worker.isBusy == old(worker.isBusy) && worker.argument == old(worker.argument)
    {
      var files := DroppedFiles(data);
      var valid := ScanBatch(worker.isBusy, files);
      started := false;
      if valid {
        started := worker.RunWorkerAsync(files);
      }
    }

    /** OnActivated with the command line `args`: when there is more than the executable's
        path, the worker starts on the remaining arguments, in order and without the check
        the drop applies; a busy worker throws instead, which the handler catches. */
    method OnActivated(args: seq<string>) returns (started: bool)
      modifies worker
      ensures started <==> |args| > 1 && !old(worker.isBusy)
      ensures started ==> worker.isBusy && worker.argument == StartupFiles(args)
      ensures !started ==> worker.isBusy == old(worker.isBusy) && worker.argument == old(worker.argument)
    {
      started := false;
      if |args| > 1 {
        started := worker.RunWorkerAsync(StartupFiles(args));
      }
    }
  }

  /** Acceptance depends only on which paths were dropped, not on their order or on how
      often each occurs: two drops holding the same paths show the same cursor. */
  lemma EffectIgnoresOrder(busy: bool, xs: seq<string>, ys: seq<string>)
    requires multiset(xs) == multiset(ys)
    ensures Effect(busy, xs) == Effect(busy, ys)
  {
    forall p | p in xs
      ensures p in ys
    {
      assert p in multiset(xs);
    }
    forall p | p in ys
      ensures p in xs
    {
      assert p in multiset(ys);
    }
    AcceptByMembers(busy, xs);
    AcceptByMembers(busy, ys);
  }

  /** The startup path does not check extensions: arguments that a drop would refuse still
      start a run. */
  lemma StartupSkipsCheck()
    ensures Effect(false, StartupFiles(["JpegQuality.exe", "notes.txt"])) == NoEffect
  {
    var files := StartupFiles(["JpegQuality.exe", "notes.txt"]);
    assert files == ["notes.txt"];
    assert !HasJpegExtension(files[0]) by {
      var s := files[0];
      assert AsciiLower(s[|s| - 1]) != AsciiLower(".jpg"[3]);
      assert AsciiLower(s[|s| - 1]) != AsciiLower(".jpeg"[4]);
    }
    SuffixCheckIsPattern(files[0]);
  }

  /** The same command line on a fresh form: the drag of "notes.txt" shows no Copy cursor,
      yet OnActivated starts the worker on it. */
  method StartupStartsRefusedFiles() returns (effect: DragDropEffect, started: bool, argument: seq<string>)
    ensures effect == NoEffect
    ensures started && argument == ["notes.txt"]
  {
    var form := new JpegQuality();
    StartupSkipsCheck();
    assert StartupFiles(["JpegQuality.exe", "notes.txt"]) == ["notes.txt"];
    effect := form.DragOver(Some(["notes.txt"]));
    started := form.OnActivated(["JpegQuality.exe", "notes.txt"]);
    argument := form.worker.argument;
  }
}
