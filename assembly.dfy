/**
 * Frame assembly: the loops that turn the frame list into a video. The image
 * decoder (`cv2.imread`) is a function parameter returning `None` for a file it
 * cannot read, and the video writer (`cv2.VideoWriter`) is a value recording how
 * it was opened, every frame handed to `write`, in order, and whether `release`
 * ran. Dialogs, threads and message boxes are not modelled; their outcomes are
 * parameters or the status of the run.
 */
module Assembly {
  import opened Wrappers
  import Codec

  /** A decoded picture; only its size and pixels matter here. */
  datatype Image = Image(width: nat, height: nat, pixels: seq<int>)

  /** Stand-in for `cv2.imread`. */
  type Decoder = string -> Option<Image>

  /** The application's `output_settings` record. */
  datatype OutputSettings = OutputSettings(format: string, fps: int, codec: string, quality: int)

  /** A `cv2.VideoWriter` seen from outside: how it was opened, the frames written, whether released. */
  datatype Writer = Writer(path: string, fourcc: string, fps: int, width: nat, height: nat,
                           frames: seq<Image>, released: bool)
  {
    /** `out.write(img)` with a decoded image. */
    function Write(frame: Image): Writer
    {
      this.(frames := frames + [frame])
    }

    /** `out.release()`. */
    function Release(): Writer
    {
      this.(released := true)
    }
  }

  /** `cv2.VideoWriter(path, fourcc, fps, (width, height))`. */
  function Open(path: string, fourcc: string, fps: int, width: nat, height: nat): Writer
  {
    Writer(path, fourcc, fps, width, height, [], false)
  }

  /**
   * How a GUI request ends: Refused when fewer than 2 files are listed, Dismissed
   * when the user cancels the file or fps dialog, Failed when the worker raises,
   * Completed when the loop finished and the writer was released.
   */
  datatype Status = Refused | Dismissed | Failed | Completed

  datatype Run = Run(status: Status, progress: seq<nat>, writer: Option<Writer>)

  /** The progress values 1, 2, ..., n, in order. */
  predicate Ticks(progress: seq<nat>, n: nat)
  {
    |progress| == n && forall i :: 0 <= i < n ==> progress[i] == i + 1
  }

  /** Progress ticks increase strictly and end at the count. */
  lemma TicksIncrease(progress: seq<nat>, n: nat)
    requires Ticks(progress, n)
    ensures forall i, j :: 0 <= i < j < n ==> progress[i] < progress[j]
    ensures n > 0 ==> progress[n - 1] == n
  {
  }

  /** Index of the first file the decoder rejects, or the number of files when it reads them all. */
  function FirstUnreadable(files: seq<string>, decode: Decoder): (r: nat)
    ensures r <= |files|
    ensures forall i :: 0 <= i < r ==> decode(files[i]).Some?
    ensures r < |files| ==> decode(files[r]).None?
    decreases |files|
  {
    if files == [] then 0
    else if decode(files[0]).None? then 0
    else 1 + FirstUnreadable(files[1..], decode)
  }

  /** The writer holds the decodings of `files[..k]`, in list order. */
  predicate WrotePrefix(w: Writer, files: seq<string>, decode: Decoder, k: nat)
    requires k <= |files|
  {
    |w.frames| == k && forall i :: 0 <= i < k ==> Some(w.frames[i]) == decode(files[i])
  }

  /**
   * The GUI loops pass `imread`'s result to `out.write` unchecked, so an unreadable
   * file reaches the writer as `None`. What the writer then does is up to the
   * video backend, not to this program; `noneRaises` says which of the two
   * behaviours is in force: `write(None)` raises, or it returns without writing.
   *
   * What a GUI worker thread leaves behind once the writer `initial` is open. If
   * `write(None)` raises: the frames of the readable prefix of `files`; Completed
   * and released when that prefix is everything, otherwise Failed with the writer
   * never released. If it does not: Completed and released, holding exactly the
   * readable files, as the command line writes them. One progress tick precedes
   * each `imread`, a failing one included.
   */
  predicate WorkerOutcome(run: Run, files: seq<string>, decode: Decoder, initial: Writer, noneRaises: bool)
  {
    && run.writer.Some?
    && run.writer.value.(frames := [], released := false) == initial
    && if noneRaises then
         var k := FirstUnreadable(files, decode);
         && WrotePrefix(run.writer.value, files, decode, k)
         && (run.status == Completed <==> k == |files|)
         && (run.status == Completed ==> run.writer.value.released && Ticks(run.progress, |files|))
         && (run.status != Completed ==>
               run.status == Failed && !run.writer.value.released && Ticks(run.progress, k + 1))
       else
         && run.status == Completed
         && run.writer.value.frames == Readable(files, decode)
         && run.writer.value.released
         && Ticks(run.progress, |files|)
  }

  /** When every file can be read, both writer behaviours leave the same frames. */
  lemma PrefixIsReadable(w: Writer, files: seq<string>, decode: Decoder)
    requires FirstUnreadable(files, decode) == |files|
    ensures WrotePrefix(w, files, decode, |files|) <==> w.frames == Readable(files, decode)
  {
    ReadableAll(files, decode);
  }

  /**
   * The loop shared by create_preview_thread and create_video_thread:
   * `for i, img_path in enumerate(files)`, report progress i + 1, then
   * `out.write(cv2.imread(img_path))`; `ok` is false when a write raised.
   */
  method WriteFrames(out: Writer, files: seq<string>, decode: Decoder, noneRaises: bool)
    returns (w: Writer, progress: seq<nat>, ok: bool)
    requires out.frames == []
    ensures w.(frames := []) == out
    ensures noneRaises ==>
      && (ok <==> FirstUnreadable(files, decode) == |files|)
      && WrotePrefix(w, files, decode, FirstUnreadable(files, decode))
      && Ticks(progress, if ok then |files| else FirstUnreadable(files, decode) + 1)
    ensures !noneRaises ==> ok && w.frames == Readable(files, decode) && Ticks(progress, |files|)
  {
    w, progress := out, [];
    var i := 0;
    while i < |files|
      invariant 0 <= i <= |files|
      invariant w.(frames := []) == out
      invariant noneRaises ==> (forall j :: 0 <= j < i ==> decode(files[j]).Some?) && WrotePrefix(w, files, decode, i)
      invariant !noneRaises ==> w.frames == Readable(files[..i], decode)
      invariant Ticks(progress, i)
    {
      assert files[..i + 1][..i] == files[..i];
      progress := progress + [i + 1];
      var img := decode(files[i]);
      if img.None? {
        if noneRaises {
          return w, progress, false;
        }
      } else {
        w := w.Write(img.value);
      }
      i := i + 1;
    }
    assert files[..i] == files;
    ok := true;
  }

  /** The worker threads after the first image was read: write everything, then release. */
  method EncodeAll(initial: Writer, files: seq<string>, decode: Decoder, noneRaises: bool) returns (run: Run)
    requires initial.frames == [] && !initial.released
    ensures WorkerOutcome(run, files, decode, initial, noneRaises)
  {
    var out, progress, ok := WriteFrames(initial, files, decode, noneRaises);
    if !ok {
      // the exception handler reports the error; `release` is skipped
      return Run(Failed, progress, Some(out));
    }
    out := out.Release();
    run := Run(Completed, progress, Some(out));
  }

  /**
   * create_video and its worker thread, with the list of image files, the output
   * settings, the path chosen in the save dialog ("" when it was cancelled), the
   * decoder and the writer's behaviour on `None`. The writer is opened with the
   * fourcc of the GUI table, the configured fps and the first image's size.
   */
  method CreateVideo(imageFiles: seq<string>, settings: OutputSettings, outputFile: string, decode: Decoder,
                     noneRaises: bool)
    returns (run: Run)
    ensures |imageFiles| < 2 ==> run == Run(Refused, [], None)
    ensures |imageFiles| >= 2 && outputFile == "" ==> run == Run(Dismissed, [], None)
    ensures |imageFiles| >= 2 && outputFile != "" && decode(imageFiles[0]).None? ==> run == Run(Failed, [], None)
    ensures |imageFiles| >= 2 && outputFile != "" && decode(imageFiles[0]).Some? ==>
      var first := decode(imageFiles[0]).value;
      WorkerOutcome(run, imageFiles, decode,
        Open(outputFile, Codec.GuiFourcc(settings.format, settings.codec), settings.fps, first.width, first.height),
        noneRaises)
  {
    if |imageFiles| < 2 {
      return Run(Refused, [], None);
    }
    if outputFile == "" {
      return Run(Dismissed, [], None);
    }
    // create_video_thread
    var firstImg := decode(imageFiles[0]);
    if firstImg.None? {
      // `first_img.shape` raises before any writer exists
      return Run(Failed, [], None);
    }
    var height, width := firstImg.value.height, firstImg.value.width;
    var fourcc := Codec.GuiFourcc(settings.format, settings.codec);
    run := EncodeAll(Open(outputFile, fourcc, settings.fps, width, height), imageFiles, decode, noneRaises);
  }

  /**
   * create_preview and its worker thread, with the fps chosen in the dialog (None
   * when it was cancelled; the dialog accepts only 1 to 60) and the temporary
   * output path. Only the first min(100, n) files are encoded, always with fourcc mp4v.
   */
  method CreatePreview(imageFiles: seq<string>, previewFps: Option<int>, tempOutput: string, decode: Decoder,
                       noneRaises: bool)
    returns (run: Run)
    requires previewFps.Some? ==> 1 <= previewFps.value <= 60
    ensures |imageFiles| < 2 ==> run == Run(Refused, [], None)
    ensures |imageFiles| >= 2 && previewFps.None? ==> run == Run(Dismissed, [], None)
    ensures |imageFiles| >= 2 && previewFps.Some? && decode(imageFiles[0]).None? ==> run == Run(Failed, [], None)
    ensures |imageFiles| >= 2 && previewFps.Some? && decode(imageFiles[0]).Some? ==>
      var first := decode(imageFiles[0]).value;
      WorkerOutcome(run, imageFiles[..PreviewCount(|imageFiles|)], decode,
        Open(tempOutput, Codec.Mp4v, previewFps.value, first.width, first.height), noneRaises)
  {
    if |imageFiles| < 2 {
      return Run(Refused, [], None);
    }
    if previewFps.None? {
      return Run(Dismissed, [], None);
    }
    var previewFiles := imageFiles[..PreviewCount(|imageFiles|)];
    // create_preview_thread
    var firstImg := decode(previewFiles[0]);
    if firstImg.None? {
      return Run(Failed, [], None);
    }
    var height, width := firstImg.value.height, firstImg.value.width;
    run := EncodeAll(Open(tempOutput, Codec.Mp4v, previewFps.value, width, height), previewFiles, decode, noneRaises);
  }

  /** Number of frames a preview encodes: at most 100, and at least 2 when a preview is made. */
  function PreviewCount(n: nat): (r: nat)
    ensures r <= n && r <= 100
    ensures r == n || r == 100
    ensures n >= 2 ==> r >= 2
  {
    if n <= 100 then n else 100
  }

  // ---------------------------------------------------------------------------
  // The command-line loop (cli_mode), which skips unreadable frames
  // ---------------------------------------------------------------------------

  /** The frames the command-line loop writes: the readable inputs, decoded, in input order. */
  function Readable(files: seq<string>, decode: Decoder): (r: seq<Image>)
    ensures |r| <= |files|
    decreases |files|
  {
    if files == [] then []
    else
      var last := files[|files| - 1];
      Readable(files[..|files| - 1], decode) + (if decode(last).Some? then [decode(last).value] else [])
  }

  /** Number of inputs the decoder rejects. */
  function Unreadable(files: seq<string>, decode: Decoder): (r: nat)
    ensures r <= |files|
    ensures r == 0 <==> forall i :: 0 <= i < |files| ==> decode(files[i]).Some?
    decreases |files|
  {
    if files == [] then 0
    else Unreadable(files[..|files| - 1], decode) + (if decode(files[|files| - 1]).None? then 1 else 0)
  }

  /** Every input is either written once or skipped once. */
  lemma {:induction false} ReadableCount(files: seq<string>, decode: Decoder)
    ensures |Readable(files, decode)| + Unreadable(files, decode) == |files|
    decreases |files|
  {
    if files != [] {
      ReadableCount(files[..|files| - 1], decode);
    }
  }

  /** Skipping works frame by frame: the frames of a concatenation are those of each part, in order. */
  lemma {:induction false} ReadableConcat(a: seq<string>, b: seq<string>, decode: Decoder)
    ensures Readable(a + b, decode) == Readable(a, decode) + Readable(b, decode)
    decreases |b|
  {
    if b == [] {
      assert a + b == a;
    } else {
      var n := |b| - 1;
      ReadableConcat(a, b[..n], decode);
      assert (a + b)[..|a + b| - 1] == a + b[..n];
      assert (a + b)[|a + b| - 1] == b[n];
    }
  }

  /** Each written frame is the decoding of some input, and each readable input is written. */
  lemma {:induction false} ReadableMembers(files: seq<string>, decode: Decoder)
    ensures forall k :: 0 <= k < |Readable(files, decode)| ==>
      exists j :: 0 <= j < |files| && Some(Readable(files, decode)[k]) == decode(files[j])
    ensures forall j :: 0 <= j < |files| && decode(files[j]).Some? ==> decode(files[j]).value in Readable(files, decode)
    decreases |files|
  {
    if files != [] {
      var n := |files| - 1;
      var prev := Readable(files[..n], decode);
      ReadableMembers(files[..n], decode);
      var r := Readable(files, decode);
      forall k | 0 <= k < |r| ensures exists j :: 0 <= j < |files| && Some(r[k]) == decode(files[j]) {
        if k < |prev| {
          var j :| 0 <= j < |files[..n]| && Some(prev[k]) == decode(files[..n][j]);
          assert files[..n][j] == files[j];
          assert r[k] == prev[k];
          assert 0 <= j < |files| && Some(r[k]) == decode(files[j]);
        } else {
          assert 0 <= n < |files| && Some(r[k]) == decode(files[n]);
        }
      }
      forall j | 0 <= j < |files| && decode(files[j]).Some? ensures decode(files[j]).value in r {
        if j < n {
          assert files[..n][j] == files[j];
          assert decode(files[j]).value in prev;
        }
      }
    } else {
      assert Readable(files, decode) == [];
    }
  }

  /** When every input can be read, the command line writes exactly what the GUI loop writes. */
  lemma {:induction false} ReadableAll(files: seq<string>, decode: Decoder)
    requires forall j :: 0 <= j < |files| ==> decode(files[j]).Some?
    ensures |Readable(files, decode)| == |files|
    ensures forall j :: 0 <= j < |files| ==> Some(Readable(files, decode)[j]) == decode(files[j])
    decreases |files|
  {
    if files != [] {
      var n := |files| - 1;
      ReadableAll(files[..n], decode);
    }
  }

  /**
   * GUI and command line on the same inputs when `write(None)` raises: the frames
   * the GUI writes before it stops at the first unreadable file are exactly the
   * first frames the command line writes, and the command line writes at least as
   * many. (When it does not raise, WorkerOutcome gives both the same frames.)
   */
  lemma CliExtendsGui(files: seq<string>, decode: Decoder)
    ensures var k := FirstUnreadable(files, decode);
      && |Readable(files, decode)| >= k
      && forall i :: 0 <= i < k ==> Some(Readable(files, decode)[i]) == decode(files[i])
  {
    var k := FirstUnreadable(files, decode);
    assert files[..k] + files[k..] == files;
    ReadableConcat(files[..k], files[k..], decode);
    ReadableAll(files[..k], decode);
  }

  /**
   * cli_mode from the point where the input files are known: exit code 1 when
   * there are none or the first cannot be read; otherwise the writer, initial with
   * the command-line fourcc table, the given fps and the first image's size,
   * receives the readable inputs in order, unreadable ones being skipped, and the
   * exit code is 0. One progress line is printed per input, and one warning per
   * skipped input.
   */
  method CliMode(inputFiles: seq<string>, output: string, fps: int, format: string, codec: string,
                 decode: Decoder)
    returns (exitCode: int, progress: seq<nat>, writer: Option<Writer>, skipped: nat)
    ensures exitCode == 0 || exitCode == 1
    ensures exitCode == 1 <==> inputFiles == [] || decode(inputFiles[0]).None?
    ensures exitCode == 1 ==> progress == [] && writer == None && skipped == 0
    ensures exitCode == 0 ==>
      var first := decode(inputFiles[0]).value;
      && writer == Some(Writer(output, Codec.CliFourcc(format, codec), fps, first.width, first.height,
                               Readable(inputFiles, decode), true))
      && Ticks(progress, |inputFiles|)
      && skipped == Unreadable(inputFiles, decode)
      && |writer.value.frames| + skipped == |inputFiles|
  {
    if inputFiles == [] {
      return 1, [], None, 0;
    }
    var firstImg := decode(inputFiles[0]);
    if firstImg.None? {
      return 1, [], None, 0;
    }
    var height, width := firstImg.value.height, firstImg.value.width;
    var fourcc := Codec.CliFourcc(format, codec);
    var out := Open(output, fourcc, fps, width, height);
    progress, skipped := [], 0;
    var i := 0;
    while i < |inputFiles|
      invariant 0 <= i <= |inputFiles|
      invariant out == Writer(output, fourcc, fps, width, height, Readable(inputFiles[..i], decode), false)
      invariant Ticks(progress, i)
      invariant skipped == Unreadable(inputFiles[..i], decode)
    {
      assert inputFiles[..i + 1][..i] == inputFiles[..i];
      progress := progress + [i + 1];
      var img := decode(inputFiles[i]);
      if img.None? {
        // the warning at this point reports one skipped input
        skipped := skipped + 1;
        i := i + 1;
        continue;
      }
      out := out.Write(img.value);
      i := i + 1;
    }
    assert inputFiles[..i] == inputFiles;
    out := out.Release();
    ReadableCount(inputFiles, decode);
    return 0, progress, Some(out), skipped;
  }
}
