/** The poll cycle of the watcher (`process_new_files`): one pass over the
    watch directory that skips what is not a supported regular file, what is
    already converted and what is still growing, converts the rest and
    remembers the paths whose conversion succeeded. */
module Watcher {
  import opened Options
  import opened Filenames
  import opened Imaging

  /** The two `stat().st_size` readings taken half a second apart, or the
      `OSError` raised by either of them. */
  datatype SizeProbe = Sizes(first: int, second: int) | StatFailed

  /** One item of the directory listing: its `str()` (the key of the
      processed set), its name, `is_file()`, the size probe, and what opening
      and saving it would do. */
  datatype Entry = Entry(path: string, name: EntryName, isFile: bool, probe: SizeProbe, io: IoOutcome)

  /** A regular file with a supported name. */
  predicate IsCandidate(e: Entry) {
    e.isFile && IsSupported(e.name)
  }

  /** The stability gate: both size readings succeeded and agree. */
  predicate IsStable(p: SizeProbe) {
    p.Sizes? && p.first == p.second
  }

  /** A candidate that passes the stability gate. */
  predicate Ready(e: Entry) {
    IsCandidate(e) && IsStable(e.probe)
  }

  /** A ready entry whose conversion returns `True`. */
  predicate Converts(e: Entry, toRgb: Image -> Option<Image>) {
    Ready(e) && InvertImage(e.io, toRgb).Some?
  }

  /** What a cycle observes and changes: the processed set, the converted
      files in the output directory by name, and the paths it tried to
      convert, in order (the "Found new image" log lines). */
  datatype State = State(processed: set<string>, outputs: map<string, Image>, attempted: seq<string>)

  /** One iteration of the loop of `process_new_files`. */
  function Step(s: State, e: Entry, toRgb: Image -> Option<Image>): State {
    if !IsCandidate(e) || e.path in s.processed || !IsStable(e.probe) then s
    else
      var attempted := s.attempted + [e.path];
      match InvertImage(e.io, toRgb)
      case None => s.(attempted := attempted)
      case Some(out) =>
        State(s.processed + {e.path}, s.outputs[OutputFilename(e.name) := out], attempted)
  }

  /** The loop over the listing, in listing order. */
  function Run(s: State, scan: seq<Entry>, toRgb: Image -> Option<Image>): State
    decreases |scan|
  {
    if scan == [] then s
    else Step(Run(s, scan[..|scan| - 1], toRgb), scan[|scan| - 1], toRgb)
  }

  /** A whole cycle: nothing happens when the watch directory is missing. */
  function Cycle(processed: set<string>, outputs: map<string, Image>, watchDirExists: bool,
                 scan: seq<Entry>, toRgb: Image -> Option<Image>): State
  {
    var start := State(processed, outputs, []);
    if watchDirExists then Run(start, scan, toRgb) else start
  }

  /** The process: the in-memory set of converted paths and the output
      directory's files by name. The output directory may already hold
      files, from an earlier run, when the process starts. */
  class PollingWatcher {
    var processed: set<string>
    var outputs: map<string, Image>

    constructor (existing: map<string, Image>)
      ensures processed == {} && outputs == existing
    {
      processed := {};
      outputs := existing;
    }

    /** `process_new_files`: one poll over the listing `scan`; returns the
        paths it attempted to convert. */
    method ProcessNewFiles(watchDirExists: bool, scan: seq<Entry>, toRgb: Image -> Option<Image>)
      returns (attempted: seq<string>)
      modifies this
      ensures State(processed, outputs, attempted) ==
              Cycle(old(processed), old(outputs), watchDirExists, scan, toRgb)
      ensures old(processed) <= processed
      ensures !watchDirExists ==> processed == old(processed) && outputs == old(outputs) && attempted == []
    {
      attempted := [];
      if !watchDirExists {
        return;
      }
      ghost var start := State(processed, outputs, []);
      for i := 0 to |scan|
        invariant State(processed, outputs, attempted) == Run(start, scan[..i], toRgb)
      {
        assert scan[..i + 1][..i] == scan[..i];
        var e := scan[i];
        StepEffect(State(processed, outputs, attempted), e, toRgb);
        if e.isFile && IsSupported(e.name) {
          if e.path in processed {
            continue;
          }
          match e.probe {
            case StatFailed =>
              continue;
            case Sizes(size1, size2) =>
              if size1 != size2 {
                continue;
              }
          }
          attempted := attempted + [e.path];
          var result := InvertImage(e.io, toRgb);
          if result.Some? {
            outputs := outputs[OutputFilename(e.name) := result.value];
            processed := processed + {e.path};
          }
        }
      }
      assert scan[..|scan|] == scan;
      RunGrows(start, scan, toRgb);
    }
  }

  // ---------------------------------------------------------------------
  // Properties of one cycle

  /** What one iteration changes, field by field. */
  lemma StepEffect(s: State, e: Entry, toRgb: Image -> Option<Image>)
    ensures Step(s, e, toRgb).processed ==
      if Converts(e, toRgb) && e.path !in s.processed then s.processed + {e.path} else s.processed
    ensures Step(s, e, toRgb).attempted ==
      if Ready(e) && e.path !in s.processed then s.attempted + [e.path] else s.attempted
    ensures Step(s, e, toRgb).outputs ==
      if Converts(e, toRgb) && e.path !in s.processed
      then s.outputs[OutputFilename(e.name) := InvertImage(e.io, toRgb).value]
      else s.outputs
  {
  }

  /** The processed set only grows. */
  lemma {:induction false} RunGrows(s: State, scan: seq<Entry>, toRgb: Image -> Option<Image>)
    ensures s.processed <= Run(s, scan, toRgb).processed
  {
    if scan != [] {
      RunGrows(s, scan[..|scan| - 1], toRgb);
    }
  }

  /** Some entry of `scan` with path `p` satisfies `ok`. */
  predicate SomeEntry(scan: seq<Entry>, p: string, ok: Entry -> bool) {
    exists i :: 0 <= i < |scan| && scan[i].path == p && ok(scan[i])
  }

  lemma {:induction false} SomeEntrySnoc(scan: seq<Entry>, p: string, ok: Entry -> bool)
    requires scan != []
    ensures SomeEntry(scan, p, ok) <==>
      SomeEntry(scan[..|scan| - 1], p, ok) || (scan[|scan| - 1].path == p && ok(scan[|scan| - 1]))
  {
    var init := scan[..|scan| - 1];
    if SomeEntry(init, p, ok) {
      var i :| 0 <= i < |init| && init[i].path == p && ok(init[i]);
      assert scan[i] == init[i];
    }
  }

  function ConvertsWith(toRgb: Image -> Option<Image>): Entry -> bool {
    e => Converts(e, toRgb)
  }

  /** Some entry of `scan` with path `p` converts. */
  predicate ConvertedIn(scan: seq<Entry>, p: string, toRgb: Image -> Option<Image>) {
    SomeEntry(scan, p, ConvertsWith(toRgb))
  }

  /** A path ends up processed exactly when it already was, or some entry
      with that path is a supported regular file of stable size whose
      conversion succeeds. */
  lemma {:induction false} RunProcessedIff(s: State, scan: seq<Entry>, toRgb: Image -> Option<Image>, p: string)
    ensures p in Run(s, scan, toRgb).processed <==> p in s.processed || ConvertedIn(scan, p, toRgb)
  {
    if scan != [] {
      var init := scan[..|scan| - 1];
      RunProcessedIff(s, init, toRgb, p);
      StepEffect(Run(s, init, toRgb), scan[|scan| - 1], toRgb);
      SomeEntrySnoc(scan, p, ConvertsWith(toRgb));
    }
  }

  /** Every attempt is for a ready entry whose path was not processed when
      the cycle began; so processed paths are never converted again. */
  lemma {:induction false} RunAttemptsFresh(s: State, scan: seq<Entry>, toRgb: Image -> Option<Image>)
    ensures |s.attempted| <= |Run(s, scan, toRgb).attempted|
    ensures Run(s, scan, toRgb).attempted[..|s.attempted|] == s.attempted
    ensures forall k :: |s.attempted| <= k < |Run(s, scan, toRgb).attempted| ==>
      Run(s, scan, toRgb).attempted[k] !in s.processed &&
      exists i :: 0 <= i < |scan| && scan[i].path == Run(s, scan, toRgb).attempted[k] && Ready(scan[i])
  {
    if scan != [] {
      var init := scan[..|scan| - 1];
      var mid := Run(s, init, toRgb);
      RunAttemptsFresh(s, init, toRgb);
      RunGrows(s, init, toRgb);
      StepEffect(mid, scan[|scan| - 1], toRgb);
      var r := Run(s, scan, toRgb);
      forall k | |s.attempted| <= k < |r.attempted|
        ensures exists i :: 0 <= i < |scan| && scan[i].path == r.attempted[k] && Ready(scan[i])
      {
        if k < |mid.attempted| {
          var i :| 0 <= i < |init| && init[i].path == mid.attempted[k] && Ready(init[i]);
          assert scan[i] == init[i];
        } else {
          assert Ready(scan[|scan| - 1]);
        }
      }
    }
  }

  /** A ready entry whose path was not processed when the cycle began is
      attempted in that cycle. */
  lemma {:induction false} RunAttemptsReady(s: State, scan: seq<Entry>, toRgb: Image -> Option<Image>, i: nat)
    requires i < |scan| && Ready(scan[i]) && scan[i].path !in s.processed
    ensures scan[i].path in Run(s, scan, toRgb).attempted
  {
    var init := scan[..|scan| - 1];
    var last := scan[|scan| - 1];
    var mid := Run(s, init, toRgb);
    var p := scan[i].path;
    StepEffect(mid, last, toRgb);
    if i < |init| {
      assert init[i] == scan[i];
      RunAttemptsReady(s, init, toRgb, i);
      assert p in mid.attempted;
    } else if p in mid.processed {
      RunProcessedIff(s, init, toRgb, p);
      var j :| 0 <= j < |init| && init[j].path == p && ConvertsWith(toRgb)(init[j]);
      RunAttemptsReady(s, init, toRgb, j);
      assert p in mid.attempted;
    } else {
      assert last.path == p && Ready(last);
    }
  }

  /** An output file is created or replaced only for an entry that converts
      and whose path was not processed when the cycle began, and it then
      holds that entry's inverted image. */
  lemma {:induction false} RunOutputsWritten(s: State, scan: seq<Entry>, toRgb: Image -> Option<Image>, k: string)
    requires k in Run(s, scan, toRgb).outputs
    requires k !in s.outputs || Run(s, scan, toRgb).outputs[k] != s.outputs[k]
    ensures exists i :: (0 <= i < |scan| && Converts(scan[i], toRgb) &&
      scan[i].path !in s.processed && OutputFilename(scan[i].name) == k &&
      Run(s, scan, toRgb).outputs[k] == InvertImage(scan[i].io, toRgb).value)
  {
    var init := scan[..|scan| - 1];
    var last := scan[|scan| - 1];
    var mid := Run(s, init, toRgb);
    StepEffect(mid, last, toRgb);
    if Converts(last, toRgb) && last.path !in mid.processed && OutputFilename(last.name) == k {
      RunGrows(s, init, toRgb);
      assert scan[|scan| - 1] == last;
    } else {
      RunOutputsWritten(s, init, toRgb, k);
      var i :| 0 <= i < |init| && Converts(init[i], toRgb) &&
        init[i].path !in s.processed && OutputFilename(init[i].name) == k &&
        mid.outputs[k] == InvertImage(init[i].io, toRgb).value;
      assert scan[i] == init[i];
    }
  }

  /** Every entry that converts and whose path was not processed when the
      cycle began leaves a file under its output name, provided the entries
      sharing its path share its name, as the entries of one listing do. */
  lemma {:induction false} RunOutputPresent(s: State, scan: seq<Entry>, toRgb: Image -> Option<Image>, i: nat)
    requires i < |scan| && Converts(scan[i], toRgb) && scan[i].path !in s.processed
    requires forall j :: 0 <= j < |scan| && scan[j].path == scan[i].path ==> scan[j].name == scan[i].name
    ensures OutputFilename(scan[i].name) in Run(s, scan, toRgb).outputs
  {
    var init := scan[..|scan| - 1];
    var last := scan[|scan| - 1];
    var mid := Run(s, init, toRgb);
    var p := scan[i].path;
    StepEffect(mid, last, toRgb);
    if i < |init| {
      assert init[i] == scan[i];
      RunOutputPresent(s, init, toRgb, i);
    } else if p in mid.processed {
      RunProcessedIff(s, init, toRgb, p);
      var j :| 0 <= j < |init| && init[j].path == p && ConvertsWith(toRgb)(init[j]);
      assert scan[j] == init[j];
      RunOutputPresent(s, init, toRgb, j);
    }
  }

  /** Output files are never removed. */
  lemma {:induction false} RunKeepsOutputs(s: State, scan: seq<Entry>, toRgb: Image -> Option<Image>)
    ensures s.outputs.Keys <= Run(s, scan, toRgb).outputs.Keys
  {
    if scan != [] {
      RunKeepsOutputs(s, scan[..|scan| - 1], toRgb);
    }
  }

  // ---------------------------------------------------------------------
  // Properties across cycles

  /** A path converted in a cycle is never attempted again: it stays in the
      processed set and no later cycle tries it. */
  lemma ProcessedNeverRetried(processed: set<string>, outputs: map<string, Image>, watchDirExists: bool,
                              scan: seq<Entry>, toRgb: Image -> Option<Image>, p: string)
    requires p in processed
    ensures p in Cycle(processed, outputs, watchDirExists, scan, toRgb).processed
    ensures p !in Cycle(processed, outputs, watchDirExists, scan, toRgb).attempted
  {
    var start := State(processed, outputs, []);
    if watchDirExists {
      RunGrows(start, scan, toRgb);
      RunAttemptsFresh(start, scan, toRgb);
      var r := Run(start, scan, toRgb);
      assert forall k :: 0 <= k < |r.attempted| ==> r.attempted[k] != p;
    }
  }

  /** A path that does not convert in a cycle because it failed, was still
      growing or could not be examined is left out of the processed set, and
      the next cycle that finds it ready attempts it again. */
  lemma FailedRetriedNextCycle(processed: set<string>, outputs: map<string, Image>,
                               scan1: seq<Entry>, scan2: seq<Entry>, toRgb: Image -> Option<Image>,
                               p: string, j: nat)
    requires p !in processed
    requires forall i :: 0 <= i < |scan1| && scan1[i].path == p ==> !Converts(scan1[i], toRgb)
    requires j < |scan2| && scan2[j].path == p && Ready(scan2[j])
    ensures p !in Cycle(processed, outputs, true, scan1, toRgb).processed
    ensures var s1 := Cycle(processed, outputs, true, scan1, toRgb);
      p in Cycle(s1.processed, s1.outputs, true, scan2, toRgb).attempted
  {
    var s1 := Cycle(processed, outputs, true, scan1, toRgb);
    RunProcessedIff(State(processed, outputs, []), scan1, toRgb, p);
    assert !SomeEntry(scan1, p, ConvertsWith(toRgb));
    RunAttemptsReady(State(s1.processed, s1.outputs, []), scan2, toRgb, j);
  }
}
