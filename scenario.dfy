/** A worked two-cycle run of the watcher: a finished negative next to one
    that is still being copied in. */
module Scenario {
  import opened Options
  import opened Filenames
  import opened Imaging
  import opened Watcher

  /** An RGB image of `pixels` pixels whose every sample is `v`. */
  function FlatRgb(v: int, pixels: nat): (img: Image)
    requires 0 <= v <= Max8
    ensures img.mode == ModeRGB && |img.bands| == 3
  {
    var band := seq(pixels, _ => v);
    Raster(ModeRGB, [band, band, band])
  }

  function NegA(): Entry {
    Entry("/watch/negA.tif", "negA.tif", true, Sizes(4096, 4096), IoOutcome(Some(FlatRgb(10, 4)), true))
  }

  /** While being written, the two size readings differ. */
  function NegBGrowing(): Entry {
    Entry("/watch/negB.jpg", "negB.jpg", true, Sizes(1024, 2048), IoOutcome(Some(FlatRgb(20, 4)), true))
  }

  function NegBDone(): Entry {
    Entry("/watch/negB.jpg", "negB.jpg", true, Sizes(4096, 4096), IoOutcome(Some(FlatRgb(20, 4)), true))
  }

  /** negA.tif is ready and converts to the all-245 positive. */
  lemma NegAFacts(toRgb: Image -> Option<Image>)
    ensures Ready(NegA())
    ensures InvertImage(NegA().io, toRgb) == Some(FlatRgb(245, 4))
    ensures OutputFilename(NegA().name) == "negA_positive.tif"
  {
    OutputFilenameAt("negA.tif", 4);
    assert "negA.tif"[..4] == "negA";
    NegASupported();
    InvertFlat(10, 4, toRgb);
  }

  /** negB.jpg, once complete, is ready and converts to the all-235
      positive. */
  lemma NegBFacts(toRgb: Image -> Option<Image>)
    ensures Ready(NegBDone())
    ensures InvertImage(NegBDone().io, toRgb) == Some(FlatRgb(235, 4))
    ensures OutputFilename(NegBDone().name) == "negB_positive.tif"
  {
    OutputFilenameAt("negB.jpg", 4);
    assert "negB.jpg"[..4] == "negB";
    NegBSupported();
    InvertFlat(20, 4, toRgb);
  }

  lemma NegASupported()
    ensures IsSupported("negA.tif")
  {
    assert Lower("negA.tif") == "nega.tif";
    assert EndsWith("nega.tif", ".tif");
  }

  lemma NegBSupported()
    ensures IsSupported("negB.jpg")
  {
    assert Lower("negB.jpg") == "negb.jpg";
    assert EndsWith("negb.jpg", ".jpg");
  }

  /** Two iterations of the loop. */
  lemma RunTwo(s: State, a: Entry, b: Entry, toRgb: Image -> Option<Image>)
    ensures Run(s, [a, b], toRgb) == Step(Step(s, a, toRgb), b, toRgb)
  {
    assert [a, b][..1] == [a] && [a][..0] == [];
    assert Run(s, [a], toRgb) == Step(Run(s, [], toRgb), a, toRgb);
  }

  /** A ready entry that converts, followed by one whose size is changing. */
  lemma ConvertThenSkip(s: State, a: Entry, b: Entry, toRgb: Image -> Option<Image>, out: Image)
    requires Ready(a) && a.path !in s.processed && InvertImage(a.io, toRgb) == Some(out)
    requires !IsStable(b.probe)
    ensures Run(s, [a, b], toRgb) ==
      State(s.processed + {a.path}, s.outputs[OutputFilename(a.name) := out], s.attempted + [a.path])
  {
    RunTwo(s, a, b, toRgb);
    StepEffect(s, a, toRgb);
    StepEffect(Step(s, a, toRgb), b, toRgb);
  }

  /** An entry already processed, followed by a ready one that converts. */
  lemma SkipThenConvert(s: State, a: Entry, b: Entry, toRgb: Image -> Option<Image>, out: Image)
    requires a.path in s.processed
    requires Ready(b) && b.path !in s.processed && InvertImage(b.io, toRgb) == Some(out)
    ensures Run(s, [a, b], toRgb) ==
      State(s.processed + {b.path}, s.outputs[OutputFilename(b.name) := out], s.attempted + [b.path])
  {
    RunTwo(s, a, b, toRgb);
    StepEffect(s, a, toRgb);
    StepEffect(s, b, toRgb);
  }

  /** The state after the first cycle: only negA.tif converted. */
  function AfterFirst(): State {
    State({"/watch/negA.tif"}, map["negA_positive.tif" := FlatRgb(245, 4)], ["/watch/negA.tif"])
  }

  /** The state after the second cycle: negB.jpg converted as well. */
  function AfterSecond(): State {
    State({"/watch/negA.tif", "/watch/negB.jpg"},
          map["negA_positive.tif" := FlatRgb(245, 4), "negB_positive.tif" := FlatRgb(235, 4)],
          ["/watch/negB.jpg"])
  }

  /** The first cycle converts negA.tif into an all-245 positive and
      produces nothing for negB.jpg, which it also does not remember. */
  lemma FirstCycle(toRgb: Image -> Option<Image>)
    ensures Cycle({}, map[], true, [NegA(), NegBGrowing()], toRgb) == AfterFirst()
  {
    NegAFacts(toRgb);
    ConvertThenSkip(State({}, map[], []), NegA(), NegBGrowing(), toRgb, FlatRgb(245, 4));
  }

  /** Once negB.jpg has stopped growing, the next cycle converts it and
      leaves negA.tif, already converted, untried. */
  lemma SecondCycle(toRgb: Image -> Option<Image>)
    ensures Cycle(AfterFirst().processed, AfterFirst().outputs, true, [NegA(), NegBDone()], toRgb) ==
      AfterSecond()
  {
    NegBFacts(toRgb);
    SkipThenConvert(State(AfterFirst().processed, AfterFirst().outputs, []),
                    NegA(), NegBDone(), toRgb, FlatRgb(235, 4));
  }

  /** A flat RGB image inverts to the flat image of the negated value. */
  lemma InvertFlat(v: int, pixels: nat, toRgb: Image -> Option<Image>)
    requires 0 <= v <= Max8
    ensures Invert(FlatRgb(v, pixels), toRgb) == Some(FlatRgb(Max8 - v, pixels))
  {
    var img := FlatRgb(v, pixels);
    InvertRgbOrL(img, toRgb);
    var out := Invert(img, toRgb).value;
    var want := FlatRgb(Max8 - v, pixels);
    forall c | 0 <= c < 3 ensures out.bands[c] == want.bands[c] {
      assert |out.bands[c]| == pixels;
    }
    assert out.bands == want.bands;
  }

}
