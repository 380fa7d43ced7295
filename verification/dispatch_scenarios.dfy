/**
 Concrete sessions and masks: the shipped configurations' settings and small
 streams whose complete trace is known.
 */
module DispatchScenarios {
  import opened Wrappers
  import opened Mrd
  import opened ImageIndices
  import opened Config
  import opened Dispatch

  /** The mask of invertcontrast: every field but the slice is compared. */
  lemma InvertContrastMaskValue()
    ensures FromNames(InvertContrastSettings.imageCollect) == Success(Indices(1, 1, 0, 1, 1, 1, 1, 1, 1))
  {
    assert FieldNames[2] == "slice";
    assert InvalidNames(["slice"]) == [];
  }

  /** The mask of saveall: the same as invertcontrast's. */
  lemma SaveAllMaskValue()
    ensures FromNames(SaveAllSettings.imageCollect) == Success(Indices(1, 1, 0, 1, 1, 1, 1, 1, 1))
  {
    assert FieldNames[2] == "slice";
    assert InvalidNames(["slice"]) == [];
  }

  /** Under invertcontrast and saveall, two keys match when they agree off the slice. */
  lemma SliceCollectingMask(a: Indices, b: Indices)
    ensures Eq(FromNames(InvertContrastSettings.imageCollect).value, a, b)
            <==> forall f: Field :: f != Slice ==> a.Get(f) == b.Get(f)
  {
    InvertContrastMaskValue();
    var mask := Indices(1, 1, 0, 1, 1, 1, 1, 1, 1);
    assert forall f: Field :: mask.Get(f) != 0 <==> f != Slice;
  }

  /** Under report, two keys match exactly when their series indices do. */
  lemma ReportMaskComparesSeriesOnly(a: Indices, b: Indices)
    ensures Eq(FromNames(ReportSettings.imageCollect).value, a, b) <==> a.imageSeriesIndex == b.imageSeriesIndex
  {
    ReportComparesSeriesOnly();
    SeriesOnlyMask(FromNames(ReportSettings.imageCollect).value, a, b);
  }

  /** A misspelt field name is refused, and the message names it. */
  lemma UnknownFieldRefused()
    ensures FromNames(["slice", "slices"]) == Failure(UnknownFieldsMessage + "slices")
  {
    assert FieldNames[2] == "slice";
    assert "slices" !in FieldNames;
    assert InvalidNames(["slice", "slices"]) == ["slices"];
  }

  /** Handlers that return nothing. */
  function QuietCapability(settings: Settings): Capability {
    Capability(settings, (g, i) => Returned([]), (g, i) => Returned([]))
  }

  /** One unrolling of the loop over an item that lets it continue. */
  lemma LoopCons(cap: Capability, mask: Indices, s: State, items: seq<Item>, next: State, effects: seq<Effect>)
    requires |items| > 0
    requires var r := Step(cap, mask, s, items[0]); r.Continue? && r.next == next && r.effects == effects
    ensures Loop(cap, mask, s, items) == Loop(cap, mask, next, items[1..]).Prepend(effects)
  {
  }

  /** Three items that each let the loop continue, and nothing after them. */
  lemma ThreeSteps(cap: Capability, mask: Indices, items: seq<Item>, s0: State, s1: State, s2: State, s3: State,
                   e1: seq<Effect>, e2: seq<Effect>, e3: seq<Effect>)
    requires |items| == 3
    requires var r := Step(cap, mask, s0, items[0]); r.Continue? && r.next == s1 && r.effects == e1
    requires var r := Step(cap, mask, s1, items[1]); r.Continue? && r.next == s2 && r.effects == e2
    requires var r := Step(cap, mask, s2, items[2]); r.Continue? && r.next == s3 && r.effects == e3
    ensures Loop(cap, mask, s0, items) == Stopped(s3, e1 + e2 + e3)
  {
    assert items[1..][0] == items[1] && items[1..][1..][0] == items[2];
    LoopCons(cap, mask, s2, items[1..][1..], s3, e3);
    LoopCons(cap, mask, s1, items[1..], s2, e2);
    LoopCons(cap, mask, s0, items, s1, e1);
    assert e1 + (e2 + (e3 + [])) == e1 + e2 + e3;
  }

  /** A session whose loop ends normally and whose remaining groups are handed over quietly. */
  lemma QuietSession(cap: Capability, mask: Indices, items: seq<Item>, s: State, effects: seq<Effect>)
    requires Loop(cap, mask, Initial, items) == Stopped(s, effects)
    requires Finish(cap, s).raised.None?
    ensures Session(cap, mask, items) == effects + Finish(cap, s).effects + [SendClose]
  {
  }

  /** With nothing dropped and no acquisitions left, the end hands over the image group alone. */
  lemma QuietFinishOfImageGroup(settings: Settings, s: State)
    requires s.acqGroup == [] && |s.imageGroup| > 0 && s.counters == Counters(0, 0, 0, 0, 0)
    ensures Finish(QuietCapability(settings), s) == Flushed([HandleImages(s.imageGroup, s.imageCounter)], None)
  {
    assert Reports(s.counters) == [];
  }

  /** A session whose loop ends normally with only an image group left, nothing dropped and quiet handlers. */
  lemma QuietImageEnd(settings: Settings, mask: Indices, items: seq<Item>, s: State, effects: seq<Effect>)
    requires Loop(QuietCapability(settings), mask, Initial, items) == Stopped(s, effects)
    requires s.acqGroup == [] && |s.imageGroup| > 0 && s.counters == Counters(0, 0, 0, 0, 0)
    ensures Session(QuietCapability(settings), mask, items)
            == effects + [HandleImages(s.imageGroup, s.imageCounter), SendClose]
  {
    QuietFinishOfImageGroup(settings, s);
    QuietSession(QuietCapability(settings), mask, items, s, effects);
  }

  /** An acquisition kept but not triggering only joins the group. */
  lemma UntriggeredAcquisitionJoins(cap: Capability, s: State, a: Acquisition)
    requires cap.settings.keepAcq
    requires !AnyFlagSet(a.head.flags, cap.settings.acqIgnore) && !AnyFlagSet(a.head.flags, cap.settings.acqTrigger)
    ensures var r := AcquisitionStep(cap, s, a);
            r.Continue? && r.next == s.(acqGroup := s.acqGroup + [a]) && r.effects == []
  {
  }

  /** Under saveall, an acquisition without flags is kept and does not trigger. */
  lemma FlaglessAcquisitionUnderSaveAll(a: Acquisition)
    requires a.head.flags == {}
    ensures SaveAllSettings.keepAcq
    ensures !AnyFlagSet(a.head.flags, SaveAllSettings.acqIgnore) && !AnyFlagSet(a.head.flags, SaveAllSettings.acqTrigger)
  {
  }

  /** With nothing dropped and no images left, the end hands over the acquisition group alone. */
  lemma QuietFinishOfAcquisitionGroup(settings: Settings, s: State)
    requires |s.acqGroup| > 0 && s.imageGroup == [] && s.counters == Counters(0, 0, 0, 0, 0)
    ensures Finish(QuietCapability(settings), s) == Flushed([HandleAcquisitions(s.acqGroup, s.acqCounter)], None)
  {
    assert Reports(s.counters) == [];
  }

  /** The loop part of `ThreeUntriggeredAcquisitions`: all three are kept in one group. */
  lemma ThreeUntriggeredLoop(mask: Indices, a1: Acquisition, a2: Acquisition, a3: Acquisition)
    requires a1.head.flags == {} && a2.head.flags == {} && a3.head.flags == {}
    ensures Loop(QuietCapability(SaveAllSettings), mask, Initial, [AcquisitionItem(a1), AcquisitionItem(a2), AcquisitionItem(a3)])
            == Stopped(Initial.(acqGroup := [a1, a2, a3]), [])
  {
    var cap := QuietCapability(SaveAllSettings);
    var s1 := Initial.(acqGroup := [a1]);
    var s2 := Initial.(acqGroup := [a1, a2]);
    var s3 := Initial.(acqGroup := [a1, a2, a3]);
    FlaglessAcquisitionUnderSaveAll(a1);
    FlaglessAcquisitionUnderSaveAll(a2);
    FlaglessAcquisitionUnderSaveAll(a3);
    UntriggeredAcquisitionJoins(cap, Initial, a1);
    UntriggeredAcquisitionJoins(cap, s1, a2);
    UntriggeredAcquisitionJoins(cap, s2, a3);
    ThreeSteps(cap, mask, [AcquisitionItem(a1), AcquisitionItem(a2), AcquisitionItem(a3)], Initial, s1, s2, s3, [], [], []);
  }

  /**
   Three acquisitions without a trigger flag and then the end of the stream,
   under saveall (whatever the mask): one handler call, on all three, under
   counter 0, then Close.
   */
  lemma ThreeUntriggeredAcquisitions(mask: Indices, a1: Acquisition, a2: Acquisition, a3: Acquisition)
    requires a1.head.flags == {} && a2.head.flags == {} && a3.head.flags == {}
    ensures Session(QuietCapability(SaveAllSettings), mask, [AcquisitionItem(a1), AcquisitionItem(a2), AcquisitionItem(a3)])
            == [HandleAcquisitions([a1, a2, a3], 0), SendClose]
  {
    var cap := QuietCapability(SaveAllSettings);
    var items := [AcquisitionItem(a1), AcquisitionItem(a2), AcquisitionItem(a3)];
    var s3 := Initial.(acqGroup := [a1, a2, a3]);
    ThreeUntriggeredLoop(mask, a1, a2, a3);
    QuietFinishOfAcquisitionGroup(SaveAllSettings, s3);
    QuietSession(cap, mask, items, s3, []);
  }

  lemma StepOfImage(cap: Capability, mask: Indices, s: State, im: Image)
    ensures Step(cap, mask, s, ImageItem(im)) == ImageStep(cap, mask, s, im)
  {
  }

  /** A kept image whose key matches the group's under the mask joins the group. */
  lemma MatchingImageJoins(cap: Capability, mask: Indices, s: State, im: Image, k: Indices)
    requires cap.settings.keepImage && im.head.imageType in cap.settings.imageSelect
    requires s.imageKey == Some(k) || (s.imageKey.None? && k == FromHeader(im.head))
    requires Eq(mask, FromHeader(im.head), k)
    ensures var r := ImageStep(cap, mask, s, im);
            r.Continue? && r.next == s.(imageGroup := s.imageGroup + [im], imageKey := Some(k)) && r.effects == []
  {
  }

  /** A kept image whose key differs from the group's hands the group over, quietly here, and starts the next. */
  lemma DifferingImageSplits(cap: Capability, mask: Indices, s: State, im: Image, k: Indices)
    requires cap.settings.keepImage && im.head.imageType in cap.settings.imageSelect
    requires s.imageKey == Some(k) && !Eq(mask, FromHeader(im.head), k)
    requires cap.processImage(s.imageGroup, s.imageCounter) == Returned([])
    ensures var r := ImageStep(cap, mask, s, im);
            && r.Continue?
            && r.next == s.(imageGroup := [im], imageCounter := s.imageCounter + 1, imageKey := Some(FromHeader(im.head)))
            && r.effects == [HandleImages(s.imageGroup, s.imageCounter)]
  {
    var key := FromHeader(im.head);
    assert Ne(mask, key, k);
    var f := Flush(HandleImages(s.imageGroup, s.imageCounter), Returned([]));
    assert f.raised.None? && f.effects == [HandleImages(s.imageGroup, s.imageCounter)];
  }

  /** A mask that compares the series index and nothing else. */
  predicate ComparesSeriesOnly(mask: Indices) {
    forall f: Field :: mask.Get(f) != 0 <==> f == ImageSeriesIndex
  }

  lemma SeriesOnlyMask(mask: Indices, a: Indices, b: Indices)
    requires ComparesSeriesOnly(mask)
    ensures Eq(mask, a, b) <==> a.imageSeriesIndex == b.imageSeriesIndex
  {
    assert mask.Get(ImageSeriesIndex) != 0;
  }

  /** report collects every field but the last. */
  lemma ReportCollectsAllButSeries()
    ensures ReportSettings.imageCollect == FieldNames[..8]
  {
  }

  lemma OnlySeriesNameMissing()
    ensures forall f: Field :: Name(f) in FieldNames[..8] <==> f != ImageSeriesIndex
  {
    assert FieldNames[8] !in FieldNames[..8];
    forall f: Field | f != ImageSeriesIndex ensures Name(f) in FieldNames[..8] {
      assert FieldNames[..8][Rank(f)] == Name(f);
    }
  }

  /** The mask report builds compares the series index alone. */
  lemma ReportComparesSeriesOnly()
    ensures FromNames(ReportSettings.imageCollect).Success?
    ensures ComparesSeriesOnly(FromNames(ReportSettings.imageCollect).value)
  {
    ReportCollectsAllButSeries();
    OnlySeriesNameMissing();
    assert forall i | 0 <= i < 8 :: IsFieldName(FieldNames[..8][i]);
  }

  lemma MagnitudeSelectedByReport()
    ensures ReportSettings.keepImage && IMTYPE_MAGNITUDE in ReportSettings.imageSelect
  {
    assert ReportSettings.imageSelect[1] == IMTYPE_MAGNITUDE;
  }

  /** Under report, a magnitude image of the group's series joins the group. */
  lemma SameSeriesJoins(mask: Indices, s: State, im: Image, k: Indices)
    requires ComparesSeriesOnly(mask)
    requires im.head.imageType == IMTYPE_MAGNITUDE
    requires s.imageKey == Some(k) || (s.imageKey.None? && k == FromHeader(im.head))
    requires im.head.imageSeriesIndex == k.imageSeriesIndex
    ensures var r := Step(QuietCapability(ReportSettings), mask, s, ImageItem(im));
            r.Continue? && r.next == s.(imageGroup := s.imageGroup + [im], imageKey := Some(k)) && r.effects == []
  {
    StepOfImage(QuietCapability(ReportSettings), mask, s, im);
    MagnitudeSelectedByReport();
    SeriesOnlyMask(mask, FromHeader(im.head), k);
    MatchingImageJoins(QuietCapability(ReportSettings), mask, s, im, k);
  }

  /** Under report, a magnitude image of another series hands the group over and starts the next. */
  lemma NewSeriesSplits(mask: Indices, s: State, im: Image, k: Indices)
    requires ComparesSeriesOnly(mask)
    requires im.head.imageType == IMTYPE_MAGNITUDE
    requires s.imageKey == Some(k)
    requires im.head.imageSeriesIndex != k.imageSeriesIndex
    ensures var r := Step(QuietCapability(ReportSettings), mask, s, ImageItem(im));
            && r.Continue?
            && r.next == s.(imageGroup := [im], imageCounter := s.imageCounter + 1, imageKey := Some(FromHeader(im.head)))
            && r.effects == [HandleImages(s.imageGroup, s.imageCounter)]
  {
    StepOfImage(QuietCapability(ReportSettings), mask, s, im);
    MagnitudeSelectedByReport();
    SeriesOnlyMask(mask, FromHeader(im.head), k);
    DifferingImageSplits(QuietCapability(ReportSettings), mask, s, im, k);
  }

  /** The loop part of `SeriesChangeSplitsImages`: the first group is handed over when the series changes. */
  lemma SeriesChangeLoop(mask: Indices, i1: Image, i2: Image, i3: Image)
    requires ComparesSeriesOnly(mask)
    requires i1.head.imageType == IMTYPE_MAGNITUDE && i2.head.imageType == IMTYPE_MAGNITUDE
    requires i3.head.imageType == IMTYPE_MAGNITUDE
    requires i2.head.imageSeriesIndex == i1.head.imageSeriesIndex
    requires i3.head.imageSeriesIndex == i1.head.imageSeriesIndex + 1
    ensures Loop(QuietCapability(ReportSettings), mask, Initial, [ImageItem(i1), ImageItem(i2), ImageItem(i3)])
            == Stopped(Initial.(imageGroup := [i3], imageCounter := 1, imageKey := Some(FromHeader(i3.head))),
                       [HandleImages([i1, i2], 0)])
  {
    var k1 := FromHeader(i1.head);
    var s1 := Initial.(imageGroup := [i1], imageKey := Some(k1));
    var s2 := Initial.(imageGroup := [i1, i2], imageKey := Some(k1));
    var s3 := Initial.(imageGroup := [i3], imageCounter := 1, imageKey := Some(FromHeader(i3.head)));
    SameSeriesJoins(mask, Initial, i1, k1);
    SameSeriesJoins(mask, s1, i2, k1);
    NewSeriesSplits(mask, s2, i3, k1);
    ThreeSteps(QuietCapability(ReportSettings), mask, [ImageItem(i1), ImageItem(i2), ImageItem(i3)],
               Initial, s1, s2, s3, [], [], [HandleImages([i1, i2], 0)]);
    assert [] + [] + [HandleImages([i1, i2], 0)] == [HandleImages([i1, i2], 0)];
  }

  /**
   Under report's mask, images whose series index runs 0, 0, 1 (whatever
   their slices): the first two form group 0, handed over when the third
   arrives; the third forms group 1, handed over at the end of the stream.
   */
  lemma SeriesChangeSplitsImages(mask: Indices, i1: Image, i2: Image, i3: Image)
    requires ComparesSeriesOnly(mask)
    requires i1.head.imageType == IMTYPE_MAGNITUDE && i2.head.imageType == IMTYPE_MAGNITUDE
    requires i3.head.imageType == IMTYPE_MAGNITUDE
    requires i2.head.imageSeriesIndex == i1.head.imageSeriesIndex
    requires i3.head.imageSeriesIndex == i1.head.imageSeriesIndex + 1
    ensures Session(QuietCapability(ReportSettings), mask, [ImageItem(i1), ImageItem(i2), ImageItem(i3)])
            == [HandleImages([i1, i2], 0), HandleImages([i3], 1), SendClose]
  {
    var s3 := Initial.(imageGroup := [i3], imageCounter := 1, imageKey := Some(FromHeader(i3.head)));
    var looped := [HandleImages([i1, i2], 0)];
    var tail := [HandleImages([i3], 1), SendClose];
    var items := [ImageItem(i1), ImageItem(i2), ImageItem(i3)];
    var cap := QuietCapability(ReportSettings);
    assert looped + tail == [HandleImages([i1, i2], 0), HandleImages([i3], 1), SendClose];
    assert Session(cap, mask, items) == looped + tail by {
      SeriesChangeLoop(mask, i1, i2, i3);
      QuietImageEnd(ReportSettings, mask, items, s3, looped);
    }
  }

  /** The closing report after a single acquisition of an ignored type. */
  lemma OneWrongtypeAcquisitionReport()
    ensures Reports(Counters(0, 1, 0, 0, 0))
            == [SendLogging(Info, ReportText(1, "ismrmrd.Acquisition of ignored types"))]
  {
    assert CounterValues(Counters(0, 1, 0, 0, 0)) == [0, 1, 0, 0, 0];
    assert ReportsFrom([0, 0, 0], ReportLabels[2..]) == [];
    assert ReportsFrom([1, 0, 0, 0], ReportLabels[1..])
           == [SendLogging(Info, ReportText(1, ReportLabels[1]))] + ReportsFrom([0, 0, 0], ReportLabels[2..]);
  }

  /** The loop part of `NoiseAcquisitionCountedAsWrongType`. */
  lemma NoiseLoop(mask: Indices, a: Acquisition)
    requires a.head.flags == {ACQ_IS_NOISE_MEASUREMENT}
    ensures Loop(QuietCapability(InvertContrastSettings), mask, Initial, [AcquisitionItem(a)])
            == Stopped(Initial.(counters := Counters(0, 1, 0, 0, 0)), [])
  {
    var cap := QuietCapability(InvertContrastSettings);
    assert cap.settings.keepAcq;
    assert AnyFlagSet(a.head.flags, cap.settings.acqIgnore) by {
      assert cap.settings.acqIgnore[0] in a.head.flags;
    }
    var s := Initial.(counters := Counters(0, 1, 0, 0, 0));
    LoopCons(cap, mask, Initial, [AcquisitionItem(a)], s, []);
    assert Loop(cap, mask, s, []) == Stopped(s, []);
  }

  /**
   Under invertcontrast, a noise acquisition is never kept: it is counted as
   of an ignored type, which the closing report says before Close.
   */
  lemma NoiseAcquisitionCountedAsWrongType(mask: Indices, a: Acquisition)
    requires a.head.flags == {ACQ_IS_NOISE_MEASUREMENT}
    ensures Session(QuietCapability(InvertContrastSettings), mask, [AcquisitionItem(a)])
            == [SendLogging(Info, ReportText(1, "ismrmrd.Acquisition of ignored types")), SendClose]
  {
    var cap := QuietCapability(InvertContrastSettings);
    var s := Initial.(counters := Counters(0, 1, 0, 0, 0));
    NoiseLoop(mask, a);
    OneWrongtypeAcquisitionReport();
    var report := SendLogging(Info, ReportText(1, "ismrmrd.Acquisition of ignored types"));
    assert Finish(cap, s) == Flushed([report], None);
    QuietSession(cap, mask, [AcquisitionItem(a)], s, []);
  }

  /** The loop part of `RaisingHandlerStillCloses`: the first call raises and the loop is aborted. */
  lemma RaisingLoop(mask: Indices, a: Acquisition, rest: seq<Item>, trace: string)
    requires a.head.flags == {ACQ_LAST_IN_SLICE}
    ensures var cap := Capability(SaveAllSettings, (g, i) => Raised(trace), (g, i) => Returned([]));
            Loop(cap, mask, Initial, [AcquisitionItem(a)] + rest) == Aborted([HandleAcquisitions([a], 0)], trace)
  {
    var cap := Capability(SaveAllSettings, (g, i) => Raised(trace), (g, i) => Returned([]));
    assert cap.settings.keepAcq && cap.settings.acqIgnore == [];
    assert !AnyFlagSet(a.head.flags, cap.settings.acqIgnore);
    assert AnyFlagSet(a.head.flags, cap.settings.acqTrigger) by {
      assert cap.settings.acqTrigger[0] in a.head.flags;
    }
    assert cap.processAcquisition([a], 0) == Raised(trace);
    assert Initial.acqGroup + [a] == [a];
    var r := AcquisitionStep(cap, Initial, a);
    assert r.Raise? && r.effects == [HandleAcquisitions([a], 0)] && r.trace == trace;
    assert ([AcquisitionItem(a)] + rest)[0] == AcquisitionItem(a);
  }

  /**
   A handler that raises: the error is reported, Close is still sent, and
   the rest of the stream is not looked at.
   */
  lemma RaisingHandlerStillCloses(mask: Indices, a: Acquisition, rest: seq<Item>, trace: string)
    requires a.head.flags == {ACQ_LAST_IN_SLICE}
    ensures var cap := Capability(SaveAllSettings, (g, i) => Raised(trace), (g, i) => Returned([]));
            Session(cap, mask, [AcquisitionItem(a)] + rest)
            == [HandleAcquisitions([a], 0), SendLogging(Error, trace), SendClose]
  {
    RaisingLoop(mask, a, rest, trace);
  }

  /** Handlers that send back the images they are given, and nothing for acquisitions. */
  function EchoCapability(settings: Settings): Capability {
    Capability(settings, (g, i) => Returned([]), (g, i) => Returned(g))
  }

  /** Two items that each let the loop continue, and nothing after them. */
  lemma TwoSteps(cap: Capability, mask: Indices, items: seq<Item>, s0: State, s1: State, s2: State,
                 e1: seq<Effect>, e2: seq<Effect>)
    requires |items| == 2
    requires var r := Step(cap, mask, s0, items[0]); r.Continue? && r.next == s1 && r.effects == e1
    requires var r := Step(cap, mask, s1, items[1]); r.Continue? && r.next == s2 && r.effects == e2
    ensures Loop(cap, mask, s0, items) == Stopped(s2, e1 + e2)
  {
    assert items[1..][0] == items[1];
    LoopCons(cap, mask, s1, items[1..], s2, e2);
    LoopCons(cap, mask, s0, items, s1, e1);
    assert e1 + (e2 + []) == e1 + e2;
  }

  /** A kept image whose key differs hands the group over, and the images the handler returns are sent. */
  lemma DifferingImageSendsBack(cap: Capability, mask: Indices, s: State, im: Image, k: Indices, images: seq<Image>)
    requires cap.settings.keepImage && im.head.imageType in cap.settings.imageSelect
    requires s.imageKey == Some(k) && !Eq(mask, FromHeader(im.head), k)
    requires cap.processImage(s.imageGroup, s.imageCounter) == Returned(images) && |images| > 0
    ensures var r := ImageStep(cap, mask, s, im);
            && r.Continue?
            && r.next == s.(imageGroup := [im], imageCounter := s.imageCounter + 1, imageKey := Some(FromHeader(im.head)))
            && r.effects == [HandleImages(s.imageGroup, s.imageCounter), SendImage(images)]
  {
    assert Ne(mask, FromHeader(im.head), k);
    var f := Flush(HandleImages(s.imageGroup, s.imageCounter), Returned(images));
    assert f.raised.None? && f.effects == [HandleImages(s.imageGroup, s.imageCounter), SendImage(images)];
  }

  /** With nothing dropped and no acquisitions left, the echoing handler gets the image group and it is sent back. */
  lemma EchoFinishOfImageGroup(settings: Settings, s: State)
    requires s.acqGroup == [] && |s.imageGroup| > 0 && s.counters == Counters(0, 0, 0, 0, 0)
    ensures Finish(EchoCapability(settings), s)
            == Flushed([HandleImages(s.imageGroup, s.imageCounter), SendImage(s.imageGroup)], None)
  {
    assert Reports(s.counters) == [];
  }

  /** The same as a whole session ending in Close. */
  lemma EchoImageEnd(settings: Settings, mask: Indices, items: seq<Item>, s: State, effects: seq<Effect>)
    requires Loop(EchoCapability(settings), mask, Initial, items) == Stopped(s, effects)
    requires s.acqGroup == [] && |s.imageGroup| > 0 && s.counters == Counters(0, 0, 0, 0, 0)
    ensures Session(EchoCapability(settings), mask, items)
            == effects + [HandleImages(s.imageGroup, s.imageCounter), SendImage(s.imageGroup), SendClose]
  {
    EchoFinishOfImageGroup(settings, s);
    QuietSession(EchoCapability(settings), mask, items, s, effects);
  }

  /** The loop part of `EchoedSeriesChange`: the first group is handed over and sent back. */
  lemma EchoedSeriesLoop(mask: Indices, i1: Image, i2: Image)
    requires ComparesSeriesOnly(mask)
    requires i1.head.imageType == IMTYPE_MAGNITUDE && i2.head.imageType == IMTYPE_MAGNITUDE
    requires i2.head.imageSeriesIndex != i1.head.imageSeriesIndex
    ensures Loop(EchoCapability(ReportSettings), mask, Initial, [ImageItem(i1), ImageItem(i2)])
            == Stopped(Initial.(imageGroup := [i2], imageCounter := 1, imageKey := Some(FromHeader(i2.head))),
                       [HandleImages([i1], 0), SendImage([i1])])
  {
    var cap := EchoCapability(ReportSettings);
    var k1 := FromHeader(i1.head);
    var s1 := Initial.(imageGroup := [i1], imageKey := Some(k1));
    var s2 := Initial.(imageGroup := [i2], imageCounter := 1, imageKey := Some(FromHeader(i2.head)));
    MagnitudeSelectedByReport();
    SeriesOnlyMask(mask, k1, k1);
    MatchingImageJoins(cap, mask, Initial, i1, k1);
    StepOfImage(cap, mask, Initial, i1);
    assert Initial.imageGroup + [i1] == [i1];
    SeriesOnlyMask(mask, FromHeader(i2.head), k1);
    DifferingImageSendsBack(cap, mask, s1, i2, k1, [i1]);
    StepOfImage(cap, mask, s1, i2);
    TwoSteps(cap, mask, [ImageItem(i1), ImageItem(i2)], Initial, s1, s2, [], [HandleImages([i1], 0), SendImage([i1])]);
    assert [] + [HandleImages([i1], 0), SendImage([i1])] == [HandleImages([i1], 0), SendImage([i1])];
  }

  /**
   Under report's settings, with handlers that send back the images they
   get: two images of different series are each handed over as a group of
   their own, and each group is sent back right after its call, under
   counters 0 and 1.
   */
  lemma EchoedSeriesChange(mask: Indices, i1: Image, i2: Image)
    requires ComparesSeriesOnly(mask)
    requires i1.head.imageType == IMTYPE_MAGNITUDE && i2.head.imageType == IMTYPE_MAGNITUDE
    requires i2.head.imageSeriesIndex != i1.head.imageSeriesIndex
    ensures Session(EchoCapability(ReportSettings), mask, [ImageItem(i1), ImageItem(i2)])
            == [HandleImages([i1], 0), SendImage([i1]), HandleImages([i2], 1), SendImage([i2]), SendClose]
  {
    var s2 := Initial.(imageGroup := [i2], imageCounter := 1, imageKey := Some(FromHeader(i2.head)));
    var looped := [HandleImages([i1], 0), SendImage([i1])];
    var tail := [HandleImages([i2], 1), SendImage([i2]), SendClose];
    var items := [ImageItem(i1), ImageItem(i2)];
    var cap := EchoCapability(ReportSettings);
    assert looped + tail
           == [HandleImages([i1], 0), SendImage([i1]), HandleImages([i2], 1), SendImage([i2]), SendClose];
    assert Session(cap, mask, items) == looped + tail by {
      EchoedSeriesLoop(mask, i1, i2);
      EchoImageEnd(ReportSettings, mask, items, s2, looped);
    }
  }
}
