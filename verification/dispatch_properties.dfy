/**
 Properties of the dispatch engine: how each kind of record is classified,
 when groups are handed to the handlers, what is preserved across the whole
 loop, and the shape of the outbound trace of a session.
 */
module DispatchProperties {
  import opened Wrappers
  import opened Text
  import opened Mrd
  import opened ImageIndices
  import opened Config
  import opened Dispatch

  /** The image key is set exactly while the image group is non-empty. */
  predicate Inv(s: State) {
    s.imageKey.None? <==> |s.imageGroup| == 0
  }

  /** What is sent back for a handler result: its images, when it returned a non-empty list. */
  function Forwarded(result: HandlerResult): seq<Effect> {
    if result.Returned? && |result.images| > 0 then [SendImage(result.images)] else []
  }

  /** What the handler named by a call gives for that call's group and counter. */
  function ResultOf(cap: Capability, call: Effect): HandlerResult
    requires call.IsHandlerCall()
  {
    match call
    case HandleAcquisitions(group, index) => cap.processAcquisition(group, index)
    case HandleImages(group, index) => cap.processImage(group, index)
  }

  // ---------------------------------------------------------------------------
  // Per-record behaviour

  /**
   An acquisition lands in exactly one place: the ignored counter when
   acquisitions are not kept, otherwise the wrong-type counter when it carries
   an ignore flag, otherwise the end of the acquisition group.
   */
  lemma AcquisitionOutcome(cap: Capability, mask: Indices, s: State, a: Acquisition)
    ensures var r := Step(cap, mask, s, AcquisitionItem(a));
            var st := cap.settings;
            && (!st.keepAcq ==>
                  r == Continue(s.(counters := s.counters.(acqIgnored := s.counters.acqIgnored + 1)), []))
            && (st.keepAcq && AnyFlagSet(a.head.flags, st.acqIgnore) ==>
                  r == Continue(s.(counters := s.counters.(acqWrongtype := s.counters.acqWrongtype + 1)), []))
            && (st.keepAcq && !AnyFlagSet(a.head.flags, st.acqIgnore) && !AnyFlagSet(a.head.flags, st.acqTrigger) ==>
                  r == Continue(s.(acqGroup := s.acqGroup + [a]), []))
  {
  }

  /**
   A trigger flag is looked at after the append: the handler gets the group
   that ends with the triggering acquisition and the current group counter;
   if it returns, the group is emptied, the counter goes up by one, nothing
   else in the state changes and the result is sent only when it is non-empty.
   */
  lemma TriggerFlushesGroup(cap: Capability, mask: Indices, s: State, a: Acquisition)
    requires cap.settings.keepAcq
    requires !AnyFlagSet(a.head.flags, cap.settings.acqIgnore)
    requires AnyFlagSet(a.head.flags, cap.settings.acqTrigger)
    ensures var r := Step(cap, mask, s, AcquisitionItem(a));
            var g := s.acqGroup + [a];
            var result := cap.processAcquisition(g, s.acqCounter);
            && (result.Raised? ==> r == Raise([HandleAcquisitions(g, s.acqCounter)], result.trace))
            && (result.Returned? ==>
                  && r.Continue?
                  && r.next == s.(acqGroup := [], acqCounter := s.acqCounter + 1)
                  && r.effects == [HandleAcquisitions(g, s.acqCounter)]
                                  + (if |result.images| > 0 then [SendImage(result.images)] else []))
  {
  }

  /** Dropped images are only counted; the groups and the key are untouched. */
  lemma DroppedImage(cap: Capability, mask: Indices, s: State, im: Image)
    requires !cap.settings.keepImage || im.head.imageType !in cap.settings.imageSelect
    ensures var r := Step(cap, mask, s, ImageItem(im));
            && r.Continue? && r.effects == []
            && r.next == s.(counters := r.next.counters)
            && (!cap.settings.keepImage ==>
                  r.next.counters == s.counters.(imageIgnored := s.counters.imageIgnored + 1))
            && (cap.settings.keepImage ==>
                  r.next.counters == s.counters.(imageWrongtype := s.counters.imageWrongtype + 1))
  {
  }

  /** The first accepted image of a group sets the key and starts the group. */
  lemma FirstImageStartsGroup(cap: Capability, mask: Indices, s: State, im: Image)
    requires Inv(s) && s.imageKey.None?
    requires cap.settings.keepImage && im.head.imageType in cap.settings.imageSelect
    ensures Step(cap, mask, s, ImageItem(im)) == Continue(s.(imageGroup := [im], imageKey := Some(FromHeader(im.head))), [])
  {
    var k := FromHeader(im.head);
    assert Eq(mask, k, k);
    assert s.imageGroup + [im] == [im];
  }

  /** An accepted image whose key matches the group's joins the group. */
  lemma MatchingImageJoinsGroup(cap: Capability, mask: Indices, s: State, im: Image)
    requires s.imageKey.Some? && Eq(mask, FromHeader(im.head), s.imageKey.value)
    requires cap.settings.keepImage && im.head.imageType in cap.settings.imageSelect
    ensures Step(cap, mask, s, ImageItem(im)) == Continue(s.(imageGroup := s.imageGroup + [im]), [])
  {
  }

  /** An accepted image whose key differs hands the (non-empty) group over and starts the next; nothing else in the state changes. */
  lemma DifferingImageSplitsGroup(cap: Capability, mask: Indices, s: State, im: Image)
    requires Inv(s) && s.imageKey.Some? && !Eq(mask, FromHeader(im.head), s.imageKey.value)
    requires cap.settings.keepImage && im.head.imageType in cap.settings.imageSelect
    ensures var r := Step(cap, mask, s, ImageItem(im));
            var result := cap.processImage(s.imageGroup, s.imageCounter);
            && |s.imageGroup| > 0
            && |r.effects| > 0 && r.effects[0] == HandleImages(s.imageGroup, s.imageCounter)
            && (result.Raised? ==> r == Raise([HandleImages(s.imageGroup, s.imageCounter)], result.trace))
            && (result.Returned? ==>
                  && r.Continue?
                  && r.next == s.(imageGroup := [im], imageKey := Some(FromHeader(im.head)), imageCounter := s.imageCounter + 1)
                  && r.effects == [HandleImages(s.imageGroup, s.imageCounter)] + Forwarded(result))
  {
  }

  /**
   An accepted image joins the current group when its key matches the group's
   key on the compared fields (the first image sets the key). Otherwise the
   current group, which is never empty at that point, is handed to the image
   handler under the current counter; then the counter goes up, the new key is
   adopted and the image starts the next group.
   */
  lemma ImageGrouping(cap: Capability, mask: Indices, s: State, im: Image)
    requires Inv(s)
    requires cap.settings.keepImage && im.head.imageType in cap.settings.imageSelect
    ensures var r := Step(cap, mask, s, ImageItem(im));
            var k := FromHeader(im.head);
            && (s.imageKey.None? ==>
                  r == Continue(s.(imageGroup := [im], imageKey := Some(k)), []))
            && (s.imageKey.Some? && Eq(mask, k, s.imageKey.value) ==>
                  r == Continue(s.(imageGroup := s.imageGroup + [im]), []))
            && (s.imageKey.Some? && !Eq(mask, k, s.imageKey.value) ==>
                  var result := cap.processImage(s.imageGroup, s.imageCounter);
                  && |s.imageGroup| > 0
                  && |r.effects| > 0 && r.effects[0] == HandleImages(s.imageGroup, s.imageCounter)
                  && (result.Raised? ==> r == Raise([HandleImages(s.imageGroup, s.imageCounter)], result.trace))
                  && (result.Returned? ==>
                        && r.Continue?
                        && r.next == s.(imageGroup := [im], imageKey := Some(k), imageCounter := s.imageCounter + 1)
                        && r.effects == [HandleImages(s.imageGroup, s.imageCounter)] + Forwarded(result)))
  {
    if s.imageKey.None? {
      FirstImageStartsGroup(cap, mask, s, im);
    } else if Eq(mask, FromHeader(im.head), s.imageKey.value) {
      MatchingImageJoinsGroup(cap, mask, s, im);
    } else {
      DifferingImageSplitsGroup(cap, mask, s, im);
    }
  }

  /** Waveforms are appended or counted; nothing else changes and no handler runs. */
  lemma WaveformNeverHandled(cap: Capability, mask: Indices, s: State, w: Waveform)
    ensures var r := Step(cap, mask, s, WaveformItem(w));
            && r.Continue? && r.effects == []
            && r.next == s.(waveformGroup := r.next.waveformGroup, counters := r.next.counters)
            && (cap.settings.keepWaveform ==>
                  r.next.waveformGroup == s.waveformGroup + [w] && r.next.counters == s.counters)
            && (!cap.settings.keepWaveform ==>
                  r.next.waveformGroup == s.waveformGroup
                  && r.next.counters == s.counters.(waveformIgnored := s.counters.waveformIgnored + 1))
  {
  }

  /** An object of an unsupported type is skipped and the loop goes on. */
  lemma UnsupportedSkipped(cap: Capability, mask: Indices, s: State, typeName: string)
    ensures Step(cap, mask, s, Unsupported(typeName)) == Continue(s, [])
  {
  }

  /** Every step keeps the key set exactly while the image group is non-empty. */
  lemma StepPreservesInv(cap: Capability, mask: Indices, s: State, item: Item)
    requires Inv(s)
    ensures Step(cap, mask, s, item).Continue? ==> Inv(Step(cap, mask, s, item).next)
  {
  }

  /**
   Two accepted images in a row whose keys agree on the compared fields are
   never separated by a handler call; two that disagree are separated by
   exactly one, and the second image starts the new group.
   */
  lemma ConsecutiveImages(cap: Capability, mask: Indices, s: State, a: Image, b: Image)
    requires Inv(s)
    requires cap.settings.keepImage
    requires a.head.imageType in cap.settings.imageSelect && b.head.imageType in cap.settings.imageSelect
    requires Step(cap, mask, s, ImageItem(a)).Continue?
    ensures var s1 := Step(cap, mask, s, ImageItem(a)).next;
            var r := Step(cap, mask, s1, ImageItem(b));
            && (Eq(mask, FromHeader(a.head), FromHeader(b.head)) ==>
                  r.Continue? && r.effects == [] && r.next.imageGroup == s1.imageGroup + [b])
            && (!Eq(mask, FromHeader(a.head), FromHeader(b.head)) ==>
                  && |r.effects| > 0 && r.effects[0] == HandleImages(s1.imageGroup, s1.imageCounter)
                  && (forall i | 1 <= i < |r.effects| :: !r.effects[i].IsHandlerCall())
                  && (r.Continue? ==> r.next.imageGroup == [b]))
  {
    var ka, kb := FromHeader(a.head), FromHeader(b.head);
    var s1 := Step(cap, mask, s, ImageItem(a)).next;
    ImageGrouping(cap, mask, s, a);
    StepPreservesInv(cap, mask, s, ImageItem(a));
    assert s1.imageKey.Some? && Eq(mask, ka, s1.imageKey.value);
    var key := s1.imageKey.value;
    if Eq(mask, ka, kb) {
      EqIsEquivalence(mask, ka, kb, key);
      EqIsEquivalence(mask, kb, ka, key);
      MatchingImageJoinsGroup(cap, mask, s1, b);
    } else {
      EqIsEquivalence(mask, kb, key, ka);
      EqIsEquivalence(mask, ka, key, kb);
      DifferingImageSplitsGroup(cap, mask, s1, b);
      assert Ne(mask, kb, key);
    }
  }

  // ---------------------------------------------------------------------------
  // The end marker

  /** Nothing after the end marker is looked at. */
  lemma {:induction false} LoopStopsAtEndMarker(cap: Capability, mask: Indices, s: State, pre: seq<Item>, post: seq<Item>)
    requires EndOfData !in pre
    ensures Loop(cap, mask, s, pre + [EndOfData] + post) == Loop(cap, mask, s, pre)
    decreases |pre|
  {
    var items := pre + [EndOfData] + post;
    if |pre| > 0 {
      assert items[0] == pre[0];
      assert items[1..] == pre[1..] + [EndOfData] + post;
      match Step(cap, mask, s, pre[0])
      case Stop =>
      case Raise(_, _) =>
      case Continue(next, _) =>
        LoopStopsAtEndMarker(cap, mask, next, pre[1..], post);
    }
  }

  /** A session that meets the end marker behaves as if the stream ended there. */
  lemma SessionStopsAtEndMarker(cap: Capability, mask: Indices, pre: seq<Item>, post: seq<Item>)
    requires EndOfData !in pre
    ensures Session(cap, mask, pre + [EndOfData] + post) == Session(cap, mask, pre)
  {
    LoopStopsAtEndMarker(cap, mask, Initial, pre, post);
  }

  // ---------------------------------------------------------------------------
  // Conservation of records

  function AcquisitionCount(items: seq<Item>): nat {
    if |items| == 0 then 0 else (if items[0].AcquisitionItem? then 1 else 0) + AcquisitionCount(items[1..])
  }

  function ImageCount(items: seq<Item>): nat {
    if |items| == 0 then 0 else (if items[0].ImageItem? then 1 else 0) + ImageCount(items[1..])
  }

  /** The items the loop consumes: those before the first end marker. */
  function UpToEnd(items: seq<Item>): seq<Item> {
    if |items| == 0 || items[0] == EndOfData then [] else [items[0]] + UpToEnd(items[1..])
  }

  /** How many acquisitions the handler calls of a trace were given, in all. */
  function HandledAcquisitions(e: seq<Effect>): nat {
    if |e| == 0 then 0
    else (if e[0].HandleAcquisitions? then |e[0].acquisitions| else 0) + HandledAcquisitions(e[1..])
  }

  function HandledImages(e: seq<Effect>): nat {
    if |e| == 0 then 0
    else (if e[0].HandleImages? then |e[0].images| else 0) + HandledImages(e[1..])
  }

  lemma {:induction false} HandledConcat(a: seq<Effect>, b: seq<Effect>)
    ensures HandledAcquisitions(a + b) == HandledAcquisitions(a) + HandledAcquisitions(b)
    ensures HandledImages(a + b) == HandledImages(a) + HandledImages(b)
  {
    if |a| > 0 {
      assert (a + b)[1..] == a[1..] + b;
      HandledConcat(a[1..], b);
    } else {
      assert a + b == b;
    }
  }

  /** Acquisitions the state accounts for: in the group or in a drop counter. */
  function AcquisitionsHeld(s: State): nat {
    |s.acqGroup| + s.counters.acqIgnored + s.counters.acqWrongtype
  }

  function ImagesHeld(s: State): nat {
    |s.imageGroup| + s.counters.imageIgnored + s.counters.imageWrongtype
  }

  lemma StepConserves(cap: Capability, mask: Indices, s: State, item: Item)
    ensures var r := Step(cap, mask, s, item);
            r.Continue? ==>
              && AcquisitionsHeld(r.next) + HandledAcquisitions(r.effects)
                 == AcquisitionsHeld(s) + (if item.AcquisitionItem? then 1 else 0)
              && ImagesHeld(r.next) + HandledImages(r.effects)
                 == ImagesHeld(s) + (if item.ImageItem? then 1 else 0)
  {
    var r := Step(cap, mask, s, item);
    if r.Continue? && |r.effects| > 0 {
      HandledConcat([r.effects[0]], r.effects[1..]);
      assert [r.effects[0]] + r.effects[1..] == r.effects;
    }
  }

  /**
   Over the loop, every acquisition and every image consumed is in its group,
   in a drop counter, or was given to a handler, exactly once.
   */
  lemma {:induction false} LoopConserves(cap: Capability, mask: Indices, s: State, items: seq<Item>)
    ensures var r := Loop(cap, mask, s, items);
            r.Stopped? ==>
              && AcquisitionsHeld(r.final) + HandledAcquisitions(r.effects)
                 == AcquisitionsHeld(s) + AcquisitionCount(UpToEnd(items))
              && ImagesHeld(r.final) + HandledImages(r.effects)
                 == ImagesHeld(s) + ImageCount(UpToEnd(items))
    decreases |items|
  {
    if |items| > 0 {
      var it := items[0];
      StepConserves(cap, mask, s, it);
      match Step(cap, mask, s, it)
      case Stop =>
      case Raise(_, _) =>
      case Continue(next, effects) =>
        LoopConserves(cap, mask, next, items[1..]);
        var rest := Loop(cap, mask, next, items[1..]);
        if rest.Stopped? {
          HandledConcat(effects, rest.effects);
        }
        assert UpToEnd(items) == [it] + UpToEnd(items[1..]);
        assert ([it] + UpToEnd(items[1..]))[1..] == UpToEnd(items[1..]);
    }
  }

  /**
   At the end of the stream the remaining acquisition group is handed over
   first and the remaining image group second, each call followed by what
   its handler returned; the report comes last. A handler that raises ends
   the sequence with its call: once the acquisition handler raises the image
   group is not handed over, and after any raise no report is sent. When
   nothing raises, both groups are handed over in full.
   */
  lemma FinishHandsOverGroups(cap: Capability, s: State)
    ensures var fin := Finish(cap, s);
            var ra := cap.processAcquisition(s.acqGroup, s.acqCounter);
            var ri := cap.processImage(s.imageGroup, s.imageCounter);
            var acq := if |s.acqGroup| > 0 then [HandleAcquisitions(s.acqGroup, s.acqCounter)] + Forwarded(ra) else [];
            var img := if |s.imageGroup| > 0 then [HandleImages(s.imageGroup, s.imageCounter)] + Forwarded(ri) else [];
            var acqRaises := |s.acqGroup| > 0 && ra.Raised?;
            var imgRaises := |s.imageGroup| > 0 && ri.Raised?;
            && (acqRaises ==> fin == Flushed(acq, Some(ra.trace)))
            && (!acqRaises && imgRaises ==> fin == Flushed(acq + img, Some(ri.trace)))
            && (!acqRaises && !imgRaises ==> fin == Flushed(acq + img + Reports(s.counters), None))
            && (fin.raised.None? ==>
                  HandledAcquisitions(fin.effects) == |s.acqGroup| && HandledImages(fin.effects) == |s.imageGroup|)
  {
    FinishOrder(cap, s);
    FinishCounts(cap, s);
  }

  lemma FinishOrder(cap: Capability, s: State)
    ensures var fin := Finish(cap, s);
            var ra := cap.processAcquisition(s.acqGroup, s.acqCounter);
            var ri := cap.processImage(s.imageGroup, s.imageCounter);
            var acq := if |s.acqGroup| > 0 then [HandleAcquisitions(s.acqGroup, s.acqCounter)] + Forwarded(ra) else [];
            var img := if |s.imageGroup| > 0 then [HandleImages(s.imageGroup, s.imageCounter)] + Forwarded(ri) else [];
            var acqRaises := |s.acqGroup| > 0 && ra.Raised?;
            var imgRaises := |s.imageGroup| > 0 && ri.Raised?;
            && (acqRaises ==> fin == Flushed(acq, Some(ra.trace)))
            && (!acqRaises && imgRaises ==> fin == Flushed(acq + img, Some(ri.trace)))
            && (!acqRaises && !imgRaises ==> fin == Flushed(acq + img + Reports(s.counters), None))
  {
    RemainingFlushes(cap, s);
  }

  lemma FinishCounts(cap: Capability, s: State)
    ensures var fin := Finish(cap, s);
            fin.raised.None? ==>
              HandledAcquisitions(fin.effects) == |s.acqGroup| && HandledImages(fin.effects) == |s.imageGroup|
  {
    var ra := cap.processAcquisition(s.acqGroup, s.acqCounter);
    var ri := cap.processImage(s.imageGroup, s.imageCounter);
    var acq := if |s.acqGroup| > 0 then [HandleAcquisitions(s.acqGroup, s.acqCounter)] + Forwarded(ra) else [];
    var img := if |s.imageGroup| > 0 then [HandleImages(s.imageGroup, s.imageCounter)] + Forwarded(ri) else [];
    FinishOrder(cap, s);
    if Finish(cap, s).raised.None? {
      if |s.acqGroup| > 0 {
        PieceHandled(HandleAcquisitions(s.acqGroup, s.acqCounter), ra);
      }
      if |s.imageGroup| > 0 {
        PieceHandled(HandleImages(s.imageGroup, s.imageCounter), ri);
      }
      ReportsHandleNothing(Reports(s.counters));
      HandledConcat(acq, img);
      HandledConcat(acq + img, Reports(s.counters));
    }
  }

  /** A call followed by what is sent for its result counts the call's group only. */
  lemma PieceHandled(call: Effect, result: HandlerResult)
    requires call.IsHandlerCall()
    ensures HandledAcquisitions([call] + Forwarded(result)) == (if call.HandleAcquisitions? then |call.acquisitions| else 0)
    ensures HandledImages([call] + Forwarded(result)) == (if call.HandleImages? then |call.images| else 0)
  {
    var e := [call] + Forwarded(result);
    assert e[1..] == Forwarded(result);
    if |Forwarded(result)| > 0 {
      assert e[1..][1..] == [];
      assert HandledAcquisitions(e[1..]) == 0 && HandledImages(e[1..]) == 0;
    }
  }

  /** Each remaining group is handed over when it is non-empty, and followed by what its handler returned. */
  lemma RemainingFlushes(cap: Capability, s: State)
    ensures var ra := cap.processAcquisition(s.acqGroup, s.acqCounter);
            var acq := FlushRemainingAcquisitions(cap, s);
            && acq.effects == (if |s.acqGroup| > 0 then [HandleAcquisitions(s.acqGroup, s.acqCounter)] + Forwarded(ra) else [])
            && acq.raised == (if |s.acqGroup| > 0 && ra.Raised? then Some(ra.trace) else None)
    ensures var ri := cap.processImage(s.imageGroup, s.imageCounter);
            var img := FlushRemainingImages(cap, s);
            && img.effects == (if |s.imageGroup| > 0 then [HandleImages(s.imageGroup, s.imageCounter)] + Forwarded(ri) else [])
            && img.raised == (if |s.imageGroup| > 0 && ri.Raised? then Some(ri.trace) else None)
  {
    if |s.acqGroup| > 0 {
      FlushWellFormed(HandleAcquisitions(s.acqGroup, s.acqCounter), cap.processAcquisition(s.acqGroup, s.acqCounter));
    }
    if |s.imageGroup| > 0 {
      FlushWellFormed(HandleImages(s.imageGroup, s.imageCounter), cap.processImage(s.imageGroup, s.imageCounter));
    }
  }

  lemma {:induction false} ReportsHandleNothing(e: seq<Effect>)
    requires forall x | x in e :: x.SendLogging?
    ensures HandledAcquisitions(e) == 0 && HandledImages(e) == 0
  {
    if |e| > 0 {
      assert e[0] in e;
      ReportsHandleNothing(e[1..]);
    }
  }

  /**
   Conservation over a whole session that no handler aborts: every
   acquisition (image) before the end marker was given to a handler or
   counted as ignored or of the wrong type.
   */
  lemma SessionConserves(cap: Capability, mask: Indices, items: seq<Item>)
    requires Loop(cap, mask, Initial, items).Stopped?
    requires Finish(cap, Loop(cap, mask, Initial, items).final).raised.None?
    ensures var s := Loop(cap, mask, Initial, items).final;
            var r := Session(cap, mask, items);
            && AcquisitionCount(UpToEnd(items))
               == HandledAcquisitions(r) + s.counters.acqIgnored + s.counters.acqWrongtype
            && ImageCount(UpToEnd(items))
               == HandledImages(r) + s.counters.imageIgnored + s.counters.imageWrongtype
  {
    var loop := Loop(cap, mask, Initial, items);
    var fin := Finish(cap, loop.final);
    LoopConserves(cap, mask, Initial, items);
    FinishHandsOverGroups(cap, loop.final);
    HandledConcat(loop.effects, fin.effects);
    HandledConcat(loop.effects + fin.effects, [SendClose]);
  }

  // ---------------------------------------------------------------------------
  // Shape of the outbound trace

  /**
   What may stand at position i of the trace before its final messages: no
   Close, no ERROR message, a forwarded result right after the handler call
   that produced it and never empty, a handler call only on a non-empty group.
   */
  predicate BodyOk(e: seq<Effect>, i: int)
    requires 0 <= i < |e|
  {
    match e[i]
    case SendClose => false
    case SendLogging(severity, _) => severity != Error
    case SendImage(images) => |images| > 0 && i > 0 && e[i - 1].IsHandlerCall()
    case HandleAcquisitions(group, _) => |group| > 0
    case HandleImages(group, _) => |group| > 0
  }

  predicate WellFormedBody(e: seq<Effect>) {
    forall i | 0 <= i < |e| :: BodyOk(e, i)
  }

  lemma ConcatWellFormed(a: seq<Effect>, b: seq<Effect>)
    requires WellFormedBody(a) && WellFormedBody(b)
    ensures WellFormedBody(a + b)
  {
    var ab := a + b;
    forall i | 0 <= i < |ab| ensures BodyOk(ab, i) {
      if i < |a| {
        assert BodyOk(a, i);
        assert ab[i] == a[i];
        if i > 0 { assert ab[i - 1] == a[i - 1]; }
      } else {
        var j := i - |a|;
        assert BodyOk(b, j);
        assert ab[i] == b[j];
        if j > 0 { assert ab[i - 1] == b[j - 1]; }
      }
    }
  }

  /**
   A handler call on a non-empty group yields a well-formed piece of trace:
   the call, then the returned images when there are any. A raise leaves the
   call alone and carries the handler's exception text.
   */
  lemma FlushWellFormed(call: Effect, result: HandlerResult)
    requires call.HandleAcquisitions? ==> |call.acquisitions| > 0
    requires call.HandleImages? ==> |call.images| > 0
    requires call.IsHandlerCall()
    ensures var f := Flush(call, result);
            && WellFormedBody(f.effects)
            && f.effects == [call] + Forwarded(result)
            && (result.Raised? ==> f.raised == Some(result.trace))
            && (result.Returned? ==> f.raised.None?)
  {
  }

  /**
   The handler call at position i returned, and what it returned is what
   follows it: its images as the next message when there are any, and no
   image message otherwise.
   */
  predicate Answered(cap: Capability, e: seq<Effect>, i: int)
    requires 0 <= i < |e| && e[i].IsHandlerCall()
  {
    var result := ResultOf(cap, e[i]);
    && result.Returned?
    && (|result.images| > 0 ==> i + 1 < |e| && e[i + 1] == SendImage(result.images))
    && (|result.images| == 0 ==> i + 1 == |e| || !e[i + 1].SendImage?)
  }

  /** Every handler call of a piece of trace returned, and its result follows it as it is sent. */
  predicate AllAnswered(cap: Capability, e: seq<Effect>) {
    forall i | 0 <= i < |e| && e[i].IsHandlerCall() :: Answered(cap, e, i)
  }

  lemma ConcatAnswered(cap: Capability, a: seq<Effect>, b: seq<Effect>)
    requires AllAnswered(cap, a) && AllAnswered(cap, b)
    requires |b| == 0 || !b[0].SendImage?
    ensures AllAnswered(cap, a + b)
  {
    var ab := a + b;
    forall i | 0 <= i < |ab| && ab[i].IsHandlerCall() ensures Answered(cap, ab, i) {
      if i < |a| {
        assert ab[i] == a[i] && Answered(cap, a, i);
        if i + 1 < |a| {
          assert ab[i + 1] == a[i + 1];
        } else if |b| > 0 {
          assert ab[i + 1] == b[0];
        }
      } else {
        assert ab[i] == b[i - |a|] && Answered(cap, b, i - |a|);
        if i + 1 < |ab| {
          assert ab[i + 1] == b[i + 1 - |a|];
        }
      }
    }
  }

  /**
   A piece of trace that ends with the call of a handler that raised with
   this exception text, every earlier call having returned.
   */
  predicate EndsWithRaisingCall(cap: Capability, e: seq<Effect>, trace: string) {
    && |e| > 0 && e[|e| - 1].IsHandlerCall()
    && ResultOf(cap, e[|e| - 1]) == Raised(trace)
    && AllAnswered(cap, e[..|e| - 1])
  }

  /** Running the handler a call names gives an answered piece of trace, or one that ends with that call raising. */
  lemma FlushAnswered(cap: Capability, call: Effect)
    requires call.IsHandlerCall()
    ensures var f := Flush(call, ResultOf(cap, call));
            && (f.raised.None? ==> AllAnswered(cap, f.effects))
            && (f.raised.Some? ==> EndsWithRaisingCall(cap, f.effects, f.raised.value))
  {
    var f := Flush(call, ResultOf(cap, call));
    if f.raised.Some? {
      assert f.effects[..0] == [];
    }
  }

  /**
   Appending a piece of trace to one whose calls all returned: the result is
   answered, or ends with the raising call, as the appended piece is.
   */
  lemma AppendAnswered(cap: Capability, a: seq<Effect>, b: seq<Effect>, raised: Option<string>)
    requires WellFormedBody(a) && AllAnswered(cap, a) && WellFormedBody(b)
    requires raised.None? ==> AllAnswered(cap, b)
    requires raised.Some? ==> EndsWithRaisingCall(cap, b, raised.value)
    ensures WellFormedBody(a + b)
    ensures raised.None? ==> AllAnswered(cap, a + b)
    ensures raised.Some? ==> EndsWithRaisingCall(cap, a + b, raised.value)
  {
    ConcatWellFormed(a, b);
    if |b| > 0 {
      assert BodyOk(b, 0);
    }
    if raised.Some? {
      var ab := a + b;
      var front := b[..|b| - 1];
      assert ab[|ab| - 1] == b[|b| - 1];
      assert ab[..|ab| - 1] == a + front;
      if |front| > 0 {
        assert front[0] == b[0];
      }
      ConcatAnswered(cap, a, front);
    } else {
      ConcatAnswered(cap, a, b);
    }
  }

  lemma StepWellFormed(cap: Capability, mask: Indices, s: State, item: Item)
    requires Inv(s)
    ensures var r := Step(cap, mask, s, item);
            && (r.Continue? ==> WellFormedBody(r.effects) && AllAnswered(cap, r.effects))
            && (r.Raise? ==> WellFormedBody(r.effects) && EndsWithRaisingCall(cap, r.effects, r.trace))
  {
    match item
    case AcquisitionItem(a) =>
      var g := s.acqGroup + [a];
      FlushWellFormed(HandleAcquisitions(g, s.acqCounter), cap.processAcquisition(g, s.acqCounter));
      FlushAnswered(cap, HandleAcquisitions(g, s.acqCounter));
    case ImageItem(im) =>
      if s.imageGroup != [] {
        FlushWellFormed(HandleImages(s.imageGroup, s.imageCounter), cap.processImage(s.imageGroup, s.imageCounter));
        FlushAnswered(cap, HandleImages(s.imageGroup, s.imageCounter));
      } else {
        var k := FromHeader(im.head);
        EqIsEquivalence(mask, k, k, k);
      }
    case WaveformItem(_) =>
    case EndOfData =>
    case Unsupported(_) =>
  }

  /**
   The loop's trace is well formed. If the loop stops, every handler call in
   it returned and is followed by what it returned; if it is aborted, the
   trace ends with the call of the handler whose exception aborted it.
   */
  lemma {:induction false} LoopWellFormed(cap: Capability, mask: Indices, s: State, items: seq<Item>)
    requires Inv(s)
    ensures var r := Loop(cap, mask, s, items);
            && WellFormedBody(r.effects)
            && (r.Aborted? ==> EndsWithRaisingCall(cap, r.effects, r.trace))
            && (r.Stopped? ==> Inv(r.final) && AllAnswered(cap, r.effects))
    decreases |items|
  {
    if |items| > 0 {
      StepWellFormed(cap, mask, s, items[0]);
      StepPreservesInv(cap, mask, s, items[0]);
      match Step(cap, mask, s, items[0])
      case Stop =>
      case Raise(_, _) =>
      case Continue(next, effects) =>
        LoopWellFormed(cap, mask, next, items[1..]);
        var rest := Loop(cap, mask, next, items[1..]);
        AppendAnswered(cap, effects, rest.effects, if rest.Aborted? then Some(rest.trace) else None);
    }
  }

  lemma FinishWellFormed(cap: Capability, s: State)
    ensures var fin := Finish(cap, s);
            && WellFormedBody(fin.effects)
            && (fin.raised.None? ==> AllAnswered(cap, fin.effects))
            && (fin.raised.Some? ==> EndsWithRaisingCall(cap, fin.effects, fin.raised.value))
  {
    var acq := FlushRemainingAcquisitions(cap, s);
    var img := FlushRemainingImages(cap, s);
    if |s.acqGroup| > 0 {
      FlushWellFormed(HandleAcquisitions(s.acqGroup, s.acqCounter), cap.processAcquisition(s.acqGroup, s.acqCounter));
      FlushAnswered(cap, HandleAcquisitions(s.acqGroup, s.acqCounter));
    }
    if |s.imageGroup| > 0 {
      FlushWellFormed(HandleImages(s.imageGroup, s.imageCounter), cap.processImage(s.imageGroup, s.imageCounter));
      FlushAnswered(cap, HandleImages(s.imageGroup, s.imageCounter));
    }
    var reports := Reports(s.counters);
    assert WellFormedBody(reports) && AllAnswered(cap, reports) by {
      forall i | 0 <= i < |reports| ensures BodyOk(reports, i) && !reports[i].IsHandlerCall() {
        assert reports[i] in reports;
      }
    }
    if acq.raised.None? {
      AppendAnswered(cap, acq.effects, img.effects, img.raised);
      if img.raised.None? {
        AppendAnswered(cap, acq.effects + img.effects, reports, None);
      }
    }
  }

  /**
   Every session trace is a well-formed body followed by Close, with an ERROR
   message just before Close exactly when a handler raised. That ERROR
   message carries the handler's exception text, and the body then ends with
   the call of that handler. Every other handler call returned and is
   followed by what it returned.
   */
  lemma SessionSplit(cap: Capability, mask: Indices, items: seq<Item>) returns (body: seq<Effect>, raised: Option<string>)
    ensures WellFormedBody(body)
    ensures raised.None? ==> Session(cap, mask, items) == body + [SendClose] && AllAnswered(cap, body)
    ensures raised.Some? ==>
              Session(cap, mask, items) == body + [SendLogging(Error, raised.value), SendClose]
              && EndsWithRaisingCall(cap, body, raised.value)
  {
    LoopWellFormed(cap, mask, Initial, items);
    match Loop(cap, mask, Initial, items)
    case Aborted(effects, trace) =>
      body, raised := effects, Some(trace);
    case Stopped(s, effects) =>
      var fin := Finish(cap, s);
      FinishWellFormed(cap, s);
      AppendAnswered(cap, effects, fin.effects, fin.raised);
      body, raised := effects + fin.effects, fin.raised;
  }

  /** The trace of a session agrees with its body on the body's positions; images and calls lie only there. */
  lemma BodyPart(body: seq<Effect>, raised: Option<string>, r: seq<Effect>)
    requires raised.None? ==> r == body + [SendClose]
    requires raised.Some? ==> r == body + [SendLogging(Error, raised.value), SendClose]
    ensures forall i | 0 <= i < |body| :: r[i] == body[i]
    ensures forall i | 0 <= i < |r| && (r[i].SendImage? || r[i].IsHandlerCall()) :: i < |body|
  {
  }

  lemma BodyHasNoError(body: seq<Effect>)
    requires WellFormedBody(body)
    ensures forall i | 0 <= i < |body| :: !(body[i].SendLogging? && body[i].severity == Error)
  {
    forall i | 0 <= i < |body| ensures !(body[i].SendLogging? && body[i].severity == Error) {
      assert BodyOk(body, i);
    }
  }

  /** Close is sent exactly once in every session, and it is the last message. */
  lemma SessionClosesOnce(cap: Capability, mask: Indices, items: seq<Item>)
    ensures var r := Session(cap, mask, items);
            && |r| > 0 && r[|r| - 1] == SendClose
            && forall i | 0 <= i < |r| - 1 :: r[i] != SendClose
  {
    var body, raised := SessionSplit(cap, mask, items);
    var r := Session(cap, mask, items);
    forall i | 0 <= i < |r| - 1 ensures r[i] != SendClose {
      if i < |body| {
        assert BodyOk(body, i);
        assert r[i] == body[i];
      }
    }
  }

  /**
   With items read without failure, an ERROR message is sent only right
   after the call of a handler that raised, carrying that handler's exception text, and only Close follows
   it: once a handler raises, no group is handed over any more and no
   report is sent.
   */
  lemma ErrorEndsSession(cap: Capability, mask: Indices, items: seq<Item>)
    ensures var r := Session(cap, mask, items);
            forall i | 0 <= i < |r| && r[i].SendLogging? && r[i].severity == Error ::
              && i == |r| - 2 && i > 0 && r[i - 1].IsHandlerCall()
              && ResultOf(cap, r[i - 1]) == Raised(r[i].text)
  {
    var body, raised := SessionSplit(cap, mask, items);
    var r := Session(cap, mask, items);
    BodyHasNoError(body);
    BodyPart(body, raised, r);
    forall i | 0 <= i < |r| && r[i].SendLogging? && r[i].severity == Error
      ensures i == |r| - 2 && i > 0 && r[i - 1].IsHandlerCall() && ResultOf(cap, r[i - 1]) == Raised(r[i].text)
    {
      assert raised.Some? && i == |body|;
      assert r[i - 1] == body[|body| - 1];
    }
  }

  /**
   Every image message carries exactly what the handler called just before
   it returned, and that result was not empty; handlers are only ever given
   non-empty groups.
   */
  lemma ForwardedResults(cap: Capability, mask: Indices, items: seq<Item>)
    ensures var r := Session(cap, mask, items);
            && (forall i | 0 <= i < |r| && r[i].SendImage? ::
                  && |r[i].sent| > 0 && i > 0 && r[i - 1].IsHandlerCall()
                  && ResultOf(cap, r[i - 1]) == Returned(r[i].sent))
            && (forall i | 0 <= i < |r| && r[i].HandleAcquisitions? :: |r[i].acquisitions| > 0)
            && (forall i | 0 <= i < |r| && r[i].HandleImages? :: |r[i].images| > 0)
  {
    var body, raised := SessionSplit(cap, mask, items);
    var r := Session(cap, mask, items);
    HandlerResultsFollowCalls(cap, mask, items);
    BodyPart(body, raised, r);
    forall i | 0 <= i < |r| && r[i].SendImage?
      ensures |r[i].sent| > 0 && i > 0 && r[i - 1].IsHandlerCall() && ResultOf(cap, r[i - 1]) == Returned(r[i].sent)
    {
      assert BodyOk(body, i);
      assert FollowedByResult(cap, r, i - 1);
    }
    forall i | 0 <= i < |r| && r[i].IsHandlerCall()
      ensures r[i].HandleAcquisitions? ==> |r[i].acquisitions| > 0
      ensures r[i].HandleImages? ==> |r[i].images| > 0
    {
      assert BodyOk(body, i);
    }
  }

  /**
   What follows the handler call at position i of a session trace: the images
   it returned when it returned any, no image message when it returned none,
   and, when it raised, the ERROR message with its exception text, then
   Close, and nothing else.
   */
  predicate FollowedByResult(cap: Capability, r: seq<Effect>, i: int)
    requires 0 <= i < |r| && r[i].IsHandlerCall()
  {
    var result := ResultOf(cap, r[i]);
    && i + 1 < |r|
    && (result.Returned? && |result.images| > 0 ==> r[i + 1] == SendImage(result.images))
    && (result.Returned? && |result.images| == 0 ==> !r[i + 1].SendImage?)
    && (result.Raised? ==> r[i + 1..] == [SendLogging(Error, result.trace), SendClose])
  }

  lemma QuietCallsFollowed(cap: Capability, body: seq<Effect>, r: seq<Effect>)
    requires AllAnswered(cap, body) && r == body + [SendClose]
    ensures forall i | 0 <= i < |r| && r[i].IsHandlerCall() :: FollowedByResult(cap, r, i)
  {
    forall i | 0 <= i < |r| && r[i].IsHandlerCall() ensures FollowedByResult(cap, r, i) {
      assert i < |body| && r[i] == body[i] && Answered(cap, body, i);
      assert r[i + 1] == if i + 1 < |body| then body[i + 1] else SendClose;
    }
  }

  lemma RaisingCallsFollowed(cap: Capability, body: seq<Effect>, trace: string, r: seq<Effect>)
    requires EndsWithRaisingCall(cap, body, trace) && r == body + [SendLogging(Error, trace), SendClose]
    ensures forall i | 0 <= i < |r| && r[i].IsHandlerCall() :: FollowedByResult(cap, r, i)
  {
    var front := body[..|body| - 1];
    var last := |body| - 1;
    assert r[last + 1..] == [SendLogging(Error, trace), SendClose];
    forall i | 0 <= i < |r| && r[i].IsHandlerCall() ensures FollowedByResult(cap, r, i) {
      assert i < |body| && r[i] == body[i];
      if i < last {
        assert front[i] == body[i] && Answered(cap, front, i);
        assert r[i + 1] == body[i + 1];
        assert i + 1 < last ==> front[i + 1] == body[i + 1];
      }
    }
  }

  /**
   Each handler call in a session is followed by what came of it: the images
   it returned when it returned any, no image message when it returned none,
   and, when it raised, the ERROR message with its exception text and then
   Close, and nothing else.
   */
  lemma HandlerResultsFollowCalls(cap: Capability, mask: Indices, items: seq<Item>)
    ensures var r := Session(cap, mask, items);
            forall i | 0 <= i < |r| && r[i].IsHandlerCall() :: FollowedByResult(cap, r, i)
  {
    var body, raised := SessionSplit(cap, mask, items);
    var r := Session(cap, mask, items);
    if raised.Some? {
      RaisingCallsFollowed(cap, body, raised.value, r);
    } else {
      QuietCallsFollowed(cap, body, r);
    }
  }

  /**
   `process` fails before sending anything exactly when `image_collect`
   names a field that is not an index field; otherwise it runs the session,
   which ends with the one Close.
   */
  lemma ProcessOutcome(cap: Capability, items: seq<Item>)
    ensures var r := Process(cap, items);
            var names := cap.settings.imageCollect;
            && (r.Failure? <==> exists i | 0 <= i < |names| :: !IsFieldName(names[i]))
            && (r.Failure? ==> r.error == UnknownFieldsMessage + Join(InvalidNames(names), ", "))
            && (r.Success? ==> |r.value| > 0 && r.value[|r.value| - 1] == SendClose
                               && forall i | 0 <= i < |r.value| - 1 :: r.value[i] != SendClose)
  {
    match FromNames(cap.settings.imageCollect)
    case Failure(e) =>
    case Success(mask) =>
      SessionClosesOnce(cap, mask, items);
  }

  // ---------------------------------------------------------------------------
  // The closing report

  /** No report is sent exactly when all five counters are zero. */
  lemma {:induction false} NoReportIffAllZero(counts: seq<nat>, labels: seq<string>)
    requires |counts| == |labels|
    ensures ReportsFrom(counts, labels) == [] <==> forall i | 0 <= i < |counts| :: counts[i] == 0
  {
    if |counts| > 0 {
      NoReportIffAllZero(counts[1..], labels[1..]);
      assert (forall i | 0 <= i < |counts| :: counts[i] == 0)
         <==> counts[0] == 0 && (forall i | 0 <= i < |counts| - 1 :: counts[1..][i] == 0);
    }
  }

  /** The positions from `from` on whose count is non-zero, in increasing order. */
  function NonZeroFrom(counts: seq<nat>, from: nat): (r: seq<nat>)
    requires from <= |counts|
    ensures forall k | 0 <= k < |r| :: from <= r[k] < |counts| && counts[r[k]] != 0
    ensures forall k, l | 0 <= k < l < |r| :: r[k] < r[l]
    ensures forall i | from <= i < |counts| && counts[i] != 0 :: i in r
    decreases |counts| - from
  {
    if from == |counts| then []
    else (if counts[from] != 0 then [from] else []) + NonZeroFrom(counts, from + 1)
  }

  /**
   The report from position `from` on: for each non-zero count, in list
   order, one INFO message with that count and its label.
   */
  lemma {:induction false} ReportsFromInOrder(counts: seq<nat>, labels: seq<string>, from: nat)
    requires |counts| == |labels| && from <= |counts|
    ensures var r := ReportsFrom(counts[from..], labels[from..]);
            var idx := NonZeroFrom(counts, from);
            && |r| == |idx|
            && forall k | 0 <= k < |r| :: r[k] == SendLogging(Info, ReportText(counts[idx[k]], labels[idx[k]]))
    decreases |counts| - from
  {
    if from < |counts| {
      ReportsFromInOrder(counts, labels, from + 1);
      assert counts[from..][1..] == counts[from + 1..];
      assert labels[from..][1..] == labels[from + 1..];
    }
  }

  /**
   The closing report: one INFO message per non-zero counter, in the order
   acq_ignored, acq_wrongtype, image_ignored, image_wrongtype,
   waveform_ignored, each with its count and its label.
   */
  lemma ReportsInOrder(c: Counters)
    ensures var r := Reports(c);
            var idx := NonZeroFrom(CounterValues(c), 0);
            && |r| == |idx|
            && forall k | 0 <= k < |r| ::
                 r[k] == SendLogging(Info, ReportText(CounterValues(c)[idx[k]], ReportLabels[idx[k]]))
  {
    var counts := CounterValues(c);
    ReportsFromInOrder(counts, ReportLabels, 0);
    assert counts[0..] == counts && ReportLabels[0..] == ReportLabels;
  }

  /** The digits at the head of a string. */
  function LeadingDigits(s: string): (r: string)
    ensures AllDigits(r) && |r| <= |s| && r == s[..|r|]
  {
    if |s| > 0 && IsDigit(s[0]) then [s[0]] + LeadingDigits(s[1..]) else []
  }

  lemma {:induction false} LeadingDigitsOfNumber(d: string, rest: string)
    requires AllDigits(d)
    requires |rest| > 0 && !IsDigit(rest[0])
    ensures LeadingDigits(d + rest) == d
  {
    if |d| > 0 {
      assert (d + rest)[1..] == d[1..] + rest;
      LeadingDigitsOfNumber(d[1..], rest);
      assert d == [d[0]] + d[1..];
    } else {
      assert d + rest == rest;
    }
  }

  /** Reads the count back out of a report message. */
  function ReportedCount(text: string): Option<nat> {
    if |text| >= |ReportPrefix| && text[..|ReportPrefix|] == ReportPrefix then
      Some(DigitsValue(LeadingDigits(text[|ReportPrefix|..])))
    else None
  }

  /** The count a report message carries can be read back from its text. */
  lemma ReportCountRoundTrip(count: nat, kind: string)
    ensures ReportedCount(ReportText(count, kind)) == Some(count)
  {
    var digits := NatToString(count);
    var rest := " instances of " + kind + ", which were ignored by this analysis";
    var text := ReportText(count, kind);
    assert text == ReportPrefix + (digits + rest);
    assert text[|ReportPrefix|..] == digits + rest;
    LeadingDigitsOfNumber(digits, rest);
    DigitsValueOfNatToString(count);
  }
}
