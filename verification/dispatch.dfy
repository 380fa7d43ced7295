/**
 The dispatch engine of `process` in config/__init__.py, as a pure fold over
 the inbound stream.

 The engine keeps an acquisition group, an image group and a waveform group,
 a counter per processed acquisition group and per processed image group, the
 key of the current image group and five counters of dropped records. Each
 item either changes that state or makes the engine run a handler of the
 configuration on a group. The observable behaviour is a trace of effects:
 the handler calls (with the group and counter they are given) and the
 messages the engine sends back over the connection.
 */
module Dispatch {
  import opened Wrappers
  import opened Text
  import opened Mrd
  import opened ImageIndices
  import opened Config

  datatype Effect =
    | HandleAcquisitions(acquisitions: seq<Acquisition>, index: nat)
    | HandleImages(images: seq<Image>, index: nat)
    | SendImage(sent: seq<Image>)
    | SendLogging(severity: Severity, text: string)
    | SendClose
  {
    /** A call of one of the configuration's handlers (not a message sent). */
    predicate IsHandlerCall() {
      HandleAcquisitions? || HandleImages?
    }
  }

  datatype Counters = Counters(
    acqIgnored: nat,
    acqWrongtype: nat,
    imageIgnored: nat,
    imageWrongtype: nat,
    waveformIgnored: nat)

  datatype State = State(
    acqGroup: seq<Acquisition>,
    acqCounter: nat,
    imageGroup: seq<Image>,
    imageCounter: nat,
    imageKey: Option<Indices>,
    waveformGroup: seq<Waveform>,
    counters: Counters)

  const Initial: State := State([], 0, [], 0, None, [], Counters(0, 0, 0, 0, 0))

  /** The outcome of running a handler: the effects, and the exception text if it raised. */
  datatype Flushed = Flushed(effects: seq<Effect>, raised: Option<string>)

  /**
   Runs a handler on a group: the call, then the returned value sent with
   `send_image` only when it is truthy (a non-empty list).
   */
  function Flush(call: Effect, result: HandlerResult): (r: Flushed)
    requires call.IsHandlerCall()
    ensures |r.effects| > 0 && r.effects[0] == call
    ensures forall i | 1 <= i < |r.effects| :: !r.effects[i].IsHandlerCall()
    ensures r.raised.Some? <==> result.Raised?
  {
    match result
    case Raised(trace) => Flushed([call], Some(trace))
    case Returned(images) =>
      Flushed([call] + (if |images| > 0 then [SendImage(images)] else []), None)
  }

  datatype StepResult =
    | Continue(next: State, effects: seq<Effect>)
    | Stop
    | Raise(effects: seq<Effect>, trace: string)

  /** The Acquisition branch of the loop. */
  function AcquisitionStep(cap: Capability, s: State, a: Acquisition): (r: StepResult)
    ensures !r.Stop?
    ensures r.Continue? ==>
              && r.next.imageGroup == s.imageGroup && r.next.imageCounter == s.imageCounter
              && r.next.imageKey == s.imageKey && r.next.waveformGroup == s.waveformGroup
              && r.next.counters.imageIgnored == s.counters.imageIgnored
              && r.next.counters.imageWrongtype == s.counters.imageWrongtype
              && r.next.counters.waveformIgnored == s.counters.waveformIgnored
              && s.acqCounter <= r.next.acqCounter
  {
    var settings := cap.settings;
    if !settings.keepAcq then
      Continue(s.(counters := s.counters.(acqIgnored := s.counters.acqIgnored + 1)), [])
    else if AnyFlagSet(a.head.flags, settings.acqIgnore) then
      Continue(s.(counters := s.counters.(acqWrongtype := s.counters.acqWrongtype + 1)), [])
    else
      var group := s.acqGroup + [a];
      if AnyFlagSet(a.head.flags, settings.acqTrigger) then
        var f := Flush(HandleAcquisitions(group, s.acqCounter), cap.processAcquisition(group, s.acqCounter));
        match f.raised
        case Some(trace) => Raise(f.effects, trace)
        case None => Continue(s.(acqGroup := [], acqCounter := s.acqCounter + 1), f.effects)
      else
        Continue(s.(acqGroup := group), [])
  }

  /** The Image branch of the loop. */
  function ImageStep(cap: Capability, mask: Indices, s: State, im: Image): (r: StepResult)
    ensures !r.Stop?
    ensures r.Continue? ==>
              && r.next.acqGroup == s.acqGroup && r.next.acqCounter == s.acqCounter
              && r.next.waveformGroup == s.waveformGroup
              && r.next.counters.acqIgnored == s.counters.acqIgnored
              && r.next.counters.acqWrongtype == s.counters.acqWrongtype
              && r.next.counters.waveformIgnored == s.counters.waveformIgnored
              && s.imageCounter <= r.next.imageCounter
  {
    var settings := cap.settings;
    if !settings.keepImage then
      Continue(s.(counters := s.counters.(imageIgnored := s.counters.imageIgnored + 1)), [])
    else if im.head.imageType !in settings.imageSelect then
      Continue(s.(counters := s.counters.(imageWrongtype := s.counters.imageWrongtype + 1)), [])
    else
      var key := FromHeader(im.head);
      var current := if s.imageKey.None? then key else s.imageKey.value;
      if Ne(mask, key, current) then
        var f := Flush(HandleImages(s.imageGroup, s.imageCounter), cap.processImage(s.imageGroup, s.imageCounter));
        match f.raised
        case Some(trace) => Raise(f.effects, trace)
        case None =>
          Continue(s.(imageGroup := [im], imageCounter := s.imageCounter + 1, imageKey := Some(key)), f.effects)
      else
        Continue(s.(imageGroup := s.imageGroup + [im], imageKey := Some(current)), [])
  }

  /** The Waveform branch of the loop: waveforms are kept or counted, never handled. */
  function WaveformStep(settings: Settings, s: State, w: Waveform): (r: State)
    ensures r == s.(waveformGroup := r.waveformGroup, counters := r.counters)
    ensures r.counters == s.counters.(waveformIgnored := r.counters.waveformIgnored)
    ensures |r.waveformGroup| + r.counters.waveformIgnored == |s.waveformGroup| + s.counters.waveformIgnored + 1
  {
    if settings.keepWaveform then s.(waveformGroup := s.waveformGroup + [w])
    else s.(counters := s.counters.(waveformIgnored := s.counters.waveformIgnored + 1))
  }

  /** One pass of the `for item in connection` loop. */
  function Step(cap: Capability, mask: Indices, s: State, item: Item): (r: StepResult)
    ensures r.Stop? <==> item.EndOfData?
    ensures r.Raise? ==> item.AcquisitionItem? || item.ImageItem?
    ensures !(item.AcquisitionItem? || item.ImageItem?) ==> r.Stop? || r.effects == []
    ensures r.Continue? ==> s.acqCounter <= r.next.acqCounter && s.imageCounter <= r.next.imageCounter
  {
    match item
    case AcquisitionItem(a) => AcquisitionStep(cap, s, a)
    case ImageItem(im) => ImageStep(cap, mask, s, im)
    case WaveformItem(w) => Continue(WaveformStep(cap.settings, s, w), [])
    case EndOfData => Stop
    case Unsupported(_) => Continue(s, [])  // logged locally and skipped
  }

  datatype LoopResult =
    | Stopped(final: State, effects: seq<Effect>)
    | Aborted(effects: seq<Effect>, trace: string)
  {
    function Prepend(e: seq<Effect>): LoopResult {
      match this
      case Stopped(s, f) => Stopped(s, e + f)
      case Aborted(f, t) => Aborted(e + f, t)
    }
  }

  /**
   The loop over the stream: it stops at the end marker or when the stream is
   exhausted, and is aborted by a handler that raises.
   */
  function Loop(cap: Capability, mask: Indices, s: State, items: seq<Item>): (r: LoopResult)
    ensures r.Stopped? ==> s.acqCounter <= r.final.acqCounter && s.imageCounter <= r.final.imageCounter
    decreases |items|
  {
    if |items| == 0 then Stopped(s, [])
    else
      match Step(cap, mask, s, items[0])
      case Stop => Stopped(s, [])
      case Raise(effects, trace) => Aborted(effects, trace)
      case Continue(next, effects) => Loop(cap, mask, next, items[1..]).Prepend(effects)
  }

  const ReportLabels: seq<string> :=
    ["ismrmrd.Acquisition",
     "ismrmrd.Acquisition of ignored types",
     "ismrmrd.Image",
     "ismrmrd.Image of incompatible datatypes",
     "ismrmrd.Waveform"]

  function CounterValues(c: Counters): seq<nat> {
    [c.acqIgnored, c.acqWrongtype, c.imageIgnored, c.imageWrongtype, c.waveformIgnored]
  }

  const ReportPrefix: string := "Received "

  function ReportText(count: nat, kind: string): string {
    ReportPrefix + NatToString(count) + " instances of " + kind + ", which were ignored by this analysis"
  }

  function NonZero(counts: seq<nat>): nat {
    if |counts| == 0 then 0 else (if counts[0] != 0 then 1 else 0) + NonZero(counts[1..])
  }

  /** One INFO message for each non-zero count, in list order. */
  function ReportsFrom(counts: seq<nat>, labels: seq<string>): (r: seq<Effect>)
    requires |counts| == |labels|
    ensures |r| == NonZero(counts)
    ensures forall e | e in r :: e.SendLogging? && e.severity == Info
  {
    if |counts| == 0 then []
    else
      (if counts[0] != 0 then [SendLogging(Info, ReportText(counts[0], labels[0]))] else [])
      + ReportsFrom(counts[1..], labels[1..])
  }

  /** The closing report of dropped records. */
  function Reports(c: Counters): seq<Effect> {
    ReportsFrom(CounterValues(c), ReportLabels)
  }

  /** Processes a group left over at the end of the stream, if it is non-empty. */
  function FlushRemainingAcquisitions(cap: Capability, s: State): Flushed {
    if |s.acqGroup| > 0 then
      Flush(HandleAcquisitions(s.acqGroup, s.acqCounter), cap.processAcquisition(s.acqGroup, s.acqCounter))
    else Flushed([], None)
  }

  function FlushRemainingImages(cap: Capability, s: State): Flushed {
    if |s.imageGroup| > 0 then
      Flush(HandleImages(s.imageGroup, s.imageCounter), cap.processImage(s.imageGroup, s.imageCounter))
    else Flushed([], None)
  }

  /**
   After the loop: the remaining acquisition group, then the remaining image
   group, then the report. A handler that raises cuts the rest short.
   */
  function Finish(cap: Capability, s: State): (r: Flushed)
    ensures r.raised.None? ==>
              |Reports(s.counters)| <= |r.effects|
              && r.effects[|r.effects| - |Reports(s.counters)|..] == Reports(s.counters)
    ensures r.raised.Some? ==> forall i | 0 <= i < |r.effects| :: !r.effects[i].SendLogging?
  {
    var acq := FlushRemainingAcquisitions(cap, s);
    if acq.raised.Some? then acq
    else
      var img := FlushRemainingImages(cap, s);
      if img.raised.Some? then Flushed(acq.effects + img.effects, img.raised)
      else Flushed(acq.effects + img.effects + Reports(s.counters), None)
  }

  /**
   The body of `process` from the loop on, with the comparison mask given:
   whatever happens, an exception is reported as an ERROR message and Close
   is sent last.
   */
  function Session(cap: Capability, mask: Indices, items: seq<Item>): (r: seq<Effect>)
    ensures |r| > 0 && r[|r| - 1] == SendClose
  {
    match Loop(cap, mask, Initial, items)
    case Aborted(effects, trace) => effects + [SendLogging(Error, trace), SendClose]
    case Stopped(s, effects) =>
      var fin := Finish(cap, s);
      match fin.raised
      case None => effects + fin.effects + [SendClose]
      case Some(trace) => effects + fin.effects + [SendLogging(Error, trace), SendClose]
  }

  /**
   `process` for a resolved configuration. Building the mask from
   `image_collect` happens before the guarded block, so an unknown field name
   ends the call with the ImportError and nothing is sent, not even Close.
   */
  function Process(cap: Capability, items: seq<Item>): (r: Result<seq<Effect>>)
    ensures r.Failure? <==> exists i | 0 <= i < |cap.settings.imageCollect| :: !IsFieldName(cap.settings.imageCollect[i])
    ensures r.Success? ==> |r.value| > 0 && r.value[|r.value| - 1] == SendClose
  {
    match FromNames(cap.settings.imageCollect)
    case Failure(e) => Failure(e)
    case Success(mask) => Success(Session(cap, mask, items))
  }
}
