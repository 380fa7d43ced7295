/**
 What a configuration ("capability") declares to the dispatch engine: its
 `Settings` record and its two handlers. Resolving a configuration by name
 (file-system probing, dynamic import, the fallback configuration) happens
 before dispatch and is an input here.
 */
module Config {
  import opened Mrd

  /**
   The `Settings` namedtuple.
   - keepAcq / keepImage / keepWaveform: retain records of that kind;
   - acqIgnore: acquisition flags that make an acquisition be dropped;
   - acqTrigger: acquisition flags that make the acquisition group be processed;
   - imageSelect: image types that are retained;
   - imageCollect: image index fields whose changes do NOT split image groups.
   */
  datatype Settings = Settings(
    keepAcq: bool,
    keepImage: bool,
    keepWaveform: bool,
    acqIgnore: seq<Flag>,
    acqTrigger: seq<Flag>,
    imageSelect: seq<int>,
    imageCollect: seq<string>)

  /** `any(item.is_flag_set(flag) for flag in list)`. */
  predicate AnyFlagSet(flags: set<Flag>, list: seq<Flag>) {
    exists i | 0 <= i < |list| :: list[i] in flags
  }

  /**
   What a handler call produced: the value it returned (a list of images; a
   single returned image is a one-element list, `None` the empty list), or the
   text of the exception it raised.
   */
  datatype HandlerResult = Returned(images: seq<Image>) | Raised(trace: string)

  /**
   A resolved configuration. The handlers receive the group and its counter;
   the connection and the session metadata they also receive in the source are
   fixed for a session and so are folded into the functions.
   */
  datatype Capability = Capability(
    settings: Settings,
    processAcquisition: (seq<Acquisition>, nat) -> HandlerResult,
    processImage: (seq<Image>, nat) -> HandlerResult)

  /** SETTINGS of the invertcontrast configuration. */
  const InvertContrastSettings: Settings :=
    Settings(true, true, false,
             [ACQ_IS_NOISE_MEASUREMENT, ACQ_IS_PARALLEL_CALIBRATION,
              ACQ_IS_PHASECORR_DATA, ACQ_IS_NAVIGATION_DATA],
             [ACQ_LAST_IN_SLICE],
             [IMTYPE_MAGNITUDE, 0],
             ["slice"])

  /** SETTINGS of the saveall configuration. */
  const SaveAllSettings: Settings :=
    Settings(true, true, false,
             [],
             [ACQ_LAST_IN_SLICE],
             [IMTYPE_MAGNITUDE, IMTYPE_PHASE, IMTYPE_REAL, IMTYPE_IMAG, IMTYPE_COMPLEX],
             ["slice"])

  /** SETTINGS of the report configuration: only a change of series splits image groups. */
  const ReportSettings: Settings :=
    Settings(true, true, true,
             [],
             [ACQ_LAST_IN_SLICE],
             [0, IMTYPE_MAGNITUDE, IMTYPE_PHASE, IMTYPE_REAL, IMTYPE_IMAG, IMTYPE_COMPLEX],
             ["measurement_uid", "average", "slice", "contrast", "phase",
              "repetition", "set", "image_type"])
}
