/**
 The MRD (ISMRMRD) records that travel through the server: raw acquisitions,
 reconstructed images and physiological waveforms, reduced to the header
 fields the server reads or writes. Payloads are kept as plain sequences; the
 numerics that produce them are not modelled.

 The 64-bit `flags` word of a header is represented by the set of flag numbers
 whose bit is set, so `is_flag_set(f)` is `f in flags`.
 */
module Mrd {

  /** An ISMRMRD flag number; flag f lives in bit f - 1 of a 64-bit word. */
  type Flag = f: nat | 1 <= f <= 64 witness 1

  // Acquisition flags used by the shipped configurations (ISMRMRD numbering).
  const ACQ_LAST_IN_SLICE: Flag := 8
  const ACQ_IS_NOISE_MEASUREMENT: Flag := 19
  const ACQ_IS_PARALLEL_CALIBRATION: Flag := 20
  const ACQ_IS_NAVIGATION_DATA: Flag := 23
  const ACQ_IS_PHASECORR_DATA: Flag := 24

  // Image types (ISMRMRD numbering).
  const IMTYPE_MAGNITUDE: int := 1
  const IMTYPE_PHASE: int := 2
  const IMTYPE_REAL: int := 3
  const IMTYPE_IMAG: int := 4
  const IMTYPE_COMPLEX: int := 5

  /** A three-component float vector (position, direction cosines, ...). */
  datatype Vec3 = Vec3(x: real, y: real, z: real)

  datatype Complex = Complex(re: real, im: real)

  /** The `idx` block of an acquisition header. */
  datatype EncodingCounters = EncodingCounters(
    kspaceEncodeStep1: int,
    kspaceEncodeStep2: int,
    average: int,
    slice: int,
    contrast: int,
    phase: int,
    repetition: int,
    setIndex: int,
    segment: int,
    user: seq<int>)

  datatype AcquisitionHeader = AcquisitionHeader(
    version: int,
    flags: set<Flag>,
    measurementUid: int,
    scanCounter: int,
    acquisitionTimeStamp: int,
    physiologyTimeStamp: seq<int>,
    numberOfSamples: int,
    activeChannels: int,
    position: Vec3,
    readDir: Vec3,
    phaseDir: Vec3,
    sliceDir: Vec3,
    patientTablePosition: Vec3,
    idx: EncodingCounters,
    userInt: seq<int>,
    userFloat: seq<real>)

  datatype ImageHeader = ImageHeader(
    version: int,
    dataType: int,
    flags: set<Flag>,
    measurementUid: int,
    matrixSize: seq<int>,
    fieldOfView: Vec3,
    channels: int,
    position: Vec3,
    readDir: Vec3,
    phaseDir: Vec3,
    sliceDir: Vec3,
    patientTablePosition: Vec3,
    average: int,
    slice: int,
    contrast: int,
    phase: int,
    repetition: int,
    setIndex: int,
    acquisitionTimeStamp: int,
    physiologyTimeStamp: seq<int>,
    imageType: int,
    imageIndex: int,
    imageSeriesIndex: int,
    userInt: seq<int>,
    userFloat: seq<real>)

  datatype WaveformHeader = WaveformHeader(
    version: int,
    flags: set<Flag>,
    measurementUid: int,
    scanCounter: int,
    timeStamp: int,
    numberOfSamples: int,
    channels: int,
    waveformId: int)

  datatype Acquisition = Acquisition(head: AcquisitionHeader, data: seq<Complex>)

  /** An image: header, pixel data and the serialized meta attributes. */
  datatype Image = Image(head: ImageHeader, data: seq<real>, attribute: string)

  datatype Waveform = Waveform(head: WaveformHeader, data: seq<int>)

  /**
   One element of the inbound stream: a record, the `None` end marker, or an
   object of any other type (named by its Python type name). Every element is
   read without failure: the stream has no case for a read that raises.
   */
  datatype Item =
    | AcquisitionItem(acquisition: Acquisition)
    | ImageItem(image: Image)
    | WaveformItem(waveform: Waveform)
    | EndOfData
    | Unsupported(typeName: string)

  /** Severity of an MRD logging message. */
  datatype Severity = Debug | Info | Warning | Error
}
