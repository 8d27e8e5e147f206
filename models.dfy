/**
 * The document model of an mzML run (src/models.rs), the error values the
 * parser can return, and the external collaborators it calls.
 */
module Models {
  import opened Wrappers

  /** An octet. */
  type Byte = b: int | 0 <= b < 0x100

  type Bytes = seq<Byte>

  /** Rust's `usize` on a 64-bit target. */
  type Usize = n: nat | n < 0x1_0000_0000_0000_0000

  /** The bit pattern of an IEEE 754 binary32 value (`f32`). */
  type F32Bits = n: nat | n < 0x1_0000_0000

  /** The bit pattern of an IEEE 754 binary64 value (`f64`). */
  type F64Bits = n: nat | n < 0x1_0000_0000_0000_0000

  /** A controlled-vocabulary annotation: three mandatory strings, four optional ones. */
  datatype CvParam = CvParam(
    cvRef: string,
    accession: string,
    name: string,
    value: Option<string>,
    unitName: Option<string>,
    unitAccession: Option<string>,
    unitCvRef: Option<string>)

  datatype ScanWindow = ScanWindow(cvParams: seq<CvParam>)

  datatype Scan = Scan(cvParams: seq<CvParam>, scanWindows: seq<ScanWindow>)

  datatype ScanList = ScanList(count: Usize, cvParams: seq<CvParam>, scans: seq<Scan>)

  /** One encoded numeric array; `decodedData` holds the `f32` bit patterns once decoded. */
  datatype BinaryDataArray = BinaryDataArray(
    encodedLength: Usize,
    cvParams: seq<CvParam>,
    decodedData: Option<seq<F32Bits>>)

  datatype Spectrum = Spectrum(
    id: string,
    index: Usize,
    defaultArrayLength: Usize,
    cvParams: seq<CvParam>,
    scanList: Option<ScanList>,
    binaryDataArrays: seq<BinaryDataArray>)

  datatype Run = Run(id: string, startTime: string, spectra: seq<Spectrum>)

  /**
   * The distinct failures behind the single `anyhow::Error` of the source,
   * one per place an error is raised.
   */
  datatype Error =
    | MissingAttribute(attrName: string)   // get_attr
    | InvalidInteger(text: string)         // str::parse::<usize>
    | Base64Failed                         // "Failed to decode Base64"
    | ZlibFailed                           // read_to_end of the zlib decoder
    | LinearFailed                         // "Failed to decode linear"
    | SlofFailed                           // "Failed to decode slof"
    | UnknownPrecision(tag: string)        // "Unknown precision: {}"
    | ReadTextFailed                       // Reader::read_text
    | NoRunElement                         // "No <run> element found in the mzML file"

  /**
   * The library code the core calls but does not implement, as total
   * functions: `None` stands for the library's error return.
   */
  datatype Externals = Externals(
    base64Decode: string -> Option<Bytes>,
    zlibInflate: Bytes -> Option<Bytes>,
    numpressLinear: Bytes -> Option<Bytes>,
    numpressSlof: Bytes -> Option<Bytes>,
    narrowToF32: F64Bits -> F32Bits,     // `f64 as f32`
    utf8Lossy: Bytes -> string)          // `String::from_utf8_lossy`
}
