/**
 * The mzML document walker (`parse_mzml`, src/lib.rs): a single pass over the
 * tokenizer's events that fills eight local slots and returns the run.
 */
module Walker {
  import opened Wrappers
  import opened Models
  import opened Utils
  import opened Decoding

  /**
   * What the tokenizer yields. On a `Start`, `text` is what `read_text` would
   * return for that element (its enclosed text, or `None` when reading it
   * fails); the walker asks for it only on an open `binary` element.
   */
  datatype Event =
    | Start(name: string, attrs: seq<Attribute>, text: Option<string>)
    | End(name: string)
    | Empty(name: string, attrs: seq<Attribute>)
    | Text(content: string)
    | Other                       // comments, CDATA, declarations, processing instructions
    | Eof
    | ReaderError                 // `read_event_into` returned `Err`

  /** Events on which the `while let Ok(..)` loop ends. */
  predicate IsStop(ev: Event) {
    ev.Eof? || ev.ReaderError?
  }

  // ---------------------------------------------------------------------------
  // Compression and precision hints
  // ---------------------------------------------------------------------------

  /** `part` occurs in `s` starting at offset `i`. */
  predicate OccursAt(s: string, part: string, i: int) {
    0 <= i <= |s| - |part| && s[i .. i + |part|] == part
  }

  /** `str::contains`: `part` occurs in `s` at some offset. */
  predicate Contains(s: string, part: string) {
    exists i :: 0 <= i <= |s| && OccursAt(s, part, i)
  }

  /** Index `i` holds the first cv param whose name satisfies `wanted`. */
  predicate IsFirstNamed(ps: seq<CvParam>, wanted: string -> bool, i: int) {
    0 <= i < |ps| && wanted(ps[i].name) &&
    forall j :: 0 <= j < i ==> !wanted(ps[j].name)
  }

  /** `find_map` over cv params: the name of the first one whose name satisfies `wanted`. */
  function FindName(ps: seq<CvParam>, wanted: string -> bool): (r: Option<string>)
    ensures r.None? <==> forall i :: 0 <= i < |ps| ==> !wanted(ps[i].name)
    ensures r.Some? ==> exists i :: IsFirstNamed(ps, wanted, i) && r.value == ps[i].name
  {
    if ps == [] then None
    else if wanted(ps[0].name) then
      assert IsFirstNamed(ps, wanted, 0);
      Some(ps[0].name)
    else
      var rest := FindName(ps[1..], wanted);
      assert rest.Some? ==> exists i :: IsFirstNamed(ps, wanted, i) && rest.value == ps[i].name by {
        if rest.Some? {
          var k :| IsFirstNamed(ps[1..], wanted, k) && rest.value == ps[1..][k].name;
          assert IsFirstNamed(ps, wanted, k + 1) by {
            forall j | 0 <= j < k + 1 ensures !wanted(ps[j].name) {
              if j > 0 { assert ps[j] == ps[1..][j - 1]; }
            }
          }
        }
      }
      assert rest.None? ==> forall i :: 0 <= i < |ps| ==> !wanted(ps[i].name) by {
        if rest.None? {
          forall i | 0 <= i < |ps| ensures !wanted(ps[i].name) {
            if i > 0 { assert ps[i] == ps[1..][i - 1]; }
          }
        }
      }
      rest
  }

  predicate NamesCompression(name: string) {
    Contains(name, "compression")
  }

  predicate NamesPrecision(name: string) {
    Contains(name, "32-bit") || Contains(name, "64-bit")
  }

  /** The name of the first cv param whose name contains "compression". */
  function CompressionHint(ps: seq<CvParam>): (r: Option<string>)
    ensures r.None? <==> forall i :: 0 <= i < |ps| ==> !NamesCompression(ps[i].name)
    ensures r.Some? ==> NamesCompression(r.value)
  {
    FindName(ps, NamesCompression)
  }

  /** The name of the first cv param whose name contains "32-bit" or "64-bit". */
  function PrecisionHint(ps: seq<CvParam>): (r: Option<string>)
    ensures r.None? <==> forall i :: 0 <= i < |ps| ==> !NamesPrecision(ps[i].name)
    ensures r.Some? ==> NamesPrecision(r.value)
  {
    FindName(ps, NamesPrecision)
  }

  // ---------------------------------------------------------------------------
  // The walker's context and one step of the event loop
  // ---------------------------------------------------------------------------

  /** The local slots of `parse_mzml` (the event buffer aside). */
  datatype Ctx = Ctx(
    run: Option<Run>,
    spectra: seq<Spectrum>,
    spectrum: Option<Spectrum>,
    cvParams: seq<CvParam>,
    scanList: Option<ScanList>,
    scan: Option<Scan>,
    scanWindow: Option<ScanWindow>,
    dataArray: Option<BinaryDataArray>)

  const Initial := Ctx(None, [], None, [], None, None, None, None)

  /** The outcome of one loop iteration: go on, leave the loop, or return an error. */
  datatype Next = Continue(ctx: Ctx) | Stop(ctx: Ctx) | Abort(error: Error)

  /** The `Run` built on `<run>`: attributes `id` then `startTimeStamp`. */
  function OpenRun(lossy: Bytes -> string, attrs: seq<Attribute>): (r: Result<Run, Error>)
    ensures r.Ok? ==> r.value.spectra == []
    ensures r.Err? ==> r.error == MissingAttribute("id") || r.error == MissingAttribute("startTimeStamp")
  {
    var id :- GetAttr(lossy, attrs, "id");
    var startTime :- GetAttr(lossy, attrs, "startTimeStamp");
    Ok(Run(id, startTime, []))
  }

  /** The `Spectrum` built on `<spectrum>`: `id`, then `index` and `defaultArrayLength` as `usize`. */
  function OpenSpectrum(lossy: Bytes -> string, attrs: seq<Attribute>): (r: Result<Spectrum, Error>)
    ensures r.Ok? ==> r.value.cvParams == [] && r.value.scanList.None? && r.value.binaryDataArrays == []
    ensures r.Err? ==> r.error.MissingAttribute? || r.error.InvalidInteger?
  {
    var id :- GetAttr(lossy, attrs, "id");
    var indexText :- GetAttr(lossy, attrs, "index");
    var index :- ParseUsize(indexText);
    var lengthText :- GetAttr(lossy, attrs, "defaultArrayLength");
    var length :- ParseUsize(lengthText);
    Ok(Spectrum(id, index, length, [], None, []))
  }

  /** The `BinaryDataArray` built on `<binaryDataArray>`: `encodedLength` as `usize`. */
  function OpenBinaryDataArray(lossy: Bytes -> string, attrs: seq<Attribute>): (r: Result<BinaryDataArray, Error>)
    ensures r.Ok? ==> r.value.cvParams == [] && r.value.decodedData.None?
    ensures r.Err? ==> r.error == MissingAttribute("encodedLength") || r.error.InvalidInteger?
  {
    var lengthText :- GetAttr(lossy, attrs, "encodedLength");
    var length :- ParseUsize(lengthText);
    Ok(BinaryDataArray(length, [], None))
  }

  /** The open array after its `<binary>` text is read and decoded with the hints from its cv params. */
  function DecodeInto(ext: Externals, arr: BinaryDataArray, text: Option<string>): (r: Result<BinaryDataArray, Error>)
    ensures text.None? ==> r == Err(ReadTextFailed)
    ensures r.Ok? ==> r.value.decodedData.Some? && r.value.(decodedData := arr.decodedData) == arr
    ensures text.Some? ==>
      var d := DecodeBinaryData(ext, text.value, CompressionHint(arr.cvParams),
                                PrecisionHint(arr.cvParams).GetOr("32-bit float"));
      (d.Ok? ==> r == Ok(arr.(decodedData := Some(d.value)))) &&
      (d.Err? ==> r == Err(d.error))
  {
    var encoded :- text.ToResult(ReadTextFailed);
    var compression := CompressionHint(arr.cvParams);
    var precision := PrecisionHint(arr.cvParams).GetOr("32-bit float");
    var decoded :- DecodeBinaryData(ext, encoded, compression, precision);
    Ok(arr.(decodedData := Some(decoded)))
  }

  /** `Some(x)` turned into `Continue` with `update(x)`, an error into `Abort`. */
  function Then<T>(r: Result<T, Error>, update: T -> Ctx): Next {
    match r
    case Ok(x) => Continue(update(x))
    case Err(e) => Abort(e)
  }

  /** One iteration of the event loop. */
  function Step(ext: Externals, ctx: Ctx, ev: Event): (next: Next)
    ensures next.Stop? <==> IsStop(ev)
    ensures next.Stop? ==> next.ctx == ctx
    ensures next.Abort? ==> ev.Start?
    ensures !next.Abort? ==>
      next.ctx.scanList == ctx.scanList && next.ctx.scan == ctx.scan && next.ctx.scanWindow == ctx.scanWindow &&
      ctx.spectra <= next.ctx.spectra && |next.ctx.spectra| <= |ctx.spectra| + 1
  {
    match ev
    case Start(name, attrs, text) =>
      if name == "run" then
        Then(OpenRun(ext.utf8Lossy, attrs), r => ctx.(run := Some(r)))
      else if name == "spectrum" then
        Then(OpenSpectrum(ext.utf8Lossy, attrs), s => ctx.(spectrum := Some(s)))
      else if name == "binaryDataArray" then
        Then(OpenBinaryDataArray(ext.utf8Lossy, attrs), a => ctx.(dataArray := Some(a)))
      else if name == "binary" && ctx.dataArray.Some? then
        Then(DecodeInto(ext, ctx.dataArray.value, text), a => ctx.(dataArray := Some(a)))
      else
        Continue(ctx)
    case End(name) =>
      if name == "spectrum" && ctx.spectrum.Some? then
        var closed := ctx.spectrum.value.(cvParams := ctx.cvParams);
        Continue(ctx.(spectrum := None, spectra := ctx.spectra + [closed], cvParams := []))
      else if name == "binaryDataArray" && ctx.dataArray.Some? then
        var owner := match ctx.spectrum
          case Some(s) => Some(s.(binaryDataArrays := s.binaryDataArrays + [ctx.dataArray.value]))
          case None => None;
        Continue(ctx.(dataArray := None, spectrum := owner))
      else if name == "run" && ctx.run.Some? then
        Continue(ctx.(run := Some(ctx.run.value.(spectra := ctx.spectra))))
      else
        Continue(ctx)
    case Eof => Stop(ctx)
    case ReaderError => Stop(ctx)
    case Empty(_, _) => Continue(ctx)
    case Text(_) => Continue(ctx)
    case Other => Continue(ctx)
  }

  /** The loop from context `ctx` over `evs`; running out of events is the end of the document. */
  function Walk(ext: Externals, ctx: Ctx, evs: seq<Event>): (r: Result<Ctx, Error>)
    ensures r.Ok? ==>
      r.value.scanList == ctx.scanList && r.value.scan == ctx.scan && r.value.scanWindow == ctx.scanWindow &&
      ctx.spectra <= r.value.spectra && |r.value.spectra| <= |ctx.spectra| + |evs|
    decreases |evs|
  {
    if evs == [] then Ok(ctx)
    else
      match Step(ext, ctx, evs[0])
      case Continue(c) => Walk(ext, c, evs[1..])
      case Stop(c) => Ok(c)
      case Abort(e) => Err(e)
  }

  /** `parse_mzml` as a function of the event stream: the run slot after the loop, or an error. */
  function ParseMzml(ext: Externals, evs: seq<Event>): Result<Run, Error> {
    var final :- Walk(ext, Initial, evs);
    final.run.ToResult(NoRunElement)
  }

  /** `parse_mzml`: the event loop over the local slots. */
  method Parse(ext: Externals, events: seq<Event>) returns (r: Result<Run, Error>)
    ensures r == ParseMzml(ext, events)
  {
    var currentRun: Option<Run> := None;
    var spectra: seq<Spectrum> := [];
    var currentSpectrum: Option<Spectrum> := None;
    var currentCvParams: seq<CvParam> := [];
    var currentScanList: Option<ScanList> := None;
    var currentScan: Option<Scan> := None;
    var currentScanWindow: Option<ScanWindow> := None;
    var currentArray: Option<BinaryDataArray> := None;

    var i := 0;
    while i < |events|
      invariant 0 <= i <= |events|
      invariant Walk(ext, Ctx(currentRun, spectra, currentSpectrum, currentCvParams,
                              currentScanList, currentScan, currentScanWindow, currentArray), events[i..])
             == Walk(ext, Initial, events)
    {
      match events[i] {
        case Start(name, attrs, text) =>
        if name == "run" {
          var run :- OpenRun(ext.utf8Lossy, attrs);
          currentRun := Some(run);
        } else if name == "spectrum" {
          var spectrum :- OpenSpectrum(ext.utf8Lossy, attrs);
          currentSpectrum := Some(spectrum);
        } else if name == "binaryDataArray" {
          var arr :- OpenBinaryDataArray(ext.utf8Lossy, attrs);
          currentArray := Some(arr);
        } else if name == "binary" && currentArray.Some? {
          var arr := currentArray.value;
          var encoded :- text.ToResult(ReadTextFailed);
          var compression := CompressionHint(arr.cvParams);
          var precision := PrecisionHint(arr.cvParams).GetOr("32-bit float");
          var decoded :- DecodeBinaryData(ext, encoded, compression, precision);
          currentArray := Some(arr.(decodedData := Some(decoded)));
        }
      case End(name) =>
        if name == "spectrum" && currentSpectrum.Some? {
          var spectrum := currentSpectrum.value;
          currentSpectrum := None;
          spectrum := spectrum.(cvParams := currentCvParams);
          spectra := spectra + [spectrum];
          currentCvParams := [];
        } else if name == "binaryDataArray" && currentArray.Some? {
          var arr := currentArray.value;
          currentArray := None;
          if currentSpectrum.Some? {
            var spectrum := currentSpectrum.value;
            currentSpectrum := Some(spectrum.(binaryDataArrays := spectrum.binaryDataArrays + [arr]));
          }
        } else if name == "run" && currentRun.Some? {
          currentRun := Some(currentRun.value.(spectra := spectra));
        }
      case Eof =>
        break;
      case ReaderError =>
        break;
      case Empty(_, _) =>
      case Text(_) =>
      case Other =>
      }
      i := i + 1;
    }
    r := currentRun.ToResult(NoRunElement);
  }
}
