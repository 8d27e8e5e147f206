/** Properties of the document walker (src/lib.rs). */
module WalkerProps {
  import opened Wrappers
  import opened Models
  import opened Utils
  import opened Decoding
  import opened Walker

  // ---------------------------------------------------------------------------
  // Hints
  // ---------------------------------------------------------------------------

  /** A string without the letter `c` cannot contain "compression". */
  lemma NoCompressionWithoutC(s: string)
    requires forall j :: 0 <= j < |s| ==> s[j] != 'c'
    ensures !NamesCompression(s)
  {
    forall i | 0 <= i <= |s| ensures !OccursAt(s, "compression", i) {
      if i + 11 <= |s| {
        assert s[i .. i + 11][0] == s[i] != 'c';
      }
    }
  }

  /**
   * Every compression hint the walker derives names "compression", so it is
   * never one of the three tags the decoder dispatches on.
   */
  lemma CompressionHintIsNeverCodecTag(ps: seq<CvParam>)
    ensures !IsCodecTag(CompressionHint(ps))
  {
    var hint := CompressionHint(ps);
    if hint.Some? {
      assert NamesCompression(hint.value);
      NoCompressionWithoutC("zlib");
      NoCompressionWithoutC("MS-Numpress linear");
      NoCompressionWithoutC("MS-Numpress slof");
    }
  }

  /** Decompression with a hint the walker derived always takes the pass-through branch. */
  lemma HintedDecompressIsIdentity(ext: Externals, ps: seq<CvParam>, raw: Bytes)
    ensures Decompress(ext, CompressionHint(ps), raw) == Ok(raw)
  {
    CompressionHintIsNeverCodecTag(ps);
  }

  // ---------------------------------------------------------------------------
  // Single steps
  // ---------------------------------------------------------------------------

  /** `name` is present and its value parses as a `usize`. */
  predicate HasUsizeAttr(lossy: Bytes -> string, attrs: seq<Attribute>, name: string) {
    var v := GetAttrOptional(lossy, attrs, name);
    v.Some? && ParseUsize(v.value).Ok?
  }

  /** `<run>` fails exactly when `id` or `startTimeStamp` is missing; otherwise it opens a run with no spectra. */
  lemma StepOpenRun(ext: Externals, ctx: Ctx, attrs: seq<Attribute>, text: Option<string>)
    ensures var next := Step(ext, ctx, Start("run", attrs, text));
      var id := GetAttrOptional(ext.utf8Lossy, attrs, "id");
      var time := GetAttrOptional(ext.utf8Lossy, attrs, "startTimeStamp");
      (next.Abort? <==> id.None? || time.None?) &&
      (next.Abort? ==> next.error.MissingAttribute?) &&
      (!next.Abort? ==> next == Continue(ctx.(run := Some(Run(id.value, time.value, [])))))
  {
    GetAttrAgreesWithOptional(ext.utf8Lossy, attrs, "id");
    GetAttrAgreesWithOptional(ext.utf8Lossy, attrs, "startTimeStamp");
  }

  /**
   * `<spectrum>` fails exactly when `id` is missing or `index` or
   * `defaultArrayLength` is missing or not a `usize`; otherwise it opens a
   * spectrum with no cv params, no scan list and no arrays.
   */
  lemma StepOpenSpectrum(ext: Externals, ctx: Ctx, attrs: seq<Attribute>, text: Option<string>)
    ensures var next := Step(ext, ctx, Start("spectrum", attrs, text));
      var lossy := ext.utf8Lossy;
      var id := GetAttrOptional(lossy, attrs, "id");
      (next.Abort? <==>
        id.None? || !HasUsizeAttr(lossy, attrs, "index") || !HasUsizeAttr(lossy, attrs, "defaultArrayLength")) &&
      (!next.Abort? ==>
        next == Continue(ctx.(spectrum := Some(Spectrum(
          id.value,
          ParseUsize(GetAttrOptional(lossy, attrs, "index").value).value,
          ParseUsize(GetAttrOptional(lossy, attrs, "defaultArrayLength").value).value,
          [], None, [])))))
  {
    GetAttrAgreesWithOptional(ext.utf8Lossy, attrs, "id");
    GetAttrAgreesWithOptional(ext.utf8Lossy, attrs, "index");
    GetAttrAgreesWithOptional(ext.utf8Lossy, attrs, "defaultArrayLength");
  }

  /**
   * `<binaryDataArray>` fails exactly when `encodedLength` is missing or not a
   * `usize`; otherwise it opens an array with no cv params and no decoded data.
   */
  lemma StepOpenBinaryDataArray(ext: Externals, ctx: Ctx, attrs: seq<Attribute>, text: Option<string>)
    ensures var next := Step(ext, ctx, Start("binaryDataArray", attrs, text));
      var lossy := ext.utf8Lossy;
      (next.Abort? <==> !HasUsizeAttr(lossy, attrs, "encodedLength")) &&
      (!next.Abort? ==>
        next == Continue(ctx.(dataArray := Some(BinaryDataArray(
          ParseUsize(GetAttrOptional(lossy, attrs, "encodedLength").value).value, [], None)))))
  {
    GetAttrAgreesWithOptional(ext.utf8Lossy, attrs, "encodedLength");
  }

  /** `<binary>` with no open array changes nothing and reads no text. */
  lemma StepBinaryWithoutArray(ext: Externals, ctx: Ctx, attrs: seq<Attribute>, text: Option<string>)
    requires ctx.dataArray.None?
    ensures Step(ext, ctx, Start("binary", attrs, text)) == Continue(ctx)
  {
  }

  /**
   * `<binary>` on an open array whose cv params are empty decodes its text as
   * an uncompressed "32-bit float" payload and stores the result in the
   * array, or fails with the read or decode error; nothing else changes.
   */
  lemma StepBinaryDecodes(ext: Externals, ctx: Ctx, attrs: seq<Attribute>, text: Option<string>)
    requires ctx.dataArray.Some? && ctx.dataArray.value.cvParams == []
    ensures var next := Step(ext, ctx, Start("binary", attrs, text));
      var arr := ctx.dataArray.value;
      (text.None? ==> next == Abort(ReadTextFailed)) &&
      (text.Some? ==>
        match DecodeBinaryData(ext, text.value, None, "32-bit float")
        case Ok(v) => next == Continue(ctx.(dataArray := Some(arr.(decodedData := Some(v)))))
        case Err(e) => next == Abort(e))
  {
  }

  /** The slots other than the run, the spectrum list, the open spectrum, the accumulator and the open array. */
  predicate SameScanSlots(c: Ctx, d: Ctx) {
    c.scanList == d.scanList && c.scan == d.scan && c.scanWindow == d.scanWindow
  }

  /**
   * `</spectrum>` with an open spectrum appends it, carrying the accumulated
   * cv params, at the end of the list, and empties the accumulator and the
   * slot; with none open it changes nothing.
   */
  lemma StepCloseSpectrum(ext: Externals, ctx: Ctx)
    ensures ctx.spectrum.None? ==> Step(ext, ctx, End("spectrum")) == Continue(ctx)
    ensures ctx.spectrum.Some? ==>
      var next := Step(ext, ctx, End("spectrum"));
      next.Continue? &&
      var c := next.ctx;
      |c.spectra| == |ctx.spectra| + 1 &&
      c.spectra[..|ctx.spectra|] == ctx.spectra &&
      c.spectra[|ctx.spectra|] == ctx.spectrum.value.(cvParams := ctx.cvParams) &&
      c.cvParams == [] && c.spectrum.None? &&
      c.run == ctx.run && c.dataArray == ctx.dataArray && SameScanSlots(c, ctx)
  {
  }

  /**
   * `</binaryDataArray>` with an open array appends it at the end of the open
   * spectrum's arrays, or drops it when no spectrum is open; the array slot is
   * empty afterwards and nothing else changes.
   */
  lemma StepCloseBinaryDataArray(ext: Externals, ctx: Ctx)
    ensures ctx.dataArray.None? ==> Step(ext, ctx, End("binaryDataArray")) == Continue(ctx)
    ensures ctx.dataArray.Some? ==>
      var next := Step(ext, ctx, End("binaryDataArray"));
      next.Continue? &&
      var c := next.ctx;
      c.dataArray.None? &&
      c.spectrum.Some? == ctx.spectrum.Some? &&
      (ctx.spectrum.Some? ==>
        var s, s' := ctx.spectrum.value, c.spectrum.value;
        s' == s.(binaryDataArrays := s'.binaryDataArrays) &&
        s'.binaryDataArrays == s.binaryDataArrays + [ctx.dataArray.value]) &&
      c.run == ctx.run && c.spectra == ctx.spectra && c.cvParams == ctx.cvParams && SameScanSlots(c, ctx)
  {
  }

  /** `</run>` sets the open run's spectra to the spectra closed so far and changes nothing else. */
  lemma StepCloseRun(ext: Externals, ctx: Ctx)
    ensures ctx.run.None? ==> Step(ext, ctx, End("run")) == Continue(ctx)
    ensures ctx.run.Some? ==>
      var next := Step(ext, ctx, End("run"));
      next.Continue? &&
      var c := next.ctx;
      c.run.Some? && c.run.value.spectra == ctx.spectra &&
      c.run.value.id == ctx.run.value.id && c.run.value.startTime == ctx.run.value.startTime &&
      c == ctx.(run := c.run)
  {
  }

  /** The events the loop reacts to: four element openings, three closings, and the two loop exits. */
  predicate Handled(ev: Event) {
    (ev.Start? && ev.name in ["run", "spectrum", "binaryDataArray", "binary"]) ||
    (ev.End? && ev.name in ["run", "spectrum", "binaryDataArray"]) ||
    IsStop(ev)
  }

  /**
   * Every other event (self-closing `cvParam` elements among them) leaves
   * every slot unchanged; end of file and a reader error leave the loop.
   */
  lemma StepOtherEvents(ext: Externals, ctx: Ctx, ev: Event)
    ensures !Handled(ev) ==> Step(ext, ctx, ev) == Continue(ctx)
    ensures IsStop(ev) ==> Step(ext, ctx, ev) == Stop(ctx)
  {
  }

  // ---------------------------------------------------------------------------
  // Whole walks
  // ---------------------------------------------------------------------------

  /** The events before the first end of file or reader error: the ones the loop looks at. */
  function Live(evs: seq<Event>): (live: seq<Event>)
    ensures |live| <= |evs| && live == evs[..|live|]
    ensures forall e :: e in live ==> !IsStop(e)
    ensures |live| < |evs| ==> IsStop(evs[|live|])
  {
    if evs == [] || IsStop(evs[0]) then []
    else
      var rest := Live(evs[1..]);
      assert [evs[0]] + rest == evs[..|rest| + 1];
      [evs[0]] + rest
  }

  /** Events after the first end of file or reader error are never looked at. */
  lemma {:induction false} WalkSeesOnlyLive(ext: Externals, ctx: Ctx, evs: seq<Event>)
    ensures Walk(ext, ctx, evs) == Walk(ext, ctx, Live(evs))
    decreases |evs|
  {
    if evs != [] && !IsStop(evs[0]) {
      var live := Live(evs);
      assert live[0] == evs[0] && live[1..] == Live(evs[1..]);
      match Step(ext, ctx, evs[0])
      case Continue(c) => WalkSeesOnlyLive(ext, c, evs[1..]);
      case Stop(c) =>
      case Abort(e) =>
    }
  }

  /**
   * Walking `pre` then `post` is walking `post` from where `pre` left off; an
   * error in `pre` is the error of the whole walk.
   */
  lemma {:induction false} WalkAppend(ext: Externals, ctx: Ctx, pre: seq<Event>, post: seq<Event>)
    requires forall e :: e in pre ==> !IsStop(e)
    ensures Walk(ext, ctx, pre).Ok? ==> Walk(ext, ctx, pre + post) == Walk(ext, Walk(ext, ctx, pre).value, post)
    ensures Walk(ext, ctx, pre).Err? ==> Walk(ext, ctx, pre + post) == Walk(ext, ctx, pre)
    decreases |pre|
  {
    if pre != [] {
      assert (pre + post)[0] == pre[0] && (pre + post)[1..] == pre[1..] + post;
      assert !IsStop(pre[0]);
      match Step(ext, ctx, pre[0])
      case Continue(c) => WalkAppend(ext, c, pre[1..], post);
      case Stop(c) =>
      case Abort(e) =>
    } else {
      assert pre + post == post;
    }
  }

  /**
   * When the event after a clean prefix makes the step fail, the whole parse
   * fails with that step's error, whatever follows, and yields no run.
   */
  lemma ParseAbortsAt(ext: Externals, pre: seq<Event>, ev: Event, post: seq<Event>)
    requires forall e :: e in pre ==> !IsStop(e)
    requires Walk(ext, Initial, pre).Ok?
    requires Step(ext, Walk(ext, Initial, pre).value, ev).Abort?
    ensures ParseMzml(ext, pre + [ev] + post) == Err(Step(ext, Walk(ext, Initial, pre).value, ev).error)
  {
    WalkAppend(ext, Initial, pre, [ev] + post);
    assert pre + [ev] + post == pre + ([ev] + post);
  }

  /** The attributes of the last `<run>` opening in `evs`, if any. */
  function LastRunStart(evs: seq<Event>): Option<seq<Attribute>> {
    if evs == [] then None
    else
      var later := LastRunStart(evs[1..]);
      if later.Some? then later
      else if evs[0].Start? && evs[0].name == "run" then Some(evs[0].attrs)
      else None
  }

  /**
   * After a successful walk the run slot holds the run opened last, with that
   * opening's `id` and `startTimeStamp`; with no opening it is as before.
   */
  lemma {:induction false} WalkRunSlot(ext: Externals, ctx: Ctx, evs: seq<Event>)
    requires Walk(ext, ctx, evs).Ok?
    ensures var c := Walk(ext, ctx, evs).value;
      match LastRunStart(Live(evs))
      case None =>
        c.run.Some? == ctx.run.Some? &&
        (ctx.run.Some? ==> c.run.value.id == ctx.run.value.id && c.run.value.startTime == ctx.run.value.startTime)
      case Some(attrs) =>
        c.run.Some? &&
        Some(c.run.value.id) == GetAttrOptional(ext.utf8Lossy, attrs, "id") &&
        Some(c.run.value.startTime) == GetAttrOptional(ext.utf8Lossy, attrs, "startTimeStamp")
    decreases |evs|
  {
    if evs != [] && !IsStop(evs[0]) {
      var ev := evs[0];
      assert Live(evs) == [ev] + Live(evs[1..]);
      assert Live(evs)[1..] == Live(evs[1..]);
      match Step(ext, ctx, ev)
      case Continue(c1) =>
        WalkRunSlot(ext, c1, evs[1..]);
        StepRunSlot(ext, ctx, ev);
      case Stop(c) =>
      case Abort(e) =>
    }
  }

  /** One step sets the run slot from a `<run>` opening and otherwise keeps its presence, `id` and `startTimeStamp`. */
  lemma StepRunSlot(ext: Externals, ctx: Ctx, ev: Event)
    requires Step(ext, ctx, ev).Continue?
    ensures var c1 := Step(ext, ctx, ev).ctx;
      if ev.Start? && ev.name == "run" then
        c1.run.Some? &&
        Some(c1.run.value.id) == GetAttrOptional(ext.utf8Lossy, ev.attrs, "id") &&
        Some(c1.run.value.startTime) == GetAttrOptional(ext.utf8Lossy, ev.attrs, "startTimeStamp")
      else
        c1.run.Some? == ctx.run.Some? &&
        (ctx.run.Some? ==> c1.run.value.id == ctx.run.value.id && c1.run.value.startTime == ctx.run.value.startTime)
  {
    if ev.Start? && ev.name == "run" {
      StepOpenRun(ext, ctx, ev.attrs, ev.text);
    }
  }

  /** With no `<run>` opening before the loop ends, the parse fails. */
  lemma ParseWithoutRunFails(ext: Externals, evs: seq<Event>)
    requires LastRunStart(Live(evs)).None?
    ensures ParseMzml(ext, evs).Err?
  {
    if Walk(ext, Initial, evs).Ok? {
      WalkRunSlot(ext, Initial, evs);
    }
  }

  /** A parsed run is the last one opened before the loop ended, with that opening's attributes. */
  lemma ParseReturnsLastRun(ext: Externals, evs: seq<Event>)
    requires ParseMzml(ext, evs).Ok?
    ensures LastRunStart(Live(evs)).Some?
    ensures var attrs, run := LastRunStart(Live(evs)).value, ParseMzml(ext, evs).value;
      Some(run.id) == GetAttrOptional(ext.utf8Lossy, attrs, "id") &&
      Some(run.startTime) == GetAttrOptional(ext.utf8Lossy, attrs, "startTimeStamp")
  {
    WalkRunSlot(ext, Initial, evs);
  }

  /** The identifiers of a list of spectra, in order. */
  function SpectrumIds(ss: seq<Spectrum>): (ids: seq<string>)
    ensures |ids| == |ss| && forall i :: 0 <= i < |ss| ==> ids[i] == ss[i].id
  {
    if ss == [] then [] else [ss[0].id] + SpectrumIds(ss[1..])
  }

  /**
   * The identifiers of the spectra closed by `evs`, in closing order, read off
   * the events alone: `<spectrum>` opens one (its `id` attribute), and
   * `</spectrum>` closes the open one if there is one.
   */
  function ClosedIds(lossy: Bytes -> string, open: Option<string>, evs: seq<Event>): seq<string>
    decreases |evs|
  {
    if evs == [] then []
    else
      match evs[0]
      case Start(name, attrs, _) =>
        if name == "spectrum" then ClosedIds(lossy, GetAttrOptional(lossy, attrs, "id"), evs[1..])
        else ClosedIds(lossy, open, evs[1..])
      case End(name) =>
        if name == "spectrum" && open.Some? then [open.value] + ClosedIds(lossy, None, evs[1..])
        else ClosedIds(lossy, open, evs[1..])
      case _ => ClosedIds(lossy, open, evs[1..])
  }

  function OpenId(ctx: Ctx): Option<string> {
    if ctx.spectrum.Some? then Some(ctx.spectrum.value.id) else None
  }

  /**
   * A successful walk only appends to the spectrum list, and what it appends
   * are the spectra closed by the events, in closing order, one per
   * `</spectrum>` that finds a spectrum open.
   */
  lemma {:induction false} WalkClosesSpectraInOrder(ext: Externals, ctx: Ctx, evs: seq<Event>)
    requires Walk(ext, ctx, evs).Ok?
    ensures var c := Walk(ext, ctx, evs).value;
      |ctx.spectra| <= |c.spectra| && c.spectra[..|ctx.spectra|] == ctx.spectra &&
      SpectrumIds(c.spectra[|ctx.spectra|..]) == ClosedIds(ext.utf8Lossy, OpenId(ctx), Live(evs))
    decreases |evs|
  {
    var c := Walk(ext, ctx, evs).value;
    var n := |ctx.spectra|;
    if evs == [] || IsStop(evs[0]) {
      assert c == ctx;
    } else {
      var ev := evs[0];
      var rest := Live(evs[1..]);
      assert Live(evs) == [ev] + rest;
      var c1 := Step(ext, ctx, ev).ctx;
      assert Walk(ext, c1, evs[1..]) == Walk(ext, ctx, evs);
      WalkClosesSpectraInOrder(ext, c1, evs[1..]);
      ClosedIdsFollowStep(ext, ctx, ev, rest);
      if |c1.spectra| == n + 1 {
        SuffixIds(c.spectra, n, c1.spectra[n]);
      }
    }
  }

  /** One step either closes the open spectrum, as `ClosedIds` records, or leaves the list and the open id in step. */
  lemma ClosedIdsFollowStep(ext: Externals, ctx: Ctx, ev: Event, rest: seq<Event>)
    requires !IsStop(ev) && Step(ext, ctx, ev).Continue?
    ensures var c1 := Step(ext, ctx, ev).ctx;
      var lossy := ext.utf8Lossy;
      if ev.End? && ev.name == "spectrum" && ctx.spectrum.Some? then
        |c1.spectra| == |ctx.spectra| + 1 && c1.spectra[..|ctx.spectra|] == ctx.spectra &&
        c1.spectra[|ctx.spectra|].id == ctx.spectrum.value.id &&
        ClosedIds(lossy, OpenId(ctx), [ev] + rest) == [ctx.spectrum.value.id] + ClosedIds(lossy, OpenId(c1), rest)
      else
        c1.spectra == ctx.spectra &&
        ClosedIds(lossy, OpenId(ctx), [ev] + rest) == ClosedIds(lossy, OpenId(c1), rest)
  {
    assert ([ev] + rest)[0] == ev && ([ev] + rest)[1..] == rest;
    if ev.Start? && ev.name == "spectrum" {
      StepOpenSpectrum(ext, ctx, ev.attrs, ev.text);
    }
  }

  /** The identifiers from position `n` on, when position `n` holds `x`. */
  lemma SuffixIds(ss: seq<Spectrum>, n: nat, x: Spectrum)
    requires n < |ss| && ss[n] == x
    ensures SpectrumIds(ss[n..]) == [x.id] + SpectrumIds(ss[n + 1..])
  {
    assert ss[n..] == [x] + ss[n + 1..];
    assert ss[n..][1..] == ss[n + 1..];
  }

  /** The parsed spectrum list, as stored by `</run>`, holds one spectrum per close, in document order. */
  lemma RunSpectraAtClose(ext: Externals, pre: seq<Event>)
    requires forall e :: e in pre ==> !IsStop(e)
    requires Walk(ext, Initial, pre).Ok? && Walk(ext, Initial, pre).value.run.Some?
    ensures var c := Walk(ext, Initial, pre).value;
      var after := Walk(ext, Initial, pre + [End("run")]);
      after.Ok? && after.value.run.Some? &&
      after.value.run.value.spectra == c.spectra &&
      SpectrumIds(after.value.run.value.spectra) == ClosedIds(ext.utf8Lossy, None, pre)
  {
    var c := Walk(ext, Initial, pre).value;
    WalkAppend(ext, Initial, pre, [End("run")]);
    assert Walk(ext, c, [End("run")]) == Walk(ext, c.(run := Some(c.run.value.(spectra := c.spectra))), []);
    WalkClosesSpectraInOrder(ext, Initial, pre);
    assert Live(pre) == pre;
    assert c.spectra[0..] == c.spectra;
  }

  /**
   * With no `</run>` before the loop ends, a run whose spectra were empty
   * keeps them empty, and so does every run opened on the way.
   */
  lemma {:induction false} WalkWithoutRunClose(ext: Externals, ctx: Ctx, evs: seq<Event>)
    requires Walk(ext, ctx, evs).Ok?
    requires End("run") !in Live(evs)
    requires ctx.run.Some? ==> ctx.run.value.spectra == []
    ensures var c := Walk(ext, ctx, evs).value;
      c.run.Some? ==> c.run.value.spectra == []
    decreases |evs|
  {
    if evs != [] && !IsStop(evs[0]) {
      assert Live(evs) == [evs[0]] + Live(evs[1..]);
      match Step(ext, ctx, evs[0])
      case Continue(c1) => WalkWithoutRunClose(ext, c1, evs[1..]);
      case Stop(c) =>
      case Abort(e) =>
    }
  }

  /** A run that is never closed is returned with no spectra. */
  lemma ParseWithoutRunCloseHasNoSpectra(ext: Externals, evs: seq<Event>)
    requires ParseMzml(ext, evs).Ok?
    requires End("run") !in Live(evs)
    ensures ParseMzml(ext, evs).value.spectra == []
  {
    WalkWithoutRunClose(ext, Initial, evs);
  }

  // ---------------------------------------------------------------------------
  // cv params are never collected
  // ---------------------------------------------------------------------------

  predicate CleanArray(a: BinaryDataArray) {
    a.cvParams == []
  }

  predicate CleanSpectrum(s: Spectrum) {
    s.cvParams == [] && forall a :: a in s.binaryDataArrays ==> CleanArray(a)
  }

  /** No cv param anywhere in the walker's slots. */
  predicate Clean(ctx: Ctx) {
    ctx.cvParams == [] &&
    (ctx.dataArray.Some? ==> CleanArray(ctx.dataArray.value)) &&
    (ctx.spectrum.Some? ==> CleanSpectrum(ctx.spectrum.value)) &&
    (forall s :: s in ctx.spectra ==> CleanSpectrum(s)) &&
    (ctx.run.Some? ==> forall s :: s in ctx.run.value.spectra ==> CleanSpectrum(s))
  }

  lemma StepKeepsClean(ext: Externals, ctx: Ctx, ev: Event)
    requires Clean(ctx)
    ensures !Step(ext, ctx, ev).Abort? ==> Clean(Step(ext, ctx, ev).ctx)
  {
    match ev
    case Start(name, attrs, text) =>
    case End(name) =>
      if name == "binaryDataArray" && ctx.dataArray.Some? && ctx.spectrum.Some? {
        var s := ctx.spectrum.value;
        assert forall a :: a in s.binaryDataArrays + [ctx.dataArray.value] ==> a in s.binaryDataArrays || a == ctx.dataArray.value;
      }
    case _ =>
  }

  lemma {:induction false} WalkKeepsClean(ext: Externals, ctx: Ctx, evs: seq<Event>)
    requires Clean(ctx)
    ensures Walk(ext, ctx, evs).Ok? ==> Clean(Walk(ext, ctx, evs).value)
    decreases |evs|
  {
    if evs != [] {
      StepKeepsClean(ext, ctx, evs[0]);
      match Step(ext, ctx, evs[0])
      case Continue(c) => WalkKeepsClean(ext, c, evs[1..]);
      case Stop(c) =>
      case Abort(e) =>
    }
  }

  /** Every spectrum and every array of a parsed run has empty cv params. */
  lemma ParsedRunHasNoCvParams(ext: Externals, evs: seq<Event>)
    requires ParseMzml(ext, evs).Ok?
    ensures forall s :: s in ParseMzml(ext, evs).value.spectra ==>
      s.cvParams == [] && forall a :: a in s.binaryDataArrays ==> a.cvParams == []
  {
    WalkKeepsClean(ext, Initial, evs);
  }

  /**
   * Every decode the walker issues, after any clean prefix of the document,
   * receives the element's text, no compression and "32-bit float".
   */
  lemma WalkerDecodesUncompressed32(ext: Externals, pre: seq<Event>, attrs: seq<Attribute>, text: string)
    requires Walk(ext, Initial, pre).Ok? && Walk(ext, Initial, pre).value.dataArray.Some?
    ensures var c := Walk(ext, Initial, pre).value;
      var next := Step(ext, c, Start("binary", attrs, Some(text)));
      match DecodeBinaryData(ext, text, None, "32-bit float")
      case Ok(v) => next == Continue(c.(dataArray := Some(c.dataArray.value.(decodedData := Some(v)))))
      case Err(e) => next == Abort(e)
  {
    WalkKeepsClean(ext, Initial, pre);
    StepBinaryDecodes(ext, Walk(ext, Initial, pre).value, attrs, Some(text));
  }
}

/** A complete minimal document, walked event by event. */
module MinimalDocument {
  import opened Wrappers
  import opened Models
  import opened Utils
  import opened Decoding
  import opened DecodingProps
  import opened Walker
  import opened WalkerProps

  /** The attributes of the document's elements. */
  function RunAttrs(runId: Bytes, stamp: Bytes): seq<Attribute> {
    [Attribute("id", runId), Attribute("startTimeStamp", stamp)]
  }

  function SpectrumAttrs(spectrumId: Bytes, index: Bytes, length: Bytes): seq<Attribute> {
    [Attribute("id", spectrumId), Attribute("index", index), Attribute("defaultArrayLength", length)]
  }

  function ArrayAttrs(encodedLength: Bytes): seq<Attribute> {
    [Attribute("encodedLength", encodedLength)]
  }

  /** The bytes of a string of 8-bit characters. */
  function Ascii(s: string): Bytes
    requires forall i :: 0 <= i < |s| ==> s[i] as int < 0x100
  {
    if s == [] then [] else [s[0] as int] + Ascii(s[1..])
  }

  /** The attributes of a self-closing PSI-MS `cvParam` element. */
  function CvParamAttrs(accession: string, name: string): seq<Attribute>
    requires forall i :: 0 <= i < |accession| ==> accession[i] as int < 0x100
    requires forall i :: 0 <= i < |name| ==> name[i] as int < 0x100
  {
    [Attribute("cvRef", Ascii("MS")), Attribute("accession", Ascii(accession)), Attribute("name", Ascii(name))]
  }

  /** The openings up to and including the array's. */
  function Prologue(runId: Bytes, stamp: Bytes, spectrumId: Bytes, index: Bytes, length: Bytes,
                    encodedLength: Bytes): seq<Event> {
    [ Start("mzML", [], None),
      Start("run", RunAttrs(runId, stamp), None),
      Start("spectrumList", [], None),
      Start("spectrum", SpectrumAttrs(spectrumId, index, length), None),
      Start("binaryDataArray", ArrayAttrs(encodedLength), None) ]
  }

  const Precision64 := CvParamAttrs("MS:1000523", "64-bit float")
  const ZlibCompression := CvParamAttrs("MS:1000574", "zlib compression")

  /** The array's self-closing cv params, its `<binary>` element, and the closings. */
  function Epilogue(precision: seq<Attribute>, compression: seq<Attribute>, text: string): seq<Event> {
    [ Empty("cvParam", precision),
      Empty("cvParam", compression),
      Start("binary", [], Some(text)),
      End("binaryDataArray"),
      End("spectrum"),
      End("spectrumList"),
      End("run"),
      End("mzML"),
      Eof ]
  }

  /**
   * One run holding one spectrum holding one array whose `<binary>` element
   * encloses `text`; the array declares "64-bit float" precision and "zlib
   * compression" in self-closing cv params.
   */
  function Document(runId: Bytes, stamp: Bytes, spectrumId: Bytes, index: Bytes, length: Bytes,
                    encodedLength: Bytes, text: string): seq<Event> {
    Prologue(runId, stamp, spectrumId, index, length, encodedLength) + Epilogue(Precision64, ZlibCompression, text)
  }

  lemma OpenRunStep(ext: Externals, ctx: Ctx, runId: Bytes, stamp: Bytes)
    ensures Step(ext, ctx, Start("run", RunAttrs(runId, stamp), None))
         == Continue(ctx.(run := Some(Run(ext.utf8Lossy(runId), ext.utf8Lossy(stamp), []))))
  {
    var attrs := RunAttrs(runId, stamp);
    assert GetAttr(ext.utf8Lossy, attrs, "id") == Ok(ext.utf8Lossy(runId));
    assert GetAttr(ext.utf8Lossy, attrs[1..], "startTimeStamp") == Ok(ext.utf8Lossy(stamp));
  }

  lemma OpenSpectrumStep(ext: Externals, ctx: Ctx, spectrumId: Bytes, index: Bytes, length: Bytes)
    requires ParseUsize(ext.utf8Lossy(index)).Ok? && ParseUsize(ext.utf8Lossy(length)).Ok?
    ensures Step(ext, ctx, Start("spectrum", SpectrumAttrs(spectrumId, index, length), None))
         == Continue(ctx.(spectrum := Some(Spectrum(ext.utf8Lossy(spectrumId),
              ParseUsize(ext.utf8Lossy(index)).value, ParseUsize(ext.utf8Lossy(length)).value, [], None, []))))
  {
    var attrs := SpectrumAttrs(spectrumId, index, length);
    assert GetAttr(ext.utf8Lossy, attrs, "id") == Ok(ext.utf8Lossy(spectrumId));
    assert GetAttr(ext.utf8Lossy, attrs[1..], "index") == Ok(ext.utf8Lossy(index));
    assert GetAttr(ext.utf8Lossy, attrs[1..][1..], "defaultArrayLength") == Ok(ext.utf8Lossy(length));
    assert GetAttr(ext.utf8Lossy, attrs[1..], "defaultArrayLength") == Ok(ext.utf8Lossy(length));
    assert GetAttr(ext.utf8Lossy, attrs, "index") == Ok(ext.utf8Lossy(index));
    assert GetAttr(ext.utf8Lossy, attrs, "defaultArrayLength") == Ok(ext.utf8Lossy(length));
  }

  lemma OpenArrayStep(ext: Externals, ctx: Ctx, encodedLength: Bytes)
    requires ParseUsize(ext.utf8Lossy(encodedLength)).Ok?
    ensures Step(ext, ctx, Start("binaryDataArray", ArrayAttrs(encodedLength), None))
         == Continue(ctx.(dataArray := Some(BinaryDataArray(ParseUsize(ext.utf8Lossy(encodedLength)).value, [], None))))
  {
  }

  lemma BinaryStep(ext: Externals, ctx: Ctx, text: string, xs: seq<F32Bits>)
    requires ctx.dataArray.Some? && ctx.dataArray.value.cvParams == []
    requires ext.base64Decode(text) == Some(LeEncode(xs, 4))
    ensures Step(ext, ctx, Start("binary", [], Some(text)))
         == Continue(ctx.(dataArray := Some(ctx.dataArray.value.(decodedData := Some(xs)))))
  {
    DecodeUncompressedRoundTrip(ext, text, None, xs);
  }

  /**
   * The document parses to a run with exactly one spectrum holding exactly
   * one array, with the attribute values of their openings. The declared cv
   * params are not collected and play no part in decoding: the array's data
   * is `xs`, the text read as uncompressed little-endian `f32`s, although the
   * array declares 64-bit zlib-compressed values.
   */
  lemma ParseMinimalDocument(ext: Externals, runId: Bytes, stamp: Bytes, spectrumId: Bytes, index: Bytes,
                             length: Bytes, encodedLength: Bytes, text: string, xs: seq<F32Bits>)
    requires ParseUsize(ext.utf8Lossy(index)).Ok?
    requires ParseUsize(ext.utf8Lossy(length)).Ok?
    requires ParseUsize(ext.utf8Lossy(encodedLength)).Ok?
    requires ext.base64Decode(text) == Some(LeEncode(xs, 4))
    ensures var r := ParseMzml(ext, Document(runId, stamp, spectrumId, index, length, encodedLength, text));
      r.Ok? &&
      r.value.id == ext.utf8Lossy(runId) && r.value.startTime == ext.utf8Lossy(stamp) &&
      |r.value.spectra| == 1 &&
      r.value.spectra[0].id == ext.utf8Lossy(spectrumId) &&
      r.value.spectra[0].index == ParseUsize(ext.utf8Lossy(index)).value &&
      r.value.spectra[0].defaultArrayLength == ParseUsize(ext.utf8Lossy(length)).value &&
      r.value.spectra[0].cvParams == [] &&
      |r.value.spectra[0].binaryDataArrays| == 1 &&
      r.value.spectra[0].binaryDataArrays[0].encodedLength == ParseUsize(ext.utf8Lossy(encodedLength)).value &&
      r.value.spectra[0].binaryDataArrays[0].cvParams == [] &&
      r.value.spectra[0].binaryDataArrays[0].decodedData == Some(xs)
  {
    var lossy := ext.utf8Lossy;
    var run := Run(lossy(runId), lossy(stamp), []);
    var spectrum := Spectrum(lossy(spectrumId), ParseUsize(lossy(index)).value, ParseUsize(lossy(length)).value, [], None, []);
    var arr := BinaryDataArray(ParseUsize(lossy(encodedLength)).value, [], None);
    var c3 := Initial.(run := Some(run), spectrum := Some(spectrum), dataArray := Some(arr));
    var pre := Prologue(runId, stamp, spectrumId, index, length, encodedLength);
    var closed := spectrum.(binaryDataArrays := [arr.(decodedData := Some(xs))]);
    var final := c3.(dataArray := None, spectrum := None, spectra := [closed], run := Some(run.(spectra := [closed])));
    WalkPrologue(ext, runId, stamp, spectrumId, index, length, encodedLength);
    WalkEpilogue(ext, c3, Precision64, ZlibCompression, text, xs);
    WalkAppend(ext, Initial, pre, Epilogue(Precision64, ZlibCompression, text));
    assert Walk(ext, Initial, Document(runId, stamp, spectrumId, index, length, encodedLength, text)) == Ok(final);
    assert ParseMzml(ext, Document(runId, stamp, spectrumId, index, length, encodedLength, text))
        == Ok(run.(spectra := [closed]));
  }

  /** The openings fill the run, spectrum and array slots. */
  lemma WalkPrologue(ext: Externals, runId: Bytes, stamp: Bytes, spectrumId: Bytes, index: Bytes,
                     length: Bytes, encodedLength: Bytes)
    requires ParseUsize(ext.utf8Lossy(index)).Ok?
    requires ParseUsize(ext.utf8Lossy(length)).Ok?
    requires ParseUsize(ext.utf8Lossy(encodedLength)).Ok?
    ensures forall e :: e in Prologue(runId, stamp, spectrumId, index, length, encodedLength) ==> !IsStop(e)
    ensures var lossy := ext.utf8Lossy;
      Walk(ext, Initial, Prologue(runId, stamp, spectrumId, index, length, encodedLength))
      == Ok(Initial.(
          run := Some(Run(lossy(runId), lossy(stamp), [])),
          spectrum := Some(Spectrum(lossy(spectrumId), ParseUsize(lossy(index)).value,
                                    ParseUsize(lossy(length)).value, [], None, [])),
          dataArray := Some(BinaryDataArray(ParseUsize(lossy(encodedLength)).value, [], None))))
  {
    var lossy := ext.utf8Lossy;
    var evs := Prologue(runId, stamp, spectrumId, index, length, encodedLength);
    var c1 := Initial.(run := Some(Run(lossy(runId), lossy(stamp), [])));
    var c2 := c1.(spectrum := Some(Spectrum(lossy(spectrumId), ParseUsize(lossy(index)).value,
                                            ParseUsize(lossy(length)).value, [], None, [])));
    var c3 := c2.(dataArray := Some(BinaryDataArray(ParseUsize(lossy(encodedLength)).value, [], None)));
    OpenRunStep(ext, Initial, runId, stamp);
    OpenSpectrumStep(ext, c1, spectrumId, index, length);
    OpenArrayStep(ext, c2, encodedLength);
    assert Walk(ext, c3, evs[5..]) == Ok(c3);
    assert Walk(ext, c2, evs[4..]) == Walk(ext, c3, evs[5..]);
    assert Walk(ext, c1, evs[3..]) == Walk(ext, c2, evs[4..]);
    assert Walk(ext, c1, evs[2..]) == Walk(ext, c1, evs[3..]);
    assert Walk(ext, Initial, evs[1..]) == Walk(ext, c1, evs[2..]);
    assert Walk(ext, Initial, evs) == Walk(ext, Initial, evs[1..]);
  }

  /** The `<binary>` text is decoded into the open array, which lands in the spectrum, which lands in the run. */
  lemma WalkEpilogue(ext: Externals, ctx: Ctx, precision: seq<Attribute>, compression: seq<Attribute>,
                     text: string, xs: seq<F32Bits>)
    requires ctx.run.Some? && ctx.spectrum.Some? && ctx.dataArray.Some?
    requires ctx.spectra == [] && ctx.cvParams == [] && ctx.spectrum.value.cvParams == []
    requires ctx.spectrum.value.binaryDataArrays == []
    requires ctx.dataArray.value.cvParams == []
    requires ext.base64Decode(text) == Some(LeEncode(xs, 4))
    ensures var decoded := ctx.dataArray.value.(decodedData := Some(xs));
      var closed := ctx.spectrum.value.(binaryDataArrays := [decoded]);
      Walk(ext, ctx, Epilogue(precision, compression, text))
      == Ok(ctx.(dataArray := None, spectrum := None, spectra := [closed],
                 run := Some(ctx.run.value.(spectra := [closed]))))
  {
    var evs := Epilogue(precision, compression, text);
    var decoded := ctx.dataArray.value.(decodedData := Some(xs));
    var closed := ctx.spectrum.value.(binaryDataArrays := [decoded]);
    var c4 := ctx.(dataArray := Some(decoded));
    var c5 := c4.(dataArray := None, spectrum := Some(closed));
    var c6 := c5.(spectrum := None, spectra := [closed]);
    var c7 := c6.(run := Some(ctx.run.value.(spectra := [closed])));
    BinaryStep(ext, ctx, text, xs);
    assert ctx.spectrum.value.binaryDataArrays + [decoded] == [decoded];
    assert closed.(cvParams := []) == closed;
    assert c5.spectra + [closed] == [closed];
    assert Walk(ext, c7, evs[7..]) == Ok(c7);
    assert Walk(ext, c6, evs[5..]) == Walk(ext, c7, evs[7..]);
    assert Walk(ext, c5, evs[4..]) == Walk(ext, c6, evs[5..]);
    assert Walk(ext, c4, evs[3..]) == Walk(ext, c5, evs[4..]);
    assert Walk(ext, ctx, evs[2..]) == Walk(ext, c4, evs[3..]);
    assert Walk(ext, ctx, evs) == Walk(ext, ctx, evs[2..]);
  }
}
