/**
 * Attribute lookup, decimal `usize` parsing and the binary payload decoder
 * (src/utils.rs).
 */
module Utils {
  import opened Wrappers
  import opened Models

  // ---------------------------------------------------------------------------
  // Attributes
  // ---------------------------------------------------------------------------

  /**
   * One item of quick_xml's attribute iterator: a well-formed `key="value"`
   * pair with its raw value bytes, or an attribute the tokenizer rejected.
   */
  datatype Attribute = Attribute(key: string, value: Bytes) | Malformed

  /** `a` is a well-formed attribute whose key equals `name`. */
  predicate KeyIs(a: Attribute, name: string) {
    a.Attribute? && a.key == name
  }

  /** Index `i` holds the first well-formed attribute named `name`. */
  predicate IsFirstMatch(attrs: seq<Attribute>, name: string, i: int) {
    0 <= i < |attrs| && KeyIs(attrs[i], name) &&
    forall j :: 0 <= j < i ==> !KeyIs(attrs[j], name)
  }

  /**
   * `get_attr_optional`: the value of the first well-formed attribute named
   * `name`, decoded with `lossy`; malformed attributes are skipped.
   */
  function GetAttrOptional(lossy: Bytes -> string, attrs: seq<Attribute>, name: string): (r: Option<string>)
    ensures r.None? <==> forall i :: 0 <= i < |attrs| ==> !KeyIs(attrs[i], name)
    ensures r.Some? ==> exists i :: IsFirstMatch(attrs, name, i) && r.value == lossy(attrs[i].value)
  {
    if attrs == [] then None
    else if KeyIs(attrs[0], name) then
      assert IsFirstMatch(attrs, name, 0);
      Some(lossy(attrs[0].value))
    else
      var rest := GetAttrOptional(lossy, attrs[1..], name);
      assert rest.Some? ==> exists i :: IsFirstMatch(attrs, name, i) && rest.value == lossy(attrs[i].value) by {
        if rest.Some? {
          var k :| IsFirstMatch(attrs[1..], name, k) && rest.value == lossy(attrs[1..][k].value);
          assert IsFirstMatch(attrs, name, k + 1) by {
            forall j | 0 <= j < k + 1 ensures !KeyIs(attrs[j], name) {
              if j > 0 { assert attrs[j] == attrs[1..][j - 1]; }
            }
          }
        }
      }
      assert rest.None? ==> forall i :: 0 <= i < |attrs| ==> !KeyIs(attrs[i], name) by {
        if rest.None? {
          forall i | 0 <= i < |attrs| ensures !KeyIs(attrs[i], name) {
            if i > 0 { assert attrs[i] == attrs[1..][i - 1]; }
          }
        }
      }
      rest
  }

  /**
   * `get_attr`: the same first-match search as `get_attr_optional`, written
   * out separately as in the source, failing with `MissingAttribute(name)`.
   */
  function GetAttr(lossy: Bytes -> string, attrs: seq<Attribute>, name: string): (r: Result<string, Error>)
    ensures r.Err? ==> r.error == MissingAttribute(name)
  {
    if attrs == [] then Err(MissingAttribute(name))
    else if KeyIs(attrs[0], name) then Ok(lossy(attrs[0].value))
    else GetAttr(lossy, attrs[1..], name)
  }

  /** `get_attr` succeeds exactly when `get_attr_optional` finds a value, and with that value. */
  lemma {:induction false} GetAttrAgreesWithOptional(lossy: Bytes -> string, attrs: seq<Attribute>, name: string)
    ensures GetAttr(lossy, attrs, name) == GetAttrOptional(lossy, attrs, name).ToResult(MissingAttribute(name))
    decreases |attrs|
  {
    if attrs != [] && !KeyIs(attrs[0], name) {
      GetAttrAgreesWithOptional(lossy, attrs[1..], name);
    }
  }

  /** The only error `get_attr` returns names the attribute that was asked for. */
  lemma {:induction false} GetAttrErrorIsMissing(lossy: Bytes -> string, attrs: seq<Attribute>, name: string)
    ensures GetAttr(lossy, attrs, name).Err? <==> forall i :: 0 <= i < |attrs| ==> !KeyIs(attrs[i], name)
    ensures GetAttr(lossy, attrs, name).Err? ==> GetAttr(lossy, attrs, name).error == MissingAttribute(name)
  {
    GetAttrAgreesWithOptional(lossy, attrs, name);
  }

  // ---------------------------------------------------------------------------
  // usize parsing (`str::parse::<usize>`)
  // ---------------------------------------------------------------------------

  predicate IsDigit(c: char) {
    '0' <= c <= '9'
  }

  predicate AllDigits(s: string) {
    forall i :: 0 <= i < |s| ==> IsDigit(s[i])
  }

  /** The value of a string of decimal digits, most significant first. */
  function DigitsValue(s: string): nat
    requires AllDigits(s)
  {
    if s == [] then 0
    else DigitsValue(s[..|s| - 1]) * 10 + (s[|s| - 1] as int - '0' as int)
  }

  /**
   * `str::parse::<usize>`: an optional `+`, then at least one ASCII digit,
   * and a value that fits in 64 bits; anything else is an error.
   */
  function ParseUsize(s: string): (r: Result<Usize, Error>)
    ensures r.Err? ==> r.error == InvalidInteger(s)
    ensures r.Ok? ==> s != [] && s != "+"
    ensures r.Ok? ==> forall i :: 0 < i < |s| ==> IsDigit(s[i])
    ensures r.Ok? ==> (s[0] == '+' || IsDigit(s[0])) && IsDigit(s[|s| - 1])
  {
    var digits := if s != [] && s[0] == '+' then s[1..] else s;
    if digits != [] && AllDigits(digits) && DigitsValue(digits) < 0x1_0000_0000_0000_0000 then
      Ok(DigitsValue(digits))
    else
      Err(InvalidInteger(s))
  }

  function DigitChar(d: nat): (c: char)
    requires d < 10
    ensures IsDigit(c) && c as int - '0' as int == d
  {
    (d + '0' as int) as char
  }

  /** The shortest decimal spelling of `n` (what `usize::to_string` prints). */
  function Decimal(n: nat): (s: string)
    ensures s != [] && AllDigits(s)
  {
    if n < 10 then [DigitChar(n)] else Decimal(n / 10) + [DigitChar(n % 10)]
  }

  lemma {:induction false} DecimalValue(n: nat)
    ensures DigitsValue(Decimal(n)) == n
  {
    if n >= 10 {
      var s := Decimal(n);
      assert s[..|s| - 1] == Decimal(n / 10);
      DecimalValue(n / 10);
    }
  }

  /** Every `usize`, printed in decimal with or without a `+`, parses back to itself. */
  lemma ParseUsizeOfDecimal(n: Usize)
    ensures ParseUsize(Decimal(n)) == Ok(n)
    ensures ParseUsize("+" + Decimal(n)) == Ok(n)
  {
    DecimalValue(n);
    assert ("+" + Decimal(n))[1..] == Decimal(n);
  }

  /** Leading zeros do not change the value of a digit string. */
  lemma {:induction false} DigitsValueLeadingZeros(zeros: string, d: string)
    requires forall i :: 0 <= i < |zeros| ==> zeros[i] == '0'
    requires AllDigits(d)
    ensures AllDigits(zeros + d) && DigitsValue(zeros + d) == DigitsValue(d)
    decreases |d|
  {
    var s := zeros + d;
    if d == [] {
      assert s == zeros;
      ZerosValue(zeros);
    } else {
      assert s[..|s| - 1] == zeros + d[..|d| - 1];
      DigitsValueLeadingZeros(zeros, d[..|d| - 1]);
    }
  }

  lemma {:induction false} ZerosValue(zeros: string)
    requires forall i :: 0 <= i < |zeros| ==> zeros[i] == '0'
    ensures AllDigits(zeros) && DigitsValue(zeros) == 0
    decreases |zeros|
  {
    if zeros != [] {
      ZerosValue(zeros[..|zeros| - 1]);
    }
  }

  /**
   * A decimal spelling padded with leading zeros, with or without a `+`,
   * parses to the value it spells.
   */
  lemma ParseUsizeLeadingZeros(zeros: string, n: Usize)
    requires forall i :: 0 <= i < |zeros| ==> zeros[i] == '0'
    ensures ParseUsize(zeros + Decimal(n)) == Ok(n)
    ensures ParseUsize("+" + zeros + Decimal(n)) == Ok(n)
  {
    var s := zeros + Decimal(n);
    DecimalValue(n);
    DigitsValueLeadingZeros(zeros, Decimal(n));
    assert IsDigit(s[0]);
    ParseUsizeOfDigits(s);
    var t := "+" + zeros + Decimal(n);
    assert t == "+" + s && t[0] == '+' && t[1..] == s;
  }

  /** A signless digit string whose value fits parses to that value. */
  lemma ParseUsizeOfDigits(s: string)
    requires s != [] && AllDigits(s) && DigitsValue(s) < 0x1_0000_0000_0000_0000
    ensures ParseUsize(s) == Ok(DigitsValue(s))
  {
    assert IsDigit(s[0]);
  }

  /** A value of 2^64 or more is rejected rather than wrapped. */
  lemma ParseUsizeRejectsOverflow(n: nat)
    requires n >= 0x1_0000_0000_0000_0000
    ensures ParseUsize(Decimal(n)) == Err(InvalidInteger(Decimal(n)))
  {
    DecimalValue(n);
  }

  /** The empty string, a lone sign and a leading `-` are rejected. */
  lemma ParseUsizeRejectsSigns(s: string)
    ensures ParseUsize("").Err?
    ensures ParseUsize("+").Err?
    ensures ParseUsize("-" + s).Err?
  {
    assert ("-" + s)[0] == '-';
  }
}

module Decoding {
  import opened Wrappers
  import opened Models

  // ---------------------------------------------------------------------------
  // Little-endian byte chunks
  // ---------------------------------------------------------------------------

  /** The offset of the `i`-th `k`-byte chunk, built up one chunk at a time. */
  function Offset(k: nat, i: nat): nat {
    if i == 0 then 0 else Offset(k, i - 1) + k
  }

  lemma {:induction false} OffsetIsProduct(k: nat, i: nat)
    ensures Offset(k, i) == k * i
  {
    if i > 0 {
      OffsetIsProduct(k, i - 1);
    }
  }

  lemma OffsetsAreProducts(k: nat, n: nat)
    ensures forall i {:trigger Offset(k, i)} :: 0 <= i < n ==> Offset(k, i) == k * i
  {
    forall i | 0 <= i < n ensures Offset(k, i) == k * i {
      OffsetIsProduct(k, i);
    }
  }

  /**
   * `chunks_exact(k)`: consecutive `k`-byte windows starting at offset 0; a
   * remainder shorter than `k` is dropped.
   */
  function ChunksExact(b: Bytes, k: nat): seq<Bytes>
    requires k > 0
    decreases |b|
  {
    if |b| < k then [] else [b[..k]] + ChunksExact(b[k..], k)
  }

  /**
   * There are as many chunks as whole windows fit in `b`, and chunk `i` is
   * the window that starts at offset `k * i`.
   */
  lemma {:induction false} ChunksExactWindows(b: Bytes, k: nat)
    requires k > 0
    ensures var r := ChunksExact(b, k);
      Offset(k, |r|) <= |b| < Offset(k, |r|) + k &&
      forall i {:trigger r[i]} :: 0 <= i < |r| ==>
        Offset(k, i) + k <= |b| && r[i] == b[Offset(k, i) .. Offset(k, i) + k]
    decreases |b|
  {
    if |b| >= k {
      var rest := ChunksExact(b[k..], k);
      ChunksExactWindows(b[k..], k);
      var r := ChunksExact(b, k);
      assert r == [b[..k]] + rest;
      forall i | 0 <= i < |r|
        ensures Offset(k, i) + k <= |b| && r[i] == b[Offset(k, i) .. Offset(k, i) + k]
      {
        if i > 0 {
          assert r[i] == rest[i - 1];
          ShiftedWindow(b, k, i, rest[i - 1]);
        }
      }
    }
  }

  /** Window `i - 1` of `b[k..]` is window `i` of `b`. */
  lemma ShiftedWindow(b: Bytes, k: nat, i: nat, chunk: Bytes)
    requires 0 < k <= |b| && 0 < i
    requires Offset(k, i - 1) + k <= |b| - k
    requires chunk == b[k..][Offset(k, i - 1) .. Offset(k, i - 1) + k]
    ensures Offset(k, i) + k <= |b| && chunk == b[Offset(k, i) .. Offset(k, i) + k]
  {
    var lo := Offset(k, i - 1);
    assert Offset(k, i) == lo + k;
    assert b[k..][lo .. lo + k] == b[lo + k .. lo + k + k];
  }

  /** A count bracketed as in `ChunksExact` is the quotient, for the two chunk widths in use. */
  lemma ChunkCount(n: nat, k: nat, q: nat)
    requires k == 4 || k == 8
    requires Offset(k, q) <= n < Offset(k, q) + k
    ensures q == n / k
  {
    OffsetIsProduct(k, q);
  }

  function Pow256(n: nat): nat {
    if n == 0 then 1 else 0x100 * Pow256(n - 1)
  }

  lemma Pow256Widths()
    ensures Pow256(4) == 0x1_0000_0000
    ensures Pow256(8) == 0x1_0000_0000_0000_0000
  {
    assert Pow256(2) == 0x1_0000 by { assert Pow256(1) == 0x100; }
    assert Pow256(4) == 0x1_0000_0000 by { assert Pow256(3) == 0x100_0000; }
    assert Pow256(6) == 0x1_0000_0000_0000 by { assert Pow256(5) == 0x100_0000_0000; }
    assert Pow256(8) == 0x1_0000_0000_0000_0000 by { assert Pow256(7) == 0x100_0000_0000_0000; }
  }

  /** The unsigned value of a little-endian byte string: the first byte is the least significant. */
  function LeValue(c: Bytes): (v: nat)
    ensures v < Pow256(|c|)
  {
    if c == [] then 0 else c[0] + 0x100 * LeValue(c[1..])
  }

  /** `f32::from_le_bytes`, as a bit pattern. */
  function F32FromLeBytes(c: Bytes): F32Bits
    requires |c| == 4
  {
    Pow256Widths();
    LeValue(c)
  }

  /** `f64::from_le_bytes`, as a bit pattern. */
  function F64FromLeBytes(c: Bytes): F64Bits
    requires |c| == 8
  {
    Pow256Widths();
    LeValue(c)
  }

  /** `f64::from_le_bytes(c) as f32`, as a bit pattern. */
  function NarrowedF64FromLeBytes(ext: Externals, c: Bytes): F32Bits
    requires |c| == 8
  {
    ext.narrowToF32(F64FromLeBytes(c))
  }

  /** `to_le_bytes`: the `n` least significant bytes of `x`, least significant first. */
  function LeBytes(x: nat, n: nat): (c: Bytes)
    ensures |c| == n
  {
    if n == 0 then [] else [x % 0x100] + LeBytes(x / 0x100, n - 1)
  }

  /** Reading back what `LeBytes` wrote gives the value, when it fits in `n` bytes. */
  lemma {:induction false} LeValueOfLeBytes(x: nat, n: nat)
    requires x < Pow256(n)
    ensures LeValue(LeBytes(x, n)) == x
  {
    if n > 0 {
      var c := LeBytes(x, n);
      assert c[1..] == LeBytes(x / 0x100, n - 1);
      LeValueOfLeBytes(x / 0x100, n - 1);
    }
  }

  // ---------------------------------------------------------------------------
  // decode_binary_data
  // ---------------------------------------------------------------------------

  /** The three compression tags that select a codec; every other tag selects none. */
  predicate IsCodecTag(compression: Option<string>) {
    compression == Some("zlib") ||
    compression == Some("MS-Numpress linear") ||
    compression == Some("MS-Numpress slof")
  }

  /**
   * The decompression step: dispatch on the exact tag, passing the bytes
   * through when the tag is absent or unknown.
   */
  function Decompress(ext: Externals, compression: Option<string>, raw: Bytes): (r: Result<Bytes, Error>)
    ensures !IsCodecTag(compression) ==> r == Ok(raw)
    ensures compression == Some("zlib") ==> r == ext.zlibInflate(raw).ToResult(ZlibFailed)
    ensures compression == Some("MS-Numpress linear") ==> r == ext.numpressLinear(raw).ToResult(LinearFailed)
    ensures compression == Some("MS-Numpress slof") ==> r == ext.numpressSlof(raw).ToResult(SlofFailed)
  {
    if compression == Some("zlib") then
      ext.zlibInflate(raw).ToResult(ZlibFailed)
    else if compression == Some("MS-Numpress linear") then
      ext.numpressLinear(raw).ToResult(LinearFailed)
    else if compression == Some("MS-Numpress slof") then
      ext.numpressSlof(raw).ToResult(SlofFailed)
    else
      Ok(raw)
  }

  /**
   * The precision step: output element `i` is read from bytes `[4i, 4i+4)`
   * (or `[8i, 8i+8)`, narrowed to `f32`) of the decompressed data; an
   * incomplete last chunk is dropped; an unknown tag is an error.
   */
  function Reinterpret(ext: Externals, precision: string, data: Bytes): (r: Result<seq<F32Bits>, Error>)
    ensures precision == "32-bit float" ==>
      r.Ok? && |r.value| == |data| / 4 &&
      forall i :: 0 <= i < |r.value| ==> r.value[i] == F32FromLeBytes(data[4 * i .. 4 * i + 4])
    ensures precision == "64-bit float" ==>
      r.Ok? && |r.value| == |data| / 8 &&
      forall i :: 0 <= i < |r.value| ==> r.value[i] == NarrowedF64FromLeBytes(ext, data[8 * i .. 8 * i + 8])
    ensures precision != "32-bit float" && precision != "64-bit float" ==> r == Err(UnknownPrecision(precision))
  {
    if precision == "32-bit float" then
      var chunks := ChunksExact(data, 4);
      ChunksExactWindows(data, 4);
      ChunkCount(|data|, 4, |chunks|);
      OffsetsAreProducts(4, |chunks|);
      Ok(seq(|chunks|, i requires 0 <= i < |chunks| => F32FromLeBytes(chunks[i])))
    else if precision == "64-bit float" then
      var chunks := ChunksExact(data, 8);
      ChunksExactWindows(data, 8);
      ChunkCount(|data|, 8, |chunks|);
      OffsetsAreProducts(8, |chunks|);
      Ok(seq(|chunks|, i requires 0 <= i < |chunks| => NarrowedF64FromLeBytes(ext, chunks[i])))
    else
      Err(UnknownPrecision(precision))
  }

  /**
   * `decode_binary_data`: base64, then decompression, then reinterpretation,
   * each failure ending the pipeline before the next step runs.
   */
  function DecodeBinaryData(ext: Externals, encoded: string, compression: Option<string>, precision: string)
    : (r: Result<seq<F32Bits>, Error>)
    ensures ext.base64Decode(encoded).None? ==> r == Err(Base64Failed)
    ensures r.Ok? ==> precision == "32-bit float" || precision == "64-bit float"
    ensures r.Err? && r.error != Base64Failed ==>
      (ext.base64Decode(encoded).Some? && IsCodecTag(compression)) || r.error == UnknownPrecision(precision)
    ensures r.Err? && r.error == UnknownPrecision(precision) ==>
      ext.base64Decode(encoded).Some? && Decompress(ext, compression, ext.base64Decode(encoded).value).Ok?
    ensures ext.base64Decode(encoded).Some? ==>
      var data := Decompress(ext, compression, ext.base64Decode(encoded).value);
      (data.Err? ==> r == Err(data.error)) &&
      (data.Ok? ==> r == Reinterpret(ext, precision, data.value))
  {
    var raw :- ext.base64Decode(encoded).ToResult(Base64Failed);
    var data :- Decompress(ext, compression, raw);
    Reinterpret(ext, precision, data)
  }
}

/** Properties of the payload decoder. */
module DecodingProps {
  import opened Wrappers
  import opened Models
  import opened Decoding

  /** 1 to 3 bytes after a whole number of `f32` chunks are dropped, not rejected. */
  lemma TrailingBytesDropped32(ext: Externals, data: Bytes, tail: Bytes)
    requires |data| % 4 == 0 && |tail| < 4
    ensures Reinterpret(ext, "32-bit float", data + tail) == Reinterpret(ext, "32-bit float", data)
  {
    var r, r' := Reinterpret(ext, "32-bit float", data + tail), Reinterpret(ext, "32-bit float", data);
    assert |r.value| == |r'.value|;
    forall i | 0 <= i < |r.value| ensures r.value[i] == r'.value[i] {
      assert (data + tail)[4 * i .. 4 * i + 4] == data[4 * i .. 4 * i + 4];
    }
    assert r.value == r'.value;
  }

  /** 1 to 7 bytes after a whole number of `f64` chunks are dropped, not rejected. */
  lemma TrailingBytesDropped64(ext: Externals, data: Bytes, tail: Bytes)
    requires |data| % 8 == 0 && |tail| < 8
    ensures Reinterpret(ext, "64-bit float", data + tail) == Reinterpret(ext, "64-bit float", data)
  {
    var r, r' := Reinterpret(ext, "64-bit float", data + tail), Reinterpret(ext, "64-bit float", data);
    assert |r.value| == |r'.value|;
    forall i | 0 <= i < |r.value| ensures r.value[i] == r'.value[i] {
      assert (data + tail)[8 * i .. 8 * i + 8] == data[8 * i .. 8 * i + 8];
    }
    assert r.value == r'.value;
  }

  /** The little-endian `w`-byte encodings of `xs`, one after another (`to_le_bytes` of each). */
  function LeEncode(xs: seq<nat>, w: nat): (b: Bytes)
    ensures |b| == Offset(w, |xs|)
  {
    if xs == [] then [] else LeEncode(xs[..|xs| - 1], w) + LeBytes(xs[|xs| - 1], w)
  }

  /** Window `i` of an encoding holds the encoding of `xs[i]`. */
  lemma {:induction false} LeEncodeWindow(xs: seq<nat>, w: nat, i: nat)
    requires i < |xs|
    ensures Offset(w, i) + w <= |LeEncode(xs, w)|
    ensures LeEncode(xs, w)[Offset(w, i) .. Offset(w, i) + w] == LeBytes(xs[i], w)
    decreases |xs|
  {
    var front := xs[..|xs| - 1];
    assert LeEncode(xs, w) == LeEncode(front, w) + LeBytes(xs[|xs| - 1], w);
    if i < |xs| - 1 {
      LeEncodeWindow(front, w, i);
      OffsetMonotone(w, i + 1, |front|);
    }
  }

  lemma {:induction false} OffsetMonotone(k: nat, i: nat, n: nat)
    requires i <= n
    ensures Offset(k, i) <= Offset(k, n)
    decreases n
  {
    if i < n {
      OffsetMonotone(k, i, n - 1);
    }
  }

  lemma F32BytesRoundTrip(x: F32Bits)
    ensures F32FromLeBytes(LeBytes(x, 4)) == x
  {
    Pow256Widths();
    LeValueOfLeBytes(x, 4);
  }

  lemma F64BytesRoundTrip(y: F64Bits)
    ensures F64FromLeBytes(LeBytes(y, 8)) == y
  {
    Pow256Widths();
    LeValueOfLeBytes(y, 8);
  }

  /** Encoding `f32` bit patterns little-endian and decoding them as "32-bit float" gives them back. */
  lemma RoundTrip32(ext: Externals, xs: seq<F32Bits>)
    ensures Reinterpret(ext, "32-bit float", LeEncode(xs, 4)) == Ok(xs)
  {
    var r := Reinterpret(ext, "32-bit float", LeEncode(xs, 4)).value;
    OffsetIsProduct(4, |xs|);
    forall i | 0 <= i < |xs| ensures r[i] == xs[i] {
      RoundTrip32At(ext, xs, i);
    }
    assert r == xs;
  }

  lemma RoundTrip32At(ext: Externals, xs: seq<F32Bits>, i: nat)
    requires i < |xs|
    ensures var r := Reinterpret(ext, "32-bit float", LeEncode(xs, 4)).value;
      i < |r| && r[i] == xs[i]
  {
    var data := LeEncode(xs, 4);
    OffsetIsProduct(4, |xs|);
    LeEncodeWindow(xs, 4, i);
    OffsetIsProduct(4, i);
    assert data[4 * i .. 4 * i + 4] == LeBytes(xs[i], 4);
    F32BytesRoundTrip(xs[i]);
  }

  /** Encoding `f64` bit patterns and decoding them as "64-bit float" gives their `f32` narrowings. */
  lemma RoundTrip64(ext: Externals, ys: seq<F64Bits>)
    ensures Reinterpret(ext, "64-bit float", LeEncode(ys, 8)).Ok?
    ensures var r := Reinterpret(ext, "64-bit float", LeEncode(ys, 8)).value;
      |r| == |ys| && forall i :: 0 <= i < |ys| ==> r[i] == ext.narrowToF32(ys[i])
  {
    var data := LeEncode(ys, 8);
    var r := Reinterpret(ext, "64-bit float", data).value;
    OffsetIsProduct(8, |ys|);
    assert |r| == |ys|;
    forall i | 0 <= i < |ys| ensures r[i] == ext.narrowToF32(ys[i]) {
      LeEncodeWindow(ys, 8, i);
      OffsetIsProduct(8, i);
      assert data[8 * i .. 8 * i + 8] == LeBytes(ys[i], 8);
      F64BytesRoundTrip(ys[i]);
    }
  }

  /**
   * An uncompressed payload whose base64 text carries the little-endian
   * encoding of `xs` decodes to exactly `xs`.
   */
  lemma DecodeUncompressedRoundTrip(ext: Externals, text: string, compression: Option<string>, xs: seq<F32Bits>)
    requires ext.base64Decode(text) == Some(LeEncode(xs, 4))
    requires !IsCodecTag(compression)
    ensures DecodeBinaryData(ext, text, compression, "32-bit float") == Ok(xs)
  {
    RoundTrip32(ext, xs);
  }

  /**
   * An uncompressed payload whose base64 text carries the little-endian
   * encoding of the `f64` bit patterns `ys` decodes, as "64-bit float", to
   * their `f32` narrowings, one per value.
   */
  lemma DecodeUncompressedRoundTrip64(ext: Externals, text: string, compression: Option<string>, ys: seq<F64Bits>)
    requires ext.base64Decode(text) == Some(LeEncode(ys, 8))
    requires !IsCodecTag(compression)
    ensures var r := DecodeBinaryData(ext, text, compression, "64-bit float");
      r.Ok? && |r.value| == |ys| && forall i :: 0 <= i < |ys| ==> r.value[i] == ext.narrowToF32(ys[i])
  {
    RoundTrip64(ext, ys);
  }

  /** With a recognised precision, the decoder fails only in base64 decoding or in a codec. */
  lemma DecodeFailsOnlyUpstream(ext: Externals, text: string, compression: Option<string>, precision: string)
    requires precision == "32-bit float" || precision == "64-bit float"
    ensures DecodeBinaryData(ext, text, compression, precision).Err? <==>
      ext.base64Decode(text).None? || Decompress(ext, compression, ext.base64Decode(text).value).Err?
  {
  }
}
