# libms mzML parser, modelled in Dafny

libms reads an mzML mass-spectrometry document into a tree of Rust values: a
`Run` holding `Spectrum`s, each holding `BinaryDataArray`s whose base64 payload
is decoded into `f32` values. This project models the core of that library:

- **`parse_mzml`** (src/lib.rs) is a single pass over the XML tokenizer's events
  that fills nine local slots and returns the run or an error.
  - `Walker.Step` is one iteration of the loop, as a function of an explicit
    context record `Walker.Ctx` (the slots, with the event buffer aside).
  - `Walker.Walk` and `Walker.ParseMzml` fold `Step` over the event sequence.
  - `Walker.Parse` is the loop itself: an imperative method over eight local
    variables, proved equal to `ParseMzml`.
- **The compression and precision hints** (src/lib.rs:55-74) are first-match
  searches over an array's cv params: `Walker.FindName`, `CompressionHint` and
  `PrecisionHint`.
- **`decode_binary_data`** (src/utils.rs:7-38) is modelled as
  `Decoding.DecodeBinaryData`. It runs base64 decoding, then an exact-tag
  decompression dispatch (`Decompress`), then exact-chunk little-endian
  reinterpretation (`Reinterpret` over `ChunksExact`).
- **`get_attr` and `get_attr_optional`** (src/utils.rs:40-62) are first-match
  searches over attributes, some of which may be malformed: `Utils.GetAttr` and
  `Utils.GetAttrOptional`.
- **The record types of src/models.rs** are the datatypes of module `Models`.
  - `usize` fields are naturals below 2^64.
  - `f32` and `f64` values are their IEEE 754 bit patterns.

The tokenizer is an event sequence. Its end counts as end of file. On a
`Start` event, the text that `read_text` would return for that element (or
`None` when reading fails) rides along with the event. The external codecs and
conversions are total functions held in `Models.Externals`, passed as a
parameter:

- base64 (RFC 4648 section 4);
- zlib inflation (RFC 1950);
- MS-Numpress linear and slof;
- the `f64` to `f32` narrowing;
- `String::from_utf8_lossy`.

Each codec returns `None` for its error. The single `anyhow::Error` of the
source becomes one `Models.Error` value per place an error is raised.

Where the code does something other than what one might expect, the model
follows the code:

- A payload whose length is not a multiple of 4 (or 8) is not rejected. The
  incomplete last chunk is dropped (`chunks_exact`).
- No cv param is ever collected. The accumulator and every array's cv params
  stay empty, so every decode the walker issues is uncompressed "32-bit float".
- A compression hint always contains "compression", so it never equals one of
  the exact codec tags. Decompression is therefore a pass-through for every
  decode the walker issues.
- A tokenizer error ends the loop as quietly as end of file does.
- A run that is never closed is returned with no spectra.
- Nothing checks the decoded length against `defaultArrayLength`.

## Model

| member | source | states |
|---|---|---|
| Utils.GetAttrOptional | src/utils.rs:53-62 | `None` exactly when no well-formed attribute has the key. Otherwise the value is the lossy decoding of the first such attribute, with malformed ones skipped. |
| Utils.GetAttrAgreesWithOptional | src/utils.rs:40-62 | `get_attr` is `Ok(v)` exactly when `get_attr_optional` is `Some(v)`, and otherwise `MissingAttribute(name)`. |
| Utils.GetAttrErrorIsMissing | src/utils.rs:40-51 | `get_attr` fails if and only if no well-formed attribute has the key, and its only error names the attribute. |
| Utils.GetAttr | src/utils.rs:40-51 | Its only error is `MissingAttribute` of the requested name. The rest is specified by `GetAttrAgreesWithOptional` and `GetAttrErrorIsMissing`. |
| Utils.ParseUsize | src/lib.rs:38-39 | A parse error carries the offending text. A success starts with a digit or `+`, ends with a digit, and has only digits after the first character. The value is specified by `ParseUsizeOfDecimal` and `ParseUsizeLeadingZeros`. |
| Utils.ParseUsizeOfDecimal | src/lib.rs:38-39 | Every `usize` printed in decimal, with or without a leading `+`, parses back to itself. |
| Utils.ParseUsizeLeadingZeros | src/lib.rs:38-39 | A decimal spelling padded with any number of leading zeros, with or without `+`, parses to the value it spells. |
| Utils.ParseUsizeRejectsOverflow | src/models.rs:11-12 | A decimal value of 2^64 or more is an error, not a wrapped value. |
| Utils.ParseUsizeRejectsSigns | src/lib.rs:47 | The empty string, a lone `+` and anything starting with `-` do not parse. |
| Decoding.ChunksExact | src/utils.rs:29 | Has no contract of its own. It is specified by `ChunksExactWindows`. |
| Decoding.ChunksExactWindows | src/utils.rs:29 | `chunks_exact(k)` yields as many chunks as whole windows fit. Chunk `i` is bytes `[k*i, k*i+k)`, and fewer than `k` bytes are left over. |
| Decoding.F32FromLeBytes | src/utils.rs:30 | Has no contract of its own. It reads 4 bytes little-endian, and `F32BytesRoundTrip` shows it inverts the 4-byte encoding. |
| Decoding.F64FromLeBytes | src/utils.rs:34 | Has no contract of its own. It reads 8 bytes little-endian, and `F64BytesRoundTrip` shows it inverts the 8-byte encoding. |
| Decoding.NarrowedF64FromLeBytes | src/utils.rs:34 | Has no contract of its own. It applies the external `f64` to `f32` narrowing to the 8-byte read, as `RoundTrip64` states. |
| Decoding.Decompress | src/utils.rs:13-25 | Dispatch is on the three exact tags, each codec failure maps to its own error, and any other tag or none passes the bytes through unchanged. |
| Decoding.Reinterpret | src/utils.rs:27-37 | For "32-bit float" the output has length ⌊n/4⌋ and element `i` is read little-endian from bytes `[4i, 4i+4)`. "64-bit float" is the same with 8-byte chunks narrowed to `f32`. Any other precision is `UnknownPrecision`. |
| Decoding.DecodeBinaryData | src/utils.rs:7-38 | Once base64 decoding succeeds, the result is the decompression error or the reinterpretation (by `Reinterpret`) of the decompressed bytes under the precision. A base64 failure is the error whatever the other arguments are. Success implies a known precision. Any other error comes from a codec on decoded bytes, or is `UnknownPrecision` after a successful decompression. |
| DecodingProps.TrailingBytesDropped32 | src/utils.rs:28-31 | 1 to 3 bytes after whole `f32` chunks do not change the result. |
| DecodingProps.TrailingBytesDropped64 | src/utils.rs:32-35 | 1 to 7 bytes after whole `f64` chunks do not change the result. |
| DecodingProps.F32BytesRoundTrip | src/utils.rs:30 | `from_le_bytes` inverts `to_le_bytes` on 4-byte values. |
| DecodingProps.F64BytesRoundTrip | src/utils.rs:34 | `from_le_bytes` inverts `to_le_bytes` on 8-byte values. |
| DecodingProps.RoundTrip32 | src/utils.rs:28-31 | Little-endian encoding of `f32` bit patterns followed by "32-bit float" reinterpretation returns them unchanged. |
| DecodingProps.RoundTrip64 | src/utils.rs:32-35 | Little-endian encoding of `f64` bit patterns followed by "64-bit float" reinterpretation returns their `f32` narrowings, one per input. |
| DecodingProps.DecodeUncompressedRoundTrip | src/utils.rs:12-31 | Base64 text carrying the little-endian encoding of `xs` decodes to exactly `xs` under any non-codec compression tag. |
| DecodingProps.DecodeUncompressedRoundTrip64 | src/utils.rs:12-35 | Base64 text carrying the little-endian encoding of `f64` bit patterns decodes as "64-bit float", under any non-codec tag, to their `f32` narrowings, one per value. |
| DecodingProps.DecodeFailsOnlyUpstream | src/utils.rs:12-25 | With a known precision, decoding fails if and only if base64 decoding or the selected codec fails. |
| Walker.FindName | src/lib.rs:55-69 | `find_map` over cv params: `None` exactly when no name qualifies. Otherwise the result is the name of the first param that qualifies. |
| Walker.CompressionHint | src/lib.rs:55-61 | `None` exactly when no cv param name contains "compression". Otherwise it is a name that does; `FindName` says it is the first. |
| Walker.PrecisionHint | src/lib.rs:63-69 | `None` exactly when no cv param name contains "32-bit" or "64-bit". Otherwise it is a name that does; `FindName` says it is the first. |
| Walker.OpenRun | src/lib.rs:28-34 | A run it builds has no spectra. Its only errors are the missing `id` or `startTimeStamp`. |
| Walker.OpenSpectrum | src/lib.rs:35-44 | A spectrum it builds has no cv params, no scan list and no arrays. Its only errors are a missing attribute or an invalid integer. |
| Walker.OpenBinaryDataArray | src/lib.rs:45-51 | An array it builds has no cv params and no decoded data. Its only errors are a missing `encodedLength` or an invalid integer. |
| Walker.DecodeInto | src/lib.rs:53-75 | A failed `read_text` is `ReadTextFailed`. Otherwise the decoder runs on the text with the array's compression hint and its precision hint (defaulting to "32-bit float"). Its result becomes the array's decoded data with no other field changed, and its error is the error. |
| Walker.Step | src/lib.rs:26-104 | Stops exactly on end of file or a reader error, leaving the slots unchanged. Only element openings abort. Otherwise the scan slots are unchanged and the spectrum list grows by at most one at its end. The `<binary>` branch is specified by `DecodeInto`, and every other branch by a `WalkerProps.Step*` lemma. |
| Walker.Walk | src/lib.rs:25-106 | A successful walk leaves the scan slots unchanged, and only appends to the spectrum list, at most one spectrum per event. |
| Walker.ParseMzml | src/lib.rs:11-109 | Has no contract of its own. It is specified by `ParseWithoutRunFails`, `ParseReturnsLastRun`, `ParseAbortsAt`, `RunSpectraAtClose` and `ParsedRunHasNoCvParams`. |
| Walker.Parse | src/lib.rs:11-109 | The imperative event loop over the local slots returns exactly `ParseMzml` of the event sequence. |
| WalkerProps.CompressionHintIsNeverCodecTag | src/lib.rs:55-61 | A derived compression hint is never "zlib", "MS-Numpress linear" or "MS-Numpress slof". |
| WalkerProps.HintedDecompressIsIdentity | src/utils.rs:13-25 | Decompression with any walker-derived hint returns the bytes unchanged. |
| WalkerProps.StepOpenRun | src/lib.rs:28-34 | `<run>` aborts with a missing-attribute error if and only if `id` or `startTimeStamp` is missing. Otherwise only the run slot changes, to a run with those values and no spectra. |
| WalkerProps.StepOpenSpectrum | src/lib.rs:35-44 | `<spectrum>` aborts if and only if `id` is missing, or `index` or `defaultArrayLength` is missing or not a `usize`. Otherwise only the spectrum slot changes, to a fresh spectrum with those values. |
| WalkerProps.StepOpenBinaryDataArray | src/lib.rs:45-51 | `<binaryDataArray>` aborts if and only if `encodedLength` is missing or not a `usize`. Otherwise only the array slot changes, to an array with no cv params and no data. |
| WalkerProps.StepBinaryWithoutArray | src/lib.rs:52-53 | `<binary>` with no open array changes nothing. |
| WalkerProps.StepBinaryDecodes | src/lib.rs:52-77 | `<binary>` on an open array with no cv params (every array a walk holds, by `ParsedRunHasNoCvParams`'s invariant) either stores the decoded values in that array and changes nothing else, or aborts with the read or decode error. |
| WalkerProps.StepCloseSpectrum | src/lib.rs:81-87 | `</spectrum>` with a spectrum open appends it, with the accumulated cv params, at the end of the list, and empties the accumulator and the slot. Other slots are unchanged, and with no spectrum open nothing changes. |
| WalkerProps.StepCloseBinaryDataArray | src/lib.rs:88-94 | `</binaryDataArray>` appends the open array to the open spectrum's arrays, or drops it when no spectrum is open. The array slot is empty afterwards and nothing else changes. |
| WalkerProps.StepCloseRun | src/lib.rs:95-98 | `</run>` sets the open run's spectra to the spectra closed so far and changes nothing else. |
| WalkerProps.StepOtherEvents | src/lib.rs:100-103 | Every unhandled event, self-closing elements included, leaves every slot unchanged. End of file and a reader error leave the loop. |
| WalkerProps.WalkSeesOnlyLive | src/lib.rs:25-106 | Events after the first end of file or reader error have no effect on the walk. |
| WalkerProps.ParseAbortsAt | src/lib.rs:28-75 | An event whose step fails makes the whole parse fail with that error, whatever follows it. |
| WalkerProps.WalkRunSlot | src/lib.rs:28-34 | After a walk, the run slot holds the last opened run, with that opening's `id` and `startTimeStamp`. With no opening, the slot keeps its presence, `id` and `startTimeStamp`; a `</run>` may still set its spectra. |
| WalkerProps.ParseWithoutRunFails | src/lib.rs:108 | With no `<run>` before the loop ends, the result is an error. |
| WalkerProps.ParseReturnsLastRun | src/lib.rs:16-108 | A parsed run is the last one opened before the loop ended, with that opening's attributes. |
| WalkerProps.WalkClosesSpectraInOrder | src/lib.rs:81-87 | A walk only appends to the spectrum list. What it appends has the ids of the spectra closed by the events, in closing order, one per `</spectrum>` that finds a spectrum open. |
| WalkerProps.RunSpectraAtClose | src/lib.rs:95-98 | The spectra stored by `</run>` are exactly the spectra closed before it, in document order. |
| WalkerProps.ParseWithoutRunCloseHasNoSpectra | src/lib.rs:29-33 | A run that is never closed is returned with no spectra. |
| WalkerProps.ParsedRunHasNoCvParams | src/lib.rs:81-85 | Every spectrum and every array of a parsed run has empty cv params. |
| WalkerProps.WalkerDecodesUncompressed32 | src/lib.rs:55-75 | Every decode the walker issues gets the element's text, no compression and "32-bit float". |
| MinimalDocument.ParseMinimalDocument | src/lib.rs:11-109 | A document with one run, one spectrum and one array parses to that run, with the attribute values of the three openings. The array declares "64-bit float" and "zlib compression" in self-closing cv params. Those params are not collected, and the array's data are the values the base64 text encodes as uncompressed little-endian `f32`s. |

## Left out

- The quick_xml tokenizer and `read_text` are not modelled: the walker receives a finite event sequence. What `read_text` would return rides on the `Start` event, and the text it consumes from the stream is not modelled.
- `base64::decode`, `ZlibDecoder`, msnumpress `decode_linear`/`decode_slof`, the `f64` to `f32` narrowing and `String::from_utf8_lossy` are parameters (`Models.Externals`). IEEE 754 values are represented by their bit patterns, and floating-point arithmetic is not modelled.
- The event buffer `buf` and its clearing are omitted. The buffer only holds the bytes of the event being read.
- The `current_scan_list`, `current_scan` and `current_scan_window` slots are declared and never changed. They are kept in `Walker.Ctx` and proved unchanged, and their types are modelled.
- Utils.ParseUsize: models `str::parse::<usize>` for a 64-bit target only.
- Error messages, and the context strings `anyhow` attaches to them, are not modelled. The variant of `Models.Error` identifies the failure.
- Clones at src/lib.rs:83 and src/lib.rs:97 are value copies. Datatypes have no aliasing, so sharing is not modelled.
- src/main.rs (file loading and printing) and python_test.py (a pyopenms/numpy comparison script) are not part of this model.
