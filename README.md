# BiquadFilterType codec and node-graph contract of a cross-platform Web Audio API wrapper

This project models, in Dafny, the self-contained logic of the `geng-web-audio-api`
crate, whose public surface forwards almost everything to a platform backend
(a native engine or the browser's Web Audio API):

- `BiquadFilterType`, the closed enum of eight filter shapes, with its
  `FromStr` parser (`Parse`) returning the unit error
  `IncorrectBiquadFilterType`, its `Display` impl, and its serde
  `Serialize` / `Deserialize` impls, which go through the textual form.
  `Format` is the token the `Display` match selects. `Display(t, spec)` is
  what `Display::fmt` writes under a format spec: it ends in `s.fmt(f)`,
  which goes through Rust's `Formatter::pad`, so a width, fill, alignment or
  precision in the spec pads or cuts the token (`{:>9}` gives
  `"    notch"`, `{:.3}` gives `"low"`). A plain `{}`, as in `to_string()`
  and in `format!("{self}")` used by `Serialize`, prints the token itself.
  Between the eight variants and the eight lowercase tokens
  `lowpass highpass bandpass notch allpass peaking lowshelf highshelf` the
  codec is a bijection. Every other string is rejected, including other
  spellings of case, the empty string, padded tokens and truncated tokens.
- `DistanceModel` and its `#[default]` variant `Inverse`.
- The `AudioNode` connection contract: `connect` returns the sink it was
  given, and `disconnect` removes every outgoing connection of the node.
  The connections themselves live in the backend; the model represents them
  as an explicit value `Graph` (a list of directed edges) that the
  operations take and return. It is an abstraction of backend state, not
  state the crate holds.
- Repeated connections: the model records a repeated `connect` of the same
  pair as a second edge. The W3C Web Audio API specification, which the
  browser backend implements, says that multiple connections with the same
  termini are ignored. The multiset model is the more permissive choice.
  `AudioGraph.ConnectRepeated` shows that a `connect` of a pair that is
  already connected changes no node's set of sinks, so the two policies
  agree on which nodes each node feeds; they differ only in the edge's
  multiplicity, and `disconnect` removes every copy at once.

Files: `wrappers.dfy` (`Option`, `Result`), `fmt.dfy` (module `Fmt`:
`Formatter::pad`), `utf8.dfy` (module `Utf8`: UTF-8 decoding as
`str::from_utf8` does it, and the encoding it inverts), `biquad_filter_type.dfy` (module `FilterType`:
enum, codec, `Display`, serde), `panner.dfy` (module `Panner`:
`DistanceModel`), `audio_graph.dfy` (module `AudioGraph`: connect/disconnect).

Serde is modelled at the level of the values a data format exchanges with
`String`'s serde impls. Serialising emits a string (`StrContent`).
Deserialising goes through `String`'s visitor:
- a string is taken as is;
- a single character becomes a one-character string;
- a byte string is accepted only if it is valid UTF-8, otherwise it fails
  with `InvalidValue`;
- any other kind of value fails with `InvalidType`, which the `?` on
  `String::deserialize` propagates.

The resulting string is then parsed. A parse failure becomes
`Custom("Incorrect biquad filter type")`, the text the error type's
`#[error]` attribute declares.

## Model

| member | source | states |
|---|---|---|
| `FilterType.Format` | src/lib.rs:262-273 | the token the `Display` match selects is, for every variant, one of the eight tokens and a non-empty word of lowercase ASCII letters |
| `FilterType.Parse` | src/lib.rs:245-260 | parsing succeeds exactly on the eight tokens, and the variant it returns prints back as the input string; everything else is `Err(IncorrectBiquadFilterType)` |
| `FilterType.ParseFormat` | src/lib.rs:245-276 | round trip: parsing the printed form of any variant gives that variant |
| `FilterType.FormatParse` | src/lib.rs:248-273 | reverse round trip: if a string parses to a variant, that variant prints as the same string |
| `FilterType.FormatInjective` | src/lib.rs:264-273 | distinct variants never share a token |
| `FilterType.AcceptedIsImage` | src/lib.rs:248-273 | a string is accepted if and only if it is the printed form of some variant |
| `FilterType.FormatBijection` | src/lib.rs:196-273 | every variant is among the eight declared ones, the i-th declared variant prints as the i-th token, and the eight tokens are pairwise distinct |
| `FilterType.FormatAt` | src/lib.rs:248-273 | the i-th declared variant prints as the i-th token, and that token parses to it |
| `FilterType.NoTokenIsProperPrefix` | src/lib.rs:264-273 | no token is a proper prefix of another |
| `FilterType.RejectsNonLower` | src/lib.rs:257 | any string containing a character outside `a`..`z` (an upper-case letter, a space, a hyphen) is rejected |
| `FilterType.CaseSensitive` | src/lib.rs:248-257 | a spelling of an accepted token that upper-cases some of its letters is rejected |
| `FilterType.RejectionExamples` | src/lib.rs:257 | `"Lowpass"`, `"LOWPASS"`, `""`, `" lowpass"`, `"lowpass "` and `"band-pass"` are rejected |
| `FilterType.Display` | src/lib.rs:262-276 | under a plain `{}` spec `Display` writes exactly the token; without a precision the whole token appears after the leading fill; with a width the text is at least that wide |
| `FilterType.DisplayTruncatedRejected` | src/lib.rs:274 | a precision shorter than the token writes a proper prefix of it, and that text does not parse |
| `FilterType.DisplayPaddedRejected` | src/lib.rs:274 | a width wider than the token as cut by the precision, with a fill other than a lowercase letter, writes text that does not parse |
| `FilterType.DisplayRightExample` | src/lib.rs:274 | `{:>9}` writes `Notch` as `"    notch"` |
| `FilterType.DisplayCenterExample` | src/lib.rs:274 | `{:*^9}` writes `Notch` as `"**notch**"` |
| `FilterType.DisplayPrecisionExamples` | src/lib.rs:274 | `{:.3}` writes `Lowpass` as `"low"`, and `{:.0}` writes the empty string |
| `Fmt.Truncate` | src/lib.rs:274 | a precision keeps a prefix of the text, of length the precision when that is shorter than the text |
| `Fmt.Padding` | src/lib.rs:274 | the fill is split before and after the text so that it adds up to the padding: all after for left (the default for a string), all before for right, and at most one more after than before for centre |
| `Fmt.Pad` | src/lib.rs:274 | without width and precision the text is written as is; otherwise the result is as long as the larger of the width and the cut text, holds the cut text intact after the leading fill, and holds the fill character everywhere else |
| `FilterType.Serialize` | src/lib.rs:222-229 | serialisation emits a lowercase string that parses back to the serialised variant |
| `FilterType.VisitString` | src/lib.rs:236 | `String::deserialize` accepts a string, a character (as a one-character string) and a UTF-8 byte string (as its decoding); other bytes fail with `InvalidValue`, any other kind of value with `InvalidType` |
| `FilterType.Deserialize` | src/lib.rs:231-239 | deserialisation succeeds exactly when `String::deserialize` does and its string parses, with the variant whose token is that string; a `String::deserialize` error is passed through; a parse failure becomes a custom error with the parse error's message |
| `FilterType.SerdeRoundTrip` | src/lib.rs:222-239 | deserialising the serialised form of any variant gives that variant |
| `FilterType.DeserializeStr` | src/lib.rs:236-237 | deserialising a string gives `from_str`'s result, with its error mapped to the custom error |
| `FilterType.DeserializeUnknownToken` | src/lib.rs:236-243 | a string that is not a token deserialises to `Custom("Incorrect biquad filter type")`, the `#[error]` text of `IncorrectBiquadFilterType` |
| `FilterType.DeserializeChar` | src/lib.rs:236-237 | a single character is read as a string but never names a filter type, so it fails with the custom error |
| `FilterType.DeserializeBytes` | src/lib.rs:236-237 | a byte string deserialises to a variant exactly when it is the UTF-8 encoding of that variant's token, which is one byte per character |
| `FilterType.DeserializeEncoding` | src/lib.rs:236-237 | the UTF-8 encoding of any variant's token deserialises to that variant |
| `Utf8.DecodeFirst` | src/lib.rs:236 | a sequence is one to four bytes; an ASCII byte decodes to the character with that code; a non-ASCII lead byte never decodes to an ASCII character |
| `Utf8.Decode` | src/lib.rs:236 | a successful decoding has at most one character per byte and at least one per four bytes |
| `Utf8.EncodeChar` | src/lib.rs:236 | a character encodes to one to four bytes, to one byte (its code) exactly when it is ASCII |
| `Utf8.Encode` | src/lib.rs:236 | a string encodes to between one and four bytes per character |
| `Utf8.DecodeFirstEncodeChar` | src/lib.rs:236 | the encoding of a character, followed by any bytes, decodes first to that character and consumes exactly its bytes |
| `Utf8.EncodeCharOfDecodeFirst` | src/lib.rs:236 | the bytes a decoding step consumes are exactly the shortest-form encoding of the character it yields: no overlong form, surrogate or code point above U+10FFFF is accepted |
| `Utf8.DecodeEncode` | src/lib.rs:236 | decoding the encoding of any string gives the string back |
| `Utf8.EncodeDecode` | src/lib.rs:236 | the only byte string that decodes to a string is that string's encoding |
| `Utf8.EncodeAscii` | src/lib.rs:236 | an ASCII string is encoded one byte per character, each byte the character's code |
| `Panner.DefaultDistanceModel` | src/lib.rs:105-111 | the default distance model is `Inverse` |
| `AudioGraph.Connect` | src/lib.rs:9-12 | `connect` returns the sink it was given, adds exactly one edge from the node to the sink, and keeps every other edge |
| `AudioGraph.ConnectRepeated` | src/lib.rs:9-12 | a `connect` of a pair that is already connected changes no node's set of sinks and leaves that edge recorded at least twice |
| `AudioGraph.WithoutOutgoing` | src/lib.rs:14-17 | removing a node's outgoing edges keeps no edge leaving the node and keeps every other edge with its multiplicity |
| `AudioGraph.Disconnect` | src/lib.rs:14-17 | after `disconnect` the node feeds nothing; every edge not leaving it, including edges into it, is kept with its multiplicity |
| `AudioGraph.DisconnectIdle` | src/lib.rs:14-17 | disconnecting a node with no outgoing edges changes nothing |
| `AudioGraph.DisconnectIdempotent` | src/lib.rs:14-17 | disconnecting twice is the same as disconnecting once |
| `AudioGraph.DisconnectAfterConnect` | src/lib.rs:9-17 | a `disconnect` of the source removes exactly what an earlier `connect` from it added |
| `AudioGraph.FanOutThenDisconnect` | src/lib.rs:9-17 | a node connected to two sinks feeds both; after `disconnect` it feeds neither, and all other nodes' edges are as before the two connects |
| `AudioGraph.ChainedConnect` | src/lib.rs:9-12 | chaining on the returned sink (`source.connect(&panner)`, then `panner.connect(&destination)`) builds the path source, panner, destination |

## Left out

- FilterType.Display: the `fmt::Result` of `Display::fmt` is not modelled; a writer error from the underlying buffer is not represented, and `Display` always produces its text. The `#` and `+` flags and `Formatter`'s other fields play no part in `Formatter::pad` and are not modelled.
- FilterType.VisitString: the `String` visitor's `visit_string` and `visit_byte_buf` (owned forms) are folded into `StrContent` and `BytesContent`; which of the borrowed or owned forms a data format calls is not modelled.
- The `platform` backend module (src/lib.rs:1) is not part of this model; every operation that only forwards to it is left out for that reason: `AudioParam` automation (`set_value`, ramps, `cancel_scheduled_changes`, `value`), `AudioContext` (`new`, `destination`, `listener`, `current_time`), the listener, panner and buffer-source setters (`set_distance_model`, `set_position`, `start_with_offset`, `stop`, ...), `AudioBuffer::duration`, and the `BiquadFilterNode` parameters and `set_type`.
- `AudioContext::decode`: asynchronous, and the decoding is done by the backend engine.
- Floating-point values (times, positions, distances, parameter values): their meaning is computed by the backend's signal processing.
- The real edge bookkeeping behind `connect`/`disconnect`, and its concurrency with the render thread: the `Graph` value stands in for it, so aliasing and the atomicity of a `disconnect` with respect to rendering are not captured.
- The serde `Serializer`/`Deserializer` generics: only the values they exchange with `String`'s impls are modelled, and the formats' own error values are collapsed into `InvalidType`, `InvalidValue` and `Custom`.
- The `Debug`, `Clone`, `Copy`, `PartialEq`, `Eq` and `Hash` derives: Dafny datatypes have value equality already.
- `example/src/main.rs`: file loading, the browser click handler, executor selection and sleeping are I/O; its wiring of source, panner and destination is stated by `AudioGraph.ChainedConnect`.
