/**
 * The textual codec of `BiquadFilterType`: its `Display` printer, its
 * `FromStr` parser and the error the parser reports.
 */
module FilterType {
  import opened Wrappers
  import Fmt
  import Utf8

  /** The eight transfer-function shapes a biquad filter node can take. */
  datatype BiquadFilterType =
    | Lowpass
    | Highpass
    | Bandpass
    | Notch
    | Allpass
    | Peaking
    | Lowshelf
    | Highshelf

  /** The unit error that `from_str` returns for an unknown token. */
  datatype IncorrectBiquadFilterType = IncorrectBiquadFilterType

  /** The documented textual forms, in declaration order of the variants. */
  const Tokens: seq<string> :=
    ["lowpass", "highpass", "bandpass", "notch", "allpass", "peaking", "lowshelf", "highshelf"]

  /** Every variant, in declaration order. */
  const AllTypes: seq<BiquadFilterType> :=
    [Lowpass, Highpass, Bandpass, Notch, Allpass, Peaking, Lowshelf, Highshelf]

  predicate IsLowerAscii(c: char) {
    'a' <= c <= 'z'
  }

  /** A non-empty word made only of the letters `a` to `z`. */
  predicate IsLowerWord(s: string) {
    |s| > 0 && forall i :: 0 <= i < |s| ==> IsLowerAscii(s[i])
  }

  /** The `Display` text of the parse error. */
  function ErrorMessage(e: IncorrectBiquadFilterType): string {
    "Incorrect biquad filter type"
  }

  /** The token `Display::fmt` hands to the formatter for a variant. */
  function Format(t: BiquadFilterType): (s: string)
    ensures s in Tokens
    ensures IsLowerWord(s)
  {
    match t
    case Lowpass => "lowpass"
    case Highpass => "highpass"
    case Bandpass => "bandpass"
    case Notch => "notch"
    case Allpass => "allpass"
    case Peaking => "peaking"
    case Lowshelf => "lowshelf"
    case Highshelf => "highshelf"
  }

  /** `FromStr::from_str`: exact, case-sensitive match against the eight tokens. */
  function Parse(s: string): (r: Result<BiquadFilterType, IncorrectBiquadFilterType>)
    ensures r.Ok? <==> s in Tokens
    ensures r.Ok? ==> Format(r.value) == s
  {
    match s
    case "lowpass" => Ok(Lowpass)
    case "highpass" => Ok(Highpass)
    case "bandpass" => Ok(Bandpass)
    case "notch" => Ok(Notch)
    case "allpass" => Ok(Allpass)
    case "peaking" => Ok(Peaking)
    case "lowshelf" => Ok(Lowshelf)
    case "highshelf" => Ok(Highshelf)
    case _ => Err(IncorrectBiquadFilterType)
  }

  /** Printing then parsing gives the variant back. */
  lemma ParseFormat(t: BiquadFilterType)
    ensures Parse(Format(t)) == Ok(t)
  {
  }

  /** Whatever parses is exactly the printed form of what it parses to. */
  lemma FormatParse(s: string, t: BiquadFilterType)
    requires Parse(s) == Ok(t)
    ensures Format(t) == s
  {
  }

  /** Distinct variants are printed as distinct tokens. */
  lemma FormatInjective(a: BiquadFilterType, b: BiquadFilterType)
    requires Format(a) == Format(b)
    ensures a == b
  {
  }

  /** The accepted strings are exactly the image of `Format`. */
  lemma AcceptedIsImage(s: string)
    ensures Parse(s).Ok? <==> exists t :: Format(t) == s
  {
  }

  /**
   * `Format` is a bijection between the eight variants and the eight tokens:
   * every variant is listed, the i-th variant prints as the i-th token, and
   * the tokens are pairwise distinct.
   */
  lemma FormatBijection()
    ensures forall t :: t in AllTypes
    ensures forall i :: 0 <= i < 8 ==> Format(AllTypes[i]) == Tokens[i]
    ensures forall i, j :: 0 <= i < j < 8 ==> Tokens[i] != Tokens[j]
  {
    forall t ensures t in AllTypes {
      match t
      case Lowpass => assert AllTypes[0] == t;
      case Highpass => assert AllTypes[1] == t;
      case Bandpass => assert AllTypes[2] == t;
      case Notch => assert AllTypes[3] == t;
      case Allpass => assert AllTypes[4] == t;
      case Peaking => assert AllTypes[5] == t;
      case Lowshelf => assert AllTypes[6] == t;
      case Highshelf => assert AllTypes[7] == t;
    }
    forall i | 0 <= i < 8 ensures Format(AllTypes[i]) == Tokens[i] && Parse(Tokens[i]) == Ok(AllTypes[i]) {
      FormatAt(i);
    }
  }

  /** The i-th variant prints as the i-th token. */
  lemma FormatAt(i: nat)
    requires i < 8
    ensures Format(AllTypes[i]) == Tokens[i]
    ensures Parse(Tokens[i]) == Ok(AllTypes[i])
  {
  }

  /** A string holding any character other than `a` to `z` is rejected. */
  lemma RejectsNonLower(s: string, i: nat)
    requires i < |s| && !IsLowerAscii(s[i])
    ensures Parse(s) == Err(IncorrectBiquadFilterType)
  {
  }

  /** Matching is case-sensitive: a different-case spelling of a token is rejected. */
  lemma CaseSensitive(s: string, u: string)
    requires Parse(s).Ok?
    requires |u| == |s| && u != s
    requires forall i :: 0 <= i < |s| ==> u[i] == s[i] || u[i] == s[i] - 'a' + 'A'
    ensures Parse(u) == Err(IncorrectBiquadFilterType)
  {
  }

  /** Sample inputs the parser refuses: other case, empty, padded, unknown. */
  lemma RejectionExamples()
    ensures Parse("Lowpass").Err? && Parse("LOWPASS").Err?
    ensures Parse("").Err?
    ensures Parse(" lowpass").Err? && Parse("lowpass ").Err?
    ensures Parse("band-pass").Err?
  {
  }

  // `Display::fmt` ends in `s.fmt(f)`, which pads the token as the format spec says.

  /** `Display::fmt` under the format spec `spec`: the token, padded by `Formatter::pad`. */
  function Display(t: BiquadFilterType, spec: Fmt.FormatSpec): (r: string)
    // A plain `{}` (as in `to_string()` and `format!("{self}")`) prints exactly the token.
    ensures spec.width.None? && spec.precision.None? ==> r == Format(t)
    // Without a precision the whole token appears, after the leading fill.
    ensures spec.precision.None? ==>
      var lead := Fmt.LeadingFill(|Format(t)|, spec);
      lead + |Format(t)| <= |r| && r[lead..lead + |Format(t)|] == Format(t)
    // Padding never shortens: the text is at least the width wide.
    ensures spec.width.Some? ==> |r| >= spec.width.value
  {
    Fmt.Pad(Format(t), spec)
  }

  /** No token is a proper prefix of another. */
  lemma NoTokenIsProperPrefix(a: BiquadFilterType, b: BiquadFilterType)
    ensures !(Format(a) < Format(b))
  {
  }

  /** A precision shorter than the token cuts it to a prefix that no longer parses. */
  lemma DisplayTruncatedRejected(t: BiquadFilterType, p: nat)
    requires p < |Format(t)|
    ensures Display(t, Fmt.FormatSpec(' ', None, None, Some(p))) == Format(t)[..p]
    ensures Parse(Display(t, Fmt.FormatSpec(' ', None, None, Some(p)))).Err?
  {
    var u := Display(t, Fmt.FormatSpec(' ', None, None, Some(p)));
    assert u == u[0..p] == Format(t)[..p];
    forall a ensures Format(a) != u {
      NoTokenIsProperPrefix(a, t);
    }
  }

  /**
   * A width wider than the token adds fill; with a fill that is not a
   * lowercase letter (the default space, say) the result no longer parses.
   */
  lemma DisplayPaddedRejected(t: BiquadFilterType, spec: Fmt.FormatSpec)
    requires spec.width.Some? && |Fmt.Truncate(Format(t), spec.precision)| < spec.width.value
    requires !IsLowerAscii(spec.fill)
    ensures Parse(Display(t, spec)) == Err(IncorrectBiquadFilterType)
  {
    var r := Display(t, spec);
    var u := Fmt.Truncate(Format(t), spec.precision);
    var lead := Fmt.LeadingFill(|u|, spec);
    var i := if lead > 0 then 0 else |u|;
    assert r[i] == spec.fill;
    RejectsNonLower(r, i);
  }

  /** Sample output of a width: `{:>9}`. */
  lemma DisplayRightExample()
    ensures Display(Notch, Fmt.FormatSpec(' ', Some(Fmt.Right), Some(9), None)) == "    notch"
  {
    assert Display(Notch, Fmt.FormatSpec(' ', Some(Fmt.Right), Some(9), None)) == "    " + "notch" + "" by {
      assert Format(Notch) == "notch";
      assert Fmt.Truncate("notch", None) == "notch";
      assert Fmt.LeadingFill(5, Fmt.FormatSpec(' ', Some(Fmt.Right), Some(9), None)) == 4;
      assert Fmt.Padding(4, Some(Fmt.Right)) == (4, 0);
      assert Fmt.Repeat(' ', 4) == "    ";
      assert Fmt.Repeat(' ', 0) == "";
    }
  }

  /** Sample output of a centred width with a fill: `{:*^9}`. */
  lemma DisplayCenterExample()
    ensures Display(Notch, Fmt.FormatSpec('*', Some(Fmt.Center), Some(9), None)) == "**notch**"
  {
    assert Display(Notch, Fmt.FormatSpec('*', Some(Fmt.Center), Some(9), None)) == "**" + "notch" + "**" by {
      assert Format(Notch) == "notch";
      assert Fmt.Truncate("notch", None) == "notch";
      assert Fmt.LeadingFill(5, Fmt.FormatSpec('*', Some(Fmt.Center), Some(9), None)) == 2;
      assert Fmt.Padding(4, Some(Fmt.Center)) == (2, 2);
      assert Fmt.Repeat('*', 2) == "**";
    }
  }

  /** Sample outputs of a precision: `{:.3}` and `{:.0}`. */
  lemma DisplayPrecisionExamples()
    ensures Display(Lowpass, Fmt.FormatSpec(' ', None, None, Some(3))) == "low"
    ensures Display(Highshelf, Fmt.FormatSpec(' ', None, None, Some(0))) == ""
  {
  }

  // serde: both impls go through the textual form above.

  /**
   * What a data format hands to `String`'s deserialiser: a string, a single
   * character, a byte string, or a value of any other kind. Serialising a
   * `String` emits a `StrContent`.
   */
  datatype Content =
    | StrContent(s: string)
    | CharContent(c: char)
    | BytesContent(b: seq<Utf8.byte>)
    | OtherContent

  /**
   * Deserialisation errors: a value of the wrong kind, bytes that are not
   * UTF-8, or a custom error carrying a message.
   */
  datatype DeError = InvalidType | InvalidValue | Custom(msg: string)

  /** `Serialize::serialize`: the plain `Display` text, emitted as a string. */
  function Serialize(t: BiquadFilterType): (c: Content)
    ensures c.StrContent? && IsLowerWord(c.s)
    ensures Parse(c.s) == Ok(t)
  {
    ParseFormat(t);
    StrContent(Display(t, Fmt.Plain))
  }

  /**
   * `String::deserialize`'s visitor: a string is taken as is, a character
   * as a one-character string, a byte string only if it is UTF-8; any other
   * kind of value is a type error.
   */
  function VisitString(c: Content): (r: Result<string, DeError>)
    ensures r.Ok? <==> !c.OtherContent? && (c.BytesContent? ==> Utf8.Decode(c.b).Some?)
    ensures r.Err? ==> r.error == (if c.OtherContent? then InvalidType else InvalidValue)
    ensures c.StrContent? ==> r == Ok(c.s)
    ensures c.CharContent? ==> r == Ok([c.c])
    ensures r.Ok? && c.BytesContent? ==> Utf8.Decode(c.b) == Some(r.value)
  {
    match c
    case StrContent(s) => Ok(s)
    case CharContent(ch) => Ok([ch])
    case BytesContent(b) =>
      (match Utf8.Decode(b)
       case Some(s) => Ok(s)
       case None => Err(InvalidValue))
    case OtherContent => Err(InvalidType)
  }

  /**
   * `Deserialize::deserialize`: read a `String` (propagating its error), then
   * parse it, turning the parse error into a custom error with its message.
   */
  function Deserialize(c: Content): (r: Result<BiquadFilterType, DeError>)
    ensures r.Ok? <==> VisitString(c).Ok? && Parse(VisitString(c).value).Ok?
    ensures r.Ok? ==> Format(r.value) == VisitString(c).value
    ensures VisitString(c).Err? ==> r == Err(VisitString(c).error)
    ensures VisitString(c).Ok? && r.Err? ==> r.error == Custom(ErrorMessage(IncorrectBiquadFilterType))
  {
    match VisitString(c)
    case Err(e) => Err(e)
    case Ok(s) => Parse(s).MapErr(e => Custom(ErrorMessage(e)))
  }

  /** The serde form round-trips. */
  lemma SerdeRoundTrip(t: BiquadFilterType)
    ensures Deserialize(Serialize(t)) == Ok(t)
  {
  }

  /** A string deserialises exactly as `from_str` parses it. */
  lemma DeserializeStr(s: string)
    ensures Deserialize(StrContent(s)) == Parse(s).MapErr(e => Custom(ErrorMessage(e)))
  {
  }

  /** An unknown token deserialises to the custom error carrying the parse error's message. */
  lemma DeserializeUnknownToken(s: string)
    requires s !in Tokens
    ensures Deserialize(StrContent(s)) == Err(Custom("Incorrect biquad filter type"))
  {
  }

  /** A single character never names a filter type. */
  lemma DeserializeChar(ch: char)
    ensures Deserialize(CharContent(ch)) == Err(Custom(ErrorMessage(IncorrectBiquadFilterType)))
  {
  }

  /** Every token is ASCII. */
  lemma TokenIsAscii(t: BiquadFilterType)
    ensures Utf8.IsAscii(Format(t))
  {
    var token := Format(t);
    forall i | 0 <= i < |token| ensures token[i] < 128 as char {
      assert IsLowerAscii(token[i]);
    }
  }

  /** Only the encoding of `t`'s token deserialises to `t`. */
  lemma DeserializeBytesOnlyEncoding(b: seq<Utf8.byte>, t: BiquadFilterType)
    requires Deserialize(BytesContent(b)) == Ok(t)
    ensures b == Utf8.Encode(Format(t))
  {
    assert Utf8.Decode(b) == Some(Format(t));
    Utf8.EncodeDecode(b, Format(t));
  }

  /** The encoding of `t`'s token deserialises to `t`. */
  lemma DeserializeEncoding(t: BiquadFilterType)
    ensures Deserialize(BytesContent(Utf8.Encode(Format(t)))) == Ok(t)
  {
    Utf8.DecodeEncode(Format(t));
    assert VisitString(BytesContent(Utf8.Encode(Format(t)))) == Ok(Format(t));
    ParseFormat(t);
  }

  /**
   * A byte string deserialises to `t` exactly when it is the UTF-8 encoding
   * of `t`'s token, which is ASCII: one byte per character.
   */
  lemma DeserializeBytes(b: seq<Utf8.byte>, t: BiquadFilterType)
    ensures Utf8.IsAscii(Format(t)) && |Utf8.Encode(Format(t))| == |Format(t)|
    ensures Deserialize(BytesContent(b)) == Ok(t) <==> b == Utf8.Encode(Format(t))
  {
    TokenIsAscii(t);
    Utf8.EncodeAscii(Format(t));
    if Deserialize(BytesContent(b)) == Ok(t) {
      DeserializeBytesOnlyEncoding(b, t);
    }
    if b == Utf8.Encode(Format(t)) {
      DeserializeEncoding(t);
    }
  }
}
