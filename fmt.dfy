/**
 * The part of Rust's `core::fmt::Formatter` that `<str as Display>::fmt`
 * uses: `Formatter::pad`, which applies the precision, width, fill and
 * alignment of a format spec such as `{:*^9.3}` to a string.
 */
module Fmt {
  import opened Wrappers

  datatype Alignment = Left | Right | Center

  /** The fill, alignment, width and precision of one format spec. */
  datatype FormatSpec = FormatSpec(fill: char, align: Option<Alignment>, width: Option<nat>, precision: Option<nat>)

  /** The spec of a plain `{}`, as used by `to_string()` and `format!("{x}")`. */
  const Plain: FormatSpec := FormatSpec(' ', None, None, None)

  /** `n` copies of `c`. */
  function Repeat(c: char, n: nat): (r: string)
    ensures |r| == n
    ensures forall i :: 0 <= i < n ==> r[i] == c
  {
    seq(n, _ => c)
  }

  /** The precision keeps at most that many characters from the front of the string. */
  function Truncate(s: string, precision: Option<nat>): (r: string)
    ensures r <= s
    ensures |r| == if precision.Some? && precision.value < |s| then precision.value else |s|
  {
    if precision.Some? && precision.value < |s| then s[..precision.value] else s
  }

  /**
   * `Formatter::padding`: how many fill characters go before and after the
   * text; a string with no explicit alignment is left-aligned.
   */
  function Padding(padding: nat, align: Option<Alignment>): (r: (nat, nat))
    ensures r.0 + r.1 == padding
    ensures align == Some(Right) ==> r.1 == 0
    ensures align == Some(Center) ==> r.0 <= r.1 <= r.0 + 1
    ensures align.None? || align == Some(Left) ==> r.0 == 0
  {
    match align
    case None => (0, padding)
    case Some(Left) => (0, padding)
    case Some(Right) => (padding, 0)
    case Some(Center) => (padding / 2, (padding + 1) / 2)
  }

  /** The number of fill characters `Pad` writes before a text of length `len`. */
  function LeadingFill(len: nat, spec: FormatSpec): nat {
    if spec.width.Some? && len < spec.width.value then Padding(spec.width.value - len, spec.align).0 else 0
  }

  /**
   * `Formatter::pad`: cut the string to the precision, then, if it is shorter
   * than the width, surround it with fill characters as the alignment says.
   * The text appears intact at offset `LeadingFill`; every other position is
   * the fill character; the length is the larger of width and text length.
   */
  function Pad(s: string, spec: FormatSpec): (r: string)
    ensures spec.width.None? && spec.precision.None? ==> r == s
    ensures var u := Truncate(s, spec.precision);
      var lead := LeadingFill(|u|, spec);
      && |r| == (if spec.width.Some? && |u| < spec.width.value then spec.width.value else |u|)
      && lead + |u| <= |r|
      && r[lead..lead + |u|] == u
      && forall i :: 0 <= i < |r| && !(lead <= i < lead + |u|) ==> r[i] == spec.fill
  {
    var u := Truncate(s, spec.precision);
    if spec.width.Some? && |u| < spec.width.value then
      var (pre, post) := Padding(spec.width.value - |u|, spec.align);
      var r := Repeat(spec.fill, pre) + u + Repeat(spec.fill, post);
      assert r[pre..pre + |u|] == u;
      r
    else
      u
  }
}
