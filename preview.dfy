/** Value previews of the cleaner: `previewRawValue` for values of binary keys
    and `previewUTF8` for values of text keys. A preview is kept in abstract
    form, the bytes handed to Go's `%q` verb plus whether `...` follows; the
    quoting itself is the `quote` parameter of `Render`. */
module Preview {
  import opened Utf8

  /** Both previews keep at most this many bytes (raw) or code points (UTF-8). */
  const Limit: nat := 10

  /** The text printed for a value that is not valid UTF-8. */
  const NonUtf8Sentinel: string := "[non-utf8]"

  datatype Preview =
    | Quoted(text: seq<Byte>, ellipsis: bool)  // fmt.Sprintf("%q", text), then "..." if ellipsis
    | NonUtf8                                  // the sentinel

  function Min(a: nat, b: nat): nat {
    if a <= b then a else b
  }

  /** `previewRawValue(val)`: the first ten bytes of `val`, with `...` exactly
      when bytes were cut off; a value of ten bytes or fewer is shown whole. */
  function PreviewRawValue(val: seq<Byte>): (p: Preview)
    ensures p.Quoted? && p.text <= val && |p.text| == Min(|val|, Limit)
    ensures p.ellipsis <==> |val| > Limit
    ensures !p.ellipsis ==> p.text == val
  {
    if |val| > Limit then Quoted(val[..Limit], true) else Quoted(val, false)
  }

  /** `previewUTF8(val)`: the sentinel exactly when `val` is not valid UTF-8;
      otherwise the first ten code points of `val`, re-encoded, with `...`
      exactly when code points were cut off. The kept text is a byte prefix of
      `val` (no UTF8-char is split), is itself valid, and decodes to the kept
      code points; untruncated, it is `val` itself. */
  function PreviewUtf8(val: seq<Byte>): (p: Preview)
    ensures p.NonUtf8? <==> !Valid(val)
    ensures p.Quoted? ==>
      && p.text <= val
      && Valid(p.text)
      && Decode(p.text) == Decode(val)[..Min(|Decode(val)|, Limit)]
      && (p.ellipsis <==> |Decode(val)| > Limit)
      && (!p.ellipsis ==> p.text == val)
  {
    if !Valid(val) then NonUtf8
    else
      var runes := Decode(val);
      var kept := if |runes| > Limit then runes[..Limit] else runes;
      assert kept == runes[..Min(|runes|, Limit)];
      DecodedPrefix(val, |kept|);
      DecodeEncode(kept);
      EncodeDecode(val);
      if |runes| > Limit then Quoted(Encode(kept), true)
      else Quoted(Encode(kept), false)
  }

  /** The text a preview stands for in a report line, given the quoting of a
      byte string (Go's `%q`): the sentinel, or the quoted bytes followed by
      `...` when the preview was cut. */
  function Render(p: Preview, quote: seq<Byte> -> string): (s: string)
    ensures p.NonUtf8? ==> s == NonUtf8Sentinel
    ensures p.Quoted? ==> quote(p.text) <= s && |s| == |quote(p.text)| + (if p.ellipsis then 3 else 0)
    ensures p.Quoted? && p.ellipsis ==> s[|s| - 3..] == "..."
  {
    match p
    case NonUtf8 => NonUtf8Sentinel
    case Quoted(text, ellipsis) => quote(text) + (if ellipsis then "..." else "")
  }
}
