/**
 * What an ASCII85 text means, whoever reads it: which texts stand for bytes, and for which ones; and how bytes look.
 */
module Base85Spec {
  import opened Arithmetic

  type Byte = x: int | 0 <= x < 256

  const MAX_U32: nat := 0xFFFF_FFFF

  /** What decoding yields: bytes or the error return. */
  datatype Decoded = Bytes(bytes: seq<Byte>) | Invalid

  /** Backspace, tab, line feed, form feed, return and space. */
  predicate IsSpace(c: char) {
    c as int in {8, 9, 10, 12, 13, 32}
  }

  ghost function Spaceless(text: string): string {
    if text == "" then ""
    else (if IsSpace(text[0]) then "" else [text[0]]) + Spaceless(text[1..])
  }

  /** The characters of these digits: the 85 from the exclamation mark on. */
  ghost predicate Spells(t: string, vals: seq<nat>) {
    |t| == |vals| && forall i :: 0 <= i < |t| ==> vals[i] < 85 && t[i] as int == '!' as int + vals[i]
  }

  /** Digits with white space among them. */
  ghost predicate Spelled(t: string, vals: seq<nat>) {
    Spells(Spaceless(t), vals)
  }

  // ---- Reading ----

  /** Five digits, the last one ending the text, whose number is that of four bytes. */
  ghost predicate IsGroup(t: string, four: seq<Byte>) {
    |four| == 4 && |t| > 0 && !IsSpace(t[|t| - 1]) &&
    exists vals :: |vals| == 5 && Spelled(t, vals) && Number(85, vals) == Number(256, four)
  }

  /** The least number above all those whose five digits begin with these. */
  ghost function Above(vals: seq<nat>): nat
    requires |vals| <= 5
  {
    (Number(85, vals) + 1) * Power(85, 5 - |vals|)
  }

  /** n is what is left of v when its last places, worth unit, are cut off. */
  predicate Cut(v: nat, unit: nat, n: nat) {
    n * unit <= v < (n + 1) * unit
  }

  /** One to four digits at the end, one byte fewer: the leading bytes of the least number above. */
  ghost predicate IsTail(t: string, bytes: seq<Byte>) {
    exists vals :: 1 <= |vals| <= 4 && Spelled(t, vals) && Above(vals) <= MAX_U32 &&
      |bytes| == |vals| - 1 && Cut(Above(vals), Power(256, 5 - |vals|), Number(256, bytes))
  }

  /** The text is groups of five digits or a single z for four zero bytes, and then nothing or a tail. */
  ghost predicate Reads(text: string, bytes: seq<Byte>)
    decreases |text|
  {
    || (text == "" && bytes == [])
    || (text != "" && text[0] == 'z' && |bytes| >= 4 && bytes[..4] == [0, 0, 0, 0] && Reads(text[1..], bytes[4..]))
    || (|bytes| >= 4 &&
        exists n {:trigger text[..n]} :: 0 < n <= |text| && IsGroup(text[..n], bytes[..4]) &&
          Reads(text[n..], bytes[4..]))
    || IsTail(text, bytes)
  }

  // ---- Writing ----

  /** Four bytes: a z for zeros, otherwise the five digits of their number. */
  ghost predicate WritesFour(four: seq<Byte>, t: string) {
    if four == [0, 0, 0, 0] then t == "z"
    else exists vals :: |vals| == 5 && Spells(t, vals) && Number(85, vals) == Number(256, four)
  }

  /** One to three bytes: the leading digits, one more than there are bytes, of the bytes filled up with zeros. */
  ghost predicate WritesTail(s: seq<Byte>, t: string)
    requires 1 <= |s| <= 3
  {
    var m := 4 - |s|;
    exists vals :: |vals| == |s| + 1 && Spells(t, vals) &&
      Cut(Number(256, s) * Power(256, m), Power(85, m), Number(85, vals))
  }

  /** The bytes four at a time, and what is left. */
  ghost predicate Written(src: seq<Byte>, text: string)
    decreases |src|
  {
    if |src| >= 4 then
      exists n {:trigger text[..n]} :: 0 <= n <= |text| && WritesFour(src[..4], text[..n]) &&
        Written(src[4..], text[n..])
    else if |src| > 0 then WritesTail(src, text)
    else text == ""
  }
}
