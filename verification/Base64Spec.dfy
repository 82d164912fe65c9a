/**
 * What a base-64 text means, whoever reads it: which texts stand for bytes, for which ones, and which are refused.
 */
module Base64Spec {
  import opened Arithmetic

  type Byte = x: int | 0 <= x < 256

  /** What reading a text yields; SwitchUrl only ever asks for a second reading with the URL-safe alphabet. */
  datatype Decoded = Bytes(bytes: seq<Byte>) | Invalid | SwitchUrl

  const UPPER: string := "ABCDEFGHIJKLMNOPQRSTUVWXYZ"
  const LOWER: string := "abcdefghijklmnopqrstuvwxyz"
  const NUMERALS: string := "0123456789"

  /** The alphabets of sections 4 and 5 of RFC 4648. */
  function Alphabet(url: bool): (a: string)
    ensures |a| == 64
  {
    UPPER + LOWER + NUMERALS + if url then "-_" else "+/"
  }

  predicate IsDigit(c: char, url: bool) {
    c in Alphabet(url)
  }

  /**
   * What may stand anywhere before the padding: backspace, tab, line feed, form feed, return, space, tick, hard space.
   */
  predicate IsSpace(c: char) {
    c as int in {8, 9, 10, 12, 13, 32, 39, 0xA0}
  }

  // ---- The parts of a text ----

  /** The text up to its first padding character. */
  ghost function Body(text: string): string {
    if text == "" || text[0] == '=' then "" else [text[0]] + Body(text[1..])
  }

  ghost function PadCount(text: string): nat {
    if text == "" then 0 else (if text[0] == '=' then 1 else 0) + PadCount(text[1..])
  }

  ghost function Spaceless(text: string): string {
    if text == "" then ""
    else (if IsSpace(text[0]) then "" else [text[0]]) + Spaceless(text[1..])
  }

  predicate Regular(c: char, url: bool) {
    IsDigit(c, url) || IsSpace(c)
  }

  ghost predicate AllRegular(text: string, url: bool) {
    forall i :: 0 <= i < |text| ==> Regular(text[i], url)
  }

  /** The first character that is neither of the alphabet nor a space. */
  ghost function FirstOdd(text: string, url: bool): char
    requires !AllRegular(text, url)
  {
    if !Regular(text[0], url) then text[0]
    else
      assert exists i :: 1 <= i < |text| && !Regular(text[i], url) && !Regular(text[1..][i - 1], url);
      FirstOdd(text[1..], url)
  }

  // ---- What the digits stand for ----

  /** The digits' values in the alphabet. */
  ghost predicate Spells(digits: string, url: bool, vals: seq<nat>) {
    |vals| == |digits| && forall i :: 0 <= i < |vals| ==> vals[i] < 64 && Alphabet(url)[vals[i]] == digits[i]
  }

  /**
   * What is left over of n digits of six bits when they are cut into bytes of eight: the factor of the bits dropped.
   */
  function Surplus(n: nat): nat {
    if n % 4 == 2 then 16 else if n % 4 == 3 then 4 else 1
  }

  /** The bytes are the leading whole bytes of the bits of the digits. */
  ghost predicate Carries(vals: seq<nat>, bytes: seq<Byte>) {
    |bytes| == |vals| * 6 / 8 && Number(256, bytes) == Number(64, vals) / Surplus(|vals|)
  }

  /** n digits make whole groups, or groups and a last one of two or three with the padding it requires. */
  predicate Complete(n: nat, pads: nat, url: bool) {
    || (n % 4 == 0 && pads == 0)
    || (n % 4 == 3 && (pads >= 1 || url))
    || (n % 4 == 2 && (pads >= 2 || (url && pads == 0)))
  }

  /** The reading of a text in one alphabet. */
  ghost predicate MeansIn(text: string, url: bool, r: Decoded) {
    var digits := Spaceless(Body(text));
    if AllRegular(Body(text), url) && Complete(|digits|, PadCount(text), url) then
      r.Bytes? && exists vals :: Spells(digits, url, vals) && Carries(vals, r.bytes)
    else r == Invalid
  }

  /**
   * A text of which the plain alphabet does not have every digit is read anew when the first one missing is URL-safe.
   */
  ghost predicate TurnsUrl(text: string) {
    !AllRegular(Body(text), false) && FirstOdd(Body(text), false) in {'-', '_'}
  }

  /** What a text means. */
  ghost predicate Means(text: string, url: bool, r: Decoded) {
    MeansIn(text, url || TurnsUrl(text), r)
  }

  // ---- It means one thing ----

  lemma LetterCodes(v: nat)
    requires v < 26
    ensures UPPER[v] as int == 65 + v && LOWER[v] as int == 97 + v
  {
  }

  lemma NumeralCodes(v: nat)
    requires v < 10
    ensures NUMERALS[v] as int == 48 + v
  {
  }

  lemma AlphabetCode(url: bool, v: nat)
    requires v < 64
    ensures Alphabet(url)[v] as int ==
      if v < 26 then 65 + v
      else if v < 52 then 71 + v
      else if v < 62 then v - 4
      else if v == 62 then (if url then 45 else 43)
      else if url then 95 else 47
  {
    if v < 26 {
      LetterCodes(v);
      assert Alphabet(url)[v] == UPPER[v];
    } else if v < 52 {
      LetterCodes(v - 26);
      assert Alphabet(url)[v] == LOWER[v - 26];
    } else if v < 62 {
      NumeralCodes(v - 52);
      assert Alphabet(url)[v] == NUMERALS[v - 52];
    } else {
      assert Alphabet(url)[v] == (if url then "-_" else "+/")[v - 62];
    }
  }

  lemma AlphabetDistinct(url: bool, v: nat, w: nat)
    requires v < 64 && w < 64 && Alphabet(url)[v] == Alphabet(url)[w]
    ensures v == w
  {
    AlphabetCode(url, v);
    AlphabetCode(url, w);
    hide Alphabet;
  }

  lemma {:induction false} SpellsOnce(digits: string, url: bool, vals: seq<nat>, more: seq<nat>)
    requires Spells(digits, url, vals) && Spells(digits, url, more)
    ensures vals == more
  {
    forall i | 0 <= i < |vals|
      ensures vals[i] == more[i]
    {
      AlphabetDistinct(url, vals[i], more[i]);
    }
  }

  lemma {:induction false} CarriesOnce(vals: seq<nat>, b: seq<Byte>, c: seq<Byte>)
    requires Carries(vals, b) && Carries(vals, c)
    ensures b == c
  {
    NumberOnce(256, b, c);
  }

  lemma {:induction false} MeansOnce(text: string, url: bool, r: Decoded, q: Decoded)
    requires Means(text, url, r) && Means(text, url, q)
    ensures r == q
  {
    var u := url || TurnsUrl(text);
    var digits := Spaceless(Body(text));
    hide Carries, Spells, Body, Spaceless, TurnsUrl, PadCount, AllRegular, Complete;
    if AllRegular(Body(text), u) && Complete(|digits|, PadCount(text), u) {
      var vals :| Spells(digits, u, vals) && Carries(vals, r.bytes);
      var more :| Spells(digits, u, more) && Carries(more, q.bytes);
      SpellsOnce(digits, u, vals, more);
      CarriesOnce(vals, r.bytes, q.bytes);
    }
  }

  // ---- Space does not count ----

  lemma {:induction false} RegularHead(c: char, rest: string, url: bool)
    ensures AllRegular([c] + rest, url) <==> Regular(c, url) && AllRegular(rest, url)
  {
    var t := [c] + rest;
    assert t[1..] == rest;
    if AllRegular(t, url) {
      assert t[0] == c;
      forall i | 0 <= i < |rest|
        ensures Regular(rest[i], url)
      {
        assert t[i + 1] == rest[i];
      }
    }
  }

  /** The body with its first character split off. */
  lemma {:induction false} BodyHead(text: string, url: bool)
    requires text != "" && text[0] != '='
    ensures var rest := Body(text[1..]);
      && Body(text) == [text[0]] + rest && PadCount(text) == PadCount(text[1..])
      && Spaceless(Body(text)) == (if IsSpace(text[0]) then "" else [text[0]]) + Spaceless(rest)
      && (AllRegular(Body(text), url) <==> Regular(text[0], url) && AllRegular(rest, url))
      && (!AllRegular(Body(text), url) ==>
            FirstOdd(Body(text), url) ==
              if !Regular(text[0], url) then text[0]
              else assert !AllRegular(rest, url); FirstOdd(rest, url))
  {
    var rest := Body(text[1..]);
    assert Body(text)[1..] == rest;
    RegularHead(text[0], rest, url);
  }

  lemma {:induction false} SpaceInside(a: string, c: char, b: string, url: bool)
    requires IsSpace(c) && '=' !in a
    ensures Spaceless(Body(a + [c] + b)) == Spaceless(Body(a + b)) && PadCount(a + [c] + b) == PadCount(a + b)
    ensures AllRegular(Body(a + [c] + b), url) <==> AllRegular(Body(a + b), url)
    ensures !AllRegular(Body(a + b), url) ==> FirstOdd(Body(a + [c] + b), url) == FirstOdd(Body(a + b), url)
    decreases |a|
  {
    var t, s := a + [c] + b, a + b;
    if a == "" {
      assert t[1..] == b && s == b;
      BodyHead(t, url);
    } else {
      assert t[1..] == a[1..] + [c] + b && s[1..] == a[1..] + b;
      SpaceInside(a[1..], c, b, url);
      BodyHead(t, url);
      BodyHead(s, url);
    }
  }

  lemma {:induction false} BodySpace(text: string, url: bool)
    requires text != "" && text[0] != '=' && IsSpace(text[0])
    ensures Spaceless(Body(text)) == Spaceless(Body(text[1..])) && PadCount(text) == PadCount(text[1..])
    ensures AllRegular(Body(text), url) <==> AllRegular(Body(text[1..]), url)
    ensures !AllRegular(Body(text), url) ==> FirstOdd(Body(text), url) == FirstOdd(Body(text[1..]), url)
  {
    BodyHead(text, url);
  }

  lemma {:induction false} BodyDigit(text: string, url: bool)
    requires text != "" && text[0] != '=' && IsDigit(text[0], url) && !IsSpace(text[0])
    ensures Spaceless(Body(text)) == [text[0]] + Spaceless(Body(text[1..])) && PadCount(text) == PadCount(text[1..])
    ensures AllRegular(Body(text), url) <==> AllRegular(Body(text[1..]), url)
    ensures !AllRegular(Body(text), url) ==> FirstOdd(Body(text), url) == FirstOdd(Body(text[1..]), url)
  {
    hide IsDigit;
    BodyHead(text, url);
  }

  lemma {:induction false} BodyOdd(text: string, url: bool)
    requires text != "" && text[0] != '=' && !Regular(text[0], url)
    ensures !AllRegular(Body(text), url) && FirstOdd(Body(text), url) == text[0]
  {
    BodyHead(text, url);
  }

  /** White space and hard spaces before the padding may be put in or left out. */
  lemma {:induction false} SpaceIgnored(a: string, c: char, b: string, url: bool, r: Decoded)
    requires IsSpace(c) && '=' !in a
    ensures Means(a + [c] + b, url, r) <==> Means(a + b, url, r)
  {
    SpaceInside(a, c, b, url);
    SpaceInside(a, c, b, false);
    SpaceInside(a, c, b, true);
    hide Body, Spaceless, PadCount, AllRegular, FirstOdd, Carries, Spells, Complete;
  }

  // ---- What a written text looks like ----

  ghost function Unfed(text: string): string {
    if text == "" then "" else (if text[0] == '\n' then "" else [text[0]]) + Unfed(text[1..])
  }

  function Padding(len: nat, url: bool): string {
    if url || len % 3 == 0 then "" else if len % 3 == 1 then "==" else "="
  }

  /** The text has one line feed in front, when it is long enough, and one after every 64 digits. */
  function LeadFeeds(len: nat, brk: bool): nat {
    if brk && len >= 54 then 1 else 0
  }

  predicate FeedAt(len: nat, brk: bool, k: int) {
    brk && (k < LeadFeeds(len, brk) || (k - LeadFeeds(len, brk)) % 65 == 64)
  }

  function FeedCount(len: nat, brk: bool): nat {
    if brk then LeadFeeds(len, brk) + len / 48 else 0
  }

  /** The digits hold the bits of the bytes, filled up with zero bits to the right. */
  ghost predicate Holds(vals: seq<nat>, bytes: seq<Byte>) {
    |vals| == (|bytes| * 8 + 5) / 6 && Number(64, vals) == Number(256, bytes) * Surplus(|vals|)
  }

  /** Apart from line feeds the text is the digits of the bytes and their padding. */
  ghost predicate DigitsWritten(src: seq<Byte>, brk: bool, url: bool, text: string) {
    exists digits: string, vals: seq<nat> ::
      Spells(digits, url, vals) && Holds(vals, src) && Unfed(text) == digits + Padding(|src|, url) &&
      |text| == |digits| + |Padding(|src|, url)| + FeedCount(|src|, brk)
  }

  ghost predicate FeedsWritten(src: seq<Byte>, brk: bool, text: string) {
    forall k :: 0 <= k < |text| ==> (text[k] == '\n' <==> FeedAt(|src|, brk, k))
  }

  /** The digits of the bytes with their padding, and line feeds where they belong and nowhere else. */
  ghost predicate Writes(src: seq<Byte>, brk: bool, url: bool, text: string) {
    DigitsWritten(src, brk, url, text) && FeedsWritten(src, brk, text)
  }
}
