/** Base-64 as f-enbase.c writes and reads it, in the padded alphabet and the unpadded URL-safe one. */
module Base64 {
  import opened Arithmetic
  import opened Base64Spec

  const BIN_SPACE: int := 0x55
  const BIN_ERROR: int := 0x80

  // ---- The tables ----

  /** Enbase64 and Enbase64URL. */
  function Enbase64(v: int, url: bool): (c: char)
    requires 0 <= v < 64
    ensures c != '=' && c as int < 128
  {
    if v < 26 then (65 + v) as char
    else if v < 52 then (97 + (v - 26)) as char
    else if v < 62 then (48 + (v - 52)) as char
    else if v == 62 then (if url then '-' else '+')
    else if url then '_' else '/'
  }

  /** Debase64 and Debase64URL. */
  function Debase64(c: char, url: bool): (lex: int)
    requires c as int < 128
    ensures 0 <= lex < 64 || lex == BIN_SPACE || lex == BIN_ERROR
  {
    var n := c as int;
    if 65 <= n <= 90 then n - 65
    else if 97 <= n <= 122 then n - 97 + 26
    else if 48 <= n <= 57 then n - 48 + 52
    else if c == (if url then '-' else '+') then 62
    else if c == (if url then '_' else '/') then 63
    else if c == '=' then 0
    else if n in {8, 9, 10, 12, 13, 32, 39} then BIN_SPACE
    else BIN_ERROR
  }

  lemma TablesAgree(v: int, url: bool)
    requires 0 <= v < 64
    ensures Debase64(Enbase64(v, url), url) == v
  {
  }

  // ---- Encoding ----

  function Quad(a: Byte, b: Byte, c: Byte, url: bool): string {
    [Enbase64(a / 4, url), Enbase64(a % 4 * 16 + b / 16, url), Enbase64(b % 16 * 4 + c / 64, url),
      Enbase64(c % 64, url)]
  }

  /** The last one or two bytes, padded unless URL-safe. */
  function Tail(s: seq<Byte>, url: bool): string
    requires |s| <= 2
  {
    if |s| == 0 then ""
    else if |s| == 1 then
      [Enbase64(s[0] / 4, url), Enbase64(s[0] % 4 * 16, url)] + if url then "" else "=="
    else
      [Enbase64(s[0] / 4, url), Enbase64(s[0] % 4 * 16 + s[1] / 16, url), Enbase64(s[1] % 16 * 4, url)]
      + if url then "" else "="
  }

  /** A line feed after every 48 bytes when lines are to be broken. */
  function Break(x: nat, brk: bool): string {
    if (x + 3) % 48 == 0 && brk then "\n" else ""
  }

  ghost function EncodedFrom(src: seq<Byte>, x: nat, brk: bool, url: bool): string
    requires x <= |src|
    decreases |src| - x
  {
    if x + 3 <= |src| then
      Quad(src[x], src[x + 1], src[x + 2], url) + Break(x, brk) + EncodedFrom(src, x + 3, brk, url)
    else Tail(src[x..], url)
  }

  function Lead(len: nat, brk: bool): string {
    if 4 * (len / 3 - 1) > 64 && brk then "\n" else ""
  }

  ghost function Encoded(src: seq<Byte>, brk: bool, url: bool): string {
    Lead(|src|, brk) + EncodedFrom(src, 0, brk, url)
  }

  // ---- Decoding ----

  /** The bytes of a full group, and of one cut short after three or two digits. */
  function ThreeOf(accum: nat): (s: seq<Byte>)
    ensures |s| == 3
  {
    [accum / 0x1_0000 % 0x100, accum / 0x100 % 0x100, accum % 0x100]
  }

  function TwoOf(accum: nat): (s: seq<Byte>)
    ensures |s| == 2
  {
    [accum / 0x400 % 0x100, accum / 4 % 0x100]
  }

  function OneOf(accum: nat): (s: seq<Byte>)
    ensures |s| == 1
  {
    [accum / 16 % 0x100]
  }

  /** The scan from the text still to read, the group so far, and the bytes written. */
  ghost function Scan(text: string, url: bool, accum: nat, flip: nat, out: seq<Byte>): Decoded
    requires flip <= 3
    decreases |text|
  {
    if text == "" then
      if flip == 0 then Bytes(out)
      else if !url || flip == 1 then Invalid
      else if flip == 3 then Bytes(out + TwoOf(accum))
      else Bytes(out + OneOf(accum))
    else if text[0] as int > 127 then
      if text[0] as int == 0xA0 then Scan(text[1..], url, accum, flip, out) else Invalid
    else
      var lex := Debase64(text[0], url);
      if lex == BIN_SPACE then Scan(text[1..], url, accum, flip, out)
      else if lex == BIN_ERROR then
        if !url && (text[0] == '-' || text[0] == '_') then SwitchUrl else Invalid
      else if text[0] == '=' then
        if flip == 3 then Bytes(out + TwoOf(accum))
        else if flip == 2 && '=' in text[1..] then Bytes(out + OneOf(accum))
        else Invalid
      else if flip == 3 then Scan(text[1..], url, 0, 0, out + ThreeOf(accum * 64 + lex))
      else Scan(text[1..], url, accum * 64 + lex, flip + 1, out)
  }

  ghost function Decode(text: string, url: bool): Decoded {
    var r := Scan(text, url, 0, 0, []);
    if r == SwitchUrl then Scan(text, true, 0, 0, []) else r
  }

  // ---- Decoding undoes encoding ----

  /** A digit of the alphabet joins the group; the fourth completes it. */
  lemma {:induction false} ScanDigit(v: int, rest: string, url: bool, accum: nat, flip: nat, out: seq<Byte>)
    requires 0 <= v < 64 && flip <= 3
    ensures Scan([Enbase64(v, url)] + rest, url, accum, flip, out) ==
      if flip == 3 then Scan(rest, url, 0, 0, out + ThreeOf(accum * 64 + v))
      else Scan(rest, url, accum * 64 + v, flip + 1, out)
  {
    TablesAgree(v, url);
    var text := [Enbase64(v, url)] + rest;
    assert text[0] == Enbase64(v, url) && text[1..] == rest;
    hide Debase64, Enbase64, ThreeOf;
  }

  lemma {:induction false} ScanFeed(rest: string, url: bool, accum: nat, flip: nat, out: seq<Byte>)
    requires flip <= 3
    ensures Scan("\n" + rest, url, accum, flip, out) == Scan(rest, url, accum, flip, out)
  {
    var text := "\n" + rest;
    assert text[0] == '\n' && text[1..] == rest;
    assert '\n' as int == 10 && Debase64('\n', url) == BIN_SPACE;
    hide Debase64;
  }

  lemma {:induction false} QuadText(a: Byte, b: Byte, c: Byte, rest: string, url: bool)
    ensures Quad(a, b, c, url) + rest ==
      [Enbase64(a / 4, url)] + ([Enbase64(a % 4 * 16 + b / 16, url)]
        + ([Enbase64(b % 16 * 4 + c / 64, url)] + ([Enbase64(c % 64, url)] + rest)))
  {
    hide Enbase64;
  }

  lemma QuadSum(p: nat, q: nat, r: nat, s: nat, t: nat, u: nat)
    ensures ((p * 64 + (q * 16 + r)) * 64 + (s * 4 + t)) * 64 + u ==
      (4 * p + q) * 0x1_0000 + (16 * r + s) * 0x100 + (64 * t + u)
  {
  }

  lemma ThreeOfSum(a: Byte, b: Byte, c: Byte)
    ensures ThreeOf(a * 0x1_0000 + b * 0x100 + c) == [a, b, c]
  {
    var v := a * 0x1_0000 + b * 0x100 + c;
    DivModIs(v, 0x1_0000, a, b * 0x100 + c);
    DivModIs(v, 0x100, a * 0x100 + b, c);
    DivModIs(a * 0x100 + b, 0x100, a, b);
  }

  lemma QuadValue(a: Byte, b: Byte, c: Byte)
    ensures ThreeOf(((a / 4 * 64 + (a % 4 * 16 + b / 16)) * 64 + (b % 16 * 4 + c / 64)) * 64 + c % 64) == [a, b, c]
  {
    hide ThreeOf;
    ThreeOfSum(a, b, c);
    QuadSum(a / 4, a % 4, b / 16, b % 16, c / 64, c % 64);
  }

  lemma {:induction false} ScanQuad(a: Byte, b: Byte, c: Byte, rest: string, url: bool, out: seq<Byte>)
    ensures Scan(Quad(a, b, c, url) + rest, url, 0, 0, out) == Scan(rest, url, 0, 0, out + [a, b, c])
  {
    hide Scan, Enbase64, ThreeOf, Quad;
    var v0, v1, v2, v3 := a / 4, a % 4 * 16 + b / 16, b % 16 * 4 + c / 64, c % 64;
    var r3 := [Enbase64(v3, url)] + rest;
    var r2 := [Enbase64(v2, url)] + r3;
    QuadText(a, b, c, rest, url);
    ScanDigit(v0, [Enbase64(v1, url)] + r2, url, 0, 0, out);
    ScanDigit(v1, r2, url, v0, 1, out);
    ScanDigit(v2, r3, url, v0 * 64 + v1, 2, out);
    ScanDigit(v3, rest, url, (v0 * 64 + v1) * 64 + v2, 3, out);
    QuadValue(a, b, c);
  }

  lemma {:induction false} TailOne(a: Byte, url: bool, rest: string)
    requires rest == if url then "" else "=="
    ensures Tail([a], url) == [Enbase64(a / 4, url)] + ([Enbase64(a % 4 * 16, url)] + rest)
  {
    hide Enbase64;
  }

  lemma OneValue(a: Byte, accum: nat)
    requires accum == a / 4 * 64 + a % 4 * 16
    ensures OneOf(accum) == [a]
  {
    assert accum == a * 16;
  }

  /** The end of a short group: padding, or none in the URL-safe form. */
  lemma {:induction false} PadEnd(url: bool, accum: nat, flip: nat, out: seq<Byte>)
    requires flip == 2 || flip == 3
    ensures Scan(if url then "" else if flip == 2 then "==" else "=", url, accum, flip, out)
         == Bytes(out + if flip == 2 then OneOf(accum) else TwoOf(accum))
  {
    if !url {
      assert Debase64('=', url) == 0;
      assert "=="[1..] == "=";
    }
  }

  lemma {:induction false} ScanOne(a: Byte, url: bool, out: seq<Byte>)
    ensures Scan(Tail([a], url), url, 0, 0, out) == Bytes(out + [a])
  {
    hide Scan, Enbase64, OneOf, TwoOf, Tail;
    var v0, v1 := a / 4, a % 4 * 16;
    var rest := if url then "" else "==";
    TailOne(a, url, rest);
    ScanDigit(v0, [Enbase64(v1, url)] + rest, url, 0, 0, out);
    ScanDigit(v1, rest, url, v0, 1, out);
    OneValue(a, v0 * 64 + v1);
    PadEnd(url, v0 * 64 + v1, 2, out);
  }

  lemma {:induction false} TailTwo(a: Byte, b: Byte, url: bool, rest: string)
    requires rest == if url then "" else "="
    ensures Tail([a, b], url) ==
      [Enbase64(a / 4, url)] + ([Enbase64(a % 4 * 16 + b / 16, url)] + ([Enbase64(b % 16 * 4, url)] + rest))
  {
    hide Enbase64;
  }

  lemma TwoValue(a: Byte, b: Byte, accum: nat)
    requires accum == (a / 4 * 64 + (a % 4 * 16 + b / 16)) * 64 + b % 16 * 4
    ensures TwoOf(accum) == [a, b]
  {
    assert accum == a * 0x400 + b * 4;
    DivModIs(accum, 0x400, a, b * 4);
    DivModIs(accum, 4, a * 0x100 + b, 0);
    DivModIs(a * 0x100 + b, 0x100, a, b);
  }

  lemma {:induction false} ScanTwo(a: Byte, b: Byte, url: bool, out: seq<Byte>)
    ensures Scan(Tail([a, b], url), url, 0, 0, out) == Bytes(out + [a, b])
  {
    hide Scan, Enbase64, OneOf, TwoOf, Tail;
    var v0, v1, v2 := a / 4, a % 4 * 16 + b / 16, b % 16 * 4;
    var rest := if url then "" else "=";
    var r2 := [Enbase64(v2, url)] + rest;
    TailTwo(a, b, url, rest);
    ScanDigit(v0, [Enbase64(v1, url)] + r2, url, 0, 0, out);
    ScanDigit(v1, r2, url, v0, 1, out);
    ScanDigit(v2, rest, url, v0 * 64 + v1, 2, out);
    var accum := (v0 * 64 + v1) * 64 + v2;
    TwoValue(a, b, accum);
    PadEnd(url, accum, 3, out);
  }

  lemma {:induction false} ScanTail(s: seq<Byte>, url: bool, out: seq<Byte>)
    requires |s| <= 2
    ensures Scan(Tail(s, url), url, 0, 0, out) == Bytes(out + s)
  {
    if |s| == 1 {
      ScanOne(s[0], url, out);
    } else if |s| == 2 {
      ScanTwo(s[0], s[1], url, out);
    } else {
      assert out + s == out;
    }
  }

  /** Decode_Base64 gives back what Encode_Base64 was given, with and without line breaks, in both alphabets. */
  lemma {:induction false} DecodeFrom(src: seq<Byte>, x: nat, brk: bool, url: bool)
    requires x <= |src|
    ensures Scan(EncodedFrom(src, x, brk, url), url, 0, 0, src[..x]) == Bytes(src)
    decreases |src| - x
  {
    hide Scan, Quad, Tail;
    if x + 3 <= |src| {
      var more := EncodedFrom(src, x + 3, brk, url);
      var q := Quad(src[x], src[x + 1], src[x + 2], url);
      assert EncodedFrom(src, x, brk, url) == q + (Break(x, brk) + more);
      ScanQuad(src[x], src[x + 1], src[x + 2], Break(x, brk) + more, url, src[..x]);
      assert src[..x] + [src[x], src[x + 1], src[x + 2]] == src[..x + 3];
      if Break(x, brk) == "\n" {
        ScanFeed(more, url, 0, 0, src[..x + 3]);
      } else {
        assert "" + more == more;
      }
      DecodeFrom(src, x + 3, brk, url);
    } else {
      ScanTail(src[x..], url, src[..x]);
      assert src[..x] + src[x..] == src;
    }
  }

  lemma {:induction false} DecodeEncoded(src: seq<Byte>, brk: bool, url: bool)
    ensures Decode(Encoded(src, brk, url), url) == Bytes(src)
  {
    hide Scan;
    var body := EncodedFrom(src, 0, brk, url);
    DecodeFrom(src, 0, brk, url);
    assert src[..0] == [];
    if Lead(|src|, brk) == "\n" {
      ScanFeed(body, url, 0, 0, []);
    } else {
      assert "" + body == body;
    }
  }

  // ---- What decoding makes of any text ----

  /** The decoding table is the alphabet, and the spaces, turned round. */
  lemma TableMeans(c: char, url: bool)
    requires c as int < 128 && c != '='
    ensures Debase64(c, url) == BIN_SPACE <==> IsSpace(c)
    ensures Debase64(c, url) < 64 <==> IsDigit(c, url)
    ensures Debase64(c, url) < 64 ==> Alphabet(url)[Debase64(c, url)] == c
  {
    var lex := Debase64(c, url);
    if lex < 64 {
      AlphabetCode(url, lex);
      assert Alphabet(url)[lex] as int == c as int;
    } else if IsDigit(c, url) {
      var v :| 0 <= v < 64 && Alphabet(url)[v] == c;
      AlphabetCode(url, v);
    }
  }

  lemma {:induction false} DigitsAscii(c: char, url: bool)
    requires IsDigit(c, url)
    ensures c as int < 128 && c != '='
  {
    var v :| 0 <= v < 64 && Alphabet(url)[v] == c;
    AlphabetCode(url, v);
  }

  ghost predicate AllDigits(t: string, url: bool) {
    forall i :: 0 <= i < |t| ==> IsDigit(t[i], url)
  }

  ghost function Value(c: char, url: bool): (v: nat)
    requires IsDigit(c, url)
    ensures v < 64 && Alphabet(url)[v] == c
  {
    DigitsAscii(c, url);
    TableMeans(c, url);
    Debase64(c, url)
  }

  ghost function Values(t: string, url: bool): (vals: seq<nat>)
    requires AllDigits(t, url)
    ensures Spells(t, url, vals)
  {
    seq(|t|, i requires 0 <= i < |t| => Value(t[i], url))
  }

  lemma {:induction false} SpacelessDigits(t: string, url: bool)
    requires AllRegular(t, url)
    ensures AllDigits(Spaceless(t), url)
  {
    if t != "" {
      assert Regular(t[0], url);
      forall i | 0 <= i < |t| - 1
        ensures Regular(t[1..][i], url)
      {
        assert t[1..][i] == t[i + 1];
      }
      SpacelessDigits(t[1..], url);
    }
  }

  /** The bytes of digit values, group by group. */
  ghost function Packed(vals: seq<nat>): seq<Byte> {
    if |vals| >= 4 then ThreeOf(Number(64, vals[..4])) + Packed(vals[4..])
    else if |vals| == 3 then TwoOf(Number(64, vals))
    else if |vals| == 2 then OneOf(Number(64, vals))
    else []
  }

  /** What a scan that has the digits of group in hand makes of a text. */
  ghost function Reading(text: string, url: bool, group: seq<nat>, out: seq<Byte>): Decoded {
    var body := Body(text);
    if !AllRegular(body, url) then
      if !url && FirstOdd(body, url) in {'-', '_'} then SwitchUrl else Invalid
    else if Complete(|group| + |Spaceless(body)|, PadCount(text), url) then
      SpacelessDigits(body, url);
      Bytes(out + Packed(group + Values(Spaceless(body), url)))
    else Invalid
  }

  lemma {:induction false} PadsFollow(text: string)
    ensures PadCount(text) > 0 <==> '=' in text
  {
    if text != "" {
      PadsFollow(text[1..]);
      assert text == [text[0]] + text[1..];
    }
  }

  lemma NothingRegular(url: bool)
    ensures AllRegular("", url) && AllDigits("", url) && Values("", url) == []
  {
    hide IsDigit, IsSpace, Value;
  }

  lemma {:induction false} ReadingEnd(text: string, url: bool, group: seq<nat>, out: seq<Byte>)
    requires |group| <= 3 && (text == "" || text[0] == '=')
    ensures Scan(text, url, Number(64, group), |group|, out) == Reading(text, url, group, out)
  {
    hide Number, TwoOf, OneOf, ThreeOf, Values, AllRegular, AllDigits;
    assert Body(text) == "" && Spaceless("") == "" && group + [] == group;
    NothingRegular(url);
    if text != "" {
      PadsFollow(text[1..]);
      assert Debase64('=', url) == 0;
    } else {
      assert out + [] == out;
    }
  }

  lemma {:induction false} ReadingSpace(text: string, url: bool, group: seq<nat>, out: seq<Byte>)
    requires text != "" && text[0] != '=' && IsSpace(text[0])
    ensures Reading(text, url, group, out) == Reading(text[1..], url, group, out)
  {
    hide Body, AllRegular, Spaceless, Complete, PadCount, FirstOdd, Packed, IsDigit, Values, IsSpace;
    BodySpace(text, url);
  }

  lemma {:induction false} ValuesHead(c: char, t: string, url: bool)
    requires IsDigit(c, url) && AllDigits(t, url)
    ensures AllDigits([c] + t, url) && Values([c] + t, url) == [Value(c, url)] + Values(t, url)
  {
    hide Value, IsDigit;
  }

  lemma NoSpaceDigit(c: char, url: bool)
    requires IsDigit(c, url)
    ensures !IsSpace(c)
  {
    DigitsAscii(c, url);
    TableMeans(c, url);
  }

  lemma {:induction false} ReadingGroup(group: seq<nat>, v: nat, vals: seq<nat>, out: seq<Byte>)
    ensures group + ([v] + vals) == (group + [v]) + vals
    ensures |group| == 3 ==>
      out + Packed(group + ([v] + vals)) == out + ThreeOf(Number(64, group + [v])) + Packed([] + vals)
  {
    hide Number, ThreeOf;
    var more := group + [v];
    assert group + ([v] + vals) == more + vals;
    if |group| == 3 {
      assert (more + vals)[..4] == more && (more + vals)[4..] == vals == [] + vals;
    }
  }

  lemma CompleteShift(n: nat, pads: nat, url: bool)
    ensures n >= 4 ==> Complete(n, pads, url) == Complete(n - 4, pads, url)
  {
  }

  lemma {:induction false} ReadingDigit(text: string, url: bool, group: seq<nat>, out: seq<Byte>)
    requires text != "" && IsDigit(text[0], url) && |group| <= 3
    ensures text[0] != '='
    ensures Reading(text, url, group, out) ==
      var more := group + [Value(text[0], url)];
      if |more| == 4 then Reading(text[1..], url, [], out + ThreeOf(Number(64, more)))
      else Reading(text[1..], url, more, out)
  {
    hide Body, Spaceless, Complete, PadCount, FirstOdd, Number, ThreeOf, Packed, Value, Values, IsDigit, AllRegular,
      AllDigits, IsSpace;
    DigitsAscii(text[0], url);
    NoSpaceDigit(text[0], url);
    BodyDigit(text, url);
    var rest := Body(text[1..]);
    if AllRegular(rest, url) {
      SpacelessDigits(rest, url);
      var v, vals := Value(text[0], url), Values(Spaceless(rest), url);
      ValuesHead(text[0], Spaceless(rest), url);
      ReadingGroup(group, v, vals, out);
      CompleteShift(|group| + 1 + |Spaceless(rest)|, PadCount(text), url);
    }
  }

  lemma {:induction false} ReadingOdd(text: string, url: bool, group: seq<nat>, out: seq<Byte>)
    requires text != "" && text[0] != '=' && !IsSpace(text[0]) && !IsDigit(text[0], url)
    ensures Reading(text, url, group, out) == if !url && text[0] in {'-', '_'} then SwitchUrl else Invalid
  {
    hide Body, AllRegular, FirstOdd, IsDigit, IsSpace;
    BodyOdd(text, url);
  }

  lemma NumberPush(group: seq<nat>, v: nat)
    ensures Number(64, group + [v]) == Number(64, group) * 64 + v && Number(64, []) == 0
  {
    assert (group + [v])[..|group|] == group;
  }

  lemma {:induction false} ScanUnfold(text: string, url: bool, accum: nat, flip: nat, out: seq<Byte>)
    requires flip <= 3 && text != "" && text[0] != '='
    ensures IsSpace(text[0]) ==> Scan(text, url, accum, flip, out) == Scan(text[1..], url, accum, flip, out)
    ensures IsDigit(text[0], url) ==>
      Scan(text, url, accum, flip, out) ==
        var v := Value(text[0], url);
        if flip == 3 then Scan(text[1..], url, 0, 0, out + ThreeOf(accum * 64 + v))
        else Scan(text[1..], url, accum * 64 + v, flip + 1, out)
    ensures !IsSpace(text[0]) && !IsDigit(text[0], url) ==>
      Scan(text, url, accum, flip, out) == if !url && text[0] in {'-', '_'} then SwitchUrl else Invalid
  {
    hide ThreeOf, TwoOf, OneOf, IsDigit;
    if IsDigit(text[0], url) {
      DigitsAscii(text[0], url);
    }
    if text[0] as int < 128 {
      TableMeans(text[0], url);
    }
    hide Debase64;
  }

  /** The scan makes of a text what its body, its digits and its padding say. */
  lemma {:induction false} ScanReads(text: string, url: bool, group: seq<nat>, out: seq<Byte>)
    requires |group| <= 3
    ensures Scan(text, url, Number(64, group), |group|, out) == Reading(text, url, group, out)
    decreases |text|
  {
    hide Reading, Number, Scan, ThreeOf, TwoOf, OneOf, IsDigit, IsSpace, Value;
    if text == "" || text[0] == '=' {
      ReadingEnd(text, url, group, out);
    } else {
      var c := text[0];
      ScanUnfold(text, url, Number(64, group), |group|, out);
      if IsDigit(c, url) {
        ReadingDigit(text, url, group, out);
        NumberPush(group, Value(c, url));
        var more := group + [Value(c, url)];
        if |group| == 3 {
          ScanReads(text[1..], url, [], out + ThreeOf(Number(64, more)));
        } else {
          ScanReads(text[1..], url, more, out);
        }
      } else if IsSpace(c) {
        ReadingSpace(text, url, group, out);
        ScanReads(text[1..], url, group, out);
      } else {
        ReadingOdd(text, url, group, out);
      }
    }
  }

  // ---- The bytes of the groups are the bits of the digits ----

  lemma NumberAlgebra(x: nat, y: nat, b: nat, v: nat)
    ensures (x + y) * b + v == x * b + (y * b + v)
  {
  }

  lemma {:induction false} NumberConcat(base: nat, s: seq<nat>, t: seq<nat>)
    ensures Number(base, s + t) == Number(base, s) * Power(base, |t|) + Number(base, t)
  {
    if t == [] {
      assert s + t == s;
    } else {
      var n := |t| - 1;
      NumberConcat(base, s, t[..n]);
      assert (s + t)[..|s| + n] == s + t[..n];
      MulAssoc(Number(base, s), Power(base, n), base);
      assert Power(base, n + 1) == base * Power(base, n);
      NumberAlgebra(Number(base, s) * Power(base, n), Number(base, t[..n]), base, t[n]);
    }
  }

  lemma FourSixths(n: nat)
    ensures Power(64, n + 4) == 0x100_0000 * Power(64, n)
  {
    assert Power(64, n + 1) == 64 * Power(64, n);
    assert Power(64, n + 2) == 64 * Power(64, n + 1);
    assert Power(64, n + 3) == 64 * Power(64, n + 2);
  }

  lemma ThreeEighths(n: nat)
    ensures Power(256, n + 3) == 0x100_0000 * Power(256, n)
  {
    assert Power(256, n + 1) == 256 * Power(256, n);
    assert Power(256, n + 2) == 256 * Power(256, n + 1);
  }

  /** Bits of n digits and of the bytes cut from them. */
  lemma {:induction false} PowersMeet(n: nat)
    requires n % 4 != 1
    ensures Power(64, n) == Surplus(n) * Power(256, n * 6 / 8)
    decreases n
  {
    assert Power(64, 0) == 1 == Power(256, 0);
    if n >= 4 {
      PowersMeet(n - 4);
      FourSixths(n - 4);
      ThreeEighths((n - 4) * 6 / 8);
      assert n * 6 / 8 == (n - 4) * 6 / 8 + 3;
      MulAssoc(0x100_0000, Surplus(n - 4), Power(256, (n - 4) * 6 / 8));
      MulAssoc(Surplus(n - 4), 0x100_0000, Power(256, (n - 4) * 6 / 8));
    } else if n == 2 {
      assert Power(64, 1) == 64 * Power(64, 0) && Power(64, 2) == 64 * Power(64, 1);
      assert Power(256, 1) == 256 * Power(256, 0);
    } else if n == 3 {
      assert Power(64, 1) == 64 * Power(64, 0) && Power(64, 2) == 64 * Power(64, 1) &&
        Power(64, 3) == 64 * Power(64, 2);
      assert Power(256, 1) == 256 * Power(256, 0) && Power(256, 2) == 256 * Power(256, 1);
    }
  }

  ghost predicate Sixes(vals: seq<nat>) {
    forall i :: 0 <= i < |vals| ==> vals[i] < 64
  }

  lemma {:induction false} NumberBound(vals: seq<nat>)
    requires Sixes(vals)
    ensures Number(64, vals) < Power(64, |vals|)
  {
    if |vals| > 0 {
      NumberBound(vals[..|vals| - 1]);
    }
  }

  lemma {:induction false} NumberOne(base: nat, a: nat)
    ensures Number(base, [a]) == a
  {
    assert [a][..0] == [];
  }

  lemma {:induction false} SmallNumbers(a: nat, b: nat, c: nat)
    ensures Number(256, [a]) == a && Number(256, [a, b]) == a * 256 + b &&
      Number(256, [a, b, c]) == (a * 256 + b) * 256 + c
  {
    NumberOne(256, a);
    assert [a, b][..1] == [a] && [a, b, c][..2] == [a, b];
  }

  lemma ThreeParts(v: nat, h: nat, x: nat, y: nat, z: nat)
    requires v == h * 0x100 + z && h == x * 0x100 + y && x < 0x100 && y < 0x100 && z < 0x100
    ensures v / 0x1_0000 % 0x100 == x && v / 0x100 % 0x100 == y && v % 0x100 == z
  {
    DivModIs(v, 0x1_0000, x, y * 0x100 + z);
    DivModIs(v, 0x100, h, z);
    DivModIs(h, 0x100, x, y);
  }

  lemma ThreeNumber(v: nat)
    requires v < 0x100_0000
    ensures Number(256, ThreeOf(v)) == v
  {
    hide Number;
    var h := v / 0x100;
    ThreeParts(v, h, h / 0x100, h % 0x100, v % 0x100);
    SmallNumbers(h / 0x100, h % 0x100, v % 0x100);
  }

  lemma TwoNumber(v: nat)
    requires v < 0x4_0000
    ensures Number(256, TwoOf(v)) == v / 4
  {
    SmallNumbers(v / 0x400 % 0x100, v / 4 % 0x100, 0);
    hide Number;
    DivModIs(v / 4, 0x100, v / 0x400, v / 4 % 0x100);
  }

  lemma OneNumber(v: nat)
    requires v < 0x1000
    ensures Number(256, OneOf(v)) == v / 16
  {
    SmallNumbers(v / 16 % 0x100, 0, 0);
  }

  lemma QuotientAlgebra(a: nat, f: nat, p: nat, b: nat)
    requires f > 0
    ensures (a * (f * p) + b) / f == a * p + b / f
  {
    MulAssoc(a, f, p);
    MulAssoc(f, a, p);
    DivModIs(a * (f * p) + b, f, a * p + b / f, b % f);
  }

  lemma SmallPowers()
    ensures Power(64, 2) == 0x1000 && Power(64, 3) == 0x4_0000 && Power(64, 4) == 0x100_0000
  {
    assert Power(64, 0) == 1 && Power(64, 1) == 64 * Power(64, 0);
    assert Power(64, 2) == 64 * Power(64, 1) && Power(64, 3) == 64 * Power(64, 2);
    assert Power(64, 4) == 64 * Power(64, 3);
  }

  lemma SurplusShift(n: nat)
    ensures Surplus(n) > 0 && Surplus(n + 4) == Surplus(n) && (n + 4) * 6 / 8 == n * 6 / 8 + 3
  {
  }

  /** One more group in front: the bytes and the bits move up alike. */
  lemma {:induction false} GroupCarries(a: seq<nat>, b: seq<nat>, bytes: seq<Byte>)
    requires |a| == 4 && Number(64, a) < 0x100_0000 && |b| % 4 != 1 && Carries(b, bytes)
    ensures Carries(a + b, ThreeOf(Number(64, a)) + bytes)
  {
    hide Number, ThreeOf, Power, Surplus;
    NumberConcat(64, a, b);
    NumberConcat(256, ThreeOf(Number(64, a)), bytes);
    ThreeNumber(Number(64, a));
    PowersMeet(|b|);
    SurplusShift(|b|);
    QuotientAlgebra(Number(64, a), Surplus(|b|), Power(256, |bytes|), Number(64, b));
  }

  lemma NothingNumber()
    ensures Number(64, []) == 0 && Number(256, []) == 0
  {
  }

  lemma {:induction false} PackedCarries(vals: seq<nat>)
    requires Sixes(vals) && |vals| % 4 != 1
    ensures Carries(vals, Packed(vals))
  {
    hide Number, Power, ThreeOf, TwoOf, OneOf;
    SmallPowers();
    if |vals| >= 4 {
      var a, b := vals[..4], vals[4..];
      PackedCarries(b);
      NumberBound(a);
      assert vals == a + b;
      GroupCarries(a, b, Packed(b));
    } else {
      NumberBound(vals);
      if |vals| == 3 {
        TwoNumber(Number(64, vals));
      } else if |vals| == 2 {
        OneNumber(Number(64, vals));
      } else {
        NothingNumber();
        assert vals == [];
      }
    }
  }

  lemma {:induction false} SpelledSixes(t: string, url: bool, vals: seq<nat>)
    requires Spells(t, url, vals)
    ensures Sixes(vals) && |vals| == |t|
  {
  }

  lemma {:induction false} ReadingMeans(text: string, url: bool)
    ensures Reading(text, url, [], []) != SwitchUrl ==> MeansIn(text, url, Reading(text, url, [], []))
    ensures Reading(text, url, [], []) == SwitchUrl <==> !url && TurnsUrl(text)
  {
    var body := Body(text);
    hide Body, AllRegular, Spaceless, PadCount, Packed, FirstOdd, Carries, Spells;
    if AllRegular(body, url) && Complete(|Spaceless(body)|, PadCount(text), url) {
      SpacelessDigits(body, url);
      var vals := Values(Spaceless(body), url);
      SpelledSixes(Spaceless(body), url, vals);
      assert [] + vals == vals && [] + Packed(vals) == Packed(vals);
      PackedCarries(vals);
    }
  }

  /** Decoding gives every text its meaning. */
  lemma {:induction false} DecodeMeans(text: string, url: bool)
    ensures Means(text, url, Decode(text, url)) && Decode(text, url) != SwitchUrl
  {
    hide Scan, Reading, MeansIn, TurnsUrl;
    assert Number(64, []) == 0;
    ScanReads(text, url, [], []);
    ScanReads(text, true, [], []);
    ReadingMeans(text, url);
    ReadingMeans(text, true);
  }

  // ---- The two loops ----

  lemma {:induction false} EncodedUnfold(src: seq<Byte>, x: nat, brk: bool, url: bool)
    requires x <= |src|
    ensures EncodedFrom(src, x, brk, url) ==
      if x + 3 <= |src| then
        Quad(src[x], src[x + 1], src[x + 2], url) + Break(x, brk) + EncodedFrom(src, x + 3, brk, url)
      else Tail(src[x..], url)
  {
    hide Quad, Tail, Break;
  }

  // ---- What encoding writes ----

  lemma EnbaseMeans(v: nat, url: bool)
    requires v < 64
    ensures Alphabet(url)[v] == Enbase64(v, url) != '\n'
  {
    AlphabetCode(url, v);
    assert Alphabet(url)[v] as int == Enbase64(v, url) as int;
  }

  /** The values of the digits for the bytes from x on. */
  ghost function Sextets(src: seq<Byte>, x: nat): (vals: seq<nat>)
    requires x <= |src|
    ensures Sixes(vals)
    decreases |src| - x
  {
    if x + 3 <= |src| then
      [src[x] / 4, src[x] % 4 * 16 + src[x + 1] / 16, src[x + 1] % 16 * 4 + src[x + 2] / 64, src[x + 2] % 64]
      + Sextets(src, x + 3)
    else if x + 2 == |src| then [src[x] / 4, src[x] % 4 * 16 + src[x + 1] / 16, src[x + 1] % 16 * 4]
    else if x + 1 == |src| then [src[x] / 4, src[x] % 4 * 16]
    else []
  }

  ghost function Spelled(vals: seq<nat>, url: bool): (t: string)
    requires Sixes(vals)
    ensures |t| == |vals|
  {
    seq(|vals|, i requires 0 <= i < |vals| => Enbase64(vals[i], url))
  }

  lemma {:induction false} SpelledSpells(vals: seq<nat>, url: bool)
    requires Sixes(vals)
    ensures Spells(Spelled(vals, url), url, vals) && '\n' !in Spelled(vals, url)
  {
    forall i | 0 <= i < |vals|
      ensures Alphabet(url)[vals[i]] == Enbase64(vals[i], url) != '\n'
    {
      EnbaseMeans(vals[i], url);
    }
    hide Enbase64, Alphabet;
  }

  lemma {:induction false} SpelledConcat(a: seq<nat>, b: seq<nat>, url: bool)
    requires Sixes(a) && Sixes(b)
    ensures Sixes(a + b) && Spelled(a + b, url) == Spelled(a, url) + Spelled(b, url)
  {
    hide Enbase64;
  }

  lemma {:induction false} ConcatAssociative(a: string, b: string, c: string)
    ensures a + (b + c) == (a + b) + c
  {
  }

  lemma {:induction false} UnfedConcat(a: string, b: string)
    ensures Unfed(a + b) == Unfed(a) + Unfed(b)
  {
    if a == "" {
      assert a + b == b;
      assert "" + Unfed(b) == Unfed(b);
    } else {
      var head := if a[0] == '\n' then "" else [a[0]];
      assert (a + b)[1..] == a[1..] + b;
      UnfedConcat(a[1..], b);
      ConcatAssociative(head, Unfed(a[1..]), Unfed(b));
    }
  }

  lemma {:induction false} UnfedPlain(a: string)
    requires '\n' !in a
    ensures Unfed(a) == a
  {
    if a != "" {
      UnfedPlain(a[1..]);
    }
  }

  lemma {:induction false} QuadSpelled(a: Byte, b: Byte, c: Byte, url: bool, vals: seq<nat>)
    requires vals == [a / 4, a % 4 * 16 + b / 16, b % 16 * 4 + c / 64, c % 64]
    ensures Sixes(vals) && Quad(a, b, c, url) == Spelled(vals, url)
  {
    hide Enbase64;
  }

  lemma {:induction false} TailSpelled(src: seq<Byte>, x: nat, url: bool)
    requires x <= |src| < x + 3 && x % 3 == 0
    ensures Tail(src[x..], url) == Spelled(Sextets(src, x), url) + Padding(|src|, url)
    ensures '\n' !in Tail(src[x..], url)
  {
    SpelledSpells(Sextets(src, x), url);
    assert |src| % 3 == |src| - x;
    hide Enbase64;
    if x == |src| {
      assert src[x..] == [];
    } else if x + 1 == |src| {
      assert src[x..] == [src[x]];
    } else {
      assert src[x..] == [src[x], src[x + 1]];
    }
  }

  lemma FeedUnfed()
    ensures Unfed("\n") == "" && Unfed("") == ""
  {
  }

  lemma {:induction false} SextetsUnfold(src: seq<Byte>, x: nat)
    requires x <= |src|
    ensures x + 3 <= |src| ==> |Sextets(src, x)| >= 4 && Sextets(src, x) == Sextets(src, x)[..4] + Sextets(src, x + 3)
    ensures x + 3 <= |src| ==>
      Sextets(src, x)[..4] ==
        [src[x] / 4, src[x] % 4 * 16 + src[x + 1] / 16, src[x + 1] % 16 * 4 + src[x + 2] / 64, src[x + 2] % 64]
  {
  }

  /** Without its line feeds the text is the digits and the padding. */
  lemma {:induction false} UnfedFrom(src: seq<Byte>, x: nat, brk: bool, url: bool)
    requires x <= |src| && x % 3 == 0
    ensures Unfed(EncodedFrom(src, x, brk, url)) == Spelled(Sextets(src, x), url) + Padding(|src|, url)
    decreases |src| - x
  {
    hide Quad, Tail, Spelled, Sextets, Unfed, Padding;
    SextetsUnfold(src, x);
    if x + 3 <= |src| {
      var q := Quad(src[x], src[x + 1], src[x + 2], url);
      var vals := Sextets(src, x)[..4];
      var more := EncodedFrom(src, x + 3, brk, url);
      QuadSpelled(src[x], src[x + 1], src[x + 2], url, vals);
      SpelledSpells(vals, url);
      SpelledConcat(vals, Sextets(src, x + 3), url);
      UnfedConcat(q + Break(x, brk), more);
      UnfedConcat(q, Break(x, brk));
      UnfedPlain(q);
      FeedUnfed();
      UnfedFrom(src, x + 3, brk, url);
    } else {
      TailSpelled(src, x, url);
      UnfedPlain(Tail(src[x..], url));
    }
  }

  lemma {:induction false} NoFeedIn(t: string, k: nat)
    requires '\n' !in t && k < |t|
    ensures t[k] != '\n'
  {
  }

  /** The digits that stand on the line before byte x. */
  ghost function Place(x: nat): nat {
    x % 48 / 3 * 4
  }

  /** The lines that are full before byte x. */
  ghost function Lines(x: nat): nat {
    x / 48
  }

  lemma PlaceAt(q: nat, m: nat)
    requires m < 16
    ensures Place(48 * q + 3 * m) == 4 * m && Lines(48 * q + 3 * m) == q && (48 * q + 3 * m) % 48 == 3 * m
  {
    DivModIs(48 * q + 3 * m, 48, q, 3 * m);
  }

  lemma LineOf(x: nat) returns (q: nat, m: nat)
    requires x % 3 == 0
    ensures m < 16 && x == 48 * q + 3 * m
  {
    q, m := x / 48, x % 48 / 3;
  }

  /** A line is full, and broken, after its last three bytes. */
  lemma PlaceNext(x: nat, brk: bool)
    requires x % 3 == 0
    ensures Place(x) <= 60 && Place(x + 3) == if Place(x) == 60 then 0 else Place(x) + 4
    ensures Break(x, brk) == if brk && Place(x) == 60 then "\n" else ""
    ensures Lines(x + 3) == Lines(x) + if Place(x) == 60 then 1 else 0
  {
    hide Place, Lines;
    var q, m := LineOf(x);
    PlaceAt(q, m);
    if m == 15 {
      PlaceAt(q + 1, 0);
    } else {
      PlaceAt(q, m + 1);
    }
  }

  lemma FeedMoves(k: int, p: nat)
    requires 0 <= k && p <= 60
    ensures k < 4 ==> (k + p) % 65 != 64
    ensures p == 60 && k == 4 ==> (k + p) % 65 == 64
    ensures p == 60 && k >= 5 ==> (k + p) % 65 == (k - 5) % 65
  {
  }

  lemma {:induction false} ConcatAt(a: string, b: string, c: string, k: nat)
    requires k < |a + b + c|
    ensures (a + b + c)[k] == if k < |a| then a[k] else if k < |a| + |b| then b[k - |a|] else c[k - |a| - |b|]
  {
  }

  lemma {:induction false} QuadPlain(a: Byte, b: Byte, c: Byte, url: bool)
    ensures |Quad(a, b, c, url)| == 4 && '\n' !in Quad(a, b, c, url)
  {
    var vals := [a / 4, a % 4 * 16 + b / 16, b % 16 * 4 + c / 64, c % 64];
    QuadSpelled(a, b, c, url, vals);
    SpelledSpells(vals, url);
  }

  lemma {:induction false} TailShort(s: seq<Byte>, url: bool)
    requires |s| <= 2
    ensures |Tail(s, url)| <= 4
  {
  }

  /** The line feeds among the digits of the bytes from x on. */
  lemma {:induction false} FeedsFrom(src: seq<Byte>, x: nat, brk: bool, url: bool, k: nat)
    requires x <= |src| && x % 3 == 0 && k < |EncodedFrom(src, x, brk, url)|
    ensures EncodedFrom(src, x, brk, url)[k] == '\n' <==> brk && (k + Place(x)) % 65 == 64
    decreases |src| - x
  {
    hide Quad, Tail, Place, Break, Lines;
    PlaceNext(x, brk);
    FeedMoves(k, Place(x));
    if x + 3 <= |src| {
      var q, b, more := Quad(src[x], src[x + 1], src[x + 2], url), Break(x, brk), EncodedFrom(src, x + 3, brk, url);
      QuadPlain(src[x], src[x + 1], src[x + 2], url);
      ConcatAt(q, b, more, k);
      if k < 4 {
        NoFeedIn(q, k);
      } else if k >= 4 + |b| {
        FeedsFrom(src, x + 3, brk, url, k - 4 - |b|);
      }
    } else {
      TailSpelled(src, x, url);
      TailShort(src[x..], url);
      NoFeedIn(Tail(src[x..], url), k);
    }
  }

  lemma LastLine(n: nat, x: nat)
    requires x % 3 == 0 && x <= n < x + 3
    ensures Lines(n) == Lines(x)
  {
    var q, m := LineOf(x);
    DivModIs(n, 48, q, 3 * m + (n - x));
    DivModIs(x, 48, q, 3 * m);
  }

  lemma {:induction false} LengthFrom(src: seq<Byte>, x: nat, brk: bool, url: bool)
    requires x <= |src| && x % 3 == 0
    ensures |EncodedFrom(src, x, brk, url)| ==
      |Sextets(src, x)| + |Padding(|src|, url)| + if brk then Lines(|src|) - Lines(x) else 0
    decreases |src| - x
  {
    hide Quad, Tail, Sextets, Padding, Break, Lines, Place;
    SextetsUnfold(src, x);
    PlaceNext(x, brk);
    if x + 3 <= |src| {
      QuadPlain(src[x], src[x + 1], src[x + 2], url);
      LengthFrom(src, x + 3, brk, url);
    } else {
      LastLine(|src|, x);
      TailSpelled(src, x, url);
    }
  }

  lemma {:induction false} FourDigits(a: nat, b: nat, c: nat, d: nat)
    ensures Number(64, [a, b]) == a * 64 + b && Number(64, [a, b, c]) == (a * 64 + b) * 64 + c
    ensures Number(64, [a, b, c, d]) == ((a * 64 + b) * 64 + c) * 64 + d
  {
    NumberOne(64, a);
    assert [a, b][..1] == [a] && [a, b, c][..2] == [a, b] && [a, b, c, d][..3] == [a, b, c];
  }

  lemma SextetNumbers(a: nat, b: nat, c: nat)
    requires a < 256 && b < 256 && c < 256
    ensures Number(64, [a / 4, a % 4 * 16 + b / 16, b % 16 * 4 + c / 64, c % 64]) == Number(256, [a, b, c])
    ensures Number(64, [a / 4, a % 4 * 16 + b / 16, b % 16 * 4]) == Number(256, [a, b]) * 4
    ensures Number(64, [a / 4, a % 4 * 16]) == Number(256, [a]) * 16
  {
    SmallNumbers(a, b, c);
    FourDigits(a / 4, a % 4 * 16 + b / 16, b % 16 * 4 + c / 64, c % 64);
    FourDigits(a / 4, a % 4 * 16 + b / 16, b % 16 * 4, 0);
    FourDigits(a / 4, a % 4 * 16, 0, 0);
  }

  lemma HoldsAlgebra(n4: nat, p: nat, r: nat, s: nat)
    ensures n4 * (s * p) + r * s == (n4 * p + r) * s
  {
    MulAssoc(n4, s, p);
    MulAssoc(n4, p, s);
  }

  lemma {:induction false} HoldsMore(q: seq<nat>, vals: seq<nat>, three: seq<Byte>, rest: seq<Byte>)
    requires |q| == 4 && |three| == 3 && Number(64, q) == Number(256, three) && Holds(vals, rest) && |vals| % 4 != 1
    ensures Holds(q + vals, three + rest) && |q + vals| % 4 != 1
  {
    hide Number, Power, Surplus;
    NumberConcat(64, q, vals);
    NumberConcat(256, three, rest);
    PowersMeet(|vals|);
    SurplusShift(|vals|);
    assert |vals| * 6 / 8 == |rest|;
    HoldsAlgebra(Number(64, q), Power(256, |rest|), Number(256, rest), Surplus(|vals|));
  }

  /** The digits hold the bits of the bytes. */
  lemma {:induction false} SextetsHold(src: seq<Byte>, x: nat)
    requires x <= |src|
    ensures Holds(Sextets(src, x), src[x..]) && |Sextets(src, x)| % 4 != 1
    decreases |src| - x
  {
    if x + 3 <= |src| {
      hide Number, Power, Surplus, Sextets;
      SextetsUnfold(src, x);
      var three, rest := src[x..x + 3], src[x + 3..];
      var q, vals := Sextets(src, x)[..4], Sextets(src, x + 3);
      SextetsHold(src, x + 3);
      assert src[x..] == three + rest && three == [src[x], src[x + 1], src[x + 2]];
      SextetNumbers(src[x], src[x + 1], src[x + 2]);
      HoldsMore(q, vals, three, rest);
    } else if x + 2 == |src| {
      assert src[x..] == [src[x], src[x + 1]];
      SextetNumbers(src[x], src[x + 1], 0);
    } else if x + 1 == |src| {
      assert src[x..] == [src[x]];
      SextetNumbers(src[x], 0, 0);
    }
  }

  lemma {:induction false} EncodedFeeds(src: seq<Byte>, brk: bool, url: bool)
    ensures FeedsWritten(src, brk, Encoded(src, brk, url))
  {
    hide EncodedFrom;
    var text, lead := Encoded(src, brk, url), Lead(|src|, brk);
    forall k | 0 <= k < |text|
      ensures text[k] == '\n' <==> FeedAt(|src|, brk, k)
    {
      assert Place(0) == 0;
      if k >= |lead| {
        FeedsFrom(src, 0, brk, url, k - |lead|);
      }
    }
  }

  lemma {:induction false} EncodedDigits(src: seq<Byte>, brk: bool, url: bool)
    ensures DigitsWritten(src, brk, url, Encoded(src, brk, url))
  {
    hide EncodedFrom, Sextets, Spelled, Unfed, Spells, Holds, Padding;
    var lead, body, vals := Lead(|src|, brk), EncodedFrom(src, 0, brk, url), Sextets(src, 0);
    SextetsHold(src, 0);
    assert src[0..] == src;
    SpelledSpells(vals, url);
    UnfedFrom(src, 0, brk, url);
    UnfedConcat(lead, body);
    FeedUnfed();
    LengthFrom(src, 0, brk, url);
    assert Unfed(lead + body) == Spelled(vals, url) + Padding(|src|, url);
  }

  lemma {:induction false} EncodedWrites(src: seq<Byte>, brk: bool, url: bool)
    ensures Writes(src, brk, url, Encoded(src, brk, url))
  {
    hide Encoded, DigitsWritten, FeedsWritten;
    EncodedFeeds(src, brk, url);
    EncodedDigits(src, brk, url);
  }

  /** Encode_Base64. */
  method EncodeBase64(src: seq<Byte>, brk: bool, url: bool) returns (text: string)
    ensures Writes(src, brk, url, text)
    ensures text == Encoded(src, brk, url)
    ensures Decode(text, url) == Bytes(src)
  {
    hide EncodedFrom, Decode, Quad, Tail, Break, Writes;
    var len := |src|;
    var loop := len / 3 - 1;
    assert 3 * loop + 3 + len % 3 == len;
    text := if 4 * loop > 64 && brk then "\n" else "";
    var x: nat := 0;
    ghost var g: nat := 0;
    while x <= 3 * loop
      invariant x == 3 * g && g <= loop + 1
      invariant Encoded(src, brk, url) == text + EncodedFrom(src, x, brk, url)
      decreases 3 * loop - x
    {
      EncodedUnfold(src, x, brk, url);
      text := text + Quad(src[x], src[x + 1], src[x + 2], url);
      text := text + Break(x, brk);
      x := x + 3;
      g := g + 1;
    }
    EncodedUnfold(src, x, brk, url);
    text := text + Tail(src[x..], url);
    DecodeEncoded(src, brk, url);
    EncodedWrites(src, brk, url);
  }

  /** The loop of Decode_Base64. */
  method ScanText(text: string, url: bool) returns (r: Decoded)
    ensures r == Scan(text, url, 0, 0, [])
    ensures url ==> r != SwitchUrl
  {
    hide ThreeOf, TwoOf, OneOf;
    var cp: nat, accum: nat, flip: nat := 0, 0, 0;
    var out: seq<Byte> := [];
    assert text[0..] == text;
    while cp < |text|
      invariant cp <= |text| && flip <= 3
      invariant Scan(text[cp..], url, accum, flip, out) == Scan(text, url, 0, 0, [])
    {
      var c := text[cp];
      assert text[cp..][0] == c && text[cp..][1..] == text[cp + 1..];
      cp := cp + 1;
      if c as int > 127 {
        if c as int == 0xA0 {
          continue;
        }
        return Invalid;
      }
      var lex := Debase64(c, url);
      if lex < BIN_SPACE {
        if c != '=' {
          accum := accum * 64 + lex;
          if flip == 3 {
            out := out + ThreeOf(accum);
            accum := 0;
            flip := 0;
          } else {
            flip := flip + 1;
          }
        } else if flip == 3 {
          return Bytes(out + TwoOf(accum));
        } else if flip == 2 {
          if '=' !in text[cp..] {
            return Invalid;
          }
          return Bytes(out + OneOf(accum));
        } else {
          return Invalid;
        }
      } else if lex == BIN_ERROR {
        if !url && (c == '-' || c == '_') {
          return SwitchUrl;
        }
        return Invalid;
      }
    }
    assert text[cp..] == "";
    if flip != 0 {
      if !url {
        return Invalid;
      }
      if flip == 3 {
        out := out + TwoOf(accum);
      } else if flip == 2 {
        out := out + OneOf(accum);
      } else {
        return Invalid;
      }
    }
    r := Bytes(out);
  }

  /** Both readings. */
  method Decoding(text: string, urlSafe: bool) returns (r: Decoded)
    ensures r == Decode(text, urlSafe)
  {
    r := ScanText(text, urlSafe);
    if r == SwitchUrl {
      r := ScanText(text, true);
    }
  }

  /** Decode_Base64 on a whole text, the jump back to its start included. */
  method DecodeBase64(text: string, urlSafe: bool) returns (r: Decoded)
    ensures Means(text, urlSafe, r)
    ensures r == Decode(text, urlSafe) != SwitchUrl
  {
    hide Decode, Means;
    DecodeMeans(text, urlSafe);
    r := Decoding(text, urlSafe);
  }

  /** Encoding and then decoding gives back the bytes. */
  method RoundTrip(src: seq<Byte>, brk: bool, url: bool) returns (text: string, r: Decoded)
    ensures text == Encoded(src, brk, url) && r == Bytes(src)
  {
    text := EncodeBase64(src, brk, url);
    r := DecodeBase64(text, url);
  }
}
