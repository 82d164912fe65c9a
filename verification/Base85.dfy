/** ASCII85 as f-enbase.c writes and reads it: Encode_Base85 and Decode_Base85. */
module Base85 {
  import opened Arithmetic
  import opened Base85Spec

  const BIN_SPACE: int := 0x55
  const BIN_ERROR: int := 0x80
  const DIGITS: nat := 5

  // ---- The tables ----

  function Enbase85(d: int): char
    requires 0 <= d < 85
  {
    (33 + d) as char
  }

  function Debase85(c: char): (d: int)
    requires c as int < 128
    ensures 0 <= d < 85 || d == BIN_SPACE || d == BIN_ERROR
  {
    var n := c as int;
    if 33 <= n <= 117 then n - 33
    else if n in {8, 9, 10, 12, 13, 32} then BIN_SPACE
    else BIN_ERROR
  }

  predicate Ascii(text: string) {
    forall i :: 0 <= i < |text| ==> text[i] as int < 128
  }

  // ---- Encoding ----

  /** The last n base-85 digits of v, most significant first. */
  ghost function Digits(v: nat, n: nat): (s: string)
    ensures |s| == n && Ascii(s)
    ensures forall i :: 0 <= i < n ==> 33 <= s[i] as int <= 117
  {
    if n == 0 then "" else Digits(v / 85, n - 1) + [Enbase85(v % 85)]
  }

  function Chunk(a: int, b: int, c: int, d: int): int {
    a * 0x100_0000 + b * 0x1_0000 + c * 0x100 + d
  }

  ghost function GroupText(chunk: nat): (t: string)
    ensures Ascii(t)
  {
    if chunk == 0 then "z" else Digits(chunk, 5)
  }

  ghost function TailChunk(s: seq<Byte>): nat
    requires 1 <= |s| <= 3
  {
    Chunk(s[0], if |s| > 1 then s[1] else 0, if |s| > 2 then s[2] else 0, 0)
  }

  /** The encoding: four bytes to five digits, four zeros to one z, a tail of n bytes to n + 1 digits. */
  ghost function Encoded(s: seq<Byte>): (t: string)
    ensures Ascii(t)
  {
    if |s| == 0 then ""
    else if |s| >= 4 then GroupText(Chunk(s[0], s[1], s[2], s[3])) + Encoded(s[4..])
    else Digits(TailChunk(s), 5)[..|s| + 1]
  }

  // ---- Decoding ----

  /** A group as read: its 32-bit value, the digits that were missing, and the text after it. */
  datatype Group = Group(chunk: nat, pad: nat, rest: string) | BadGroup

  /** One more digit; the fifth is checked against overflow. */
  function AddDigit(c: nat, chunk: nat, d: nat): (r: int)
    requires d < 85
    ensures r == -1 || 0 <= r <= MAX_U32
  {
    if c == 4 then
      if chunk > MAX_U32 / 85 then -1
      else if chunk * 85 > MAX_U32 - d then -1
      else chunk * 85 + d
    else (chunk * 85 + d) % 0x1_0000_0000
  }

  /** The loop over the five digits of a group: spaces are passed over; past the end of the text digits are missing. */
  ghost function ReadGroup(text: string, c: nat, chunk: nat, pad: nat): (g: Group)
    requires Ascii(text) && c <= 5
    ensures g.Group? ==> Ascii(g.rest) && |g.rest| <= |text| && (text != "" && c < 5 ==> |g.rest| < |text|)
    ensures g.Group? ==> g.pad <= pad + 5 - c
    decreases 5 - c, |text|
  {
    if c == 5 then Group(chunk, pad, text)
    else if text != "" then
      var d := Debase85(text[0]);
      if d == BIN_SPACE then ReadGroup(text[1..], c, chunk, pad)
      else if d > 127 || AddDigit(c, chunk, d) < 0 then BadGroup
      else ReadGroup(text[1..], c + 1, AddDigit(c, chunk, d), pad)
    else
      var more := if pad == 0 then chunk + 1 else chunk;
      if AddDigit(c, more, 0) < 0 then BadGroup
      else ReadGroup(text, c + 1, AddDigit(c, more, 0), pad + 1)
  }

  function FourBytes(chunk: nat): (s: seq<Byte>)
    ensures |s| == 4
  {
    [chunk / 0x100_0000 % 0x100, chunk / 0x1_0000 % 0x100, chunk / 0x100 % 0x100, chunk % 0x100]
  }

  /** Five missing digits overflow. */
  lemma {:induction false} FiveMissing()
    ensures ReadGroup("", 0, 0, 0) == BadGroup
  {
    assert ReadGroup("", 4, 614125 * 85, 4) == BadGroup;
    assert ReadGroup("", 3, 614125, 3) == BadGroup;
    assert ReadGroup("", 2, 7225, 2) == BadGroup;
    assert ReadGroup("", 1, 85, 1) == BadGroup;
  }

  /** Digits are missing at the end of the text only. */
  lemma {:induction false} MissingAtEnd(text: string, c: nat, chunk: nat, pad: nat)
    requires Ascii(text) && c <= 5 && (text == "" || pad == 0)
    ensures var g := ReadGroup(text, c, chunk, pad);
      g.Group? && g.pad > 0 ==> g.rest == ""
    decreases 5 - c, |text|
  {
    if c < 5 {
      if text != "" {
        var d := Debase85(text[0]);
        if d == BIN_SPACE {
          MissingAtEnd(text[1..], c, chunk, pad);
        } else if d <= 127 && AddDigit(c, chunk, d) >= 0 {
          MissingAtEnd(text[1..], c + 1, AddDigit(c, chunk, d), pad);
        }
      } else {
        var more := if pad == 0 then chunk + 1 else chunk;
        if AddDigit(c, more, 0) >= 0 {
          MissingAtEnd(text, c + 1, AddDigit(c, more, 0), pad + 1);
        }
      }
    }
  }

  /** A group lacks at most four digits, so a tail never takes back more bytes than its own group wrote. */
  lemma {:induction false} FourMissing(text: string)
    requires Ascii(text)
    ensures var g := ReadGroup(text, 0, 0, 0);
      g.Group? ==> g.pad <= 4 && (g.pad > 0 ==> g.rest == "")
    decreases |text|
  {
    MissingAtEnd(text, 0, 0, 0);
    if text == "" {
      FiveMissing();
    } else if Debase85(text[0]) == BIN_SPACE {
      FourMissing(text[1..]);
    }
  }

  /** The whole decoding, from the text still to read, the bytes written, and the digits missing so far. */
  ghost function DecodeFrom(text: string, out: seq<Byte>, pad: nat): Decoded
    requires Ascii(text) && pad <= |out| && (text == "" || pad == 0)
    decreases |text|
  {
    FourMissing(text);
    if text == "" then Bytes(out[..|out| - pad])
    else if text[0] == 'z' then DecodeFrom(text[1..], out + [0, 0, 0, 0], pad)
    else
      var g := ReadGroup(text, 0, 0, pad);
      if g == BadGroup then Invalid else DecodeFrom(g.rest, out + FourBytes(g.chunk), g.pad)
  }

  // ---- Decoding undoes encoding ----

  lemma {:induction false} ReadDigit(text: string, rest: string, d: int, c: nat, chunk: nat, pad: nat)
    requires 0 <= d < 85 && Ascii(rest) && c < 5 && text == [Enbase85(d)] + rest
    ensures Ascii(text)
    ensures ReadGroup(text, c, chunk, pad) ==
      if AddDigit(c, chunk, d) < 0 then BadGroup else ReadGroup(rest, c + 1, AddDigit(c, chunk, d), pad)
  {
    assert text[1..] == rest;
  }

  ghost function P85(n: nat): (p: nat)
    ensures p > 0
  {
    if n == 0 then 1 else 85 * P85(n - 1)
  }

  lemma SmallPowers()
    ensures P85(1) == 85 && P85(2) == 7225 && P85(3) == 614125 && P85(4) == 52200625 && P85(5) == 4437053125
  {
    assert P85(0) == 1;
    assert P85(1) == 85 * P85(0);
    assert P85(2) == 85 * P85(1);
    assert P85(3) == 85 * P85(2);
    assert P85(4) == 85 * P85(3);
  }

  lemma DigitFits(v: nat, n: nat)
    requires 1 <= n <= 5 && v <= MAX_U32
    ensures AddDigit(n - 1, v / 85, v % 85) == v
  {
  }

  /** Reading n digits of v accumulates v; the fifth needs v to fit 32 bits, and then passes the overflow checks. */
  lemma {:induction false} ReadDigits(v: nat, n: nat, rest: string, pad: nat)
    requires n <= 5 && v < P85(n) && v <= MAX_U32 && Ascii(rest)
    ensures Ascii(Digits(v, n) + rest)
    ensures ReadGroup(Digits(v, n) + rest, 0, 0, pad) == ReadGroup(rest, n, v, pad)
    decreases n
  {
    if n == 0 {
      assert Digits(v, n) + rest == rest;
    } else {
      var d := v % 85;
      var more := [Enbase85(d)] + rest;
      ReadDigits(v / 85, n - 1, more, pad);
      assert Digits(v, n) + rest == Digits(v / 85, n - 1) + more;
      ReadDigit(more, rest, d, n - 1, v / 85, pad);
      DigitFits(v, n);
    }
  }

  /** v with its last m base-85 digits dropped. */
  ghost function Dropped(v: nat, m: nat): nat {
    if m == 0 then v else Dropped(v / 85, m - 1)
  }

  /** Leaving out the last m digits is dropping them from the number. */
  lemma {:induction false} LeadingDigits(v: nat, n: nat, m: nat)
    requires m <= n
    ensures Digits(v, n)[..n - m] == Digits(Dropped(v, m), n - m)
    decreases m
  {
    if m > 0 {
      LeadingDigits(v / 85, n - 1, m - 1);
      assert Digits(v, n)[..n - m] == Digits(v / 85, n - 1)[..n - m];
    } else {
      assert Digits(v, n)[..n] == Digits(v, n);
    }
  }

  lemma ScaleUp(d: nat, p: nat, q: nat, v: nat)
    requires q == v / 85 && d * p <= q < (d + 1) * p
    ensures d * (85 * p) <= v < (d + 1) * (85 * p)
  {
    assert 85 * (d * p) == d * (85 * p);
    assert 85 * ((d + 1) * p) == (d + 1) * (85 * p);
  }

  /** Dropping m digits and scaling back what comes next overshoots by at most 85 to the m. */
  lemma {:induction false} DroppedBounds(v: nat, m: nat)
    ensures Dropped(v, m) * P85(m) <= v < (Dropped(v, m) + 1) * P85(m)
    decreases m
  {
    if m > 0 {
      DroppedBounds(v / 85, m - 1);
      ScaleUp(Dropped(v, m), P85(m - 1), v / 85, v);
    }
  }

  lemma RemainderIs(v: int, q: int, r: int)
    requires 0 <= r < 0x100 && v == q * 0x100 + r
    ensures v % 0x100 == r
  {
  }

  lemma FourBytesOf(a: Byte, b: Byte, c: Byte, d: Byte)
    ensures 0 <= Chunk(a, b, c, d) <= MAX_U32
    ensures FourBytes(Chunk(a, b, c, d)) == [a, b, c, d]
  {
    var v := Chunk(a, b, c, d);
    DivModIs(v, 0x100_0000, a, b * 0x1_0000 + c * 0x100 + d);
    DivModIs(v, 0x1_0000, a * 0x100 + b, c * 0x100 + d);
    DivModIs(v, 0x100, a * 0x1_0000 + b * 0x100 + c, d);
    RemainderIs(a * 0x100 + b, a, b);
    RemainderIs(a * 0x1_0000 + b * 0x100 + c, a * 0x100 + b, c);
    RemainderIs(v, a * 0x1_0000 + b * 0x100 + c, d);
  }

  /** One more missing digit. */
  lemma ReadMissing(c: nat, chunk: nat, pad: nat)
    requires c < 5
    ensures var more := if pad == 0 then chunk + 1 else chunk;
      ReadGroup("", c, chunk, pad) ==
        if AddDigit(c, more, 0) < 0 then BadGroup else ReadGroup("", c + 1, AddDigit(c, more, 0), pad + 1)
  {
  }

  /** What the decoder makes of the leading digits d of a tail that lacks m: incremented and scaled. */
  ghost function Scaled(d: nat, m: nat): nat {
    (d + 1) * P85(m)
  }

  ghost function TailValue(s: seq<Byte>): nat
    requires 1 <= |s| <= 3
  {
    Scaled(Dropped(TailChunk(s), 4 - |s|), 4 - |s|)
  }

  lemma Overshoot(d: nat, p: nat, c: nat)
    requires d * p <= c < (d + 1) * p
    ensures 0 < (d + 1) * p - c <= p
  {
    assert (d + 1) * p == d * p + p;
  }

  lemma {:induction false} TailRange(s: seq<Byte>)
    requires 1 <= |s| <= 3
    ensures TailChunk(s) < TailValue(s) <= TailChunk(s) + P85(4 - |s|)
  {
    hide P85, Dropped, TailChunk;
    DroppedBounds(TailChunk(s), 4 - |s|);
    Overshoot(Dropped(TailChunk(s), 4 - |s|), P85(4 - |s|), TailChunk(s));
  }

  lemma OneByte(a: Byte, e: nat)
    requires e < 0x100_0000
    ensures a * 0x100_0000 + e <= MAX_U32 && FourBytes(a * 0x100_0000 + e)[..1] == [a]
  {
    var hi, lo := e / 0x100, e % 0x100;
    FourBytesOf(a, hi / 0x100, hi % 0x100, lo);
  }

  lemma TwoBytes(a: Byte, b: Byte, e: nat)
    requires e < 0x1_0000
    ensures a * 0x100_0000 + b * 0x1_0000 + e <= MAX_U32
    ensures FourBytes(a * 0x100_0000 + b * 0x1_0000 + e)[..2] == [a, b]
  {
    FourBytesOf(a, b, e / 0x100, e % 0x100);
  }

  /** It stays within 32 bits and still begins with the bytes encoded. */
  lemma {:induction false} TailBytes(s: seq<Byte>)
    requires 1 <= |s| <= 3
    ensures TailValue(s) <= MAX_U32 && FourBytes(TailValue(s))[..|s|] == s
  {
    SmallPowers();
    TailRange(s);
    hide P85, FourBytes, TailValue;
    var e := TailValue(s) - TailChunk(s);
    if |s| == 1 {
      OneByte(s[0], e);
    } else if |s| == 2 {
      TwoBytes(s[0], s[1], e);
    } else {
      FourBytesOf(s[0], s[1], s[2], e);
    }
  }

  lemma EndOfGroup(v: nat, pad: nat)
    ensures ReadGroup("", 5, v, pad) == Group(v, pad, "")
  {
  }

  lemma PowerStep(k: nat, x: nat)
    requires 1 <= k < 4 && x <= P85(k)
    ensures x * 85 <= P85(k + 1) <= P85(4) && x * P85(5 - k) == (x * 85) * P85(4 - k)
  {
    SmallPowers();
    hide P85;
  }

  /** The places after the first missing one. */
  lemma {:induction false} EndScaled(k: nat, x: nat, pad: nat)
    requires 1 <= k <= 4 && x <= P85(k) && pad > 0
    ensures ReadGroup("", k, x, pad) ==
      if x * P85(5 - k) <= MAX_U32 then Group(x * P85(5 - k), pad + 5 - k, "") else BadGroup
    decreases 5 - k
  {
    SmallPowers();
    hide P85, ReadGroup;
    ReadMissing(k, x, pad);
    if k == 4 {
      EndOfGroup(x * 85, pad + 1);
    } else {
      PowerStep(k, x);
      EndScaled(k + 1, x * 85, pad + 1);
    }
  }

  /** One to four digits and then the end: scaled up, if that fits. */
  lemma EndRead(k: nat, v: nat)
    requires 1 <= k <= 4 && v < P85(k)
    ensures ReadGroup("", k, v, 0) ==
      if Scaled(v, 5 - k) <= MAX_U32 then Group(Scaled(v, 5 - k), 5 - k, "") else BadGroup
  {
    SmallPowers();
    hide P85, ReadGroup;
    ReadMissing(k, v, 0);
    if k == 4 {
      EndOfGroup((v + 1) * 85, 1);
    } else {
      PowerStep(k, v + 1);
      EndScaled(k + 1, (v + 1) * 85, 1);
    }
  }

  lemma {:induction false} EncodedGroup(s: seq<Byte>)
    requires |s| >= 4
    ensures Encoded(s) == GroupText(Chunk(s[0], s[1], s[2], s[3])) + Encoded(s[4..]) && Ascii(Encoded(s[4..]))
  {
  }

  lemma {:induction false} EncodedNothing(out: seq<Byte>)
    ensures Encoded([]) == "" && DecodeFrom("", out, 0) == Bytes(out)
  {
    assert out[..|out| - 0] == out;
  }

  lemma {:induction false} DecodeGroup(chunk: nat, rest: string, out: seq<Byte>)
    requires chunk <= MAX_U32 && Ascii(rest)
    ensures Ascii(GroupText(chunk) + rest)
    ensures DecodeFrom(GroupText(chunk) + rest, out, 0) == DecodeFrom(rest, out + FourBytes(chunk), 0)
  {
    var text := GroupText(chunk) + rest;
    if chunk == 0 {
      assert text[1..] == rest;
      assert FourBytes(chunk) == [0, 0, 0, 0];
    } else {
      SmallPowers();
      hide P85;
      ReadDigits(chunk, 5, rest, 0);
      assert text[0] == Digits(chunk, 5)[0];
    }
  }

  lemma {:induction false} EncodedTail(s: seq<Byte>)
    requires 1 <= |s| <= 3
    ensures Encoded(s) == Digits(Dropped(TailChunk(s), 4 - |s|), |s| + 1)
    ensures Encoded(s) != "" && Encoded(s)[0] != 'z'
  {
    LeadingDigits(TailChunk(s), 5, 4 - |s|);
  }

  lemma {:induction false} TailFits(s: seq<Byte>)
    requires 1 <= |s| <= 3
    ensures Dropped(TailChunk(s), 4 - |s|) < P85(|s| + 1) && Dropped(TailChunk(s), 4 - |s|) <= MAX_U32
  {
    SmallPowers();
    var d, m := Dropped(TailChunk(s), 4 - |s|), 4 - |s|;
    DroppedBounds(TailChunk(s), m);
    assert TailChunk(s) <= MAX_U32;
    hide P85, Dropped;
  }

  lemma {:induction false} TailRead(s: seq<Byte>)
    requires 1 <= |s| <= 3
    ensures ReadGroup(Encoded(s), 0, 0, 0) == Group(TailValue(s), 4 - |s|, "")
  {
    var k := |s| + 1;
    var v := Dropped(TailChunk(s), 4 - |s|);
    EncodedTail(s);
    TailFits(s);
    TailBytes(s);
    hide ReadGroup, Encoded, Digits, Dropped, P85, FourBytes, Scaled, TailChunk;
    ReadDigits(v, k, "", 0);
    assert Digits(v, k) + "" == Digits(v, k);
    EndRead(k, v);
  }

  lemma {:induction false} DecodeLast(text: string, out: seq<Byte>, v: nat, m: nat)
    requires Ascii(text) && text != "" && text[0] != 'z' && ReadGroup(text, 0, 0, 0) == Group(v, m, "") && m <= 4
    ensures DecodeFrom(text, out, 0) == Bytes((out + FourBytes(v))[..|out| + 4 - m])
  {
    hide ReadGroup, FourBytes;
  }

  lemma {:induction false} DecodeTail(s: seq<Byte>, out: seq<Byte>)
    requires 1 <= |s| <= 3
    ensures DecodeFrom(Encoded(s), out, 0) == Bytes(out + s)
  {
    hide ReadGroup, Encoded, Digits, FourBytes, Dropped, P85, TailValue, DecodeFrom;
    EncodedTail(s);
    TailRead(s);
    TailBytes(s);
    DecodeLast(Encoded(s), out, TailValue(s), 4 - |s|);
    assert (out + FourBytes(TailValue(s)))[..|out| + |s|] == out + FourBytes(TailValue(s))[..|s|];
  }

  /** Decode_Base85 gives back what Encode_Base85 was given, for every byte sequence. */
  lemma {:induction false} DecodeEncoded(s: seq<Byte>, out: seq<Byte>)
    ensures DecodeFrom(Encoded(s), out, 0) == Bytes(out + s)
    decreases |s|
  {
    hide Encoded, DecodeFrom, GroupText, FourBytes, Ascii;
    if |s| == 0 {
      EncodedNothing(out);
      assert s == [] && out + s == out;
    } else if |s| >= 4 {
      EncodedGroup(s);
      FourBytesOf(s[0], s[1], s[2], s[3]);
      DecodeGroup(Chunk(s[0], s[1], s[2], s[3]), Encoded(s[4..]), out);
      var four := [s[0], s[1], s[2], s[3]];
      DecodeEncoded(s[4..], out + four);
      assert out + s == out + four + s[4..];
    } else {
      DecodeTail(s, out);
    }
  }

  // ---- What is read ----

  lemma {:induction false} NumberPush(base: nat, w: seq<nat>, d: nat)
    ensures Number(base, w + [d]) == Number(base, w) * base + d
  {
    assert (w + [d])[..|w|] == w;
  }

  lemma {:induction false} NumberBound(w: seq<nat>)
    requires forall i :: 0 <= i < |w| ==> w[i] < 85
    ensures Number(85, w) < P85(|w|)
  {
    if |w| > 0 {
      NumberBound(w[..|w| - 1]);
    }
  }

  lemma {:induction false} SpacesOnly(t: string)
    requires Spaceless(t) == "" && t != ""
    ensures IsSpace(t[|t| - 1])
  {
    if |t| > 1 {
      SpacesOnly(t[1..]);
    }
  }

  predicate Debase85Is(c: char, d: int) {
    c as int < 128 && Debase85(c) == d
  }

  /** A text spelled by digits, from its first character on. */
  lemma {:induction false} SpelledHead(t: string, vals: seq<nat>)
    requires Spelled(t, vals)
    ensures t == "" ==> vals == []
    ensures t != "" && IsSpace(t[0]) ==> Spelled(t[1..], vals) && Debase85Is(t[0], BIN_SPACE)
    ensures t != "" && !IsSpace(t[0]) ==>
      vals != [] && vals[0] < 85 && Spelled(t[1..], vals[1..]) && Debase85Is(t[0], vals[0]) && t[0] != 'z'
  {
    if t != "" && !IsSpace(t[0]) {
      assert Spaceless(t)[0] == t[0] && Spaceless(t)[1..] == Spaceless(t[1..]);
      assert t[0] as int == 33 + vals[0];
    }
  }

  /** One digit read after those of w. */
  lemma {:induction false} DigitRead(w: seq<nat>, d: nat)
    requires |w| < 5 && d < 85 && forall i :: 0 <= i < |w| ==> w[i] < 85
    ensures var n := Number(85, w + [d]);
      AddDigit(|w|, Number(85, w), d) == if |w| == 4 && n > MAX_U32 then -1 else n
    ensures |w| < 4 ==> Number(85, w + [d]) <= MAX_U32
  {
    NumberPush(85, w, d);
    NumberBound(w);
    SmallPowers();
    assert P85(0) == 1;
    hide Number, P85;
  }

  ghost predicate Low(w: seq<nat>) {
    forall i :: 0 <= i < |w| ==> w[i] < 85
  }

  lemma LowMore(w: seq<nat>, d: nat, v: seq<nat>)
    requires Low(w) && d < 85
    ensures Low(w + [d]) && (w + [d]) + v == w + ([d] + v)
  {
  }

  /** What a group is after the digits v: still to be read from the rest, or complete, or too large. */
  ghost function After(v: seq<nat>, rest: string): Group
    requires |v| <= 5 && Ascii(rest)
  {
    if |v| < 5 then ReadGroup(rest, |v|, Number(85, v), 0)
    else if Number(85, v) > MAX_U32 then BadGroup
    else Group(Number(85, v), 0, rest)
  }

  lemma AllRead(rest: string, chunk: nat)
    requires Ascii(rest)
    ensures ReadGroup(rest, 5, chunk, 0) == Group(chunk, 0, rest)
  {
  }

  /** One character read in a group. */
  lemma {:induction false} ReadOne(a: char, text: string, c: nat, chunk: nat)
    requires Ascii(text) && a as int < 128 && c < 5
    ensures Ascii([a] + text)
    ensures var d := Debase85(a);
      ReadGroup([a] + text, c, chunk, 0) ==
        if d == BIN_SPACE then ReadGroup(text, c, chunk, 0)
        else if d > 127 || AddDigit(c, chunk, d) < 0 then BadGroup
        else ReadGroup(text, c + 1, AddDigit(c, chunk, d), 0)
  {
    assert ([a] + text)[1..] == text;
  }

  lemma {:induction false} LastDigit(t: string, more: seq<nat>)
    requires t != "" && Spelled(t[1..], more) && more == [] && !IsSpace(t[|t| - 1])
    ensures t[1..] == ""
  {
    if t[1..] != "" {
      SpacesOnly(t[1..]);
    }
  }

  /** Reading a text that spells digits is reading the digits; the fifth must be the last character. */
  lemma {:induction false} SpelledRead(t: string, vals: seq<nat>, rest: string, w: seq<nat>)
    requires Spelled(t, vals) && Ascii(rest) && Low(w) && |w| + |vals| <= 5 && |w| < 5
    requires t != "" && |w| + |vals| == 5 ==> !IsSpace(t[|t| - 1])
    ensures Ascii(t + rest) && Low(w + vals)
    ensures ReadGroup(t + rest, |w|, Number(85, w), 0) == After(w + vals, rest)
    decreases |t|
  {
    hide Number, Spelled, AddDigit, ReadGroup, Ascii, Debase85, IsSpace;
    SpelledHead(t, vals);
    if t == "" {
      assert t + rest == rest && w + vals == w;
    } else {
      var u := t[1..];
      assert t + rest == [t[0]] + (u + rest);
      if IsSpace(t[0]) {
        SpelledRead(u, vals, rest, w);
        ReadOne(t[0], u + rest, |w|, Number(85, w));
      } else {
        var d, more := vals[0], vals[1..];
        assert vals == [d] + more;
        DigitRead(w, d);
        LowMore(w, d, more);
        if |w| == 4 {
          assert w + vals == w + [d];
          LastDigit(t, more);
          assert u + rest == rest;
        } else {
          SpelledRead(u, more, rest, w + [d]);
        }
        ReadOne(t[0], u + rest, |w|, Number(85, w));
        AllRead(rest, Number(85, w + [d]));
      }
    }
  }

  lemma {:induction false} SpacelessPush(p: string, c: char)
    ensures Spaceless(p + [c]) == Spaceless(p) + if IsSpace(c) then "" else [c]
  {
    if p == "" {
      assert p + [c] == [c] && [c][1..] == "";
    } else {
      SpacelessPush(p[1..], c);
      assert (p + [c])[1..] == p[1..] + [c];
    }
  }

  lemma {:induction false} SpelledPush(p: string, w: seq<nat>, c: char)
    requires Spelled(p, w) && c as int < 128
    ensures IsSpace(c) ==> Spelled(p + [c], w)
    ensures 0 <= Debase85(c) < 85 && !IsSpace(c) ==> Spelled(p + [c], w + [Debase85(c)])
    ensures Debase85(c) == BIN_ERROR || IsSpace(c) || 0 <= Debase85(c) < 85
  {
    SpacelessPush(p, c);
  }

  /** A text cut after its fifth digit, or at its first wrong character, or not at all. */
  lemma {:induction false} SplitText(text: string, p: string, w: seq<nat>) returns (n: nat, vals: seq<nat>)
    requires Ascii(text) && Spelled(p, w) && |w| < 5
    ensures n <= |text| && |vals| <= 5 && Spelled(p + text[..n], vals)
    ensures |vals| == 5 ==> n > 0 && !IsSpace(text[n - 1])
    ensures |vals| < 5 ==> n == |text| || Debase85Is(text[n], BIN_ERROR)
    decreases |text|
  {
    hide Spelled, Debase85, IsSpace;
    n, vals := 0, w;
    assert p + text[..0] == p;
    if text != "" {
      var c := text[0];
      SpelledPush(p, w, c);
      if IsSpace(c) || Debase85(c) != BIN_ERROR {
        var v := if IsSpace(c) then w else w + [Debase85(c)];
        if |v| == 5 {
          assert text[..1] == [c];
          n, vals := 1, v;
        } else {
          n, vals := SplitText(text[1..], p + [c], v);
          assert p + [c] + text[1..][..n] == p + text[..n + 1];
          n := n + 1;
        }
      }
    }
  }

  // ---- Four bytes ----

  lemma {:induction false} NumberFour(s: seq<Byte>)
    requires |s| == 4
    ensures Number(256, s) == Chunk(s[0], s[1], s[2], s[3])
  {
    assert s[..3][..2] == s[..2] && s[..2][..1] == s[..1] && s[..1][..0] == [];
    assert Number(256, []) == 0;
    var a: int, b: int, c: int := s[0], s[1], s[2];
    assert Number(256, s[..1]) == a;
    assert Number(256, s[..2]) == a * 256 + b;
    assert Number(256, s[..3]) == (a * 256 + b) * 256 + c;
  }

  lemma SmallTop(r: nat, x: nat, y: nat, z: nat, v: nat)
    requires v == ((r * 0x100 + x) * 0x100 + y) * 0x100 + z <= MAX_U32
    ensures r % 0x100 == r && Chunk(r, x, y, z) == v
  {
  }

  lemma FourQuotients(v: nat)
    requires v <= MAX_U32
    ensures Chunk(v / 0x100_0000 % 0x100, v / 0x1_0000 % 0x100, v / 0x100 % 0x100, v % 0x100) == v
  {
    var p, z := v / 0x100, v % 0x100;
    var q, y := p / 0x100, p % 0x100;
    var r, x := q / 0x100, q % 0x100;
    DivModIs(v, 0x1_0000, q, y * 0x100 + z);
    DivModIs(v, 0x100_0000, r, x * 0x1_0000 + y * 0x100 + z);
    SmallTop(r, x, y, z, v);
  }

  lemma {:induction false} FourNumber(v: nat)
    requires v <= MAX_U32
    ensures Number(256, FourBytes(v)) == v
  {
    hide Number;
    NumberFour(FourBytes(v));
    FourQuotients(v);
  }

  lemma CutBetween(v: nat, unit: nat, lo: nat, m: nat, hi: nat)
    requires Cut(v, unit, m) && lo <= m < hi
    ensures lo * unit <= v < hi * unit
  {
    MulMono(unit, lo, m);
    MulMono(unit, m + 1, hi);
  }

  lemma CutMore(v: nat, unit: nat, n: nat, base: nat, d: nat)
    requires Cut(v, unit, n * base + d) && d < base
    ensures Cut(v, base * unit, n)
  {
    var lo, hi := n * base, (n + 1) * base;
    assert hi == lo + base;
    MulAssoc(n, base, unit);
    MulAssoc(n + 1, base, unit);
    CutBetween(v, unit, lo, lo + d, hi);
  }

  /** The leading bytes are the number with its last places cut off. */
  lemma {:induction false} LeadingCut(s: seq<Byte>, j: nat)
    requires j <= |s|
    ensures Cut(Number(256, s), Power(256, |s| - j), Number(256, s[..j]))
    decreases |s| - j
  {
    if j == |s| {
      assert s[..j] == s && Power(256, 0) == 1;
    } else {
      LeadingCut(s, j + 1);
      assert s[..j + 1] == s[..j] + [s[j]];
      NumberPush(256, s[..j], s[j]);
      CutMore(Number(256, s), Power(256, |s| - j - 1), Number(256, s[..j]), 256, s[j]);
    }
  }

  lemma CutOnce(v: nat, unit: nat, n: nat, m: nat)
    requires Cut(v, unit, n) && Cut(v, unit, m)
    ensures n == m
  {
    MulCancelLess(unit, n, m + 1);
    MulCancelLess(unit, m, n + 1);
  }

  lemma {:induction false} FourBelow(s: seq<Byte>)
    requires |s| == 4
    ensures Number(256, s) <= MAX_U32 && FourBytes(Number(256, s)) == s
  {
    hide Number, FourBytes, Chunk;
    NumberFour(s);
    FourBytesOf(s[0], s[1], s[2], s[3]);
  }

  // ---- The end of the text ----

  lemma {:induction false} PowerIs(n: nat)
    ensures P85(n) == Power(85, n)
  {
    if n > 0 {
      PowerIs(n - 1);
    }
  }

  lemma {:induction false} AboveIs(vals: seq<nat>)
    requires 1 <= |vals| <= 4 && Low(vals)
    ensures Scaled(Number(85, vals), 5 - |vals|) == Above(vals) && Number(85, vals) < P85(|vals|)
  {
    NumberBound(vals);
    PowerIs(5 - |vals|);
  }

  lemma EmptyAscii()
    ensures Ascii("") && Low([])
  {
  }

  /** The tail of a text as its digits. */
  lemma {:induction false} TailSpelled(text: string, vals: seq<nat>)
    requires Ascii(text) && Spelled(text, vals) && 1 <= |vals| <= 4
    ensures ReadGroup(text, 0, 0, 0) ==
      if Above(vals) <= MAX_U32 then Group(Above(vals), 5 - |vals|, "") else BadGroup
  {
    hide ReadGroup, Spelled, P85, Scaled, Above, Ascii;
    EmptyAscii();
    SpelledRead(text, vals, "", []);
    assert text + "" == text && [] + vals == vals && Number(85, []) == 0;
    hide Number;
    AboveIs(vals);
    EndRead(|vals|, Number(85, vals));
  }

  // ---- Decoding is reading ----

  lemma DecodeUnfold(text: string, out: seq<Byte>)
    requires Ascii(text) && text != ""
    ensures text[0] == 'z' ==> DecodeFrom(text, out, 0) == DecodeFrom(text[1..], out + [0, 0, 0, 0], 0)
    ensures var g := ReadGroup(text, 0, 0, 0);
      && (text[0] != 'z' && g == BadGroup ==> DecodeFrom(text, out, 0) == Invalid)
      && (text[0] != 'z' && g.Group? && g.pad == 0 ==>
            DecodeFrom(text, out, 0) == DecodeFrom(g.rest, out + FourBytes(g.chunk), 0))
      && (text[0] != 'z' && g.Group? && 0 < g.pad <= 4 ==>
            DecodeFrom(text, out, 0) == Bytes(out + FourBytes(g.chunk)[..4 - g.pad]))
  {
    FourMissing(text);
    var g := ReadGroup(text, 0, 0, 0);
    hide ReadGroup, FourBytes;
    if g.Group? && g.pad > 0 {
      var x := out + FourBytes(g.chunk);
      assert x[..|x| - g.pad] == out + FourBytes(g.chunk)[..4 - g.pad];
    }
  }

  /** What comes out is out, four bytes, and more. */
  lemma {:induction false} FourFirst(x: seq<Byte>, out: seq<Byte>, four: seq<Byte>)
    requires |four| == 4 && |out| + 4 <= |x| && x[..|out| + 4] == out + four
    ensures x[..|out|] == out && x[|out|..][..4] == four && x[|out|..][4..] == x[|out| + 4..]
  {
    assert x[..|out| + 4][..|out|] == out && x[..|out| + 4][|out|..] == four;
  }

  lemma {:induction false} TailSound(text: string, vals: seq<nat>, b: seq<Byte>)
    requires Spelled(text, vals) && 1 <= |vals| <= 4 && Above(vals) <= MAX_U32
    requires b == FourBytes(Above(vals))[..|vals| - 1]
    ensures IsTail(text, b)
  {
    hide Spelled, Above, FourBytes, Number, Power, Cut;
    FourNumber(Above(vals));
    LeadingCut(FourBytes(Above(vals)), |vals| - 1);
  }

  /** A group in front of a text, if there is one, is what the loop reads. */
  lemma {:induction false} GroupRead(text: string, n: nat, vals: seq<nat>)
    requires Ascii(text) && 0 < n <= |text| && Spelled(text[..n], vals) && |vals| == 5 && !IsSpace(text[n - 1])
    ensures text[0] != 'z' && ReadGroup(text, 0, 0, 0) ==
      if Number(85, vals) > MAX_U32 then BadGroup else Group(Number(85, vals), 0, text[n..])
  {
    EmptyAscii();
    SpelledHead(text[..n], vals);
    hide ReadGroup, Spelled, IsSpace;
    assert text == text[..n] + text[n..];
    SpelledRead(text[..n], vals, text[n..], []);
    assert [] + vals == vals && Number(85, []) == 0;
  }

  lemma {:induction false} GroupSound(t: string, vals: seq<nat>)
    requires Spelled(t, vals) && |vals| == 5 && |t| > 0 && !IsSpace(t[|t| - 1]) && Number(85, vals) <= MAX_U32
    ensures IsGroup(t, FourBytes(Number(85, vals)))
  {
    hide Spelled, IsSpace, Number, FourBytes;
    FourNumber(Number(85, vals));
  }

  /** Where the text goes wrong before a fifth digit, or is out of digits at once, nothing is read. */
  lemma {:induction false} WrongRead(text: string, n: nat, vals: seq<nat>)
    requires Ascii(text) && n <= |text| && |vals| < 5 && Spelled(text[..n], vals)
    requires if n < |text| then Debase85Is(text[n], BIN_ERROR) else vals == []
    ensures ReadGroup(text, 0, 0, 0) == BadGroup
  {
    EmptyAscii();
    assert Number(85, []) == 0 && [] + vals == vals;
    hide Spelled, Number;
    assert text == text[..n] + text[n..];
    SpelledRead(text[..n], vals, text[n..], []);
    if n == |text| {
      FiveMissing();
    }
  }

  lemma AsciiRest(text: string, n: nat)
    requires Ascii(text) && n <= |text|
    ensures Ascii(text[n..])
  {
  }

  lemma NothingSpelled()
    ensures Spelled("", [])
  {
  }

  /** What decoding yields is read in the text. */
  lemma {:induction false} DecodeSound(text: string, out: seq<Byte>)
    requires Ascii(text) && DecodeFrom(text, out, 0).Bytes?
    ensures var x := DecodeFrom(text, out, 0).bytes; |out| <= |x| && x[..|out|] == out && Reads(text, x[|out|..])
    decreases |text|
  {
    if text == "" {
      assert out[..|out| - 0] == out;
    } else {
      DecodeUnfold(text, out);
      hide DecodeFrom, ReadGroup, FourBytes, IsTail, IsGroup, Spelled, Debase85Is, IsSpace, Above, Number, Ascii;
      var x := DecodeFrom(text, out, 0).bytes;
      if text[0] == 'z' {
        AsciiRest(text, 1);
        DecodeSound(text[1..], out + [0, 0, 0, 0]);
        FourFirst(x, out, [0, 0, 0, 0]);
      } else {
        DecodeGroupSound(text, out);
      }
    }
  }

  lemma {:induction false} DecodeGroupSound(text: string, out: seq<Byte>)
    requires Ascii(text) && DecodeFrom(text, out, 0).Bytes? && text != "" && text[0] != 'z'
    ensures var x := DecodeFrom(text, out, 0).bytes; |out| <= |x| && x[..|out|] == out && Reads(text, x[|out|..])
    decreases |text|, 0
  {
    DecodeUnfold(text, out);
    NothingSpelled();
    hide DecodeFrom, ReadGroup, FourBytes, IsTail, IsGroup, Spelled, Debase85Is, IsSpace, Above, Number, Ascii;
    var x := DecodeFrom(text, out, 0).bytes;
    var n, vals := SplitText(text, "", []);
    assert "" + text[..n] == text[..n] && text[..|text|] == text;
    if |vals| == 5 {
      GroupRead(text, n, vals);
      var four := FourBytes(Number(85, vals));
      GroupSound(text[..n], vals);
      AsciiRest(text, n);
      DecodeSound(text[n..], out + four);
      FourFirst(x, out, four);
    } else if n < |text| || vals == [] {
      WrongRead(text, n, vals);
      assert false;
    } else {
      TailSpelled(text, vals);
      var b := FourBytes(Above(vals))[..|vals| - 1];
      TailSound(text, vals, b);
      assert x == out + b;
    }
  }

  lemma {:induction false} GroupComplete(text: string, n: nat, four: seq<Byte>)
    requires Ascii(text) && 0 < n <= |text| && IsGroup(text[..n], four)
    ensures text[0] != 'z' && |four| == 4
    ensures exists v :: ReadGroup(text, 0, 0, 0) == Group(v, 0, text[n..]) && FourBytes(v) == four
  {
    hide Spelled, IsSpace, ReadGroup, FourBytes, Number, Ascii;
    var vals :| |vals| == 5 && Spelled(text[..n], vals) && Number(85, vals) == Number(256, four);
    assert text[..n][n - 1] == text[n - 1];
    GroupRead(text, n, vals);
    FourBelow(four);
  }

  lemma {:induction false} NotZ(text: string, vals: seq<nat>)
    requires Spelled(text, vals) && vals != []
    ensures text != "" && text[0] != 'z'
  {
    SpelledHead(text, vals);
  }

  lemma {:induction false} TailComplete(text: string, b: seq<Byte>)
    requires Ascii(text) && IsTail(text, b)
    ensures text != "" && text[0] != 'z'
    ensures exists v, pad ::
      0 < pad <= 4 && ReadGroup(text, 0, 0, 0) == Group(v, pad, "") && FourBytes(v)[..4 - pad] == b
  {
    var vals :| 1 <= |vals| <= 4 && Spelled(text, vals) && Above(vals) <= MAX_U32 &&
      |b| == |vals| - 1 && Cut(Above(vals), Power(256, 5 - |vals|), Number(256, b));
    NotZ(text, vals);
    hide Spelled, ReadGroup, FourBytes, Number, Ascii, Above, Cut, Power;
    TailSpelled(text, vals);
    var v, j := Above(vals), |vals| - 1;
    FourNumber(v);
    LeadingCut(FourBytes(v), j);
    CutOnce(v, Power(256, 5 - |vals|), Number(256, b), Number(256, FourBytes(v)[..j]));
    NumberOnce(256, FourBytes(v)[..j], b);
    assert ReadGroup(text, 0, 0, 0) == Group(v, 5 - |vals|, "");
  }

  /** What is read in the text is what decoding yields. */
  lemma {:induction false} DecodeComplete(text: string, b: seq<Byte>, out: seq<Byte>)
    requires Ascii(text) && Reads(text, b)
    ensures DecodeFrom(text, out, 0) == Bytes(out + b)
    decreases |text|
  {
    hide DecodeFrom, ReadGroup, FourBytes, IsTail, IsGroup, Ascii;
    if text == "" && b == [] {
      EncodedNothing(out);
      assert out + b == out;
    } else if IsTail(text, b) {
      TailComplete(text, b);
      DecodeUnfold(text, out);
    } else if text[0] == 'z' && |b| >= 4 && b[..4] == [0, 0, 0, 0] && Reads(text[1..], b[4..]) {
      AsciiRest(text, 1);
      DecodeUnfold(text, out);
      DecodeComplete(text[1..], b[4..], out + [0, 0, 0, 0]);
      assert out + [0, 0, 0, 0] + b[4..] == out + b;
    } else {
      var n :| 0 < n <= |text| && IsGroup(text[..n], b[..4]) && Reads(text[n..], b[4..]);
      GroupComplete(text, n, b[..4]);
      AsciiRest(text, n);
      DecodeUnfold(text, out);
      DecodeComplete(text[n..], b[4..], out + b[..4]);
      assert out + b[..4] + b[4..] == out + b;
    }
  }

  /** The decoder's result is the reading of the text; there is none exactly when the text is refused. */
  lemma {:induction false} DecodeReads(text: string)
    requires Ascii(text)
    ensures forall b :: Reads(text, b) <==> DecodeFrom(text, [], 0) == Bytes(b)
  {
    hide DecodeFrom, Reads, Ascii;
    forall b | Reads(text, b)
      ensures DecodeFrom(text, [], 0) == Bytes(b)
    {
      DecodeComplete(text, b, []);
      assert [] + b == b;
    }
    if DecodeFrom(text, [], 0).Bytes? {
      DecodeSound(text, []);
      var x := DecodeFrom(text, [], 0).bytes;
      assert x[0..] == x;
    }
  }

  // ---- What is written ----

  lemma {:induction false} DigitsSpell(v: nat, n: nat) returns (vals: seq<nat>)
    requires v < P85(n)
    ensures Spells(Digits(v, n), vals) && Number(85, vals) == v
  {
    if n == 0 {
      vals := [];
    } else {
      vals := DigitsSpell(v / 85, n - 1);
      NumberPush(85, vals, v % 85);
      vals := vals + [v % 85];
    }
  }

  lemma {:induction false} TailNumber(s: seq<Byte>)
    requires 1 <= |s| <= 3
    ensures TailChunk(s) == Number(256, s) * Power(256, 4 - |s|)
  {
    var a: int, b: int, c: int := s[0], if |s| > 1 then s[1] else 0, if |s| > 2 then s[2] else 0;
    assert Number(256, s[..0]) == 0 && Power(256, 1) == 256 && Power(256, 2) == 0x1_0000;
    assert Power(256, 3) == 256 * Power(256, 2);
    assert s[..1][..0] == s[..0] && Number(256, s[..1]) == a;
    if |s| == 1 {
      assert s[..1] == s;
    } else {
      assert s[..2][..1] == s[..1] && Number(256, s[..2]) == a * 256 + b;
      assert |s| == 2 ==> s[..2] == s;
      if |s| == 3 {
        assert s[..3][..2] == s[..2] && s[..3] == s && Number(256, s) == (a * 256 + b) * 256 + c;
      }
    }
  }

  lemma SpellsLength(t: string, vals: seq<nat>)
    requires Spells(t, vals)
    ensures |t| == |vals|
  {
  }

  lemma {:induction false} TailWritten(s: seq<Byte>)
    requires 1 <= |s| <= 3
    ensures WritesTail(s, Encoded(s))
  {
    EncodedTail(s);
    TailFits(s);
    TailNumber(s);
    var m := 4 - |s|;
    DroppedBounds(TailChunk(s), m);
    PowerIs(m);
    var vals := DigitsSpell(Dropped(TailChunk(s), m), |s| + 1);
    SpellsLength(Encoded(s), vals);
    hide Encoded, Digits, Dropped, P85, TailChunk, Power, Number, Spells;
    assert Cut(TailChunk(s), Power(85, m), Number(85, vals));
  }

  lemma {:induction false} GroupSpelled(chunk: nat) returns (vals: seq<nat>)
    requires 0 < chunk <= MAX_U32
    ensures |vals| == 5 && Spells(GroupText(chunk), vals) && Number(85, vals) == chunk
  {
    SmallPowers();
    hide P85, Digits, Number;
    vals := DigitsSpell(chunk, 5);
  }

  lemma ZeroChunk(a: Byte, b: Byte, c: Byte, d: Byte)
    ensures Chunk(a, b, c, d) == 0 <==> a == b == c == d == 0
  {
  }

  lemma {:induction false} AllZero(four: seq<Byte>)
    requires |four| == 4 && four[0] == four[1] == four[2] == four[3] == 0
    ensures four == [0, 0, 0, 0]
  {
  }

  lemma {:induction false} ZeroFour(four: seq<Byte>)
    requires |four| == 4 && Chunk(four[0], four[1], four[2], four[3]) == 0
    ensures WritesFour(four, "z")
  {
    ZeroChunk(four[0], four[1], four[2], four[3]);
    hide Chunk, Spells, Number;
    AllZero(four);
  }

  lemma {:induction false} NonzeroFour(four: seq<Byte>)
    requires |four| == 4 && Chunk(four[0], four[1], four[2], four[3]) != 0
    ensures four != [0, 0, 0, 0]
  {
  }

  lemma {:induction false} GroupWritten(four: seq<Byte>, chunk: nat)
    requires |four| == 4 && chunk == Chunk(four[0], four[1], four[2], four[3]) <= MAX_U32
    ensures WritesFour(four, GroupText(chunk))
  {
    NumberFour(four);
    if chunk == 0 {
      ZeroFour(four);
    } else {
      NonzeroFour(four);
      hide Chunk, Number, Spells, GroupText;
      var vals := GroupSpelled(chunk);
    }
  }

  /** The encoding is the one way the bytes are written. */
  lemma {:induction false} EncodedWritten(s: seq<Byte>)
    ensures Written(s, Encoded(s))
    decreases |s|
  {
    hide GroupText, Chunk, WritesFour, WritesTail;
    if |s| >= 4 {
      EncodedGroup(s);
      var chunk, rest := Chunk(s[0], s[1], s[2], s[3]), Encoded(s[4..]);
      FourBytesOf(s[0], s[1], s[2], s[3]);
      EncodedWritten(s[4..]);
      GroupWritten(s[..4], chunk);
      hide Encoded;
      var n := |GroupText(chunk)|;
      assert Encoded(s)[..n] == GroupText(chunk) && Encoded(s)[n..] == rest;
    } else if |s| > 0 {
      TailWritten(s);
    } else {
      assert s == [];
    }
  }

  // ---- The two loops ----

  /** The inner loop of Encode_Base85: five digits from the right. */
  method WriteDigits(v: nat) returns (s: string)
    ensures s == Digits(v, 5)
  {
    var chunk, i := v, DIGITS;
    s := "";
    while i > 0
      invariant 0 <= i <= 5 && Digits(v, 5) == Digits(chunk, i) + s
    {
      i := i - 1;
      s := [Enbase85(chunk % 85)] + s;
      chunk := chunk / 85;
    }
  }

  lemma {:induction false} EncodedStep(src: seq<Byte>, x: nat)
    requires x + 4 <= |src|
    ensures Chunk(src[x], src[x + 1], src[x + 2], src[x + 3]) >= 0
    ensures Encoded(src[x..]) == GroupText(Chunk(src[x], src[x + 1], src[x + 2], src[x + 3])) + Encoded(src[x + 4..])
  {
    hide Digits, Chunk;
    FourBytesOf(src[x], src[x + 1], src[x + 2], src[x + 3]);
    assert src[x..][4..] == src[x + 4..];
  }

  /** The loop of Encode_Base85 over whole groups. */
  method EncodeGroups(src: seq<Byte>) returns (text: string, x: nat)
    requires |src| >= 4
    ensures x + |src| % 4 == |src| && Encoded(src) == text + Encoded(src[x..])
  {
    hide Digits, Encoded, Chunk;
    var loop := |src| / 4 - 1;
    assert 4 * loop + 4 + |src| % 4 == |src|;
    text, x := "", 0;
    assert src[0..] == src;
    ghost var g: nat := 0;
    while x <= 4 * loop
      invariant x == 4 * g && g <= loop + 1
      invariant Encoded(src) == text + Encoded(src[x..])
      decreases 4 * loop - x
    {
      EncodedStep(src, x);
      var chunk := Chunk(src[x], src[x + 1], src[x + 2], src[x + 3]);
      if chunk == 0 {
        text := text + "z";
      } else {
        var digits := WriteDigits(chunk);
        text := text + digits;
      }
      x := x + 4;
      g := g + 1;
    }
  }

  lemma {:induction false} LastTail(s: seq<Byte>, a: Byte, b: Byte, c: Byte)
    requires 1 <= |s| <= 3 && a == s[0] && b == (if |s| > 1 then s[1] else 0) && c == if |s| > 2 then s[2] else 0
    ensures Chunk(a, b, c, 0) >= 0 && Encoded(s) == Digits(Chunk(a, b, c, 0), 5)[..|s| + 1]
  {
    hide Digits;
  }

  lemma NothingLeft()
    ensures Encoded([]) == ""
  {
  }

  /** The end of Encode_Base85: one to three bytes, filled up with zeros, of whose digits one more is kept. */
  method EncodeTail(s: seq<Byte>) returns (text: string)
    requires 1 <= |s| <= 3
    ensures text == Encoded(s)
  {
    hide Digits, Encoded, Chunk, FourBytes;
    var a: Byte := s[0];
    var b: Byte := if |s| > 1 then s[1] else 0;
    var c: Byte := if |s| > 2 then s[2] else 0;
    FourBytesOf(a, b, c, 0);
    var digits := WriteDigits(Chunk(a, b, c, 0));
    LastTail(s, a, b, c);
    text := digits[..|s| + 1];
  }

  /** Encode_Base85. */
  method EncodeBase85(src: seq<Byte>) returns (text: string)
    ensures text == Encoded(src)
    ensures Written(src, text)
    ensures DecodeFrom(text, [], 0) == Bytes(src)
  {
    hide Digits, DecodeFrom, Encoded, Chunk, FourBytes, Written;
    EncodedWritten(src);
    var len, x := |src|, 0;
    text := "";
    assert src[0..] == src;
    if len >= 4 {
      text, x := EncodeGroups(src);
    }
    if len % 4 != 0 {
      var last := EncodeTail(src[x..]);
      text := text + last;
    } else {
      assert src[x..] == [];
      NothingLeft();
    }
    DecodeEncoded(src, []);
    assert [] + src == src;
  }

  /** The inner loop of Decode_Base85. */
  method ReadFive(text: string, start: nat, pad0: nat) returns (ok: bool, chunk: nat, i: nat, pad: nat)
    requires Ascii(text) && start < |text|
    ensures ok <==> ReadGroup(text[start..], 0, 0, pad0) != BadGroup
    ensures ok ==> start < i <= |text| && ReadGroup(text[start..], 0, 0, pad0) == Group(chunk, pad, text[i..])
  {
    ghost var goal := ReadGroup(text[start..], 0, 0, pad0);
    ok, chunk, i, pad := true, 0, start, pad0;
    var c: nat := 0;
    while c < 5
      invariant c <= 5 && start <= i <= |text| && (c > 0 ==> i > start)
      invariant ReadGroup(text[i..], c, chunk, pad) == goal
      decreases 5 - c, |text| - i
    {
      if i < |text| {
        var d := Debase85(text[i]);
        assert text[i..][0] == text[i] && text[i..][1..] == text[i + 1..];
        i := i + 1;
        if d == BIN_SPACE {
          continue;
        }
        if d > 127 || AddDigit(c, chunk, d) < 0 {
          return false, chunk, i, pad;
        }
        chunk := AddDigit(c, chunk, d);
      } else {
        var more := if pad == 0 then chunk + 1 else chunk;
        pad := pad + 1;
        if AddDigit(c, more, 0) < 0 {
          return false, chunk, i, pad;
        }
        chunk := AddDigit(c, more, 0);
      }
      c := c + 1;
    }
  }

  /** Decode_Base85 on ASCII text. */
  method DecodeBase85(text: string) returns (r: Decoded)
    requires Ascii(text)
    ensures r == DecodeFrom(text, [], 0)
    ensures forall bytes :: Reads(text, bytes) <==> r == Bytes(bytes)
  {
    hide ReadGroup, FourBytes, Reads;
    DecodeReads(text);
    var i: nat, pad: nat := 0, 0;
    var out: seq<Byte> := [];
    assert text[0..] == text;
    while i < |text|
      invariant 0 <= i <= |text| && pad <= |out| && (i == |text| || pad == 0)
      invariant DecodeFrom(text[i..], out, pad) == DecodeFrom(text, [], 0)
      decreases |text| - i
    {
      if text[i] == 'z' {
        assert text[i..][1..] == text[i + 1..];
        i := i + 1;
        out := out + [0, 0, 0, 0];
        continue;
      }
      FourMissing(text[i..]);
      var ok, chunk, j, more := ReadFive(text, i, pad);
      if !ok {
        return Invalid;
      }
      out := out + FourBytes(chunk);
      i := j;
      pad := more;
    }
    assert text[i..] == "";
    r := Bytes(out[..|out| - pad]);
  }

  /** Encoding and then decoding gives back the bytes. */
  method RoundTrip(src: seq<Byte>) returns (text: string, r: Decoded)
    ensures text == Encoded(src) && r == Bytes(src)
  {
    text := EncodeBase85(src);
    r := DecodeBase85(text);
  }
}
