/** Base64 as the browser's `atob` decodes it: the "forgiving-base64 decode"
    of the WHATWG Infra standard over the alphabet of RFC 4648, section 4.
    Four characters carry three bytes; a trailing group of two or three
    characters carries one or two bytes.  The encoder is the partner against
    which decoding is proved. */
module Base64 {
  import opened Common

  predicate IsBase64Char(c: char)
  {
    ('A' <= c <= 'Z') || ('a' <= c <= 'z') || ('0' <= c <= '9') || c == '+' || c == '/'
  }

  predicate AllBase64(s: string)
  {
    forall i {:trigger IsBase64Char(s[i])} :: 0 <= i < |s| ==> IsBase64Char(s[i])
  }

  /** The six-bit value of an alphabet character (RFC 4648, Table 1).  The
      decoder rejects any other character before it looks up values, so the
      last branch is only ever reached by '/'. */
  function SextetOf(c: char): (v: nat)
    ensures v < 64
  {
    if 'A' <= c <= 'Z' then c as int - 'A' as int
    else if 'a' <= c <= 'z' then c as int - 'a' as int + 26
    else if '0' <= c <= '9' then c as int - '0' as int + 52
    else if c == '+' then 62
    else 63
  }

  /** The alphabet character of a six-bit value; the inverse of `SextetOf`. */
  function CharOf(v: nat): (c: char)
    requires v < 64
    ensures IsBase64Char(c) && SextetOf(c) == v
  {
    if v < 26 then ('A' as int + v) as char
    else if v < 52 then ('a' as int + v - 26) as char
    else if v < 62 then ('0' as int + v - 52) as char
    else if v == 62 then '+'
    else '/'
  }

  lemma CharOfSextet(c: char)
    requires IsBase64Char(c)
    ensures CharOf(SextetOf(c)) == c
  {
  }

  /** Step 2 of forgiving-base64 decode: when the length is a multiple of 4,
      one or two trailing `=` are removed. */
  function StripPadding(s: string): string
  {
    if |s| % 4 == 0 && |s| >= 2 && s[|s| - 2] == '=' && s[|s| - 1] == '=' then s[..|s| - 2]
    else if |s| % 4 == 0 && |s| >= 1 && s[|s| - 1] == '=' then s[..|s| - 1]
    else s
  }

  function Byte0(a: char, b: char): byte
  {
    SextetOf(a) * 4 + SextetOf(b) / 16
  }

  function Byte1(b: char, c: char): byte
  {
    (SextetOf(b) % 16) * 16 + SextetOf(c) / 4
  }

  function Byte2(c: char, d: char): byte
  {
    (SextetOf(c) % 4) * 64 + SextetOf(d)
  }

  /** The bit-buffer loop of forgiving-base64 decode over padding-free input:
      each full group of four characters gives three bytes; a final group of
      two (three) characters gives one (two) bytes, the spare bits dropped.
      A final lone character, which `ForgivingDecode` rejects beforehand,
      gives nothing. */
  function DecodeQuads(d: string): seq<byte>
    decreases |d|, 1
  {
    if |d| < 2 then [] else DecodeGroup(d)
  }

  /** The bytes of the first group of `d`, then those of the groups after it. */
  function DecodeGroup(d: string): seq<byte>
    requires |d| >= 2
    decreases |d|, 0
  {
    if |d| == 2 then [Byte0(d[0], d[1])]
    else if |d| == 3 then [Byte0(d[0], d[1]), Byte1(d[1], d[2])]
    else [Byte0(d[0], d[1]), Byte1(d[1], d[2]), Byte2(d[2], d[3])] + DecodeQuads(d[4..])
  }

  /** Three bytes per full group, and one fewer than the characters of a short
      final group. */
  lemma {:induction false} DecodeQuadsLength(d: string)
    requires |d| % 4 != 1
    ensures |DecodeQuads(d)| == 3 * (|d| / 4) + (if |d| % 4 == 0 then 0 else |d| % 4 - 1)
    decreases |d|
  {
    if |d| >= 4 {
      DecodeQuadsLength(d[4..]);
    }
  }

  /** Forgiving-base64 decode: `None` where `atob` throws `InvalidCharacterError`
      (a length of 1 modulo 4 once padding is removed, or a character outside
      the alphabet, a misplaced `=` included). */
  function ForgivingDecode(s: string): Option<seq<byte>>
  {
    var d := StripPadding(s);
    if |d| % 4 == 1 || !AllBase64(d) then None else Some(DecodeQuads(d))
  }

  /** The bytes as a "binary string": one character per byte, its code the byte. */
  function Latin1(bytes: seq<byte>): string
  {
    seq(|bytes|, i requires 0 <= i < |bytes| => bytes[i] as char)
  }

  /** `atob`: the decoded bytes as a binary string. */
  function Atob(s: string): (r: Option<string>)
    ensures r.None? <==> ForgivingDecode(s).None?
    ensures r.Some? ==> |r.value| == |ForgivingDecode(s).value|
    ensures r.Some? ==> forall i :: 0 <= i < |r.value| ==> r.value[i] as int == ForgivingDecode(s).value[i]
  {
    match ForgivingDecode(s)
    case None => None
    case Some(bytes) => Some(Latin1(bytes))
  }

  // ---------------------------------------------------------------------------
  // The encoder (RFC 4648, section 4), the partner of the decoder

  function EncodeUnpadded(b: seq<byte>): (s: string)
    ensures AllBase64(s)
    decreases |b|
  {
    if |b| == 0 then ""
    else if |b| == 1 then [CharOf(b[0] / 4), CharOf((b[0] % 4) * 16)]
    else if |b| == 2 then
      [CharOf(b[0] / 4), CharOf((b[0] % 4) * 16 + b[1] / 16), CharOf((b[1] % 16) * 4)]
    else Group(b[0], b[1], b[2]) + EncodeUnpadded(b[3..])
  }

  /** The length of the unpadded encoding of `n` bytes: four characters per
      three bytes, and one more character than bytes in a short final group. */
  function UnpaddedLength(n: nat): (m: nat)
    ensures m % 4 != 1
  {
    4 * (n / 3) + (if n % 3 == 0 then 0 else n % 3 + 1)
  }

  lemma {:induction false} EncodeUnpaddedLength(b: seq<byte>)
    ensures |EncodeUnpadded(b)| == UnpaddedLength(|b|)
    decreases |b|
  {
    if |b| >= 3 {
      EncodeUnpaddedLength(b[3..]);
      UnpaddedLengthStep(|b|);
    }
  }

  lemma UnpaddedLengthStep(n: nat)
    requires n >= 3
    ensures UnpaddedLength(n) == 4 + UnpaddedLength(n - 3)
  {
    assert (n - 3) / 3 == n / 3 - 1 && (n - 3) % 3 == n % 3;
  }

  function Padding(n: nat): string
  {
    if n % 3 == 1 then "==" else if n % 3 == 2 then "=" else ""
  }

  /** Standard padded base64 of `b`. */
  function Encode(b: seq<byte>): string
  {
    EncodeUnpadded(b) + Padding(|b|)
  }

  /** Four characters for every started group of three bytes. */
  lemma EncodeLength(b: seq<byte>)
    ensures |Encode(b)| == 4 * ((|b| + 2) / 3)
    ensures |Encode(b)| % 4 == 0
  {
    EncodeUnpaddedLength(b);
    PaddedLength(|b|);
    FourTimes((|b| + 2) / 3);
  }

  lemma PaddedLength(n: nat)
    ensures UnpaddedLength(n) + |Padding(n)| == 4 * ((n + 2) / 3)
  {
  }

  lemma {:induction false} FourTimes(k: nat)
    ensures (4 * k) % 4 == 0
  {
    if k > 0 {
      FourTimes(k - 1);
      assert 4 * k == 4 * (k - 1) + 4;
    }
  }

  /** Three bytes as four characters. */
  function Group(b0: byte, b1: byte, b2: byte): string
  {
    [CharOf(b0 / 4), CharOf((b0 % 4) * 16 + b1 / 16), CharOf((b1 % 16) * 4 + b2 / 64), CharOf(b2 % 64)]
  }

  /** One byte in two characters: the first sextet holds its top six bits,
      the second its bottom two. */
  lemma ByteZeroRoundTrip(b0: byte, low: nat)
    requires low < 16
    ensures Byte0(CharOf(b0 / 4), CharOf((b0 % 4) * 16 + low)) == b0
  {
    var hi, lo := b0 / 4, b0 % 4;
    assert ((lo * 16 + low) / 16) == lo;
  }

  lemma ByteOneRoundTrip(b0: byte, b1: byte, low: nat)
    requires low < 4
    ensures Byte1(CharOf((b0 % 4) * 16 + b1 / 16), CharOf((b1 % 16) * 4 + low)) == b1
  {
    var x := (b0 % 4) * 16 + b1 / 16;
    assert x % 16 == b1 / 16;
    assert ((b1 % 16) * 4 + low) / 4 == b1 % 16;
  }

  lemma ByteTwoRoundTrip(b1: byte, b2: byte)
    ensures Byte2(CharOf((b1 % 16) * 4 + b2 / 64), CharOf(b2 % 64)) == b2
  {
    var x := (b1 % 16) * 4 + b2 / 64;
    assert x % 4 == b2 / 64;
  }

  lemma GroupRoundTrip(b0: byte, b1: byte, b2: byte)
    ensures var g := Group(b0, b1, b2);
      |g| == 4 && AllBase64(g) &&
      Byte0(g[0], g[1]) == b0 && Byte1(g[1], g[2]) == b1 && Byte2(g[2], g[3]) == b2
  {
    GroupAlphabet(b0, b1, b2);
    GroupByteZero(b0, b1, b2);
    GroupByteOne(b0, b1, b2);
    GroupByteTwo(b0, b1, b2);
  }

  lemma GroupAlphabet(b0: byte, b1: byte, b2: byte)
    ensures |Group(b0, b1, b2)| == 4 && AllBase64(Group(b0, b1, b2))
  {
    var g := Group(b0, b1, b2);
    assert IsBase64Char(g[0]) && IsBase64Char(g[1]) && IsBase64Char(g[2]) && IsBase64Char(g[3]);
  }

  lemma GroupByteZero(b0: byte, b1: byte, b2: byte)
    ensures Byte0(Group(b0, b1, b2)[0], Group(b0, b1, b2)[1]) == b0
  {
    ByteZeroRoundTrip(b0, b1 / 16);
  }

  lemma GroupByteOne(b0: byte, b1: byte, b2: byte)
    ensures Byte1(Group(b0, b1, b2)[1], Group(b0, b1, b2)[2]) == b1
  {
    ByteOneRoundTrip(b0, b1, b2 / 64);
  }

  lemma GroupByteTwo(b0: byte, b1: byte, b2: byte)
    ensures Byte2(Group(b0, b1, b2)[2], Group(b0, b1, b2)[3]) == b2
  {
    ByteTwoRoundTrip(b1, b2);
  }

  /** The first full group of an encoding decodes back to the first three bytes. */
  lemma FirstGroupRoundTrip(b: seq<byte>)
    requires |b| >= 3
    ensures DecodeQuads(EncodeUnpadded(b)) == [b[0], b[1], b[2]] + DecodeQuads(EncodeUnpadded(b[3..]))
  {
    var g := Group(b[0], b[1], b[2]);
    GroupRoundTrip(b[0], b[1], b[2]);
    var rest := EncodeUnpadded(b[3..]);
    var s := g + rest;
    assert EncodeUnpadded(b) == s;
    assert s[0] == g[0] && s[1] == g[1] && s[2] == g[2] && s[3] == g[3] && s[4..] == rest;
    assert DecodeQuads(s) == [b[0], b[1], b[2]] + DecodeQuads(rest);
  }

  /** A final group of one or two bytes decodes back to those bytes. */
  lemma ShortRoundTrip(b: seq<byte>)
    requires |b| < 3
    ensures DecodeQuads(EncodeUnpadded(b)) == b
  {
    if |b| == 2 {
      TwoBytesRoundTrip(b);
    } else if |b| == 1 {
      OneByteRoundTrip(b);
    }
  }

  lemma OneByteRoundTrip(b: seq<byte>)
    requires |b| == 1
    ensures DecodeQuads(EncodeUnpadded(b)) == b
  {
    ByteZeroRoundTrip(b[0], 0);
    var s := EncodeUnpadded(b);
    assert s == [CharOf(b[0] / 4), CharOf((b[0] % 4) * 16)];
    assert DecodeQuads(s) == [b[0]];
  }

  lemma TwoBytesRoundTrip(b: seq<byte>)
    requires |b| == 2
    ensures DecodeQuads(EncodeUnpadded(b)) == b
  {
    ByteZeroRoundTrip(b[0], b[1] / 16);
    ByteOneRoundTrip(b[0], b[1], 0);
    var s := EncodeUnpadded(b);
    assert s == [CharOf(b[0] / 4), CharOf((b[0] % 4) * 16 + b[1] / 16), CharOf((b[1] % 16) * 4)];
    assert DecodeQuads(s) == [b[0], b[1]];
  }

  lemma {:induction false} DecodeEncodeUnpadded(b: seq<byte>)
    ensures DecodeQuads(EncodeUnpadded(b)) == b
    decreases |b|
  {
    if |b| >= 3 {
      var head, tail := [b[0], b[1], b[2]], b[3..];
      FirstGroupRoundTrip(b);
      DecodeEncodeUnpadded(tail);
      assert head + tail == b;
    } else {
      ShortRoundTrip(b);
    }
  }

  /** An alphabet-only string is left alone by the padding rule. */
  lemma StripPaddingOfBase64(s: string)
    requires AllBase64(s)
    ensures StripPadding(s) == s
  {
    if |s| >= 1 {
      assert IsBase64Char(s[|s| - 1]);
    }
  }

  /** Alphabet characters followed by a padding of at most two `=`, all a
      multiple of four long, lose exactly that padding. */
  lemma StripPaddingOfPadded(u: string, pad: string)
    requires AllBase64(u) && (pad == "" || pad == "=" || pad == "==")
    requires |u + pad| % 4 == 0
    ensures StripPadding(u + pad) == u
  {
    var s := u + pad;
    if pad == "==" {
      assert s[..|s| - 2] == u;
    } else if pad == "=" {
      assert s[..|s| - 1] == u;
      if |u| > 0 { assert IsBase64Char(s[|s| - 2]); }
    } else {
      assert s == u;
      StripPaddingOfBase64(u);
    }
  }

  lemma StripPaddingOfEncode(b: seq<byte>)
    ensures StripPadding(Encode(b)) == EncodeUnpadded(b)
  {
    EncodeLength(b);
    StripPaddingOfPadded(EncodeUnpadded(b), Padding(|b|));
  }

  /** Decoding undoes encoding: `atob(btoa(b))` gives back `b`. */
  lemma RoundTrip(b: seq<byte>)
    ensures ForgivingDecode(Encode(b)) == Some(b)
  {
    StripPaddingOfEncode(b);
    EncodeUnpaddedLength(b);
    DecodeEncodeUnpadded(b);
  }

  // ---------------------------------------------------------------------------
  // Splitting an encoded stream at multiples of four characters

  /** A padded base64 text: a multiple of four characters, alphabet-only once
      the final `=` or `==` is removed. */
  predicate WellFormed(t: string)
  {
    |t| % 4 == 0 && AllBase64(StripPadding(t))
  }

  lemma EncodeWellFormed(b: seq<byte>)
    ensures WellFormed(Encode(b))
  {
    EncodeLength(b);
    StripPaddingOfEncode(b);
  }

  lemma WellFormedDecodes(t: string)
    requires WellFormed(t)
    ensures ForgivingDecode(t).Some?
  {
  }

  lemma ModFourShift(a: nat, b: nat)
    requires a % 4 == 0
    ensures (a + b) % 4 == b % 4
  {
  }

  /** Decoding is compositional at a group boundary. */
  lemma {:induction false} DecodeQuadsAppend(x: string, y: string)
    requires |x| % 4 == 0
    ensures DecodeQuads(x + y) == DecodeQuads(x) + DecodeQuads(y)
    decreases |x|
  {
    if |x| > 0 {
      var xy := x + y;
      assert xy[4..] == x[4..] + y;
      DecodeQuadsAppend(x[4..], y);
      assert xy[0] == x[0] && xy[1] == x[1] && xy[2] == x[2] && xy[3] == x[3];
      var head := [Byte0(x[0], x[1]), Byte1(x[1], x[2]), Byte2(x[2], x[3])];
      calc {
        DecodeQuads(xy);
        head + DecodeQuads(xy[4..]);
        head + (DecodeQuads(x[4..]) + DecodeQuads(y));
        (head + DecodeQuads(x[4..])) + DecodeQuads(y);
        DecodeQuads(x) + DecodeQuads(y);
      }
    } else {
      assert x + y == y;
    }
  }

  lemma FourAligned(x: nat, y: nat)
    requires x % 4 == 0 && (x + y) % 4 == 0
    ensures y % 4 == 0
  {
  }

  lemma StripPaddingLength(s: string)
    requires |s| % 4 == 0
    ensures |StripPadding(s)| % 4 != 1
  {
  }

  lemma AllBase64Split(a: string, b: string)
    requires AllBase64(a + b)
    ensures AllBase64(a) && AllBase64(b)
  {
    var t := a + b;
    forall i | 0 <= i < |a| ensures IsBase64Char(a[i]) { assert t[i] == a[i]; }
    forall i | 0 <= i < |b| ensures IsBase64Char(b[i]) { assert t[|a| + i] == b[i]; }
  }

  /** Padding sits in the last group, so it is found in the back part of a cut. */
  lemma StripPaddingAppend(a: string, b: string)
    requires |a| % 4 == 0 && |b| % 4 == 0 && |b| > 0
    ensures StripPadding(a + b) == a + StripPadding(b)
  {
    var t := a + b;
    ModFourShift(|a|, |b|);
    var n, m := |t|, |b|;
    assert n % 4 == 0 && m >= 4;
    assert t[n - 1] == b[m - 1] && t[n - 2] == b[m - 2];
    assert t[..n - 1] == a + b[..m - 1];
    assert t[..n - 2] == a + b[..m - 2];
  }

  /** A well-formed text cut after a multiple of four characters, with something
      left after the cut: the front is alphabet-only, the back is well-formed,
      and decoding the whole is decoding the front then the back. */
  lemma SplitWellFormed(a: string, b: string)
    requires WellFormed(a + b) && |a| % 4 == 0 && |b| > 0
    ensures AllBase64(a) && WellFormed(b)
    ensures ForgivingDecode(a + b) == Some(DecodeQuads(a) + ForgivingDecode(b).value)
  {
    SplitParts(a, b);
    DecodeParts(a + b, a, StripPadding(b));
    DecodeStripped(b, StripPadding(b));
  }

  /** The cut as far as padding goes: only the back part carries it. */
  lemma SplitParts(a: string, b: string)
    requires WellFormed(a + b) && |a| % 4 == 0 && |b| > 0
    ensures AllBase64(a) && WellFormed(b)
    ensures StripPadding(a + b) == a + StripPadding(b)
    ensures |StripPadding(b)| % 4 != 1 && |a + StripPadding(b)| % 4 != 1
  {
    FourAligned(|a|, |b|);
    StripPaddingAppend(a, b);
    StripPaddingLength(b);
    StripPaddingLength(a + b);
    AllBase64Split(a, StripPadding(b));
  }

  /** Decoding a text that strips to `a + sb`, `a` a whole number of groups. */
  lemma DecodeParts(t: string, a: string, sb: string)
    requires StripPadding(t) == a + sb && AllBase64(a + sb)
    requires |a| % 4 == 0 && |a + sb| % 4 != 1
    ensures ForgivingDecode(t) == Some(DecodeQuads(a) + DecodeQuads(sb))
  {
    DecodeStripped(t, a + sb);
    DecodeQuadsAppend(a, sb);
  }

  /** What `ForgivingDecode` gives once the padding is known to strip to `d`. */
  lemma DecodeStripped(t: string, d: string)
    requires StripPadding(t) == d && AllBase64(d) && |d| % 4 != 1
    ensures ForgivingDecode(t) == Some(DecodeQuads(d))
  {
  }

  /** Eight characters of the alphabet decode to six bytes: an input whose
      length is a multiple of 8 decodes to a whole number of 16-bit samples. */
  lemma AlignedDecode(s: string)
    requires AllBase64(s) && |s| % 8 == 0
    ensures ForgivingDecode(s).Some?
    ensures |ForgivingDecode(s).value| == 6 * (|s| / 8)
    ensures |ForgivingDecode(s).value| % 6 == 0 && |ForgivingDecode(s).value| % 2 == 0
  {
    StripPaddingOfBase64(s);
    EightIsTwoFours(|s|);
    DecodeQuadsLength(s);
    SixTimes(|s| / 8);
  }

  lemma {:induction false} SixTimes(k: nat)
    ensures (6 * k) % 6 == 0 && (6 * k) % 2 == 0
  {
    if k > 0 {
      var m := 6 * (k - 1);
      SixTimes(k - 1);
      assert 6 * k == m + 6;
      ShiftBySix(m);
    }
  }

  lemma ShiftBySix(m: nat)
    requires m % 6 == 0 && m % 2 == 0
    ensures (m + 6) % 6 == 0 && (m + 6) % 2 == 0
  {
  }

  lemma EightIsTwoFours(n: nat)
    requires n % 8 == 0
    ensures n % 4 == 0 && n / 4 == 2 * (n / 8)
  {
  }
}
