/**
 * The base64 decoding that the browser's `atob` performs (the "forgiving-base64
 * decode" of the WHATWG Infra standard over the alphabet of section 4 of
 * RFC 4648), which the identifier constructor uses for every string that is
 * not a 32-digit hex form, and the padded encoder of RFC 4648 section 4 as its
 * partner, so that decoding can be proved to undo encoding.
 */
module Base64 {
  import opened Wrappers

  /** The character of the base64 alphabet with index `i`. */
  function AlphabetChar(i: int): (c: char)
    requires 0 <= i < 64
  {
    if i < 26 then ('A' as int + i) as char
    else if i < 52 then ('a' as int + (i - 26)) as char
    else if i < 62 then ('0' as int + (i - 52)) as char
    else if i == 62 then '+'
    else '/'
  }

  /** The index of `c` in the base64 alphabet, if it belongs to it. */
  function SextetOf(c: char): (r: Option<int>)
    ensures r.Some? ==> 0 <= r.value < 64 && AlphabetChar(r.value) == c
  {
    if 'A' <= c <= 'Z' then Some(c as int - 'A' as int)
    else if 'a' <= c <= 'z' then Some(c as int - 'a' as int + 26)
    else if '0' <= c <= '9' then Some(c as int - '0' as int + 52)
    else if c == '+' then Some(62)
    else if c == '/' then Some(63)
    else None
  }

  lemma SextetOfAlphabet(i: int)
    requires 0 <= i < 64
    ensures SextetOf(AlphabetChar(i)) == Some(i)
  {
  }

  predicate IsAsciiWhitespace(c: char) {
    c == '\t' || c == '\n' || c == '\U{000C}' || c == '\r' || c == ' '
  }

  /** Step 1 of the forgiving decode: drop every ASCII whitespace character. */
  function RemoveWhitespace(s: string): (r: string)
    ensures |r| <= |s|
    ensures forall i :: 0 <= i < |r| ==> !IsAsciiWhitespace(r[i])
  {
    if s == [] then []
    else if IsAsciiWhitespace(s[0]) then RemoveWhitespace(s[1..])
    else [s[0]] + RemoveWhitespace(s[1..])
  }

  /** Step 2: a length that is a multiple of four loses one or two trailing '='. */
  function StripPadding(s: string): string {
    if |s| % 4 != 0 then s
    else if |s| >= 2 && s[|s| - 2] == '=' && s[|s| - 1] == '=' then s[..|s| - 2]
    else if |s| >= 1 && s[|s| - 1] == '=' then s[..|s| - 1]
    else s
  }

  predicate AllSextets(s: string) {
    forall i :: 0 <= i < |s| ==> SextetOf(s[i]).Some?
  }

  function Sextet(c: char): (r: int)
    requires SextetOf(c).Some?
    ensures 0 <= r < 64
  {
    SextetOf(c).value
  }

  /** Every element of `xs` is a six-bit value. */
  predicate IsSextets(xs: seq<int>) {
    forall i :: 0 <= i < |xs| ==> 0 <= xs[i] < 64
  }

  /** Step 4 of the forgiving decode: each character is replaced by its index in the alphabet. */
  function SextetsOf(s: string): (r: seq<int>)
    requires AllSextets(s)
    ensures |r| == |s| && IsSextets(r)
  {
    if s == [] then [] else [Sextet(s[0])] + SextetsOf(s[1..])
  }

  /**
   * Steps 5 to 8: each group of four sextets gives three bytes; a final
   * group of three gives two bytes and one of two gives one byte, the
   * leftover low bits being discarded.
   */
  function DecodeSextets(xs: seq<int>): (r: seq<byte>)
    requires |xs| % 4 != 1 && IsSextets(xs)
  {
    if |xs| == 0 then []
    else
      var b0 := xs[0] * 4 + xs[1] / 16;
      if |xs| == 2 then [b0]
      else
        var b1 := (xs[1] % 16) * 16 + xs[2] / 4;
        if |xs| == 3 then [b0, b1]
        else
          var b2 := (xs[2] % 4) * 64 + xs[3];
          [b0, b1, b2] + DecodeSextets(xs[4..])
  }

  /** `atob`: the bytes a base64 text stands for, or None where `atob` throws. */
  function Atob(s: string): (r: Option<seq<byte>>)
    ensures r.Some? ==> |r.value| == |StripPadding(RemoveWhitespace(s))| * 3 / 4
  {
    var t := StripPadding(RemoveWhitespace(s));
    if |t| % 4 == 1 || !AllSextets(t) then None
    else
      DecodeSextetsLength(SextetsOf(t));
      Some(DecodeSextets(SextetsOf(t)))
  }

  /** Three bytes for every four sextets, rounded down. */
  lemma {:induction false} DecodeSextetsLength(xs: seq<int>)
    requires |xs| % 4 != 1 && IsSextets(xs)
    ensures |DecodeSextets(xs)| == |xs| * 3 / 4
  {
    if |xs| >= 4 {
      DecodeSextetsLength(xs[4..]);
    }
  }

  /** The alphabet characters of the sextets `xs`. */
  function Chars(xs: seq<int>): (r: string)
    requires IsSextets(xs)
    ensures |r| == |xs| && forall i :: 0 <= i < |xs| ==> r[i] == AlphabetChar(xs[i])
  {
    if xs == [] then [] else [AlphabetChar(xs[0])] + Chars(xs[1..])
  }

  /** The sextets of the base64 text of `bs`, without padding. */
  function EncodeSextets(bs: seq<byte>): (r: seq<int>)
    ensures |r| % 4 != 1 && IsSextets(r)
  {
    if |bs| == 0 then []
    else
      var c0 := bs[0] / 4;
      if |bs| == 1 then [c0, (bs[0] % 4) * 16]
      else
        var c1 := (bs[0] % 4) * 16 + bs[1] / 16;
        if |bs| == 2 then [c0, c1, (bs[1] % 16) * 4]
        else
          var c2 := (bs[1] % 16) * 4 + bs[2] / 64;
          var c3 := bs[2] % 64;
          [c0, c1, c2, c3] + EncodeSextets(bs[3..])
  }

  /** The base64 text of `bs` without its padding. */
  function EncodeBody(bs: seq<byte>): (r: string)
  {
    Chars(EncodeSextets(bs))
  }

  /** RFC 4648 section 4 encoding, padded with '=' to a multiple of four characters. */
  function Encode(bs: seq<byte>): (r: string)
  {
    EncodeBody(bs) + (if |bs| % 3 == 1 then "==" else if |bs| % 3 == 2 then "=" else "")
  }

  /** Reading the alphabet characters of some sextets back gives those sextets. */
  lemma {:induction false} SextetsOfChars(xs: seq<int>)
    requires IsSextets(xs)
    ensures AllSextets(Chars(xs)) && SextetsOf(Chars(xs)) == xs
  {
    if xs != [] {
      SextetsOfChars(xs[1..]);
      SextetOfAlphabet(xs[0]);
      assert Chars(xs)[1..] == Chars(xs[1..]);
    }
  }

  /** Four characters per whole group of three bytes and one more than the bytes of a partial group. */
  lemma {:induction false} EncodeSextetsLength(bs: seq<byte>)
    ensures |EncodeSextets(bs)| == (|bs| / 3) * 4 + (if |bs| % 3 == 0 then 0 else |bs| % 3 + 1)
  {
    if |bs| >= 3 {
      EncodeSextetsLength(bs[3..]);
    }
  }

  /** Decoding the sextets of the encoding of any bytes gives those bytes back. */
  lemma {:induction false} DecodeEncodeSextets(bs: seq<byte>)
    ensures DecodeSextets(EncodeSextets(bs)) == bs
  {
    if |bs| >= 3 {
      DecodeEncodeSextets(bs[3..]);
      GroupOfThree(bs[0], bs[1], bs[2]);
      DecodeQuad(EncodeSextets(bs), EncodeSextets(bs[3..]));
      assert bs == [bs[0], bs[1], bs[2]] + bs[3..];
    } else if |bs| == 2 {
      GroupOfTwo(bs[0], bs[1]);
    } else if |bs| == 1 {
      GroupOfOne(bs[0]);
    }
  }

  lemma DecodeQuad(xs: seq<int>, rest: seq<int>)
    requires |xs| >= 4 && IsSextets(xs) && xs[4..] == rest && |rest| % 4 != 1 && IsSextets(rest)
    ensures DecodeSextets(xs) ==
      [xs[0] * 4 + xs[1] / 16, (xs[1] % 16) * 16 + xs[2] / 4, (xs[2] % 4) * 64 + xs[3]] + DecodeSextets(rest)
  {
  }

  /** Three bytes give four sextets that decode back to them. */
  lemma GroupOfThree(b0: byte, b1: byte, b2: byte)
    ensures var c0, c1, c2, c3 := b0 / 4, (b0 % 4) * 16 + b1 / 16, (b1 % 16) * 4 + b2 / 64, b2 % 64;
      c0 * 4 + c1 / 16 == b0 && (c1 % 16) * 16 + c2 / 4 == b1 && (c2 % 4) * 64 + c3 == b2
  {
    SplitDigit16(b0 % 4, b1 / 16);
    SplitDigit4(b1 % 16, b2 / 64);
  }

  /** Two bytes give three sextets that decode back to them. */
  lemma GroupOfTwo(b0: byte, b1: byte)
    ensures var c0, c1, c2 := b0 / 4, (b0 % 4) * 16 + b1 / 16, (b1 % 16) * 4;
      c0 * 4 + c1 / 16 == b0 && (c1 % 16) * 16 + c2 / 4 == b1
  {
    SplitDigit16(b0 % 4, b1 / 16);
    SplitDigit4(b1 % 16, 0);
  }

  /** One byte gives two sextets that decode back to it. */
  lemma GroupOfOne(b0: byte)
    ensures (b0 / 4) * 4 + ((b0 % 4) * 16) / 16 == b0
  {
    SplitDigit16(b0 % 4, 0);
  }

  lemma SplitDigit16(x: int, y: int)
    requires 0 <= x < 4 && 0 <= y < 16
    ensures (x * 16 + y) / 16 == x && (x * 16 + y) % 16 == y
  {
  }

  lemma SplitDigit4(x: int, y: int)
    requires 0 <= x < 16 && 0 <= y < 4
    ensures (x * 4 + y) / 4 == x && (x * 4 + y) % 4 == y
  {
  }

  /** Decoding the unpadded base64 text of any bytes gives those bytes back. */
  lemma DecodeEncodeBody(bs: seq<byte>)
    ensures AllSextets(EncodeBody(bs)) && |EncodeBody(bs)| % 4 != 1
    ensures DecodeSextets(SextetsOf(EncodeBody(bs))) == bs
  {
    SextetsOfChars(EncodeSextets(bs));
    DecodeEncodeSextets(bs);
  }

  /** `atob` undoes the encoder, for every byte sequence. */
  lemma AtobEncode(bs: seq<byte>)
    ensures Atob(Encode(bs)) == Some(bs)
  {
    var s := Encode(bs);
    EncodeIsClean(bs);
    NoWhitespaceUnchanged(s);
    StripEncodePadding(bs);
    DecodeEncodeBody(bs);
  }

  /** The unpadded length never leaves a remainder of one, and padding completes a multiple of four. */
  lemma BodyLength(n: nat)
    ensures var b := (n / 3) * 4 + (if n % 3 == 0 then 0 else n % 3 + 1);
            (b + (if n % 3 == 1 then 2 else if n % 3 == 2 then 1 else 0)) % 4 == 0
  {
    var q, r := n / 3, n % 3;
    assert (q * 4) % 4 == 0;
  }

  /** No alphabet character is whitespace, '=' or '-'. */
  lemma AlphabetCharIsPlain(i: int)
    requires 0 <= i < 64
    ensures !IsAsciiWhitespace(AlphabetChar(i)) && AlphabetChar(i) != '=' && AlphabetChar(i) != '-'
  {
  }

  lemma EncodeIsClean(bs: seq<byte>)
    ensures forall i :: 0 <= i < |Encode(bs)| ==> !IsAsciiWhitespace(Encode(bs)[i])
  {
    var xs := EncodeSextets(bs);
    var body := EncodeBody(bs);
    var s := Encode(bs);
    forall i | 0 <= i < |s| ensures !IsAsciiWhitespace(s[i]) {
      if i < |body| {
        assert s[i] == body[i] == AlphabetChar(xs[i]);
        AlphabetCharIsPlain(xs[i]);
      }
    }
  }

  lemma StripEncodePadding(bs: seq<byte>)
    ensures StripPadding(Encode(bs)) == EncodeBody(bs)
  {
    var xs := EncodeSextets(bs);
    var body := EncodeBody(bs);
    var s := Encode(bs);
    EncodeSextetsLength(bs);
    BodyLength(|bs|);
    var k := |body|;
    if |bs| % 3 == 1 {
      assert s == body + "==";
      assert s[..|s| - 2] == body;
    } else if |bs| % 3 == 2 {
      assert s == body + "=";
      assert s[|s| - 2] == body[k - 1] == AlphabetChar(xs[k - 1]);
      AlphabetCharIsPlain(xs[k - 1]);
      assert s[..|s| - 1] == body;
    } else if k > 0 {
      assert s == body;
      assert s[|s| - 1] == AlphabetChar(xs[k - 1]);
      AlphabetCharIsPlain(xs[k - 1]);
    }
  }

  lemma {:induction false} NoWhitespaceUnchanged(s: string)
    requires forall i :: 0 <= i < |s| ==> !IsAsciiWhitespace(s[i])
    ensures RemoveWhitespace(s) == s
  {
    if s != [] {
      NoWhitespaceUnchanged(s[1..]);
      assert s == [s[0]] + s[1..];
    }
  }

  lemma EncodeHasNoHyphen(bs: seq<byte>)
    ensures '-' !in Encode(bs)
    ensures |Encode(bs)| == 4 * ((|bs| + 2) / 3)
  {
    var xs := EncodeSextets(bs);
    var body := EncodeBody(bs);
    EncodeSextetsLength(bs);
    forall i | 0 <= i < |body| ensures body[i] != '-' {
      AlphabetCharIsPlain(xs[i]);
    }
  }
}
