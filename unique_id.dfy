/**
 * `UniqueId` of requester.js: a 16-byte RFC 4122 identifier, its
 * constructor (hex text, base64 text, raw bytes or a random value), its wire
 * form and its rendering as 32 lowercase hex digits. The hex parser and
 * printer are those of the node-uuid package the source calls
 * (`UUID.parse`, `UUID.unparse`).
 */
module Ids {
  import opened Wrappers
  import Base64

  /** The 16 bytes of an RFC 4122 UUID. */
  type Uuid = b: seq<byte> | |b| == 16 witness seq(16, _ => 0)

  /** The wire form `{uuid: bytes}` of `UniqueId.to_msg`. */
  datatype IdMsg = IdMsg(uuid: seq<byte>)

  /**
   * An identifier. The source keeps whatever byte array it was given, so the
   * length is only 16 for the hex and random paths; rendering needs 16.
   */
  datatype UniqueId = UniqueId(bytes: seq<byte>) {

    predicate WellFormed() {
      |bytes| == 16
    }

    /** `to_msg`: the bytes under the key `uuid`, from which the id is rebuilt. */
    function ToMsg(): IdMsg {
      IdMsg(bytes)
    }

    /** `toString`: the RFC 4122 string form with its hyphens removed. */
    function ToString(): (r: string)
      requires WellFormed()
      ensures IsCanonicalText(r)
    {
      UnparseIsHex(bytes);
      HexOfIsHex(bytes);
      StripHyphens(Unparse(bytes))
    }
  }

  /** `key` is the rendered form of `id`: the key a request is stored under. */
  predicate Names(id: UniqueId, key: string) {
    id.WellFormed() && id.ToString() == key
  }

  predicate IsLowerHexDigit(c: char) {
    '0' <= c <= '9' || 'a' <= c <= 'f'
  }

  /** Exactly 32 lowercase hex digits: the shape of every rendered id. */
  predicate IsCanonicalText(s: string) {
    |s| == 32 && forall i :: 0 <= i < |s| ==> IsLowerHexDigit(s[i])
  }

  /** The id's message carries its bytes, so the id can be rebuilt from it. */
  lemma IdMsgRoundTrip(id: UniqueId)
    ensures UniqueId(id.ToMsg().uuid) == id
  {
  }

  function HexDigit(n: int): (c: char)
    requires 0 <= n < 16
    ensures IsLowerHexDigit(c)
  {
    if n < 10 then ('0' as int + n) as char else ('a' as int + (n - 10)) as char
  }

  /** Two lowercase hex digits per byte, most significant first (node-uuid's `_byteToHex`). */
  function HexOf(bs: seq<byte>): (r: string)
    ensures |r| == 2 * |bs|
  {
    if bs == [] then [] else [HexDigit(bs[0] / 16), HexDigit(bs[0] % 16)] + HexOf(bs[1..])
  }

  /** Every character `HexOf` prints is a lowercase hex digit. */
  lemma {:induction false} HexOfIsHex(bs: seq<byte>)
    ensures forall i :: 0 <= i < |HexOf(bs)| ==> IsLowerHexDigit(HexOf(bs)[i])
  {
    if bs != [] {
      HexOfIsHex(bs[1..]);
      var r := HexOf(bs);
      assert r == [HexDigit(bs[0] / 16), HexDigit(bs[0] % 16)] + HexOf(bs[1..]);
      forall i | 2 <= i < |r| ensures IsLowerHexDigit(r[i]) {
        assert r[i] == HexOf(bs[1..])[i - 2];
      }
    }
  }

  /** node-uuid `unparse`: the 8-4-4-4-12 hyphenated form. */
  function Unparse(b: Uuid): (r: string)
    ensures |r| == 36 && r[8] == '-' && r[13] == '-' && r[18] == '-' && r[23] == '-'
  {
    HexOf(b[..4]) + ("-" + (HexOf(b[4..6]) + ("-" + (HexOf(b[6..8]) + ("-" + (HexOf(b[8..10]) + ("-" + HexOf(b[10..]))))))))
  }

  /** `s.replace(/-/g, "")`. */
  function StripHyphens(s: string): (r: string)
    ensures '-' !in r
  {
    if s == [] then [] else if s[0] == '-' then StripHyphens(s[1..]) else [s[0]] + StripHyphens(s[1..])
  }

  /** The value of a hex digit of either case (node-uuid lower-cases before matching). */
  function HexValue(c: char): (r: Option<int>)
    ensures r.Some? ==> 0 <= r.value < 16
  {
    if '0' <= c <= '9' then Some(c as int - '0' as int)
    else if 'a' <= c <= 'f' then Some(c as int - 'a' as int + 10)
    else if 'A' <= c <= 'F' then Some(c as int - 'A' as int + 10)
    else None
  }

  /**
   * The bytes found by node-uuid's scan `/[0-9a-f]{2}/g` over the
   * lower-cased text: every pair of adjacent hex digits, left to right,
   * without overlap; any other character is skipped.
   */
  function HexPairs(s: string): (r: seq<byte>)
    ensures |r| <= |s| / 2
  {
    if |s| < 2 then []
    else if HexValue(s[0]).Some? && HexValue(s[1]).Some? then
      [HexValue(s[0]).value * 16 + HexValue(s[1]).value] + HexPairs(s[2..])
    else HexPairs(s[1..])
  }

  /** node-uuid `parse`: the first 16 pairs found, zero-filled when fewer are found. */
  function UuidParse(s: string): (r: Uuid)
    ensures var p := HexPairs(s);
      if |p| >= 16 then r == p[..16]
      else r[..|p|] == p && forall i :: |p| <= i < 16 ==> r[i] == 0
  {
    var p := HexPairs(s);
    if |p| >= 16 then p[..16] else p + seq(16 - |p|, _ => 0)
  }

  /** The JavaScript value handed to `new UniqueId(val)`. */
  datatype IdValue =
    | Absent                 // undefined, null or another falsy non-string
    | Text(s: string)
    | Raw(bytes: seq<byte>)  // a byte array, kept as it is

  datatype IdError = InvalidBase64

  /**
   * The `UniqueId` constructor. `random` stands for the value of
   * `UUID.v4`, used when the argument is falsy (the empty string included).
   * A string whose hyphen-free length is 32 is parsed as hex; any other
   * string is base64 and fails where `atob` throws.
   */
  function UniqueIdOf(v: IdValue, random: Uuid): (r: Result<UniqueId, IdError>)
    ensures v.Absent? || v == Text("") ==> r == Success(UniqueId(random))
    ensures v.Raw? ==> r == Success(UniqueId(v.bytes))
    ensures v.Text? && |StripHyphens(v.s)| == 32 ==> r == Success(UniqueId(UuidParse(v.s))) && r.value.WellFormed()
    ensures v.Text? && v.s != "" && |StripHyphens(v.s)| != 32 && Base64.Atob(v.s).Some? ==>
      r == Success(UniqueId(Base64.Atob(v.s).value))
    ensures r.Failure? <==> v.Text? && v.s != "" && |StripHyphens(v.s)| != 32 && Base64.Atob(v.s).None?
  {
    match v
    case Absent => Success(UniqueId(random))
    case Raw(bs) => Success(UniqueId(bs))
    case Text(s) =>
      if s == "" then Success(UniqueId(random))
      else if |StripHyphens(s)| == 32 then Success(UniqueId(UuidParse(s)))
      else
        match Base64.Atob(s)
        case None => Failure(InvalidBase64)
        case Some(bs) => Success(UniqueId(bs))
  }

  /**
   * The hex branch is chosen by length alone: text of 32 characters besides
   * its hyphens in which the scan finds no hex pair (32 'z's, say) becomes
   * the all-zero id.
   */
  lemma NoPairsGivesZeroId(s: string, random: Uuid)
    requires |StripHyphens(s)| == 32 && HexPairs(s) == []
    ensures UniqueIdOf(Text(s), random) == Success(UniqueId(seq(16, _ => 0)))
  {
  }

  // ---------------------------------------------------------------------
  // Round trips of the three textual forms

  lemma {:induction false} StripHyphensConcat(a: string, b: string)
    ensures StripHyphens(a + b) == StripHyphens(a) + StripHyphens(b)
  {
    if a == [] {
      assert a + b == b;
    } else {
      assert (a + b)[0] == a[0] && (a + b)[1..] == a[1..] + b;
      StripHyphensConcat(a[1..], b);
    }
  }

  lemma {:induction false} StripHyphensOfHex(s: string)
    requires forall i :: 0 <= i < |s| ==> IsLowerHexDigit(s[i])
    ensures StripHyphens(s) == s
  {
    if s != [] {
      StripHyphensOfHex(s[1..]);
      assert s == [s[0]] + s[1..];
    }
  }

  lemma {:induction false} HexOfConcat(a: seq<byte>, b: seq<byte>)
    ensures HexOf(a + b) == HexOf(a) + HexOf(b)
  {
    if a == [] {
      assert a + b == b;
    } else {
      assert (a + b)[0] == a[0] && (a + b)[1..] == a[1..] + b;
      HexOfConcat(a[1..], b);
    }
  }

  lemma StripHexThenHyphen(h: string, rest: string)
    requires forall i :: 0 <= i < |h| ==> IsLowerHexDigit(h[i])
    ensures StripHyphens(h + ("-" + rest)) == h + StripHyphens(rest)
  {
    StripHyphensConcat(h, "-" + rest);
    StripHyphensOfHex(h);
    assert ("-" + rest)[1..] == rest;
  }

  lemma HexOfSplit(b: seq<byte>, i: nat, j: nat)
    requires i <= j <= |b|
    ensures HexOf(b[i..]) == HexOf(b[i..j]) + HexOf(b[j..])
  {
    HexOfConcat(b[i..j], b[j..]);
    assert b[i..j] + b[j..] == b[i..];
  }

  /** Removing the hyphens of the RFC 4122 form leaves the plain hex of the bytes. */
  lemma UnparseIsHex(b: Uuid)
    ensures StripHyphens(Unparse(b)) == HexOf(b)
  {
    var h0, h1, h2, h3, h4 := HexOf(b[..4]), HexOf(b[4..6]), HexOf(b[6..8]), HexOf(b[8..10]), HexOf(b[10..]);
    HexOfIsHex(b[..4]);
    HexOfIsHex(b[4..6]);
    HexOfIsHex(b[6..8]);
    HexOfIsHex(b[8..10]);
    HexOfIsHex(b[10..]);
    StripHyphensOfHex(h4);
    StripHexThenHyphen(h3, h4);
    StripHexThenHyphen(h2, h3 + ("-" + h4));
    StripHexThenHyphen(h1, h2 + ("-" + (h3 + ("-" + h4))));
    StripHexThenHyphen(h0, h1 + ("-" + (h2 + ("-" + (h3 + ("-" + h4))))));
    HexOfSplit(b, 8, 10);
    HexOfSplit(b, 6, 8);
    HexOfSplit(b, 4, 6);
    HexOfSplit(b, 0, 4);
    assert b[0..] == b && b[0..4] == b[..4];
  }

  /** The scan recovers every byte printed by `HexOf`, whatever follows. */
  lemma {:induction false} HexPairsOfHex(a: seq<byte>, t: string)
    ensures HexPairs(HexOf(a) + t) == a + HexPairs(t)
  {
    if a == [] {
      assert HexOf(a) + t == t;
    } else {
      HexOfConsConcat(a, t);
      HexPairOfByte(a[0], HexOf(a[1..]) + t);
      HexPairsOfHex(a[1..], t);
      assert a == [a[0]] + a[1..];
      ConcatAssoc([a[0]], a[1..], HexPairs(t));
    }
  }

  lemma HexOfConsConcat(a: seq<byte>, t: string)
    requires a != []
    ensures HexOf(a) + t == [HexDigit(a[0] / 16), HexDigit(a[0] % 16)] + (HexOf(a[1..]) + t)
  {
    var digits := [HexDigit(a[0] / 16), HexDigit(a[0] % 16)];
    assert HexOf(a) == digits + HexOf(a[1..]);
    ConcatAssoc(digits, HexOf(a[1..]), t);
  }

  /** The two digits printed for a byte are read back as that byte. */
  lemma HexPairOfByte(b: byte, rest: string)
    ensures HexPairs([HexDigit(b / 16), HexDigit(b % 16)] + rest) == [b] + HexPairs(rest)
  {
    var s := [HexDigit(b / 16), HexDigit(b % 16)] + rest;
    assert HexValue(s[0]) == Some(b / 16) && HexValue(s[1]) == Some(b % 16);
    assert s[2..] == rest;
  }

  /** A hyphen is skipped by the scan. */
  lemma HexPairsSkipsHyphen(t: string)
    ensures HexPairs("-" + t) == HexPairs(t)
  {
    if |t| >= 1 {
      assert ("-" + t)[1..] == t;
    }
  }

  /** Parsing the rendered id gives back its 16 bytes. */
  lemma ParseToString(b: Uuid, random: Uuid)
    ensures UniqueIdOf(Text(UniqueId(b).ToString()), random) == Success(UniqueId(b))
  {
    var s := UniqueId(b).ToString();
    UnparseIsHex(b);
    StripHyphensOfHex(s);
    HexPairsOfHex(b, "");
    assert HexOf(b) + "" == HexOf(b);
    HexTextPath(s, random);
  }

  /** A text of 32 hex digits once its hyphens are gone takes the hex path. */
  lemma HexTextPath(s: string, random: Uuid)
    requires |StripHyphens(s)| == 32 && |HexPairs(s)| == 16
    ensures UniqueIdOf(Text(s), random) == Success(UniqueId(HexPairs(s)))
  {
    assert s != "";
    assert HexPairs(s)[..16] == HexPairs(s);
  }

  lemma HexPairsOfGroup(b: seq<byte>, i: nat, j: nat, rest: string)
    requires i <= j <= |b|
    ensures HexPairs(HexOf(b[i..j]) + ("-" + rest)) == b[i..j] + HexPairs(rest)
  {
    HexPairsOfHex(b[i..j], "-" + rest);
    HexPairsSkipsHyphen(rest);
  }

  /** The scan reads the 16 bytes back out of the hyphenated form. */
  lemma HexPairsOfUnparse(b: Uuid)
    ensures HexPairs(Unparse(b)) == b
  {
    var h0, h1, h2, h3, h4 := HexOf(b[..4]), HexOf(b[4..6]), HexOf(b[6..8]), HexOf(b[8..10]), HexOf(b[10..]);
    var t3 := h3 + ("-" + h4);
    var t2 := h2 + ("-" + t3);
    var t1 := h1 + ("-" + t2);
    assert Unparse(b) == h0 + ("-" + t1);
    HexPairsOfHex(b[10..], "");
    assert h4 + "" == h4;
    HexPairsOfGroup(b, 8, 10, h4);
    HexPairsOfGroup(b, 6, 8, t3);
    HexPairsOfGroup(b, 4, 6, t2);
    HexPairsOfGroup(b, 0, 4, t1);
    UuidGroups(b);
  }

  lemma UuidGroups(b: Uuid)
    ensures b[0..4] + (b[4..6] + (b[6..8] + (b[8..10] + (b[10..] + [])))) == b
  {
    assert b[0..4] == b[..4];
    assert b[10..] + [] == b[10..];
    assert b[8..10] + b[10..] == b[8..];
    assert b[6..8] + b[8..] == b[6..];
    assert b[4..6] + b[6..] == b[4..];
    assert b[..4] + b[4..] == b;
  }

  /** Parsing the hyphenated RFC 4122 form gives back the same 16 bytes. */
  lemma ParseUnparse(b: Uuid, random: Uuid)
    ensures UniqueIdOf(Text(Unparse(b)), random) == Success(UniqueId(b))
  {
    UnparseIsHex(b);
    HexPairsOfUnparse(b);
    HexTextPath(Unparse(b), random);
  }

  /** Parsing the padded base64 text of the bytes gives them back. */
  lemma ParseBase64(b: Uuid, random: Uuid)
    ensures UniqueIdOf(Text(Base64.Encode(b)), random) == Success(UniqueId(b))
  {
    var s := Base64.Encode(b);
    Base64.EncodeHasNoHyphen(b);
    StripHyphensOfNoHyphen(s);
    Base64.AtobEncode(b);
  }

  lemma {:induction false} StripHyphensOfNoHyphen(s: string)
    requires '-' !in s
    ensures StripHyphens(s) == s
  {
    if s != [] {
      assert s[1..] == s[1..] && '-' !in s[1..];
      StripHyphensOfNoHyphen(s[1..]);
      assert s == [s[0]] + s[1..];
    }
  }

  /** Distinct identifiers render to distinct strings. */
  lemma ToStringInjective(a: UniqueId, b: UniqueId)
    requires a.WellFormed() && b.WellFormed()
    ensures a.ToString() == b.ToString() <==> a == b
  {
    if a.ToString() == b.ToString() {
      ParseToString(a.bytes, a.bytes);
      ParseToString(b.bytes, a.bytes);
    }
  }
}
