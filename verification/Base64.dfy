/**
 * Go's `encoding/base64`: the standard and URL-safe alphabets of sections 4 and 5 of
 * RFC 4648, padded, with the strict trailing-bits rule of section 3.5 as an option.
 * As in Go, the decoder skips carriage returns and line feeds wherever they occur.
 */
module Base64 {
  import opened Results

  type Byte = b: nat | b < 256
  type Bytes = seq<Byte>

  datatype Alphabet = Standard | UrlSafe

  function SextetChar(a: Alphabet, n: nat): char
    requires n < 64
  {
    if n < 26 then 'A' + n as char
    else if n < 52 then 'a' + (n - 26) as char
    else if n < 62 then '0' + (n - 52) as char
    else if n == 62 then (if a.Standard? then '+' else '-')
    else (if a.Standard? then '/' else '_')
  }

  function CharSextet(a: Alphabet, c: char): (r: Option<nat>)
    ensures r.Some? ==> r.value < 64
  {
    if 'A' <= c <= 'Z' then Some((c - 'A') as nat)
    else if 'a' <= c <= 'z' then Some((c - 'a') as nat + 26)
    else if '0' <= c <= '9' then Some((c - '0') as nat + 52)
    else if c == SextetChar(a, 62) then Some(62)
    else if c == SextetChar(a, 63) then Some(63)
    else None
  }

  lemma SextetRoundTrip(a: Alphabet, n: nat)
    requires n < 64
    ensures CharSextet(a, SextetChar(a, n)) == Some(n)
    ensures SextetChar(a, n) !in {'=', '|', '\r', '\n'}
  {
  }

  lemma CharRoundTrip(a: Alphabet, c: char)
    requires CharSextet(a, c).Some?
    ensures SextetChar(a, CharSextet(a, c).value) == c
  {
  }

  /** One to three bytes as a padded group of four characters. */
  function EncodeGroup(a: Alphabet, g: Bytes): (s: string)
    requires 1 <= |g| <= 3
    ensures |s| == 4
  {
    var b1 := if |g| > 1 then g[1] else 0;
    var b2 := if |g| > 2 then g[2] else 0;
    [ SextetChar(a, g[0] / 4),
      SextetChar(a, (g[0] % 4) * 16 + b1 / 16),
      if |g| > 1 then SextetChar(a, (b1 % 16) * 4 + b2 / 64) else '=',
      if |g| > 2 then SextetChar(a, b2 % 64) else '=' ]
  }

  /** `Encoding.EncodeToString`. */
  function Encode(a: Alphabet, raw: Bytes): string {
    if raw == [] then []
    else if |raw| <= 3 then EncodeGroup(a, raw)
    else EncodeGroup(a, raw[..3]) + Encode(a, raw[3..])
  }

  /** A group of four characters, padding allowed when it is the last one. */
  function DecodeGroup(a: Alphabet, strict: bool, s: string, last: bool): (r: Option<Bytes>)
    requires |s| == 4
    ensures r.Some? ==> 1 <= |r.value| <= 3
    ensures r.Some? && !last ==> |r.value| == 3
  {
    match (CharSextet(a, s[0]), CharSextet(a, s[1]))
    case (Some(w), Some(x)) =>
      if s[2] == '=' then
        if last && s[3] == '=' && (strict ==> x % 16 == 0) then Some([w * 4 + x / 16]) else None
      else
        (match CharSextet(a, s[2])
         case None => None
         case Some(y) =>
           if s[3] == '=' then
             if last && (strict ==> y % 4 == 0) then Some([w * 4 + x / 16, (x % 16) * 16 + y / 4]) else None
           else
             match CharSextet(a, s[3])
             case None => None
             case Some(z) => Some([w * 4 + x / 16, (x % 16) * 16 + y / 4, (y % 4) * 64 + z]))
    case _ => None
  }

  function DecodeGroups(a: Alphabet, strict: bool, s: string): Option<Bytes> {
    if s == [] then Some([])
    else if |s| < 4 then None
    else
      match DecodeGroup(a, strict, s[..4], |s| == 4)
      case None => None
      case Some(g) =>
        match DecodeGroups(a, strict, s[4..])
        case None => None
        case Some(rest) => Some(g + rest)
  }

  predicate IsNewline(c: char) {
    c == '\r' || c == '\n'
  }

  function StripNewlines(s: string): string {
    if s == [] then []
    else if IsNewline(s[0]) then StripNewlines(s[1..])
    else [s[0]] + StripNewlines(s[1..])
  }

  /** `Encoding.DecodeString`, on `Encoding.Strict()` when `strict`. */
  function Decode(a: Alphabet, strict: bool, s: string): Option<Bytes> {
    DecodeGroups(a, strict, StripNewlines(s))
  }

  predicate Plain(s: string) {
    forall i :: 0 <= i < |s| ==> s[i] !in {'|', '\r', '\n'}
  }

  lemma {:induction false} EncodeIsPlain(a: Alphabet, raw: Bytes)
    ensures Plain(Encode(a, raw)) && |Encode(a, raw)| % 4 == 0
  {
    if raw != [] {
      forall n: nat | n < 64 ensures SextetChar(a, n) !in {'=', '|', '\r', '\n'} {
        SextetRoundTrip(a, n);
      }
      if |raw| > 3 {
        EncodeIsPlain(a, raw[3..]);
      }
    }
  }

  lemma {:induction false} StripOfPlain(s: string)
    requires Plain(s)
    ensures StripNewlines(s) == s
  {
    if s != [] {
      assert forall i :: 0 <= i < |s| - 1 ==> s[1..][i] == s[i + 1];
      StripOfPlain(s[1..]);
    }
  }

  lemma BytesOfSextets(w: nat, x: nat, y: nat, z: nat)
    requires w < 64 && x < 64 && y < 64 && z < 64
    ensures (w * 4 + x / 16) / 4 == w
    ensures ((w * 4 + x / 16) % 4) * 16 + ((x % 16) * 16 + y / 4) / 16 == x
    ensures (((x % 16) * 16 + y / 4) % 16) * 4 + ((y % 4) * 64 + z) / 64 == y
    ensures ((y % 4) * 64 + z) % 64 == z
    ensures x % 16 == 0 ==> ((w * 4 + x / 16) % 4) * 16 == x
    ensures y % 4 == 0 ==> (((x % 16) * 16 + y / 4) % 16) * 4 == y
  {
  }

  lemma SextetsOfBytes(b0: Byte, b1: Byte, b2: Byte)
    ensures var w, x, y, z := b0 / 4, (b0 % 4) * 16 + b1 / 16, (b1 % 16) * 4 + b2 / 64, b2 % 64;
            w * 4 + x / 16 == b0 && (x % 16) * 16 + y / 4 == b1 && (y % 4) * 64 + z == b2
  {
  }

  lemma DecodeOfSextets(a: Alphabet, strict: bool, w: nat, x: nat, y: nat, z: nat, last: bool)
    requires w < 64 && x < 64 && y < 64 && z < 64
    ensures var b0: Byte, b1: Byte, b2: Byte := w * 4 + x / 16, (x % 16) * 16 + y / 4, (y % 4) * 64 + z;
            var c0, c1, c2, c3 := SextetChar(a, w), SextetChar(a, x), SextetChar(a, y), SextetChar(a, z);
            && DecodeGroup(a, strict, [c0, c1, c2, c3], last) == Some([b0, b1, b2])
            && (last && y % 4 == 0 ==> DecodeGroup(a, strict, [c0, c1, c2, '='], last) == Some([b0, b1]))
            && (last && x % 16 == 0 ==> DecodeGroup(a, strict, [c0, c1, '=', '='], last) == Some([b0]))
  {
    SextetRoundTrip(a, w);
    SextetRoundTrip(a, x);
    SextetRoundTrip(a, y);
    SextetRoundTrip(a, z);
  }

  /** What an encoded group looks like, in sextets. */
  lemma EncodedGroupShape(a: Alphabet, g: Bytes) returns (w: nat, x: nat, y: nat, z: nat)
    requires 1 <= |g| <= 3
    ensures w < 64 && x < 64 && y < 64 && z < 64
    ensures var b0: Byte, b1: Byte, b2: Byte := w * 4 + x / 16, (x % 16) * 16 + y / 4, (y % 4) * 64 + z;
            var c0, c1, c2, c3 := SextetChar(a, w), SextetChar(a, x), SextetChar(a, y), SextetChar(a, z);
            || (g == [b0, b1, b2] && EncodeGroup(a, g) == [c0, c1, c2, c3])
            || (g == [b0, b1] && y % 4 == 0 && EncodeGroup(a, g) == [c0, c1, c2, '='])
            || (g == [b0] && x % 16 == 0 && EncodeGroup(a, g) == [c0, c1, '=', '='])
  {
    var b0: Byte := g[0];
    var b1: Byte := if |g| > 1 then g[1] else 0;
    var b2: Byte := if |g| > 2 then g[2] else 0;
    w, x, y, z := b0 / 4, (b0 % 4) * 16 + b1 / 16, (b1 % 16) * 4 + b2 / 64, b2 % 64;
    SextetsOfBytes(b0, b1, b2);
  }

  lemma DecodeOfEncodeGroup(a: Alphabet, strict: bool, g: Bytes, last: bool)
    requires 1 <= |g| <= 3 && (last || |g| == 3)
    ensures DecodeGroup(a, strict, EncodeGroup(a, g), last) == Some(g)
  {
    var w, x, y, z := EncodedGroupShape(a, g);
    DecodeOfSextets(a, strict, w, x, y, z, last);
  }

  lemma EncodeOfSextets(a: Alphabet, w: nat, x: nat, y: nat, z: nat)
    requires w < 64 && x < 64 && y < 64 && z < 64
    ensures var b0: Byte, b1: Byte, b2: Byte := w * 4 + x / 16, (x % 16) * 16 + y / 4, (y % 4) * 64 + z;
            && EncodeGroup(a, [b0, b1, b2]) == [SextetChar(a, w), SextetChar(a, x), SextetChar(a, y), SextetChar(a, z)]
            && (y % 4 == 0 ==> EncodeGroup(a, [b0, b1]) == [SextetChar(a, w), SextetChar(a, x), SextetChar(a, y), '='])
            && (x % 16 == 0 ==> EncodeGroup(a, [b0]) == [SextetChar(a, w), SextetChar(a, x), '=', '='])
  {
    BytesOfSextets(w, x, y, z);
  }

  /** What a strictly decodable group of four characters looks like, in sextets. */
  lemma StrictGroupShape(a: Alphabet, s: string, last: bool) returns (w: nat, x: nat, y: nat, z: nat)
    requires |s| == 4 && DecodeGroup(a, true, s, last).Some?
    ensures w < 64 && x < 64 && y < 64 && z < 64
    ensures var b0: Byte, b1: Byte, b2: Byte := w * 4 + x / 16, (x % 16) * 16 + y / 4, (y % 4) * 64 + z;
            var g := DecodeGroup(a, true, s, last).value;
            || (g == [b0, b1, b2] && s == [SextetChar(a, w), SextetChar(a, x), SextetChar(a, y), SextetChar(a, z)])
            || (g == [b0, b1] && y % 4 == 0 && s == [SextetChar(a, w), SextetChar(a, x), SextetChar(a, y), '='])
            || (g == [b0] && x % 16 == 0 && s == [SextetChar(a, w), SextetChar(a, x), '=', '='])
  {
    w, x, y, z := CharSextet(a, s[0]).value, CharSextet(a, s[1]).value, 0, 0;
    CharRoundTrip(a, s[0]);
    CharRoundTrip(a, s[1]);
    if s[2] != '=' {
      y := CharSextet(a, s[2]).value;
      CharRoundTrip(a, s[2]);
      if s[3] != '=' {
        z := CharSextet(a, s[3]).value;
        CharRoundTrip(a, s[3]);
      }
    }
  }

  lemma EncodeOfDecodeGroup(a: Alphabet, s: string, last: bool)
    requires |s| == 4 && DecodeGroup(a, true, s, last).Some?
    ensures EncodeGroup(a, DecodeGroup(a, true, s, last).value) == s
  {
    var w, x, y, z := StrictGroupShape(a, s, last);
    EncodeOfSextets(a, w, x, y, z);
  }

  lemma {:induction false} DecodeGroupsOfEncode(a: Alphabet, strict: bool, raw: Bytes)
    ensures DecodeGroups(a, strict, Encode(a, raw)) == Some(raw)
  {
    var s := Encode(a, raw);
    if raw == [] {
    } else if |raw| <= 3 {
      DecodeOfEncodeGroup(a, strict, raw, true);
      assert s[..4] == s && s[4..] == [];
      assert raw + [] == raw;
    } else {
      DecodeOfEncodeGroup(a, strict, raw[..3], false);
      DecodeGroupsOfEncode(a, strict, raw[3..]);
      EncodeIsPlain(a, raw[3..]);
      assert s[..4] == EncodeGroup(a, raw[..3]) && s[4..] == Encode(a, raw[3..]);
      assert raw[..3] + raw[3..] == raw;
    }
  }

  lemma {:induction false} EncodeOfDecodeGroups(a: Alphabet, s: string)
    requires DecodeGroups(a, true, s).Some?
    ensures Encode(a, DecodeGroups(a, true, s).value) == s
  {
    if s != [] {
      var g := DecodeGroup(a, true, s[..4], |s| == 4).value;
      var rest := DecodeGroups(a, true, s[4..]).value;
      EncodeOfDecodeGroup(a, s[..4], |s| == 4);
      EncodeOfDecodeGroups(a, s[4..]);
      assert s == s[..4] + s[4..];
      if |s| == 4 {
        assert s[4..] == [] && g + rest == g;
      } else {
        assert rest != [] && (g + rest)[..3] == g && (g + rest)[3..] == rest;
      }
    }
  }

  /** Both decoders undo the encoder on every byte string. */
  lemma DecodeOfEncode(a: Alphabet, strict: bool, raw: Bytes)
    ensures Decode(a, strict, Encode(a, raw)) == Some(raw)
  {
    EncodeIsPlain(a, raw);
    StripOfPlain(Encode(a, raw));
    DecodeGroupsOfEncode(a, strict, raw);
  }

  /** The strict decoder accepts a text for `raw` exactly when it is `raw`'s encoding, newlines aside. */
  lemma StrictDecodeIsInverse(a: Alphabet, s: string, raw: Bytes)
    ensures Decode(a, true, s) == Some(raw) <==> StripNewlines(s) == Encode(a, raw)
  {
    if Decode(a, true, s) == Some(raw) {
      EncodeOfDecodeGroups(a, StripNewlines(s));
    } else {
      DecodeGroupsOfEncode(a, true, raw);
    }
  }

  predicate InAlphabet(a: Alphabet, s: string) {
    forall i :: 0 <= i < |s| ==> CharSextet(a, s[i]).Some?
  }

  /** Groups of four characters of the alphabet, at most two of the last group replaced by padding. */
  predicate Padded(a: Alphabet, s: string) {
    && |s| % 4 == 0
    && (|| InAlphabet(a, s)
        || (|s| > 0 && s[|s| - 1] == '=' && InAlphabet(a, s[..|s| - 1]))
        || (|s| > 1 && s[|s| - 2..] == "==" && InAlphabet(a, s[..|s| - 2])))
  }

  /** The one character whose low bits the lenient decoder ignores: the last before padding. */
  predicate Loose(s: string, i: nat)
    requires i < |s|
  {
    i + 1 < |s| && s[i + 1] == '=' && s[i] != '='
  }

  lemma LenientGroup(a: Alphabet, s: string, last: bool)
    requires |s| == 4
    ensures DecodeGroup(a, false, s, last).Some? <==> InAlphabet(a, s) || (last && Padded(a, s))
    ensures DecodeGroup(a, false, s, last).Some? ==>
              var e := EncodeGroup(a, DecodeGroup(a, false, s, last).value);
              forall i :: 0 <= i < 4 && !Loose(s, i) ==> e[i] == s[i]
  {
    assert InAlphabet(a, s) <==>
        && CharSextet(a, s[0]).Some? && CharSextet(a, s[1]).Some?
        && CharSextet(a, s[2]).Some? && CharSextet(a, s[3]).Some?;
    LenientShape(a, s);
    if DecodeGroup(a, false, s, last).Some? {
      LenientValue(a, s, last);
    }
  }

  lemma LenientShape(a: Alphabet, s: string)
    requires |s| == 4
    ensures Padded(a, s) <==>
              CharSextet(a, s[0]).Some? && CharSextet(a, s[1]).Some?
              && ((s[2] == '=' && s[3] == '=')
                  || (CharSextet(a, s[2]).Some? && (s[3] == '=' || CharSextet(a, s[3]).Some?)))
  {
    assert s[..3][0] == s[0] && s[..3][1] == s[1] && s[..3][2] == s[2];
    assert s[..2][0] == s[0] && s[..2][1] == s[1];
    assert s[2..] == [s[2], s[3]];
  }

  /** What a leniently decodable group of four characters looks like, in sextets. */
  lemma LenientGroupShape(a: Alphabet, s: string, last: bool) returns (w: nat, x: nat, y: nat, z: nat)
    requires |s| == 4 && DecodeGroup(a, false, s, last).Some?
    ensures w < 64 && x < 64 && y < 64 && z < 64
    ensures var b0: Byte, b1: Byte, b2: Byte := w * 4 + x / 16, (x % 16) * 16 + y / 4, (y % 4) * 64 + z;
            var c0, c1, c2, c3 := SextetChar(a, w), SextetChar(a, x), SextetChar(a, y), SextetChar(a, z);
            var g := DecodeGroup(a, false, s, last).value;
            || (g == [b0, b1, b2] && s == [c0, c1, c2, c3])
            || (g == [b0, b1] && s == [c0, c1, c2, '='])
            || (g == [b0] && s == [c0, c1, '=', '='])
  {
    w, x, y, z := CharSextet(a, s[0]).value, CharSextet(a, s[1]).value, 0, 0;
    CharRoundTrip(a, s[0]);
    CharRoundTrip(a, s[1]);
    if s[2] != '=' {
      y := CharSextet(a, s[2]).value;
      CharRoundTrip(a, s[2]);
      if s[3] != '=' {
        z := CharSextet(a, s[3]).value;
        CharRoundTrip(a, s[3]);
      }
    }
    assert s == [s[0], s[1], s[2], s[3]];
    hide SextetChar;
  }

  /** Clearing the ignored bits does not change the bytes. */
  lemma ClearedOne(a: Alphabet, w: nat, x: nat)
    requires w < 64 && x < 64
    ensures var b0: Byte := w * 4 + x / 16;
            EncodeGroup(a, [b0]) == [SextetChar(a, w), SextetChar(a, x / 16 * 16), '=', '=']
  {
    hide EncodeGroup, SextetChar;
    EncodeOfSextets(a, w, x / 16 * 16, 0, 0);
  }

  lemma ClearedTwo(a: Alphabet, w: nat, x: nat, y: nat)
    requires w < 64 && x < 64 && y < 64
    ensures var b0: Byte, b1: Byte := w * 4 + x / 16, (x % 16) * 16 + y / 4;
            EncodeGroup(a, [b0, b1]) == [SextetChar(a, w), SextetChar(a, x), SextetChar(a, y / 4 * 4), '=']
  {
    hide EncodeGroup, SextetChar;
    EncodeOfSextets(a, w, x, y / 4 * 4, 0);
  }

  lemma LenientValue(a: Alphabet, s: string, last: bool)
    requires |s| == 4 && DecodeGroup(a, false, s, last).Some?
    ensures var e := EncodeGroup(a, DecodeGroup(a, false, s, last).value);
            forall i :: 0 <= i < 4 && !Loose(s, i) ==> e[i] == s[i]
  {
    hide EncodeGroup, SextetChar, DecodeGroup;
    var w, x, y, z := LenientGroupShape(a, s, last);
    var g := DecodeGroup(a, false, s, last).value;
    SextetRoundTrip(a, x);
    SextetRoundTrip(a, y);
    if |g| == 1 {
      ClearedOne(a, w, x);
    } else if |g| == 2 {
      ClearedTwo(a, w, x, y);
    } else {
      EncodeOfSextets(a, w, x, y, z);
    }
  }

  lemma InAlphabetConcat(a: Alphabet, s: string, t: string)
    ensures InAlphabet(a, s + t) <==> InAlphabet(a, s) && InAlphabet(a, t)
  {
    var all := s + t;
    assert forall i :: 0 <= i < |s| ==> all[i] == s[i];
    forall i | 0 <= i < |t|
      ensures t[i] == all[|s| + i]
    {
    }
  }

  lemma PaddedTail(a: Alphabet, s: string)
    requires |s| > 4
    ensures Padded(a, s) <==> InAlphabet(a, s[..4]) && Padded(a, s[4..])
  {
    hide InAlphabet;
    var h, t := s[..4], s[4..];
    assert s == h + t;
    InAlphabetConcat(a, h, t);
    if |t| % 4 == 0 {
      assert s[..|s| - 1] == h + t[..|t| - 1] && s[|s| - 1] == t[|t| - 1];
      assert s[..|s| - 2] == h + t[..|t| - 2] && s[|s| - 2..] == t[|t| - 2..];
      InAlphabetConcat(a, h, t[..|t| - 1]);
      InAlphabetConcat(a, h, t[..|t| - 2]);
    }
  }

  /** Exactly which texts the lenient decoder accepts, and that it alters nothing but ignored bits. */
  lemma {:induction false} LenientAccepts(a: Alphabet, s: string)
    ensures DecodeGroups(a, false, s).Some? <==> Padded(a, s)
    ensures DecodeGroups(a, false, s).Some? ==>
              var e := Encode(a, DecodeGroups(a, false, s).value);
              |e| == |s| && forall i :: 0 <= i < |s| && !Loose(s, i) ==> e[i] == s[i]
  {
    hide DecodeGroup, EncodeGroup, Encode, InAlphabet, Padded, Loose;
    if |s| < 4 {
      ShortIsPadded(a, s);
    } else if |s| == 4 {
      LenientGroup(a, s, true);
      OneGroup(a, s);
    } else {
      LenientGroup(a, s[..4], false);
      LenientAccepts(a, s[4..]);
      PaddedTail(a, s);
      if DecodeGroups(a, false, s).Some? {
        var g, rest := DecodeGroup(a, false, s[..4], false).value, DecodeGroups(a, false, s[4..]).value;
        LenientTail(a, s, g, rest);
      }
    }
  }

  lemma ShortIsPadded(a: Alphabet, s: string)
    requires |s| < 4
    ensures Padded(a, s) <==> s == []
    ensures Encode(a, []) == []
  {
  }

  lemma OneGroup(a: Alphabet, s: string)
    requires |s| == 4
    ensures DecodeGroups(a, false, s) == DecodeGroup(a, false, s, true)
    ensures InAlphabet(a, s) ==> Padded(a, s)
    ensures forall g: Bytes :: 1 <= |g| <= 3 ==> Encode(a, g) == EncodeGroup(a, g)
  {
    hide DecodeGroup, EncodeGroup, InAlphabet;
    assert s[..4] == s;
    assert DecodeGroups(a, false, s[4..]) == Some([]);
    var g := DecodeGroup(a, false, s, true);
    assert g.Some? ==> g.value + [] == g.value;
  }

  lemma LenientTail(a: Alphabet, s: string, g: Bytes, rest: Bytes)
    requires |s| > 4 && |g| == 3 && InAlphabet(a, s[..4])
    requires forall i :: 0 <= i < 4 && !Loose(s[..4], i) ==> EncodeGroup(a, g)[i] == s[..4][i]
    requires |Encode(a, rest)| == |s| - 4
    requires forall i :: 0 <= i < |s| - 4 && !Loose(s[4..], i) ==> Encode(a, rest)[i] == s[4..][i]
    ensures var e := Encode(a, g + rest);
            |e| == |s| && forall i :: 0 <= i < |s| && !Loose(s, i) ==> e[i] == s[i]
  {
    assert rest != [];
    assert (g + rest)[..3] == g && (g + rest)[3..] == rest;
    assert Encode(a, g + rest) == EncodeGroup(a, g) + Encode(a, rest);
    forall i | 0 <= i < |s| && !Loose(s, i)
      ensures (EncodeGroup(a, g) + Encode(a, rest))[i] == s[i]
    {
      if i < 4 {
        assert s[..4][i] == s[i];
      } else {
        assert s[4..][i - 4] == s[i];
      }
    }
  }

  /** PostgreSQL's `encode(raw, 'base64')`: the standard encoding broken into 76-character lines. */
  function WrapLines(s: string): string {
    if |s| <= 76 then s else s[..76] + "\n" + WrapLines(s[76..])
  }

  lemma {:induction false} StripOfConcat(s: string, t: string)
    ensures StripNewlines(s + t) == StripNewlines(s) + StripNewlines(t)
  {
    if s == [] {
      assert s + t == t;
    } else {
      StripOfConcat(s[1..], t);
      StripCons(s[0], s[1..]);
      StripCons(s[0], s[1..] + t);
      hide StripNewlines;
      assert s == [s[0]] + s[1..];
      assert s + t == [s[0]] + (s[1..] + t);
    }
  }

  lemma StripCons(c: char, s: string)
    ensures StripNewlines([c] + s) == (if IsNewline(c) then [] else [c]) + StripNewlines(s)
  {
    assert ([c] + s)[1..] == s;
  }

  lemma {:induction false} StripOfWrap(s: string)
    requires Plain(s)
    ensures StripNewlines(WrapLines(s)) == s
  {
    if |s| <= 76 {
      StripOfPlain(s);
    } else {
      StripOfConcat(s[..76] + "\n", WrapLines(s[76..]));
      StripOfConcat(s[..76], "\n");
      StripOfPlain(s[..76]);
      StripOfWrap(s[76..]);
    }
  }

  function PgEncode(raw: Bytes): string {
    WrapLines(Encode(Standard, raw))
  }

  /** The wrapping is invisible to Go's decoder, whatever the length of the value. */
  lemma DecodeOfPgEncode(strict: bool, raw: Bytes)
    ensures Decode(Standard, strict, PgEncode(raw)) == Some(raw)
  {
    EncodeIsPlain(Standard, raw);
    StripOfWrap(Encode(Standard, raw));
    DecodeGroupsOfEncode(Standard, strict, raw);
  }
}
