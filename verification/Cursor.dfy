/**
 * The textual page cursor `<height>|<hash>`: `makeTxCursor` in the handlers,
 * `decodeCursor` and `unmarshalCursorParam` in the database layer, and the hash
 * normaliser `parseTxHash`.
 */
module Cursor {
  import opened Results
  import opened Base64
  import opened Decimal

  /** The seek key (block_height, tx_hash). */
  datatype Key = Key(height: Uint64, hash: Bytes)

  datatype CursorError = BadHash | BadShape | BadHeight

  const SEPARATOR := '|'

  /** `strings.Split(s, "|")`. */
  function Split(s: string): (parts: seq<string>)
    ensures |parts| >= 1
  {
    if s == [] then [[]]
    else
      var rest := Split(s[1..]);
      if s[0] == SEPARATOR then [[]] + rest else [[s[0]] + rest[0]] + rest[1..]
  }

  function MakeTxCursor(height: Uint64, hashText: string): Result<string, CursorError> {
    match Decode(Standard, false, hashText)
    case None => Err(BadHash)
    case Some(raw) => Ok(FormatUint(height) + [SEPARATOR] + Encode(UrlSafe, raw))
  }

  function UnmarshalCursorParam(cursor: string): Result<(Uint64, string), CursorError> {
    var parts := Split(cursor);
    if |parts| != 2 then Err(BadShape)
    else
      match ParseUint(parts[0])
      case Err(_) => Err(BadHeight)
      case Ok(height) => Ok((height, parts[1]))
  }

  /** An absent cursor and an empty one both mean "from the head". */
  function DecodeCursor(cursor: Option<string>): Result<Option<Key>, CursorError> {
    if cursor.None? || cursor.value == "" then Ok(None)
    else
      match UnmarshalCursorParam(cursor.value)
      case Err(e) => Err(e)
      case Ok((height, text)) =>
        match Decode(UrlSafe, true, text)
        case None => Err(BadHash)
        case Some(raw) => Ok(Some(Key(height, raw)))
  }

  lemma {:induction false} SplitHasNoSeparator(s: string)
    requires SEPARATOR !in s
    ensures Split(s) == [s]
  {
    if s != [] {
      SplitHasNoSeparator(s[1..]);
      assert s == [s[0]] + s[1..];
    }
  }

  lemma {:induction false} SplitAtSeparator(s: string, t: string)
    requires SEPARATOR !in s && SEPARATOR !in t
    ensures Split(s + [SEPARATOR] + t) == [s, t]
  {
    var whole := s + [SEPARATOR] + t;
    if s == [] {
      assert whole[1..] == t;
      SplitHasNoSeparator(t);
    } else {
      assert whole[1..] == s[1..] + [SEPARATOR] + t;
      SplitAtSeparator(s[1..], t);
      assert s == [s[0]] + s[1..];
      assert Split(whole) == [[s[0]] + s[1..]] + [t];
    }
  }

  lemma {:induction false} SplitJoins(s: string)
    ensures |Split(s)| == 1 ==> s == Split(s)[0] && SEPARATOR !in s
    ensures |Split(s)| == 2 ==> s == Split(s)[0] + [SEPARATOR] + Split(s)[1]
  {
    if s != [] {
      SplitJoins(s[1..]);
      assert s == [s[0]] + s[1..];
    }
  }

  lemma FormatHasNoSeparator(n: nat)
    ensures SEPARATOR !in FormatUint(n)
  {
    FormatUintIsCanonical(n);
  }

  /** Text of a cursor for a key: what `MakeTxCursor` builds from any text of the hash. */
  function CursorText(k: Key): string {
    FormatUint(k.height) + [SEPARATOR] + Encode(UrlSafe, k.hash)
  }

  /**
   * `decodeCursor` undoes `makeTxCursor`, for every uint64 height and every hash text the
   * handler can decode, including PostgreSQL's line-broken one.
   */
  lemma DecodeOfMakeTxCursor(height: Uint64, hashText: string)
    ensures match Decode(Standard, false, hashText)
            case None => MakeTxCursor(height, hashText) == Err(BadHash)
            case Some(raw) =>
              && MakeTxCursor(height, hashText) == Ok(CursorText(Key(height, raw)))
              && MakeTxCursor(height, hashText).value != ""
              && DecodeCursor(Some(MakeTxCursor(height, hashText).value)) == Ok(Some(Key(height, raw)))
  {
    match Decode(Standard, false, hashText)
    case None =>
    case Some(raw) =>
      FormatHasNoSeparator(height);
      EncodeIsPlain(UrlSafe, raw);
      SplitAtSeparator(FormatUint(height), Encode(UrlSafe, raw));
      ParseUintOfFormat(height);
      DecodeOfEncode(UrlSafe, true, raw);
  }

  /** A height part and a hash part that name `k`: a digit run, and the one strict encoding, newlines aside. */
  predicate Names(p: string, q: string, k: Key) {
    && p != [] && AllDigits(p) && DigitsValue(p) == k.height
    && StripNewlines(q) == Encode(UrlSafe, k.hash) && SEPARATOR !in q
  }

  /** Exactly which texts decode to a key. */
  lemma DecodeCursorAccepts(cursor: string, k: Key)
    ensures DecodeCursor(Some(cursor)) == Ok(Some(k)) <==>
            exists p, q :: Names(p, q, k) && cursor == p + [SEPARATOR] + q
  {
    if DecodeCursor(Some(cursor)) == Ok(Some(k)) {
      var parts := Split(cursor);
      SplitJoins(cursor);
      StrictDecodeIsInverse(UrlSafe, parts[1], k.hash);
      SecondPartIsClean(cursor);
      assert Names(parts[0], parts[1], k);
    }
    if p, q :| Names(p, q, k) && cursor == p + [SEPARATOR] + q {
      SplitAtSeparator(p, q);
      StrictDecodeIsInverse(UrlSafe, q, k.hash);
    }
  }

  lemma {:induction false} SecondPartIsClean(s: string)
    requires |Split(s)| == 2
    ensures SEPARATOR !in Split(s)[1]
  {
    if s[0] == SEPARATOR {
      SplitJoins(s[1..]);
    } else {
      SecondPartIsClean(s[1..]);
    }
  }

  /** `strings.NewReplacer("-", "+", "_", "/").Replace(s)`. */
  function ToStandardAlphabet(s: string): string {
    if s == [] then []
    else
      var c := if s[0] == '-' then '+' else if s[0] == '_' then '/' else s[0];
      [c] + ToStandardAlphabet(s[1..])
  }

  function ParseTxHash(s: string): Result<string, CursorError> {
    match Decode(Standard, false, ToStandardAlphabet(s))
    case None => Err(BadHash)
    case Some(raw) => Ok(Encode(Standard, raw))
  }

  lemma {:induction false} NormaliseConcat(s: string, t: string)
    ensures ToStandardAlphabet(s + t) == ToStandardAlphabet(s) + ToStandardAlphabet(t)
  {
    if s == [] {
      assert s + t == t;
    } else {
      NormaliseConcat(s[1..], t);
      assert (s + t)[1..] == s[1..] + t;
    }
  }

  lemma NormaliseGroup(a: Alphabet, g: Bytes)
    requires 1 <= |g| <= 3
    ensures ToStandardAlphabet(EncodeGroup(a, g)) == EncodeGroup(Standard, g)
  {
    var s := EncodeGroup(a, g);
    assert s == [s[0]] + ([s[1]] + ([s[2]] + [s[3]]));
    NormaliseConcat([s[0]], [s[1]] + ([s[2]] + [s[3]]));
    NormaliseConcat([s[1]], [s[2]] + [s[3]]);
    NormaliseConcat([s[2]], [s[3]]);
  }

  lemma {:induction false} NormaliseEncoding(a: Alphabet, raw: Bytes)
    ensures ToStandardAlphabet(Encode(a, raw)) == Encode(Standard, raw)
  {
    if raw == [] {
    } else if |raw| <= 3 {
      NormaliseGroup(a, raw);
    } else {
      NormaliseGroup(a, raw[..3]);
      NormaliseEncoding(a, raw[3..]);
      NormaliseConcat(EncodeGroup(a, raw[..3]), Encode(a, raw[3..]));
    }
  }

  /** Either alphabet's text of a hash is accepted and becomes the one standard text; the result is stable. */
  lemma ParseTxHashNormalises(a: Alphabet, raw: Bytes)
    ensures ParseTxHash(Encode(a, raw)) == Ok(Encode(Standard, raw))
    ensures ParseTxHash(ParseTxHash(Encode(a, raw)).value) == ParseTxHash(Encode(a, raw))
  {
    NormaliseEncoding(a, raw);
    NormaliseEncoding(Standard, raw);
    DecodeOfEncode(Standard, false, raw);
  }

  /** What is left of a hash's text: standard alphabet, no line breaks. */
  function Normalised(s: string): string {
    StripNewlines(ToStandardAlphabet(s))
  }

  /**
   * Exactly which texts `parseTxHash` accepts: whole groups of four characters of either alphabet, at most two of the
   * last group padding, line breaks anywhere. The answer is that text in the standard alphabet, except that the
   * character before padding may change; it is always strictly decodable, and parsing it again gives it back.
   */
  lemma ParseTxHashAccepts(s: string)
    ensures ParseTxHash(s).Ok? <==> Padded(Standard, Normalised(s))
    ensures ParseTxHash(s).Ok? ==>
              var h, t := ParseTxHash(s).value, Normalised(s);
              && |h| == |t| && (forall i :: 0 <= i < |t| && !Loose(t, i) ==> h[i] == t[i])
              && Decode(Standard, true, h).Some? && ParseTxHash(h) == Ok(h)
  {
    hide Encode, DecodeGroups, ToStandardAlphabet, StripNewlines, Padded, Loose;
    LenientAccepts(Standard, Normalised(s));
    if ParseTxHash(s).Ok? {
      var raw := Decode(Standard, false, ToStandardAlphabet(s)).value;
      DecodeOfEncode(Standard, true, raw);
      ParseTxHashNormalises(Standard, raw);
    }
  }
}
