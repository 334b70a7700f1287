/** Signed session cookies: signing, verifying, percent-encoding, and rewriting the headers that carry them. */
module Cookies {
  import opened Common
  import opened Text
  import Base64

  const DOT: byte := 46
  const PERCENT: byte := 37
  const SEMICOLON: byte := 59
  const EQUALS: byte := 61
  const SPACE: byte := 32

  /** HMAC-SHA256 under one secret, of which only the length of its output matters here. */
  ghost predicate IsMac(mac: Bytes -> Bytes) {
    forall x :: |mac(x)| == 32
  }

  /** Decoding that replaces what is not UTF-8. */
  ghost predicate IsLossy(lossy: Bytes -> Bytes) {
    forall x :: ValidUtf8(lossy(x)) && (ValidUtf8(x) ==> lossy(x) == x) && (x != [] ==> lossy(x) != [])
  }

  // ---------------------------------------------------------------------------------------------
  // Signing
  // ---------------------------------------------------------------------------------------------

  function Sign(value: Bytes, mac: Bytes -> Bytes): Bytes {
    value + [DOT] + Base64.Encode(mac(value))
  }

  /** The last occurrence. */
  function LastIndex(s: Bytes, b: byte): (i: Option<nat>)
    ensures i.Some? ==> i.value < |s| && s[i.value] == b && b !in s[i.value + 1..]
    ensures i.None? ==> b !in s
  {
    if s == [] then None
    else if s[|s| - 1] == b then Some(|s| - 1)
    else LastIndex(s[..|s| - 1], b)
  }

  function Verify(value: Bytes, mac: Bytes -> Bytes): Option<Bytes> {
    match LastIndex(value, DOT)
    case None => None
    case Some(start) =>
      if start < 1 then None
      else
        var signedValue, signature := value[..start], value[start + 1..];
        if |signature| != 44 || signature[43] != EQUALS then None
        else if Base64.Decode(signature) != Some(mac(signedValue)) then None
        else Some(signedValue)
  }

  lemma {:induction false} LastIndexOfJoin(a: Bytes, b: byte, c: Bytes)
    requires b !in c
    ensures LastIndex(a + [b] + c, b) == Some(|a|)
  {
    var s := a + [b] + c;
    if c != [] {
      assert s[|s| - 1] == c[|c| - 1];
      LastIndexOfJoin(a, b, c[..|c| - 1]);
      assert s[..|s| - 1] == a + [b] + c[..|c| - 1];
    }
  }

  lemma CutAt(s: Bytes, i: nat)
    requires i < |s|
    ensures s == s[..i] + [s[i]] + s[i + 1..]
  {
  }

  /** A signature is 44 characters, the last a padding character, and holds no dot. */
  lemma SignatureShape(digest: Bytes)
    requires |digest| == 32
    ensures var signature := Base64.Encode(digest);
            |signature| == 44 && signature[43] == EQUALS && DOT !in signature
  {
    Base64.EncodedLength(digest);
    Base64.EncodedAlphabet(digest);
    assert !Base64.InAlphabet(DOT);
  }

  lemma CutJoin(a: Bytes, b: byte, c: Bytes)
    ensures (a + [b] + c)[..|a|] == a && (a + [b] + c)[|a| + 1..] == c
  {
  }

  lemma SignedVerifies(text: Bytes, mac: Bytes -> Bytes)
    requires IsMac(mac) && text != []
    ensures Verify(Sign(text, mac), mac) == Some(text)
  {
    var signature := Base64.Encode(mac(text));
    SignatureShape(mac(text));
    LastIndexOfJoin(text, DOT, signature);
    Base64.DecodeEncode(mac(text));
    CutJoin(text, DOT, signature);
    hide LastIndex, IsMac, Base64.Encode, Base64.Decode;
  }

  lemma VerifiedIsSigned(value: Bytes, mac: Bytes -> Bytes)
    requires Verify(value, mac).Some?
    ensures var text := Verify(value, mac).value; text != [] && value == Sign(text, mac)
  {
    hide LastIndex;
    var start := LastIndex(value, DOT).value;
    Base64.EncodeDecode(value[start + 1..]);
    CutAt(value, start);
  }

  /** Verifying accepts exactly the signed values of non-empty text, and returns the text. */
  lemma VerifyIffSigned(value: Bytes, text: Bytes, mac: Bytes -> Bytes)
    requires IsMac(mac)
    ensures Verify(value, mac) == Some(text) <==> text != [] && value == Sign(text, mac)
  {
    hide Verify, Sign, IsMac;
    if text != [] {
      SignedVerifies(text, mac);
    }
    if Verify(value, mac).Some? {
      VerifiedIsSigned(value, mac);
    }
  }

  // ---------------------------------------------------------------------------------------------
  // Percent-encoding
  // ---------------------------------------------------------------------------------------------

  predicate Unescaped(b: byte) {
    || 48 <= b <= 57 || 65 <= b <= 90 || 97 <= b <= 122
    || b in {45, 95, 46, 33, 126, 42, 39, 40, 41}
  }

  /** The upper-case hexadecimal digit. */
  function HexDigit(v: nat): byte
    requires v < 16
  {
    if v < 10 then 48 + v else 55 + v
  }

  function HexValue(b: byte): (v: Option<nat>)
    ensures v.Some? ==> v.value < 16
  {
    if 48 <= b <= 57 then Some(b - 48)
    else if 97 <= b <= 102 then Some(b - 87)
    else if 65 <= b <= 70 then Some(b - 55)
    else None
  }

  function EncodeByte(b: byte): Bytes {
    if Unescaped(b) then [b] else [PERCENT, HexDigit(b / 16), HexDigit(b % 16)]
  }

  /** The digits in their order, and the bytes besides letters and digits that encodeURIComponent leaves alone. */
  const HEX_DIGITS: Bytes := Ascii("0123456789ABCDEF")
  const LEFT_ALONE: Bytes := Ascii("-_.!~*'()")

  /** A letter, a digit or one of nine marks stands for itself; every other byte is its two digits behind a percent. */
  lemma EncodedByteSpelling(b: byte)
    ensures EncodeByte(b) ==
            if 'a' <= b as char <= 'z' || 'A' <= b as char <= 'Z' || '0' <= b as char <= '9' || b in LEFT_ALONE then [b]
            else [PERCENT, HEX_DIGITS[b / 16], HEX_DIGITS[b % 16]]
  {
    LeftAloneAre(b);
    DigitsAre(b / 16);
    DigitsAre(b % 16);
    hide HexDigit;
  }

  lemma LeftAloneAre(b: byte)
    ensures b in LEFT_ALONE <==> b in {45, 95, 46, 33, 126, 42, 39, 40, 41}
  {
    var marks := LEFT_ALONE;
    assert |marks| == 9 && marks[0] == 45 && marks[1] == 95 && marks[2] == 46 && marks[3] == 33 && marks[4] == 126;
    assert marks[5] == 42 && marks[6] == 39 && marks[7] == 40 && marks[8] == 41;
  }

  lemma DigitsAre(v: nat)
    requires v < 16
    ensures |HEX_DIGITS| == 16 && HEX_DIGITS[v] == HexDigit(v)
  {
    assert |HEX_DIGITS| == 16;
    assert forall i :: 0 <= i < 10 ==> "0123456789ABCDEF"[i] == (48 + i) as char;
    assert forall i :: 10 <= i < 16 ==> "0123456789ABCDEF"[i] == (55 + i) as char;
  }

  function Encode(value: Bytes): Bytes {
    if value == [] then [] else Encode(value[..|value| - 1]) + EncodeByte(value[|value| - 1])
  }

  method EncodeCookieValue(value: Bytes) returns (encoded: Bytes)
    ensures encoded == Encode(value)
  {
    encoded := [];
    for i := 0 to |value|
      invariant encoded == Encode(value[..i])
    {
      assert value[..i + 1][..i] == value[..i];
      if Unescaped(value[i]) {
        encoded := encoded + [value[i]];
      } else {
        encoded := encoded + [PERCENT, HexDigit(value[i] / 16), HexDigit(value[i] % 16)];
      }
    }
    assert value[..|value|] == value;
  }

  /** Whether an escape starts at `i`. */
  predicate EscapeAt(s: Bytes, i: nat) {
    i + 2 < |s| && s[i] == PERCENT && HexValue(s[i + 1]).Some? && HexValue(s[i + 2]).Some?
  }

  function DecodeFrom(s: Bytes, i: nat): Bytes
    decreases |s| - i
  {
    if i >= |s| then []
    else if EscapeAt(s, i) then
      [HexValue(s[i + 1]).value * 16 + HexValue(s[i + 2]).value] + DecodeFrom(s, i + 3)
    else [s[i]] + DecodeFrom(s, i + 1)
  }

  /** The bytes the escapes stand for; nothing when there is no percent sign at all. */
  function PercentDecode(value: Bytes, lossy: Bytes -> Bytes): Option<Bytes> {
    if PERCENT !in value then None else Some(lossy(DecodeFrom(value, 0)))
  }

  lemma PushThenRest(done: Bytes, b: byte, rest: Bytes)
    ensures done + ([b] + rest) == (done + [b]) + rest
  {
  }

  method DecodePercent(value: Bytes, lossy: Bytes -> Bytes) returns (r: Option<Bytes>)
    ensures r == PercentDecode(value, lossy)
  {
    if PERCENT !in value {
      return None;
    }
    var decoded: Bytes := [];
    var index := 0;
    while index < |value|
      invariant decoded + DecodeFrom(value, index) == DecodeFrom(value, 0)
    {
      if EscapeAt(value, index) {
        var b := HexValue(value[index + 1]).value * 16 + HexValue(value[index + 2]).value;
        PushThenRest(decoded, b, DecodeFrom(value, index + 3));
        decoded := decoded + [b];
        index := index + 3;
      } else {
        PushThenRest(decoded, value[index], DecodeFrom(value, index + 1));
        decoded := decoded + [value[index]];
        index := index + 1;
      }
    }
    assert decoded + [] == decoded;
    r := Some(lossy(decoded));
  }

  lemma HexRoundTrip(b: byte)
    ensures HexValue(HexDigit(b / 16)) == Some(b / 16) && HexValue(HexDigit(b % 16)) == Some(b % 16)
    ensures b / 16 * 16 + b % 16 == b
  {
  }

  lemma PercentIsEscaped(b: byte)
    ensures Unescaped(b) ==> b != PERCENT
  {
  }

  /** What a decoder in the middle of a text does with one encoded byte. */
  lemma EncodedByteIsDecoded(before: Bytes, b: byte, after: Bytes)
    ensures DecodeFrom(before + EncodeByte(b) + after, |before|) ==
            [b] + DecodeFrom(before + EncodeByte(b) + after, |before| + |EncodeByte(b)|)
  {
    HexRoundTrip(b);
    PercentIsEscaped(b);
    var s := before + EncodeByte(b) + after;
    MiddleSlice(before, EncodeByte(b), after);
    assert forall k :: 0 <= k < |EncodeByte(b)| ==> s[|before| + k] == EncodeByte(b)[k];
    hide HexValue, HexDigit;
  }

  lemma EncodeUnfolds(value: Bytes)
    requires value != []
    ensures Encode(value) == Encode(value[..|value| - 1]) + EncodeByte(value[|value| - 1])
  {
  }

  /** Encoded text is decoded byte by byte, whatever stands after it. */
  lemma {:induction false} DecodeOfEncoded(value: Bytes, after: Bytes)
    ensures DecodeFrom(Encode(value) + after, 0) == value + DecodeFrom(Encode(value) + after, |Encode(value)|)
  {
    if value == [] {
      assert [] + after == after;
    } else {
      var front, last := value[..|value| - 1], value[|value| - 1];
      var s := Encode(value) + after;
      EncodeUnfolds(value);
      hide EncodeByte, Encode, DecodeFrom;
      Reassociate(Encode(front), EncodeByte(last), after);
      DecodeOfEncoded(front, EncodeByte(last) + after);
      EncodedByteIsDecoded(Encode(front), last, after);
      PushThenRest(front, last, DecodeFrom(s, |Encode(value)|));
      assert front + [last] == value;
    }
  }

  lemma Reassociate(a: Bytes, b: Bytes, c: Bytes)
    ensures a + b + c == a + (b + c)
  {
  }

  /** Decoding undoes encoding, whether or not anything had to be escaped. */
  lemma PercentRoundTrip(value: Bytes, lossy: Bytes -> Bytes)
    requires ValidUtf8(value) && IsLossy(lossy)
    ensures var encoded := Encode(value);
            var decoded := PercentDecode(encoded, lossy);
            (if decoded.Some? then decoded.value else encoded) == value
  {
    EncodedDecodes(value);
    if PERCENT !in Encode(value) {
      PlainIsDecodedAsItself(Encode(value), 0);
    }
    hide Encode, DecodeFrom, ValidUtf8;
  }

  lemma EncodedDecodes(value: Bytes)
    ensures DecodeFrom(Encode(value), 0) == value
  {
    hide Encode;
    assert Encode(value) + [] == Encode(value);
    DecodeOfEncoded(value, []);
    assert value + [] == value;
  }

  lemma {:induction false} PlainIsDecodedAsItself(s: Bytes, i: nat)
    requires PERCENT !in s && i <= |s|
    ensures DecodeFrom(s, i) == s[i..]
    decreases |s| - i
  {
    if i < |s| {
      PlainIsDecodedAsItself(s, i + 1);
    }
  }

  // --- any text, encoded by this code or not ---

  const LOWER_DIGITS: Bytes := Ascii("0123456789abcdef")

  /** A hexadecimal digit in either case. */
  ghost predicate Digit(d: byte, v: nat) {
    && v < |HEX_DIGITS| == |LOWER_DIGITS| == 16
    && (d == HEX_DIGITS[v] || d == LOWER_DIGITS[v])
  }

  lemma LowerDigitsAre(v: nat)
    requires v < 16
    ensures |LOWER_DIGITS| == 16 && LOWER_DIGITS[v] == if v < 10 then 48 + v else 87 + v
  {
    assert |LOWER_DIGITS| == 16;
    assert forall i :: 0 <= i < 10 ==> "0123456789abcdef"[i] == (48 + i) as char;
    assert forall i :: 10 <= i < 16 ==> "0123456789abcdef"[i] == (87 + i) as char;
  }

  lemma DigitIsRead(d: byte, v: nat)
    ensures Digit(d, v) <==> HexValue(d) == Some(v)
  {
    if v < 16 {
      DigitsAre(v);
      LowerDigitsAre(v);
    }
  }

  /** How a text spells a byte: by itself, or by two digits behind a percent sign. */
  datatype Piece = Itself(b: byte) | Escape(b: byte, high: byte, low: byte)

  function Spelled(piece: Piece): Bytes {
    if piece.Itself? then [piece.b] else [PERCENT, piece.high, piece.low]
  }

  function Spelling(pieces: seq<Piece>): Bytes {
    if pieces == [] then [] else Spelled(pieces[0]) + Spelling(pieces[1..])
  }

  function Meaning(pieces: seq<Piece>): Bytes {
    if pieces == [] then [] else [pieces[0].b] + Meaning(pieces[1..])
  }

  ghost predicate TwoDigits(s: Bytes) {
    |s| >= 2 && (exists v :: Digit(s[0], v)) && exists v :: Digit(s[1], v)
  }

  /** An escape has the digits of its byte; a percent sign stands for itself only if no two digits follow. */
  ghost predicate Fits(piece: Piece, rest: Bytes) {
    match piece
    case Itself(b) => b == PERCENT ==> !TwoDigits(rest)
    case Escape(b, high, low) => Digit(high, b / 16) && Digit(low, b % 16)
  }

  ghost predicate WellSpelled(pieces: seq<Piece>) {
    pieces != [] ==> WellSpelled(pieces[1..]) && Fits(pieces[0], Spelling(pieces[1..]))
  }

  lemma TwoDigitsAreRead(s: Bytes)
    ensures TwoDigits(s) <==> |s| >= 2 && HexValue(s[0]).Some? && HexValue(s[1]).Some?
  {
    if |s| >= 2 {
      forall k, v: nat | 0 <= k < 2
        ensures Digit(s[k], v) <==> HexValue(s[k]) == Some(v)
      {
        DigitIsRead(s[k], v);
      }
      hide Digit, HexValue;
      forall k | 0 <= k < 2 && HexValue(s[k]).Some?
        ensures exists v :: Digit(s[k], v)
      {
        assert Digit(s[k], HexValue(s[k]).value);
      }
    }
  }

  lemma PieceIsDecoded(before: Bytes, piece: Piece, rest: Bytes)
    requires Fits(piece, rest)
    ensures var s := before + Spelled(piece) + rest;
            DecodeFrom(s, |before|) == [piece.b] + DecodeFrom(s, |before + Spelled(piece)|)
  {
    TwoDigitsAreRead(rest);
    if piece.Escape? {
      DigitIsRead(piece.high, piece.b / 16);
      DigitIsRead(piece.low, piece.b % 16);
    }
    var s, front := before + Spelled(piece) + rest, Spelled(piece);
    assert forall k :: 0 <= k < |front| ==> s[|before| + k] == front[k];
    assert forall k :: 0 <= k < |rest| ==> s[|before| + |front| + k] == rest[k];
    hide Digit, HexValue, TwoDigits;
  }

  /** Decoding gives each piece of a text the byte it stands for, whatever stands in front. */
  lemma {:induction false} PiecesAreDecoded(before: Bytes, pieces: seq<Piece>)
    requires WellSpelled(pieces)
    ensures DecodeFrom(before + Spelling(pieces), |before|) == Meaning(pieces)
    decreases |pieces|
  {
    if pieces != [] {
      hide DecodeFrom, Fits, Spelled;
      var front, rest := Spelled(pieces[0]), Spelling(pieces[1..]);
      PieceIsDecoded(before, pieces[0], rest);
      PiecesAreDecoded(before + front, pieces[1..]);
      assert Spelling(pieces) == front + rest;
      assert before + (front + rest) == before + front + rest;
    }
  }

  /** The escape two digits make behind a percent sign. */
  lemma EscapeOf(high: byte, low: byte, rest: Bytes) returns (piece: Piece)
    requires HexValue(high).Some? && HexValue(low).Some?
    ensures Spelled(piece) == [PERCENT, high, low] && Fits(piece, rest)
  {
    var h, l := HexValue(high).value, HexValue(low).value;
    DigitIsRead(high, h);
    DigitIsRead(low, l);
    hide Digit, HexValue, TwoDigits;
    piece := Escape(h * 16 + l, high, low);
    assert (h * 16 + l) / 16 == h && (h * 16 + l) % 16 == l;
  }

  /** The piece a text begins with. */
  lemma FirstPiece(s: Bytes) returns (piece: Piece)
    requires s != []
    ensures var n := |Spelled(piece)|; 0 < n <= |s| && s[..n] == Spelled(piece) && Fits(piece, s[n..])
  {
    TwoDigitsAreRead(s[1..]);
    hide Digit, HexValue, TwoDigits;
    if s[0] == PERCENT && TwoDigits(s[1..]) {
      piece := EscapeOf(s[1], s[2], s[3..]);
      hide Fits, Spelled;
      assert s[..3] == [PERCENT, s[1], s[2]];
    } else {
      piece := Itself(s[0]);
    }
  }

  /** Every text is made of such pieces, so that this is how every text is decoded. */
  lemma {:induction false} EveryTextIsSpelled(s: Bytes) returns (pieces: seq<Piece>)
    ensures WellSpelled(pieces) && Spelling(pieces) == s
    decreases |s|
  {
    pieces := [];
    if s != [] {
      var first := FirstPiece(s);
      var n := |Spelled(first)|;
      var rest := EveryTextIsSpelled(s[n..]);
      hide Spelled, Fits;
      pieces := [first] + rest;
      assert pieces[1..] == rest;
      assert s == s[..n] + s[n..];
    }
  }

  /** What a text decodes to: what its pieces mean, and nothing at all without a percent sign. */
  lemma PercentDecodeReadsPieces(value: Bytes, lossy: Bytes -> Bytes) returns (pieces: seq<Piece>)
    ensures WellSpelled(pieces) && Spelling(pieces) == value
    ensures PercentDecode(value, lossy) == if PERCENT in value then Some(lossy(Meaning(pieces))) else None
  {
    pieces := EveryTextIsSpelled(value);
    PiecesAreDecoded([], pieces);
    hide DecodeFrom, WellSpelled, Spelling, Meaning;
    assert [] + value == value;
  }

  // ---------------------------------------------------------------------------------------------
  // Normalizing a cookie's value
  // ---------------------------------------------------------------------------------------------

  /** The token in a cookie: percent-decoded if it has escapes, and without its signature if that is right. */
  function Normalize(value: Bytes, mac: Bytes -> Bytes, lossy: Bytes -> Bytes): Bytes {
    var decoded := PercentDecode(value, lossy);
    var plain := if decoded.Some? then decoded.value else value;
    if Verify(plain, mac).Some? then Verify(plain, mac).value else plain
  }

  lemma SignatureIsText(digest: Bytes)
    requires |digest| == 32
    ensures ValidUtf8(Base64.Encode(digest))
  {
    Base64.EncodedAlphabet(digest);
    AsciiIsValid(Base64.Encode(digest));
  }

  lemma SignedIsText(text: Bytes, mac: Bytes -> Bytes)
    requires ValidUtf8(text) && IsMac(mac)
    ensures ValidUtf8(Sign(text, mac))
  {
    SignatureIsText(mac(text));
    AsciiIsValid([DOT]);
    hide ValidUtf8;
    ValidConcat(text, [DOT]);
    ValidConcat(text + [DOT], Base64.Encode(mac(text)));
  }

  /** Normalizing encoded text removes the encoding, and a right signature, and nothing else. */
  lemma NormalizeEncoded(text: Bytes, mac: Bytes -> Bytes, lossy: Bytes -> Bytes)
    requires ValidUtf8(text) && IsLossy(lossy)
    ensures Normalize(Encode(text), mac, lossy) == if Verify(text, mac).Some? then Verify(text, mac).value else text
  {
    PercentRoundTrip(text, lossy);
    hide Encode, PercentDecode, Verify;
  }

  /** The round trip: a token that was signed and encoded is itself again, dots, percent signs and all. */
  lemma CookieRoundTrip(token: Bytes, mac: Bytes -> Bytes, lossy: Bytes -> Bytes)
    requires token != [] && ValidUtf8(token) && IsMac(mac) && IsLossy(lossy)
    ensures Normalize(Encode(Sign(token, mac)), mac, lossy) == token
  {
    hide Encode, Sign, Verify, Normalize, IsMac, IsLossy, ValidUtf8;
    SignedIsText(token, mac);
    SignedVerifies(token, mac);
    NormalizeEncoded(Sign(token, mac), mac, lossy);
  }

  lemma VerifiedIsText(value: Bytes, mac: Bytes -> Bytes)
    requires ValidUtf8(value) && Verify(value, mac).Some?
    ensures ValidUtf8(Verify(value, mac).value)
  {
    VerifiedIsSigned(value, mac);
    var text := Verify(value, mac).value;
    ValidBefore(text, DOT, Base64.Encode(mac(text)));
  }

  lemma {:induction false} DecodedIsNotEmpty(s: Bytes)
    ensures s != [] ==> DecodeFrom(s, 0) != []
  {
  }

  lemma NormalizedIsNotEmpty(value: Bytes, mac: Bytes -> Bytes, lossy: Bytes -> Bytes)
    requires value != [] && IsLossy(lossy)
    ensures Normalize(value, mac, lossy) != []
  {
    DecodedIsNotEmpty(value);
    var decoded := PercentDecode(value, lossy);
    var plain := if decoded.Some? then decoded.value else value;
    assert plain != [] by { hide DecodeFrom, ValidUtf8, Verify; }
    if Verify(plain, mac).Some? {
      VerifiedIsSigned(plain, mac);
    }
    hide Verify, ValidUtf8, PercentDecode;
  }

  lemma NormalizedIsText(value: Bytes, mac: Bytes -> Bytes, lossy: Bytes -> Bytes)
    requires ValidUtf8(value) && IsLossy(lossy)
    ensures ValidUtf8(Normalize(value, mac, lossy))
  {
    var decoded := PercentDecode(value, lossy);
    var plain := if decoded.Some? then decoded.value else value;
    assert ValidUtf8(plain) by { hide DecodeFrom, ValidUtf8, Verify; }
    if Verify(plain, mac).Some? {
      VerifiedIsText(plain, mac);
    }
    hide Verify, ValidUtf8, PercentDecode;
  }

  // ---------------------------------------------------------------------------------------------
  // Cookie headers
  // ---------------------------------------------------------------------------------------------

  /** The value of this cookie in one piece of the header. */
  function CookieIn(piece: Bytes, name: Bytes): Option<Bytes> {
    match SplitOnce(Trim(piece), EQUALS)
    case None => None
    case Some((key, value)) => if Trim(key) == name && Trim(value) != [] then Some(Trim(value)) else None
  }

  function FirstCookie(pieces: seq<Bytes>, name: Bytes): Option<Bytes> {
    if pieces == [] then None
    else if CookieIn(pieces[0], name).Some? then CookieIn(pieces[0], name)
    else FirstCookie(pieces[1..], name)
  }

  function CookieValue(header: Bytes, name: Bytes): Option<Bytes> {
    FirstCookie(Split(header, SEMICOLON), name)
  }

  method FindCookie(header: Bytes, name: Bytes) returns (r: Option<Bytes>)
    ensures r == CookieValue(header, name)
  {
    var pieces := Split(header, SEMICOLON);
    for i := 0 to |pieces|
      invariant FirstCookie(pieces, name) == FirstCookie(pieces[i..], name)
    {
      var split := SplitOnce(Trim(pieces[i]), EQUALS);
      if split.None? {
        continue;
      }
      var (key, value) := split.value;
      if Trim(key) == name && Trim(value) != [] {
        return Some(Trim(value));
      }
    }
    r := None;
  }

  /** A cookie name as the service uses them: visible ASCII without separators. */
  predicate PlainName(name: Bytes) {
    name != [] && forall i :: 0 <= i < |name| ==> 33 <= name[i] <= 126 && name[i] != SEMICOLON && name[i] != EQUALS
  }

  /** Characters a cookie value is encoded to. */
  predicate PlainValue(value: Bytes) {
    forall i :: 0 <= i < |value| ==> 33 <= value[i] <= 126 && value[i] != SEMICOLON && value[i] != EQUALS
  }

  lemma {:induction false} EncodedIsPlain(value: Bytes)
    ensures PlainValue(Encode(value)) && (value != [] ==> Encode(value) != [])
  {
    if value != [] {
      EncodedIsPlain(value[..|value| - 1]);
      EncodedByteIsPlain(value[|value| - 1]);
    }
  }

  lemma EncodedByteIsPlain(b: byte)
    ensures PlainValue(EncodeByte(b)) && EncodeByte(b) != []
  {
  }

  lemma PlainIsTrimmed(s: Bytes)
    requires PlainValue(s)
    ensures Trim(s) == s
  {
    if s != [] {
      TrimmedByEnds(s);
    }
    TrimOfTrimmed(s);
  }

  function Pair(name: Bytes, value: Bytes): Bytes {
    name + [EQUALS] + value
  }

  /** A rendered pair is its name's cookie and nobody else's. */
  lemma PairIsFound(name: Bytes, value: Bytes, other: Bytes)
    requires PlainName(name) && PlainValue(value) && value != []
    ensures SEMICOLON !in Pair(name, value)
    ensures CookieIn(Pair(name, value), other) == if other == name then Some(value) else None
  {
    var pair := Pair(name, value);
    TrimmedByEnds(pair);
    TrimOfTrimmed(pair);
    SplitOnceAt(name, EQUALS, value);
    PlainIsTrimmed(name);
    PlainIsTrimmed(value);
    hide Trim, SplitOnce;
  }

  lemma {:induction false} SplitAfterSpace(s: Bytes)
    ensures Split([SPACE] + s, SEMICOLON) ==
            [[SPACE] + Split(s, SEMICOLON)[0]] + Split(s, SEMICOLON)[1..]
  {
    assert ([SPACE] + s)[1..] == s;
  }

  /** Putting a pair in front of a header makes it the first hit for its name and hides no other cookie. */
  lemma PrependedPairComesFirst(name: Bytes, value: Bytes, header: Bytes, other: Bytes)
    requires PlainName(name) && PlainValue(value) && value != []
    ensures CookieValue(Pair(name, value) + [SEMICOLON] + ([SPACE] + header), other) ==
            if other == name then Some(value) else CookieValue(header, other)
  {
    PairIsFound(name, value, other);
    SplitFirst(Pair(name, value), SEMICOLON, [SPACE] + header);
    SplitAfterSpace(header);
    var pieces := Split(header, SEMICOLON);
    TrimDropsLeadingSpace(pieces[0]);
    var rest := [[SPACE] + pieces[0]] + pieces[1..];
    assert CookieIn(rest[0], other) == CookieIn(pieces[0], other);
    hide CookieIn, Split, Pair;
    assert rest[1..] == pieces[1..];
    assert FirstCookie(rest, other) == FirstCookie(pieces, other);
    var all := [Pair(name, value)] + rest;
    assert all[0] == Pair(name, value) && all[1..] == rest;
  }

  // ---------------------------------------------------------------------------------------------
  // Aliases of the session cookie
  // ---------------------------------------------------------------------------------------------

  const NODE_NAME: Bytes := Ascii("better-auth.session_token")
  const NODE_DASH_NAME: Bytes := Ascii("better-auth-session_token")
  const RUST_NAME: Bytes := Ascii("better-auth.session-token")
  const SECURE_PREFIX: Bytes := Ascii("__Secure-")
  const HOST_PREFIX: Bytes := Ascii("__Host-")

  function PushUnique(names: seq<Bytes>, name: Bytes): seq<Bytes> {
    if name in names then names else names + [name]
  }

  function WithPrefixes(names: seq<Bytes>, name: Bytes): seq<Bytes> {
    PushUnique(PushUnique(PushUnique(names, name), SECURE_PREFIX + name), HOST_PREFIX + name)
  }

  function Aliases(sessionName: Bytes): seq<Bytes> {
    WithPrefixes(WithPrefixes(WithPrefixes([sessionName], NODE_NAME), NODE_DASH_NAME), RUST_NAME)
  }

  method SessionCookieAliases(sessionName: Bytes) returns (names: seq<Bytes>)
    ensures names == Aliases(sessionName)
  {
    names := PushUnique([], sessionName);
    var known := [NODE_NAME, NODE_DASH_NAME, RUST_NAME];
    for i := 0 to 3
      invariant i == 0 ==> names == [sessionName]
      invariant i == 1 ==> names == WithPrefixes([sessionName], NODE_NAME)
      invariant i == 2 ==> names == WithPrefixes(WithPrefixes([sessionName], NODE_NAME), NODE_DASH_NAME)
      invariant i == 3 ==> names == Aliases(sessionName)
    {
      names := PushUnique(names, known[i]);
      names := PushUnique(names, SECURE_PREFIX + known[i]);
      names := PushUnique(names, HOST_PREFIX + known[i]);
    }
  }

  ghost predicate Distinct(names: seq<Bytes>) {
    forall i, j :: 0 <= i < j < |names| ==> names[i] != names[j]
  }

  lemma PushUniqueKeeps(names: seq<Bytes>, name: Bytes)
    requires names != [] && Distinct(names)
    ensures var names' := PushUnique(names, name);
            && Distinct(names') && names' != [] && names'[0] == names[0]
            && forall x :: x in names' <==> x in names || x == name
  {
  }

  lemma WithPrefixesKeeps(names: seq<Bytes>, name: Bytes)
    requires names != [] && Distinct(names)
    ensures var names' := WithPrefixes(names, name);
            && Distinct(names') && names' != [] && names'[0] == names[0]
            && forall x :: x in names' <==> x in names || x in {name, SECURE_PREFIX + name, HOST_PREFIX + name}
  {
    hide PushUnique, Distinct;
    PushUniqueKeeps(names, name);
    var one := PushUnique(names, name);
    PushUniqueKeeps(one, SECURE_PREFIX + name);
    PushUniqueKeeps(PushUnique(one, SECURE_PREFIX + name), HOST_PREFIX + name);
  }

  /** The session's own name is tried first; the others are the three known names, plain and with either prefix. */
  lemma AliasesAreTheKnownNames(sessionName: Bytes)
    ensures var names := Aliases(sessionName);
            && Distinct(names) && names != [] && names[0] == sessionName
            && forall x :: x in names <==>
                 || x == sessionName
                 || x in {NODE_NAME, SECURE_PREFIX + NODE_NAME, HOST_PREFIX + NODE_NAME}
                 || x in {NODE_DASH_NAME, SECURE_PREFIX + NODE_DASH_NAME, HOST_PREFIX + NODE_DASH_NAME}
                 || x in {RUST_NAME, SECURE_PREFIX + RUST_NAME, HOST_PREFIX + RUST_NAME}
  {
    var start := [sessionName];
    assert Distinct(start);
    hide WithPrefixes, Distinct;
    WithPrefixesKeeps(start, NODE_NAME);
    WithPrefixesKeeps(WithPrefixes(start, NODE_NAME), NODE_DASH_NAME);
    WithPrefixesKeeps(WithPrefixes(WithPrefixes(start, NODE_NAME), NODE_DASH_NAME), RUST_NAME);
  }

  // ---------------------------------------------------------------------------------------------
  // Request headers
  // ---------------------------------------------------------------------------------------------

  /** The value of the first of these cookies that the header has. */
  function FirstOf(header: Bytes, names: seq<Bytes>): Option<Bytes> {
    if names == [] then None
    else if CookieValue(header, names[0]).Some? then CookieValue(header, names[0])
    else FirstOf(header, names[1..])
  }

  /** The session cookie under its own name, decoded and unsigned, in front of what the header was. */
  function NormalizeHeader(header: Bytes, sessionName: Bytes, mac: Bytes -> Bytes, lossy: Bytes -> Bytes):
      Option<Bytes> {
    match FirstOf(header, Aliases(sessionName))
    case None => None
    case Some(value) =>
      Some(Pair(sessionName, Encode(Normalize(value, mac, lossy))) + [SEMICOLON] + ([SPACE] + header))
  }

  const COOKIE: Bytes := Ascii("cookie")

  predicate IsCookieKey(key: Bytes) {
    EqualsIgnoringCase(key, COOKIE)
  }

  const UPPER_COOKIE: Bytes := Ascii("COOKIE")

  /** The header's name in any case, and nothing else. */
  lemma CookieKeyIsAnySpelling(key: Bytes)
    ensures |COOKIE| == 6 == |UPPER_COOKIE|
    ensures IsCookieKey(key) <==> |key| == 6 && forall i :: 0 <= i < 6 ==> key[i] in {COOKIE[i], UPPER_COOKIE[i]}
  {
    var lower, upper := COOKIE, UPPER_COOKIE;
    assert |lower| == 6 == |upper|;
    assert forall i :: 0 <= i < 6 ==> 97 <= lower[i] <= 122 && upper[i] == lower[i] - 32;
    assert |Lower(key)| == |key| && |Lower(lower)| == 6;
    assert forall i :: 0 <= i < 6 ==> Lower(lower)[i] == lower[i];
  }

  /** The map's order is not fixed: the key used is any that spells `cookie`; the new value goes to `cookie`. */
  method NormalizeSessionCookieHeader(
    headers: map<Bytes, Bytes>, sessionName: Bytes, mac: Bytes -> Bytes, lossy: Bytes -> Bytes)
    returns (r: map<Bytes, Bytes>, used: Option<Bytes>)
    ensures used.None? ==> r == headers && forall key :: key in headers ==> !IsCookieKey(key)
    ensures used.Some? ==>
              && used.value in headers && IsCookieKey(used.value)
              && var normalized := NormalizeHeader(headers[used.value], sessionName, mac, lossy);
                 r == if normalized.Some? then headers[COOKIE := normalized.value] else headers
  {
    if forall key <- headers.Keys :: !IsCookieKey(key) {
      return headers, None;
    }
    var key :| key in headers.Keys && IsCookieKey(key);
    used := Some(key);
    var aliases := SessionCookieAliases(sessionName);
    var header := headers[key];
    hide CookieValue, Encode, Normalize, IsCookieKey, Pair, FirstOf;
    for i := 0 to |aliases|
      invariant FirstOf(header, aliases) == FirstOf(header, aliases[i..])
    {
      FirstOfUnfolds(header, aliases, i);
      var value := FindCookie(header, aliases[i]);
      if value.Some? {
        var token := EncodeCookieValue(Normalize(value.value, mac, lossy));
        r := headers[COOKIE := Pair(sessionName, token) + [SEMICOLON] + ([SPACE] + header)];
        return;
      }
    }
    FirstOfNone(header, aliases[|aliases|..]);
    r := headers;
  }

  lemma FirstOfUnfolds(header: Bytes, names: seq<Bytes>, i: nat)
    requires i < |names|
    ensures FirstOf(header, names[i..]) ==
            if CookieValue(header, names[i]).Some? then CookieValue(header, names[i])
            else FirstOf(header, names[i + 1..])
  {
    assert names[i..][1..] == names[i + 1..];
  }

  lemma FirstOfNone(header: Bytes, names: seq<Bytes>)
    requires names == []
    ensures FirstOf(header, names) == None
  {
  }

  lemma {:induction false} FoundCookieIsTrimmed(pieces: seq<Bytes>, name: Bytes)
    requires FirstCookie(pieces, name).Some?
    ensures FirstCookie(pieces, name).value != []
  {
    if CookieIn(pieces[0], name).None? {
      FoundCookieIsTrimmed(pieces[1..], name);
    }
  }

  lemma {:induction false} FirstOfIsNotEmpty(header: Bytes, names: seq<Bytes>)
    requires FirstOf(header, names).Some?
    ensures FirstOf(header, names).value != []
  {
    if CookieValue(header, names[0]).Some? {
      FoundCookieIsTrimmed(Split(header, SEMICOLON), names[0]);
    } else {
      FirstOfIsNotEmpty(header, names[1..]);
    }
  }

  /** After normalizing, the session cookie's first hit is the encoded token, and every other cookie reads as before. */
  lemma NormalizedHeaderReads(
    header: Bytes, sessionName: Bytes, mac: Bytes -> Bytes, lossy: Bytes -> Bytes, other: Bytes)
    requires PlainName(sessionName) && IsLossy(lossy) && FirstOf(header, Aliases(sessionName)).Some?
    ensures var normalized := NormalizeHeader(header, sessionName, mac, lossy);
            var token := Normalize(FirstOf(header, Aliases(sessionName)).value, mac, lossy);
            && normalized.Some?
            && CookieValue(normalized.value, other) ==
               if other == sessionName then Some(Encode(token)) else CookieValue(header, other)
  {
    hide Aliases, FirstOf, CookieValue, Encode, Normalize, PlainName, PlainValue, IsLossy;
    FirstOfIsNotEmpty(header, Aliases(sessionName));
    var value := FirstOf(header, Aliases(sessionName)).value;
    NormalizedIsNotEmpty(value, mac, lossy);
    EncodedIsPlain(Normalize(value, mac, lossy));
    PrependedPairComesFirst(sessionName, Encode(Normalize(value, mac, lossy)), header, other);
  }

  /** End to end: a request with the signed cookie reaches the service with the bare token. */
  lemma SignedCookieArrivesAsToken(
    header: Bytes, sessionName: Bytes, token: Bytes, mac: Bytes -> Bytes, lossy: Bytes -> Bytes)
    requires PlainName(sessionName) && IsMac(mac) && IsLossy(lossy) && token != [] && ValidUtf8(token)
    requires CookieValue(header, sessionName) == Some(Encode(Sign(token, mac)))
    ensures var normalized := NormalizeHeader(header, sessionName, mac, lossy);
            normalized.Some? && CookieValue(normalized.value, sessionName) == Some(Encode(token))
  {
    AliasesAreTheKnownNames(sessionName);
    assert FirstOf(header, Aliases(sessionName)) == CookieValue(header, sessionName);
    CookieRoundTrip(token, mac, lossy);
    NormalizedHeaderReads(header, sessionName, mac, lossy, sessionName);
    hide *;
  }

  /**
   * Other spellings of the header name are left in the map with their old value, so the service is certain to read the
   * normalized header exactly when the request spelled the name in lower case only.
   */
  lemma OnlyLowerCaseKeysAreReplaced(headers: map<Bytes, Bytes>, used: Bytes, normalized: Bytes)
    requires used in headers && IsCookieKey(used)
    ensures var r := headers[COOKIE := normalized];
            && (forall key :: key in r && IsCookieKey(key) ==>
                  key == COOKIE || (key in headers && r[key] == headers[key]))
            && ((forall key :: key in r && IsCookieKey(key) ==> key == COOKIE) <==>
                (forall key :: key in headers && IsCookieKey(key) ==> key == COOKIE))
  {
    hide IsCookieKey;
    var r := headers[COOKIE := normalized];
    assert forall key :: key in headers ==> key in r;
    assert forall key :: key in r && key != COOKIE ==> key in headers;
  }

  const CAPITAL_COOKIE: Bytes := Ascii("Cookie")

  /** For instance the usual spelling: the request reaches the service with both headers. */
  lemma CapitalCookieStays(header: Bytes, normalized: Bytes)
    ensures IsCookieKey(CAPITAL_COOKIE)
    ensures var r := map[CAPITAL_COOKIE := header][COOKIE := normalized];
            r.Keys == {CAPITAL_COOKIE, COOKIE} && r[CAPITAL_COOKIE] == header && CAPITAL_COOKIE != COOKIE
  {
    assert |CAPITAL_COOKIE| == |COOKIE| == 6;
    assert CAPITAL_COOKIE[0] == 67 && COOKIE[0] == 99;
    assert CAPITAL_COOKIE[1..] == COOKIE[1..];
    assert Lower(CAPITAL_COOKIE) == Lower(COOKIE);
  }

  // ---------------------------------------------------------------------------------------------
  // Response headers
  // ---------------------------------------------------------------------------------------------

  /** The part of a Set-Cookie header before its attributes, and the attributes. */
  function Attributes(header: Bytes): (Bytes, Bytes) {
    match SplitOnce(header, SEMICOLON)
    case None => (header, [])
    case Some(split) => split
  }

  function SetCookie(name: Bytes, value: Bytes, attributes: Bytes): Bytes {
    if attributes == [] then Pair(name, value) else Pair(name, value) + [SEMICOLON] + attributes
  }

  /** The value to send for a session cookie: nothing for an empty one, which deletes the cookie. */
  function Signed(value: Bytes, mac: Bytes -> Bytes, lossy: Bytes -> Bytes): Bytes {
    if value == [] then [] else Encode(Sign(Normalize(value, mac, lossy), mac))
  }

  /** A Set-Cookie header of the session cookie, under its one name and signed; other headers are left alone. */
  function Rewrite(header: Bytes, sessionName: Bytes, mac: Bytes -> Bytes, lossy: Bytes -> Bytes): Option<Bytes> {
    var (nameValue, attributes) := Attributes(header);
    match SplitOnce(nameValue, EQUALS)
    case None => None
    case Some((name, value)) =>
      if Trim(name) !in Aliases(sessionName) then None
      else Some(SetCookie(sessionName, Signed(Trim(value), mac, lossy), attributes))
  }

  /** What stands behind the first semicolon is kept as it is and decides nothing. */
  lemma AttributesAreKept(
    nameValue: Bytes, attributes: Bytes, sessionName: Bytes, mac: Bytes -> Bytes, lossy: Bytes -> Bytes)
    requires SEMICOLON !in nameValue
    ensures var whole := Rewrite(nameValue + [SEMICOLON] + attributes, sessionName, mac, lossy);
            var bare := Rewrite(nameValue, sessionName, mac, lossy);
            && (whole.Some? <==> bare.Some?)
            && (whole.Some? ==>
                  whole.value == bare.value + if attributes == [] then [] else [SEMICOLON] + attributes)
  {
    SplitOnceAt(nameValue, SEMICOLON, attributes);
    SplitOnceIff(nameValue, SEMICOLON);
    hide SplitOnce, Trim, Aliases, Signed;
  }

  /**
   * A cookie of another name, or without `=`, is left alone. The session cookie, under whichever of its names, is sent
   * under its own: an empty value stays empty, and any other is the token it stood for, signed and encoded.
   */
  lemma SessionPairIsSigned(
    name: Bytes, value: Bytes, sessionName: Bytes, mac: Bytes -> Bytes, lossy: Bytes -> Bytes)
    requires SEMICOLON !in name && EQUALS !in name && SEMICOLON !in value
    ensures Rewrite(name, sessionName, mac, lossy) == None
    ensures Rewrite(Pair(name, value), sessionName, mac, lossy) ==
            if Trim(name) !in Aliases(sessionName) then None
            else if Trim(value) == [] then Some(Pair(sessionName, []))
            else Some(Pair(sessionName, Encode(Sign(Normalize(Trim(value), mac, lossy), mac))))
  {
    SplitOnceIff(name, SEMICOLON);
    SplitOnceIff(name, EQUALS);
    SplitOnceIff(Pair(name, value), SEMICOLON);
    SplitOnceAt(name, EQUALS, value);
    hide SplitOnce, Trim, Aliases, Normalize, Encode, Sign;
  }

  lemma AttributesOfSetCookie(name: Bytes, value: Bytes, attributes: Bytes)
    requires SEMICOLON !in Pair(name, value)
    ensures Attributes(SetCookie(name, value, attributes)) == (Pair(name, value), attributes)
  {
    if attributes == [] {
      SplitOnceIff(Pair(name, value), SEMICOLON);
    } else {
      SplitOnceAt(Pair(name, value), SEMICOLON, attributes);
    }
  }

  lemma PairIsSplit(name: Bytes, value: Bytes)
    requires PlainName(name) && PlainValue(value)
    ensures SEMICOLON !in Pair(name, value) && SplitOnce(Pair(name, value), EQUALS) == Some((name, value))
    ensures Trim(name) == name && Trim(value) == value
  {
    SplitOnceAt(name, EQUALS, value);
    PlainIsTrimmed(name);
    PlainIsTrimmed(value);
    hide Trim, SplitOnce;
  }

  lemma SignedValueIsText(header: Bytes)
    requires ValidUtf8(header) && SplitOnce(Attributes(header).0, EQUALS).Some?
    ensures ValidUtf8(Trim(SplitOnce(Attributes(header).0, EQUALS).value.1))
  {
    if SplitOnce(header, SEMICOLON).Some? {
      SplitOnceIsValid(header, SEMICOLON);
    }
    var nameValue := Attributes(header).0;
    assert ValidUtf8(nameValue);
    SplitOnceIsValid(nameValue, EQUALS);
    TrimIsValid(SplitOnce(nameValue, EQUALS).value.1);
  }

  /** Signing what was signed already changes nothing. */
  lemma SignedTwiceIsSignedOnce(value: Bytes, mac: Bytes -> Bytes, lossy: Bytes -> Bytes)
    requires ValidUtf8(value) && IsMac(mac) && IsLossy(lossy)
    ensures Signed(Signed(value, mac, lossy), mac, lossy) == Signed(value, mac, lossy)
    ensures PlainValue(Signed(value, mac, lossy))
  {
    if value != [] {
      var token := Normalize(value, mac, lossy);
      NormalizedIsNotEmpty(value, mac, lossy);
      NormalizedIsText(value, mac, lossy);
      EncodedIsPlain(Sign(token, mac));
      CookieRoundTrip(token, mac, lossy);
      assert Sign(token, mac) != [];
      hide Normalize, Sign, Encode, ValidUtf8, PlainValue;
    }
  }

  /** Rewriting is idempotent, so a response that passes through twice carries one signature. */
  lemma RewriteTwiceIsRewriteOnce(header: Bytes, sessionName: Bytes, mac: Bytes -> Bytes, lossy: Bytes -> Bytes)
    requires PlainName(sessionName) && ValidUtf8(header) && IsMac(mac) && IsLossy(lossy)
    requires Rewrite(header, sessionName, mac, lossy).Some?
    ensures var once := Rewrite(header, sessionName, mac, lossy);
            Rewrite(once.value, sessionName, mac, lossy) == once
  {
    var (nameValue, attributes) := Attributes(header);
    var value := Trim(SplitOnce(nameValue, EQUALS).value.1);
    SignedValueIsText(header);
    SignedTwiceIsSignedOnce(value, mac, lossy);
    var signed := Signed(value, mac, lossy);
    PairIsSplit(sessionName, signed);
    AttributesOfSetCookie(sessionName, signed, attributes);
    AliasesAreTheKnownNames(sessionName);
    assert sessionName in Aliases(sessionName);
    hide Attributes, SetCookie, SplitOnce, Trim, Signed, Aliases, Pair, PlainName, PlainValue, ValidUtf8;
  }

  /** What the browser sends back for a rewritten session cookie is found again and normalizes to the same token. */
  lemma ResponseThenRequest(header: Bytes, sessionName: Bytes, mac: Bytes -> Bytes, lossy: Bytes -> Bytes)
    requires PlainName(sessionName) && ValidUtf8(header) && IsMac(mac) && IsLossy(lossy)
    requires Rewrite(header, sessionName, mac, lossy).Some?
    requires Trim(SplitOnce(Attributes(header).0, EQUALS).value.1) != []
    ensures var token := Normalize(Trim(SplitOnce(Attributes(header).0, EQUALS).value.1), mac, lossy);
            var sent := Attributes(Rewrite(header, sessionName, mac, lossy).value).0;
            var normalized := NormalizeHeader(sent, sessionName, mac, lossy);
            normalized.Some? && CookieValue(normalized.value, sessionName) == Some(Encode(token))
  {
    var value := Trim(SplitOnce(Attributes(header).0, EQUALS).value.1);
    var token := Normalize(value, mac, lossy);
    SignedValueIsText(header);
    NormalizedIsNotEmpty(value, mac, lossy);
    NormalizedIsText(value, mac, lossy);
    var signed := Encode(Sign(token, mac));
    EncodedIsPlain(Sign(token, mac));
    assert Sign(token, mac) != [];
    PairIsSplit(sessionName, signed);
    AttributesOfSetCookie(sessionName, signed, Attributes(header).1);
    PairIsFound(sessionName, signed, sessionName);
    SplitWhole(Pair(sessionName, signed), SEMICOLON);
    assert CookieValue(Pair(sessionName, signed), sessionName) == Some(signed);
    SignedCookieArrivesAsToken(Pair(sessionName, signed), sessionName, token, mac, lossy);
    hide Attributes, SetCookie, SplitOnce, Trim, Aliases, Pair, PlainName, PlainValue, ValidUtf8, Normalize;
    hide Encode, Sign;
    hide NormalizeHeader, CookieValue;
  }
}
