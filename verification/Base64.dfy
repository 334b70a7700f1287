/** The standard base64 alphabet with padding (section 4 of RFC 4648), decoded strictly. */
module Base64 {
  import opened Common

  const PAD: byte := 61

  /** The character for a 6-bit value. */
  function CharOf(v: nat): byte
    requires v < 64
  {
    if v < 26 then 65 + v
    else if v < 52 then 97 + (v - 26)
    else if v < 62 then 48 + (v - 52)
    else if v == 62 then 43
    else 47
  }

  function ValueOf(c: byte): (v: Option<nat>)
    ensures v.Some? ==> v.value < 64
  {
    if 65 <= c <= 90 then Some(c - 65)
    else if 97 <= c <= 122 then Some(c - 97 + 26)
    else if 48 <= c <= 57 then Some(c - 48 + 52)
    else if c == 43 then Some(62)
    else if c == 47 then Some(63)
    else None
  }

  /** The alphabet is a bijection with the 6-bit values, and padding is not in it. */
  lemma AlphabetIsBijective(v: nat, c: byte)
    requires v < 64
    ensures ValueOf(CharOf(v)) == Some(v)
    ensures ValueOf(c).Some? ==> CharOf(ValueOf(c).value) == c != PAD
  {
  }

  // The four 6-bit values of three bytes, and the three bytes of four 6-bit values.

  function First(b0: byte): (v: nat) ensures v < 64 { b0 / 4 }

  function Second(b0: byte, b1: byte): (v: nat) ensures v < 64 { b0 % 4 * 16 + b1 / 16 }

  function Third(b1: byte, b2: byte): (v: nat) ensures v < 64 { b1 % 16 * 4 + b2 / 64 }

  function Fourth(b2: byte): (v: nat) ensures v < 64 { b2 % 64 }

  function High(v0: nat, v1: nat): byte requires v0 < 64 && v1 < 64 { v0 * 4 + v1 / 16 }

  function Middle(v1: nat, v2: nat): byte requires v1 < 64 && v2 < 64 { v1 % 16 * 16 + v2 / 4 }

  function Low(v2: nat, v3: nat): byte requires v2 < 64 && v3 < 64 { v2 % 4 * 64 + v3 }

  /** Padding leaves these bits over, and they are zero. */
  predicate SpareFour(v1: nat) { v1 % 16 == 0 }

  predicate SpareTwo(v2: nat) { v2 % 4 == 0 }

  /** Four characters for three bytes, or for two or one with padding. */
  function Group(s: Bytes): (g: Bytes)
    requires 1 <= |s| <= 3
    ensures |g| == 4
  {
    var b1, b2 := if |s| > 1 then s[1] else 0, if |s| > 2 then s[2] else 0;
    [CharOf(First(s[0])), CharOf(Second(s[0], b1)),
     if |s| > 1 then CharOf(Third(b1, b2)) else PAD, if |s| > 2 then CharOf(Fourth(b2)) else PAD]
  }

  function Encode(s: Bytes): Bytes {
    if s == [] then []
    else if |s| <= 3 then Group(s)
    else Group(s[..3]) + Encode(s[3..])
  }

  /** The bytes of one group. Only the last group may be padded, and the bits the padding leaves over must be zero. */
  function Ungroup(g: Bytes, last: bool): (s: Option<Bytes>)
    requires |g| == 4
    ensures s.Some? ==> 1 <= |s.value| <= 3
  {
    var v0, v1, v2, v3 := ValueOf(g[0]), ValueOf(g[1]), ValueOf(g[2]), ValueOf(g[3]);
    if v0.None? || v1.None? then None
    else if last && g[2] == PAD && g[3] == PAD then
      if SpareFour(v1.value) then Some([High(v0.value, v1.value)]) else None
    else if v2.None? then None
    else
      if last && g[3] == PAD then
        if SpareTwo(v2.value) then Some([High(v0.value, v1.value), Middle(v1.value, v2.value)]) else None
      else if v3.None? then None
      else Some([High(v0.value, v1.value), Middle(v1.value, v2.value), Low(v2.value, v3.value)])
  }

  function Decode(t: Bytes): Option<Bytes> {
    if t == [] then Some([])
    else if |t| < 4 then None
    else
      match (Ungroup(t[..4], |t| == 4), Decode(t[4..]))
      case (Some(first), Some(rest)) => Some(first + rest)
      case _ => None
  }

  /** Three bytes are their four 6-bit values, in both directions. */
  lemma SextetsOfBytes(b0: byte, b1: byte, b2: byte)
    ensures High(First(b0), Second(b0, b1)) == b0
    ensures Middle(Second(b0, b1), Third(b1, b2)) == b1
    ensures Low(Third(b1, b2), Fourth(b2)) == b2
    ensures (b1 == 0 ==> SpareFour(Second(b0, b1))) && (b2 == 0 ==> SpareTwo(Third(b1, b2)))
  {
  }

  lemma BytesOfSextets(v0: nat, v1: nat, v2: nat, v3: nat)
    requires v0 < 64 && v1 < 64 && v2 < 64 && v3 < 64
    ensures First(High(v0, v1)) == v0 && Fourth(Low(v2, v3)) == v3
    ensures Second(High(v0, v1), Middle(v1, v2)) == v1 && Third(Middle(v1, v2), Low(v2, v3)) == v2
    ensures SpareFour(v1) ==> Second(High(v0, v1), 0) == v1
    ensures SpareTwo(v2) ==> Third(Middle(v1, v2), 0) == v2
  {
  }

  lemma GroupRoundTrip(s: Bytes, last: bool)
    requires 1 <= |s| <= 3 && (|s| < 3 ==> last)
    ensures Ungroup(Group(s), last) == Some(s)
  {
    hide CharOf, ValueOf, First, Second, Third, Fourth, High, Middle, Low, SpareFour, SpareTwo;
    var b1, b2 := if |s| > 1 then s[1] else 0, if |s| > 2 then s[2] else 0;
    SextetsOfBytes(s[0], b1, b2);
    AlphabetIsBijective(First(s[0]), CharOf(First(s[0])));
    AlphabetIsBijective(Second(s[0], b1), CharOf(Second(s[0], b1)));
    AlphabetIsBijective(Third(b1, b2), CharOf(Third(b1, b2)));
    AlphabetIsBijective(Fourth(b2), CharOf(Fourth(b2)));
    assert s == if |s| == 1 then [s[0]] else if |s| == 2 then [s[0], s[1]] else [s[0], s[1], s[2]];
  }

  /** A group that decodes is the group of what it decodes to: the strict decoder accepts no second spelling. */
  lemma GroupIsCanonical(g: Bytes, last: bool)
    requires |g| == 4 && Ungroup(g, last).Some?
    ensures Group(Ungroup(g, last).value) == g
  {
    hide CharOf, ValueOf, First, Second, Third, Fourth, High, Middle, Low, SpareFour, SpareTwo;
    AlphabetIsBijective(0, g[0]);
    AlphabetIsBijective(0, g[1]);
    AlphabetIsBijective(0, g[2]);
    AlphabetIsBijective(0, g[3]);
    var v0, v1, v2, v3 := ValueOf(g[0]), ValueOf(g[1]), ValueOf(g[2]), ValueOf(g[3]);
    BytesOfSextets(v0.value, v1.value, if v2.Some? then v2.value else 0, if v3.Some? then v3.value else 0);
    assert g == [g[0], g[1], g[2], g[3]];
  }

  /** Decoding undoes encoding. */
  lemma {:induction false} DecodeEncode(s: Bytes)
    ensures Decode(Encode(s)) == Some(s)
  {
    if s == [] {
    } else if |s| <= 3 {
      GroupRoundTrip(s, true);
      hide Group, Ungroup;
      var t := Encode(s);
      assert t == Group(s) && t[..4] == t && |t[4..]| == 0;
      assert Decode(t[4..]) == Some([]) && s + [] == s;
    } else {
      GroupRoundTrip(s[..3], false);
      DecodeEncode(s[3..]);
      EncodeIsNotEmpty(s[3..]);
      hide Group, Ungroup;
      assert Encode(s)[..4] == Group(s[..3]) && Encode(s)[4..] == Encode(s[3..]);
      assert s[..3] + s[3..] == s;
    }
  }

  lemma EncodeIsNotEmpty(s: Bytes)
    ensures s != [] ==> Encode(s) != []
  {
  }

  /** Whatever decodes is an encoding, and of nothing else. */
  lemma {:induction false} EncodeDecode(t: Bytes)
    requires Decode(t).Some?
    ensures Encode(Decode(t).value) == t
  {
    if t != [] {
      var last := |t| == 4;
      GroupIsCanonical(t[..4], last);
      EncodeDecode(t[4..]);
      assert t == t[..4] + t[4..];
      var first, rest := Ungroup(t[..4], last).value, Decode(t[4..]).value;
      if last {
        assert t[4..] == [] && first + rest == first;
      } else {
        assert |first| == 3;
        DecodeIsNotEmpty(t[4..]);
        assert (first + rest)[..3] == first && (first + rest)[3..] == rest;
      }
    }
  }

  lemma DecodeIsNotEmpty(t: Bytes)
    requires t != [] && Decode(t).Some?
    ensures Decode(t).value != []
  {
  }

  /** Four characters for every three bytes begun. */
  lemma {:induction false} EncodedLength(s: Bytes)
    ensures |Encode(s)| == (|s| + 2) / 3 * 4
  {
    hide Group;
    if |s| > 3 {
      EncodedLength(s[3..]);
      assert |Encode(s)| == 4 + |Encode(s[3..])| && |s[3..]| == |s| - 3;
    } else if s != [] {
      assert |Encode(s)| == 4;
    }
  }

  predicate InAlphabet(c: byte) {
    c == PAD || ValueOf(c).Some?
  }

  lemma GroupAlphabet(s: Bytes)
    requires 1 <= |s| <= 3
    ensures forall i :: 0 <= i < 4 ==> InAlphabet(Group(s)[i])
    ensures |s| == 2 ==> Group(s)[3] == PAD
  {
    hide First, Second, Third, Fourth;
  }

  lemma ThreeLess(n: nat)
    requires n >= 3
    ensures (n - 3) % 3 == n % 3
  {
  }

  lemma AlphabetJoin(a: Bytes, b: Bytes)
    requires forall i :: 0 <= i < |a| ==> InAlphabet(a[i])
    requires b != [] && forall i :: 0 <= i < |b| ==> InAlphabet(b[i])
    ensures forall i :: 0 <= i < |a + b| ==> InAlphabet((a + b)[i])
    ensures (a + b)[|a + b| - 1] == b[|b| - 1]
  {
    hide InAlphabet;
  }

  lemma EncodeUnfolds(s: Bytes)
    requires |s| > 3
    ensures Encode(s) == Group(s[..3]) + Encode(s[3..])
  {
  }

  lemma {:induction false} EncodedAlphabet(s: Bytes)
    ensures forall i :: 0 <= i < |Encode(s)| ==> InAlphabet(Encode(s)[i])
    ensures |s| % 3 == 2 ==> Encode(s)[|Encode(s)| - 1] == PAD
  {
    if |s| > 3 {
      EncodeUnfolds(s);
      GroupAlphabet(s[..3]);
      EncodedAlphabet(s[3..]);
      EncodeIsNotEmpty(s[3..]);
      ThreeLess(|s|);
      hide *;
      AlphabetJoin(Group(s[..3]), Encode(s[3..]));
    } else if s != [] {
      GroupAlphabet(s);
      hide Group, InAlphabet;
    }
  }
}
