/**
 The bit level of padded base64 with the URL-safe alphabet (section 5 of RFC 4648): up to three
 bytes as four characters, and back.
 */
module Base64Quantum {
  import opened Wrappers
  import opened SecretBox

  const PAD: bv8 := 61    // =
  const LF: bv8 := 10
  const CR: bv8 := 13

  // --------------------------------------------------------------- alphabet

  function EncodeChar(x: bv6): bv8 {
    if x < 26 then 65 + x as bv8
    else if x < 52 then 71 + x as bv8
    else if x < 62 then x as bv8 - 4
    else if x == 62 then 45
    else 95
  }

  function DecodeChar(c: bv8): Option<bv6> {
    if 65 <= c <= 90 then Some((c - 65) as bv6)
    else if 97 <= c <= 122 then Some((c - 71) as bv6)
    else if 48 <= c <= 57 then Some((c + 4) as bv6)
    else if c == 45 then Some(62)
    else if c == 95 then Some(63)
    else None
  }

  predicate Newline(c: bv8) { c == LF || c == CR }

  lemma CharRoundTrip(x: bv6)
    ensures DecodeChar(EncodeChar(x)) == Some(x) && EncodeChar(x) != PAD && !Newline(EncodeChar(x))
  {
  }

  lemma CharCanonical(c: bv8)
    ensures DecodeChar(c).Some? ==> EncodeChar(DecodeChar(c).value) == c && c != PAD && !Newline(c)
  {
  }

  // ------------------------------------------------------------------ quanta

  function High(a: bv8): bv6 { (a >> 2) as bv6 }
  function Mid1(a: bv8, b: bv8): bv6 { (((a & 3) << 4) | (b >> 4)) as bv6 }
  function Mid2(b: bv8, c: bv8): bv6 { (((b & 15) << 2) | (c >> 6)) as bv6 }
  function Low(c: bv8): bv6 { (c & 63) as bv6 }

  function Byte0(p: bv6, q: bv6): bv8 { (p as bv8 << 2) | (q as bv8 >> 4) }
  function Byte1(q: bv6, r: bv6): bv8 { ((q as bv8 & 15) << 4) | (r as bv8 >> 2) }
  function Byte2(r: bv6, s: bv6): bv8 { ((r as bv8 & 3) << 6) | s as bv8 }

  lemma BytesRoundTrip(a: bv8, b: bv8, c: bv8)
    ensures Byte0(High(a), Mid1(a, b)) == a && Byte1(Mid1(a, b), Mid2(b, c)) == b && Byte2(Mid2(b, c), Low(c)) == c
  {
  }

  lemma SextetsRoundTrip(p: bv6, q: bv6, r: bv6, s: bv6)
    ensures High(Byte0(p, q)) == p && Mid1(Byte0(p, q), Byte1(q, r)) == q
    ensures Mid2(Byte1(q, r), Byte2(r, s)) == r && Low(Byte2(r, s)) == s
    ensures Mid1(Byte0(p, q), 0) == q <==> q & 15 == 0
    ensures Mid2(Byte1(q, r), 0) == r <==> r & 3 == 0
  {
  }

  /** Four characters for up to three bytes; what is missing is padded. */
  function EncodeQuantum(x: Bytes): (r: Bytes)
    requires 1 <= |x| <= 3
    ensures |r| == 4
  {
    var a, b, c := x[0], if |x| > 1 then x[1] else 0, if |x| > 2 then x[2] else 0;
    [EncodeChar(High(a)), EncodeChar(Mid1(a, b)),
     if |x| > 1 then EncodeChar(Mid2(b, c)) else PAD,
     if |x| > 2 then EncodeChar(Low(c)) else PAD]
  }

  /** Up to three bytes for four characters; fewer than three means padding was met. */
  function DecodeQuantum(s: Bytes): (r: Option<Bytes>)
    requires |s| == 4
    ensures r.Some? ==> 1 <= |r.value| <= 3
  {
    var p, q, r, t := DecodeChar(s[0]), DecodeChar(s[1]), DecodeChar(s[2]), DecodeChar(s[3]);
    if p.None? || q.None? then None
    else if s[2] == PAD then
      if s[3] == PAD then Some([Byte0(p.value, q.value)]) else None
    else if r.None? then None
    else if s[3] == PAD then Some([Byte0(p.value, q.value), Byte1(q.value, r.value)])
    else if t.None? then None
    else Some([Byte0(p.value, q.value), Byte1(q.value, r.value), Byte2(r.value, t.value)])
  }

  lemma QuantumRoundTrip(x: Bytes)
    requires 1 <= |x| <= 3
    ensures DecodeQuantum(EncodeQuantum(x)) == Some(x)
  {
    var a, b, c := x[0], if |x| > 1 then x[1] else 0, if |x| > 2 then x[2] else 0;
    CharRoundTrip(High(a));
    CharRoundTrip(Mid1(a, b));
    CharRoundTrip(Mid2(b, c));
    CharRoundTrip(Low(c));
    BytesRoundTrip(a, b, c);
    assert x == [a] || x == [a, b] || x == [a, b, c];
  }

  /** No stray bits in the last character before the padding. */
  predicate SpareBitsZero(s: Bytes) {
    |s| >= 4 && s[|s| - 1] == PAD ==>
      if s[|s| - 2] == PAD then DecodeChar(s[|s| - 3]).Some? && DecodeChar(s[|s| - 3]).value & 15 == 0
      else DecodeChar(s[|s| - 2]).Some? && DecodeChar(s[|s| - 2]).value & 3 == 0
  }

  lemma QuantumCanonical(s: Bytes)
    requires |s| == 4 && DecodeQuantum(s).Some?
    ensures EncodeQuantum(DecodeQuantum(s).value) == s <==> SpareBitsZero(s)
    ensures |DecodeQuantum(s).value| == 3 <==> s[3] != PAD
  {
    CharCanonical(s[0]);
    CharCanonical(s[1]);
    CharCanonical(s[2]);
    CharCanonical(s[3]);
    var p, q := DecodeChar(s[0]).value, DecodeChar(s[1]).value;
    var r := if s[2] == PAD then 0 else DecodeChar(s[2]).value;
    var t := if s[3] == PAD then 0 else DecodeChar(s[3]).value;
    SextetsRoundTrip(p, q, r, t);
    SameChar(Mid1(Byte0(p, q), 0), q);
    SameChar(Mid2(Byte1(q, r), 0), r);
    var x := DecodeQuantum(s).value;
    assert EncodeQuantum(x)[0] == s[0];
    assert |x| == 1 ==> (EncodeQuantum(x)[1] == s[1] <==> q & 15 == 0);
    assert |x| == 2 ==> (EncodeQuantum(x)[2] == s[2] <==> r & 3 == 0);
  }

  lemma SameChar(x: bv6, y: bv6)
    ensures EncodeChar(x) == EncodeChar(y) <==> x == y
  {
    CharRoundTrip(x);
    CharRoundTrip(y);
  }

  lemma QuantumClean(x: Bytes)
    requires 1 <= |x| <= 3
    ensures forall i | 0 <= i < 4 :: !Newline(EncodeQuantum(x)[i])
  {
    var a, b, c := x[0], if |x| > 1 then x[1] else 0, if |x| > 2 then x[2] else 0;
    CharRoundTrip(High(a));
    CharRoundTrip(Mid1(a, b));
    CharRoundTrip(Mid2(b, c));
    CharRoundTrip(Low(c));
  }

  // ------------------------------------------------- the standard's own words

  /** The alphabet of section 5 of RFC 4648: its ends and its two special letters. */
  lemma AlphabetEnds()
    ensures EncodeChar(0) == 65 && EncodeChar(25) == 90     // A to Z
    ensures EncodeChar(26) == 97 && EncodeChar(51) == 122   // a to z
    ensures EncodeChar(52) == 48 && EncodeChar(61) == 57    // 0 to 9
    ensures EncodeChar(62) == 45 && EncodeChar(63) == 95    // - and _
  {
  }

  /** In between it runs on. */
  lemma AlphabetNext(x: bv6)
    requires x < 61 && x != 25 && x != 51
    ensures EncodeChar(x + 1) == EncodeChar(x) + 1
  {
  }

  predicate InAlphabet(c: bv8) {
    65 <= c <= 90 || 97 <= c <= 122 || 48 <= c <= 57 || c == 45 || c == 95
  }

  function Bits(a: bv8, b: bv8, c: bv8): bv24 {
    (a as bv24 << 16) | (b as bv24 << 8) | c as bv24
  }

  function Sextets(p: bv6, q: bv6, r: bv6, s: bv6): bv24 {
    (p as bv24 << 18) | (q as bv24 << 12) | (r as bv24 << 6) | s as bv24
  }

  lemma BitsInOrder(a: bv8, b: bv8, c: bv8, p: bv6, q: bv6, r: bv6, s: bv6)
    requires Sextets(p, q, r, s) == Bits(a, b, c)
    ensures High(a) == p && Mid1(a, b) == q && Mid2(b, c) == r && Low(c) == s
  {
  }

  /**
   Section 4 of RFC 4648: the bits of up to three bytes, filled up with zeros and read six at a time,
   are the letters, and a letter for which there is no byte is padding.
   */
  lemma QuantumSpellsBits(x: Bytes, p: bv6, q: bv6, r: bv6, s: bv6)
    requires 1 <= |x| <= 3
    requires Sextets(p, q, r, s) == Bits(x[0], if |x| > 1 then x[1] else 0, if |x| > 2 then x[2] else 0)
    ensures EncodeQuantum(x) ==
      [EncodeChar(p), EncodeChar(q), if |x| > 1 then EncodeChar(r) else PAD, if |x| > 2 then EncodeChar(s) else PAD]
  {
    BitsInOrder(x[0], if |x| > 1 then x[1] else 0, if |x| > 2 then x[2] else 0, p, q, r, s);
  }

  /** Letters of the alphabet, with up to two pads at the end. */
  ghost predicate WellFormed(s: Bytes) {
    && |s| % 4 == 0
    && forall i | 0 <= i < |s| ::
         InAlphabet(s[i]) || (s[i] == PAD && (i == |s| - 1 || (i == |s| - 2 && s[|s| - 1] == PAD)))
  }

  lemma CharAccepted(c: bv8)
    ensures DecodeChar(c).Some? <==> InAlphabet(c)
    ensures !InAlphabet(PAD)
  {
  }

  /** A quantum is accepted exactly when it is well-formed. */
  lemma QuantumAccepted(s: Bytes)
    requires |s| == 4
    ensures DecodeQuantum(s).Some? <==> WellFormed(s)
  {
    CharAccepted(s[0]);
    CharAccepted(s[1]);
    CharAccepted(s[2]);
    CharAccepted(s[3]);
  }
}
