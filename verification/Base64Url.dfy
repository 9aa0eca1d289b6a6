/**
 The armour of an encrypted container: a stream of base64 quanta in a buffer of exact size. The
 decoder passes over line breaks anywhere and does not look at the unused bits of the last
 character, as Go's does.
 */
module Base64Url {
  import opened Wrappers
  import opened SecretBox
  import opened Base64Quantum

  // ----------------------------------------------------------- specification

  /**
   What a stream encoder needs to know: how a group of bytes becomes four characters and back. The
   stream code below works for any such pair; URL is the one containers use.
   */
  datatype Encoding = Encoding(chars: Bytes -> Bytes, bytes: Bytes -> Option<Bytes>)

  const URL := Encoding(
    x => if 1 <= |x| <= 3 then EncodeQuantum(x) else [],
    s => if |s| == 4 then DecodeQuantum(s) else None)

  ghost predicate FourForThree(e: Encoding) {
    && (forall x | 1 <= |x| <= 3 :: |e.chars(x)| == 4)
    && (forall s | |s| == 4 && e.bytes(s).Some? :: 1 <= |e.bytes(s).value| <= 3)
  }

  ghost predicate RoundTrips(e: Encoding) {
    && FourForThree(e)
    && (forall x | 1 <= |x| <= 3 :: e.bytes(e.chars(x)) == Some(x))
    && (forall x, i | 1 <= |x| <= 3 && 0 <= i < 4 :: !Newline(e.chars(x)[i]))
  }

  /** Only the last quantum can be shorter, and it comes back unless it has stray bits. */
  ghost predicate Canonical(e: Encoding) {
    && RoundTrips(e)
    && (forall s | |s| == 4 && e.bytes(s).Some? :: e.chars(e.bytes(s).value) == s <==> SpareBitsZero(s))
    && (forall s | |s| == 4 && e.bytes(s).Some? :: |e.bytes(s).value| == 3 <==> s[3] != PAD)
  }

  lemma UrlRoundTrips()
    ensures RoundTrips(URL)
  {
    forall x: Bytes | 1 <= |x| <= 3 ensures URL.bytes(URL.chars(x)) == Some(x) {
      QuantumRoundTrip(x);
    }
    forall x: Bytes, i | 1 <= |x| <= 3 && 0 <= i < 4 ensures !Newline(URL.chars(x)[i]) {
      QuantumClean(x);
    }
  }

  lemma UrlIsCanonical()
    ensures Canonical(URL)
  {
    UrlRoundTrips();
    forall s: Bytes | |s| == 4 && URL.bytes(s).Some?
      ensures (URL.chars(URL.bytes(s).value) == s <==> SpareBitsZero(s)) && (|URL.bytes(s).value| == 3 <==> s[3] != PAD)
    {
      QuantumCanonical(s);
    }
  }

  function EncodedLen(n: nat): nat { (n + 2) / 3 * 4 }
  function DecodedLen(n: nat): nat { n / 4 * 3 }

  function Encoded(e: Encoding, x: Bytes): Bytes {
    if x == [] then []
    else if |x| <= 3 then e.chars(x)
    else e.chars(x[..3]) + Encoded(e, x[3..])
  }

  function Strip(s: Bytes): (r: Bytes)
    ensures |r| <= |s| && forall i | 0 <= i < |r| :: !Newline(r[i])
  {
    if s == [] then [] else (if Newline(s[0]) then [] else [s[0]]) + Strip(s[1..])
  }

  /** Decoding text without line breaks; only the last quantum may be padded. */
  function Decoded(e: Encoding, s: Bytes): Option<Bytes> {
    if s == [] then Some([])
    else if |s| < 4 then None
    else
      var head := e.bytes(s[..4]);
      if head.None? || (|head.value| < 3 && |s| > 4) then None
      else Prepend(head.value, Decoded(e, s[4..]))
  }

  function Prepend(x: Bytes, r: Option<Bytes>): Option<Bytes> {
    if r.None? then None else Some(x + r.value)
  }

  lemma PrependTwice(x: Bytes, y: Bytes, r: Option<Bytes>)
    ensures Prepend(x, Prepend(y, r)) == Prepend(x + y, r)
  {
    if r.Some? {
      assert x + (y + r.value) == x + y + r.value;
    }
  }

  // ---------------------------------------------------------------- methods

  /** Encode fills a buffer of EncodedLen bytes to its end. */
  method Encode(es: Bytes) returns (buf: array<bv8>)
    ensures fresh(buf) && buf.Length == EncodedLen(|es|) && buf[..] == Encoded(URL, es)
  {
    UrlIsCanonical();
    buf := EncodeWith(URL, es);
  }

  lemma {:induction false} EncodedLength(e: Encoding, x: Bytes)
    requires FourForThree(e)
    ensures |Encoded(e, x)| == EncodedLen(|x|)
  {
    if |x| <= 3 {
    } else {
      EncodedLength(e, x[3..]);
    }
  }

  method EncodeWith(e: Encoding, es: Bytes) returns (buf: array<bv8>)
    requires FourForThree(e)
    ensures buf.Length == EncodedLen(|es|)
    ensures fresh(buf) && buf[..] == Encoded(e, es)
  {
    buf := new bv8[EncodedLen(|es|)];
    var si, di := 0, 0;
    ghost var whole := Encoded(e, es);
    EncodedLength(e, es);
    assert es[0..] == es;
    while si < |es|
      invariant si <= |es| && di + |Encoded(e, es[si..])| == buf.Length
      invariant whole == buf[..di] + Encoded(e, es[si..])
      decreases |es| - si
    {
      si := EncodeStep(e, es, si, buf, di);
      di := di + 4;
    }
    assert buf[..] == buf[..di] == whole;
  }

  /** One group of up to three bytes becomes four characters in the buffer. */
  method EncodeStep(e: Encoding, es: Bytes, si: nat, buf: array<bv8>, di: nat) returns (next: nat)
    requires FourForThree(e) && si < |es| && di + |Encoded(e, es[si..])| <= buf.Length
    modifies buf
    ensures si < next <= |es| && |Encoded(e, es[si..])| == 4 + |Encoded(e, es[next..])|
    ensures buf[..di + 4] + Encoded(e, es[next..]) == old(buf[..di]) + Encoded(e, es[si..])
  {
    var chars;
    chars, next := EncodeNext(e, es, si);
    Write(buf, di, chars);
    ConcatAssoc(old(buf[..di]), chars, Encoded(e, es[next..]));
  }

  lemma ConcatAssoc(x: Bytes, y: Bytes, z: Bytes)
    ensures x + (y + z) == x + y + z
  {
  }

  /** The next group of up to three bytes. */
  method EncodeNext(e: Encoding, es: Bytes, si: nat) returns (chars: Bytes, next: nat)
    requires FourForThree(e) && si < |es|
    ensures si < next <= |es| && |chars| == 4 && Encoded(e, es[si..]) == chars + Encoded(e, es[next..])
  {
    next := if |es| - si > 3 then si + 3 else |es|;
    chars := e.chars(es[si..next]);
    EncodedStep(e, es, si, next);
  }

  lemma EncodedStep(e: Encoding, es: Bytes, si: nat, next: nat)
    requires si < next <= |es| && next == if |es| - si > 3 then si + 3 else |es|
    ensures Encoded(e, es[si..]) == e.chars(es[si..next]) + Encoded(e, es[next..])
  {
    if |es| - si > 3 {
      assert es[si..][..3] == es[si..next] && es[si..][3..] == es[next..];
    } else {
      assert es[si..next] == es[si..] && es[next..] == [];
      assert e.chars(es[si..]) + [] == e.chars(es[si..]);
    }
  }

  /** The index of the next byte that is not a line break. */
  method SkipNewlines(src: Bytes, from: nat) returns (i: nat)
    requires from <= |src|
    ensures from <= i <= |src| && (i < |src| ==> !Newline(src[i])) && Strip(src[from..]) == Strip(src[i..])
    ensures i < |src| ==> Strip(src[from..]) == [src[i]] + Strip(src[i + 1..])
    ensures i == |src| ==> Strip(src[from..]) == []
  {
    i := from;
    while i < |src| && Newline(src[i])
      invariant from <= i <= |src| && Strip(src[from..]) == Strip(src[i..])
    {
      assert src[i..][1..] == src[i + 1..];
      i := i + 1;
    }
    assert i < |src| ==> src[i..][1..] == src[i + 1..];
  }

  datatype Step = End | Corrupt | Four(chars: Bytes, si: nat)

  /** The next four bytes that count, or the end of the input, or an input that breaks off. */
  method NextFour(src: Bytes, from: nat) returns (r: Step)
    requires from <= |src|
    ensures r.End? <==> Strip(src[from..]) == []
    ensures r.Corrupt? <==> 0 < |Strip(src[from..])| < 4
    ensures r.Four? ==> |r.chars| == 4 && from < r.si <= |src| && Strip(src[from..]) == r.chars + Strip(src[r.si..])
  {
    var chars, si := [], from;
    while |chars| < 4
      invariant |chars| <= 4 && from <= si <= |src| && (chars != [] ==> from < si)
      invariant Strip(src[from..]) == chars + Strip(src[si..])
      decreases 4 - |chars|
    {
      var i := SkipNewlines(src, si);
      if i == |src| {
        AppendNothing(chars);
        return if chars == [] then End else Corrupt;
      }
      ConcatAssoc(chars, [src[i]], Strip(src[i + 1..]));
      chars, si := chars + [src[i]], i + 1;
    }
    return Four(chars, si);
  }

  lemma AppendNothing(x: Bytes)
    ensures x + [] == x
  {
  }

  lemma DecodedStep(e: Encoding, chars: Bytes, rest: Bytes)
    requires |chars| == 4
    ensures var head := e.bytes(chars);
      Decoded(e, chars + rest) ==
        if head.None? || (|head.value| < 3 && rest != []) then None else Prepend(head.value, Decoded(e, rest))
    ensures DecodedLen(|chars + rest|) == 3 + DecodedLen(|rest|)
  {
    assert (chars + rest)[4..] == rest && (chars + rest)[..4] == chars;
  }

  lemma DecodedLenMonotone(m: nat, n: nat)
    requires m <= n
    ensures DecodedLen(m) <= DecodedLen(n)
  {
  }

  /**
   The library decoder, quantum by quantum, into a caller's buffer. However the input is malformed,
   the count it reports stays within DecodedLen.
   */
  method DecodeInto(e: Encoding, dst: array<bv8>, src: Bytes) returns (n: nat, ok: bool)
    requires FourForThree(e) && dst.Length >= DecodedLen(|src|)
    modifies dst
    ensures n <= DecodedLen(|src|) == |src| / 4 * 3
    ensures ok <==> Decoded(e, Strip(src)).Some?
    ensures ok ==> dst[..n] == Decoded(e, Strip(src)).value
  {
    n, ok := 0, true;
    var si := 0;
    assert src[0..] == src;
    DecodedLenMonotone(|Strip(src)|, |src|);
    PrependNothing(Decoded(e, Strip(src)));
    var more := true;
    while more && si < |src|
      invariant si <= |src| && n <= DecodedLen(|src|)
      invariant more ==> ok && n + DecodedLen(|Strip(src[si..])|) <= DecodedLen(|src|)
      invariant more ==> Prepend(dst[..n], Decoded(e, Strip(src[si..]))) == Decoded(e, Strip(src))
      invariant !more ==> (ok <==> Decoded(e, Strip(src)).Some?)
      invariant !more && ok ==> dst[..n] == Decoded(e, Strip(src)).value
      decreases more, |src| - si
    {
      n, si, more, ok := DecodeStep(e, dst, n, src, si);
    }
  }

  /** One quantum. The input is over after an error, after padding, and at its end. */
  method DecodeStep(e: Encoding, dst: array<bv8>, n: nat, src: Bytes, si: nat)
    returns (n': nat, si': nat, more: bool, ok: bool)
    requires FourForThree(e) && si < |src| && n + DecodedLen(|Strip(src[si..])|) <= dst.Length
    modifies dst
    ensures si <= si' <= |src|
      && n' + (if more then DecodedLen(|Strip(src[si'..])|) else 0) <= n + DecodedLen(|Strip(src[si..])|)
    ensures more ==> ok && si < si'
    ensures var before := Prepend(old(dst[..n]), Decoded(e, Strip(src[si..])));
      more ==> Prepend(dst[..n'], Decoded(e, Strip(src[si'..]))) == before
    ensures !more ==> (ok <==> Decoded(e, Strip(src[si..])).Some?)
    ensures !more && ok ==> Some(dst[..n']) == Prepend(old(dst[..n]), Decoded(e, Strip(src[si..])))
  {
    n', si', more, ok := n, si, false, false;
    var step := NextFour(src, si);
    if !step.Four? {
      ok := step.End?;
      PrependEmpty(e, dst[..n]);
      return;
    }
    si' := step.si;
    DecodedStep(e, step.chars, Strip(src[si'..]));
    var quantum := e.bytes(step.chars);
    if quantum.None? {
      return;
    }
    var b := quantum.value;
    PrependTwice(dst[..n], b, Decoded(e, Strip(src[si'..])));
    Write(dst, n, b);
    n' := n + |b|;
    if |b| == 3 {
      more, ok := true, true;
    } else {
      var end := SkipNewlines(src, si');
      ok := end == |src|;
      PrependEmpty(e, dst[..n']);
    }
  }

  lemma PrependEmpty(e: Encoding, x: Bytes)
    ensures Prepend(x, Decoded(e, [])) == Some(x)
  {
    assert x + [] == x;
  }

  method Write(dst: array<bv8>, at: nat, b: Bytes)
    requires at + |b| <= dst.Length
    modifies dst
    ensures dst[..at + |b|] == old(dst[..at]) + b
  {
    for i := 0 to |b|
      invariant dst[..at + i] == old(dst[..at]) + b[..i]
    {
      dst[at + i] := b[i];
    }
  }

  lemma PrependNothing(r: Option<Bytes>)
    ensures Prepend([], r) == r
  {
    if r.Some? {
      assert [] + r.value == r.value;
    }
  }

  /** Decode cuts its buffer at the count, which is always in range. */
  method Decode(buf: Bytes) returns (r: Option<Bytes>)
    ensures r == Decoded(URL, Strip(buf))
  {
    UrlIsCanonical();
    var es := new bv8[DecodedLen(|buf|)];
    var n, ok := DecodeInto(URL, es, buf);
    if !ok {
      return None;
    }
    return Some(es[..n]);
  }

  // -------------------------------------------------------------------- laws

  lemma {:induction false} StripClean(s: Bytes)
    ensures Strip(s) == s <==> forall i | 0 <= i < |s| :: !Newline(s[i])
  {
    if s == [] {
    } else {
      StripClean(s[1..]);
      if forall i | 0 <= i < |s| :: !Newline(s[i]) {
        assert forall i | 0 <= i < |s[1..]| :: s[1..][i] == s[i + 1];
      }
    }
  }

  lemma {:induction false} EncodedClean(e: Encoding, x: Bytes)
    requires RoundTrips(e)
    ensures forall i | 0 <= i < |Encoded(e, x)| :: !Newline(Encoded(e, x)[i])
  {
    if |x| <= 3 {
    } else {
      EncodedClean(e, x[3..]);
    }
  }

  lemma {:induction false} DecodedEncoded(e: Encoding, x: Bytes)
    requires RoundTrips(e)
    ensures Decoded(e, Encoded(e, x)) == Some(x)
  {
    if |x| > 3 {
      DecodedEncoded(e, x[3..]);
      DecodedStep(e, e.chars(x[..3]), Encoded(e, x[3..]));
      assert e.bytes(e.chars(x[..3])) == Some(x[..3]);
      assert x == x[..3] + x[3..];
    } else if x != [] {
      DecodedStep(e, e.chars(x), []);
      assert e.bytes(e.chars(x)) == Some(x);
      assert e.chars(x) + [] == e.chars(x) && x + [] == x;
    }
  }

  /** Round trip: decoding what was encoded gives the bytes back. */
  lemma DecodeEncode(e: Encoding, x: Bytes)
    requires RoundTrips(e)
    ensures Decoded(e, Strip(Encoded(e, x))) == Some(x)
  {
    EncodedClean(e, x);
    StripClean(Encoded(e, x));
    DecodedEncoded(e, x);
  }

  lemma {:induction false} EncodedDecoded(e: Encoding, s: Bytes)
    requires Canonical(e) && Decoded(e, s).Some?
    ensures Encoded(e, Decoded(e, s).value) == s <==> SpareBitsZero(s)
  {
    if s == [] {
    } else {
      var head, rest := s[..4], s[4..];
      assert s == head + rest;
      DecodedStep(e, head, rest);
      var h, x := e.bytes(head).value, Decoded(e, rest).value;
      if rest == [] {
        assert h + [] == h && s == head;
      } else {
        EncodedDecoded(e, rest);
        DecodedNotEmpty(e, rest);
        EncodedMore(e, h, x);
        assert e.chars(h) == head;
        SpareBitsOfRest(head, rest);
        assert (head + Encoded(e, x))[4..] == Encoded(e, x);
      }
    }
  }

  lemma EncodedMore(e: Encoding, h: Bytes, x: Bytes)
    requires |h| == 3 && x != []
    ensures Encoded(e, h + x) == e.chars(h) + Encoded(e, x)
  {
    assert (h + x)[..3] == h && (h + x)[3..] == x;
  }

  lemma SpareBitsOfRest(head: Bytes, rest: Bytes)
    requires |rest| >= 4
    ensures SpareBitsZero(head + rest) <==> SpareBitsZero(rest)
  {
  }

  lemma DecodedNotEmpty(e: Encoding, s: Bytes)
    requires FourForThree(e) && s != [] && Decoded(e, s).Some?
    ensures |s| >= 4 && Decoded(e, s).value != []
  {
    assert s == s[..4] + s[4..];
    DecodedStep(e, s[..4], s[4..]);
  }

  /**
   The other direction holds exactly for canonical text: an accepted input is what Encode produces if
   and only if it has no line breaks and no stray bits.
   */
  lemma EncodeDecodeExactly(s: Bytes)
    requires Decoded(URL, Strip(s)).Some?
    ensures Encoded(URL, Decoded(URL, Strip(s)).value) == s <==> Strip(s) == s && SpareBitsZero(s)
  {
    UrlIsCanonical();
    StripClean(s);
    EncodedClean(URL, Decoded(URL, Strip(s)).value);
    if Strip(s) == s {
      EncodedDecoded(URL, s);
    }
  }

  /** "QR==" is accepted, but its letter R has bits that no encoder leaves; the bytes encode as "QQ==". */
  lemma StrayBitsCounterexample()
    ensures Decoded(URL, Strip([81, 82, PAD, PAD])) == Some([65])
    ensures Encoded(URL, [65]) == [81, 81, PAD, PAD] != [81, 82, PAD, PAD]
  {
    var s: Bytes := [81, 82, PAD, PAD];
    StripClean(s);
    assert s[..4] == s && s[4..] == [];
    LetterA();
    var x: Bytes := [65];
    assert x + [] == x;
  }

  lemma LetterA()
    ensures DecodeQuantum([81, 82, PAD, PAD]) == Some([65]) && EncodeQuantum([65]) == [81, 81, PAD, PAD]
  {
  }

  /** And any encoding is accepted with a line break after it, which no encoder writes. */
  lemma LineBreakCounterexample(e: Encoding, x: Bytes)
    requires RoundTrips(e)
    ensures var s := Encoded(e, x) + [LF]; Decoded(e, Strip(s)) == Some(x) && Encoded(e, x) != s
  {
    DropBreak(Encoded(e, x));
    DecodeEncode(e, x);
  }

  lemma {:induction false} DropBreak(s: Bytes)
    ensures Strip(s + [LF]) == Strip(s)
  {
    if s == [] {
      assert [LF][1..] == s;
    } else {
      assert (s + [LF])[1..] == s[1..] + [LF];
      DropBreak(s[1..]);
    }
  }

  /** Sealing and armouring, undone: the whole path of a container through storage. */
  lemma StoredContainerRoundTrip(c: Cipher, key: Bytes, nonce: Bytes, m: Bytes)
    requires |nonce| == NONCE_SIZE
    ensures var stored := Encoded(URL, Sealed(c, key, nonce, m));
      && |stored| == EncodedLen(NONCE_SIZE + OVERHEAD + |m|)
      && var box := Decoded(URL, Strip(stored));
         && box.Some? && |box.value| >= NONCE_SIZE
         && NaclOpen(c, box.value[NONCE_SIZE..], box.value[..NONCE_SIZE], key) == Some(m)
  {
    UrlIsCanonical();
    EncodedLength(URL, Sealed(c, key, nonce, m));
    DecodeEncode(URL, Sealed(c, key, nonce, m));
    SealOpens(c, key, nonce, m);
  }

  /** The same through the operations themselves, as a caller goes who stores a payload and reads it back. */
  method StoreAndLoad(c: Cipher, key: Bytes, entropy: Bytes, payload: Bytes) returns (r: Option<Bytes>)
    ensures r == if |entropy| < NONCE_SIZE then None else Some(payload)
  {
    var box := Encrypt(c, key, entropy, payload);
    if box.None? {
      return None;
    }
    var text := Encode(box.value);
    var stored := Decode(text[..]);
    UrlIsCanonical();
    DecodeEncode(URL, box.value);
    OpensExactlySeals(c, key, box.value);
    var result := SecretBoxOpen(c, key, stored.value);
    assert result == Message(payload);
    return Some(result.m);
  }

  function GroupEnd(n: nat, k: nat): nat { if 3 * k + 3 < n then 3 * k + 3 else n }

  lemma {:induction false} GroupAt(e: Encoding, x: Bytes, k: nat)
    requires FourForThree(e) && 3 * k < |x|
    ensures 4 * k + 4 <= |Encoded(e, x)|
    ensures Encoded(e, x)[4 * k..4 * k + 4] == e.chars(x[3 * k..GroupEnd(|x|, k)])
    decreases k
  {
    var all := Encoded(e, x);
    if |x| <= 3 {
      assert k == 0 && x[0..|x|] == x && |all| == 4;
      assert all[0..4] == all;
    } else if k == 0 {
      assert all == e.chars(x[..3]) + Encoded(e, x[3..]);
      assert all[0..4] == e.chars(x[..3]);
    } else {
      GroupAt(e, x[3..], k - 1);
      NextGroup(all, Encoded(e, x[3..]), k - 1);
      assert x[3..][3 * (k - 1)..GroupEnd(|x| - 3, k - 1)] == x[3 * k..GroupEnd(|x|, k)];
    }
  }

  lemma NextGroup(all: Bytes, rest: Bytes, k: nat)
    requires |all| >= 4 && all[4..] == rest && 4 * k + 4 <= |rest|
    ensures 4 * k + 8 <= |all| && all[4 * k + 4..4 * k + 8] == rest[4 * k..4 * k + 4]
  {
  }

  /** Each three bytes, or what is left of them at the end, are spelled by their own four letters. */
  lemma EncodedGroups(x: Bytes, k: nat)
    requires 3 * k < |x|
    ensures 4 * k + 4 <= |Encoded(URL, x)|
    ensures Encoded(URL, x)[4 * k..4 * k + 4] == EncodeQuantum(x[3 * k..if 3 * k + 3 < |x| then 3 * k + 3 else |x|])
  {
    UrlIsCanonical();
    GroupAt(URL, x, k);
    var group := x[3 * k..GroupEnd(|x|, k)];
    assert URL.chars(group) == EncodeQuantum(group);
  }

  /** "foobar", "fo" and "f" as in section 10 of RFC 4648. */
  lemma TestVectors()
    ensures Encoded(URL, [102, 111, 111, 98, 97, 114]) == [90, 109, 57, 118, 89, 109, 70, 121]
    ensures Encoded(URL, [102, 111]) == [90, 109, 56, PAD] && Encoded(URL, [102]) == [90, 103, PAD, PAD]
  {
    VectorQuanta();
    var x: Bytes := [102, 111, 111, 98, 97, 114];
    assert x[..3] == [102, 111, 111] && x[3..] == [98, 97, 114];
  }

  lemma VectorQuanta()
    ensures EncodeQuantum([102, 111, 111]) == [90, 109, 57, 118] && EncodeQuantum([98, 97, 114]) == [89, 109, 70, 121]
    ensures EncodeQuantum([102, 111]) == [90, 109, 56, PAD] && EncodeQuantum([102]) == [90, 103, PAD, PAD]
  {
  }

  /** What Strip does: it drops line feeds and carriage returns and nothing else. */
  lemma {:induction false} StripAppend(a: Bytes, b: Bytes)
    ensures Strip(a + b) == Strip(a) + Strip(b)
  {
    if a == [] {
      assert a + b == b;
    } else {
      assert (a + b)[1..] == a[1..] + b;
      StripAppend(a[1..], b);
    }
  }

  lemma StripOne(c: bv8)
    ensures Strip([c]) == if c == 10 || c == 13 then [] else [c]
  {
    assert [c][1..] == [];
  }

  /** Which texts Decode accepts: those that are well-formed without their line breaks. */
  lemma DecodesExactly(s: Bytes)
    ensures Decoded(URL, Strip(s)).Some? <==> WellFormed(Strip(s))
  {
    AcceptsExactly(Strip(s));
  }

  lemma {:induction false} AcceptsExactly(s: Bytes)
    ensures Decoded(URL, s).Some? <==> WellFormed(s)
    decreases |s|
  {
    if |s| < 4 {
    } else {
      var head, rest := s[..4], s[4..];
      assert s == head + rest;
      DecodedStep(URL, head, rest);
      QuantumAccepted(head);
      if rest != [] {
        AcceptsExactly(rest);
        WellFormedStep(head, rest);
        if DecodeQuantum(head).Some? {
          QuantumCanonical(head);
        }
      }
    }
  }

  lemma WellFormedStep(head: Bytes, rest: Bytes)
    requires |head| == 4 && rest != []
    ensures WellFormed(head + rest) <==> WellFormed(head) && head[3] != PAD && WellFormed(rest)
  {
    var s := head + rest;
    CharAccepted(PAD);
    assert forall i | 0 <= i < |rest| :: rest[i] == s[i + 4];
    assert forall i | 0 <= i < 4 :: head[i] == s[i];
    if WellFormed(s) {
      forall i | 0 <= i < |rest|
        ensures InAlphabet(rest[i])
          || (rest[i] == PAD && (i == |rest| - 1 || (i == |rest| - 2 && rest[|rest| - 1] == PAD)))
      {
        assert rest[i] == s[i + 4];
      }
    }
    if WellFormed(head) && head[3] != PAD && WellFormed(rest) {
      forall i | 0 <= i < |s|
        ensures InAlphabet(s[i]) || (s[i] == PAD && (i == |s| - 1 || (i == |s| - 2 && s[|s| - 1] == PAD)))
      {
        assert i >= 4 ==> s[i] == rest[i - 4];
        assert i < 4 ==> s[i] == head[i];
      }
    }
  }
}
