/**
 Sealed boxes: nonce, authenticator and ciphertext in one buffer. The cipher is concrete where the
 layout matters (a keystream is xored in, a 16-byte authenticator covers the ciphertext) and
 arbitrary otherwise.
 */
module SecretBox {
  import opened Wrappers

  const NONCE_SIZE := 24
  const OVERHEAD := 16


  /** The keystream byte at a position, and the authenticator byte at a position. */
  datatype Cipher = Cipher(stream: (Bytes, Bytes, nat) -> bv8, mac: (Bytes, Bytes, Bytes, nat) -> bv8)

  datatype Opened = Message(m: Bytes) | ErrFormat | ErrDecrypt

  function Crypt(c: Cipher, key: Bytes, nonce: Bytes, text: Bytes): (r: Bytes)
    ensures |r| == |text|
  {
    seq(|text|, i requires 0 <= i < |text| => text[i] ^ c.stream(key, nonce, i))
  }

  function Tag(c: Cipher, key: Bytes, nonce: Bytes, ciphertext: Bytes): (r: Bytes)
    ensures |r| == OVERHEAD
  {
    seq(OVERHEAD, i requires 0 <= i < OVERHEAD => c.mac(key, nonce, ciphertext, i))
  }

  /** The layout of a box. */
  function Sealed(c: Cipher, key: Bytes, nonce: Bytes, message: Bytes): Bytes {
    var ciphertext := Crypt(c, key, nonce, message);
    nonce + Tag(c, key, nonce, ciphertext) + ciphertext
  }

  /** A box byte by byte: nonce, authenticator over what follows it, message xored with the keystream. */
  ghost predicate IsBox(c: Cipher, key: Bytes, nonce: Bytes, message: Bytes, box: Bytes)
    requires |nonce| == NONCE_SIZE
  {
    && |box| == 40 + |message|
    && (forall i | 0 <= i < 24 :: box[i] == nonce[i])
    && (forall i | 0 <= i < 16 :: box[24 + i] == c.mac(key, nonce, box[40..], i))
    && (forall i | 0 <= i < |message| :: box[40 + i] == message[i] ^ c.stream(key, nonce, i))
  }

  /** Some byte of the authenticator is not the one that belongs to the rest of the box. */
  ghost predicate Forged(c: Cipher, key: Bytes, box: Bytes) {
    |box| >= 40 && exists i | 0 <= i < 16 :: box[24 + i] != c.mac(key, box[..24], box[40..], i)
  }

  lemma SealedIsBox(c: Cipher, key: Bytes, nonce: Bytes, message: Bytes)
    requires |nonce| == NONCE_SIZE
    ensures IsBox(c, key, nonce, message, Sealed(c, key, nonce, message))
  {
    var ciphertext := Crypt(c, key, nonce, message);
    var tag := Tag(c, key, nonce, ciphertext);
    var box := nonce + tag + ciphertext;
    assert box[40..] == ciphertext;
    assert forall i | 0 <= i < 16 :: box[24 + i] == tag[i];
    assert forall i | 0 <= i < |message| :: box[40 + i] == ciphertext[i];
  }

  /** A box of full size is opened exactly when it is not forged. */
  lemma OpensUnlessForged(c: Cipher, key: Bytes, box: Bytes)
    requires |box| >= NONCE_SIZE + OVERHEAD
    ensures NaclOpen(c, box[NONCE_SIZE..], box[..NONCE_SIZE], key).Some? <==> !Forged(c, key, box)
    ensures var m := NaclOpen(c, box[NONCE_SIZE..], box[..NONCE_SIZE], key);
      m.Some? ==> IsBox(c, key, box[..24], m.value, box)
  {
    var rest, nonce := box[NONCE_SIZE..], box[..NONCE_SIZE];
    var tag := Tag(c, key, nonce, box[40..]);
    assert rest[OVERHEAD..] == box[40..];
    assert forall i | 0 <= i < 16 :: rest[..OVERHEAD][i] == box[24 + i];
    assert rest[..OVERHEAD] != tag <==> exists i | 0 <= i < 16 :: rest[..OVERHEAD][i] != tag[i];
    var m := NaclOpen(c, rest, nonce, key);
    if m.Some? {
      OpensExactlySeals(c, key, box);
      SealedIsBox(c, key, nonce, m.value);
    }
  }

  // ---------------------------------------------------------------- methods

  /** copy(dst[at:], src) */
  method Copy(dst: array<bv8>, at: nat, src: Bytes)
    requires at + |src| <= dst.Length
    modifies dst
    ensures dst[..] == old(dst[..at]) + src + old(dst[at + |src|..])
  {
    for i := 0 to |src|
      invariant dst[..] == old(dst[..at]) + src[..i] + old(dst[at + i..])
    {
      dst[at + i] := src[i];
    }
    assert src[..|src|] == src;
  }

  /** nacl/secretbox Seal: appends authenticator and ciphertext to `out`. */
  method NaclSeal(c: Cipher, out: array<bv8>, message: Bytes, nonce: Bytes, key: Bytes) returns (r: array<bv8>)
    ensures fresh(r)
    ensures var ciphertext := Crypt(c, key, nonce, message);
      r[..] == out[..] + Tag(c, key, nonce, ciphertext) + ciphertext
  {
    var ciphertext := Crypt(c, key, nonce, message);
    var tag := Tag(c, key, nonce, ciphertext);
    r := new bv8[out.Length + OVERHEAD + |message|];
    Copy(r, 0, out[..]);
    Copy(r, out.Length, tag);
    Copy(r, out.Length + OVERHEAD, ciphertext);
  }

  /** nacl/secretbox Open: checks the authenticator before it decrypts. */
  function NaclOpen(c: Cipher, box: Bytes, nonce: Bytes, key: Bytes): Option<Bytes> {
    if |box| < OVERHEAD || box[..OVERHEAD] != Tag(c, key, nonce, box[OVERHEAD..]) then None
    else Some(Crypt(c, key, nonce, box[OVERHEAD..]))
  }

  method SecretBoxSeal(c: Cipher, key: Bytes, nonce: Bytes, message: Bytes) returns (box: array<bv8>)
    requires |nonce| == NONCE_SIZE
    ensures fresh(box) && box[..] == Sealed(c, key, nonce, message)
    ensures IsBox(c, key, nonce, message, box[..])
  {
    SealedIsBox(c, key, nonce, message);
    var out := new bv8[NONCE_SIZE];
    Copy(out, 0, nonce);
    assert out[..] == nonce;
    box := NaclSeal(c, out, message, nonce, key);
    assert |box[..]| == box.Length;
  }

  /**
   A box is refused for its size, refused for its authenticator, or it is exactly the seal of the
   returned message under the nonce in its front.
   */
  method SecretBoxOpen(c: Cipher, key: Bytes, box: Bytes) returns (r: Opened)
    ensures r.ErrFormat? <==> |box| < NONCE_SIZE + OVERHEAD
    ensures forall m :: r == Message(m) <==>
      |box| >= NONCE_SIZE + OVERHEAD && box == Sealed(c, key, box[..NONCE_SIZE], m)
    ensures r.ErrDecrypt? <==> Forged(c, key, box)
    ensures r.Message? ==> IsBox(c, key, box[..24], r.m, box)
  {
    if |box| < NONCE_SIZE + OVERHEAD {
      return ErrFormat;
    }
    OpensExactlySeals(c, key, box);
    OpensUnlessForged(c, key, box);
    var nonce := new bv8[NONCE_SIZE];
    Copy(nonce, 0, box[..NONCE_SIZE]);
    assert nonce[..] == box[..NONCE_SIZE];
    var message := NaclOpen(c, box[NONCE_SIZE..], nonce[..], key);
    if message.None? {
      return ErrDecrypt;
    }
    return Message(message.value);
  }

  /** io.ReadFull fills the nonce from the front of what the source delivers, or fails. */
  method SecretBoxNonceGen(entropy: Bytes) returns (nonce: Option<Bytes>)
    ensures nonce == if |entropy| < NONCE_SIZE then None else Some(entropy[..NONCE_SIZE])
  {
    if |entropy| < NONCE_SIZE {
      return None;
    }
    var buf := new bv8[NONCE_SIZE];
    Copy(buf, 0, entropy[..NONCE_SIZE]);
    assert buf[..] == entropy[..NONCE_SIZE];
    return Some(buf[..]);
  }

  /**
   Encrypt of a container: it fails exactly when the nonce cannot be read, and else gives a box that
   carries the nonce in front and opens to the payload.
   */
  method Encrypt(c: Cipher, key: Bytes, entropy: Bytes, payload: Bytes) returns (r: Option<Bytes>)
    ensures r.None? <==> |entropy| < NONCE_SIZE
    ensures r.Some? ==>
      && IsBox(c, key, entropy[..NONCE_SIZE], payload, r.value) && r.value[..NONCE_SIZE] == entropy[..NONCE_SIZE]
      && NaclOpen(c, r.value[NONCE_SIZE..], r.value[..NONCE_SIZE], key) == Some(payload)
  {
    var nonce := SecretBoxNonceGen(entropy);
    if nonce.None? {
      return None;
    }
    var box := SecretBoxSeal(c, key, nonce.value, payload);
    SealOpens(c, key, nonce.value, payload);
    return Some(box[..]);
  }

  // ------------------------------------------------------------------- laws

  /** Encrypting twice with one keystream gives the text back. */
  lemma CryptTwice(c: Cipher, key: Bytes, nonce: Bytes, text: Bytes)
    ensures Crypt(c, key, nonce, Crypt(c, key, nonce, text)) == text
  {
    forall i | 0 <= i < |text| ensures Crypt(c, key, nonce, Crypt(c, key, nonce, text))[i] == text[i] {
      XorTwice(text[i], c.stream(key, nonce, i));
    }
  }

  lemma XorTwice(x: bv8, y: bv8)
    ensures (x ^ y) ^ y == x
  {
  }

  /** What NaclOpen accepts after the nonce is exactly what Sealed puts there. */
  lemma OpensExactlySeals(c: Cipher, key: Bytes, box: Bytes)
    requires |box| >= NONCE_SIZE + OVERHEAD
    ensures forall m :: NaclOpen(c, box[NONCE_SIZE..], box[..NONCE_SIZE], key) == Some(m)
                   <==> box == Sealed(c, key, box[..NONCE_SIZE], m)
  {
    var nonce, rest := box[..NONCE_SIZE], box[NONCE_SIZE..];
    var ciphertext := rest[OVERHEAD..];
    assert box == nonce + rest[..OVERHEAD] + ciphertext;
    CryptTwice(c, key, nonce, ciphertext);
    forall m ensures NaclOpen(c, rest, nonce, key) == Some(m) <==> box == Sealed(c, key, nonce, m) {
      CryptTwice(c, key, nonce, m);
      var sealedText := Crypt(c, key, nonce, m);
      var sealed := Sealed(c, key, nonce, m);
      assert sealed[NONCE_SIZE + OVERHEAD..] == sealedText;
      assert sealed[NONCE_SIZE..][..OVERHEAD] == Tag(c, key, nonce, sealedText);
      if box == sealed {
        assert ciphertext == box[NONCE_SIZE + OVERHEAD..] == sealedText;
      }
    }
  }

  /** Round trip: every sealed message opens to itself. */
  lemma SealOpens(c: Cipher, key: Bytes, nonce: Bytes, m: Bytes)
    requires |nonce| == NONCE_SIZE
    ensures var box := Sealed(c, key, nonce, m);
      && |box| == NONCE_SIZE + OVERHEAD + |m| && box[..NONCE_SIZE] == nonce
      && NaclOpen(c, box[NONCE_SIZE..], box[..NONCE_SIZE], key) == Some(m)
  {
    var box := Sealed(c, key, nonce, m);
    assert box[..NONCE_SIZE] == nonce;
    OpensExactlySeals(c, key, box);
  }
}
