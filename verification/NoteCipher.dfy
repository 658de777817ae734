/** Note encryption: a shared secret between the sender's ephemeral scalar and the recipient's viewing
    key, and a fixed byte layout. Point packing, key derivation and the sealed box are parameters. */
module NoteCipher {
  import opened Basics
  import opened PaddedTree
  import opened Field
  import opened Circuit

  datatype Cipher = Cipher(pack: Point -> Bytes, unpack: Bytes -> Option<Point>, inSubgroup: Point -> bool,
                           kdf: (Bytes, Bytes) -> Bytes, seal: (Bytes, Bytes, Bytes) -> Bytes,
                           open: (Bytes, Bytes, Bytes) -> Option<Bytes>)

  /** Points pack to 32 bytes and unpack again, multiples of the base point are in the subgroup, and a
      sealed box adds 16 bytes and opens with the key and nonce that sealed it. */
  ghost predicate SoundCipher(pr: Primitives, c: Cipher) {
    && (forall p :: |c.pack(p)| == 32)
    && (forall p :: c.inSubgroup(p) ==> c.unpack(c.pack(p)) == Some(p))
    && (forall s :: c.inSubgroup(pr.mulBase(s)))
    && (forall k, n, pt :: |c.seal(k, n, pt)| == |pt| + 16 && c.open(k, n, c.seal(k, n, pt)) == Some(pt))
  }

  /** A cipher on a curve of one point, which seals by appending zeros. */
  function OnePointCipher(o: Point): Cipher {
    Cipher(p => seq(32, i => 0), b => Some(o), p => p == o, (s, e) => [],
           (k, n, pt) => pt + seq(16, i => 0), (k, n, ct) => if |ct| < 16 then None else Some(ct[..|ct| - 16]))
  }

  /** The facts do not contradict each other, nor those about the curve. */
  lemma SoundCipherIsPossible(pr: Primitives, o: Point)
    requires forall s :: pr.mulBase(s) == o
    ensures SoundCipher(pr, OnePointCipher(o))
  {
    var c := OnePointCipher(o);
    forall k, n, pt ensures |c.seal(k, n, pt)| == |pt| + 16 && c.open(k, n, c.seal(k, n, pt)) == Some(pt) {
      assert c.seal(k, n, pt)[..|pt|] == pt;
    }
  }

  // ----- numbers as bytes, most significant first

  function Pow256(n: nat): nat {
    if n == 0 then 1 else 256 * Pow256(n - 1)
  }

  function Be(x: nat, n: nat): (b: Bytes)
    ensures |b| == n
  {
    if n == 0 then [] else Be(x / 256, n - 1) + [x % 256]
  }

  function FromBe(b: Bytes): nat {
    if b == [] then 0 else 256 * FromBe(b[..|b| - 1]) + b[|b| - 1]
  }

  lemma {:induction false} BeRoundTrip(x: nat, n: nat)
    requires x < Pow256(n)
    ensures FromBe(Be(x, n)) == x
  {
    if n > 0 {
      BeRoundTrip(x / 256, n - 1);
      assert Be(x, n)[..n - 1] == Be(x / 256, n - 1);
    }
  }

  // ----- the cipher

  datatype Contents = Contents(amount: nat, d: nat, blinding: nat)

  /** 75 bytes whatever the values. */
  function Plaintext(o: Contents): Bytes {
    Be(o.amount, 32) + Be(o.d, 11) + Be(o.blinding, 32)
  }

  function EncryptNote(pr: Primitives, c: Cipher, esk: nat, nonce: Bytes, pkD: Point, o: Contents): Bytes {
    var rd := pr.hash1(o.d, 0x11) % L;
    var epk := pr.mulPoint(esk, pr.mulBase(rd));
    var shared := pr.mulPoint(esk, pkD);
    var key := c.kdf(c.pack(shared), c.pack(epk));
    c.pack(epk) + nonce + c.seal(key, nonce, Plaintext(o))
  }

  function DecryptNote(pr: Primitives, c: Cipher, ivk: nat, blob: Bytes): Option<Contents> {
    if |blob| < 32 + 24 + 16 then None
    else
      var epkPacked, nonce, ct := blob[..32], blob[32..56], blob[56..];
      var epk := c.unpack(epkPacked);
      if epk.None? || !c.inSubgroup(epk.value) then None
      else
        var shared := pr.mulPoint(ivk, epk.value);
        var pt := c.open(c.kdf(c.pack(shared), epkPacked), nonce, ct);
        if pt.None? || |pt.value| != 75 then None
        else Some(Contents(FromBe(pt.value[..32]), FromBe(pt.value[32..43]), FromBe(pt.value[43..75])))
  }

  // ----- arithmetic modulo the subgroup order

  lemma ModMul(a: nat, x: nat)
    ensures (a * (x % L)) % L == (a * x) % L
  {
    var q, r := x / L, x % L;
    var q', r' := (a * r) / L, (a * r) % L;
    assert a * x == (a * q + q') * L + r' by {
      assert x == q * L + r;
      Distribute(a, q, r);
    }
    DivUnique(a * x, L, a * q + q', r');
  }

  lemma Distribute(a: nat, q: nat, r: nat)
    ensures a * (q * L + r) == a * q * L + a * r
  {
  }

  /** Sender and recipient reach the same point: multiplying the transmission key by the ephemeral scalar
      is multiplying the ephemeral key by the viewing key. */
  lemma SharedSecretsAgree(pr: Primitives, esk: nat, ivk: nat, d: F)
    requires Sound(pr) && esk < L && ivk < L
    ensures pr.mulPoint(esk, DiversifiedKey(pr, ivk, d))
            == pr.mulPoint(ivk, pr.mulPoint(esk, pr.mulBase(pr.hash1(d, 0x11) % L)))
  {
    var rd := pr.hash1(d, 0x11) % L;
    ModMul(esk, ivk * rd);
    ModMul(ivk, esk * rd);
    assert esk * (ivk * rd) == ivk * (esk * rd);
  }

  predicate Encodable(o: Contents) {
    o.amount < Pow256(32) && o.d < Pow256(11) && o.blinding < Pow256(32)
  }

  lemma PlaintextParts(o: Contents)
    requires Encodable(o)
    ensures var pt := Plaintext(o);
      |pt| == 75 && Contents(FromBe(pt[..32]), FromBe(pt[32..43]), FromBe(pt[43..75])) == o
  {
    hide Pow256, Be, FromBe;
    var pt := Plaintext(o);
    assert pt[..32] == Be(o.amount, 32) && pt[32..43] == Be(o.d, 11) && pt[43..75] == Be(o.blinding, 32);
    BeRoundTrip(o.amount, 32);
    BeRoundTrip(o.d, 11);
    BeRoundTrip(o.blinding, 32);
  }

  /** Every blob has the same size, so it does not show which output is the real one. */
  lemma BlobSize(pr: Primitives, c: Cipher, esk: nat, nonce: Bytes, pkD: Point, o: Contents)
    requires SoundCipher(pr, c) && |nonce| == 24 && Encodable(o)
    ensures |EncryptNote(pr, c, esk, nonce, pkD, o)| == 147
  {
    hide Be;
  }

  /** Round trip: what is encrypted to a wallet's key for a diversifier, that wallet decrypts. */
  lemma DecryptsOwn(pr: Primitives, c: Cipher, esk: nat, nonce: Bytes, ivk: nat, o: Contents)
    requires Sound(pr) && SoundCipher(pr, c) && esk < L && ivk < L && |nonce| == 24 && Encodable(o)
    ensures DecryptNote(pr, c, ivk, EncryptNote(pr, c, esk, nonce, DiversifiedKey(pr, ivk, o.d), o)) == Some(o)
  {
    var pkD := DiversifiedKey(pr, ivk, o.d);
    var rd := pr.hash1(o.d, 0x11) % L;
    var epk := pr.mulPoint(esk, pr.mulBase(rd));
    var blob := EncryptNote(pr, c, esk, nonce, pkD, o);
    BlobSize(pr, c, esk, nonce, pkD, o);
    PlaintextParts(o);
    SharedSecretsAgree(pr, esk, ivk, o.d);
    hide Plaintext, FromBe, Be, Encodable, DiversifiedKey;
    assert epk == pr.mulBase((esk * rd) % L);
    assert c.unpack(c.pack(epk)) == Some(epk);
    assert blob[..32] == c.pack(epk) && blob[32..56] == nonce;
    var key := c.kdf(c.pack(pr.mulPoint(esk, pkD)), c.pack(epk));
    assert blob[56..] == c.seal(key, nonce, Plaintext(o));
  }

  // ----- nothing else decrypts

  predicate AllBytes(b: Bytes) {
    forall k :: 0 <= k < |b| ==> b[k] < 256
  }

  lemma {:induction false} BytesRoundTrip(b: Bytes)
    requires AllBytes(b)
    ensures FromBe(b) < Pow256(|b|) && Be(FromBe(b), |b|) == b
  {
    if b != [] {
      var front, last := b[..|b| - 1], b[|b| - 1];
      BytesRoundTrip(front);
      assert (256 * FromBe(front) + last) / 256 == FromBe(front) && (256 * FromBe(front) + last) % 256 == last;
      assert front + [last] == b;
    }
  }

  lemma PlaintextJoins(pt: Bytes)
    requires |pt| == 75 && AllBytes(pt)
    ensures var o := Contents(FromBe(pt[..32]), FromBe(pt[32..43]), FromBe(pt[43..75]));
      Encodable(o) && pt == Plaintext(o)
  {
    hide Be, FromBe, Pow256;
    var a, b, c := pt[..32], pt[32..43], pt[43..75];
    BytesRoundTrip(a);
    BytesRoundTrip(b);
    BytesRoundTrip(c);
    hide AllBytes;
    assert pt == a + b + c;
    var o := Contents(FromBe(a), FromBe(b), FromBe(c));
    assert Plaintext(o) == a + b + c;
  }

  lemma PlaintextOf(pt: Bytes, o: Contents)
    requires |pt| == 75 && AllBytes(pt)
    ensures Contents(FromBe(pt[..32]), FromBe(pt[32..43]), FromBe(pt[43..75])) == o <==>
            Encodable(o) && pt == Plaintext(o)
  {
    hide Be, FromBe, Encodable, AllBytes, Plaintext;
    PlaintextJoins(pt);
    if Encodable(o) {
      PlaintextParts(o);
    }
  }

  /** What the box yields is bytes. */
  ghost predicate OpensToBytes(c: Cipher) {
    forall k, n, ct :: c.open(k, n, ct).Some? ==> AllBytes(c.open(k, n, ct).value)
  }

  /** Exactly what decrypts: a blob that starts with a packed point of the subgroup, and whose sealed part opens,
      under the key that point and the viewing key give, to the encoding of the note. */
  lemma DecryptsIff(pr: Primitives, c: Cipher, ivk: nat, blob: Bytes, o: Contents)
    requires OpensToBytes(c)
    ensures DecryptNote(pr, c, ivk, blob) == Some(o) <==>
            && |blob| >= 72 && Encodable(o)
            && exists epk :: c.unpack(blob[..32]) == Some(epk) && c.inSubgroup(epk)
                 && c.open(c.kdf(c.pack(pr.mulPoint(ivk, epk)), blob[..32]), blob[32..56], blob[56..])
                    == Some(Plaintext(o))
  {
    hide Plaintext, FromBe, Encodable;
    if |blob| >= 72 {
      var epk := c.unpack(blob[..32]);
      if epk.Some? {
        var pt := c.open(c.kdf(c.pack(pr.mulPoint(ivk, epk.value)), blob[..32]), blob[32..56], blob[56..]);
        PlaintextSize(o);
        if pt.Some? && |pt.value| == 75 {
          PlaintextOf(pt.value, o);
        }
      }
    }
  }

  lemma PlaintextSize(o: Contents)
    ensures |Plaintext(o)| == 75
  {
    hide Be;
  }
}
