/**
 * The cryptographic primitives, as function values. Nothing here says how they work; each theorem
 * names the laws it needs of them.
 */
module Crypto {
  import opened Bytes
  import opened Outcomes

  const TAG_LEN := 16
  const KEY_LEN := 32

  datatype Suite = Suite(
    seal: (u8, Bytes, Bytes, Bytes, Bytes) -> Bytes,          // cipher, key, nonce, plaintext, additional data
    open: (u8, Bytes, Bytes, Bytes, Bytes) -> Option<Bytes>,  // cipher, key, nonce, box, additional data
    hash: Bytes -> Bytes,                                     // SHA-256
    hmac: (Bytes, Bytes) -> Bytes,                            // HMAC-SHA-256: key, message
    extract: (Bytes, Bytes) -> Bytes,                         // HKDF-Extract: salt, input keying material
    expand: (Bytes, Bytes, nat) -> Bytes,                     // HKDF-Expand: key, info, length
    publicKey: Bytes -> Bytes,                                // X25519 with the base point
    shared: (Bytes, Bytes) -> Bytes                           // X25519: secret key, peer public key
  )

  /** Opening undoes sealing, and a box is 16 bytes longer than what it holds. */
  ghost predicate AeadLaws(c: Suite) {
    forall id: u8, key: Bytes, nonce: Bytes, plain: Bytes, ad: Bytes ::
      |c.seal(id, key, nonce, plain, ad)| == |plain| + TAG_LEN &&
      c.open(id, key, nonce, c.seal(id, key, nonce, plain, ad), ad) == Some(plain)
  }

  /** The two sides of a Diffie-Hellman exchange compute the same 32 bytes; outputs have their fixed sizes. */
  ghost predicate KeyLaws(c: Suite) {
    && (forall a: Bytes, b: Bytes :: c.shared(a, c.publicKey(b)) == c.shared(b, c.publicKey(a)))
    && (forall a: Bytes, b: Bytes :: |c.shared(a, b)| == KEY_LEN)
    && (forall a: Bytes :: |c.publicKey(a)| == KEY_LEN)
    && (forall m: Bytes :: |c.hash(m)| == KEY_LEN)
    && (forall k: Bytes, m: Bytes :: |c.hmac(k, m)| == KEY_LEN)
    && (forall k: Bytes, info: Bytes, n: nat :: |c.expand(k, info, n)| == n)
  }

  /** The bytes of an ASCII literal. */
  function Ascii(s: string): (b: Bytes)
    ensures |b| == |s|
    ensures forall i :: 0 <= i < |s| ==> b[i] == s[i] as int % 256
  {
    seq(|s|, i requires 0 <= i < |s| => s[i] as int % 256)
  }

  function Zeros(n: nat): (b: Bytes)
    ensures |b| == n && forall i :: 0 <= i < n ==> b[i] == 0
  {
    seq(n, i => 0)
  }

  /** The one suite that LawsHaveAModel needs: a tag that is compared, and a shared secret that is not zero. */
  function PlainSuite(): Suite {
    Suite(
      (id: u8, key: Bytes, nonce: Bytes, plain: Bytes, ad: Bytes) => plain + Zeros(TAG_LEN),
      (id: u8, key: Bytes, nonce: Bytes, box: Bytes, ad: Bytes) =>
        if |box| < TAG_LEN || box[|box| - TAG_LEN..] != Zeros(TAG_LEN) then None else Some(box[..|box| - TAG_LEN]),
      (m: Bytes) => Zeros(KEY_LEN),
      (k: Bytes, m: Bytes) => Zeros(KEY_LEN),
      (salt: Bytes, ikm: Bytes) => Zeros(KEY_LEN),
      (k: Bytes, info: Bytes, n: nat) => Zeros(n),
      (sk: Bytes) => Zeros(KEY_LEN),
      (sk: Bytes, pk: Bytes) => [1] + Zeros(KEY_LEN - 1))
  }

  /** A forged box, whatever the key and the nonce. */
  ghost predicate NeverOpens(c: Suite, box: Bytes) {
    forall id: u8, key: Bytes, nonce: Bytes, ad: Bytes :: c.open(id, key, nonce, box, ad) == None
  }

  /**
   * The laws can be met together, with shared secrets that are not zero and boxes of any length that do
   * not open: neither a handshake that succeeds nor a forged record is ruled out.
   */
  lemma LawsHaveAModel(n: nat)
    requires n >= 1
    ensures var c := PlainSuite();
            && AeadLaws(c) && KeyLaws(c)
            && (forall sk: Bytes, pk: Bytes :: c.shared(sk, pk)[0] != 0)
            && exists box: Bytes :: |box| == n && NeverOpens(c, box)
  {
    var c := PlainSuite();
    forall id: u8, key: Bytes, nonce: Bytes, plain: Bytes, ad: Bytes
      ensures |c.seal(id, key, nonce, plain, ad)| == |plain| + TAG_LEN
      ensures c.open(id, key, nonce, c.seal(id, key, nonce, plain, ad), ad) == Some(plain)
    {
      var box := plain + Zeros(TAG_LEN);
      assert box[..|plain|] == plain && box[|plain|..] == Zeros(TAG_LEN);
    }
    assert AeadLaws(c) && KeyLaws(c);
    var box := Zeros(n - 1) + [1];
    if n >= TAG_LEN {
      assert box[n - TAG_LEN..][TAG_LEN - 1] == 1;
    }
    assert NeverOpens(c, box);
  }
}
