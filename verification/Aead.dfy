/** Authenticated encryption with associated data, by its interface alone (section 2 of RFC 5116). */
module Aead {
  import opened Bytes
  import opened Wrappers

  const KEY_LEN: nat := 32
  const NONCE_LEN: nat := 12
  const TAG_LEN: nat := 16

  /** How many bytes of associated data a framed block carries. */
  const AD_LEN: nat := 14

  type Key = k: Bytes | |k| == KEY_LEN witness seq(KEY_LEN, _ => 0)
  type Nonce = n: Bytes | |n| == NONCE_LEN witness seq(NONCE_LEN, _ => 0)

  /** `encrypt` and `decrypt` take the key, the nonce, the associated data and the message. */
  datatype Cipher = Cipher(
    encrypt: (Key, Nonce, Bytes, Bytes) -> Bytes,
    decrypt: (Key, Nonce, Bytes, Bytes) -> Option<Bytes>)
  {
    /** Sealing adds the tag, opening undoes sealing, and the associated data is authenticated. */
    ghost predicate Lawful() {
      && (forall k, n, a, m :: |encrypt(k, n, a, m)| == |m| + TAG_LEN)
      && (forall k, n, a, m :: decrypt(k, n, a, encrypt(k, n, a, m)) == Some(m))
      && (forall k, n, a, x ::
            decrypt(k, n, a, x).Some? ==> |x| == |decrypt(k, n, a, x).value| + TAG_LEN)
      && (forall k, n, a, b, m {:trigger decrypt(k, n, b, encrypt(k, n, a, m))} ::
            |a| == |b| == AD_LEN && a != b ==> decrypt(k, n, b, encrypt(k, n, a, m)).None?)
    }
  }

  function ToyTag(ad: Bytes): (tag: Bytes)
    ensures |tag| == TAG_LEN
    ensures |ad| == AD_LEN ==> tag[..AD_LEN] == ad
  {
    seq(TAG_LEN, i requires 0 <= i => if i < |ad| && i < AD_LEN then ad[i] else 0)
  }

  /** A cipher that hides nothing and still obeys every law, so the laws contradict nothing. */
  function ToyCipher(): Cipher {
    Cipher(
      (k, n, a, m) => m + ToyTag(a),
      (k, n, a, x) =>
        if |x| >= TAG_LEN && x[|x| - TAG_LEN..] == ToyTag(a) then Some(x[..|x| - TAG_LEN]) else None)
  }

  lemma LawfulCipherExists()
    ensures ToyCipher().Lawful()
  {
    var c := ToyCipher();
    forall k: Key, n: Nonce, a: Bytes, b: Bytes, m: Bytes
      ensures c.decrypt(k, n, a, c.encrypt(k, n, a, m)) == Some(m)
      ensures |a| == |b| == AD_LEN && a != b ==> c.decrypt(k, n, b, c.encrypt(k, n, a, m)).None?
    {
      var x := c.encrypt(k, n, a, m);
      assert x[..|x| - TAG_LEN] == m && x[|x| - TAG_LEN..] == ToyTag(a);
    }
  }
}
