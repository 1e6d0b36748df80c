/** The encryption-at-rest primitive, over an abstract AEAD and an abstract HMAC. */
module Vaults {
  import opened Bytes

  const NONCE_SIZE := 24
  const MAC_SIZE := 32

  type Nonce = n: seq<byte> | |n| == NONCE_SIZE witness seq(NONCE_SIZE, _ => 0)

  /** A key, as what it computes: authenticated encryption and its inverse, and HMAC-SHA256 under the
      sub-key of the audit chain. */
  datatype Vault = Vault(
    seal: (seq<byte>, seq<byte>) -> seq<byte>,
    open: (seq<byte>, seq<byte>) -> Option<seq<byte>>,
    hmac: seq<byte> -> seq<byte>
  )

  /** The laws the model rests on: opening undoes sealing, and a MAC has 32 bytes. */
  ghost predicate Sound(v: Vault) {
    && (forall n, p :: v.open(n, v.seal(n, p)) == Some(p))
    && (forall m :: |v.hmac(m)| == MAC_SIZE)
  }

  /** The link of the audit chain: the HMAC of `prev` followed by `msg`. */
  function Mac(v: Vault, prev: seq<byte>, msg: seq<byte>): seq<byte> {
    v.hmac(prev + msg)
  }

  /** The nonce followed by the ciphertext. The random nonce is an argument. */
  function Seal(v: Vault, nonce: Nonce, plain: seq<byte>): (blob: seq<byte>)
    ensures |blob| >= NONCE_SIZE
  {
    nonce + v.seal(nonce, plain)
  }

  function Open(v: Vault, blob: seq<byte>): (plain: Option<seq<byte>>)
    ensures |blob| < 24 ==> plain == None
  {
    if |blob| < NONCE_SIZE then None else v.open(blob[..NONCE_SIZE], blob[NONCE_SIZE..])
  }

  /** The first 24 bytes of a blob are the nonce it was sealed with, the rest is the ciphertext. */
  lemma BlobForm(v: Vault, nonce: Nonce, ct: seq<byte>, plain: seq<byte>)
    ensures |nonce| == 24 && Open(v, nonce + ct) == v.open(nonce, ct)
    ensures ct == v.seal(nonce, plain) ==> Seal(v, nonce, plain) == nonce + ct
  {
    var blob := nonce + ct;
    assert blob[..NONCE_SIZE] == nonce && blob[NONCE_SIZE..] == ct;
  }

  lemma OpenSealed(v: Vault, nonce: Nonce, plain: seq<byte>)
    requires Sound(v)
    ensures Open(v, Seal(v, nonce, plain)) == Some(plain)
  {
    var blob := Seal(v, nonce, plain);
    assert blob[..NONCE_SIZE] == nonce && blob[NONCE_SIZE..] == v.seal(nonce, plain);
  }
}
