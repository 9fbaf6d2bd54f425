/** AES-GCM as the hybrid cipher uses it, with the block cipher left
    abstract. GCM encrypts by XOR with a keystream determined by the key,
    the nonce and the byte offset, and authenticates the ciphertext with a
    16-byte tag; both are parameters of the model (`Gcm`), so everything
    proved here holds for every choice of them. */
module Aead {
  import opened Base

  /** `AES_TAG_LEN`. */
  const TAG_LEN: nat := 16

  type Tag = t: seq<byte> | |t| == 16 witness seq(16, _ => 0)

  /** The cipher's two primitives: keystream byte at an offset, and the
      tag of a whole ciphertext. */
  datatype Gcm = Gcm(
    keystream: (seq<byte>, seq<byte>, nat) -> byte,
    mac: (seq<byte>, seq<byte>, seq<byte>) -> Tag)

  /** `AES.new(key, AES.MODE_GCM, nonce=nonce)` raises unless the key is
      an AES key size and the nonce is non-empty. */
  predicate CipherAccepts(key: seq<byte>, nonce: seq<byte>)
  {
    (|key| == 16 || |key| == 24 || |key| == 32) && |nonce| > 0
  }

  /** The data XOR-ed with the keystream starting at `offset`. */
  function XorStream(g: Gcm, key: seq<byte>, nonce: seq<byte>, offset: nat, data: seq<byte>): (out: seq<byte>)
    ensures |out| == |data|
  {
    seq(|data|, i requires 0 <= i < |data| => Xor(data[i], g.keystream(key, nonce, offset + i)))
  }

  /** Processing in chunks gives the same bytes as processing at once. */
  lemma XorStreamSplit(g: Gcm, key: seq<byte>, nonce: seq<byte>, offset: nat, a: seq<byte>, b: seq<byte>)
    ensures XorStream(g, key, nonce, offset, a + b)
            == XorStream(g, key, nonce, offset, a) + XorStream(g, key, nonce, offset + |a|, b)
  {
    var whole := XorStream(g, key, nonce, offset, a + b);
    var parts := XorStream(g, key, nonce, offset, a) + XorStream(g, key, nonce, offset + |a|, b);
    forall i | 0 <= i < |whole| ensures whole[i] == parts[i] {
      if i >= |a| {
        assert (a + b)[i] == b[i - |a|];
      }
    }
  }

  /** Decryption with the same key, nonce and offset undoes encryption. */
  lemma XorStreamInvolution(g: Gcm, key: seq<byte>, nonce: seq<byte>, offset: nat, data: seq<byte>)
    ensures XorStream(g, key, nonce, offset, XorStream(g, key, nonce, offset, data)) == data
  {
    var twice := XorStream(g, key, nonce, offset, XorStream(g, key, nonce, offset, data));
    forall i | 0 <= i < |data| ensures twice[i] == data[i] {
      var k := g.keystream(key, nonce, offset + i);
      XorTwice(data[i], k);
    }
  }

  /** A GCM cipher object: it remembers every ciphertext byte it has seen,
      which is what its tag covers. */
  class GcmContext {
    const g: Gcm
    const key: seq<byte>
    const nonce: seq<byte>
    var processed: seq<byte>

    constructor (g: Gcm, key: seq<byte>, nonce: seq<byte>)
      requires CipherAccepts(key, nonce)
      ensures this.g == g && this.key == key && this.nonce == nonce && processed == []
    {
      this.g := g;
      this.key := key;
      this.nonce := nonce;
      processed := [];
    }

    /** `cipher.encrypt(chunk)`: continues the keystream where the last
        call stopped. */
    method Encrypt(chunk: seq<byte>) returns (out: seq<byte>)
      modifies this
      ensures out == XorStream(g, key, nonce, |old(processed)|, chunk)
      ensures processed == old(processed) + out
    {
      out := XorStream(g, key, nonce, |processed|, chunk);
      processed := processed + out;
    }

    /** `cipher.decrypt(chunk)`. */
    method Decrypt(chunk: seq<byte>) returns (out: seq<byte>)
      modifies this
      ensures out == XorStream(g, key, nonce, |old(processed)|, chunk)
      ensures processed == old(processed) + chunk
    {
      out := XorStream(g, key, nonce, |processed|, chunk);
      processed := processed + chunk;
    }

    /** `cipher.digest()`. */
    method Digest() returns (tag: Tag)
      ensures tag == g.mac(key, nonce, processed)
    {
      tag := g.mac(key, nonce, processed);
    }

    /** `cipher.verify(tag)`, reporting instead of raising. */
    method Verify(tag: seq<byte>) returns (ok: bool)
      ensures ok <==> tag == g.mac(key, nonce, processed)
    {
      ok := tag == g.mac(key, nonce, processed);
    }
  }
}
