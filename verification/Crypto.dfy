/** The two ciphers of LAUXUS over an arbitrary keystream and an arbitrary tag function. */
module Crypto {
  import opened ByteStrings

  const KEY_SIZE := 16
  const CTR_SIZE := 16
  const IV_SIZE := 12
  const MAC_SIZE := 16
  const GCM_CONTEXT_SIZE: nat := KEY_SIZE + IV_SIZE + MAC_SIZE
  const CTR_CONTEXT_SIZE: nat := KEY_SIZE + CTR_SIZE

  type Mac = m: Bytes | |m| == MAC_SIZE witness Zeros(MAC_SIZE)

  /** Every result below holds for every choice of these functions. */
  datatype CipherSuite = CipherSuite(
    ctrStream: (Bytes, Bytes, nat) -> Byte,
    gcmStream: (Bytes, Bytes, nat) -> Byte,
    gcmTag: (Bytes, Bytes, Bytes, Bytes) -> Mac)

  /** `lauxus_ctr_t`: the key of one file block and the counter of its last encryption. */
  datatype CtrContext = CtrContext(key: Bytes, ctr: Bytes) {
    predicate Valid() {
      |key| == KEY_SIZE && |ctr| == CTR_SIZE
    }
  }

  function Xor(stream: nat -> Byte, data: Bytes): (r: Bytes)
    ensures |r| == |data|
    ensures forall i :: 0 <= i < |r| ==> r[i] == data[i] ^ stream(i)
  {
    seq(|data|, i requires 0 <= i < |data| => data[i] ^ stream(i))
  }

  lemma XorByteTwice(a: Byte, b: Byte)
    ensures (a ^ b) ^ b == a
  {
  }

  lemma XorTwice(stream: nat -> Byte, data: Bytes)
    ensures Xor(stream, Xor(stream, data)) == data
  {
    forall i | 0 <= i < |data|
      ensures Xor(stream, Xor(stream, data))[i] == data[i]
    {
      XorByteTwice(data[i], stream(i));
    }
  }

  // ----- counter mode (section 6.5 of NIST SP 800-38A): encryption and decryption are one function -----

  function Ctr(suite: CipherSuite, ctx: CtrContext, data: Bytes): (r: Bytes)
    ensures |r| == |data|
  {
    Xor((i: nat) => suite.ctrStream(ctx.key, ctx.ctr, i), data)
  }

  lemma CtrTwice(suite: CipherSuite, ctx: CtrContext, data: Bytes)
    ensures Ctr(suite, ctx, Ctr(suite, ctx, data)) == data
  {
    XorTwice((i: nat) => suite.ctrStream(ctx.key, ctx.ctr, i), data);
  }

  // ----- Galois/counter mode (sections 7.1 and 7.2 of NIST SP 800-38D) -----

  function GcmXor(suite: CipherSuite, key: Bytes, iv: Bytes, data: Bytes): (r: Bytes)
    ensures |r| == |data|
  {
    Xor((i: nat) => suite.gcmStream(key, iv, i), data)
  }

  lemma GcmXorTwice(suite: CipherSuite, key: Bytes, iv: Bytes, data: Bytes)
    ensures GcmXor(suite, key, iv, GcmXor(suite, key, iv, data)) == data
  {
    XorTwice((i: nat) => suite.gcmStream(key, iv, i), data);
  }

  /** Byte by byte, the keystream of the key and the initialisation vector is on the data. */
  lemma GcmXorAt(suite: CipherSuite, key: Bytes, iv: Bytes, data: Bytes, k: nat)
    requires k < |data|
    ensures GcmXor(suite, key, iv, data)[k] == data[k] ^ suite.gcmStream(key, iv, k)
  {
  }

  /** `lauxus_gcm_t` as a value. */
  datatype GcmState = GcmState(key: Bytes, iv: Bytes, mac: Bytes) {
    predicate Valid() {
      |key| == KEY_SIZE && |iv| == IV_SIZE && |mac| == MAC_SIZE
    }

    function Encode(): Bytes {
      key + iv + mac
    }
  }

  /** `lauxus_gcm_t` as the object that encryption and loading overwrite; the root key is one shared object. */
  class GcmContext {
    var state: GcmState

    constructor (state: GcmState)
      ensures this.state == state
    {
      this.state := state;
    }

    /** Encrypts and leaves the tag in this context. */
    method Encrypt(suite: CipherSuite, plain: Bytes, aad: Bytes) returns (cipher: Bytes)
      modifies this
      ensures cipher == GcmXor(suite, old(state.key), old(state.iv), plain)
      ensures state == old(state).(mac := suite.gcmTag(old(state.key), old(state.iv), aad, cipher))
    {
      cipher := GcmXor(suite, state.key, state.iv, plain);
      state := state.(mac := suite.gcmTag(state.key, state.iv, aad, cipher));
    }

    /** Refuses when the tag held by this context is not that of the ciphertext and the associated data. */
    method Decrypt(suite: CipherSuite, cipher: Bytes, aad: Bytes) returns (ok: bool, plain: Bytes)
      ensures ok <==> state.mac == suite.gcmTag(state.key, state.iv, aad, cipher)
      ensures ok ==> plain == GcmXor(suite, state.key, state.iv, cipher)
    {
      ok := state.mac == suite.gcmTag(state.key, state.iv, aad, cipher);
      plain := if ok then GcmXor(suite, state.key, state.iv, cipher) else [];
    }
  }

  /** `sgx_read_rand`: any bytes. */
  method ReadRand(n: nat) returns (r: Bytes)
    ensures |r| == n
  {
    r :| |r| == n by {
      assert |Zeros(n)| == n;
    }
  }
}
