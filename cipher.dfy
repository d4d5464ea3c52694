/**
 * The cipher EncryptionManager builds: BouncyCastle's `PaddedBufferedBlockCipher`
 * around `CBCBlockCipher` around `AESEngine`, initialised with a bare `KeyParameter`.
 *
 * AES (FIPS 197) itself is not modelled: the engine is any keyed permutation of
 * 16-byte blocks. Built over it are cipher block chaining (NIST SP 800-38A,
 * section 6.2) with the all-zero initialisation vector that CBCBlockCipher uses when
 * no IV is supplied, PKCS#7 padding (RFC 5652, section 6.3), and the split of the
 * work between `processBytes`, which holds back the last 1..16 input bytes, and
 * `doFinal`, which pads or unpads them.
 */
module Cipher {
  import opened Bytes
  import opened Wrappers

  /**
   * The AES block size in bytes. Remainders modulo the block size are written with the
   * literal `16`, which keeps them linear arithmetic for the verifier.
   */
  const BlockSize: nat := 16

  /** The all-zero initialisation vector. */
  function ZeroIv(): (iv: seq<byte>)
    ensures |iv| == BlockSize
  {
    Zeros(BlockSize)
  }

  /** The block cipher engine, `AESEngine`, as a pair of keyed block functions. */
  datatype Engine = Engine(
    encryptBlock: (seq<byte>, seq<byte>) -> seq<byte>,
    decryptBlock: (seq<byte>, seq<byte>) -> seq<byte>)

  /** What the rest relies on: blocks map to blocks and decryption undoes encryption. */
  ghost predicate ValidEngine(e: Engine)
  {
    && (forall key, block :: |block| == BlockSize ==> |e.encryptBlock(key, block)| == BlockSize)
    && (forall key, block :: |block| == BlockSize ==> |e.decryptBlock(key, block)| == BlockSize)
    && (forall key, block :: |block| == BlockSize ==> e.decryptBlock(key, e.encryptBlock(key, block)) == block)
  }

  /** The failures the cipher reports. */
  datatype CryptoError =
    | LastBlockIncomplete  // DataLengthException "last block incomplete in decryption"
    | PadBlockCorrupted    // InvalidCipherTextException "pad block corrupted"

  // ---------------------------------------------------------------- PKCS#7

  /** The number of padding bytes added after `n` bytes of plaintext: 1 to 16, never 0. */
  function PadLength(n: nat): (k: nat)
    ensures 1 <= k <= BlockSize
    ensures (n + k) % 16 == 0
  {
    BlockSize - n % 16
  }

  /** `p` followed by `k` copies of the byte `k`, where `k` is PadLength(|p|). */
  function Pad(p: seq<byte>): (r: seq<byte>)
    ensures |r| == |p| + PadLength(|p|)
    ensures |r| % 16 == 0 && |r| > 0
    ensures r[..|p|] == p
    ensures forall i :: |p| <= i < |r| ==> r[i] == PadLength(|p|) as byte
  {
    var k := PadLength(|p|);
    p + seq(k, _ => k as byte)
  }

  /** `PKCS7Padding.padCount`: how many padding bytes end the last plaintext block. */
  function PadCount(block: seq<byte>): (r: Result<nat, CryptoError>)
    requires |block| == BlockSize
    ensures r.Success? ==> 1 <= r.value <= BlockSize
  {
    var count := block[BlockSize - 1] as int;
    if count == 0 || count > BlockSize then Failure(PadBlockCorrupted)
    else if exists i :: BlockSize - count <= i < BlockSize && block[i] as int != count
    then Failure(PadBlockCorrupted)
    else Success(count)
  }

  /** Padding is read back exactly from the last block of a padded string. */
  lemma PadCountOfPad(p: seq<byte>)
    ensures var r := Pad(p);
            PadCount(r[|r| - BlockSize..]) == Success(PadLength(|p|))
  {
    var r := Pad(p);
    var last := r[|r| - BlockSize..];
    var k := PadLength(|p|);
    assert last[BlockSize - 1] == r[|r| - 1];
    forall i | BlockSize - k <= i < BlockSize ensures last[i] as int == k {
      assert last[i] == r[|r| - BlockSize + i];
    }
  }

  // ---------------------------------------------------------------- CBC

  /** CBC encryption of whole blocks, chaining from `prev`. */
  function CbcEncrypt(e: Engine, key: seq<byte>, prev: seq<byte>, p: seq<byte>): (c: seq<byte>)
    requires ValidEngine(e) && |prev| == BlockSize && |p| % 16 == 0
    ensures |c| == |p|
    decreases |p|
  {
    if p == [] then [] else
    var block := e.encryptBlock(key, Xor(p[..BlockSize], prev));
    block + CbcEncrypt(e, key, block, p[BlockSize..])
  }

  /** CBC decryption of whole blocks, chaining from `prev`. */
  function CbcDecrypt(e: Engine, key: seq<byte>, prev: seq<byte>, c: seq<byte>): (p: seq<byte>)
    requires ValidEngine(e) && |prev| == BlockSize && |c| % 16 == 0
    ensures |p| == |c|
    decreases |c|
  {
    if c == [] then [] else
    Xor(e.decryptBlock(key, c[..BlockSize]), prev) + CbcDecrypt(e, key, c[..BlockSize], c[BlockSize..])
  }

  /** The chaining value after `c`: its last block, or `prev` when `c` is empty. */
  function LastBlock(prev: seq<byte>, c: seq<byte>): (b: seq<byte>)
    requires |prev| == BlockSize && |c| % 16 == 0
    ensures |b| == BlockSize
  {
    if c == [] then prev else c[|c| - BlockSize..]
  }

  /** CBC decryption undoes CBC encryption from the same chaining value. */
  lemma {:induction false} CbcRoundTrip(e: Engine, key: seq<byte>, prev: seq<byte>, p: seq<byte>)
    requires ValidEngine(e) && |prev| == BlockSize && |p| % 16 == 0
    ensures CbcDecrypt(e, key, prev, CbcEncrypt(e, key, prev, p)) == p
    decreases |p|
  {
    if p != [] {
      var x := Xor(p[..BlockSize], prev);
      var block := e.encryptBlock(key, x);
      var c := CbcEncrypt(e, key, prev, p);
      assert c[..BlockSize] == block && c[BlockSize..] == CbcEncrypt(e, key, block, p[BlockSize..]);
      XorCancel(p[..BlockSize], prev);
      CbcRoundTrip(e, key, block, p[BlockSize..]);
      assert p == p[..BlockSize] + p[BlockSize..];
    }
  }

  /** Encrypting in two pieces, the second chained from the first's last block. */
  lemma {:induction false} CbcEncryptSplit(e: Engine, key: seq<byte>, prev: seq<byte>, a: seq<byte>, b: seq<byte>)
    requires ValidEngine(e) && |prev| == BlockSize && |a| % 16 == 0 && |b| % 16 == 0
    ensures CbcEncrypt(e, key, prev, a + b)
         == CbcEncrypt(e, key, prev, a) + CbcEncrypt(e, key, LastBlock(prev, CbcEncrypt(e, key, prev, a)), b)
    decreases |a|
  {
    if a == [] {
      assert a + b == b;
    } else {
      var block := e.encryptBlock(key, Xor(a[..BlockSize], prev));
      assert (a + b)[..BlockSize] == a[..BlockSize];
      assert (a + b)[BlockSize..] == a[BlockSize..] + b;
      CbcEncryptSplit(e, key, block, a[BlockSize..], b);
      var rest := CbcEncrypt(e, key, block, a[BlockSize..]);
      assert CbcEncrypt(e, key, prev, a) == block + rest;
      assert LastBlock(prev, block + rest) == LastBlock(block, rest);
    }
  }

  /** Decrypting in two pieces, the second chained from the first's last block. */
  lemma {:induction false} CbcDecryptSplit(e: Engine, key: seq<byte>, prev: seq<byte>, a: seq<byte>, b: seq<byte>)
    requires ValidEngine(e) && |prev| == BlockSize && |a| % 16 == 0 && |b| % 16 == 0
    ensures CbcDecrypt(e, key, prev, a + b)
         == CbcDecrypt(e, key, prev, a) + CbcDecrypt(e, key, LastBlock(prev, a), b)
    decreases |a|
  {
    if a == [] {
      assert a + b == b;
    } else {
      assert (a + b)[..BlockSize] == a[..BlockSize];
      assert (a + b)[BlockSize..] == a[BlockSize..] + b;
      CbcDecryptSplit(e, key, a[..BlockSize], a[BlockSize..], b);
      assert LastBlock(prev, a) == LastBlock(a[..BlockSize], a[BlockSize..]);
    }
  }

  // ---------------------------------------------------------------- the buffered cipher

  /** An initialised `PaddedBufferedBlockCipher(new CBCBlockCipher(engine))` with an empty buffer. */
  datatype PaddedCbcCipher = PaddedCbcCipher(engine: Engine, key: seq<byte>, forEncryption: bool)

  /** `getOutputSize(len)`: the size of the output array the caller allocates. */
  function OutputSize(c: PaddedCbcCipher, len: nat): nat
  {
    var leftOver := len % 16;
    if leftOver == 0 then (if c.forEncryption then len + BlockSize else len)
    else len - leftOver + BlockSize
  }

  /** The input bytes `processBytes` keeps in its buffer for `doFinal`: the last 1..16, none of none. */
  function Held(len: nat): (h: nat)
    ensures h <= len && h <= BlockSize && (len - h) % 16 == 0
    ensures len > 0 ==> h > 0
  {
    if len == 0 then 0 else (len - 1) % 16 + 1
  }

  /** What `processBytes(input, 0, |input|, out, 0)` writes: every block but the held-back bytes. */
  function ProcessBytes(c: PaddedCbcCipher, input: seq<byte>): (out: seq<byte>)
    requires ValidEngine(c.engine)
    ensures |out| == |input| - Held(|input|)
  {
    var body := input[..|input| - Held(|input|)];
    if c.forEncryption then CbcEncrypt(c.engine, c.key, ZeroIv(), body)
    else CbcDecrypt(c.engine, c.key, ZeroIv(), body)
  }

  /**
   * What `doFinal` writes after that. Encryption pads the held bytes and encrypts one
   * or two blocks. Decryption needs exactly one whole held block, decrypts it and drops
   * its padding.
   */
  function DoFinal(c: PaddedCbcCipher, input: seq<byte>): (r: Result<seq<byte>, CryptoError>)
    requires ValidEngine(c.engine)
  {
    var m := |input| - Held(|input|);
    if c.forEncryption then
      var prev := LastBlock(ZeroIv(), CbcEncrypt(c.engine, c.key, ZeroIv(), input[..m]));
      Success(CbcEncrypt(c.engine, c.key, prev, Pad(input[m..])))
    else if Held(|input|) != BlockSize then
      Failure(LastBlockIncomplete)
    else
      var last := Xor(c.engine.decryptBlock(c.key, input[m..]), LastBlock(ZeroIv(), input[..m]));
      match PadCount(last)
      case Failure(err) => Failure(err)
      case Success(count) => Success(last[..BlockSize - count])
  }

  /** Whatever `processBytes` and `doFinal` write fits in the `getOutputSize` array. */
  lemma OutputFits(c: PaddedCbcCipher, input: seq<byte>)
    requires ValidEngine(c.engine)
    ensures |ProcessBytes(c, input)| <= OutputSize(c, |input|)
    ensures DoFinal(c, input).Success? ==>
              |ProcessBytes(c, input)| + |DoFinal(c, input).value| <= OutputSize(c, |input|)
  {
    var m := |input| - Held(|input|);
    if c.forEncryption {
      assert |Pad(input[m..])| == Held(|input|) + PadLength(Held(|input|));
    }
  }

  /**
   * Encryption fills the output array exactly: the result is the CBC encryption of the
   * padded plaintext, with no bytes left over.
   */
  lemma EncryptionFillsOutput(e: Engine, key: seq<byte>, p: seq<byte>)
    requires ValidEngine(e)
    ensures var c := PaddedCbcCipher(e, key, true);
            && DoFinal(c, p) .Success?
            && ProcessBytes(c, p) + DoFinal(c, p).value == CbcEncrypt(e, key, ZeroIv(), Pad(p))
            && OutputSize(c, |p|) == |Pad(p)|
  {
    var c := PaddedCbcCipher(e, key, true);
    var m := |p| - Held(|p|);
    var head, tail := p[..m], p[m..];
    assert p == head + tail;
    assert PadLength(|tail|) == PadLength(|p|);
    assert Pad(p) == head + Pad(tail);
    CbcEncryptSplit(e, key, ZeroIv(), head, Pad(tail));
  }

  /**
   * Decrypting what encryption produced gives back the plaintext followed by as many
   * zero bytes as there were padding bytes: `doFinal` writes only the unpadded part of
   * the last block and the rest of the `getOutputSize` array keeps its initial zeros.
   */
  lemma DecryptionOfEncryption(e: Engine, key: seq<byte>, p: seq<byte>)
    requires ValidEngine(e)
    ensures var c := PaddedCbcCipher(e, key, false);
            var ct := CbcEncrypt(e, key, ZeroIv(), Pad(p));
            && DoFinal(c, ct).Success?
            && ProcessBytes(c, ct) + DoFinal(c, ct).value == p
            && OutputSize(c, |ct|) == |p| + PadLength(|p|)
  {
    var c := PaddedCbcCipher(e, key, false);
    var padded := Pad(p);
    var ct := CbcEncrypt(e, key, ZeroIv(), padded);
    var n := |ct|;
    var m := n - BlockSize;
    assert Held(n) == BlockSize;
    CbcRoundTrip(e, key, ZeroIv(), padded);
    assert ct == ct[..m] + ct[m..];
    CbcDecryptSplit(e, key, ZeroIv(), ct[..m], ct[m..]);
    var prev := LastBlock(ZeroIv(), ct[..m]);
    var last := Xor(e.decryptBlock(key, ct[m..]), prev);
    assert ct[m..][..BlockSize] == ct[m..] && ct[m..][BlockSize..] == [];
    assert CbcDecrypt(e, key, prev, ct[m..]) == last + CbcDecrypt(e, key, ct[m..], []);
    assert padded == CbcDecrypt(e, key, ZeroIv(), ct[..m]) + last;
    assert last == padded[m..];
    PadCountOfPad(p);
    var k := PadLength(|p|);
    assert padded[..m] + last[..BlockSize - k] == padded[..|p|];
  }
}
