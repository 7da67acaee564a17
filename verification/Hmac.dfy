/** XcHMAC and its piecemeal form, over a hash that is left abstract. */
module Hmac {
  import opened Bytes

  const DIGEST_SIZE := 20
  const HMAC_K_PADSIZE := 64
  const KI_XOR_FACTOR: byte := 0x36
  const KO_XOR_FACTOR: byte := 0x5C

  type Digest = d: seq<byte> | |d| == DIGEST_SIZE witness Zeros(DIGEST_SIZE)

  /** The hash function, of which only the length of its result is known. */
  type Hash = seq<byte> -> Digest

  function Constant(b: byte, n: nat): (r: seq<byte>)
    ensures |r| == n
  {
    seq(n, _ => b)
  }

  /** The key, cut to the pad size and filled up with zeros. */
  function Pad(key: seq<byte>): (r: seq<byte>)
    ensures |r| == HMAC_K_PADSIZE
  {
    if |key| > HMAC_K_PADSIZE then key[..HMAC_K_PADSIZE] else key + Zeros(HMAC_K_PADSIZE - |key|)
  }

  function KeyBlock(key: seq<byte>, factor: byte): (r: seq<byte>)
    ensures |r| == HMAC_K_PADSIZE
  {
    Xor(Pad(key), Constant(factor, HMAC_K_PADSIZE))
  }

  /** What XcHMAC computes. */
  function Mac(sha: Hash, key: seq<byte>, data: seq<byte>): Digest {
    sha(KeyBlock(key, KO_XOR_FACTOR) + sha(KeyBlock(key, KI_XOR_FACTOR) + data))
  }

  // ----- Against section 2 of RFC 2104 -----

  /** HMAC as section 2 of RFC 2104 defines it: a key longer than a block is hashed. */
  function Rfc2104(sha: Hash, key: seq<byte>, text: seq<byte>): Digest {
    var k := if |key| > HMAC_K_PADSIZE then sha(key) else key;
    var k0 := k + Zeros(HMAC_K_PADSIZE - |k|);
    sha(Xor(k0, Constant(0x5C, 64)) + sha(Xor(k0, Constant(0x36, 64)) + text))
  }

  /** The code cuts a long key where RFC 2104 hashes it, so what it computes is always the
      RFC's value for the first 64 bytes of the key. */
  lemma MacIsRfc2104OfCutKey(sha: Hash, key: seq<byte>, data: seq<byte>)
    ensures Mac(sha, key, data)
         == Rfc2104(sha, if |key| > HMAC_K_PADSIZE then key[..HMAC_K_PADSIZE] else key, data)
  {
    var cut := if |key| > HMAC_K_PADSIZE then key[..HMAC_K_PADSIZE] else key;
    assert Pad(key) == cut + Zeros(HMAC_K_PADSIZE - |cut|);
  }

  /** The nesting, and the two masks on the key's bytes with zeros behind them. */
  lemma MacIsNested(sha: Hash, key: seq<byte>, data: seq<byte>, inner: seq<byte>, outer: seq<byte>)
    requires |inner| == |outer| == 64
    requires forall k :: 0 <= k < 64 ==>
               && inner[k] == XorByte(if k < |key| then key[k] else 0, 0x36)
               && outer[k] == XorByte(if k < |key| then key[k] else 0, 0x5C)
    ensures Mac(sha, key, data) == sha(outer + sha(inner + data))
  {
    hide XorByte;
    KeyBlockBytes(key, 0x36, inner);
    KeyBlockBytes(key, 0x5C, outer);
  }

  lemma KeyBlockBytes(key: seq<byte>, factor: byte, block: seq<byte>)
    requires |block| == 64
    requires forall k :: 0 <= k < 64 ==> block[k] == XorByte(if k < |key| then key[k] else 0, factor)
    ensures KeyBlock(key, factor) == block
  {
    hide XorByte;
    forall k | 0 <= k < 64
      ensures KeyBlock(key, factor)[k] == block[k]
    {
      assert Pad(key)[k] == if k < |key| then key[k] else 0;
    }
  }

  /** A hash that tells a key from everything else: the key gets a digest of its own, other
      strings their first bytes. */
  ghost function Telling(key: seq<byte>, digest: Digest): Hash {
    s => if s == key then digest else (s + Zeros(DIGEST_SIZE))[..DIGEST_SIZE]
  }

  lemma TellingFirst(key: seq<byte>, digest: Digest, s: seq<byte>)
    requires |s| >= DIGEST_SIZE && s != key
    ensures Telling(key, digest)(s)[0] == s[0]
  {
  }

  lemma KeyBlockFirst(key: seq<byte>, factor: byte)
    requires key != []
    ensures KeyBlock(key, factor)[0] == XorByte(key[0], factor)
  {
  }

  /** For a key longer than a block there is always a hash that shows the difference: the code
      masks the key's first byte, the RFC that of the key's digest. */
  lemma LongKeyDiffers(key: seq<byte>) returns (sha: Hash)
    requires |key| > HMAC_K_PADSIZE
    ensures forall data :: Mac(sha, key, data) != Rfc2104(sha, key, data)
  {
    var masked := XorByte(key[0], KO_XOR_FACTOR);
    var b: byte := if key[0] != 0 && masked != 0 then 0 else if key[0] != 1 && masked != 1 then 1 else 2;
    var digest: Digest := [b] + Zeros(DIGEST_SIZE - 1);
    sha := Telling(key, digest);
    forall data
      ensures Mac(sha, key, data) != Rfc2104(sha, key, data)
    {
      FirstBytesDiffer(key, digest, data);
    }
  }

  lemma FirstBytesDiffer(key: seq<byte>, digest: Digest, data: seq<byte>)
    requires |key| > HMAC_K_PADSIZE && digest[0] != key[0] && digest[0] != XorByte(key[0], KO_XOR_FACTOR)
    ensures Mac(Telling(key, digest), key, data)[0] != Rfc2104(Telling(key, digest), key, data)[0]
  {
    hide KeyBlock, Telling, XorByte;
    var sha := Telling(key, digest);
    var k0 := digest + Zeros(HMAC_K_PADSIZE - DIGEST_SIZE);
    TellingKey(key, digest);
    var outer := KeyBlock(key, KO_XOR_FACTOR) + sha(KeyBlock(key, KI_XOR_FACTOR) + data);
    var outer' := Xor(k0, Constant(0x5C, 64)) + sha(Xor(k0, Constant(0x36, 64)) + data);
    KeyBlockFirst(key, KO_XOR_FACTOR);
    assert outer[0] == XorByte(key[0], KO_XOR_FACTOR);
    assert outer'[0] == XorByte(digest[0], KO_XOR_FACTOR);
    if XorByte(digest[0], KO_XOR_FACTOR) == XorByte(key[0], KO_XOR_FACTOR) {
      XorByteTwice(digest[0], KO_XOR_FACTOR);
      XorByteTwice(key[0], KO_XOR_FACTOR);
    }
    XorByteKeepsIff(key[0], KO_XOR_FACTOR);
    TellingFirst(key, digest, outer);
    if outer' != key { TellingFirst(key, digest, outer'); }
  }

  lemma TellingKey(key: seq<byte>, digest: Digest)
    ensures Telling(key, digest)(key) == digest
  {
  }

  /** The code computes the HMAC of RFC 2104, whatever the hash and the data, for exactly the
      keys of at most 64 bytes. */
  lemma MacIsRfc2104Iff(key: seq<byte>)
    ensures (forall sha: Hash, data: seq<byte> :: Mac(sha, key, data) == Rfc2104(sha, key, data))
       <==> |key| <= HMAC_K_PADSIZE
  {
    hide Mac, Rfc2104;
    if |key| <= HMAC_K_PADSIZE {
      forall sha: Hash, data: seq<byte>
        ensures Mac(sha, key, data) == Rfc2104(sha, key, data)
      {
        MacIsRfc2104OfCutKey(sha, key, data);
      }
    } else {
      var sha := LongKeyDiffers(key);
      assert Mac(sha, key, []) != Rfc2104(sha, key, []);
    }
  }

  // ----- The hash context and the methods -----

  /** An A_SHA_CTX: what has been fed to the hash since it was initialised. */
  class ShaContext {
    const sha: Hash
    var fed: seq<byte>

    constructor (sha: Hash)
      ensures this.sha == sha && fed == []
    {
      this.sha := sha;
      fed := [];
    }

    method Init()
      modifies this
      ensures fed == []
    {
      fed := [];
    }

    method Update(pbInput: array<byte>, at: nat, dwInputLength: nat)
      requires at + dwInputLength <= pbInput.Length
      modifies this
      ensures fed == old(fed) + pbInput[at..at + dwInputLength]
    {
      fed := fed + pbInput[at..at + dwInputLength];
    }

    method Final(pbDigest: array<byte>, at: nat)
      requires at + DIGEST_SIZE <= pbDigest.Length
      modifies pbDigest
      ensures pbDigest[..] == Stored(old(pbDigest[..]), at, sha(fed))
    {
      Store(pbDigest, at, sha(fed));
    }
  }

  /** One 32-bit exclusive-or: four bytes of the pad. */
  method MaskWord(pad: array<byte>, dwBlock: nat, factor: byte)
    requires 4 * dwBlock + 4 <= pad.Length
    modifies pad
    ensures forall k :: 0 <= k < pad.Length ==>
              pad[k] == if 4 * dwBlock <= k < 4 * dwBlock + 4 then XorByte(old(pad[k]), factor) else old(pad[k])
  {
    for b := 0 to 4
      invariant forall k :: 0 <= k < pad.Length ==>
                  pad[k] == if 4 * dwBlock <= k < 4 * dwBlock + b then XorByte(old(pad[k]), factor) else old(pad[k])
    {
      pad[4 * dwBlock + b] := XorByte(pad[4 * dwBlock + b], factor);
    }
  }

  /** The zeroed, copied and masked pad buffer that XcHMAC and the piecemeal routines build. */
  method MaskedPad(pbKey: array<byte>, cbKey: nat, factor: byte) returns (pad: array<byte>)
    requires cbKey <= pbKey.Length
    ensures fresh(pad) && pad[..] == KeyBlock(pbKey[..cbKey], factor)
  {
    var cb := if cbKey > HMAC_K_PADSIZE then HMAC_K_PADSIZE else cbKey;
    pad := new byte[HMAC_K_PADSIZE](_ => 0);
    Store(pad, 0, pbKey[..cb]);
    assert pad[..] == Pad(pbKey[..cbKey]);
    MaskInPlace(pad, factor);
  }

  method MaskInPlace(pad: array<byte>, factor: byte)
    requires pad.Length == HMAC_K_PADSIZE
    modifies pad
    ensures pad[..] == Xor(old(pad[..]), Constant(factor, HMAC_K_PADSIZE))
  {
    for dwBlock := 0 to HMAC_K_PADSIZE / 4
      invariant forall k :: 0 <= k < HMAC_K_PADSIZE ==>
                  pad[k] == if k < 4 * dwBlock then XorByte(old(pad[k]), factor) else old(pad[k])
    {
      MaskWord(pad, dwBlock, factor);
    }
  }

  /** XcHMAC over one or two pieces of data. The digest may go into an array that data came
      from: everything is read before it is written. */
  method XcHMAC(sha: Hash, pbKeyMaterial: array<byte>, cbKeyMaterial: nat,
                pbData: array<byte>, dataAt: nat, cbData: nat,
                pbData2: array?<byte>, data2At: nat, cbData2: nat,
                hmacData: array<byte>, outAt: nat)
    requires cbKeyMaterial <= pbKeyMaterial.Length
    requires dataAt + cbData <= pbData.Length
    requires cbData2 != 0 ==> pbData2 != null && data2At + cbData2 <= pbData2.Length
    requires outAt + DIGEST_SIZE <= hmacData.Length
    modifies hmacData
    ensures hmacData[..] == Stored(old(hmacData[..]), outAt,
              Mac(sha, old(pbKeyMaterial[..cbKeyMaterial]),
                  old(pbData[dataAt..dataAt + cbData])
                  + if cbData2 != 0 then old(pbData2[data2At..data2At + cbData2]) else []))
  {
    var inner := InnerHash(sha, pbKeyMaterial, cbKeyMaterial, pbData, dataAt, cbData, pbData2, data2At, cbData2);
    OuterHash(sha, pbKeyMaterial, cbKeyMaterial, inner, hmacData, outAt);
  }

  /** The inner digest of XcHMAC: the masked key, then the pieces that are not empty. */
  method InnerHash(sha: Hash, pbKeyMaterial: array<byte>, cbKeyMaterial: nat,
                   pbData: array<byte>, dataAt: nat, cbData: nat,
                   pbData2: array?<byte>, data2At: nat, cbData2: nat)
    returns (inner: array<byte>)
    requires cbKeyMaterial <= pbKeyMaterial.Length
    requires dataAt + cbData <= pbData.Length
    requires cbData2 != 0 ==> pbData2 != null && data2At + cbData2 <= pbData2.Length
    ensures fresh(inner)
    ensures inner[..] == sha(KeyBlock(pbKeyMaterial[..cbKeyMaterial], KI_XOR_FACTOR)
                  + (pbData[dataAt..dataAt + cbData]
                     + if cbData2 != 0 then pbData2[data2At..data2At + cbData2] else []))
  {
    hide KeyBlock, Stored;
    var kipad := MaskedPad(pbKeyMaterial, cbKeyMaterial, KI_XOR_FACTOR);
    var shaHash := new ShaContext(sha);
    shaHash.Update(kipad, 0, HMAC_K_PADSIZE);
    assert kipad[0..HMAC_K_PADSIZE] == kipad[..];
    assert shaHash.fed == kipad[..];
    if cbData != 0 {
      shaHash.Update(pbData, dataAt, cbData);
    }
    assert shaHash.fed == kipad[..] + pbData[dataAt..dataAt + cbData];
    if cbData2 != 0 {
      shaHash.Update(pbData2, data2At, cbData2);
    }
    assert shaHash.fed == kipad[..] + (pbData[dataAt..dataAt + cbData]
                          + if cbData2 != 0 then pbData2[data2At..data2At + cbData2] else []);
    inner := new byte[DIGEST_SIZE];
    StoredWhole(inner[..], sha(shaHash.fed));
    shaHash.Final(inner, 0);
  }

  lemma StoredBehind(buffer: seq<byte>, front: seq<byte>, back: seq<byte>)
    requires |buffer| == |front| + |back|
    ensures Stored(Stored(buffer, |front|, back), 0, front) == front + back
  {
  }

  /** The outer digest: the key under the other mask, then the inner digest. */
  method OuterHash(sha: Hash, pbKeyMaterial: array<byte>, cbKeyMaterial: nat, inner: array<byte>,
                   hmacData: array<byte>, outAt: nat)
    requires cbKeyMaterial <= pbKeyMaterial.Length && inner.Length == DIGEST_SIZE
    requires outAt + DIGEST_SIZE <= hmacData.Length
    modifies hmacData
    ensures hmacData[..] == Stored(old(hmacData[..]), outAt,
              sha(KeyBlock(old(pbKeyMaterial[..cbKeyMaterial]), KO_XOR_FACTOR) + old(inner[..])))
  {
    hide KeyBlock, Stored;
    var kopad := MaskedPad(pbKeyMaterial, cbKeyMaterial, KO_XOR_FACTOR);
    var hmacTmp := new byte[HMAC_K_PADSIZE + DIGEST_SIZE](_ => 0);
    var shaHash := new ShaContext(sha);
    StoredBehind(hmacTmp[..], kopad[..], inner[..]);
    Store(hmacTmp, HMAC_K_PADSIZE, inner[..]);
    Store(hmacTmp, 0, kopad[..]);
    shaHash.Update(hmacTmp, 0, HMAC_K_PADSIZE + DIGEST_SIZE);
    assert hmacTmp[0..HMAC_K_PADSIZE + DIGEST_SIZE] == hmacTmp[..];
    assert shaHash.fed == kopad[..] + inner[..];
    shaHash.Final(hmacData, outAt);
  }

  // ----- The piecemeal form -----

  method XShaHmacInitialize(pbKey: array<byte>, cbKey: nat, shactx: ShaContext)
    requires cbKey <= pbKey.Length
    modifies shactx
    ensures shactx.fed == KeyBlock(pbKey[..cbKey], KI_XOR_FACTOR)
  {
    var kipad := MaskedPad(pbKey, cbKey, KI_XOR_FACTOR);
    shactx.Init();
    shactx.Update(kipad, 0, HMAC_K_PADSIZE);
  }

  /** Whatever pieces went in after initialisation with the same key, the digest is the one
      XcHMAC computes for their concatenation. */
  method XShaHmacComputeFinal(shactx: ShaContext, pbKey: array<byte>, cbKey: nat, pbHmac: array<byte>,
                              ghost data: seq<byte>)
    requires cbKey <= pbKey.Length && pbHmac.Length == DIGEST_SIZE
    requires shactx.fed == KeyBlock(pbKey[..cbKey], KI_XOR_FACTOR) + data
    modifies shactx, pbHmac
    ensures pbHmac[..] == Mac(shactx.sha, old(pbKey[..cbKey]), data)
  {
    var inner := new byte[DIGEST_SIZE];
    shactx.Final(inner, 0);
    assert inner[..] == shactx.sha(shactx.fed);
    OuterHash(shactx.sha, pbKey, cbKey, inner, pbHmac, 0);
    shactx.Init();
  }

  /** XapiConvertSignatureToNonRoamable: the console's own key signs the signature. */
  method ConvertSignatureToNonRoamable(shactx: ShaContext, hdKey: array<byte>,
                                       roamable: array<byte>, nonRoamable: array<byte>)
    requires hdKey.Length == 16 && roamable.Length == nonRoamable.Length == DIGEST_SIZE
    requires roamable != nonRoamable && hdKey != nonRoamable
    modifies shactx, nonRoamable
    ensures nonRoamable[..] == Mac(shactx.sha, hdKey[..], roamable[..])
  {
    XShaHmacInitialize(hdKey, 16, shactx);
    shactx.Update(roamable, 0, DIGEST_SIZE);
    assert hdKey[..16] == hdKey[..] && roamable[0..DIGEST_SIZE] == roamable[..];
    XShaHmacComputeFinal(shactx, hdKey, 16, nonRoamable, roamable[..]);
  }
}
