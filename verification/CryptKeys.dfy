/** The key-munging routines of cryptkeys.h: triple-DES morphing under a key derived from two
    overlapping HMACs, RC4 morphing under the hard drive key, and the recovery key. */
module CryptKeys {
  import opened Bytes
  import opened Hmac
  import opened Des
  import Cbc
  import Rc4

  const SYMMETRIC_KEY_LEN := 16
  const RECOVERY_KEY_LEN := 8

  type SymmetricKey = k: seq<byte> | |k| == SYMMETRIC_KEY_LEN witness Zeros(SYMMETRIC_KEY_LEN)

  /** The primitives and the fixed keys. Nothing below depends on their values. */
  datatype Env = Env(sha: Hash, des: Parts,
                     keyMorphRandKey1: SymmetricKey, keyMorphRandKey2: SymmetricKey, keyMorphIv: Block,
                     hdMorphRandKey: SymmetricKey, muEncryptRandKey: SymmetricKey, recoveryRandKey: SymmetricKey)

  method ArrayOf(s: seq<byte>) returns (a: array<byte>)
    ensures fresh(a) && a[..] == s
  {
    a := new byte[|s|](k requires 0 <= k < |s| => s[k]);
  }

  // ----- The derived triple-DES key -----

  /** Before parity: the head of the first HMAC, then the whole of the second. */
  function DerivedBytes(env: Env, morphKey: seq<byte>): (r: seq<byte>)
    ensures |r| == DES3_KEYSIZE
  {
    Mac(env.sha, env.keyMorphRandKey1, morphKey)[..DES3_KEYSIZE - DIGEST_SIZE]
    + Mac(env.sha, env.keyMorphRandKey2, morphKey)
  }

  /** Two digests written so that the second overlaps the first and ends the array: nothing of
      the array's former contents survives, and of the first digest only what the second does
      not cover. */
  lemma OverlappingDigests(was: seq<byte>, first: Digest, second: Digest)
    requires |was| == DES3_KEYSIZE
    ensures Stored(Stored(was, 0, first), DES3_KEYSIZE - DIGEST_SIZE, second)
         == first[..DES3_KEYSIZE - DIGEST_SIZE] + second
  {
  }

  function MorphCipher(env: Env, morphKey: seq<byte>): Cipher {
    CipherOf(env.des, MakeKeyTable(env.des, Des3Cipher, WithParity(DerivedBytes(env, morphKey))))
  }

  /** What MorphKeyWithKey makes of a key. */
  function Morphed(env: Env, morphKey: seq<byte>, key: Cbc.Blocks, op: Op): (r: Cbc.Blocks)
    ensures |r| == |key|
  {
    Cbc.Pass(MorphCipher(env, morphKey), op, env.keyMorphIv, key)
  }

  /** The derived bytes are those of two HMACs of RFC 2104 under the two fixed keys. */
  lemma DerivedFromHmacs(env: Env, morphKey: seq<byte>)
    ensures DerivedBytes(env, morphKey)
         == Rfc2104(env.sha, env.keyMorphRandKey1, morphKey)[..4] + Rfc2104(env.sha, env.keyMorphRandKey2, morphKey)
  {
    hide Mac, Rfc2104;
    MacIsRfc2104OfCutKey(env.sha, env.keyMorphRandKey1, morphKey);
    MacIsRfc2104OfCutKey(env.sha, env.keyMorphRandKey2, morphKey);
  }

  /** Morphing block by block: triple DES under the derived key with odd parity, chained from the
      fixed vector. */
  lemma MorphedBlock(env: Env, morphKey: seq<byte>, key: Cbc.Blocks, k: nat)
    requires 8 * k + 8 <= |key|
    ensures var digest1 := Rfc2104(env.sha, env.keyMorphRandKey1, morphKey);
            var digest2 := Rfc2104(env.sha, env.keyMorphRandKey2, morphKey);
            var table := MakeKeyTable(env.des, Des3Cipher, WithParity(digest1[..4] + digest2));
            var out := Morphed(env, morphKey, key, Encrypt);
            && out[8 * k..8 * k + 8]
               == CryptBlock(env.des, table,
                             Xor(key[8 * k..8 * k + 8], if k == 0 then env.keyMorphIv else out[8 * k - 8..8 * k]),
                             Encrypt)
            && Morphed(env, morphKey, key, Decrypt)[8 * k..8 * k + 8]
               == Xor(CryptBlock(env.des, table, key[8 * k..8 * k + 8], Decrypt),
                      if k == 0 then env.keyMorphIv else key[8 * k - 8..8 * k])
  {
    hide Rfc2104, WithParity, MakeKeyTable, CryptBlock, Cbc.Pass, Xor, DerivedBytes;
    DerivedFromHmacs(env, morphKey);
    Cbc.PassBlock(MorphCipher(env, morphKey), env.keyMorphIv, key, k);
  }

  /** Morphing in one direction and then in the other restores the key, for every morph key
      and every whole number of blocks. */
  lemma MorphUndone(env: Env, morphKey: seq<byte>, key: Cbc.Blocks, op: Op)
    requires env.des.Valid()
    ensures Morphed(env, morphKey, Morphed(env, morphKey, key, op), op.Inverse()) == key
  {
    var table := MakeKeyTable(env.des, Des3Cipher, WithParity(DerivedBytes(env, morphKey)));
    CipherOfIsValid(env.des, table);
    Cbc.PassUndone(CipherOf(env.des, table), op, env.keyMorphIv, key);
  }

  /** Only what the parity step leaves of a derived key matters, so two morph keys whose
      HMACs agree on the bytes kept, low bits aside, open each other's keys. */
  lemma SameDerivedKeySameMorph(env: Env, k1: seq<byte>, k2: seq<byte>, key: Cbc.Blocks, op: Op)
    requires env.des.Valid()
    requires forall b :: 0 <= b < DES3_KEYSIZE ==> DerivedBytes(env, k1)[b] / 2 == DerivedBytes(env, k2)[b] / 2
    ensures Morphed(env, k2, Morphed(env, k1, key, op), op.Inverse()) == key
  {
    hide DerivedBytes, MorphCipher;
    SameParity(DerivedBytes(env, k1), DerivedBytes(env, k2));
    SameMorphCipher(env, k1, k2);
    MorphUndone(env, k1, key, op);
  }

  lemma SameParity(d1: seq<byte>, d2: seq<byte>)
    requires |d1| == |d2| && forall b :: 0 <= b < |d1| ==> d1[b] / 2 == d2[b] / 2
    ensures WithParity(d1) == WithParity(d2)
  {
    forall b | 0 <= b < |d1|
      ensures WithParity(d1)[b] == WithParity(d2)[b]
    {
      assert d1[b] / 2 == d2[b] / 2;
    }
  }

  lemma SameMorphCipher(env: Env, k1: seq<byte>, k2: seq<byte>)
    requires WithParity(DerivedBytes(env, k1)) == WithParity(DerivedBytes(env, k2))
    ensures MorphCipher(env, k1) == MorphCipher(env, k2)
  {
    hide DerivedBytes, WithParity, MakeKeyTable, CipherOf;
  }

  /** The first half of MorphKeyWithKey: the key array, filled twice and given odd parity. */
  method DeriveDesKey(env: Env, morphKey: array<byte>, dwMorphKeyLen: nat) returns (desKey: array<byte>)
    requires dwMorphKeyLen <= morphKey.Length
    ensures fresh(desKey) && desKey[..] == WithParity(DerivedBytes(env, morphKey[..dwMorphKeyLen]))
  {
    ghost var mk := morphKey[..dwMorphKeyLen];
    desKey := new byte[DES3_KEYSIZE];
    var randKey1 := ArrayOf(env.keyMorphRandKey1);
    var randKey2 := ArrayOf(env.keyMorphRandKey2);
    ghost var was := desKey[..];
    DeriveKey(env.sha, randKey1, morphKey, dwMorphKeyLen, desKey, 0);
    DeriveKey(env.sha, randKey2, morphKey, dwMorphKeyLen, desKey, DES3_KEYSIZE - DIGEST_SIZE);
    OverlappingDigests(was, Mac(env.sha, env.keyMorphRandKey1, mk), Mac(env.sha, env.keyMorphRandKey2, mk));
    assert desKey[..DES3_KEYSIZE] == DerivedBytes(env, mk);
    DESKeyParity(desKey, DES3_KEYSIZE);
  }

  /** MorphKeyWithKey, on the caller's buffer in place. */
  method MorphKeyWithKey(env: Env, morphKey: array<byte>, dwMorphKeyLen: nat, key: array<byte>, dwKeyLen: nat, dwOp: Op)
    requires dwMorphKeyLen <= morphKey.Length
    requires dwKeyLen <= key.Length && dwKeyLen % DES_BLOCKLEN == 0
    modifies key
    ensures key[..] == Morphed(env, old(morphKey[..dwMorphKeyLen]), old(key[..dwKeyLen]), dwOp) + old(key[dwKeyLen..])
  {
    var feedback := ArrayOf(env.keyMorphIv);
    var desKey := DeriveDesKey(env, morphKey, dwMorphKeyLen);
    var des3Table := MakeKeyTable(env.des, Des3Cipher, desKey[..]);
    Cbc.BlockCryptCBC(CipherOf(env.des, des3Table), dwKeyLen, key, key, dwOp, feedback);
  }

  /** One of the two HMACs, written into the key array at an offset. */
  method DeriveKey(sha: Hash, randKey: array<byte>, morphKey: array<byte>, dwMorphKeyLen: nat, desKey: array<byte>,
                   at: nat)
    requires randKey.Length == SYMMETRIC_KEY_LEN && dwMorphKeyLen <= morphKey.Length
    requires at + DIGEST_SIZE <= desKey.Length
    modifies desKey
    ensures desKey[..] == Stored(old(desKey[..]), at, Mac(sha, old(randKey[..]), old(morphKey[..dwMorphKeyLen])))
  {
    ghost var text := morphKey[..dwMorphKeyLen];
    assert randKey[..SYMMETRIC_KEY_LEN] == randKey[..];
    assert morphKey[0..0 + dwMorphKeyLen] + [] == text;
    XcHMAC(sha, randKey, SYMMETRIC_KEY_LEN, morphKey, 0, dwMorphKeyLen, null, 0, 0, desKey, at);
  }

  method EncryptKeyWithHardDriveKeyEx(env: Env, pbHDKey: array<byte>, key: array<byte>, dwKeyLen: nat)
    requires pbHDKey.Length == SYMMETRIC_KEY_LEN
    requires dwKeyLen <= key.Length && dwKeyLen % DES_BLOCKLEN == 0
    modifies key
    ensures key[..] == Morphed(env, old(pbHDKey[..]), old(key[..dwKeyLen]), Encrypt) + old(key[dwKeyLen..])
  {
    assert pbHDKey[..SYMMETRIC_KEY_LEN] == pbHDKey[..];
    MorphKeyWithKey(env, pbHDKey, SYMMETRIC_KEY_LEN, key, dwKeyLen, Encrypt);
  }

  method DecryptKeyWithHardDriveKeyEx(env: Env, pbHDKey: array<byte>, key: array<byte>, dwKeyLen: nat)
    requires pbHDKey.Length == SYMMETRIC_KEY_LEN
    requires dwKeyLen <= key.Length && dwKeyLen % DES_BLOCKLEN == 0
    modifies key
    ensures key[..] == Morphed(env, old(pbHDKey[..]), old(key[..dwKeyLen]), Decrypt) + old(key[dwKeyLen..])
  {
    assert pbHDKey[..SYMMETRIC_KEY_LEN] == pbHDKey[..];
    MorphKeyWithKey(env, pbHDKey, SYMMETRIC_KEY_LEN, key, dwKeyLen, Decrypt);
  }

  method EncryptKeyWithMUKey(env: Env, key: array<byte>, dwKeyLen: nat)
    requires dwKeyLen <= key.Length && dwKeyLen % DES_BLOCKLEN == 0
    modifies key
    ensures key[..] == Morphed(env, env.muEncryptRandKey, old(key[..dwKeyLen]), Encrypt) + old(key[dwKeyLen..])
  {
    var muKey := ArrayOf(env.muEncryptRandKey);
    assert muKey[..SYMMETRIC_KEY_LEN] == muKey[..];
    MorphKeyWithKey(env, muKey, SYMMETRIC_KEY_LEN, key, dwKeyLen, Encrypt);
  }

  method DecryptKeyWithMUKey(env: Env, key: array<byte>, dwKeyLen: nat)
    requires dwKeyLen <= key.Length && dwKeyLen % DES_BLOCKLEN == 0
    modifies key
    ensures key[..] == Morphed(env, env.muEncryptRandKey, old(key[..dwKeyLen]), Decrypt) + old(key[dwKeyLen..])
  {
    var muKey := ArrayOf(env.muEncryptRandKey);
    assert muKey[..SYMMETRIC_KEY_LEN] == muKey[..];
    MorphKeyWithKey(env, muKey, SYMMETRIC_KEY_LEN, key, dwKeyLen, Decrypt);
  }

  /** Both directions on one buffer, in either order: it ends as it began. */
  method MorphThereAndBack(env: Env, morphKey: array<byte>, dwMorphKeyLen: nat, key: array<byte>, dwKeyLen: nat,
                           dwOp: Op)
    requires env.des.Valid() && dwMorphKeyLen <= morphKey.Length && morphKey != key
    requires dwKeyLen <= key.Length && dwKeyLen % DES_BLOCKLEN == 0
    modifies key
    ensures key[..] == old(key[..])
  {
    ghost var mk, was := morphKey[..dwMorphKeyLen], key[..];
    MorphUndone(env, mk, was[..dwKeyLen], dwOp);
    MorphKeyWithKey(env, morphKey, dwMorphKeyLen, key, dwKeyLen, dwOp);
    assert key[..dwKeyLen] == Morphed(env, mk, was[..dwKeyLen], dwOp) && key[dwKeyLen..] == was[dwKeyLen..];
    MorphKeyWithKey(env, morphKey, dwMorphKeyLen, key, dwKeyLen, dwOp.Inverse());
    assert was == was[..dwKeyLen] + was[dwKeyLen..];
  }

  // ----- RC4 morphing -----

  /** What MorphKeyByHardDriveKeyEx makes of a key of any length. */
  function Rc4Morphed(env: Env, hdKey: seq<byte>, key: seq<byte>): (r: seq<byte>)
    ensures |r| == |key|
  {
    Rc4.Crypt(Mac(env.sha, env.hdMorphRandKey, hdKey), key)
  }

  /** The RC4 key is the HMAC of RFC 2104 of the hard drive key under the fixed key. */
  lemma Rc4MorphedIs(env: Env, hdKey: seq<byte>, key: seq<byte>)
    ensures Rc4Morphed(env, hdKey, key) == Rc4.Crypt(Rfc2104(env.sha, env.hdMorphRandKey, hdKey), key)
  {
    hide Mac, Rfc2104, Rc4.Crypt;
    MacIsRfc2104OfCutKey(env.sha, env.hdMorphRandKey, hdKey);
  }

  /** The routine is its own inverse for every hard drive key and every length. */
  lemma Rc4MorphTwice(env: Env, hdKey: seq<byte>, key: seq<byte>)
    ensures Rc4Morphed(env, hdKey, Rc4Morphed(env, hdKey, key)) == key
  {
    Rc4.CryptTwice(Mac(env.sha, env.hdMorphRandKey, hdKey), key);
  }

  method MorphKeyByHardDriveKeyEx(env: Env, pbHDKey: array<byte>, key: array<byte>, dwKeyLen: nat)
    requires pbHDKey.Length == SYMMETRIC_KEY_LEN && dwKeyLen <= key.Length
    modifies key
    ensures key[..] == Rc4Morphed(env, old(pbHDKey[..]), old(key[..dwKeyLen])) + old(key[dwKeyLen..])
  {
    var digest := new byte[DIGEST_SIZE];
    var rc4KeyStruct := new Rc4.KeyStruct();
    var randKey := ArrayOf(env.hdMorphRandKey);
    ghost var hdKey := pbHDKey[..];
    assert pbHDKey[..SYMMETRIC_KEY_LEN] == hdKey;
    DeriveKey(env.sha, randKey, pbHDKey, SYMMETRIC_KEY_LEN, digest, 0);
    assert digest[..DIGEST_SIZE] == digest[..] == Mac(env.sha, env.hdMorphRandKey, hdKey);
    rc4KeyStruct.SetKey(DIGEST_SIZE, digest);
    Rc4.MaskedFromStart(key[..], Rc4.KeyStream(rc4KeyStruct.Value(), dwKeyLen));
    rc4KeyStruct.CryptBytes(dwKeyLen, key, 0);
  }

  /** Two calls on one buffer of any length: the second restores it. Each call keys its RC4
      structure anew. */
  method Rc4MorphThereAndBack(env: Env, pbHDKey: array<byte>, key: array<byte>, dwKeyLen: nat)
    requires pbHDKey.Length == SYMMETRIC_KEY_LEN && dwKeyLen <= key.Length && pbHDKey != key
    modifies key
    ensures key[..] == old(key[..])
  {
    hide Rc4Morphed;
    ghost var was := key[..];
    Rc4MorphTwice(env, pbHDKey[..], was[..dwKeyLen]);
    MorphKeyByHardDriveKeyEx(env, pbHDKey, key, dwKeyLen);
    assert key[..dwKeyLen] == Rc4Morphed(env, pbHDKey[..], was[..dwKeyLen]) && key[dwKeyLen..] == was[dwKeyLen..];
    MorphKeyByHardDriveKeyEx(env, pbHDKey, key, dwKeyLen);
    assert was == was[..dwKeyLen] + was[dwKeyLen..];
  }

  // ----- The recovery key -----

  const RECOVERY_KEY_MAP := "AXYUDLR"

  /** The j-th 16-bit word of the digest, low byte first. */
  function Word(digest: Digest, j: nat): (w: nat)
    requires j < 4
    ensures w < 0x10000
  {
    256 * (digest[2 * j + 1] as int) + digest[2 * j]
  }

  function Letter(digest: Digest, j: nat): char
    requires j < 4
  {
    RECOVERY_KEY_MAP[Word(digest, j) % 7]
  }

  /** ComputeRecoveryKey with the HMAC of either build. The four letters run backwards through
      the words of the digest, and four zero bytes follow them. */
  method ComputeRecoveryKey(hmac: (seq<byte>, seq<byte>) -> Digest, recoveryRandKey: SymmetricKey,
                            pbHardDriveKey: array<byte>, pcRecoveryKey: array<char>)
    requires pbHardDriveKey.Length == SYMMETRIC_KEY_LEN && pcRecoveryKey.Length == RECOVERY_KEY_LEN
    modifies pcRecoveryKey
    ensures pcRecoveryKey[..] == RecoveryKey(hmac(recoveryRandKey, old(pbHardDriveKey[..])))
  {
    var digest := hmac(recoveryRandKey, pbHardDriveKey[..]);
    var pwDigestWord := 0;
    forall k | 0 <= k < RECOVERY_KEY_LEN { pcRecoveryKey[k] := '\0'; }
    var i := 4;
    i := i - 1;
    while i >= 0
      invariant -1 <= i <= 3 && pwDigestWord == 3 - i
      invariant forall k :: i < k < 4 ==> pcRecoveryKey[k] == Letter(digest, 3 - k)
      invariant forall k :: 0 <= k < 8 && !(i < k < 4) ==> pcRecoveryKey[k] == '\0'
    {
      pcRecoveryKey[i] := RECOVERY_KEY_MAP[Word(digest, pwDigestWord) % 7];
      pwDigestWord := pwDigestWord + 1;
      i := i - 1;
    }
    assert pcRecoveryKey[..] == RecoveryKey(digest);
  }

  function RecoveryKey(digest: Digest): (r: string)
    ensures |r| == RECOVERY_KEY_LEN
  {
    [Letter(digest, 3), Letter(digest, 2), Letter(digest, 1), Letter(digest, 0), '\0', '\0', '\0', '\0']
  }

  /** The recovery key letter by letter: position 3 - j from word j, low byte first, and zeros. */
  lemma RecoveryKeyIs(digest: Digest, j: nat)
    requires j < 4
    ensures RecoveryKey(digest)[3 - j] == "AXYUDLR"[(digest[2 * j] as int + 256 * (digest[2 * j + 1] as int)) % 7]
    ensures RecoveryKey(digest)[4 + j] == '\0'
  {
  }

  /** Two digests give the same recovery key exactly when their first four words agree modulo
      seven. So the last twelve bytes never matter, and the two builds agree whenever their
      HMACs do. */
  lemma SameRecoveryKey(d1: Digest, d2: Digest)
    ensures RecoveryKey(d1) == RecoveryKey(d2)
       <==> forall j :: 0 <= j < 4 ==> Word(d1, j) % 7 == Word(d2, j) % 7
  {
    forall j | 0 <= j < 4
      ensures RecoveryKey(d1)[3 - j] == Letter(d1, j) && RecoveryKey(d2)[3 - j] == Letter(d2, j)
      ensures Letter(d1, j) == Letter(d2, j) <==> Word(d1, j) % 7 == Word(d2, j) % 7
    {
      LettersDiffer(Word(d1, j) % 7, Word(d2, j) % 7);
    }
    if RecoveryKey(d1) == RecoveryKey(d2) {
      forall j | 0 <= j < 4
        ensures Word(d1, j) % 7 == Word(d2, j) % 7
      {
        assert RecoveryKey(d1)[3 - j] == RecoveryKey(d2)[3 - j];
      }
    }
  }

  lemma LettersDiffer(a: nat, b: nat)
    requires a < 7 && b < 7
    ensures RECOVERY_KEY_MAP[a] == RECOVERY_KEY_MAP[b] <==> a == b
  {
  }

  /** Every string of four letters of the map is some digest's recovery key. */
  lemma EveryRecoveryKeyOccurs(letters: seq<nat>) returns (digest: Digest)
    requires |letters| == 4 && forall k :: 0 <= k < 4 ==> letters[k] < 7
    ensures forall k :: 0 <= k < 4 ==> RecoveryKey(digest)[k] == RECOVERY_KEY_MAP[letters[k]]
  {
    var bytes: seq<byte> := [letters[3], 0, letters[2], 0, letters[1], 0, letters[0], 0];
    digest := bytes + Zeros(12);
    forall k | 0 <= k < 4
      ensures Letter(digest, 3 - k) == RECOVERY_KEY_MAP[letters[k]]
    {
      assert digest[2 * (3 - k)] == bytes[2 * (3 - k)] == letters[k];
      assert digest[2 * (3 - k) + 1] == bytes[2 * (3 - k) + 1] == 0;
    }
  }
}
