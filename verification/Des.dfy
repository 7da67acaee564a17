/** DES and triple DES as a Feistel network in encrypt-decrypt-encrypt order (section 3 of
    NIST SP 800-67). The key schedule, the round function and the initial permutation are
    left abstract: nothing here depends on them beyond the permutation having an inverse. */
module Des {
  import opened Bits
  import opened Bytes

  const DES_BLOCKLEN := 8
  const DES_KEYSIZE := 8
  const DES3_KEYSIZE := 24
  const ROUNDS := 16

  type Block = b: seq<byte> | |b| == DES_BLOCKLEN witness Zeros(DES_BLOCKLEN)
  type Half = h: seq<byte> | |h| == 4 witness Zeros(4)

  /** One row of a DESTable: the key material of one round. */
  datatype RoundKey = RoundKey(first: nat, second: nat)

  type DesTable = t: seq<RoundKey> | |t| == ROUNDS witness seq(ROUNDS, _ => RoundKey(0, 0))

  /** What XcKeyTable fills in: one table for DES, three for triple DES. */
  datatype KeyTable = Single(key: DesTable) | Triple(key1: DesTable, key2: DesTable, key3: DesTable)

  datatype Op = Encrypt | Decrypt {
    function Inverse(): Op {
      if Encrypt? then Decrypt else Encrypt
    }
  }

  /** A block cipher under one key, in both directions: what CBC is handed as a function. */
  datatype Cipher = Cipher(crypt: (Block, Op) -> Block) {
    ghost predicate Valid() {
      forall b, op :: crypt(crypt(b, op), op.Inverse()) == b
    }
  }

  datatype CipherId = DesCipher | Des3Cipher

  /** The parts of DES that this model leaves open. */
  datatype Parts = Parts(schedule: Block -> DesTable,
                         round: (RoundKey, Half) -> Half,
                         permute: Block -> Block,
                         unpermute: Block -> Block)
  {
    ghost predicate Valid() {
      && (forall b :: unpermute(permute(b)) == b)
      && (forall b :: permute(unpermute(b)) == b)
    }
  }

  function Left(b: Block): Half { b[..4] }

  function Right(b: Block): Half { b[4..] }

  function Swap(b: Block): Block { Right(b) + Left(b) }

  function Round(c: Parts, k: RoundKey, b: Block): Block {
    Right(b) + Xor(Left(b), c.round(k, Right(b)))
  }

  function Rounds(c: Parts, ks: seq<RoundKey>, b: Block): Block {
    if ks == [] then b else Rounds(c, ks[1..], Round(c, ks[0], b))
  }

  function Reversed(ks: seq<RoundKey>): (r: seq<RoundKey>)
    ensures |r| == |ks|
  {
    if ks == [] then [] else Reversed(ks[1..]) + [ks[0]]
  }

  function DesBlock(c: Parts, table: DesTable, b: Block, op: Op): Block {
    var ks := if op.Encrypt? then table else Reversed(table);
    c.unpermute(Swap(Rounds(c, ks, c.permute(b))))
  }

  /** XcBlockCrypt: the table says which of the two ciphers it was made for. */
  function CryptBlock(c: Parts, table: KeyTable, b: Block, op: Op): Block {
    match table
    case Single(k) => DesBlock(c, k, b, op)
    case Triple(k1, k2, k3) =>
      match op
      case Encrypt => DesBlock(c, k3, DesBlock(c, k2, DesBlock(c, k1, b, Encrypt), Decrypt), Encrypt)
      case Decrypt => DesBlock(c, k1, DesBlock(c, k2, DesBlock(c, k3, b, Decrypt), Encrypt), Decrypt)
  }

  function CipherOf(c: Parts, table: KeyTable): Cipher {
    Cipher((b, op) => CryptBlock(c, table, b, op))
  }

  /** XcKeyTable: triple DES takes its three keys from the three thirds of the key bytes. */
  function MakeKeyTable(c: Parts, cipher: CipherId, key: seq<byte>): KeyTable
    requires |key| == if cipher.DesCipher? then DES_KEYSIZE else DES3_KEYSIZE
  {
    if cipher.DesCipher? then Single(c.schedule(key))
    else Triple(c.schedule(key[..8]), c.schedule(key[8..16]), c.schedule(key[16..]))
  }

  // ----- One round, sixteen rounds, the cipher: each undone by its reversal -----

  lemma RoundUndone(c: Parts, k: RoundKey, b: Block)
    ensures Round(c, k, Swap(Round(c, k, b))) == Swap(b)
  {
    var r := Round(c, k, b);
    var mask := c.round(k, Right(b));
    assert Left(r) == Right(b);
    assert Right(r) == Xor(Left(b), mask);
    var s := Swap(r);
    assert Left(s) == Right(r) && Right(s) == Left(r);
    XorTwice(Left(b), mask);
  }

  lemma {:induction false} RoundsSnoc(c: Parts, ks: seq<RoundKey>, k: RoundKey, b: Block)
    ensures Rounds(c, ks + [k], b) == Round(c, k, Rounds(c, ks, b))
  {
    if ks == [] {
      assert [k][1..] == [];
    } else {
      assert (ks + [k])[1..] == ks[1..] + [k];
      RoundsSnoc(c, ks[1..], k, Round(c, ks[0], b));
    }
  }

  /** Running the rounds again in reverse key order on the swapped result undoes them. */
  lemma {:induction false} RoundsUndone(c: Parts, ks: seq<RoundKey>, b: Block)
    ensures Rounds(c, Reversed(ks), Swap(Rounds(c, ks, b))) == Swap(b)
  {
    if ks != [] {
      var b1 := Round(c, ks[0], b);
      var end := Swap(Rounds(c, ks[1..], b1));
      RoundsSnoc(c, Reversed(ks[1..]), ks[0], end);
      RoundsUndone(c, ks[1..], b1);
      RoundUndone(c, ks[0], b);
    }
  }

  lemma {:induction false} ReversedSnoc(ks: seq<RoundKey>, k: RoundKey)
    ensures Reversed(ks + [k]) == [k] + Reversed(ks)
  {
    if ks != [] {
      assert (ks + [k])[1..] == ks[1..] + [k];
      ReversedSnoc(ks[1..], k);
    }
  }

  lemma {:induction false} ReversedTwice(ks: seq<RoundKey>)
    ensures Reversed(Reversed(ks)) == ks
  {
    if ks != [] {
      ReversedSnoc(Reversed(ks[1..]), ks[0]);
      ReversedTwice(ks[1..]);
    }
  }

  lemma SwapTwice(b: Block)
    ensures Swap(Swap(b)) == b
  {
  }

  /** DES in either direction undoes DES in the other, for every key table. */
  lemma DesUndone(c: Parts, table: DesTable, b: Block, op: Op)
    requires c.Valid()
    ensures DesBlock(c, table, DesBlock(c, table, b, op), op.Inverse()) == b
  {
    var ks: seq<RoundKey> := if op.Encrypt? then table else Reversed(table);
    ReversedTwice(table);
    RoundsUndone(c, ks, c.permute(b));
    SwapTwice(c.permute(b));
  }

  /** The same for the dispatching block cipher, triple DES included. */
  lemma CryptBlockUndone(c: Parts, table: KeyTable, b: Block, op: Op)
    requires c.Valid()
    ensures CryptBlock(c, table, CryptBlock(c, table, b, op), op.Inverse()) == b
  {
    match table
    case Single(k) =>
      DesUndone(c, k, b, op);
    case Triple(k1, k2, k3) =>
      var x := if op.Encrypt? then DesBlock(c, k1, b, Encrypt) else DesBlock(c, k3, b, Decrypt);
      var y := DesBlock(c, k2, x, op.Inverse());
      DesUndone(c, if op.Encrypt? then k3 else k1, y, op);
      DesUndone(c, k2, x, op.Inverse());
      DesUndone(c, if op.Encrypt? then k1 else k3, b, op);
  }

  /** Under every key table, DES and triple DES are ciphers that can be undone. */
  lemma CipherOfIsValid(c: Parts, table: KeyTable)
    requires c.Valid()
    ensures CipherOf(c, table).Valid()
  {
    forall b, op
      ensures CryptBlock(c, table, CryptBlock(c, table, b, op), op.Inverse()) == b
    {
      CryptBlockUndone(c, table, b, op);
    }
  }

  // ----- Against the published algorithms -----

  lemma {:induction false} ReversedAt(ks: seq<RoundKey>, k: nat)
    requires k < |ks|
    ensures Reversed(ks)[k] == ks[|ks| - 1 - k]
  {
    if k < |ks| - 1 {
      ReversedAt(ks[1..], k);
    }
  }

  lemma {:induction false} RoundsRun(c: Parts, ks: seq<RoundKey>, ls: seq<seq<byte>>, rs: seq<seq<byte>>, n: nat)
    requires n <= |ks| && |ls| == |rs| == |ks| + 1
    requires forall k :: 0 <= k <= |ks| ==> |ls[k]| == |rs[k]| == 4
    requires forall k :: 0 <= k < |ks| ==> ls[k + 1] == rs[k] && rs[k + 1] == Xor(ls[k], c.round(ks[k], rs[k]))
    ensures Rounds(c, ks[..n], ls[0] + rs[0]) == ls[n] + rs[n]
    decreases n
  {
    if n == 0 {
      assert ks[..0] == [];
    } else {
      var b: Block := ls[n - 1] + rs[n - 1];
      RoundsRun(c, ks, ls, rs, n - 1);
      assert ks[..n] == ks[..n - 1] + [ks[n - 1]];
      RoundsSnoc(c, ks[..n - 1], ks[n - 1], ls[0] + rs[0]);
      assert Left(b) == ls[n - 1] && Right(b) == rs[n - 1];
    }
  }

  /** The block cipher as it is published: sixteen rounds on two halves, with the round keys in
      order to encrypt and in reverse order to decrypt, and the halves exchanged at the end. */
  lemma DesIsPublished(c: Parts, table: DesTable, b: Block, op: Op, ls: seq<seq<byte>>, rs: seq<seq<byte>>)
    requires |ls| == |rs| == ROUNDS + 1 && forall k :: 0 <= k <= ROUNDS ==> |ls[k]| == |rs[k]| == 4
    requires ls[0] + rs[0] == c.permute(b)
    requires forall k :: 0 <= k < ROUNDS ==>
               && ls[k + 1] == rs[k]
               && rs[k + 1] == Xor(ls[k], c.round(if op == Encrypt then table[k] else table[15 - k], rs[k]))
    ensures DesBlock(c, table, b, op) == c.unpermute(rs[ROUNDS] + ls[ROUNDS])
  {
    hide Rounds;
    var ks: seq<RoundKey> := if op.Encrypt? then table else Reversed(table);
    forall k | 0 <= k < |ks|
      ensures ls[k + 1] == rs[k] && rs[k + 1] == Xor(ls[k], c.round(ks[k], rs[k]))
    {
      ReversedAt(table, k);
    }
    RoundsRun(c, ks, ls, rs, ROUNDS);
    assert ks[..ROUNDS] == ks;
    SwapHalves(ls[ROUNDS], rs[ROUNDS]);
  }

  lemma SwapHalves(l: seq<byte>, r: seq<byte>)
    requires |l| == |r| == 4
    ensures Swap(l + r) == r + l
  {
  }

  /** Triple DES through single DES (section 3 of NIST SP 800-67): taking its third encryption
      back leaves a block encrypted under the first key and decrypted under the second. The keys
      are the three thirds of the key, in order. */
  lemma TripleIsPublished(c: Parts, a: Block, b: Block, d: Block, x: Block)
    requires c.Valid()
    ensures var t := MakeKeyTable(c, Des3Cipher, a + b + d);
            var ta, tb := MakeKeyTable(c, DesCipher, a), MakeKeyTable(c, DesCipher, b);
            var td := MakeKeyTable(c, DesCipher, d);
            && CryptBlock(c, td, CryptBlock(c, t, x, Encrypt), Decrypt)
               == CryptBlock(c, tb, CryptBlock(c, ta, x, Encrypt), Decrypt)
            && CryptBlock(c, ta, CryptBlock(c, t, x, Decrypt), Encrypt)
               == CryptBlock(c, tb, CryptBlock(c, td, x, Decrypt), Encrypt)
  {
    hide DesBlock;
    var key := a + b + d;
    assert key[..8] == a && key[8..16] == b && key[16..] == d;
    var y := DesBlock(c, c.schedule(b), DesBlock(c, c.schedule(a), x, Encrypt), Decrypt);
    DesUndone(c, c.schedule(d), y, Encrypt);
    var z := DesBlock(c, c.schedule(b), DesBlock(c, c.schedule(d), x, Decrypt), Encrypt);
    DesUndone(c, c.schedule(a), z, Decrypt);
  }

  /** With one key three times, triple DES is single DES. */
  lemma EqualKeysAreSingle(c: Parts, k: DesTable, b: Block, op: Op)
    requires c.Valid()
    ensures CryptBlock(c, Triple(k, k, k), b, op) == CryptBlock(c, Single(k), b, op)
  {
    hide DesBlock;
    DesUndone(c, k, b, op);
  }

  /** The table for single DES is the key's schedule. */
  lemma SingleIsSchedule(c: Parts, key: Block, b: Block, op: Op)
    ensures CryptBlock(c, MakeKeyTable(c, DesCipher, key), b, op) == DesBlock(c, c.schedule(key), b, op)
  {
  }

  // ----- Key parity -----

  /** The byte with its low bit chosen so that the number of one bits is odd. */
  function OddParity(b: byte): byte {
    b / 2 * 2 + (Ones(7, b / 2) + 1) % 2
  }

  lemma OnesOfLowBit(w: nat, bit: nat, high: nat)
    requires bit < 2
    ensures Ones(w + 1, bit + 2 * high) == bit + Ones(w, high)
  {
    LowBit(bit, high);
  }

  /** The seven key bits stay, the parity becomes odd, and exactly the bytes of odd parity are
      left alone. */
  lemma OddParityIsOdd(b: byte)
    ensures OddParity(b) / 2 == b / 2
    ensures Ones(8, OddParity(b)) % 2 == 1
    ensures OddParity(b) == b <==> Ones(8, b) % 2 == 1
  {
    hide Ones;
    var high := b / 2;
    var low := (Ones(7, high) + 1) % 2;
    assert b == b % 2 + 2 * high && OddParity(b) == low + 2 * high;
    LowBit(low, high);
    OnesOfLowBit(7, low, high);
    OnesOfLowBit(7, b % 2, high);
  }

  function WithParity(key: seq<byte>): (r: seq<byte>)
    ensures |r| == |key|
  {
    seq(|key|, k requires 0 <= k < |key| => OddParity(key[k]))
  }

  /** Each byte of a key with parity has its seven key bits and an odd number of ones. */
  lemma WithParityByte(key: seq<byte>, k: nat)
    requires k < |key|
    ensures WithParity(key)[k] / 2 == key[k] / 2 && Ones(8, WithParity(key)[k]) % 2 == 1
  {
    hide Ones, OddParity;
    OddParityIsOdd(key[k]);
  }

  /** XcDESKeyParity. */
  method DESKeyParity(pbKey: array<byte>, dwKeyLength: nat)
    requires dwKeyLength <= pbKey.Length
    modifies pbKey
    ensures pbKey[..] == WithParity(old(pbKey[..dwKeyLength])) + old(pbKey[dwKeyLength..])
  {
    for k := 0 to dwKeyLength
      invariant forall m :: 0 <= m < k ==> pbKey[m] == OddParity(old(pbKey[m]))
      invariant forall m :: k <= m < pbKey.Length ==> pbKey[m] == old(pbKey[m])
    {
      pbKey[k] := OddParity(pbKey[k]);
    }
  }
}
