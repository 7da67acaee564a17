/** Cipher block chaining (section 6.2 of NIST SP 800-38A) as XcBlockCryptCBC runs it: block
    by block, with the feedback register updated in place and with input and output allowed
    to be the same buffer. */
module Cbc {
  import opened Bytes
  import opened Des

  type Blocks = s: seq<byte> | |s| % DES_BLOCKLEN == 0

  /** The output for one block. */
  function Chain(c: Cipher, op: Op, iv: Block, b: Block): Block {
    match op
    case Encrypt => c.crypt(Xor(b, iv), Encrypt)
    case Decrypt => Xor(c.crypt(b, Decrypt), iv)
  }

  /** The feedback register after one block: always the block's ciphertext. */
  function Feed(c: Cipher, op: Op, iv: Block, b: Block): Block {
    match op
    case Encrypt => Chain(c, op, iv, b)
    case Decrypt => b
  }

  /** The result of a pass that reads one buffer and writes another. */
  function Pass(c: Cipher, op: Op, iv: Block, data: Blocks): (r: Blocks)
    ensures |r| == |data|
    decreases |data|
  {
    if data == [] then []
    else Chain(c, op, iv, data[..8]) + Pass(c, op, Feed(c, op, iv, data[..8]), data[8..])
  }

  /** The feedback register after a pass. */
  function FeedAfter(c: Cipher, op: Op, iv: Block, data: Blocks): Block
    decreases |data|
  {
    if data == [] then iv
    else FeedAfter(c, op, Feed(c, op, iv, data[..8]), data[8..])
  }

  // ----- Properties of a pass -----

  /** Started from the same register, the pass in the other direction restores the data and
      leaves the register in the same final value. */
  lemma {:induction false} PassUndone(c: Cipher, op: Op, iv: Block, data: Blocks)
    requires c.Valid()
    ensures Pass(c, op.Inverse(), iv, Pass(c, op, iv, data)) == data
    ensures FeedAfter(c, op.Inverse(), iv, Pass(c, op, iv, data)) == FeedAfter(c, op, iv, data)
    decreases |data|
  {
    if data != [] {
      var b: Block := data[..8];
      var out: Block := Chain(c, op, iv, b);
      var rest := Pass(c, op, Feed(c, op, iv, b), data[8..]);
      ChainUndone(c, op, iv, b);
      assert (out + rest)[..8] == out && (out + rest)[8..] == rest;
      PassUndone(c, op, Feed(c, op, iv, b), data[8..]);
    }
  }

  lemma ChainUndone(c: Cipher, op: Op, iv: Block, b: Block)
    requires c.Valid()
    ensures Chain(c, op.Inverse(), iv, Chain(c, op, iv, b)) == b
    ensures Feed(c, op.Inverse(), iv, Chain(c, op, iv, b)) == Feed(c, op, iv, b)
  {
    match op
    case Encrypt =>
      XorTwice(b, iv);
    case Decrypt =>
      var plain := c.crypt(b, Decrypt);
      XorTwice(plain, iv);
  }

  /** Decrypting from another register value restores the data only when there is none: this
      is why both directions must start from a fresh copy of the same vector. */
  lemma SameVectorNeeded(c: Cipher, iv: Block, iv': Block, data: Blocks)
    requires c.Valid()
    ensures Pass(c, Decrypt, iv', Pass(c, Encrypt, iv, data)) == data <==> data == [] || iv == iv'
  {
    PassUndone(c, Encrypt, iv, data);
    if data != [] && Pass(c, Decrypt, iv', Pass(c, Encrypt, iv, data)) == data {
      var coded := Pass(c, Encrypt, iv, data);
      var plain := c.crypt(coded[..8], Decrypt);
      assert Pass(c, Decrypt, iv', coded)[..8] == Xor(plain, iv');
      assert Pass(c, Decrypt, iv, coded)[..8] == Xor(plain, iv);
      XorInjective(plain, iv, iv');
    }
  }

  /** Two calls that share the register do what one call on the joined data does. */
  lemma {:induction false} PassContinues(c: Cipher, op: Op, iv: Block, a: Blocks, b: Blocks, ab: Blocks)
    requires ab == a + b
    ensures Pass(c, op, iv, ab) == Pass(c, op, iv, a) + Pass(c, op, FeedAfter(c, op, iv, a), b)
    ensures FeedAfter(c, op, iv, ab) == FeedAfter(c, op, FeedAfter(c, op, iv, a), b)
    decreases |a|
  {
    hide Chain, Feed;
    if a == [] {
      assert ab == b;
    } else {
      var fed := Feed(c, op, iv, a[..8]);
      assert ab[..8] == a[..8];
      assert ab[8..] == a[8..] + b;
      PassContinues(c, op, fed, a[8..], b, ab[8..]);
      var end := FeedAfter(c, op, fed, a[8..]);
      calc {
        Pass(c, op, iv, ab);
        Chain(c, op, iv, a[..8]) + Pass(c, op, fed, ab[8..]);
        Chain(c, op, iv, a[..8]) + (Pass(c, op, fed, a[8..]) + Pass(c, op, end, b));
        Pass(c, op, iv, a) + Pass(c, op, end, b);
      }
    }
  }

  /** Block k of the input, and the block that chains into it. */
  function BlockAt(data: Blocks, k: nat): Block
    requires 8 * k + 8 <= |data|
  {
    data[8 * k..8 * k + 8]
  }

  function ChainedInto(iv: Block, cipher: Blocks, k: nat): Block
    requires 8 * k <= |cipher|
  {
    if k == 0 then iv else BlockAt(cipher, k - 1)
  }

  lemma {:induction false} PassBlockChains(c: Cipher, op: Op, iv: Block, data: Blocks, k: nat)
    requires 8 * k + 8 <= |data|
    ensures var out := Pass(c, op, iv, data);
            BlockAt(out, k) == Chain(c, op, ChainedInto(iv, if op.Encrypt? then out else data, k), BlockAt(data, k))
    decreases |data|
  {
    var out := Pass(c, op, iv, data);
    var fed := Feed(c, op, iv, data[..8]);
    var rest := Pass(c, op, fed, data[8..]);
    assert out[8..] == rest;
    if k == 0 {
      assert BlockAt(data, 0) == data[..8];
      assert BlockAt(out, 0) == out[..8];
    } else {
      PassBlockChains(c, op, fed, data[8..], k - 1);
      BlockAtTail(out, k);
      BlockAtTail(data, k);
      if k > 1 {
        BlockAtTail(out, k - 1);
        BlockAtTail(data, k - 1);
      } else {
        assert BlockAt(data, 0) == data[..8];
        assert BlockAt(out, 0) == out[..8];
      }
    }
  }

  /** The closed form of the standard: a block is encrypted after it is masked with the
      ciphertext block before it, and masked with it after it is decrypted. Before the first
      block stands the vector. */
  lemma PassBlock(c: Cipher, iv: Block, data: Blocks, k: nat)
    requires 8 * k + 8 <= |data|
    ensures var out := Pass(c, Encrypt, iv, data);
            out[8 * k..8 * k + 8]
            == c.crypt(Xor(data[8 * k..8 * k + 8], if k == 0 then iv else out[8 * k - 8..8 * k]), Encrypt)
    ensures Pass(c, Decrypt, iv, data)[8 * k..8 * k + 8]
         == Xor(c.crypt(data[8 * k..8 * k + 8], Decrypt), if k == 0 then iv else data[8 * k - 8..8 * k])
  {
    hide Pass, Xor;
    PassBlockChains(c, Encrypt, iv, data, k);
    PassBlockChains(c, Decrypt, iv, data, k);
    var out := Pass(c, Encrypt, iv, data);
    if k > 0 { assert 8 * (k - 1) == 8 * k - 8 && 8 * (k - 1) + 8 == 8 * k; }
  }

  /** A pass leaves the last ciphertext block in the register. */
  lemma {:induction false} RegisterIsLastCipher(c: Cipher, op: Op, iv: Block, data: Blocks)
    requires data != []
    ensures var cipher := if op == Encrypt then Pass(c, op, iv, data) else data;
            FeedAfter(c, op, iv, data) == cipher[|cipher| - 8..]
    decreases |data|
  {
    hide Pass, Feed, FeedAfter;
    var fed, first, later := Feed(c, op, iv, data[..8]), data[..8], data[8..];
    StepOfPass(c, op, iv, data);
    FeedIs(c, op, iv, first);
    if later == [] {
      EmptyPass(c, op, fed);
    } else {
      RegisterIsLastCipher(c, op, fed, later);
    }
    FirstAndLater(data);
    LastEight(Chain(c, op, iv, first), Pass(c, op, fed, later));
    LastEight(first, later);
  }

  lemma FirstAndLater(data: Blocks)
    requires data != []
    ensures |data[..8]| == 8 && data == data[..8] + data[8..] && (data[8..] == [] || |data[8..]| >= 8)
  {
  }

  lemma StepOfPass(c: Cipher, op: Op, iv: Block, data: Blocks)
    requires data != []
    ensures var fed := Feed(c, op, iv, data[..8]);
            && Pass(c, op, iv, data) == Chain(c, op, iv, data[..8]) + Pass(c, op, fed, data[8..])
            && FeedAfter(c, op, iv, data) == FeedAfter(c, op, fed, data[8..])
  {
  }

  lemma FeedIs(c: Cipher, op: Op, iv: Block, b: Block)
    ensures Feed(c, op, iv, b) == if op == Encrypt then Chain(c, op, iv, b) else b
  {
  }

  lemma EmptyPass(c: Cipher, op: Op, iv: Block)
    ensures Pass(c, op, iv, []) == [] && FeedAfter(c, op, iv, []) == iv
  {
  }

  lemma LastEight(a: seq<byte>, b: seq<byte>)
    requires |a| == 8 && (b == [] || |b| >= 8)
    ensures (a + b)[|a + b| - 8..] == if b == [] then a else b[|b| - 8..]
  {
  }

  lemma BlockAtTail(data: Blocks, k: nat)
    requires k > 0 && 8 * k + 8 <= |data|
    ensures BlockAt(data, k) == BlockAt(data[8..], k - 1)
  {
    assert data[8..][8 * (k - 1)..8 * (k - 1) + 8] == data[8 * k..8 * k + 8];
  }

  /** Damage to one ciphertext block reaches that block of the plain text and the next, and no
      other. */
  lemma DamageStaysLocal(c: Cipher, iv: Block, data: Blocks, damaged: Blocks, k: nat, m: nat)
    requires |data| == |damaged| && 8 * m + 8 <= |data| && m != k && m != k + 1
    requires forall j: nat :: j != k && 8 * j + 8 <= |data| ==> BlockAt(data, j) == BlockAt(damaged, j)
    ensures BlockAt(Pass(c, Decrypt, iv, data), m) == BlockAt(Pass(c, Decrypt, iv, damaged), m)
  {
    hide BlockAt, Pass;
    PassBlockChains(c, Decrypt, iv, data, m);
    PassBlockChains(c, Decrypt, iv, damaged, m);
    assert BlockAt(data, m) == BlockAt(damaged, m);
    if m > 0 { assert BlockAt(data, m - 1) == BlockAt(damaged, m - 1); }
  }

  // ----- The loop -----

  /** One block more of the same source. */
  lemma PassGrows(c: Cipher, op: Op, iv: Block, source: Blocks, at: nat)
    requires at % DES_BLOCKLEN == 0 && at + 8 <= |source|
    ensures var fed := FeedAfter(c, op, iv, source[..at]);
            && Pass(c, op, iv, source[..at + 8])
               == Pass(c, op, iv, source[..at]) + Chain(c, op, fed, source[at..at + 8])
            && FeedAfter(c, op, iv, source[..at + 8]) == Feed(c, op, fed, source[at..at + 8])
  {
    var b: Block := source[at..at + 8];
    assert source[..at + 8] == source[..at] + b;
    PassContinues(c, op, iv, source[..at], b, source[..at + 8]);
    assert b[..8] == b && b[8..] == [];
  }

  /** One byte more of what is stored. */
  lemma StoredMore(buffer: seq<byte>, at: nat, bytes: seq<byte>, k: nat)
    requires k < |bytes| && at + |bytes| <= |buffer|
    ensures Stored(buffer, at, bytes[..k + 1]) == Stored(buffer, at, bytes[..k])[at + k := bytes[k]]
    ensures Stored(buffer, at, bytes[..k])[at + k] == buffer[at + k]
  {
  }

  lemma NoneStored(buffer: seq<byte>, at: nat, bytes: seq<byte>)
    requires at <= |buffer|
    ensures Stored(buffer, at, bytes[..0]) == buffer && bytes[..|bytes|] == bytes
  {
  }

  /** Eight bytes copied, one by one. */
  method CopyBlock(to: array<byte>, toAt: nat, source: array<byte>, sourceAt: nat)
    requires toAt + DES_BLOCKLEN <= to.Length && sourceAt + DES_BLOCKLEN <= source.Length && to != source
    modifies to
    ensures to[..] == Stored(old(to[..]), toAt, source[sourceAt..sourceAt + DES_BLOCKLEN])
  {
    hide Stored;
    ghost var was, bytes := to[..], source[sourceAt..sourceAt + DES_BLOCKLEN];
    NoneStored(was, toAt, bytes);
    for k := 0 to DES_BLOCKLEN
      invariant to[..] == Stored(was, toAt, bytes[..k])
    {
      StoredMore(was, toAt, bytes, k);
      ghost var now := to[..];
      to[toAt + k] := source[sourceAt + k];
      assert to[..] == now[toAt + k := bytes[k]];
    }
  }

  /** A block masked in place with the register, byte by byte. */
  method XorBlock(block: array<byte>, at: nat, register: array<byte>)
    requires at + DES_BLOCKLEN <= block.Length && register.Length == DES_BLOCKLEN && block != register
    modifies block
    ensures block[..] == Stored(old(block[..]), at, Xor(old(block[at..at + DES_BLOCKLEN]), register[..]))
  {
    hide Stored, XorByte;
    ghost var was, bytes := block[..], Xor(block[at..at + DES_BLOCKLEN], register[..]);
    NoneStored(was, at, bytes);
    for k := 0 to DES_BLOCKLEN
      invariant block[..] == Stored(was, at, bytes[..k])
    {
      StoredMore(was, at, bytes, k);
      ghost var now := block[..];
      assert now[at + k] == was[at + k] && bytes[k] == XorByte(was[at + k], register[k]);
      block[at + k] := XorByte(block[at + k], register[k]);
      assert block[..] == now[at + k := bytes[k]];
    }
  }

  /** The block cipher from one place to another, which may be the same. */
  method CryptBlockAt(c: Cipher, output: array<byte>, input: array<byte>, at: nat, op: Op)
    requires at + DES_BLOCKLEN <= input.Length && at + DES_BLOCKLEN <= output.Length
    modifies output
    ensures output[..] == Stored(old(output[..]), at, c.crypt(old(input[at..at + DES_BLOCKLEN]), op))
  {
    Store(output, at, c.crypt(input[at..at + DES_BLOCKLEN], op));
  }

  /** CBC on one block, where input and output may be the same bytes. Decryption masks the
      output after it has overwritten the input, so it saves the ciphertext block before: the
      register needs it. */
  method OneBlock(c: Cipher, output: array<byte>, input: array<byte>, at: nat, op: Op,
                  feedback: array<byte>)
    requires at + DES_BLOCKLEN <= input.Length && at + DES_BLOCKLEN <= output.Length
    requires feedback.Length == DES_BLOCKLEN && feedback != input && feedback != output
    modifies output, feedback
    ensures output[..] == Stored(old(output[..]), at,
              Chain(c, op, old(feedback[..]), old(input[at..at + DES_BLOCKLEN])))
    ensures feedback[..] == Feed(c, op, old(feedback[..]), old(input[at..at + DES_BLOCKLEN]))
    ensures input[at + DES_BLOCKLEN..] == old(input[at + DES_BLOCKLEN..])
  {
    match op
    case Encrypt => EncryptBlock(c, output, input, at, feedback);
    case Decrypt => DecryptBlock(c, output, input, at, feedback);
  }

  method EncryptBlock(c: Cipher, output: array<byte>, input: array<byte>, at: nat, feedback: array<byte>)
    requires at + DES_BLOCKLEN <= input.Length && at + DES_BLOCKLEN <= output.Length
    requires feedback.Length == DES_BLOCKLEN && feedback != input && feedback != output
    modifies output, feedback
    ensures output[..] == Stored(old(output[..]), at,
              Chain(c, Encrypt, old(feedback[..]), old(input[at..at + DES_BLOCKLEN])))
    ensures feedback[..] == Feed(c, Encrypt, old(feedback[..]), old(input[at..at + DES_BLOCKLEN]))
    ensures input[at + DES_BLOCKLEN..] == old(input[at + DES_BLOCKLEN..])
  {
    hide Xor, Stored;
    ghost var o, r := output[..], feedback[..];
    ghost var block: Block := input[at..at + DES_BLOCKLEN];
    var masked := new byte[DES_BLOCKLEN];
    StoredWhole(masked[..], block);
    CopyBlock(masked, 0, input, at);
    assert masked[0..0 + DES_BLOCKLEN] == masked[..] == block;
    StoredWhole(block, Xor(block, r));
    XorBlock(masked, 0, feedback);
    Store(output, at, c.crypt(masked[..], Encrypt));
    StoredParts(o, at, Chain(c, Encrypt, r, block));
    CopyBlock(feedback, 0, output, at);
    assert output[at..at + DES_BLOCKLEN] == output[..][at..at + DES_BLOCKLEN];
    StoredWhole(r, Chain(c, Encrypt, r, block));
    assert input[at + DES_BLOCKLEN..] == input[..][at + DES_BLOCKLEN..];
  }

  method DecryptBlock(c: Cipher, output: array<byte>, input: array<byte>, at: nat, feedback: array<byte>)
    requires at + DES_BLOCKLEN <= input.Length && at + DES_BLOCKLEN <= output.Length
    requires feedback.Length == DES_BLOCKLEN && feedback != input && feedback != output
    modifies output, feedback
    ensures output[..] == Stored(old(output[..]), at,
              Chain(c, Decrypt, old(feedback[..]), old(input[at..at + DES_BLOCKLEN])))
    ensures feedback[..] == Feed(c, Decrypt, old(feedback[..]), old(input[at..at + DES_BLOCKLEN]))
    ensures input[at + DES_BLOCKLEN..] == old(input[at + DES_BLOCKLEN..])
  {
    hide Xor, Stored;
    ghost var o, r := output[..], feedback[..];
    ghost var block: Block := input[at..at + DES_BLOCKLEN];
    var saved := new byte[DES_BLOCKLEN];
    StoredWhole(saved[..], block);
    CopyBlock(saved, 0, input, at);
    assert saved[0..0 + DES_BLOCKLEN] == saved[..] == block;
    CryptBlockAt(c, output, input, at, Decrypt);
    StoredParts(o, at, c.crypt(block, Decrypt));
    assert output[at..at + DES_BLOCKLEN] == output[..][at..at + DES_BLOCKLEN];
    XorBlock(output, at, feedback);
    StoredTwice(o, at, c.crypt(block, Decrypt), Chain(c, Decrypt, r, block));
    StoredWhole(r, block);
    CopyBlock(feedback, 0, saved, 0);
    StoredParts(o, at, Chain(c, Decrypt, r, block));
    assert input[at + DES_BLOCKLEN..] == input[..][at + DES_BLOCKLEN..];
  }

  lemma StoredTwice(buffer: seq<byte>, at: nat, first: seq<byte>, second: seq<byte>)
    requires |first| == |second| && at + |first| <= |buffer|
    ensures Stored(Stored(buffer, at, first), at, second) == Stored(buffer, at, second)
  {
  }

  /** Writing over the first bytes of what is left. */
  lemma StoredExtends(buffer: seq<byte>, done: seq<byte>, left: seq<byte>, bytes: seq<byte>, at: nat)
    requires buffer == done + left && |done| == at && |bytes| <= |left|
    ensures Stored(buffer, at, bytes) == (done + bytes) + left[|bytes|..]
  {
  }

  /** The buffers and the register when the loop has done the first at bytes: the rest of the
      input is as it was, even when the input is the output. */
  ghost predicate Reached(c: Cipher, op: Op, iv: Block, source: seq<byte>, was: seq<byte>, length: nat, at: nat,
                          input: seq<byte>, output: seq<byte>, register: Block)
  {
    && at <= length && at % DES_BLOCKLEN == 0 && length <= |source| == |input| && length <= |was|
    && input[at..] == source[at..]
    && output == Pass(c, op, iv, source[..at]) + was[at..]
    && register == FeedAfter(c, op, iv, source[..at])
  }

  lemma ReachedNext(c: Cipher, op: Op, iv: Block, source: seq<byte>, was: seq<byte>, length: nat, at: nat,
                    input: seq<byte>, output: seq<byte>, register: Block, input': seq<byte>)
    requires Reached(c, op, iv, source, was, length, at, input, output, register)
    requires at + DES_BLOCKLEN <= length
    requires |input'| == |input| && input'[at + DES_BLOCKLEN..] == input[at + DES_BLOCKLEN..]
    ensures var block: Block := input[at..at + DES_BLOCKLEN];
            Reached(c, op, iv, source, was, length, at + DES_BLOCKLEN, input',
                    Stored(output, at, Chain(c, op, register, block)), Feed(c, op, register, block))
  {
    var block: Block := input[at..at + DES_BLOCKLEN];
    assert block == source[at..at + DES_BLOCKLEN] by {
      assert block == input[at..][..DES_BLOCKLEN];
    }
    PassGrows(c, op, iv, source[..at + DES_BLOCKLEN], at);
    assert source[..at + DES_BLOCKLEN][..at] == source[..at];
    assert source[..at + DES_BLOCKLEN][..at + 8] == source[..at + 8];
    StoredExtends(output, Pass(c, op, iv, source[..at]), was[at..], Chain(c, op, register, block), at);
    assert input'[at + DES_BLOCKLEN..] == source[at + DES_BLOCKLEN..] by {
      assert input[at..][DES_BLOCKLEN..] == source[at..][DES_BLOCKLEN..];
    }
  }

  /** XcBlockCryptCBC. The result is that of a pass between separate buffers whether or not
      output and input are one array. */
  method BlockCryptCBC(c: Cipher, dwInputLength: nat, pbOutput: array<byte>, pbInput: array<byte>, op: Op,
                       pbFeedback: array<byte>)
    requires dwInputLength % DES_BLOCKLEN == 0
    requires dwInputLength <= pbInput.Length && dwInputLength <= pbOutput.Length
    requires pbFeedback.Length == DES_BLOCKLEN && pbFeedback != pbInput && pbFeedback != pbOutput
    modifies pbOutput, pbFeedback
    ensures pbOutput[..] == Pass(c, op, old(pbFeedback[..]), old(pbInput[..dwInputLength]))
                          + old(pbOutput[dwInputLength..])
    ensures pbFeedback[..] == FeedAfter(c, op, old(pbFeedback[..]), old(pbInput[..dwInputLength]))
  {
    hide Reached, Pass, FeedAfter;
    ghost var source, was := pbInput[..], pbOutput[..];
    ghost var iv: Block := pbFeedback[..];
    ReachedStarts(c, op, iv, source, was, dwInputLength);
    var at := 0;
    while at < dwInputLength
      invariant Reached(c, op, iv, source, was, dwInputLength, at, pbInput[..], pbOutput[..], pbFeedback[..])
      invariant at <= dwInputLength && at % DES_BLOCKLEN == 0
    {
      at := NextBlock(c, dwInputLength, pbOutput, pbInput, op, pbFeedback, at, iv, source, was);
    }
    ReachedEnds(c, op, iv, source, was, dwInputLength, pbInput[..], pbOutput[..], pbFeedback[..]);
    assert source[..dwInputLength] == old(pbInput[..dwInputLength]);
    assert was[dwInputLength..] == old(pbOutput[dwInputLength..]);
  }

  lemma ReachedStarts(c: Cipher, op: Op, iv: Block, source: seq<byte>, was: seq<byte>, length: nat)
    requires length <= |source| && length <= |was|
    ensures Reached(c, op, iv, source, was, length, 0, source, was, iv)
  {
    assert source[..0] == [] && [] + was[0..] == was;
  }

  lemma ReachedEnds(c: Cipher, op: Op, iv: Block, source: seq<byte>, was: seq<byte>, length: nat,
                    input: seq<byte>, output: seq<byte>, register: Block)
    requires Reached(c, op, iv, source, was, length, length, input, output, register)
    ensures length % DES_BLOCKLEN == 0 && length <= |source| && length <= |was|
    ensures output == Pass(c, op, iv, source[..length]) + was[length..]
    ensures register == FeedAfter(c, op, iv, source[..length])
  {
  }

  /** The body of the loop. */
  method NextBlock(c: Cipher, dwInputLength: nat, pbOutput: array<byte>, pbInput: array<byte>, op: Op,
                   pbFeedback: array<byte>, at: nat, ghost iv: Block, ghost source: seq<byte>, ghost was: seq<byte>)
    returns (next: nat)
    requires pbFeedback.Length == DES_BLOCKLEN && pbFeedback != pbInput && pbFeedback != pbOutput
    requires Reached(c, op, iv, source, was, dwInputLength, at, pbInput[..], pbOutput[..], pbFeedback[..])
    requires at + DES_BLOCKLEN <= dwInputLength
    modifies pbOutput, pbFeedback
    ensures next == at + DES_BLOCKLEN
    ensures Reached(c, op, iv, source, was, dwInputLength, next, pbInput[..], pbOutput[..], pbFeedback[..])
  {
    ghost var input, output, register := pbInput[..], pbOutput[..], pbFeedback[..];
    assert pbInput[at..at + DES_BLOCKLEN] == input[at..at + DES_BLOCKLEN];
    OneBlock(c, pbOutput, pbInput, at, op, pbFeedback);
    assert pbInput[..][at + DES_BLOCKLEN..] == input[at + DES_BLOCKLEN..];
    ReachedNext(c, op, iv, source, was, dwInputLength, at, input, output, register, pbInput[..]);
    next := at + DES_BLOCKLEN;
  }
}
