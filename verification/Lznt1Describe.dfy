/** RtlDescribeChunkLZNT1: the walk that tells where a compressed buffer's chunks lie, and what
    it says of the chunks a compressor writes. */
module Lznt1Describe {
  import opened Bits
  import opened Bytes
  import opened Lznt1Format
  import opened Lznt1Chunk
  import opened Lznt1Buffer
  import opened Lznt1Parse
  import opened Lznt1Compress

  datatype Status = Success | NoMoreEntries | BadCompressionBuffer

  /** What the walk says of the chunk at the start of a string: where its data begin, how many
      there are, and where the next chunk begins. */
  datatype Entry = NoMore | Bad | Entry(at: nat, size: nat, next: nat)

  /** A compressed chunk of a zero literal and one copy token counts as one of zeros, whatever
      the copy token says. */
  function EntryAt(cs: seq<byte>): (r: Entry)
    ensures r.Entry? ==> 3 <= r.next <= |cs| && r.at + r.size <= r.next
  {
    if |cs| < 4 || HeaderAt(cs) == 0 then NoMore
    else
      var h := HeaderAt(cs);
      var size := HeaderSize(h);
      if size > |cs| || h / 0x1000 % 8 != 3 then Bad
      else if !HeaderCompressed(h) then if size != MAX_CHUNK + 2 then Bad else Entry(2, MAX_CHUNK, size)
      else if size == 6 && cs[2] == 2 && cs[3] == 0 then Entry(0, 0, size)
      else Entry(0, size, size)
  }

  method DescribeChunk(src: array<byte>, compressedBuffer: nat, end: nat)
    returns (status: Status, compressedBuffer': nat, chunkBuffer: nat, chunkSize: nat)
    requires compressedBuffer <= end <= src.Length
    ensures match EntryAt(src[..][compressedBuffer..end])
            case NoMore => status == NoMoreEntries && compressedBuffer' == compressedBuffer && chunkSize == 0
            case Bad => status == BadCompressionBuffer && compressedBuffer' == compressedBuffer
            case Entry(at, size, next) =>
              && status == Success && chunkBuffer == compressedBuffer + at && chunkSize == size
              && compressedBuffer' == compressedBuffer + next <= end
  {
    hide HeaderSize, HeaderCompressed, Ushort;
    ghost var cs := src[..][compressedBuffer..end];
    status, compressedBuffer', chunkBuffer, chunkSize := NoMoreEntries, compressedBuffer, compressedBuffer, 0;
    if compressedBuffer + 4 <= end {
      assert cs[0] == src[compressedBuffer] && cs[1] == src[compressedBuffer + 1];
      assert cs[2] == src[compressedBuffer + 2] && cs[3] == src[compressedBuffer + 3];
      var h := Ushort(src[compressedBuffer], src[compressedBuffer + 1]);
      if h != 0 {
        status, chunkSize := Success, HeaderSize(h);
        compressedBuffer' := compressedBuffer + chunkSize;
        if compressedBuffer' > end || h / 0x1000 % 8 != 3 {
          compressedBuffer' := compressedBuffer' - chunkSize;
          status := BadCompressionBuffer;
        } else if !HeaderCompressed(h) {
          if chunkSize != MAX_CHUNK + 2 {
            compressedBuffer' := compressedBuffer' - chunkSize;
            status := BadCompressionBuffer;
          } else {
            chunkBuffer, chunkSize := chunkBuffer + 2, chunkSize - 2;
          }
        } else if chunkSize == 6 && src[chunkBuffer + 2] == 2 && src[chunkBuffer + 3] == 0 {
          chunkSize := 0;
        }
      }
    }
  }

  // ----- A compressor's chunks -----

  /** A zero and a copy of it. */
  predicate ZeroAndCopy(c: Chunk) {
    c.Tokens? && |c.ts| == 2 && c.ts[0] == Literal(0) && c.ts[1].Copy?
  }

  ghost function EntryOf(c: Chunk): (r: Entry)
    requires Good(c)
    ensures r.Entry?
  {
    if c.Raw? then Entry(2, 4096, 4098)
    else if ZeroAndCopy(c) then Entry(0, 0, 6)
    else Entry(0, |ChunkBytes(c)|, |ChunkBytes(c)|)
  }

  /** The walk accepts a compressor's chunk, whatever follows. */
  lemma ChunkDescribed(c: Chunk, more: seq<byte>)
    requires Good(c)
    ensures EntryAt(ChunkBytes(c) + more) == EntryOf(c) && EntryOf(c).Entry?
    ensures EntryOf(c).next == |ChunkBytes(c)|
  {
    hide Good, Body, ChunkBytes, Header, HeaderSize, HeaderCompressed, HeaderAt, LowHigh, ZeroAndCopy;
    var cs := ChunkBytes(c) + more;
    var size := |ChunkBytes(c)|;
    BytesOfChunk(c, more);
    HeaderFields(size, c.Tokens?);
    SizeOfChunk(c);
    if c.Tokens? {
      ZeroFormIff(c);
      assert cs[2] == cs[2..size][0] && cs[3] == cs[2..size][1];
    }
  }

  lemma SizeOfChunk(c: Chunk)
    requires Good(c)
    ensures |ChunkBytes(c)| == 2 + |Body(c)| && |Body(c)| >= 2
    ensures c.Raw? ==> |ChunkBytes(c)| == 4098
  {
    hide Encoded, Valid, Expanded, Header, LowHigh;
  }

  /** In a body of four bytes the flag byte 2 and a zero behind it mean a zero and a copy token. */
  lemma ZeroFormIff(c: Chunk)
    requires Good(c) && c.Tokens?
    ensures var b := Body(c);
            ZeroAndCopy(c) <==> |b| == 4 && b[0] == 2 && b[1] == 0
  {
    hide Valid, Expanded, Encoded, Payload, Flags, Pow2, CodedSize;
    var ts, b := c.ts, Body(c);
    EncodedLayout([], ts);
    EncodedSize([], ts);
    CodedSizeOfFew(ts);
    var g := ts[..if |ts| <= 8 then |ts| else 8];
    FlagsOfTwo(g);
    if ZeroAndCopy(c) || (|b| == 4 && b[0] == 2) {
      assert |ts| == 2 && g == ts && ts[2..] == [];
      PayloadOfTwo(ts);
      NothingEncoded(Expanded([], ts));
      assert b[1] == b[1..][0];
    }
  }

  lemma NothingEncoded(out: seq<byte>)
    ensures Encoded(out, []) == []
  {
  }

  lemma PayloadOfTwo(ts: seq<Token>)
    requires Valid([], ts) && |ts| == 2
    ensures ts[0].Literal? && Payload([], ts) != [] && Payload([], ts)[0] == ts[0].b
  {
  }

  /** Only two tokens of which the second is a copy take four bytes with the flag byte 2. */
  lemma CodedSizeOfFew(ts: seq<Token>)
    ensures |ts| + 1 <= CodedSize(ts) || ts == []
    ensures |ts| == 2 ==> CodedSize(ts) == 3 + (if ts[0].Copy? then 1 else 0) + if ts[1].Copy? then 1 else 0
    ensures |ts| >= 3 && ts[1].Copy? ==> CodedSize(ts) >= 5
    ensures |ts| == 1 ==> CodedSize(ts) <= 3
  {
    SizesAtLeast(ts);
    if |ts| >= 1 {
      SizesCons(ts[0], ts[1..]);
      assert [ts[0]] + ts[1..] == ts;
    }
    if |ts| >= 2 {
      SizesCons(ts[1], ts[2..]);
      assert [ts[1]] + ts[2..] == ts[1..];
      SizesAtLeast(ts[2..]);
    }
  }

  lemma {:induction false} SizesAtLeast(ts: seq<Token>)
    ensures Sizes(ts) >= |ts|
  {
    if ts != [] { SizesAtLeast(ts[1..]); }
  }

  lemma FlagsOfTwo(g: seq<Token>)
    ensures |g| >= 2 && Flags(g) == 2 ==> g[0].Literal? && g[1].Copy?
    ensures |g| == 2 && g[0].Literal? && g[1].Copy? ==> Flags(g) == 2
    ensures |g| <= 1 ==> Flags(g) <= 1
  {
  }

  // ----- The whole walk -----

  /** What the walk says until it ends. */
  function Entries(cs: seq<byte>): seq<Entry> {
    var e := EntryAt(cs);
    if e.Entry? then [e] + Entries(cs[e.next..]) else [e]
  }

  /** Chunk after chunk the walk describes what a compressor wrote, and then finds no more. */
  lemma {:induction false} ChunksDescribed(chunks: seq<Chunk>, tail: seq<byte>)
    requires (forall k :: 0 <= k < |chunks| ==> Good(chunks[k])) && Ends(tail)
    ensures var es := Entries(AllBytes(chunks) + tail);
            && |es| == |chunks| + 1 && es[|chunks|] == NoMore
            && forall k :: 0 <= k < |chunks| ==> es[k] == EntryOf(chunks[k])
    decreases |chunks|
  {
    hide Good, EntryOf, EntryAt, ChunkBytes, AllBytes;
    if chunks == [] {
      NoBytes();
      NoneDescribed(tail);
      assert [] + tail == tail;
    } else {
      var c, later := chunks[0], chunks[1..];
      assert forall k :: 0 <= k < |later| ==> later[k] == chunks[k + 1];
      FirstOfAll(chunks);
      Associates(ChunkBytes(c), AllBytes(later), tail);
      var more := AllBytes(later) + tail;
      ChunkDescribed(c, more);
      assert (ChunkBytes(c) + more)[|ChunkBytes(c)|..] == more;
      ChunksDescribed(later, tail);
    }
  }

  lemma NoneDescribed(tail: seq<byte>)
    requires Ends(tail)
    ensures EntryAt(tail) == NoMore
  {
  }

  /** The walk accepts all that RtlCompressBufferLZNT1 writes. */
  lemma WrittenDescribed(engine: Engine, mem: seq<byte>, n: nat, room: nat, t: Table, tail: seq<byte>)
    requires n <= |mem| && Compressed(engine, mem, n, 0, room, t).Complete? && Ends(tail)
    ensures var chunks := Compressed(engine, mem, n, 0, room, t).chunks;
            && GoodChunks(chunks)
            && var es := Entries(AllBytes(chunks) + tail);
               && |es| == |chunks| + 1 && es[|chunks|] == NoMore
               && forall k :: 0 <= k < |chunks| ==> es[k] == EntryOf(chunks[k])
  {
    hide Good, EntryOf, EntryAt, AllBytes, Compressed, Entries, AllPlain, Reach;
    if n > 0 {
      CompressedSpells(engine, mem, n, 0, room, t);
    } else {
      NothingCompressed(engine, mem, room, t);
    }
    ChunksDescribed(Compressed(engine, mem, n, 0, room, t).chunks, tail);
  }

  // ----- Chunks of zeros -----

  /** A chunk that the walk takes for zeros stands for zeros, at least four of them. */
  lemma DescribedZerosAreZero(c: Chunk)
    requires Good(c) && EntryOf(c).size == 0
    ensures AllZero(Plain(c)) && |Plain(c)| >= 4
  {
    hide AllZero, ChunkBytes, Encoded, Valid, Expanded;
    SizeOfChunk(c);
    var copy := c.ts[1];
    assert c.ts == [Literal(0), copy];
    ZeroAndCopyMeans(copy);
    CopyKeepsZero([0], copy.length, 1);
    OneZero();
  }

  lemma ZeroAndCopyMeans(copy: Token)
    requires copy.Copy? && Valid([], [Literal(0), copy])
    ensures copy.length >= 3 && Expanded([], [Literal(0), copy]) == Copied([0], copy.length, 1)
  {
    hide Copied;
    var ts := [Literal(0), copy];
    assert ts[1..] == [copy] && [copy][1..] == [];
    assert Extended([], Literal(0)) == [0] && Valid([0], [copy]) && Fitting([0], copy);
    assert Expanded([], ts) == Expanded([0], [copy]);
    assert Expanded([0], [copy]) == Expanded(Extended([0], copy), []);
  }

  lemma OneZero()
    ensures AllZero([0])
  {
  }

  /** With either engine the walk takes a chunk for zeros exactly if it was written for at least
      four bytes, all of them zero. */
  lemma ZerosDescribedIff(engine: Engine, mem: seq<byte>, start: nat, n: nat, room: nat, t: Table)
    requires start < n <= |mem| && Choose(engine, mem, start, n, room, t).Chosen?
    ensures var c := Choose(engine, mem, start, n, room, t).c;
            && Good(c)
            && (EntryOf(c).size == 0
                <==> start + 4 <= ChunkEnd(start, n) && AllZero(mem[start..ChunkEnd(start, n)]))
  {
    hide Good, EntryOf, Plain, Parse, AllZero, CodedSize, ChunkBytes;
    var c, end := Choose(engine, mem, start, n, room, t).c, ChunkEnd(start, n);
    ChosenSpells(engine, mem, start, n, room, t);
    if EntryOf(c).size == 0 {
      DescribedZerosAreZero(c);
      NotRaw(c);
    }
    if start + 4 <= end && AllZero(mem[start..end]) {
      ZerosParse(engine, mem, start, end, t);
      ZerosAreSmall(engine, mem, start, end, t);
      ZeroEntry(c);
    }
  }

  lemma NotRaw(c: Chunk)
    requires Good(c) && EntryOf(c).size == 0
    ensures c.Tokens?
  {
  }

  lemma ZeroEntry(c: Chunk)
    requires Good(c) && ZeroAndCopy(c)
    ensures EntryOf(c).size == 0
  {
  }

  lemma ZeroFlags()
    ensures !FlagOn(2, 0) && FlagOn(2, 1) && FormatAt(1) == 0
  {
    assert Pow2(0) == 1 && Pow2(1) == 2;
  }

  lemma CopiedZero(n: nat)
    ensures Copied([0], n, 1) == Zeros(n + 1)
  {
    CopyKeepsZero([0], n, 1);
    OneZero();
  }

  lemma CopyOfZero(lo: byte, hi: byte, limit: nat)
    requires limit >= 2
    ensures Decode([lo, hi], 2, 1, [0], limit)
         == if hi >= 0x10 then BadBuffer else Output(Zeros(1 + Min(256 * (hi % 16) + lo + 3, limit - 1)))
  {
    hide FlagOn, FormatAt, Copied, Zeros;
    ZeroFlags();
    var token := Ushort(lo, hi);
    assert TokenDisplacement(0, token) == hi / 16 + 1 && TokenLength(0, token) == 256 * (hi % 16) + lo + 3;
    assert [lo, hi][2..] == [];
    var length := Min(TokenLength(0, token), limit - 1);
    CopiedZero(length);
    assert NextBit([], 2, 1, Copied([0], length, 1), limit) == Output(Copied([0], length, 1));
  }

  /** A zero literal and a copy token are said to be zeros whatever the copy token says. They
      decompress to zeros exactly when no more than the literal is asked for or the token's four
      high bits, the displacement less one, are clear; otherwise the buffer is bad. */
  lemma ZeroAndCopyIff(lo: byte, hi: byte, limit: nat)
    ensures EntryAt(LowHigh(Header(6, true)) + [2, 0, lo, hi]) == Entry(0, 0, 6)
    ensures (exists m: nat :: DecodeChunk([2, 0, lo, hi], limit) == Output(Zeros(m))) <==> limit <= 1 || hi < 0x10
    ensures limit > 1 && hi >= 0x10 ==> DecodeChunk([2, 0, lo, hi], limit) == BadBuffer
  {
    hide FlagOn, FormatAt, Decode;
    var d := DecodeChunk([2, 0, lo, hi], limit);
    AfterTheZero(lo, hi, limit);
    if limit == 0 {
      assert d == Output(Zeros(0));
    } else if limit == 1 {
      FullStops([lo, hi], 2, 1, [0], 1);
      assert d == Output(Zeros(1));
    } else {
      CopyOfZero(lo, hi, limit);
    }
  }

  lemma AfterTheZero(lo: byte, hi: byte, limit: nat)
    ensures DecodeChunk([2, 0, lo, hi], limit)
         == if limit == 0 then Output([]) else Decode([lo, hi], 2, 1, [0], limit)
  {
    hide FlagOn, FormatAt;
    ZeroFlags();
    assert [2, 0, lo, hi][1..] == [0, lo, hi] && [0, lo, hi][1..] == [lo, hi] && [] + [0] == [0];
    assert NextBit([lo, hi], 2, 0, [0], limit) == Decode([lo, hi], 2, 1, [0], limit);
  }
}
