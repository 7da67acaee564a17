/** Compressed buffers: chunk headers, the walk over chunks that decompresses a buffer, and
    what that walk makes of the chunks a compressor writes. */
module Lznt1Buffer {
  import opened Bytes
  import opened Lznt1Format

  // ----- Chunk headers -----

  /** SetCompressedChunkHeader: size less three, the signature 3, and the compressed bit. */
  function Header(size: nat, compressed: bool): (h: nat)
    requires 4 <= size <= 4098
    ensures 0 < h < 0x1_0000
  {
    (size - 3) + 0x3000 + if compressed then 0x8000 else 0
  }

  /** GetCompressedChunkSize */
  function HeaderSize(h: nat): nat {
    h % 4096 + 3
  }

  function HeaderCompressed(h: nat): bool {
    h / 0x8000 % 2 == 1
  }

  lemma HeaderThere(size: nat, compressed: bool)
    requires 4 <= size <= 4098
    ensures HeaderSize(Header(size, compressed)) == size
    ensures HeaderCompressed(Header(size, compressed)) == compressed
  {
  }

  /** The size less three in the twelve low bits, the signature 3, and the kind in the top bit. */
  lemma HeaderFields(size: nat, compressed: bool)
    requires 4 <= size <= 4098
    ensures Header(size, compressed) % 0x1000 == size - 3
    ensures Header(size, compressed) / 0x1000 % 8 == 3
    ensures Header(size, compressed) / 0x8000 == if compressed then 1 else 0
  {
  }

  /** Every 16-bit header is read by the same fields. */
  lemma FieldsRead(h: nat)
    requires h < 0x1_0000
    ensures HeaderSize(h) == h % 0x1000 + 3 && (HeaderCompressed(h) <==> h >= 0x8000)
  {
  }

  function HeaderAt(cs: seq<byte>): nat
    requires |cs| >= 2
  {
    Ushort(cs[0], cs[1])
  }

  // ----- Decompressing a buffer -----

  /** What the chunk at the start of the buffer puts out. A chunk stored raw is copied without
      regard to its own size: as much as fits, up to a whole uncompressed chunk. */
  function ChunkOut(cs: seq<byte>, limit: nat): Decoded
    requires |cs| >= 2 && HeaderSize(HeaderAt(cs)) <= |cs|
  {
    if HeaderCompressed(HeaderAt(cs)) then DecodeChunk(cs[2..HeaderSize(HeaderAt(cs))], limit)
    else
      var n := Min(MAX_CHUNK, limit);
      if 2 + n > |cs| then BadBuffer else Output(cs[2..2 + n])
  }

  function Prepend(x: seq<byte>, d: Decoded): Decoded {
    match d
    case Output(out) => Output(x + out)
    case _ => d
  }

  /** RtlDecompressBufferLZNT1 from one chunk header on, with room for limit bytes: what it puts
      out from there. A chunk that falls short of 4096 bytes is filled up with zeros, but only
      when another chunk follows whose data still begin within the room. */
  function Decompressed(cs: seq<byte>, limit: nat): Decoded
    requires |cs| >= 2
    decreases |cs|
  {
    var size := HeaderSize(HeaderAt(cs));
    if size > |cs| then BadBuffer
    else
      match ChunkOut(cs, limit)
      case Output(x) =>
        var next := cs[size..];
        if |x| >= limit || |next| < 2 || HeaderAt(next) == 0 then Output(x)
        else if |x| >= MAX_CHUNK then Prepend(x, Decompressed(next, limit - |x|))
        else if MAX_CHUNK >= limit then Output(x)
        else Prepend(x + Zeros(MAX_CHUNK - |x|), Decompressed(next, limit - MAX_CHUNK))
      case bad => bad
  }

  /** What follows from one chunk's output. */
  lemma DecompressedStep(cs: seq<byte>, limit: nat, x: seq<byte>)
    requires |cs| >= 2 && HeaderSize(HeaderAt(cs)) <= |cs| && ChunkOut(cs, limit) == Output(x)
    ensures var next := cs[HeaderSize(HeaderAt(cs))..];
            Decompressed(cs, limit)
            == if |x| >= limit || |next| < 2 || HeaderAt(next) == 0 then Output(x)
               else if |x| >= MAX_CHUNK then Prepend(x, Decompressed(next, limit - |x|))
               else if MAX_CHUNK >= limit then Output(x)
               else Prepend(x + Zeros(MAX_CHUNK - |x|), Decompressed(next, limit - MAX_CHUNK))
  {
    hide ChunkOut, HeaderSize, HeaderAt, Zeros;
  }

  // ----- The chunks of a compressor -----

  datatype Chunk = Tokens(ts: seq<Token>) | Raw(plain: seq<byte>)

  ghost predicate Good(c: Chunk) {
    match c
    case Tokens(ts) =>
      ts != [] && Valid([], ts) && 0 < |Expanded([], ts)| <= MAX_CHUNK && 2 <= |Encoded([], ts)| <= MAX_CHUNK
    case Raw(plain) => |plain| == MAX_CHUNK
  }

  ghost function Plain(c: Chunk): (r: seq<byte>)
    requires Good(c)
    ensures 0 < |r| <= MAX_CHUNK
  {
    match c
    case Tokens(ts) => Expanded([], ts)
    case Raw(plain) => plain
  }

  ghost function Body(c: Chunk): (r: seq<byte>)
    requires Good(c)
    ensures 2 <= |r| <= MAX_CHUNK
  {
    match c
    case Tokens(ts) => Encoded([], ts)
    case Raw(plain) => plain
  }

  ghost function ChunkBytes(c: Chunk): (r: seq<byte>)
    requires Good(c)
  {
    LowHigh(Header(2 + |Body(c)|, c.Tokens?)) + Body(c)
  }

  /** Every chunk but the last stands for 4096 bytes. */
  ghost predicate GoodChunks(chunks: seq<Chunk>) {
    && (forall k :: 0 <= k < |chunks| ==> Good(chunks[k]))
    && (forall k :: 0 <= k < |chunks| - 1 ==> |Plain(chunks[k])| == MAX_CHUNK)
  }

  ghost function AllBytes(chunks: seq<Chunk>): seq<byte>
    requires forall k :: 0 <= k < |chunks| ==> Good(chunks[k])
  {
    if chunks == [] then [] else ChunkBytes(chunks[0]) + AllBytes(chunks[1..])
  }

  ghost function AllPlain(chunks: seq<Chunk>): seq<byte>
    requires forall k :: 0 <= k < |chunks| ==> Good(chunks[k])
  {
    if chunks == [] then [] else Plain(chunks[0]) + AllPlain(chunks[1..])
  }

  /** What may follow the chunks: nothing that reads as a chunk header. */
  predicate Ends(tail: seq<byte>) {
    |tail| < 2 || HeaderAt(tail) == 0
  }

  lemma BytesOfChunk(c: Chunk, more: seq<byte>)
    requires Good(c)
    ensures var cs := ChunkBytes(c) + more;
            var size := |ChunkBytes(c)|;
            && 4 <= size <= 4098 && HeaderAt(cs) == Header(size, c.Tokens?)
            && HeaderSize(HeaderAt(cs)) == size && HeaderCompressed(HeaderAt(cs)) == c.Tokens?
            && cs[2..size] == Body(c) && cs[size..] == more
  {
    hide Good, Body, Header, HeaderSize, HeaderCompressed, LowHigh, Ushort;
    var size := 2 + |Body(c)|;
    var h := Header(size, c.Tokens?);
    var cs := ChunkBytes(c) + more;
    LowHighThere(h);
    HeaderThere(size, c.Tokens?);
    assert cs[0] == LowHigh(h)[0] && cs[1] == LowHigh(h)[1];
    assert cs[2..size] == Body(c);
  }

  /** Where the header of chunk k stands. */
  ghost function ChunkStart(chunks: seq<Chunk>, k: nat): nat
    requires k <= |chunks| && forall i :: 0 <= i < |chunks| ==> Good(chunks[i])
  {
    |AllBytes(chunks[..k])|
  }

  /** Where the bytes of chunk k stand. */
  lemma {:induction false} ChunkStands(chunks: seq<Chunk>, k: nat)
    requires (forall i :: 0 <= i < |chunks| ==> Good(chunks[i])) && k < |chunks|
    ensures var at, to := ChunkStart(chunks, k), ChunkStart(chunks, k + 1);
            at <= to <= |AllBytes(chunks)| && AllBytes(chunks)[at..to] == ChunkBytes(chunks[k])
    decreases k
  {
    hide Good, ChunkBytes, AllBytes;
    var c, later := chunks[0], chunks[1..];
    assert forall i :: 0 <= i < |later| ==> later[i] == chunks[i + 1];
    FirstOfAll(chunks);
    StartOfNext(chunks, k);
    if k == 0 {
      NoBytes();
      assert chunks[..0] == [] && later[..0] == [];
    } else {
      StartOfNext(chunks, k - 1);
      ChunkStands(later, k - 1);
      SliceOfSum(ChunkBytes(c), AllBytes(later), ChunkStart(later, k - 1), ChunkStart(later, k));
    }
  }

  lemma StartOfNext(chunks: seq<Chunk>, k: nat)
    requires (forall i :: 0 <= i < |chunks| ==> Good(chunks[i])) && k < |chunks|
    ensures forall i :: 0 <= i < |chunks[1..]| ==> Good(chunks[1..][i])
    ensures ChunkStart(chunks, k + 1) == |ChunkBytes(chunks[0])| + ChunkStart(chunks[1..], k)
  {
    hide Good, ChunkBytes, AllBytes;
    assert forall i :: 0 <= i < |chunks[1..]| ==> chunks[1..][i] == chunks[i + 1];
    var front := chunks[..k + 1];
    FirstOfAll(front);
    assert front[0] == chunks[0] && front[1..] == chunks[1..][..k];
  }

  /** The headers of all chunks, as 16-bit words with the low byte first. */
  lemma EveryHeader(chunks: seq<Chunk>, k: nat)
    requires (forall i :: 0 <= i < |chunks| ==> Good(chunks[i])) && k < |chunks|
    ensures var s, at, to := AllBytes(chunks), ChunkStart(chunks, k), ChunkStart(chunks, k + 1);
            && at + 4 <= to <= |s| && s[at..to] == ChunkBytes(chunks[k])
            && var h := s[at] as int + 0x100 * s[at + 1] as int;
               && h % 0x1000 == to - at - 3 && h / 0x1000 % 8 == 3
               && h / 0x8000 == if chunks[k].Tokens? then 1 else 0
  {
    hide Good, ChunkBytes, AllBytes, ChunkStart;
    ChunkStands(chunks, k);
    HeaderWord(chunks[k]);
    var s, at, to := AllBytes(chunks), ChunkStart(chunks, k), ChunkStart(chunks, k + 1);
    assert s[at..to][0] == s[at] && s[at..to][1] == s[at + 1];
  }

  lemma SliceOfSum(a: seq<byte>, b: seq<byte>, i: nat, j: nat)
    requires i <= j <= |b|
    ensures (a + b)[|a| + i..|a| + j] == b[i..j]
  {
  }

  lemma NoBytes()
    ensures AllBytes([]) == []
  {
  }

  lemma FirstOfAll(chunks: seq<Chunk>)
    requires chunks != [] && forall i :: 0 <= i < |chunks| ==> Good(chunks[i])
    ensures AllBytes(chunks) == ChunkBytes(chunks[0]) + AllBytes(chunks[1..])
  {
    hide Good, ChunkBytes;
  }

  lemma HeaderWord(c: Chunk)
    requires Good(c)
    ensures var b := ChunkBytes(c);
            && 4 <= |b| <= 4098
            && var h := b[0] as int + 0x100 * b[1] as int;
               && h % 0x1000 == |b| - 3 && h / 0x1000 % 8 == 3
               && h / 0x8000 == if c.Tokens? then 1 else 0
  {
    hide Good, Body, Header, LowHigh;
    var size := 2 + |Body(c)|;
    HeaderFields(size, c.Tokens?);
    LowHighIs(Header(size, c.Tokens?));
  }

  /** One chunk decompresses to what it stands for, or to as much of it as there is room for. */
  lemma ChunkOutIs(c: Chunk, more: seq<byte>, limit: nat)
    requires Good(c)
    ensures |ChunkBytes(c) + more| >= 2 && HeaderSize(HeaderAt(ChunkBytes(c) + more)) <= |ChunkBytes(c) + more|
    ensures ChunkOut(ChunkBytes(c) + more, limit) == Output(Clip(Plain(c), limit))
  {
    hide Decode, Encoded, Expanded, Valid, Header, HeaderSize, HeaderCompressed, HeaderAt, ChunkBytes;
    BytesOfChunk(c, more);
    match c
    case Tokens(ts) =>
      DecodeEncoded([], ts, limit);
    case Raw(plain) =>
      var cs := ChunkBytes(c) + more;
      var n := Min(MAX_CHUNK, limit);
      assert cs[2..2 + n] == cs[2..2 + MAX_CHUNK][..n];
  }

  /** Decompressing a compressor's chunks gives the bytes they stand for, in a buffer of any
      size as many as it holds, whether or not an ending header follows. */
  lemma {:induction false} DecompressChunks(chunks: seq<Chunk>, tail: seq<byte>, limit: nat)
    requires GoodChunks(chunks) && chunks != [] && Ends(tail)
    ensures |AllBytes(chunks) + tail| >= 2
    ensures Decompressed(AllBytes(chunks) + tail, limit) == Output(Clip(AllPlain(chunks), limit))
    decreases |chunks|
  {
    hide Good, ChunkOut, Plain, ChunkBytes, Header, HeaderSize, HeaderCompressed, HeaderAt, Clip, Ends, Decompressed,
         AllBytes, AllPlain;
    var c, later := chunks[0], chunks[1..];
    GoodTail(chunks);
    AllSplit(chunks, tail);
    var next := AllBytes(later) + tail;
    BytesOfChunk(c, next);
    ChunkOutIs(c, next, limit);
    DecompressedStep(ChunkBytes(c) + next, limit, Clip(Plain(c), limit));
    ClipConcat(Plain(c), AllPlain(later), limit);
    if later == [] {
      assert next == tail;
      EndsIs(tail);
    } else {
      GoodTail(later);
      AllSplit(later, tail);
      BytesOfChunk(later[0], AllBytes(later[1..]) + tail);
      if limit > MAX_CHUNK {
        DecompressChunks(later, tail, limit - MAX_CHUNK);
      }
    }
  }

  lemma AllSplit(chunks: seq<Chunk>, tail: seq<byte>)
    requires chunks != [] && GoodChunks(chunks) && GoodChunks(chunks[1..])
    ensures AllBytes(chunks) + tail == ChunkBytes(chunks[0]) + (AllBytes(chunks[1..]) + tail)
    ensures AllPlain(chunks) == Plain(chunks[0]) + AllPlain(chunks[1..])
    ensures chunks[1..] == [] ==> AllBytes(chunks[1..]) + tail == tail && AllPlain(chunks[1..]) == []
  {
    hide Good, ChunkBytes, Plain;
    Associates(ChunkBytes(chunks[0]), AllBytes(chunks[1..]), tail);
  }

  lemma Associates(a: seq<byte>, b: seq<byte>, c: seq<byte>)
    ensures a + b + c == a + (b + c)
    ensures [] + c == c
  {
  }

  lemma EndsIs(tail: seq<byte>)
    requires Ends(tail)
    ensures |tail| < 2 || HeaderAt(tail) == 0
  {
  }

  lemma GoodTail(chunks: seq<Chunk>)
    requires GoodChunks(chunks) && chunks != []
    ensures GoodChunks(chunks[1..]) && Good(chunks[0]) && (chunks[1..] != [] ==> |Plain(chunks[0])| == MAX_CHUNK)
  {
    hide Good, Plain;
    var later := chunks[1..];
    forall k | 0 <= k < |later|
      ensures Good(later[k])
    {
      assert later[k] == chunks[k + 1];
    }
    forall k | 0 <= k < |later| - 1
      ensures |Plain(later[k])| == MAX_CHUNK
    {
      assert later[k] == chunks[k + 1];
    }
  }

  lemma ClipConcat(a: seq<byte>, b: seq<byte>, limit: nat)
    ensures |a| >= limit ==> Clip(a + b, limit) == Clip(a, limit) && |Clip(a, limit)| == limit
    ensures |a| < limit ==> Clip(a + b, limit) == a + Clip(b, limit - |a|) && Clip(a, limit) == a
  {
  }

  // ----- Behind the format tables -----

  lemma {:induction false} BufferInTables(cs: seq<byte>, limit: nat)
    requires |cs| >= 2 && limit <= MAX_CHUNK + 1
    ensures !Decompressed(cs, limit).OutsideTables?
    decreases |cs|
  {
    hide DecodeChunk, HeaderSize, HeaderCompressed, HeaderAt;
    var size := HeaderSize(HeaderAt(cs));
    if size <= |cs| {
      HeaderSizeBound(HeaderAt(cs));
      if HeaderCompressed(HeaderAt(cs)) { ChunkInTables(cs[2..size], limit); }
      if ChunkOut(cs, limit).Output? {
        var x, next := ChunkOut(cs, limit).out, cs[size..];
        if |x| < limit && |next| >= 2 {
          BufferInTables(next, limit - |x|);
          if MAX_CHUNK < limit { BufferInTables(next, limit - MAX_CHUNK); }
        }
      }
    }
  }

  lemma HeaderSizeBound(h: nat)
    ensures 3 <= HeaderSize(h) <= 4098
  {
  }

  /** The same input behind a chunk header. */
  lemma BufferPastTables(limit: nat)
    requires limit > MAX_CHUNK + 1
    ensures Decompressed(LowHigh(Header(7, true)) + PAST_TABLES, limit) == OutsideTables
  {
    hide DecodeChunk, HeaderSize, HeaderCompressed, LowHigh, Ushort, Header;
    var cs := LowHigh(Header(7, true)) + PAST_TABLES;
    LowHighThere(Header(7, true));
    HeaderThere(7, true);
    assert cs[0] == LowHigh(Header(7, true))[0] && cs[1] == LowHigh(Header(7, true))[1];
    assert cs[2..7] == PAST_TABLES;
    PastTables(limit);
  }

  /** With room for at most 4097 bytes, and only then, every buffer decompresses or is found
      bad, so that a caller can rule the third outcome out beforehand. */
  lemma DecompressedInTablesIff(limit: nat)
    ensures (forall cs: seq<byte> :: |cs| >= 2 ==> !Decompressed(cs, limit).OutsideTables?) <==> limit <= MAX_CHUNK + 1
  {
    hide Decompressed;
    if limit <= MAX_CHUNK + 1 {
      forall cs: seq<byte> | |cs| >= 2
        ensures !Decompressed(cs, limit).OutsideTables?
      {
        BufferInTables(cs, limit);
      }
    } else {
      BufferPastTables(limit);
    }
  }
}
