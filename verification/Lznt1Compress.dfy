/** What RtlCompressBufferLZNT1 makes of a whole buffer, as a function of the input, the memory
    behind it, the room and the hash table it starts with. */
module Lznt1Compress {
  import opened Bytes
  import opened Lznt1Format
  import opened Lznt1Chunk
  import opened Lznt1Buffer
  import opened Lznt1Parse

  // ----- One chunk -----

  /** A chosen chunk is well formed, as large as its choice counts it, and stands for the memory
      at its place: a raw one for 4096 bytes whatever is left of the input. */
  lemma ChosenSpells(engine: Engine, mem: seq<byte>, start: nat, n: nat, room: nat, t: Table)
    requires start < n <= |mem| && Choose(engine, mem, start, n, room, t).Chosen?
    ensures var c := Choose(engine, mem, start, n, room, t).c;
            && Good(c) && |ChunkBytes(c)| == ChunkSize(c)
            && start + |Plain(c)| <= |mem| && Plain(c) == mem[start..start + |Plain(c)|]
            && |Plain(c)| == if c.Raw? then MAX_CHUNK else ChunkEnd(start, n) - start
  {
    hide Parse, Valid, Expanded, Encoded, CodedSize, Header, LowHigh;
    var c := Choose(engine, mem, start, n, room, t).c;
    match c
    case Raw(_) =>
    case Tokens(ts) =>
      ParseSpells(engine, mem, start, start, ChunkEnd(start, n), t);
      assert mem[start..start] == [];
      EncodedSize([], ts);
      SomeTokens(engine, mem, start, ChunkEnd(start, n), t);
  }

  lemma SomeTokens(engine: Engine, mem: seq<byte>, start: nat, end: nat, t: Table)
    requires start < end <= |mem| && end <= start + MAX_CHUNK
    ensures var ts := Parse(engine, mem, start, start, end, t);
            ts != [] && CodedSize(ts) >= 2
  {
    hide NextToken;
  }

  // ----- All chunks -----

  datatype Compression = Complete(chunks: seq<Chunk>) | TooSmall | OverRead

  function Prefixed(before: seq<Chunk>, r: Compression): Compression {
    match r
    case Complete(chunks) => Complete(before + chunks)
    case _ => r
  }

  /** RtlCompressBufferLZNT1 from a chunk's start on. The chunks share the room, and each leaves
      its hash table to the next. */
  function Compressed(engine: Engine, mem: seq<byte>, n: nat, start: nat, room: nat, t: Table): Compression
    requires n <= |mem|
    decreases if start < n then n - start else 0
  {
    if start >= n then Complete([])
    else
      match Choose(engine, mem, start, n, room, t)
      case NoRoom => TooSmall
      case InputTooShort => OverRead
      case Chosen(c) =>
        Prefixed([c], Compressed(engine, mem, n, start + MAX_CHUNK, room - ChunkSize(c),
                                 TableAfter(engine, mem, start, n, room, t)))
  }

  /** Where what the chunks stand for ends: with the input, or, if the last chunk is raw, with
      that chunk. */
  function Reach(n: nat, start: nat, chunks: seq<Chunk>): nat {
    if chunks != [] && chunks[|chunks| - 1].Raw? then start + MAX_CHUNK * |chunks| else n
  }

  lemma GoodCons(c: Chunk, chunks: seq<Chunk>)
    requires Good(c) && GoodChunks(chunks) && (chunks != [] ==> |Plain(c)| == MAX_CHUNK)
    ensures GoodChunks([c] + chunks)
    ensures AllBytes([c] + chunks) == ChunkBytes(c) + AllBytes(chunks)
    ensures AllPlain([c] + chunks) == Plain(c) + AllPlain(chunks)
  {
    hide Good, ChunkBytes, Plain;
    var all := [c] + chunks;
    assert all[1..] == chunks;
    forall k | 0 <= k < |all|
      ensures Good(all[k])
    {
      if k > 0 { assert all[k] == chunks[k - 1]; }
    }
    forall k | 0 <= k < |all| - 1
      ensures |Plain(all[k])| == MAX_CHUNK
    {
      if k > 0 { assert all[k] == chunks[k - 1]; }
    }
  }

  lemma OneChunk(c: Chunk)
    requires Good(c)
    ensures GoodChunks([c]) && AllBytes([c]) == ChunkBytes(c) && AllPlain([c]) == Plain(c)
  {
    hide Good, ChunkBytes, Plain;
    assert [c][1..] == [];
  }

  lemma CompressedStep(engine: Engine, mem: seq<byte>, n: nat, start: nat, room: nat, t: Table)
    requires start < n <= |mem| && Compressed(engine, mem, n, start, room, t).Complete?
    ensures Choose(engine, mem, start, n, room, t).Chosen?
    ensures var c := Choose(engine, mem, start, n, room, t).c;
            var t' := TableAfter(engine, mem, start, n, room, t);
            var rest := Compressed(engine, mem, n, start + MAX_CHUNK, room - ChunkSize(c), t');
            && rest.Complete? && Compressed(engine, mem, n, start, room, t) == Complete([c] + rest.chunks)
            && (n <= start + MAX_CHUNK ==> [c] + rest.chunks == [c])
  {
    hide Choose, TableAfter, ChunkSize;
  }

  lemma ReachCons(n: nat, start: nat, c: Chunk, chunks: seq<Chunk>)
    requires chunks != []
    ensures Reach(n, start, [c] + chunks) == Reach(n, start + MAX_CHUNK, chunks)
    ensures ([c] + chunks)[|[c] + chunks| - 1] == chunks[|chunks| - 1]
    ensures start + MAX_CHUNK < n ==> ((n - start) % MAX_CHUNK == 0 <==> (n - (start + MAX_CHUNK)) % MAX_CHUNK == 0)
  {
  }

  lemma SliceJoins(mem: seq<byte>, from: nat, mid: nat, to: nat)
    requires from <= mid <= to <= |mem|
    ensures mem[from..mid] + mem[mid..to] == mem[from..to]
  {
  }

  /** The chunks stand for the input, and for what lies behind it under a raw last chunk. That
      is nothing exactly when the last chunk is not raw or the input is whole chunks. */
  lemma {:induction false} CompressedSpells(engine: Engine, mem: seq<byte>, n: nat, start: nat, room: nat, t: Table)
    requires start < n <= |mem| && Compressed(engine, mem, n, start, room, t).Complete?
    ensures var chunks := Compressed(engine, mem, n, start, room, t).chunks;
            && chunks != [] && GoodChunks(chunks)
            && n <= Reach(n, start, chunks) <= |mem|
            && AllPlain(chunks) == mem[start..Reach(n, start, chunks)]
            && (Reach(n, start, chunks) == n <==> chunks[|chunks| - 1].Tokens? || (n - start) % MAX_CHUNK == 0)
            && |AllBytes(chunks)| <= room
    decreases n - start
  {
    hide Good, Plain, ChunkBytes, ChunkSize, Choose, TableAfter, AllPlain, AllBytes, GoodChunks, Compressed;
    CompressedStep(engine, mem, n, start, room, t);
    ChosenSpells(engine, mem, start, n, room, t);
    var c := Choose(engine, mem, start, n, room, t).c;
    if start + MAX_CHUNK < n {
      hide Reach;
      var t' := TableAfter(engine, mem, start, n, room, t);
      CompressedSpells(engine, mem, n, start + MAX_CHUNK, room - ChunkSize(c), t');
      var chunks := Compressed(engine, mem, n, start + MAX_CHUNK, room - ChunkSize(c), t').chunks;
      GoodCons(c, chunks);
      ReachCons(n, start, c, chunks);
      SliceJoins(mem, start, start + MAX_CHUNK, Reach(n, start + MAX_CHUNK, chunks));
    } else {
      OneChunk(c);
    }
  }

  /** Every header the compressor writes has the size less three in its twelve low bits, the
      signature 3, and the top bit set for a compressed chunk. */
  lemma WrittenHeaders(engine: Engine, mem: seq<byte>, n: nat, room: nat, t: Table, k: nat)
    requires 0 < n <= |mem| && Compressed(engine, mem, n, 0, room, t).Complete?
    requires k < |Compressed(engine, mem, n, 0, room, t).chunks|
    ensures var chunks := Compressed(engine, mem, n, 0, room, t).chunks;
            && GoodChunks(chunks)
            && var s, at, to := AllBytes(chunks), ChunkStart(chunks, k), ChunkStart(chunks, k + 1);
               && at + 4 <= to <= |s| && s[at..to] == ChunkBytes(chunks[k])
               && var h := s[at] as int + 0x100 * s[at + 1] as int;
                  && h % 0x1000 == to - at - 3 && h / 0x1000 % 8 == 3
                  && h / 0x8000 == if chunks[k].Tokens? then 1 else 0
  {
    hide Good, ChunkBytes, AllBytes, AllPlain, Compressed, Reach, ChunkStart;
    CompressedSpells(engine, mem, n, 0, room, t);
    EveryHeader(Compressed(engine, mem, n, 0, room, t).chunks, k);
  }

  /** The four bytes a one-byte input compresses to. */
  lemma OneByteCompressed(engine: Engine, b: byte, room: nat, t: Table)
    requires room >= 4
    ensures var r := Compressed(engine, [b], 1, 0, room, t);
            r.Complete? && GoodChunks(r.chunks) && AllBytes(r.chunks) == [1, 0xB0, 0, b]
  {
    hide Good, AllBytes, AllPlain, Parse, Compressed, Reach, ChunkBytes;
    var ts := [Literal(b)];
    assert Parse(engine, [b], 0, 0, 1, t) == ts by { OneLiteral(engine, b, t); }
    OneLiteralBytes(b);
    assert Choose(engine, [b], 0, 1, room, t) == Chosen(Tokens(ts));
    OneChunkCompressed(engine, b, room, t);
    OneChunk(Tokens(ts));
  }

  lemma OneChunkCompressed(engine: Engine, b: byte, room: nat, t: Table)
    requires Choose(engine, [b], 0, 1, room, t).Chosen?
    ensures Compressed(engine, [b], 1, 0, room, t) == Complete([Choose(engine, [b], 0, 1, room, t).c])
  {
    hide Choose, TableAfter;
    var c := Choose(engine, [b], 0, 1, room, t).c;
    assert [c] + [] == [c];
  }

  lemma OneLiteral(engine: Engine, b: byte, t: Table)
    ensures Parse(engine, [b], 0, 0, 1, t) == [Literal(b)]
  {
    ParseEnds(engine, [b], 0, 1, t);
  }

  lemma OneLiteralBytes(b: byte)
    ensures CodedSize([Literal(b)]) == 2
    ensures Good(Tokens([Literal(b)])) && ChunkBytes(Tokens([Literal(b)])) == [1, 0xB0, 0, b]
  {
    var ts := [Literal(b)];
    assert ts[1..] == [];
    assert Sizes(ts) == 1;
    assert Encoded([], ts) == [0, b] by { EncodedLayout([], ts); }
  }

  // ----- The memory behind the input -----

  /** What lies behind the input matters only where the compressor reads it: if it does without
      on a buffer that ends with the input, it does the same whatever follows. */
  lemma {:induction false} InputDecides(engine: Engine, mem: seq<byte>, n: nat, start: nat, room: nat, t: Table)
    requires n <= |mem| && !Compressed(engine, mem[..n], n, start, room, t).OverRead?
    ensures Compressed(engine, mem, n, start, room, t) == Compressed(engine, mem[..n], n, start, room, t)
    decreases if start < n then n - start else 0
  {
    hide Parse, Searched, CodedSize;
    if start < n {
      var end := ChunkEnd(start, n);
      assert mem[..end] == mem[..n][..end];
      ParseLocal(engine, mem, mem[..n], start, start, end, t);
      SearchedLocal(engine, mem, mem[..n], start, start, end, t, 0, 0, Min(MAX_CHUNK - 1, room) - 2);
      var choice := Choose(engine, mem[..n], start, n, room, t);
      if choice.Chosen? {
        SameChoice(engine, mem, start, n, room, t);
        InputDecides(engine, mem, n, start + MAX_CHUNK, room - ChunkSize(choice.c),
                     TableAfter(engine, mem[..n], start, n, room, t));
      }
    }
  }

  lemma SameChoice(engine: Engine, mem: seq<byte>, start: nat, n: nat, room: nat, t: Table)
    requires start < n <= |mem| && Choose(engine, mem[..n], start, n, room, t).Chosen?
    requires ChunkTokens(engine, mem, start, n, t) == ChunkTokens(engine, mem[..n], start, n, t)
    ensures Choose(engine, mem, start, n, room, t) == Choose(engine, mem[..n], start, n, room, t)
  {
    hide ChunkTokens, CodedSize;
    if start + MAX_CHUNK <= n {
      assert mem[start..start + MAX_CHUNK] == mem[..n][start..start + MAX_CHUNK];
    }
  }

  // ----- Enough room -----

  function ChunkCount(n: nat, start: nat): nat {
    if start >= n then 0 else (n - start + MAX_CHUNK - 1) / MAX_CHUNK
  }

  /** With 4098 bytes for every chunk of the input the destination is never too small. */
  lemma {:induction false} RoomSuffices(engine: Engine, mem: seq<byte>, n: nat, start: nat, room: nat, t: Table)
    requires n <= |mem| && (MAX_CHUNK + 2) * ChunkCount(n, start) <= room
    ensures !Compressed(engine, mem, n, start, room, t).TooSmall?
    decreases if start < n then n - start else 0
  {
    hide CodedSize, TableAfter, ChunkTokens;
    if start < n {
      assert ChunkCount(n, start) == 1 + ChunkCount(n, start + MAX_CHUNK);
      var choice := Choose(engine, mem, start, n, room, t);
      if choice.Chosen? {
        assert ChunkSize(choice.c) <= MAX_CHUNK + 2;
        RoomSuffices(engine, mem, n, start + MAX_CHUNK, room - ChunkSize(choice.c),
                     TableAfter(engine, mem, start, n, room, t));
      }
    }
  }

  // ----- The last chunk -----

  /** Where the compressor stands before the last chunk of the input, if it gets there. */
  datatype Standing = Stuck | Standing(start: nat, room: nat, t: Table)

  function BeforeLast(engine: Engine, mem: seq<byte>, n: nat, start: nat, room: nat, t: Table): (r: Standing)
    requires start < n <= |mem|
    ensures r.Standing? ==> start <= r.start < n <= r.start + MAX_CHUNK
    decreases n - start
  {
    hide CodedSize, ChunkTokens, TableAfter, ChunkSize;
    if n <= start + MAX_CHUNK then Standing(start, room, t)
    else
      match Choose(engine, mem, start, n, room, t)
      case Chosen(c) =>
        BeforeLast(engine, mem, n, start + MAX_CHUNK, room - ChunkSize(c), TableAfter(engine, mem, start, n, room, t))
      case _ => Stuck
  }

  /** Whether the tokens of the last chunk are few enough for a compressed chunk. */
  predicate LastIsSmall(engine: Engine, mem: seq<byte>, n: nat, s: Standing)
    requires s.Standing? && s.start < n <= |mem|
  {
    2 + CodedSize(ChunkTokens(engine, mem, s.start, n, s.t)) <= MAX_CHUNK - 1
  }

  lemma {:induction false} LastDecides(engine: Engine, mem: seq<byte>, n: nat, start: nat, room: nat, t: Table)
    requires start < n <= |mem|
    ensures var s := BeforeLast(engine, mem, n, start, room, t);
            var r := Compressed(engine, mem, n, start, room, t);
            if s.Stuck? then r.TooSmall?
            else
              && (r.OverRead? <==> Choose(engine, mem, s.start, n, s.room, s.t).InputTooShort?)
              && (r.TooSmall? <==> Choose(engine, mem, s.start, n, s.room, s.t).NoRoom?)
              && (r.Complete? ==>
                    && r.chunks != []
                    && Choose(engine, mem, s.start, n, s.room, s.t) == Chosen(r.chunks[|r.chunks| - 1]))
    decreases n - start
  {
    hide CodedSize, TableAfter, ChunkTokens, ChunkSize;
    var choice := Choose(engine, mem, start, n, room, t);
    if choice.Chosen? {
      var room' := room - ChunkSize(choice.c);
      var t' := TableAfter(engine, mem, start, n, room, t);
      if start + MAX_CHUNK < n {
        LastDecides(engine, mem, n, start + MAX_CHUNK, room', t');
        var rest := Compressed(engine, mem, n, start + MAX_CHUNK, room', t');
        if rest.Complete? {
          assert ([choice.c] + rest.chunks)[|rest.chunks|] == rest.chunks[|rest.chunks| - 1];
        }
      } else {
        assert Compressed(engine, mem, n, start + MAX_CHUNK, room', t') == Complete([]);
      }
    }
  }

  /** The last chunk of the input is whole exactly when the input is whole chunks. */
  lemma {:induction false} LastIsWholeIff(engine: Engine, mem: seq<byte>, n: nat, start: nat, room: nat, t: Table)
    requires start < n <= |mem| && BeforeLast(engine, mem, n, start, room, t).Standing?
    ensures BeforeLast(engine, mem, n, start, room, t).start + MAX_CHUNK == n <==> (n - start) % MAX_CHUNK == 0
    decreases n - start
  {
    hide Choose, TableAfter, ChunkSize;
    if start + MAX_CHUNK < n {
      var c := Choose(engine, mem, start, n, room, t).c;
      LastIsWholeIff(engine, mem, n, start + MAX_CHUNK, room - ChunkSize(c),
                     TableAfter(engine, mem, start, n, room, t));
      assert (n - start) % MAX_CHUNK == (n - (start + MAX_CHUNK)) % MAX_CHUNK;
    }
  }

  /** From a buffer of exactly n bytes the compressor reads past the end exactly when it gets to
      a last chunk that is not whole, has room for a raw chunk, and is too large in tokens. */
  lemma OverReadIff(engine: Engine, mem: seq<byte>, room: nat, t: Table)
    requires mem != []
    ensures var s := BeforeLast(engine, mem, |mem|, 0, room, t);
            Compressed(engine, mem, |mem|, 0, room, t).OverRead?
            <==> |mem| % MAX_CHUNK != 0 && s.Standing? && s.room >= MAX_CHUNK + 2
                 && !LastIsSmall(engine, mem, |mem|, s)
  {
    hide CodedSize, TableAfter, ChunkTokens, ChunkSize, Compressed, BeforeLast;
    LastDecides(engine, mem, |mem|, 0, room, t);
    var s := BeforeLast(engine, mem, |mem|, 0, room, t);
    if s.Standing? { LastIsWholeIff(engine, mem, |mem|, 0, room, t); }
  }

  /** In a complete result the last chunk is compressed exactly when its tokens are few enough. */
  lemma LastIsTokensIff(engine: Engine, mem: seq<byte>, n: nat, room: nat, t: Table)
    requires 0 < n <= |mem| && Compressed(engine, mem, n, 0, room, t).Complete?
    ensures var s := BeforeLast(engine, mem, n, 0, room, t);
            var chunks := Compressed(engine, mem, n, 0, room, t).chunks;
            s.Standing? && chunks != []
            && (chunks[|chunks| - 1].Tokens? <==> LastIsSmall(engine, mem, n, s))
  {
    hide CodedSize, TableAfter, ChunkTokens, ChunkSize, Compressed, BeforeLast;
    LastDecides(engine, mem, n, 0, room, t);
  }

  // ----- Round trip -----

  lemma NothingCompressed(engine: Engine, mem: seq<byte>, room: nat, t: Table)
    ensures Compressed(engine, mem, 0, 0, room, t) == Complete([]) && AllBytes([]) == []
  {
  }

  /** Without a chunk the decompressor takes what follows for one: it finds it too short, or puts
      out bytes from behind the ending header. */
  lemma NothingDecompressed(tail: seq<byte>, limit: nat)
    requires |tail| >= 2 && Ends(tail)
    ensures Decompressed(tail, limit) == Output([]) <==> |tail| >= 3 && limit == 0
    ensures |tail| < 3 || |tail| < 2 + Min(MAX_CHUNK, limit) ==> Decompressed(tail, limit) == BadBuffer
  {
    EndingHeader();
    if |tail| >= 3 && |tail| >= 2 + Min(MAX_CHUNK, limit) && limit > 0 {
      var x := tail[2..2 + Min(MAX_CHUNK, limit)];
      assert ChunkOut(tail, limit) == Output(x) && |x| > 0;
    }
  }

  lemma EndingHeader()
    ensures HeaderSize(0) == 3 && !HeaderCompressed(0)
  {
  }

  /** What the compressor writes for an empty input, an ending header, is refused whatever the
      room. */
  lemma EmptyIsRefused(engine: Engine, mem: seq<byte>, room: nat, t: Table, limit: nat)
    ensures Compressed(engine, mem, 0, 0, room, t) == Complete([])
    ensures Decompressed(AllBytes([]) + [0, 0], limit) == BadBuffer
  {
    hide Decompressed;
    NothingCompressed(engine, mem, room, t);
    assert [] + [0, 0] == [0, 0];
    NothingDecompressed([0, 0], limit);
  }

  /** What the compressor wrote decompresses, into a buffer of any size, to the input and what
      stands behind it under a raw last chunk, as far as the buffer reaches. An empty input does
      not come back unless nothing is asked for. */
  lemma RoundTrip(engine: Engine, mem: seq<byte>, n: nat, room: nat, t: Table, tail: seq<byte>, limit: nat)
    requires n <= |mem| && Compressed(engine, mem, n, 0, room, t).Complete? && Ends(tail)
    requires n == 0 ==> |tail| >= 2
    ensures var chunks := Compressed(engine, mem, n, 0, room, t).chunks;
            && GoodChunks(chunks) && |AllBytes(chunks) + tail| >= 2 && n <= Reach(n, 0, chunks) <= |mem|
            && (Decompressed(AllBytes(chunks) + tail, limit) == Output(mem[..Min(Reach(n, 0, chunks), limit)])
                <==> n > 0 || (|tail| >= 3 && limit == 0))
  {
    hide AllBytes, AllPlain, Decompressed, GoodChunks, Reach, Ends, Compressed;
    var chunks := Compressed(engine, mem, n, 0, room, t).chunks;
    if n > 0 {
      CompressedSpells(engine, mem, n, 0, room, t);
      DecompressChunks(chunks, tail, limit);
    } else {
      NothingCompressed(engine, mem, room, t);
      NoChunks();
      assert [] + tail == tail && mem[..0] == [];
      NothingDecompressed(tail, limit);
    }
  }

  lemma NoChunks()
    ensures GoodChunks([]) && Reach(0, 0, []) == 0
  {
  }

  /** When a round trip gives back the input, as far as the buffer reaches. */
  predicate ComesBack(engine: Engine, mem: seq<byte>, n: nat, room: nat, t: Table, tail: seq<byte>, limit: nat)
    requires n <= |mem| && (n > 0 ==> BeforeLast(engine, mem, n, 0, room, t).Standing?)
  {
    if n == 0 then |tail| >= 3 && limit == 0
    else limit <= n || n % MAX_CHUNK == 0 || LastIsSmall(engine, mem, n, BeforeLast(engine, mem, n, 0, room, t))
  }

  /** A buffer no larger than the input gets its first bytes back; a larger one gets exactly the
      input unless its last chunk is neither whole nor small in tokens: then it is stored raw and
      brings bytes from behind the input along. An empty input is not given back. */
  lemma RoundTripIff(engine: Engine, mem: seq<byte>, n: nat, room: nat, t: Table, tail: seq<byte>, limit: nat)
    requires n <= |mem| && Compressed(engine, mem, n, 0, room, t).Complete? && Ends(tail)
    requires n == 0 ==> |tail| >= 2
    ensures var chunks := Compressed(engine, mem, n, 0, room, t).chunks;
            && GoodChunks(chunks) && |AllBytes(chunks) + tail| >= 2
            && (n > 0 ==> BeforeLast(engine, mem, n, 0, room, t).Standing?)
            && (Decompressed(AllBytes(chunks) + tail, limit) == Output(mem[..Min(n, limit)])
                <==> ComesBack(engine, mem, n, room, t, tail, limit))
  {
    hide AllBytes, AllPlain, Decompressed, GoodChunks, Ends, Compressed, BeforeLast, LastIsSmall, Reach;
    RoundTrip(engine, mem, n, room, t, tail, limit);
    if n > 0 {
      var chunks := Compressed(engine, mem, n, 0, room, t).chunks;
      CompressedSpells(engine, mem, n, 0, room, t);
      LastIsTokensIff(engine, mem, n, room, t);
      var reach := Reach(n, 0, chunks);
      assert |mem[..Min(reach, limit)]| == Min(reach, limit) && |mem[..Min(n, limit)]| == Min(n, limit);
    } else {
      NothingCompressed(engine, mem, room, t);
      NoChunks();
    }
  }
}
