/** RtlCompressBufferLZNT1 and RtlDecompressBufferLZNT1 on the caller's buffers, and the round
    trip between them. */
module Lznt1 {
  import opened Bits
  import opened Bytes
  import opened Lznt1Format
  import opened Lznt1Chunk
  import opened Lznt1Buffer
  import opened Lznt1Parse
  import opened Lznt1Compress

  datatype Status = Success | AllZeros | BufferTooSmall | InputOverrun | BadCompressionBuffer | Unspecified

  // ----- Compressing a chunk -----

  /** The tokens so far stand for the input so far. */
  ghost predicate Represents(done: seq<Token>, cur: seq<Token>, input: seq<byte>) {
    Valid([], done) && Valid(Expanded([], done), cur) && Expanded(Expanded([], done), cur) == input
  }

  /** Writes the bytes of one token behind the current group's. */
  method PutToken(dst: array<byte>, at: nat, end: nat, c: Cursor, bytes: seq<byte>, bit: nat,
                  ghost done: seq<Token>, ghost cur: seq<Token>, ghost t: Token, ghost input: seq<byte>)
    returns (c': Cursor)
    requires Represents(done, cur, input) && Writing(dst[..], at, end, c, done, cur) && bit == |cur| < 8
    requires |input| < MAX_CHUNK && Fitting(input, t) && bytes == TokenBytes(input, t)
    requires c.output + |bytes| <= end && at <= c.output
    modifies dst
    ensures Represents(done, cur + [t], Extended(input, t))
    ensures Writing(dst[..], at, end, c', done, cur + [t])
    ensures c'.output == c.output + |bytes| && Clip(dst[..], at) == Clip(old(dst[..]), at)
  {
    hide Valid, Expanded, Fitting, TokenBytes, Extended, Writing;
    ghost var d := dst[..];
    assert |d| == dst.Length;
    WritingEnd(d, at, end, c, done, cur);
    Store(dst, c.output, bytes);
    ValidSnoc(Expanded([], done), cur, t);
    WritingToken(d, at, end, c, done, cur, t);
    c' := Cursor(c.output + |bytes|, c.flagPointer, c.flags + if |bytes| == 2 then Pow2(bit) else 0);
    TokenSize(input, t);
    assert dst[..at] == d[..at] by {
      assert dst[..][..c.output] == d[..c.output];
      assert dst[..at] == dst[..][..c.output][..at];
      assert d[..at] == d[..c.output][..at];
    }
  }

  lemma WritingEnd(d: seq<byte>, at: nat, end: nat, c: Cursor, done: seq<Token>, cur: seq<Token>)
    requires Writing(d, at, end, c, done, cur)
    ensures end <= |d| && c.flagPointer >= at && c.output > c.flagPointer
    ensures c.flags == Flags(cur)
  {
  }

  lemma FormatZero()
    ensures FormatAt(0) == 0
  {
  }

  /** The loop over formats. */
  method RaiseFormat(format: Format, pos: nat, ghost before: nat) returns (f: Format)
    requires before <= pos <= MAX_CHUNK && format == FormatAt(before)
    ensures f == FormatAt(pos)
  {
    RaisedOn(0, before, pos);
    f := format;
    while FORMAT_MAX_DISPLACEMENT[f] < pos
      invariant Raised(f, pos) == Raised(format, pos)
      decreases 9 - f
    {
      f := f + 1;
    }
  }

  /** Which tokens keep an input of zeros one. */
  lemma NextTokenZero(engine: Engine, mem: seq<byte>, start: nat, pos: nat, end: nat, t: Table)
    requires start <= pos < end <= |mem| && end <= start + MAX_CHUNK
    ensures var token := NextToken(engine, mem, start, pos, end, t).token;
            AllZero(mem[start..pos + Width(token)])
            <==> AllZero(mem[start..pos]) && (token.Literal? ==> token.b == 0)
  {
    hide NextToken, AllZero, MaxLengthAt, IsMatch, Copied;
    NextTokenSpells(engine, mem, start, pos, end, t);
    match NextToken(engine, mem, start, pos, end, t).token
    case Literal(b) => LiteralZero(mem[start..pos], b);
    case Copy(length, displacement) =>
      MatchFits(mem, start, pos, end, MaxLengthAt(pos - start), length, pos - displacement);
      CopyKeepsZero(mem[start..pos], length, displacement);
  }

  /** The bytes of a chosen token. */
  lemma NextTokenBytes(engine: Engine, mem: seq<byte>, start: nat, pos: nat, end: nat, t: Table)
    requires start <= pos < end <= |mem| && end <= start + MAX_CHUNK
    ensures var out, token := mem[start..pos], NextToken(engine, mem, start, pos, end, t).token;
            && Fitting(out, token)
            && (token.Literal? ==> TokenBytes(out, token) == [mem[pos]] && token.b == mem[pos])
            && (token.Copy? ==>
                  && 3 <= token.length <= FORMAT_MAX_LENGTH[FormatAt(pos - start)]
                  && 1 <= token.displacement <= FORMAT_MAX_DISPLACEMENT[FormatAt(pos - start)]
                  && TokenBytes(out, token)
                     == LowHigh(Packed(FormatAt(pos - start), token.length, token.displacement)))
  {
    hide NextToken, FormatAt, IsMatch, Extended;
    match NextToken(engine, mem, start, pos, end, t).token
    case Literal(_) => LiteralIs(engine, mem, start, pos, end, t);
    case Copy(length, displacement) =>
      MatchFits(mem, start, pos, end, MaxLengthAt(pos - start), length, pos - displacement);
      CopySpells(mem, start, pos, length, displacement);
  }

  /** The search, and what it finds in terms of the chosen token. */
  method Search(engine: Engine, mem: array<byte>, start: nat, input: nat, end: nat, format: Format, ws: Workspace)
    returns (length: nat)
    requires start <= input < end <= mem.Length && end <= start + MAX_CHUNK && ws.Valid()
    requires format == FormatAt(input - start)
    modifies ws, ws.first, ws.second
    ensures var p := NextToken(engine, mem[..], start, input, end, old(ws.Value()));
            && ws.Value() == p.table
            && (if length == 0 then p.token.Literal?
                else p.token.Copy? && p.token.length == length
                     && p.token.displacement == input - ws.matchedString)
  {
    hide Matched, FormatAt;
    length := 0;
    if input + 3 <= end {
      length := FindMatch(engine, mem, start, input, end, FORMAT_MAX_LENGTH[format], ws);
    }
  }

  /** One step of the compressor: the token for the input position, if there is room for it. */
  method PutNext(engine: Engine, mem: array<byte>, start: nat, input: nat, end: nat, format: Format, ws: Workspace,
                 dst: array<byte>, at: nat, chunkEnd: nat, c: Cursor, bit: nat, allNull: bool,
                 ghost done: seq<Token>, ghost cur: seq<Token>)
    returns (full: bool, input': nat, c': Cursor, allNull': bool)
    requires start <= input < end <= mem.Length && end <= start + MAX_CHUNK && ws.Valid() && mem != dst
    requires format == FormatAt(input - start)
    requires Represents(done, cur, mem[start..input]) && Writing(dst[..], at, chunkEnd, c, done, cur)
    requires bit == |cur| < 8 && (allNull <==> AllZero(mem[start..input]))
    modifies dst, ws, ws.first, ws.second
    ensures mem[..] == old(mem[..]) && Clip(dst[..], at) == Clip(old(dst[..]), at)
    ensures var p := NextToken(engine, mem[..], start, input, end, old(ws.Value()));
            && ws.Value() == p.table
            && (full <==> c.output + Size(p.token) > chunkEnd)
            && (if full then dst[..] == old(dst[..])
                else
                  && input' == input + Width(p.token)
                  && Represents(done, cur + [p.token], mem[start..input'])
                  && Writing(dst[..], at, chunkEnd, c', done, cur + [p.token])
                  && (allNull' <==> AllZero(mem[start..input'])))
  {
    hide Valid, Expanded, Writing, AllZero, Represents, NextToken, FormatAt, LowHigh, Packed, Fitting,
         TokenBytes, Extended, IsMatch, MaxLengthAt;
    full, input', c', allNull' := true, input, c, allNull;
    ghost var m, out := mem[..], mem[start..input];
    ghost var t := NextToken(engine, m, start, input, end, ws.Value()).token;
    NextTokenSpells(engine, m, start, input, end, ws.Value());
    NextTokenZero(engine, m, start, input, end, ws.Value());
    NextTokenBytes(engine, m, start, input, end, ws.Value());
    assert m[start..input] == out;
    RepresentsValid(done, cur, out);
    WritingEnd(dst[..], at, chunkEnd, c, done, cur);
    var length := Search(engine, mem, start, input, end, format, ws);
    if length == 0 {
      if c.output >= chunkEnd { return; }
      c' := PutToken(dst, at, chunkEnd, c, [mem[input]], bit, done, cur, t, out);
      full, input', allNull' := false, input + 1, allNull && mem[input] == 0;
    } else {
      if c.output + 1 >= chunkEnd { return; }
      var displacement: nat := input - ws.matchedString;
      var bytes := LowHigh(Packed(format, length, displacement));
      c' := PutToken(dst, at, chunkEnd, c, bytes, bit, done, cur, t, out);
      full, input' := false, input + length;
    }
    assert mem[start..input'] == m[start..input'];
  }

  lemma RepresentsValid(done: seq<Token>, cur: seq<Token>, input: seq<byte>)
    requires Represents(done, cur, input)
    ensures Valid([], done) && Valid(Expanded([], done), cur)
  {
  }

  lemma StartsWriting(d: seq<byte>, at: nat, end: nat)
    requires end <= |d|
    ensures Represents([], [], []) && Writing(d, at, end, Cursor(at + 1, at, 0), [], [])
  {
    assert Expanded([], []) == [];
  }

  lemma GroupFilled(done: seq<Token>, cur: seq<Token>, input: seq<byte>)
    requires Represents(done, cur, input) && |cur| == 8
    ensures Represents(done + cur, [], input)
  {
    hide Valid, Expanded;
    ValidJoin([], done, cur);
    EmptyPayload(Expanded([], done + cur));
  }

  /** The tokens written and those still to be chosen make up the tokens of the chunk, and the
      searches still to be made lead to the table that is left. */
  ghost predicate Midway(engine: Engine, mem: seq<byte>, start: nat, pos: nat, end: nat, t: Table,
                         written: seq<Token>, space: int, all: seq<Token>, left: Table)
    requires start <= pos <= end <= |mem| && end <= start + MAX_CHUNK
  {
    && all == written + Parse(engine, mem, start, pos, end, t)
    && left == Searched(engine, mem, start, pos, end, t, |written|, Sizes(written), space)
  }

  lemma MidwayStarts(engine: Engine, mem: seq<byte>, start: nat, end: nat, t: Table, space: int)
    requires start <= end <= |mem| && end <= start + MAX_CHUNK
    ensures Midway(engine, mem, start, start, end, t, [] + [], space, Parse(engine, mem, start, start, end, t),
                   Searched(engine, mem, start, start, end, t, 0, 0, space))
  {
    hide Parse, Searched;
    var all := Parse(engine, mem, start, start, end, t);
    assert [] + [] + all == all;
  }

  /** The next token either finds no space, and then neither do the tokens of the whole chunk,
      or it is written. */
  lemma MidwayNext(engine: Engine, mem: seq<byte>, start: nat, pos: nat, end: nat, t: Table,
                   written: seq<Token>, space: int, all: seq<Token>, left: Table)
    requires start <= pos < end <= |mem| && end <= start + MAX_CHUNK
    requires Midway(engine, mem, start, pos, end, t, written, space, all, left)
    ensures var p := NextToken(engine, mem, start, pos, end, t);
            if CodedSize(written + [p.token]) > space then left == p.table && CodedSize(all) > space
            else Midway(engine, mem, start, pos + Width(p.token), end, p.table, written + [p.token], space, all, left)
  {
    hide NextToken, CodedSize, Sizes, Size;
    var p := NextToken(engine, mem, start, pos, end, t);
    var rest := Parse(engine, mem, start, pos + Width(p.token), end, p.table);
    CodedSnoc(written, p.token);
    CodedGrows(written + [p.token], rest);
    assert written + ([p.token] + rest) == written + [p.token] + rest;
  }

  lemma MidwayEnds(engine: Engine, mem: seq<byte>, start: nat, end: nat, t: Table,
                   written: seq<Token>, space: int, all: seq<Token>, left: Table)
    requires start <= end <= |mem| && end <= start + MAX_CHUNK
    requires Midway(engine, mem, start, end, end, t, written, space, all, left)
    ensures all == written && left == t
  {
  }

  /** The place behind the next token, as the compressor's loop counts it, is that of the
      encoded tokens. */
  lemma OutputIs(done: seq<Token>, cur: seq<Token>, t: Token, input: seq<byte>,
                 d: seq<byte>, at: nat, end: nat, c: Cursor)
    requires Represents(done, cur, input) && Writing(d, at, end, c, done, cur) && |cur| < 8
    ensures c.output + Size(t) == at + CodedSize(done + cur + [t])
  {
    hide Valid, Expanded, Payload, Encoded, CodedSize, Flags, Size, Sizes;
    EncodedSize([], done);
    PayloadSize(Expanded([], done), cur);
    SizesConcat(done, cur);
    CodedSnoc(done + cur, t);
    CodedSizeIs(done);
  }

  lemma CodedSizeIs(ts: seq<Token>)
    ensures CodedSize(ts) == Sizes(ts) + (|ts| + 7) / 8
  {
  }

  /** One turn of the compressor's loop. */
  method WriteToken(engine: Engine, mem: array<byte>, start: nat, input: nat, end: nat, format: Format, ws: Workspace,
                    dst: array<byte>, at: nat, chunkEnd: nat, c: Cursor, bit: nat, allNull: bool,
                    ghost done: seq<Token>, ghost cur: seq<Token>, ghost all: seq<Token>, ghost left: Table)
    returns (full: bool, input': nat, c': Cursor, bit': nat, allNull': bool,
             ghost done': seq<Token>, ghost cur': seq<Token>)
    requires start <= input < end <= mem.Length && end <= start + MAX_CHUNK && ws.Valid() && mem != dst
    requires format == FormatAt(input - start)
    requires Represents(done, cur, mem[start..input]) && Writing(dst[..], at, chunkEnd, c, done, cur)
    requires bit == |cur| < 8 && (allNull <==> AllZero(mem[start..input]))
    requires Midway(engine, mem[..], start, input, end, ws.Value(), done + cur, chunkEnd - at, all, left)
    modifies dst, ws, ws.first, ws.second
    ensures mem[..] == old(mem[..]) && Clip(dst[..], at) == Clip(old(dst[..]), at)
    ensures input <= input' <= end
    ensures if full then input' == input && at + CodedSize(all) > chunkEnd && ws.Value() == left
            else
              && input < input'
              && Represents(done', cur', mem[start..input']) && Writing(dst[..], at, chunkEnd, c', done', cur')
              && (if input' < end then bit' == |cur'| < 8 else cur' != [])
              && (allNull' <==> AllZero(mem[start..input']))
              && Midway(engine, mem[..], start, input', end, ws.Value(), done' + cur', chunkEnd - at, all, left)
  {
    hide Valid, Expanded, Writing, Represents, Clip, NextToken, CodedSize, FormatAt, AllZero, Midway, Size;
    c', bit', done', cur' := c, bit, done, cur;
    ghost var m := mem[..];
    ghost var t := NextToken(engine, m, start, input, end, ws.Value()).token;
    MidwayNext(engine, m, start, input, end, ws.Value(), done + cur, chunkEnd - at, all, left);
    assert mem[start..input] == m[start..input];
    OutputIs(done, cur, t, m[start..input], dst[..], at, chunkEnd, c);
    full, input', c', allNull' :=
      PutNext(engine, mem, start, input, end, format, ws, dst, at, chunkEnd, c, bit, allNull, done, cur);
    if full {
      input' := input;
    } else {
      assert done + cur + [t] == done + (cur + [t]);
      c', bit', done', cur' := Advance(dst, at, chunkEnd, c', bit, input' < end, done, cur + [t], mem[start..input']);
    }
  }

  /** The loop of LZNT1CompressChunk. It stops at the end of the input, or at a token that
      finds no room. */
  method WriteTokens(engine: Engine, mem: array<byte>, start: nat, end: nat, ws: Workspace,
                     dst: array<byte>, at: nat, chunkEnd: nat)
    returns (input: nat, c: Cursor, allNull: bool, ghost done: seq<Token>, ghost cur: seq<Token>)
    requires start < end <= mem.Length && end <= start + MAX_CHUNK && ws.Valid() && mem != dst
    requires chunkEnd <= dst.Length
    modifies dst, ws, ws.first, ws.second
    ensures mem[..] == old(mem[..]) && Clip(dst[..], at) == Clip(old(dst[..]), at)
    ensures start <= input <= end
    ensures var all := Parse(engine, mem[..], start, start, end, old(ws.Value()));
            if input < end then at + CodedSize(all) > chunkEnd
            else
              && all == done + cur && cur != []
              && Represents(done, cur, mem[start..end]) && Writing(dst[..], at, chunkEnd, c, done, cur)
              && (allNull <==> AllZero(mem[start..end]))
    ensures ws.Value() == Searched(engine, mem[..], start, start, end, old(ws.Value()), 0, 0, chunkEnd - at)
  {
    hide Valid, Expanded, Writing, Represents, Clip, Parse, Searched, NextToken, CodedSize, FormatAt, AllZero, Midway,
         Size;
    ghost var m, head, space := mem[..], Clip(dst[..], at), chunkEnd - at;
    ghost var all := Parse(engine, m, start, start, end, ws.Value());
    ghost var left := Searched(engine, m, start, start, end, ws.Value(), 0, 0, space);
    MidwayStarts(engine, m, start, end, ws.Value(), space);
    var format: Format := 0;
    ghost var raisedTo: nat := 0;
    var bit := 0;
    input, c, allNull, done, cur := start, Cursor(at + 1, at, 0), true, [], [];
    StartsWriting(dst[..], at, chunkEnd);
    FormatZero();
    NoneNull(m, start);
    var full := false;
    while input < end && !full
      invariant start <= input <= end && mem[..] == m && Clip(dst[..], at) == head
      invariant raisedTo <= input - start && format == FormatAt(raisedTo)
      invariant if full then input < end && at + CodedSize(all) > chunkEnd && ws.Value() == left
                else
                  && Represents(done, cur, m[start..input]) && Writing(dst[..], at, chunkEnd, c, done, cur)
                  && (if input < end then bit == |cur| < 8 else cur != [])
                  && (allNull <==> AllZero(m[start..input]))
                  && Midway(engine, m, start, input, end, ws.Value(), done + cur, space, all, left)
      decreases end - input, !full
    {
      format := RaiseFormat(format, input - start, raisedTo);
      raisedTo := input - start;
      assert mem[start..input] == m[start..input];
      full, input, c, bit, allNull, done, cur :=
        WriteToken(engine, mem, start, input, end, format, ws, dst, at, chunkEnd, c, bit, allNull, done, cur, all,
                   left);
      assert mem[start..input] == m[start..input];
    }
    if input == end {
      MidwayEnds(engine, m, start, end, ws.Value(), done + cur, space, all, left);
      assert mem[start..end] == m[start..input];
    }
  }

  /** The next flag bit. Behind a full group, and if more input is to come, its flags are
      stored and a byte is kept free for those of the next. */
  method Advance(dst: array<byte>, at: nat, chunkEnd: nat, c: Cursor, bit: nat, more: bool, ghost done: seq<Token>,
                 ghost cur: seq<Token>, ghost input: seq<byte>)
    returns (c': Cursor, bit': nat, ghost done': seq<Token>, ghost cur': seq<Token>)
    requires Represents(done, cur, input) && Writing(dst[..], at, chunkEnd, c, done, cur) && bit + 1 == |cur| <= 8
    modifies dst
    ensures Clip(dst[..], at) == Clip(old(dst[..]), at) && done' + cur' == done + cur
    ensures Represents(done', cur', input) && Writing(dst[..], at, chunkEnd, c', done', cur')
    ensures if more then bit' == |cur'| < 8 else cur' == cur
  {
    hide Valid, Expanded, Writing, Represents, Clip;
    c', bit', done', cur' := c, (bit + 1) % 8, done, cur;
    if bit' == 0 && more {
      RepresentsValid(done, cur, input);
      WritingNextGroup(dst[..], at, chunkEnd, c, done, cur);
      WritingEnd(dst[..], at, chunkEnd, c, done, cur);
      ClipUpdate(dst[..], at, c.flagPointer, c.flags);
      dst[c.flagPointer] := c.flags;
      GroupFilled(done, cur, input);
      c', done', cur' := Cursor(c.output + 1, c.output, 0), done + cur, [];
      assert done' + [] == done + cur;
    }
  }

  lemma NoneNull(mem: seq<byte>, start: nat)
    requires start <= |mem|
    ensures mem[start..start] == [] && AllZero(mem[start..start])
  {
  }

  lemma ClipUpdate(d: seq<byte>, at: nat, k: nat, b: byte)
    requires at <= k < |d|
    ensures Clip(d[k := b], at) == Clip(d, at)
  {
  }

  // ----- One chunk -----

  /** The chunk the tokens make, once the last flags are stored. */
  lemma TokensAreGood(d: seq<byte>, at: nat, end: nat, c: Cursor, done: seq<Token>, cur: seq<Token>, input: seq<byte>)
    requires Represents(done, cur, input) && Writing(d, at, end, c, done, cur) && cur != []
    requires 0 < |input| <= MAX_CHUNK && end <= at + MAX_CHUNK
    ensures c.flagPointer < end && c.flags < 256 && at <= c.flagPointer && c.output <= end
    ensures Good(Tokens(done + cur)) && Plain(Tokens(done + cur)) == input
    ensures d[c.flagPointer := c.flags][at..c.output] == Body(Tokens(done + cur))
    ensures |Body(Tokens(done + cur))| == c.output - at
  {
    hide Encoded, Payload, Flags, Valid, Expanded;
    WritingFlags(d, at, end, c, done, cur);
    EncodedGroup([], done, cur);
    SomePayload(Expanded([], done), cur);
    FlagByteOf(cur);
    assert |d[c.flagPointer := c.flags][at..c.output]| == c.output - at;
  }

  lemma SomePayload(out: seq<byte>, ts: seq<Token>)
    requires Valid(out, ts) && ts != []
    ensures |Payload(out, ts)| > 0
  {
    hide Fitting, Extended;
    TokenSize(out, ts[0]);
  }

  method PutHeader(dst: array<byte>, at: nat, size: nat, compressed: bool)
    requires 4 <= size <= 4098 && at + 2 <= dst.Length
    modifies dst
    ensures dst[..] == Stored(old(dst[..]), at, LowHigh(Header(size, compressed)))
  {
    Store(dst, at, LowHigh(Header(size, compressed)));
  }

  /** A chunk is in place once its header stands before its body. */
  lemma ChunkInPlace(d: seq<byte>, at: nat, size: nat, chunk: Chunk)
    requires Good(chunk) && size == 2 + |Body(chunk)| && at + size <= |d|
    requires d[at + 2..at + size] == Body(chunk)
    ensures 4 <= size <= 4098
    ensures var d' := Stored(d, at, LowHigh(Header(size, chunk.Tokens?)));
            d'[at..at + size] == ChunkBytes(chunk) && Clip(d', at) == Clip(d, at)
  {
    hide Good, Plain, Header, LowHigh, Body;
    var head := LowHigh(Header(size, chunk.Tokens?));
    var d' := Stored(d, at, head);
    assert d'[at + 2..at + size] == d[at + 2..at + size] by {
      assert d'[at + 2..] == d[at + 2..];
      assert d'[at + 2..at + size] == d'[at + 2..][..size - 2];
      assert d[at + 2..at + size] == d[at + 2..][..size - 2];
    }
    assert d'[at..at + size] == d'[at..at + 2] + d'[at + 2..at + size];
  }

  /** LZNT1CompressChunk stores what Choose says. Its raw copy takes 4096 bytes whatever is left
      of the input; where memory ends before that, the source reads on, and here the status says
      so. Where the source would take back an unused flag byte there is never one: the last
      group always has a token. */
  method CompressChunk(engine: Engine, mem: array<byte>, start: nat, bufferEnd: nat, ws: Workspace,
                       dst: array<byte>, at: nat, dstEnd: nat)
    returns (status: Status, size: nat)
    requires start < bufferEnd <= mem.Length && mem != dst && ws.Valid()
    requires at <= dstEnd <= dst.Length
    modifies dst, ws, ws.first, ws.second
    ensures mem[..] == old(mem[..]) && dst[..at] == old(dst[..at])
    ensures match Choose(engine, mem[..], start, bufferEnd, dstEnd - at, old(ws.Value()))
            case NoRoom => status == BufferTooSmall
            case InputTooShort => status == InputOverrun
            case Chosen(c) =>
              && Good(c) && size == ChunkSize(c) && dst[at..at + size] == ChunkBytes(c)
              && status == if AllZero(mem[start..ChunkEnd(start, bufferEnd)]) then AllZeros else Success
    ensures ws.Value() == TableAfter(engine, mem[..], start, bufferEnd, dstEnd - at, old(ws.Value()))
  {
    hide Good, Plain, Body, ChunkBytes, Represents, Writing, AllZero, Header, LowHigh, Parse, CodedSize, Clip, Searched;
    var end := if start + MAX_CHUNK < bufferEnd then start + MAX_CHUNK else bufferEnd;
    var chunkEnd := if at + MAX_CHUNK - 1 < dstEnd then at + MAX_CHUNK - 1 else dstEnd;
    ghost var m, d := mem[..], dst[..];
    ghost var all := Parse(engine, m, start, start, end, ws.Value());
    ghost var zeros := AllZero(m[start..end]);
    if zeros { ZerosAreSmall(engine, m, start, end, ws.Value()); }
    var input, c, allNull;
    ghost var done, cur;
    input, c, allNull, done, cur := WriteTokens(engine, mem, start, end, ws, dst, at + 2, chunkEnd);
    HeadKept(d, dst[..], at);
    assert mem[start..end] == m[start..end];
    size := 0;
    if input < end {
      if at + MAX_CHUNK + 2 <= dstEnd {
        if mem.Length < start + MAX_CHUNK {
          return InputOverrun, 0;
        }
        ghost var raw := StoreRaw(mem, start, dst, at);
        return Success, MAX_CHUNK + 2;
      }
      return BufferTooSmall, 0;
    }
    ghost var chunk := FinishTokens(dst, at, chunkEnd, c, done, cur, mem[start..end]);
    size := c.output - at;
    TokensCoded(chunk);
    assert |dst[at..at + size]| == size;
    status := if allNull then AllZeros else Success;
  }

  /** The chunk as it is, behind a header that says so. */
  method StoreRaw(mem: array<byte>, start: nat, dst: array<byte>, at: nat) returns (ghost chunk: Chunk)
    requires start + MAX_CHUNK <= mem.Length && at + MAX_CHUNK + 2 <= dst.Length && mem != dst
    modifies dst
    ensures dst[..at] == old(dst[..at])
    ensures Good(chunk) && chunk == Raw(mem[start..start + MAX_CHUNK]) && Plain(chunk) == chunk.plain
    ensures dst[at..at + MAX_CHUNK + 2] == ChunkBytes(chunk)
  {
    hide Good, Plain, Body, ChunkBytes, Header, LowHigh;
    chunk := Raw(mem[start..start + MAX_CHUNK]);
    RawIsGood(mem[start..start + MAX_CHUNK]);
    ghost var d := dst[..];
    Store(dst, at + 2, mem[start..start + MAX_CHUNK]);
    HeadStored(d, dst[..], at, at + 2);
    d := dst[..];
    assert d[at + 2..at + MAX_CHUNK + 2] == Body(chunk);
    ChunkInPlace(d, at, MAX_CHUNK + 2, chunk);
    PutHeader(dst, at, MAX_CHUNK + 2, false);
    ClipHead(d, dst[..], at);
    SliceOf(dst, at, at + MAX_CHUNK + 2);
  }

  lemma SliceOf(a: array<byte>, from: nat, to: nat)
    requires from <= to <= a.Length
    ensures a[..][from..to] == a[from..to]
  {
  }

  /** The last flags and the header. */
  method FinishTokens(dst: array<byte>, at: nat, chunkEnd: nat, c: Cursor, ghost done: seq<Token>,
                      ghost cur: seq<Token>, ghost input: seq<byte>)
    returns (ghost chunk: Chunk)
    requires Represents(done, cur, input) && Writing(dst[..], at + 2, chunkEnd, c, done, cur) && cur != []
    requires 0 < |input| <= MAX_CHUNK && chunkEnd < at + MAX_CHUNK
    modifies dst
    ensures at + 2 < c.output <= chunkEnd <= dst.Length
    ensures dst[..at] == old(dst[..at])
    ensures chunk == Tokens(done + cur) && Good(chunk) && Plain(chunk) == input
    ensures dst[at..c.output] == ChunkBytes(chunk)
  {
    hide Good, Plain, Body, ChunkBytes, Represents, Writing, Header, LowHigh;
    ghost var d := dst[..];
    TokensAreGood(d, at + 2, chunkEnd, c, done, cur, input);
    WritingEnd(d, at + 2, chunkEnd, c, done, cur);
    chunk := Tokens(done + cur);
    var flags: byte := c.flags;
    dst[c.flagPointer] := flags;
    ghost var d' := dst[..];
    assert d' == d[c.flagPointer := flags];
    HeadOfUpdate(d, at, c.flagPointer, flags);
    ChunkInPlace(d', at, c.output - at, chunk);
    PutHeader(dst, at, c.output - at, true);
    ClipHead(d', dst[..], at);
    SliceOf(dst, at, c.output);
  }

  lemma HeadOfUpdate(d: seq<byte>, at: nat, k: nat, b: byte)
    requires at <= k < |d|
    ensures d[k := b][..at] == d[..at]
  {
  }

  lemma TokensCoded(c: Chunk)
    requires Good(c) && c.Tokens?
    ensures |ChunkBytes(c)| == 2 + CodedSize(c.ts)
  {
    hide Valid, Expanded, Encoded, CodedSize, Header, LowHigh;
    EncodedSize([], c.ts);
  }

  lemma RawIsGood(plain: seq<byte>)
    requires |plain| == MAX_CHUNK
    ensures Good(Raw(plain)) && Plain(Raw(plain)) == plain && Body(Raw(plain)) == plain
  {
  }

  lemma HeadKept(d: seq<byte>, d': seq<byte>, at: nat)
    requires |d| == |d'| && at <= |d| && Clip(d', at + 2) == Clip(d, at + 2)
    ensures d'[..at] == d[..at]
  {
    assert d'[..at] == Clip(d', at + 2)[..at] && d[..at] == Clip(d, at + 2)[..at];
  }

  lemma HeadStored(d: seq<byte>, d': seq<byte>, at: nat, from: nat)
    requires |d| == |d'| && at <= from <= |d| && d'[..from] == d[..from]
    ensures d'[..at] == d[..at]
  {
    assert d'[..at] == d'[..from][..at] && d[..at] == d[..from][..at];
  }

  lemma ClipHead(d: seq<byte>, d': seq<byte>, at: nat)
    requires |d| == |d'| && at <= |d| && Clip(d', at) == Clip(d, at)
    ensures d'[..at] == d[..at]
  {
  }

  // ----- A whole buffer -----

  /** Where the compressor stands between two chunks: what is written, and what the rest of the
      input will make of it. */
  ghost predicate Compressing(engine: Engine, mem: seq<byte>, n: nat, start: nat, written: seq<byte>, room: nat,
                              t: Table, chunks: seq<Chunk>, goal: Compression)
    requires n <= |mem|
  {
    && (forall k :: 0 <= k < |chunks| ==> Good(chunks[k]))
    && written == AllBytes(chunks)
    && Prefixed(chunks, Compressed(engine, mem, n, start, room, t)) == goal
  }

  lemma CompressingStarts(engine: Engine, mem: seq<byte>, n: nat, room: nat, t: Table)
    requires n <= |mem|
    ensures Compressing(engine, mem, n, 0, [], room, t, [], Compressed(engine, mem, n, 0, room, t))
    ensures AllZero(mem[..0])
  {
    hide Compressed, Good;
    var r := Compressed(engine, mem, n, 0, room, t);
    if r.Complete? { assert [] + r.chunks == r.chunks; }
  }

  lemma CompressingMore(engine: Engine, mem: seq<byte>, n: nat, start: nat, written: seq<byte>, room: nat, t: Table,
                        chunks: seq<Chunk>, goal: Compression)
    requires start < n <= |mem| && Compressing(engine, mem, n, start, written, room, t, chunks, goal)
    ensures match Choose(engine, mem, start, n, room, t)
            case NoRoom => goal.TooSmall?
            case InputTooShort => goal.OverRead?
            case Chosen(c) =>
              Good(c) && |ChunkBytes(c)| == ChunkSize(c)
              && Compressing(engine, mem, n, start + MAX_CHUNK, written + ChunkBytes(c), room - ChunkSize(c),
                             TableAfter(engine, mem, start, n, room, t), chunks + [c], goal)
  {
    hide Good, ChunkBytes, Choose, ChunkSize, TableAfter, Plain, AllBytes;
    if Choose(engine, mem, start, n, room, t).Chosen? {
      var c := Choose(engine, mem, start, n, room, t).c;
      var rest := Compressed(engine, mem, n, start + MAX_CHUNK, room - ChunkSize(c),
                             TableAfter(engine, mem, start, n, room, t));
      ChosenSpells(engine, mem, start, n, room, t);
      AllBytesSnoc(chunks, c);
      if rest.Complete? { assert chunks + ([c] + rest.chunks) == chunks + [c] + rest.chunks; }
    }
  }

  lemma CompressingEnds(engine: Engine, mem: seq<byte>, n: nat, start: nat, written: seq<byte>, room: nat, t: Table,
                        chunks: seq<Chunk>, goal: Compression)
    requires n <= start && n <= |mem| && Compressing(engine, mem, n, start, written, room, t, chunks, goal)
    ensures goal == Complete(chunks) && (forall k :: 0 <= k < |chunks| ==> Good(chunks[k]))
    ensures written == AllBytes(chunks)
  {
    hide Good;
    assert chunks + [] == chunks;
  }

  lemma {:induction false} AllBytesSnoc(chunks: seq<Chunk>, c: Chunk)
    requires (forall k :: 0 <= k < |chunks| ==> Good(chunks[k])) && Good(c)
    ensures forall k :: 0 <= k < |chunks + [c]| ==> Good((chunks + [c])[k])
    ensures AllBytes(chunks + [c]) == AllBytes(chunks) + ChunkBytes(c)
    decreases |chunks|
  {
    hide Good, ChunkBytes;
    var all := chunks + [c];
    forall k | 0 <= k < |all|
      ensures Good(all[k])
    {
    }
    if chunks == [] {
      assert all == [c] && all[1..] == [];
    } else {
      assert all[1..] == chunks[1..] + [c];
      AllBytesSnoc(chunks[1..], c);
    }
  }

  /** RtlCompressBufferLZNT1 on the first n bytes of mem, which ends where memory can be read no
      further. The ending header is written if two bytes are left for it. */
  method CompressBuffer(engine: Engine, mem: array<byte>, n: nat, dst: array<byte>, ws: Workspace)
    returns (status: Status, final: nat)
    requires n <= mem.Length && mem != dst && ws.Valid()
    modifies dst, ws, ws.first, ws.second
    ensures mem[..] == old(mem[..])
    ensures match Compressed(engine, mem[..], n, 0, dst.Length, old(ws.Value()))
            case TooSmall => status == BufferTooSmall
            case OverRead => status == InputOverrun
            case Complete(chunks) =>
              && (forall k :: 0 <= k < |chunks| ==> Good(chunks[k]))
              && final <= dst.Length && dst[..final] == AllBytes(chunks)
              && (final + 2 <= dst.Length ==> dst[final] == 0 && dst[final + 1] == 0)
              && status == if AllZero(mem[..n]) then AllZeros else Success
  {
    hide Good, AllBytes, ChunkBytes, ChunkSize, AllZero, Compressing, Compressed, Choose, TableAfter;
    ghost var m := mem[..];
    ghost var goal, chunks := Compressed(engine, m, n, 0, dst.Length, ws.Value()), [];
    var start, at, allZero := 0, 0, true;
    status, final := Success, 0;
    CompressingStarts(engine, m, n, dst.Length, ws.Value());
    assert dst[..0] == [];
    while start < n
      invariant mem[..] == m && 0 <= start && 0 <= at <= dst.Length
      invariant Compressing(engine, m, n, start, dst[..at], dst.Length - at, ws.Value(), chunks, goal)
      invariant allZero <==> AllZero(m[..Min(start, n)])
      decreases n - start
    {
      ghost var written, choice := dst[..at], Choose(engine, m, start, n, dst.Length - at, ws.Value());
      CompressingMore(engine, m, n, start, written, dst.Length - at, ws.Value(), chunks, goal);
      var size;
      status, size := CompressChunk(engine, mem, start, n, ws, dst, at, dst.Length);
      if status == BufferTooSmall || status == InputOverrun {
        return;
      }
      ZeroMore(m, start, n);
      assert dst[..at + size] == written + ChunkBytes(choice.c);
      start, at, chunks := start + MAX_CHUNK, at + size, chunks + [choice.c];
      allZero := allZero && status == AllZeros;
    }
    CompressingEnds(engine, m, n, start, dst[..at], dst.Length - at, ws.Value(), chunks, goal);
    if at + 2 <= dst.Length {
      dst[at] := 0;
      dst[at + 1] := 0;
    }
    final := at;
    status := if allZero then AllZeros else Success;
  }

  lemma ZeroMore(mem: seq<byte>, start: nat, n: nat)
    requires start < n <= |mem|
    ensures AllZero(mem[..Min(start + MAX_CHUNK, n)])
       <==> AllZero(mem[..start]) && AllZero(mem[start..ChunkEnd(start, n)])
  {
    var end := ChunkEnd(start, n);
    assert forall k :: 0 <= k < start ==> mem[..end][k] == mem[..start][k];
    assert forall k :: 0 <= k < end - start ==> mem[start..end][k] == mem[..end][start + k];
    if AllZero(mem[..start]) && AllZero(mem[start..end]) {
      forall k | 0 <= k < end
        ensures mem[..end][k] == 0
      {
        if k < start { assert mem[..start][k] == 0; } else { assert mem[start..end][k - start] == 0; }
      }
    }
  }

  // ----- Decompressing -----

  /** One byte of a copy, where the output so far is part of a buffer. */
  lemma StoreNext(d: seq<byte>, base: nat, o: nat, b: byte)
    requires base <= o < |d|
    ensures d[o := b][base..o + 1] == d[base..o] + [b]
    ensures d[o := b][..base] == d[..base]
  {
  }

  /** The copy loop. */
  method CopyBack(dst: array<byte>, base: nat, output: nat, length: nat, displacement: nat)
    requires 1 <= displacement && base + displacement <= output && output + length <= dst.Length
    modifies dst
    ensures dst[..][base..output + length] == Copied(old(dst[..][base..output]), length, displacement)
    ensures dst[..][..base] == old(dst[..][..base])
  {
    hide Copied;
    ghost var goal, head := Copied(dst[..][base..output], length, displacement), dst[..][..base];
    var o, left := output, length;
    while left > 0
      invariant o + left == output + length && output <= o && left >= 0
      invariant Copied(dst[..][base..o], left, displacement) == goal
      invariant dst[..][..base] == head
    {
      CopiedStep(dst[..][base..o], left, displacement);
      StoreNext(dst[..], base, o, dst[o - displacement]);
      ghost var d := dst[..];
      dst[o] := dst[o - displacement];
      assert dst[..] == d[o := d[o - displacement]];
      left := left - 1;
      o := o + 1;
    }
    CopiedStep(dst[..][base..o], 0, displacement);
  }

  /** The decoder's loop, as the walk of module Lznt1Format goes on from a given point. */
  ghost predicate Decoding(input: seq<byte>, flags: byte, bit: nat, out: seq<byte>, limit: nat, goal: Decoded) {
    Decode(input, flags, bit, out, limit) == goal
  }

  /** What one turn of the decoder's loop does. */
  lemma DecodeLiteral(input: seq<byte>, flags: byte, bit: nat, out: seq<byte>, limit: nat, goal: Decoded)
    requires Decoding(input, flags, bit, out, limit, goal) && |out| < limit && input != []
    requires |out| <= MAX_CHUNK && !FlagOn(flags, bit)
    ensures NextBit(input[1..], flags, bit, out + [input[0]], limit) == goal
  {
    hide NextBit;
  }

  lemma DecodeCopy(input: seq<byte>, flags: byte, bit: nat, out: seq<byte>, limit: nat, goal: Decoded)
    requires Decoding(input, flags, bit, out, limit, goal) && |out| < limit && input != []
    requires |out| <= MAX_CHUNK && FlagOn(flags, bit)
    ensures |input| < 2 ==> goal == BadBuffer
    ensures |input| >= 2 ==>
              var token := Ushort(input[0], input[1]);
              var displacement := TokenDisplacement(FormatAt(|out|), token);
              var length := Min(TokenLength(FormatAt(|out|), token), limit - |out|);
              if displacement > |out| then goal == BadBuffer
              else NextBit(input[2..], flags, bit, Copied(out, length, displacement), limit) == goal
  {
    hide NextBit, FlagOn, FormatAt, Ushort, Copied;
  }

  lemma DecodeStops(input: seq<byte>, flags: byte, bit: nat, out: seq<byte>, limit: nat, goal: Decoded)
    requires Decoding(input, flags, bit, out, limit, goal)
    ensures |out| >= limit || input == [] ==> goal == Output(out)
    ensures |out| < limit && input != [] && |out| > MAX_CHUNK ==> goal == OutsideTables
  {
    hide NextBit, FlagOn, FormatAt, Ushort, Copied;
  }

  /** The branch for a literal. */
  method PutLiteral(dst: array<byte>, base: nat, o: nat, dstEnd: nat, src: array<byte>, i: nat, srcEnd: nat,
                    ghost flags: byte, ghost bit: nat, ghost goal: Decoded)
    requires base <= o < dstEnd <= dst.Length && i < srcEnd <= src.Length && src != dst
    requires o - base <= MAX_CHUNK && !FlagOn(flags, bit)
    requires Decoding(src[..][i..srcEnd], flags, bit, dst[..][base..o], dstEnd - base, goal)
    modifies dst
    ensures dst[..][..base] == old(dst[..][..base])
    ensures NextBit(src[..][i + 1..srcEnd], flags, bit, dst[..][base..o + 1], dstEnd - base) == goal
  {
    hide NextBit, FlagOn, Decoding;
    ghost var d := dst[..];
    SliceHead(src[..], i, srcEnd);
    DecodeLiteral(src[..][i..srcEnd], flags, bit, d[base..o], dstEnd - base, goal);
    StoreNext(d, base, o, src[i]);
    dst[o] := src[i];
    assert dst[..] == d[o := src[i]];
  }

  /** The branch for a copy token. */
  method PutCopy(dst: array<byte>, base: nat, output: nat, dstEnd: nat, src: array<byte>, from: nat, srcEnd: nat,
                 format: Format, ghost flags: byte, ghost bit: nat, ghost goal: Decoded)
    returns (ok: bool, o: nat)
    requires base <= output < dstEnd <= dst.Length && from < srcEnd <= src.Length && src != dst
    requires output - base <= MAX_CHUNK && format == FormatAt(output - base) && FlagOn(flags, bit)
    requires Decoding(src[..][from..srcEnd], flags, bit, dst[..][base..output], dstEnd - base, goal)
    modifies dst
    ensures dst[..][..base] == old(dst[..][..base])
    ensures !ok ==> goal == BadBuffer
    ensures ok ==> output < o <= dstEnd && from + 2 <= srcEnd
    ensures ok ==> NextBit(src[..][from + 2..srcEnd], flags, bit, dst[..][base..o], dstEnd - base) == goal
  {
    hide NextBit, FlagOn, FormatAt, Ushort, Copied, TokenLength, TokenDisplacement, Decoding;
    ghost var input, out := src[..][from..srcEnd], dst[..][base..output];
    DecodeCopy(input, flags, bit, out, dstEnd - base, goal);
    if from + 1 >= srcEnd {
      return false, output;
    }
    assert input[0] == src[from] && input[1] == src[from + 1] && |out| == output - base;
    assert input[2..] == src[..][from + 2..srcEnd];
    var token := Ushort(src[from], src[from + 1]);
    var displacement, length := TokenDisplacement(format, token), TokenLength(format, token);
    if displacement > output - base {
      return false, output;
    }
    if output + length >= dstEnd {
      length := dstEnd - output;
    }
    CopyBack(dst, base, output, length, displacement);
    return true, output + length;
  }

  /** The next flag bit, and behind the last the next flag byte, if there is one. */
  method NextFlag(src: array<byte>, i: nat, srcEnd: nat, flags: byte, bit: nat, ghost out: seq<byte>, ghost limit: nat,
                  ghost goal: Decoded)
    returns (ended: bool, flags': byte, bit': nat, i': nat)
    requires i <= srcEnd <= src.Length && bit < 8
    requires NextBit(src[..][i..srcEnd], flags, bit, out, limit) == goal
    ensures ended ==> goal == Output(out)
    ensures !ended ==> i <= i' <= srcEnd && bit' < 8
    ensures !ended ==> Decoding(src[..][i'..srcEnd], flags', bit', out, limit, goal)
  {
    hide NextBit, Decoding;
    DecodeNext(src[..][i..srcEnd], flags, bit, out, limit, goal);
    ended, flags', bit', i' := false, flags, (bit + 1) % 8, i;
    if bit' == 0 {
      if i >= srcEnd {
        return true, flags, bit', i;
      }
      SliceHead(src[..], i, srcEnd);
      flags', i' := src[i], i + 1;
    }
  }

  /** LZNT1DecompressChunk, from the first flag byte on. */
  method DecompressChunk(dst: array<byte>, base: nat, dstEnd: nat, src: array<byte>, from: nat, srcEnd: nat)
    returns (status: Status, size: nat)
    requires base <= dstEnd <= dst.Length && from < srcEnd <= src.Length && src != dst
    modifies dst
    ensures dst[..][..base] == old(dst[..][..base])
    ensures match DecodeChunk(src[..][from..srcEnd], dstEnd - base)
            case Output(out) =>
              status == Success && size == |out| && base + size <= dstEnd && dst[..][base..base + size] == out
            case BadBuffer => status == BadCompressionBuffer
            case OutsideTables => status == Unspecified
  {
    hide Decode, DecodeChunk, NextBit, FlagOn, FormatAt, Decoding;
    ghost var limit, head := dstEnd - base, dst[..][..base];
    ghost var goal := DecodeChunk(src[..][from..srcEnd], limit);
    var o, i := base, from + 1;
    var flags, bit := src[from], 0;
    var format: Format := 0;
    ghost var raisedTo: nat := 0;
    StartsDecoding(src[..][from..srcEnd], limit);
    SliceHead(src[..], from, srcEnd);
    assert dst[..][base..base] == [];
    FormatZero();
    while o < dstEnd && i < srcEnd
      invariant base <= o <= dstEnd && from < i <= srcEnd && 0 <= bit < 8
      invariant dst[..][..base] == head
      invariant raisedTo <= MAX_CHUNK && raisedTo <= o - base && format == FormatAt(raisedTo)
      invariant Decoding(src[..][i..srcEnd], flags, bit, dst[..][base..o], limit, goal)
      decreases srcEnd - i
    {
      ghost var input, out := src[..][i..srcEnd], dst[..][base..o];
      DecodeStops(input, flags, bit, out, limit, goal);
      if o - base > MAX_CHUNK {
        return Unspecified, 0;
      }
      format := RaiseFormat(format, o - base, raisedTo);
      raisedTo := o - base;
      if !FlagOn(flags, bit) {
        PutLiteral(dst, base, o, dstEnd, src, i, srcEnd, flags, bit, goal);
        o, i := o + 1, i + 1;
      } else {
        var ok, o' := PutCopy(dst, base, o, dstEnd, src, i, srcEnd, format, flags, bit, goal);
        if !ok {
          return BadCompressionBuffer, 0;
        }
        o, i := o', i + 2;
      }
      var ended;
      ended, flags, bit, i := NextFlag(src, i, srcEnd, flags, bit, dst[..][base..o], limit, goal);
      if ended {
        return Success, o - base;
      }
    }
    DecodeStops(src[..][i..srcEnd], flags, bit, dst[..][base..o], limit, goal);
    return Success, o - base;
  }

  lemma StartsDecoding(input: seq<byte>, limit: nat)
    requires input != []
    ensures Decoding(input[1..], input[0], 0, [], limit, DecodeChunk(input, limit))
  {
  }

  lemma DecodeNext(rest: seq<byte>, flags: byte, bit: nat, out: seq<byte>, limit: nat, goal: Decoded)
    requires NextBit(rest, flags, bit, out, limit) == goal && bit < 8
    ensures bit < 7 ==> Decoding(rest, flags, bit + 1, out, limit, goal)
    ensures bit == 7 ==> if rest == [] then goal == Output(out) else Decoding(rest[1..], rest[0], 0, out, limit, goal)
  {
    hide Decode;
  }

  // ----- Decompressing a whole buffer -----

  /** Where the walk over chunks stands: what has been put out and what is still to be read. */
  ghost predicate Walking(head: seq<byte>, cs: seq<byte>, limit: nat, goal: Decoded)
    requires |cs| >= 2
  {
    Prepend(head, Decompressed(cs, limit)) == goal
  }

  lemma WalkStarts(cs: seq<byte>, limit: nat)
    requires |cs| >= 2
    ensures Walking([], cs, limit, Decompressed(cs, limit))
  {
    hide Decompressed;
    match Decompressed(cs, limit)
    case Output(x) => assert [] + x == x;
    case _ =>
  }

  lemma WalkFails(head: seq<byte>, cs: seq<byte>, limit: nat, goal: Decoded)
    requires |cs| >= 2 && Walking(head, cs, limit, goal)
    ensures HeaderSize(HeaderAt(cs)) > |cs| ==> goal == BadBuffer
    ensures HeaderSize(HeaderAt(cs)) <= |cs| && !ChunkOut(cs, limit).Output? ==> goal == ChunkOut(cs, limit)
  {
    hide ChunkOut, HeaderAt, HeaderSize;
  }

  /** What one chunk's output x leaves to be done. */
  lemma WalkGoesOn(head: seq<byte>, cs: seq<byte>, limit: nat, goal: Decoded, x: seq<byte>)
    requires |cs| >= 2 && Walking(head, cs, limit, goal)
    requires HeaderSize(HeaderAt(cs)) <= |cs| && ChunkOut(cs, limit) == Output(x)
    ensures var next := cs[HeaderSize(HeaderAt(cs))..];
            if |x| >= limit || |next| < 2 || HeaderAt(next) == 0 then goal == Output(head + x)
            else if |x| >= MAX_CHUNK then Walking(head + x, next, limit - |x|, goal)
            else if MAX_CHUNK >= limit then goal == Output(head + x)
            else Walking(head + x + Zeros(MAX_CHUNK - |x|), next, limit - MAX_CHUNK, goal)
  {
    hide ChunkOut, HeaderAt, HeaderSize, Zeros;
    var next := cs[HeaderSize(HeaderAt(cs))..];
    if |x| < limit && |next| >= 2 && HeaderAt(next) != 0 {
      if |x| >= MAX_CHUNK {
        PrependTwice(head, x, Decompressed(next, limit - |x|));
      } else if MAX_CHUNK < limit {
        var zeros := Zeros(MAX_CHUNK - |x|);
        PrependTwice(head, x + zeros, Decompressed(next, limit - MAX_CHUNK));
        assert head + (x + zeros) == head + x + zeros;
      }
    }
  }

  lemma PrependTwice(a: seq<byte>, b: seq<byte>, d: Decoded)
    ensures Prepend(a, Prepend(b, d)) == Prepend(a + b, d)
  {
    if d.Output? { assert a + (b + d.out) == a + b + d.out; }
  }

  /** The two branches for a chunk: decoding it, or copying it as it is. */
  method PutChunk(dst: array<byte>, o: nat, dstEnd: nat, src: array<byte>, p: nat, srcEnd: nat)
    returns (status: Status, got: nat)
    requires o <= dstEnd <= dst.Length && p + 2 <= srcEnd <= src.Length && src != dst
    requires p + HeaderSize(HeaderAt(src[..][p..srcEnd])) <= srcEnd
    modifies dst
    ensures dst[..][..o] == old(dst[..][..o])
    ensures match ChunkOut(src[..][p..srcEnd], dstEnd - o)
            case Output(x) => status == Success && got == |x| && o + got <= dstEnd && dst[..][o..o + got] == x
            case BadBuffer => status == BadCompressionBuffer
            case OutsideTables => status == Unspecified
  {
    hide DecodeChunk, HeaderSize, HeaderCompressed, Ushort, Stored;
    ghost var cs := src[..][p..srcEnd];
    var h := Ushort(src[p], src[p + 1]);
    assert h == HeaderAt(cs) && HeaderSize(h) >= 3 by { HeaderSizeBound(h); }
    if HeaderCompressed(h) {
      SliceOfSlice(src[..], p, srcEnd, 2, HeaderSize(h));
      status, got := DecompressChunk(dst, o, dstEnd, src, p + 2, p + HeaderSize(h));
    } else {
      got := Min(MAX_CHUNK, dstEnd - o);
      if p + 2 + got > srcEnd {
        return BadCompressionBuffer, 0;
      }
      SliceOfSlice(src[..], p, srcEnd, 2, 2 + got);
      ghost var d := dst[..];
      Store(dst, o, src[..][p + 2..p + 2 + got]);
      StoredParts(d, o, src[..][p + 2..p + 2 + got]);
      status := Success;
    }
  }

  /** RtlDecompressBufferLZNT1: it puts out what the walk of module Lznt1Buffer does. It reads the
      first header without looking at the size. If memory can be read so far, a buffer of less
      than two bytes is bad, because no chunk is that small; if not, the status says so. */
  method DecompressBuffer(dst: array<byte>, src: array<byte>, compSize: nat)
    returns (status: Status, final: nat)
    requires compSize <= src.Length && src != dst
    modifies dst
    ensures if src.Length < 2 then status == InputOverrun
            else if compSize < 2 then status == BadCompressionBuffer
            else
              match Decompressed(src[..][..compSize], dst.Length)
              case Output(x) => status == Success && final == |x| <= dst.Length && dst[..][..final] == x
              case BadBuffer => status == BadCompressionBuffer
              case OutsideTables => status == Unspecified
  {
    if src.Length < 2 {
      return InputOverrun, 0;
    }
    HeaderSizeBound(Ushort(src[0], src[1]));
    if HeaderSize(Ushort(src[0], src[1])) > compSize && compSize < 2 {
      return BadCompressionBuffer, 0;
    }
    status, final := DecompressChunkByChunk(dst, src, compSize);
  }

  /** The loop over chunks. */
  method DecompressChunkByChunk(dst: array<byte>, src: array<byte>, compSize: nat)
    returns (status: Status, final: nat)
    requires 2 <= compSize <= src.Length && src != dst
    modifies dst
    ensures match Decompressed(src[..][..compSize], dst.Length)
            case Output(x) => status == Success && final == |x| <= dst.Length && dst[..][..final] == x
            case BadBuffer => status == BadCompressionBuffer
            case OutsideTables => status == Unspecified
  {
    hide Decompressed, ChunkOut, HeaderSize, HeaderAt, Walking, Zeros, Ushort, Stored;
    ghost var goal := Decompressed(src[..][..compSize], dst.Length);
    var p, o := 0, 0;
    WalkStarts(src[..][..compSize], dst.Length);
    assert dst[..][..0] == [];
    assert src[..][0..compSize] == src[..][..compSize];
    while true
      invariant 0 <= p && p + 2 <= compSize && 0 <= o <= dst.Length
      invariant Walking(dst[..][..o], src[..][p..compSize], dst.Length - o, goal)
      decreases compSize - p
    {
      ghost var head, cs, limit := dst[..][..o], src[..][p..compSize], dst.Length - o;
      var size := HeaderSize(Ushort(src[p], src[p + 1]));
      HeaderIs(src[..], p, compSize);
      WalkFails(head, cs, limit, goal);
      if p + size > compSize {
        return BadCompressionBuffer, 0;
      }
      var got;
      status, got := PutChunk(dst, o, dst.Length, src, p, compSize);
      if status != Success {
        return status, 0;
      }
      ghost var x := dst[..][o..o + got];
      WalkGoesOn(head, cs, limit, goal, x);
      assert cs[size..] == src[..][p + size..compSize];
      assert dst[..][..o + got] == head + x;
      p, o := p + size, o + got;
      if o == dst.Length || p + 2 > compSize {
        return Success, o;
      }
      HeaderIs(src[..], p, compSize);
      if Ushort(src[p], src[p + 1]) == 0 {
        return Success, o;
      }
      if got < MAX_CHUNK {
        var gap := MAX_CHUNK - got;
        if o + gap >= dst.Length {
          return Success, o;
        }
        ghost var d := dst[..];
        Store(dst, o, Zeros(gap));
        StoredParts(d, o, Zeros(gap));
        assert dst[..][..o + gap] == dst[..][..o] + dst[..][o..o + gap];
        o := o + gap;
      }
    }
  }

  lemma HeaderIs(s: seq<byte>, p: nat, end: nat)
    requires p + 2 <= end <= |s|
    ensures HeaderAt(s[p..end]) == Ushort(s[p], s[p + 1]) && HeaderSize(HeaderAt(s[p..end])) >= 3
  {
  }
}
