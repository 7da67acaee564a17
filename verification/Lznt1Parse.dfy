/** The tokens LZNT1CompressChunk chooses: at each position the match the search finds, or a
    literal, and what becomes of a chunk by their number. */
module Lznt1Parse {
  import opened Bytes
  import opened Lznt1Format
  import opened Lznt1Chunk
  import opened Lznt1Buffer

  // ----- The tokens -----

  /** The number of input bytes a token stands for. */
  function Width(t: Token): nat {
    if t.Literal? then 1 else t.length
  }

  datatype Parsed = Parsed(token: Token, table: Table)

  /** The token for an input position, and the hash table after the search for it. */
  function NextToken(engine: Engine, mem: seq<byte>, start: nat, pos: nat, end: nat, t: Table): (p: Parsed)
    requires start <= pos < end <= |mem| && end <= start + MAX_CHUNK
    ensures 0 < Width(p.token) && pos + Width(p.token) <= end
    ensures p.token.Copy? ==>
              IsMatch(mem, start, pos, end, MaxLengthAt(pos - start),
                      p.token.length, pos - p.token.displacement)
  {
    hide Matched, MaxLengthAt, IsMatch;
    if pos + 3 <= end then
      var max := MaxLengthAt(pos - start);
      var f := Matched(engine, mem, start, pos, end, max, t);
      MatchedIsMatch(engine, mem, start, pos, end, max, t);
      if f.length != 0 then
        MatchFits(mem, start, pos, end, max, f.length, f.at);
        Parsed(Copy(f.length, pos - f.at), f.table)
      else
        Parsed(Literal(mem[pos]), f.table)
    else Parsed(Literal(mem[pos]), t)
  }

  /** The tokens for what is left of a chunk. */
  function Parse(engine: Engine, mem: seq<byte>, start: nat, pos: nat, end: nat, t: Table): seq<Token>
    requires start <= pos <= end <= |mem| && end <= start + MAX_CHUNK
    decreases end - pos
  {
    if pos == end then []
    else
      var p := NextToken(engine, mem, start, pos, end, t);
      [p.token] + Parse(engine, mem, start, pos + Width(p.token), end, p.table)
  }

  lemma ParseEnds(engine: Engine, mem: seq<byte>, start: nat, end: nat, t: Table)
    requires start <= end <= |mem| && end <= start + MAX_CHUNK
    ensures Parse(engine, mem, start, end, end, t) == []
  {
  }

  lemma LiteralSpells(mem: seq<byte>, start: nat, pos: nat)
    requires start <= pos < |mem|
    ensures Extended(mem[start..pos], Literal(mem[pos])) == mem[start..pos + 1]
  {
  }

  lemma CopySpells(mem: seq<byte>, start: nat, pos: nat, length: nat, displacement: nat)
    requires start + displacement <= pos && 0 < displacement && pos + length <= |mem|
    requires pos <= start + MAX_CHUNK
    requires mem[pos..pos + length] == mem[pos - displacement..pos - displacement + length]
    requires 3 <= length <= MaxLengthAt(pos - start)
    ensures displacement <= FORMAT_MAX_DISPLACEMENT[FormatAt(pos - start)]
    ensures var out, t := mem[start..pos], Copy(length, displacement);
            && Fitting(out, t) && Extended(out, t) == mem[start..pos + length]
            && TokenBytes(out, t) == LowHigh(Packed(FormatAt(pos - start), length, displacement))
  {
    hide Copied, Raised;
    RaisedReaches(0, pos - start);
    MatchCopies(mem, start, pos, length, pos - displacement);
  }

  /** A chosen token fits behind the input so far and stands for the bytes that come next. */
  lemma NextTokenSpells(engine: Engine, mem: seq<byte>, start: nat, pos: nat, end: nat, t: Table)
    requires start <= pos < end <= |mem| && end <= start + MAX_CHUNK
    ensures var token := NextToken(engine, mem, start, pos, end, t).token;
            Fitting(mem[start..pos], token) && Extended(mem[start..pos], token) == mem[start..pos + Width(token)]
  {
    hide NextToken, MaxLengthAt, Extended, IsMatch;
    match NextToken(engine, mem, start, pos, end, t).token
    case Literal(b) =>
      LiteralIs(engine, mem, start, pos, end, t);
      LiteralSpells(mem, start, pos);
    case Copy(length, displacement) =>
      MatchFits(mem, start, pos, end, MaxLengthAt(pos - start), length, pos - displacement);
      CopySpells(mem, start, pos, length, displacement);
  }

  lemma LiteralIs(engine: Engine, mem: seq<byte>, start: nat, pos: nat, end: nat, t: Table)
    requires start <= pos < end <= |mem| && end <= start + MAX_CHUNK
    ensures var token := NextToken(engine, mem, start, pos, end, t).token;
            token.Literal? ==> token.b == mem[pos]
  {
    hide Matched, MaxLengthAt, IsMatch;
  }

  /** Whatever the hash table holds, the tokens of a chunk stand for exactly its bytes. */
  lemma {:induction false} ParseSpells(engine: Engine, mem: seq<byte>, start: nat, pos: nat, end: nat, t: Table)
    requires start <= pos <= end <= |mem| && end <= start + MAX_CHUNK
    ensures Valid(mem[start..pos], Parse(engine, mem, start, pos, end, t))
    ensures Expanded(mem[start..pos], Parse(engine, mem, start, pos, end, t)) == mem[start..end]
    decreases end - pos
  {
    hide NextToken, Fitting, Extended;
    if pos < end {
      var p := NextToken(engine, mem, start, pos, end, t);
      NextTokenSpells(engine, mem, start, pos, end, t);
      ParseSpells(engine, mem, start, pos + Width(p.token), end, p.table);
      var rest := Parse(engine, mem, start, pos + Width(p.token), end, p.table);
      assert ([p.token] + rest)[1..] == rest;
    }
  }

  // ----- Their encoded size -----

  /** The number of bytes a token is encoded in. */
  function Size(t: Token): nat {
    if t.Copy? then 2 else 1
  }

  function Sizes(ts: seq<Token>): nat {
    if ts == [] then 0 else Size(ts[0]) + Sizes(ts[1..])
  }

  /** With one flag byte before each group of eight. */
  function CodedSize(ts: seq<Token>): nat {
    Sizes(ts) + (|ts| + 7) / 8
  }

  lemma {:induction false} SizesConcat(a: seq<Token>, b: seq<Token>)
    ensures Sizes(a + b) == Sizes(a) + Sizes(b)
  {
    hide Size;
    if a == [] {
      assert a + b == b;
    } else {
      assert (a + b)[1..] == a[1..] + b;
      SizesConcat(a[1..], b);
    }
  }

  lemma TokenSize(out: seq<byte>, t: Token)
    requires Fitting(out, t)
    ensures |TokenBytes(out, t)| == Size(t)
  {
  }

  lemma {:induction false} PayloadSize(out: seq<byte>, ts: seq<Token>)
    requires Valid(out, ts)
    ensures |Payload(out, ts)| == Sizes(ts)
    decreases |ts|
  {
    hide Fitting, Extended, TokenBytes, Size;
    if ts != [] {
      TokenSize(out, ts[0]);
      PayloadSize(Extended(out, ts[0]), ts[1..]);
    }
  }

  lemma {:induction false} EncodedSize(out: seq<byte>, ts: seq<Token>)
    requires Valid(out, ts)
    ensures |Encoded(out, ts)| == CodedSize(ts)
    decreases |ts|
  {
    hide Valid, Expanded, Payload, GroupFlags, Encoded, Sizes;
    if ts == [] {
      NothingBehind(out);
      NoSize();
    } else {
      var g, more := ts[..GroupSize(ts)], ts[GroupSize(ts)..];
      EncodedStep(out, ts);
      PayloadSize(out, g);
      EncodedSize(Expanded(out, g), more);
      SizesConcat(g, more);
      assert g + more == ts;
    }
  }

  lemma NoSize()
    ensures Sizes([]) == 0
  {
  }

  /** If the tokens up to some point do not fit, the tokens of the whole chunk do not fit. */
  lemma CodedGrows(ts: seq<Token>, more: seq<Token>)
    ensures CodedSize(ts) <= CodedSize(ts + more)
  {
    SizesConcat(ts, more);
  }

  lemma CodedSnoc(ts: seq<Token>, t: Token)
    ensures CodedSize(ts + [t]) == Sizes(ts) + Size(t) + |ts| / 8 + 1
    ensures Sizes(ts + [t]) == Sizes(ts) + Size(t)
  {
    hide Size;
    SizesConcat(ts, [t]);
    assert [t][1..] == [];
  }

  lemma SizesCons(t: Token, more: seq<Token>)
    ensures Sizes([t] + more) == Size(t) + Sizes(more)
  {
    assert ([t] + more)[1..] == more;
  }

  // ----- The chunk -----

  /** A chunk can find no room, or too little memory behind its start for the raw copy. */
  datatype Choice = NoRoom | InputTooShort | Chosen(c: Chunk)

  function ChunkEnd(start: nat, bufferEnd: nat): nat {
    Min(start + MAX_CHUNK, bufferEnd)
  }

  function ChunkTokens(engine: Engine, mem: seq<byte>, start: nat, bufferEnd: nat, t: Table): seq<Token>
    requires start < bufferEnd <= |mem|
  {
    Parse(engine, mem, start, start, ChunkEnd(start, bufferEnd), t)
  }

  /** What LZNT1CompressChunk stores: the tokens if they make a chunk of less than 4096 bytes
      that fits the room, else 4096 raw bytes, if those fit. These are taken from memory whatever
      is left of the input. */
  function Choose(engine: Engine, mem: seq<byte>, start: nat, bufferEnd: nat, room: nat, t: Table): (r: Choice)
    requires start < bufferEnd <= |mem|
    ensures r.Chosen? ==> ChunkSize(r.c) <= room
  {
    var ts := ChunkTokens(engine, mem, start, bufferEnd, t);
    if 2 + CodedSize(ts) <= Min(MAX_CHUNK - 1, room) then Chosen(Tokens(ts))
    else if room < MAX_CHUNK + 2 then NoRoom
    else if |mem| < start + MAX_CHUNK then InputTooShort
    else Chosen(Raw(mem[start..start + MAX_CHUNK]))
  }

  function ChunkSize(c: Chunk): nat {
    match c
    case Tokens(ts) => 2 + CodedSize(ts)
    case Raw(_) => MAX_CHUNK + 2
  }

  /** The hash table after the searches for the tokens that fit the space and, if there is one,
      for the first that does not. So many tokens are written, in so many bytes. */
  function Searched(engine: Engine, mem: seq<byte>, start: nat, pos: nat, end: nat, t: Table,
                    count: nat, used: nat, space: int): Table
    requires start <= pos <= end <= |mem| && end <= start + MAX_CHUNK
    decreases end - pos
  {
    if pos == end then t
    else
      var p := NextToken(engine, mem, start, pos, end, t);
      if used + Size(p.token) + count / 8 + 1 > space then p.table
      else Searched(engine, mem, start, pos + Width(p.token), end, p.table, count + 1, used + Size(p.token), space)
  }

  /** The hash table that LZNT1CompressChunk leaves. */
  function TableAfter(engine: Engine, mem: seq<byte>, start: nat, bufferEnd: nat, room: nat, t: Table): Table
    requires start < bufferEnd <= |mem|
  {
    Searched(engine, mem, start, start, ChunkEnd(start, bufferEnd), t, 0, 0, Min(MAX_CHUNK - 1, room) - 2)
  }

  // ----- What the tokens depend on -----

  lemma {:induction false} RunLocal(mem: seq<byte>, mem': seq<byte>, q: nat, ziv: nat, i: nat, max: nat, end: nat)
    requires q <= ziv <= end <= |mem| && end <= |mem'| && mem[..end] == mem'[..end]
    ensures RunLength(mem, q, ziv, i, max, end) == RunLength(mem', q, ziv, i, max, end)
    decreases max - i
  {
    if i < max && ziv + i < end {
      assert mem[ziv + i] == mem[..end][ziv + i] == mem'[ziv + i];
      assert mem[q + i] == mem[..end][q + i] == mem'[q + i];
      RunLocal(mem, mem', q, ziv, i + 1, max, end);
    }
  }

  lemma {:induction false} LongestLocal(mem: seq<byte>, mem': seq<byte>, start: nat, q: nat, ziv: nat, max: nat,
                                        end: nat)
    requires start <= q <= ziv <= end <= |mem| && end <= |mem'| && mem[..end] == mem'[..end]
    ensures Longest(mem, start, q, ziv, max, end) == Longest(mem', start, q, ziv, max, end)
    decreases q
  {
    hide RunLength;
    if q > start {
      RunLocal(mem, mem', q - 1, ziv, 0, max, end);
      LongestLocal(mem, mem', start, q - 1, ziv, max, end);
    }
  }

  lemma OfferedLocal(mem: seq<byte>, mem': seq<byte>, start: nat, ziv: nat, end: nat, max: nat, entry: int)
    requires start <= ziv && ziv + 3 <= end <= |mem| && end <= |mem'| && mem[..end] == mem'[..end]
    ensures Offered(mem, start, ziv, end, max, entry) == Offered(mem', start, ziv, end, max, entry)
  {
    hide RunLength;
    assert forall k :: 0 <= k < end ==> mem[k] == mem[..end][k] == mem'[k];
    if start <= entry < ziv { RunLocal(mem, mem', entry, ziv, 3, max, end); }
  }

  lemma MatchedLocal(engine: Engine, mem: seq<byte>, mem': seq<byte>, start: nat, ziv: nat, end: nat, max: nat,
                     t: Table)
    requires start <= ziv && ziv + 3 <= end <= |mem| && end <= |mem'| && mem[..end] == mem'[..end]
    ensures Matched(engine, mem, start, ziv, end, max, t) == Matched(engine, mem', start, ziv, end, max, t)
  {
    hide Offered, Longest, HashIndex;
    match engine
    case Standard =>
      assert forall k :: 0 <= k < end ==> mem[k] == mem[..end][k] == mem'[k];
      assert IndexAt(mem, ziv) == IndexAt(mem', ziv);
      OfferedLocal(mem, mem', start, ziv, end, max, t.first[IndexAt(mem, ziv)]);
      OfferedLocal(mem, mem', start, ziv, end, max, t.second[IndexAt(mem, ziv)]);
    case Maximum =>
      LongestLocal(mem, mem', start, ziv, ziv, max, end);
  }

  lemma NextTokenLocal(engine: Engine, mem: seq<byte>, mem': seq<byte>, start: nat, pos: nat, end: nat, t: Table)
    requires start <= pos < end <= |mem| && end <= start + MAX_CHUNK && end <= |mem'| && mem[..end] == mem'[..end]
    ensures NextToken(engine, mem, start, pos, end, t) == NextToken(engine, mem', start, pos, end, t)
  {
    hide Matched, MaxLengthAt, IsMatch;
    assert mem[pos] == mem[..end][pos] == mem'[pos];
    if pos + 3 <= end { MatchedLocal(engine, mem, mem', start, pos, end, MaxLengthAt(pos - start), t); }
  }

  /** The tokens of a chunk do not depend on what stands behind it. */
  lemma {:induction false} ParseLocal(engine: Engine, mem: seq<byte>, mem': seq<byte>, start: nat, pos: nat, end: nat,
                                      t: Table)
    requires start <= pos <= end <= |mem| && end <= start + MAX_CHUNK && end <= |mem'| && mem[..end] == mem'[..end]
    ensures Parse(engine, mem, start, pos, end, t) == Parse(engine, mem', start, pos, end, t)
    decreases end - pos
  {
    hide NextToken;
    if pos < end {
      var p := NextToken(engine, mem, start, pos, end, t);
      NextTokenLocal(engine, mem, mem', start, pos, end, t);
      ParseLocal(engine, mem, mem', start, pos + Width(p.token), end, p.table);
    }
  }

  lemma {:induction false} SearchedLocal(engine: Engine, mem: seq<byte>, mem': seq<byte>, start: nat, pos: nat,
                                         end: nat, t: Table, count: nat, used: nat, space: int)
    requires start <= pos <= end <= |mem| && end <= start + MAX_CHUNK && end <= |mem'| && mem[..end] == mem'[..end]
    ensures Searched(engine, mem, start, pos, end, t, count, used, space)
         == Searched(engine, mem', start, pos, end, t, count, used, space)
    decreases end - pos
  {
    hide NextToken, Size;
    if pos < end {
      var p := NextToken(engine, mem, start, pos, end, t);
      NextTokenLocal(engine, mem, mem', start, pos, end, t);
      SearchedLocal(engine, mem, mem', start, pos + Width(p.token), end, p.table, count + 1, used + Size(p.token),
                    space);
    }
  }

  // ----- Chunks of zeros -----

  ghost predicate AllZero(s: seq<byte>) {
    forall k :: 0 <= k < |s| ==> s[k] == 0
  }

  lemma {:induction false} CopyKeepsZero(out: seq<byte>, length: nat, displacement: nat)
    requires 1 <= displacement <= |out|
    ensures AllZero(Copied(out, length, displacement)) <==> AllZero(out)
    decreases length
  {
    if length > 0 {
      var more := out + [out[|out| - displacement]];
      CopyKeepsZero(more, length - 1, displacement);
      assert out == more[..|out|];
      if AllZero(more) { assert forall k :: 0 <= k < |out| ==> out[k] == more[k]; }
    }
  }

  lemma LiteralZero(out: seq<byte>, b: byte)
    ensures AllZero(out + [b]) <==> AllZero(out) && b == 0
  {
    var more := out + [b];
    assert more[|out|] == b && forall k :: 0 <= k < |out| ==> more[k] == out[k];
  }

  lemma {:induction false} ZeroRun(mem: seq<byte>, q: nat, ziv: nat, i: nat, max: nat, end: nat)
    requires q <= ziv && ziv + i <= end <= |mem| && end <= ziv + max
    requires forall k :: q <= k < end ==> mem[k] == 0
    ensures RunLength(mem, q, ziv, i, max, end) == end - ziv
    decreases max - i
  {
    if i < max && ziv + i < end { ZeroRun(mem, q, ziv, i + 1, max, end); }
  }

  /** At the second byte of a chunk of zeros either search finds the first byte, and the whole
      rest of the chunk agrees with it. */
  lemma ZeroMatch(engine: Engine, mem: seq<byte>, start: nat, end: nat, t: Table)
    requires start + 4 <= end <= |mem| && end <= start + MAX_CHUNK
    requires forall k :: start <= k < end ==> mem[k] == 0
    ensures var f := Matched(engine, mem, start, start, end, 4098, t);
            && f.length == 0
            && Matched(engine, mem, start, start + 1, end, 4098, f.table).length == end - start - 1
  {
    hide RunLength, HashIndex;
    ZeroRun(mem, start, start + 1, 0, 4098, end);
    ZeroRun(mem, start, start + 1, 3, 4098, end);
    match engine
    case Standard =>
      assert IndexAt(mem, start) == IndexAt(mem, start + 1);
    case Maximum =>
      NothingBefore(mem, start, start, 4098, end);
      assert Longest(mem, start, start, start + 1, 4098, end) == Best(0, start);
  }

  /** The length of the best match that a search sees. */
  function BestLength(engine: Engine, mem: seq<byte>, start: nat, ziv: nat, end: nat, max: nat, t: Table): nat
    requires start <= ziv && ziv + 3 <= end <= |mem|
  {
    match engine
    case Standard =>
      var index := IndexAt(mem, ziv);
      var first := Offered(mem, start, ziv, end, max, t.first[index]);
      var second := Offered(mem, start, ziv, end, max, t.second[index]);
      if first >= second then first else second
    case Maximum => Longest(mem, start, ziv, ziv, max, end).length
  }

  /** Returning the best match only if it is longer than three bytes is what the searches are
      said to do. They do it exactly when the best match is not three bytes long. */
  lemma ReturnsAsDocumentedIff(engine: Engine, mem: seq<byte>, start: nat, ziv: nat, end: nat, max: nat, t: Table)
    requires start <= ziv && ziv + 3 <= end <= |mem| && max >= 3
    ensures var best := BestLength(engine, mem, start, ziv, end, max, t);
            Matched(engine, mem, start, ziv, end, max, t).length == (if best > 3 then best else 0) <==> best != 3
  {
    hide Offered, Longest, HashIndex;
    match engine
    case Standard =>
      OfferedLength(mem, start, ziv, end, max, t.first[IndexAt(mem, ziv)]);
      OfferedLength(mem, start, ziv, end, max, t.second[IndexAt(mem, ziv)]);
    case Maximum =>
  }

  lemma OfferedLength(mem: seq<byte>, start: nat, ziv: nat, end: nat, max: nat, entry: int)
    requires start <= ziv && ziv + 3 <= end <= |mem| && max >= 3
    ensures var length := Offered(mem, start, ziv, end, max, entry);
            length == 0 || length >= 3
  {
    hide IsMatch;
    OfferedIsMatch(mem, start, ziv, end, max, entry);
    var length := Offered(mem, start, ziv, end, max, entry);
    if length != 0 { MatchFits(mem, start, ziv, end, max, length, entry); }
  }

  /** A match of exactly three bytes is returned, by either engine. */
  lemma ThreeIsReturned(engine: Engine, t: Table)
    ensures var mem := [0, 0, 0, 0];
            var f := Matched(engine, mem, 0, 0, 4, 4098, t);
            Matched(engine, mem, 0, 1, 4, 4098, f.table).length == 3
  {
    hide Matched;
    ZeroMatch(engine, [0, 0, 0, 0], 0, 4, t);
  }

  lemma FirstIsLiteral(engine: Engine, mem: seq<byte>, start: nat, end: nat, max: nat, t: Table)
    requires start + 3 <= end <= |mem|
    ensures Matched(engine, mem, start, start, end, max, t).length == 0
  {
    hide RunLength, HashIndex;
    NothingBefore(mem, start, start, max, end);
  }

  /** The last two bytes of a chunk, or fewer, are literals if a token starts there. */
  lemma {:induction false} TailIsLiteral(engine: Engine, mem: seq<byte>, start: nat, pos: nat, end: nat, t: Table)
    requires start <= pos <= end <= |mem| && end <= start + MAX_CHUNK && end <= pos + 2
    ensures Sizes(Parse(engine, mem, start, pos, end, t)) == |Parse(engine, mem, start, pos, end, t)| == end - pos
    decreases end - pos
  {
    hide Matched, MaxLengthAt;
    if pos < end {
      var p := NextToken(engine, mem, start, pos, end, t);
      TailIsLiteral(engine, mem, start, pos + 1, end, p.table);
      SizesCons(p.token, Parse(engine, mem, start, pos + 1, end, p.table));
    }
  }

  /** Four zeros or more make a literal and a copy of it. */
  lemma ZerosParse(engine: Engine, mem: seq<byte>, start: nat, end: nat, t: Table)
    requires start + 4 <= end <= |mem| && end <= start + MAX_CHUNK && AllZero(mem[start..end])
    ensures Parse(engine, mem, start, start, end, t) == [Literal(0), Copy(end - start - 1, 1)]
  {
    hide Matched, MaxLengthAt;
    FormatAtStart();
    forall k | start <= k < end
      ensures mem[k] == 0
    {
      assert mem[start..end][k - start] == 0;
    }
    var p := NextToken(engine, mem, start, start, end, t);
    FirstIsLiteral(engine, mem, start, end, 4098, t);
    ZeroMatch(engine, mem, start, end, t);
    var p' := NextToken(engine, mem, start, start + 1, end, p.table);
    assert p.token == Literal(0) && p'.token.Copy? && start + 1 + Width(p'.token) == end;
    ParseEnds(engine, mem, start, end, p'.table);
  }

  /** A chunk of zeros takes no more than four bytes, so it is never stored raw. */
  lemma ZerosAreSmall(engine: Engine, mem: seq<byte>, start: nat, end: nat, t: Table)
    requires start < end <= |mem| && end <= start + MAX_CHUNK && AllZero(mem[start..end])
    ensures CodedSize(Parse(engine, mem, start, start, end, t)) <= 4
  {
    hide Matched, MaxLengthAt, IsMatch;
    if end <= start + 3 {
      var p := NextToken(engine, mem, start, start, end, t);
      if start + 3 <= end { FirstIsLiteral(engine, mem, start, end, MaxLengthAt(0), t); }
      SizesCons(p.token, Parse(engine, mem, start, start + 1, end, p.table));
      TailIsLiteral(engine, mem, start, start + 1, end, p.table);
    } else {
      ZerosParse(engine, mem, start, end, t);
      var copy := Copy(end - start - 1, 1);
      SizesCons(Literal(0), [copy]);
      SizesCons(copy, []);
      assert [Literal(0)] + [copy] == [Literal(0), copy] && [copy] + [] == [copy];
    }
  }

  lemma FormatAtStart()
    ensures MaxLengthAt(0) == 4098 && MaxLengthAt(1) == 4098
  {
  }
}
