/** The LZNT1 chunk format of lznt1.c: tokens, their encoding in groups of eight under a flag
    byte, and the decoder's walk over the encoded bytes. */
module Lznt1Format {
  import opened Bits
  import opened Bytes

  const MAX_CHUNK := 4096

  const FORMAT_MAX_LENGTH: seq<nat> := [4098, 2050, 1026, 514, 258, 130, 66, 34, 18]
  const FORMAT_MAX_DISPLACEMENT: seq<nat> := [16, 32, 64, 128, 256, 512, 1024, 2048, 4096]

  type Format = f: int | 0 <= f < 9

  // ----- Which format a position has -----

  /** The loop that raises the format until its displacements reach back to the chunk's start. */
  function Raised(f: Format, pos: nat): Format
    requires pos <= MAX_CHUNK
    decreases 9 - f
  {
    if FORMAT_MAX_DISPLACEMENT[f] < pos then Raised(f + 1, pos) else f
  }

  function FormatAt(pos: nat): Format
    requires pos <= MAX_CHUNK
  {
    Raised(0, pos)
  }

  lemma {:induction false} RaisedReaches(f: Format, pos: nat)
    requires pos <= MAX_CHUNK
    ensures f <= Raised(f, pos) && pos <= FORMAT_MAX_DISPLACEMENT[Raised(f, pos)]
    decreases 9 - f
  {
    if FORMAT_MAX_DISPLACEMENT[f] < pos { RaisedReaches(f + 1, pos); }
  }

  /** Raising from where an earlier position left off gives the format of the later one. */
  lemma {:induction false} RaisedOn(f: Format, p: nat, q: nat)
    requires p <= q <= MAX_CHUNK
    ensures Raised(Raised(f, p), q) == Raised(f, q)
    decreases 9 - f
  {
    if FORMAT_MAX_DISPLACEMENT[f] < p { RaisedOn(f + 1, p, q); }
  }

  // ----- Copy tokens -----

  /** The number of values the length field of a format has. */
  function LengthRange(f: Format): nat {
    FORMAT_MAX_LENGTH[f] - 2
  }

  /** The longest copy a token can stand for at a position. */
  function MaxLengthAt(pos: nat): (r: nat)
    requires pos <= MAX_CHUNK
    ensures 18 <= r <= 4098
  {
    FORMAT_MAX_LENGTH[FormatAt(pos)]
  }

  /** SetLZNT1: length in the low bits, displacement in the high bits. */
  function Packed(f: Format, length: nat, displacement: nat): (r: nat)
    requires 3 <= length <= FORMAT_MAX_LENGTH[f] && 1 <= displacement <= FORMAT_MAX_DISPLACEMENT[f]
    ensures r < 0x1_0000
  {
    assert LengthRange(f) * FORMAT_MAX_DISPLACEMENT[f] == 0x1_0000;
    assert (displacement - 1) * LengthRange(f) <= (FORMAT_MAX_DISPLACEMENT[f] - 1) * LengthRange(f);
    (length - 3) + (displacement - 1) * LengthRange(f)
  }

  /** GetLZNT1Length and GetLZNT1Displacement */
  function TokenLength(f: Format, token: nat): (r: nat)
    ensures 3 <= r <= FORMAT_MAX_LENGTH[f]
  {
    token % LengthRange(f) + 3
  }

  function TokenDisplacement(f: Format, token: nat): (r: nat)
    ensures r >= 1
  {
    token / LengthRange(f) + 1
  }

  lemma TokenThere(f: Format, length: nat, displacement: nat)
    requires 3 <= length <= FORMAT_MAX_LENGTH[f] && 1 <= displacement <= FORMAT_MAX_DISPLACEMENT[f]
    ensures TokenLength(f, Packed(f, length, displacement)) == length
    ensures TokenDisplacement(f, Packed(f, length, displacement)) == displacement
  {
    DivModUnique(Packed(f, length, displacement), LengthRange(f), displacement - 1, length - 3);
  }

  /** A position's displacements reach over the first power of two from 16 on that is not below
      it, and the other bits of the token hold the length. */
  lemma FormatSplit(pos: nat, k: nat)
    requires pos <= MAX_CHUNK && 4 <= k <= 12 && pos <= Pow2(k) && (k == 4 || Pow2(k - 1) < pos)
    ensures FORMAT_MAX_DISPLACEMENT[FormatAt(pos)] == Pow2(k) && LengthRange(FormatAt(pos)) == Pow2(16 - k)
    ensures MaxLengthAt(pos) == Pow2(16 - k) + 2
  {
    Powers4To12();
    RaisedReaches(0, pos);
    RaisedNoFurther(0, k - 4, pos);
  }

  lemma Powers4To12()
    ensures Pow2(4) == 16 && Pow2(5) == 32 && Pow2(6) == 64 && Pow2(7) == 128 && Pow2(8) == 256
    ensures Pow2(9) == 512 && Pow2(10) == 1024 && Pow2(11) == 2048 && Pow2(12) == 4096
  {
  }

  lemma {:induction false} RaisedNoFurther(f: Format, g: Format, pos: nat)
    requires f <= g && pos <= FORMAT_MAX_DISPLACEMENT[g] && pos <= MAX_CHUNK
    ensures Raised(f, pos) <= g
    decreases 9 - f
  {
    if FORMAT_MAX_DISPLACEMENT[f] < pos && f < g { RaisedNoFurther(f + 1, g, pos); }
  }

  // ----- What tokens mean -----

  datatype Token = Literal(b: byte) | Copy(length: nat, displacement: nat)

  /** Byte by byte, each from displacement bytes back: the copy may read what it has written. */
  function Copied(out: seq<byte>, length: nat, displacement: nat): (r: seq<byte>)
    requires 1 <= displacement <= |out|
    ensures |r| == |out| + length && out <= r
    decreases length
  {
    if length == 0 then out else Copied(out + [out[|out| - displacement]], length - 1, displacement)
  }

  lemma CopiedStep(out: seq<byte>, n: nat, displacement: nat)
    requires 1 <= displacement <= |out|
    ensures n == 0 ==> Copied(out, n, displacement) == out
    ensures n > 0 ==>
              Copied(out, n, displacement) == Copied(out + [out[|out| - displacement]], n - 1, displacement)
  {
  }

  /** A token that can stand behind this output. */
  predicate Fitting(out: seq<byte>, t: Token) {
    t.Copy? ==>
      && |out| <= MAX_CHUNK
      && 3 <= t.length <= MaxLengthAt(|out|)
      && 1 <= t.displacement <= |out|
  }

  function Extended(out: seq<byte>, t: Token): (r: seq<byte>)
    requires Fitting(out, t)
    ensures out <= r && |out| < |r|
  {
    match t
    case Literal(b) => out + [b]
    case Copy(length, displacement) => Copied(out, length, displacement)
  }

  /** Tokens that fit one after another. */
  ghost predicate Valid(out: seq<byte>, ts: seq<Token>)
    decreases |ts|
  {
    ts == [] || (|out| < MAX_CHUNK && Fitting(out, ts[0]) && Valid(Extended(out, ts[0]), ts[1..]))
  }

  ghost function Expanded(out: seq<byte>, ts: seq<Token>): (r: seq<byte>)
    requires Valid(out, ts)
    ensures out <= r
    decreases |ts|
  {
    if ts == [] then out else Expanded(Extended(out, ts[0]), ts[1..])
  }

  // ----- Encoding -----

  function LowHigh(w: nat): (r: seq<byte>)
    requires w < 0x1_0000
    ensures |r| == 2
  {
    [w % 256, w / 256]
  }

  function Ushort(lo: byte, hi: byte): (w: nat)
    ensures w < 0x1_0000
  {
    256 * (hi as int) + lo
  }

  function TokenBytes(out: seq<byte>, t: Token): seq<byte>
    requires Fitting(out, t)
  {
    match t
    case Literal(b) => [b]
    case Copy(length, displacement) =>
      RaisedReaches(0, |out|);
      LowHigh(Packed(FormatAt(|out|), length, displacement))
  }

  /** A copy token's word, low byte first: displacement less one in the high bits, length less
      three in the low ones. */
  lemma TokenWord(out: seq<byte>, length: nat, displacement: nat, k: nat)
    requires Fitting(out, Copy(length, displacement))
    requires 4 <= k <= 12 && |out| <= Pow2(k) && (k == 4 || Pow2(k - 1) < |out|)
    ensures |TokenBytes(out, Copy(length, displacement))| == 2
    ensures var w := TokenBytes(out, Copy(length, displacement));
            w[0] as int + 256 * w[1] as int == (length - 3) + (displacement - 1) * Pow2(16 - k)
  {
    hide Packed, Pow2, FormatAt;
    FormatSplit(|out|, k);
    RaisedReaches(0, |out|);
    PackedIs(FormatAt(|out|), length, displacement);
    LowHighIs(Packed(FormatAt(|out|), length, displacement));
  }

  lemma PackedIs(f: Format, length: nat, displacement: nat)
    requires 3 <= length <= FORMAT_MAX_LENGTH[f] && 1 <= displacement <= FORMAT_MAX_DISPLACEMENT[f]
    ensures Packed(f, length, displacement) == (length - 3) + (displacement - 1) * LengthRange(f)
  {
  }

  lemma LowHighIs(w: nat)
    requires w < 0x1_0000
    ensures LowHigh(w)[0] as int + 256 * LowHigh(w)[1] as int == w
  {
  }

  /** The bytes of a run of tokens without flags. */
  ghost function Payload(out: seq<byte>, ts: seq<Token>): seq<byte>
    requires Valid(out, ts)
    decreases |ts|
  {
    if ts == [] then [] else TokenBytes(out, ts[0]) + Payload(Extended(out, ts[0]), ts[1..])
  }

  /** One flag bit a token, the first token's lowest. */
  function Flags(ts: seq<Token>): nat {
    if ts == [] then 0 else (if ts[0].Copy? then 1 else 0) + 2 * Flags(ts[1..])
  }

  lemma {:induction false} FlagsFit(ts: seq<Token>)
    ensures Flags(ts) < Pow2(|ts|)
  {
    if ts != [] { FlagsFit(ts[1..]); }
  }

  /** FlagOn(FlagByte, 1 << bit) */
  predicate FlagOn(flags: nat, bit: nat) {
    flags / Pow2(bit) % 2 == 1
  }

  lemma {:induction false} FlagOfToken(ts: seq<Token>, k: nat)
    requires k < |ts|
    ensures FlagOn(Flags(ts), k) <==> ts[k].Copy?
    ensures Flags(ts) / Pow2(k) % 2 == 1 <==> ts[k].Copy?
  {
    var rest := Flags(ts[1..]);
    LowBit(if ts[0].Copy? then 1 else 0, rest);
    if k > 0 {
      FlagOfToken(ts[1..], k - 1);
      HalfDivision(Flags(ts), Pow2(k - 1));
    }
  }

  // ----- Groups of eight -----

  lemma {:induction false} ValidSplit(out: seq<byte>, ts: seq<Token>, k: nat)
    requires Valid(out, ts) && k <= |ts|
    ensures Valid(out, ts[..k]) && Valid(Expanded(out, ts[..k]), ts[k..])
    ensures Expanded(Expanded(out, ts[..k]), ts[k..]) == Expanded(out, ts)
    decreases k
  {
    hide Fitting, Extended;
    if k == 0 {
      assert ts[0..] == ts;
    } else {
      assert ts[..k][1..] == ts[1..][..k - 1] && ts[k..] == ts[1..][k - 1..];
      ValidSplit(Extended(out, ts[0]), ts[1..], k - 1);
    }
  }

  lemma {:induction false} ValidSnoc(out: seq<byte>, ts: seq<Token>, t: Token)
    requires Valid(out, ts) && |Expanded(out, ts)| < MAX_CHUNK && Fitting(Expanded(out, ts), t)
    ensures Valid(out, ts + [t]) && Expanded(out, ts + [t]) == Extended(Expanded(out, ts), t)
    ensures Payload(out, ts + [t]) == Payload(out, ts) + TokenBytes(Expanded(out, ts), t)
    decreases |ts|
  {
    hide Fitting, Extended, TokenBytes;
    if ts == [] {
      assert ([] + [t])[1..] == [] && [t] + [] == [t];
      assert [t][0] == t && [t][1..] == [];
    } else {
      assert (ts + [t])[1..] == ts[1..] + [t];
      ValidSnoc(Extended(out, ts[0]), ts[1..], t);
    }
  }

  lemma {:induction false} FlagsSnoc(ts: seq<Token>, t: Token)
    ensures Flags(ts + [t]) == Flags(ts) + if t.Copy? then Pow2(|ts|) else 0
  {
    if ts == [] {
      assert ([] + [t])[1..] == [];
    } else {
      assert (ts + [t])[1..] == ts[1..] + [t];
      FlagsSnoc(ts[1..], t);
    }
  }

  function GroupSize(ts: seq<Token>): nat {
    if |ts| <= 8 then |ts| else 8
  }

  /** The body of a compressed chunk: before each group of up to eight tokens, their flags. */
  ghost function Encoded(out: seq<byte>, ts: seq<Token>): seq<byte>
    requires Valid(out, ts)
    decreases |ts|
  {
    if ts == [] then []
    else
      var n := GroupSize(ts);
      ValidSplit(out, ts, n);
      GroupFlags(ts[..n]) + Payload(out, ts[..n]) + Encoded(Expanded(out, ts[..n]), ts[n..])
  }

  function GroupFlags(g: seq<Token>): (r: seq<byte>)
    requires |g| <= 8
    ensures |r| == 1
  {
    FlagsFit(g);
    PowMonotone(|g|, 8);
    WordPowers();
    [Flags(g)]
  }

  // ----- The decoder -----

  datatype Decoded = Output(out: seq<byte>) | BadBuffer | OutsideTables

  function Clip(s: seq<byte>, n: nat): (r: seq<byte>)
    ensures r <= s && |r| <= n
  {
    if |s| <= n then s else s[..n]
  }

  function Min(a: nat, b: nat): nat {
    if a < b then a else b
  }

  /** The decoder's loop, from what is left of the input and what has been put out so far.
      Behind more than a chunk's worth of output the format tables end. */
  function Decode(input: seq<byte>, flags: byte, bit: nat, out: seq<byte>, limit: nat): Decoded
    decreases |input|, 0
  {
    if |out| >= limit || input == [] then Output(out)
    else if |out| > MAX_CHUNK then OutsideTables
    else if !FlagOn(flags, bit) then NextBit(input[1..], flags, bit, out + [input[0]], limit)
    else if |input| < 2 then BadBuffer
    else
      var token := Ushort(input[0], input[1]);
      var displacement := TokenDisplacement(FormatAt(|out|), token);
      var length := TokenLength(FormatAt(|out|), token);
      if displacement > |out| then BadBuffer
      else NextBit(input[2..], flags, bit, Copied(out, Min(length, limit - |out|), displacement), limit)
  }

  function NextBit(input: seq<byte>, flags: byte, bit: nat, out: seq<byte>, limit: nat): Decoded
    decreases |input|, 1
  {
    if bit + 1 < 8 then Decode(input, flags, bit + 1, out, limit)
    else if input == [] then Output(out)
    else Decode(input[1..], input[0], 0, out, limit)
  }

  /** LZNT1DecompressChunk on the bytes behind a chunk header. */
  function DecodeChunk(input: seq<byte>, limit: nat): Decoded
    requires input != []
  {
    Decode(input[1..], input[0], 0, [], limit)
  }

  // ----- Decoding undoes encoding -----

  lemma {:induction false} CopiedMore(out: seq<byte>, m: nat, n: nat, displacement: nat)
    requires 1 <= displacement <= |out| && m <= n
    ensures Copied(out, m, displacement) == Copied(out, n, displacement)[..|out| + m]
    decreases m
  {
    if m > 0 {
      CopiedMore(out + [out[|out| - displacement]], m - 1, n - 1, displacement);
    }
  }

  lemma FullStops(input: seq<byte>, flags: byte, bit: nat, out: seq<byte>, limit: nat)
    requires |out| >= limit
    ensures Decode(input, flags, bit, out, limit) == Output(out)
    ensures NextBit(input, flags, bit, out, limit) == Output(out)
  {
  }

  /** One token: the decoder puts out what the token means, or as much of it as there is room. */
  lemma DecodeToken(out: seq<byte>, t: Token, rest: seq<byte>, flags: byte, bit: nat, limit: nat)
    requires |out| < MAX_CHUNK && Fitting(out, t) && |out| < limit && (FlagOn(flags, bit) <==> t.Copy?)
    ensures Decode(TokenBytes(out, t) + rest, flags, bit, out, limit)
         == NextBit(rest, flags, bit, Clip(Extended(out, t), limit), limit)
  {
    hide NextBit, FlagOn;
    var input := TokenBytes(out, t) + rest;
    match t
    case Literal(b) =>
      assert input[1..] == rest;
    case Copy(length, displacement) =>
      var f := FormatAt(|out|);
      RaisedReaches(0, |out|);
      var token := Packed(f, length, displacement);
      TokenThere(f, length, displacement);
      LowHighThere(token);
      assert input[2..] == rest && input[0] == LowHigh(token)[0] && input[1] == LowHigh(token)[1];
      CopiedMore(out, Min(length, limit - |out|), length, displacement);
  }

  lemma LowHighThere(w: nat)
    requires w < 0x1_0000
    ensures Ushort(LowHigh(w)[0], LowHigh(w)[1]) == w
  {
  }

  /** The flags that are still to come are those of the tokens still to come. */
  ghost predicate FlagsAre(flags: byte, bit: nat, g: seq<Token>) {
    bit + |g| <= 8 && forall k :: 0 <= k < |g| ==> (FlagOn(flags, bit + k) <==> g[k].Copy?)
  }

  lemma FlagsTail(flags: byte, bit: nat, g: seq<Token>)
    requires FlagsAre(flags, bit, g) && g != []
    ensures FlagsAre(flags, bit + 1, g[1..]) && (FlagOn(flags, bit) <==> g[0].Copy?)
  {
    hide FlagOn;
    assert FlagOn(flags, bit + 0) <==> g[0].Copy?;
    forall k | 0 <= k < |g[1..]|
      ensures FlagOn(flags, bit + 1 + k) <==> g[1..][k].Copy?
    {
      assert FlagOn(flags, bit + (k + 1)) <==> g[k + 1].Copy?;
    }
  }

  /** Where the decoder goes on behind the last token of a group. */
  function GoesOn(rest: seq<byte>, flags: byte, bit: nat, out: seq<byte>, limit: nat): Decoded {
    if bit < 8 then Decode(rest, flags, bit, out, limit)
    else if rest == [] then Output(out)
    else Decode(rest[1..], rest[0], 0, out, limit)
  }

  lemma {:induction false} DecodePayload(out: seq<byte>, g: seq<Token>, rest: seq<byte>, flags: byte, bit: nat,
                                         limit: nat)
    requires Valid(out, g) && g != [] && FlagsAre(flags, bit, g) && |out| <= limit
    ensures Decode(Payload(out, g) + rest, flags, bit, out, limit)
         == if |Expanded(out, g)| >= limit then Output(Expanded(out, g)[..limit])
            else GoesOn(rest, flags, bit + |g|, Expanded(out, g), limit)
    decreases |g|
  {
    hide Fitting, Extended, TokenBytes, FlagOn, Decode, FlagsAre;
    FlagsTail(flags, bit, g);
    if |out| == limit {
      FullStops(Payload(out, g) + rest, flags, bit, out, limit);
    } else {
      var t, out1 := g[0], Extended(out, g[0]);
      var later := Payload(out1, g[1..]) + rest;
      assert Payload(out, g) + rest == TokenBytes(out, t) + later;
      DecodeToken(out, t, later, flags, bit, limit);
      assert out1 <= Expanded(out, g);
      if |out1| >= limit {
        FullStops(later, flags, bit, out1[..limit], limit);
        assert Clip(out1, limit) == out1[..limit];
      } else if |g| == 1 {
        assert g[1..] == [] && later == rest;
      } else {
        GroupGoesOn(flags, bit, g);
        DecodePayload(out1, g[1..], rest, flags, bit + 1, limit);
      }
    }
  }

  lemma GroupGoesOn(flags: byte, bit: nat, g: seq<Token>)
    requires FlagsAre(flags, bit, g) && |g| > 1
    ensures bit + 1 < 8
  {
  }

  /** Decoding undoes encoding: whatever valid tokens a chunk was encoded from, the decoder puts
      out what they mean, cut off where its output buffer ends. */
  lemma {:induction false} DecodeEncoded(out: seq<byte>, ts: seq<Token>, limit: nat)
    requires Valid(out, ts) && ts != [] && |out| <= limit
    ensures var e := Encoded(out, ts);
            e != [] && Decode(e[1..], e[0], 0, out, limit) == Output(Clip(Expanded(out, ts), limit))
    decreases |ts|
  {
    hide Decode, Fitting, Extended, TokenBytes, FlagOn, Flags;
    var n := GroupSize(ts);
    ValidSplit(out, ts, n);
    var g, out1 := ts[..n], Expanded(out, ts[..n]);
    var rest := Encoded(out1, ts[n..]);
    var e := Encoded(out, ts);
    assert e[0] == GroupFlags(g)[0] && e[1..] == Payload(out, g) + rest;
    GroupFlagsAre(g);
    DecodePayload(out, g, rest, e[0], 0, limit);
    if |out1| < limit {
      if n == 8 {
        if ts[8..] != [] {
          DecodeEncoded(out1, ts[8..], limit);
        }
      } else {
        assert ts[n..] == [] && rest == [];
        NothingToDecode(e[0], n, out1, limit);
      }
    }
  }

  lemma GroupFlagsAre(g: seq<Token>)
    requires |g| <= 8
    ensures FlagsAre(GroupFlags(g)[0], 0, g)
  {
    hide FlagOn;
    forall k | 0 <= k < |g|
      ensures FlagOn(GroupFlags(g)[0], 0 + k) <==> g[k].Copy?
    {
      FlagOfToken(g, k);
    }
  }

  lemma NothingToDecode(flags: byte, bit: nat, out: seq<byte>, limit: nat)
    ensures Decode([], flags, bit, out, limit) == Output(out)
  {
  }

  // ----- Behind the format tables -----

  /** As long as the output cannot exceed 4096 bytes before it is full, every position has a
      format. */
  lemma {:induction false} DecodeInTables(input: seq<byte>, flags: byte, bit: nat, out: seq<byte>, limit: nat)
    requires limit <= MAX_CHUNK + 1
    ensures !Decode(input, flags, bit, out, limit).OutsideTables?
    decreases |input|, 0
  {
    hide FlagOn, FormatAt, Ushort, TokenLength, TokenDisplacement, Copied;
    if |out| < limit && input != [] {
      if !FlagOn(flags, bit) {
        NextBitInTables(input[1..], flags, bit, out + [input[0]], limit);
      } else if |input| >= 2 {
        var token := Ushort(input[0], input[1]);
        var displacement := TokenDisplacement(FormatAt(|out|), token);
        var length := TokenLength(FormatAt(|out|), token);
        if displacement <= |out| {
          NextBitInTables(input[2..], flags, bit, Copied(out, Min(length, limit - |out|), displacement), limit);
        }
      }
    }
  }

  lemma {:induction false} NextBitInTables(input: seq<byte>, flags: byte, bit: nat, out: seq<byte>, limit: nat)
    requires limit <= MAX_CHUNK + 1
    ensures !NextBit(input, flags, bit, out, limit).OutsideTables?
    decreases |input|, 1
  {
    hide Decode;
    if bit + 1 < 8 {
      DecodeInTables(input, flags, bit + 1, out, limit);
    } else if input != [] {
      DecodeInTables(input[1..], input[0], 0, out, limit);
    }
  }

  /** A literal, a copy of it 4096 times, and something more: with room for more than 4097 bytes
      the decoder needs a format for position 4097. */
  const PAST_TABLES: seq<byte> := [2, 0, 0xFD, 0x0F, 0]

  lemma PastTables(limit: nat)
    requires limit > MAX_CHUNK + 1
    ensures DecodeChunk(PAST_TABLES, limit) == OutsideTables
  {
    hide FlagOn, FormatAt, TokenLength, TokenDisplacement, Copied;
    PastTablesFacts();
    var copied := Copied([0], 4096, 1);
    assert PAST_TABLES[1..][1..][2..] == [0];
    assert PAST_TABLES[1..] == [0, 0xFD, 0x0F, 0] && [0, 0xFD, 0x0F, 0][1..] == [0xFD, 0x0F, 0];
    assert [0xFD, 0x0F, 0][2..] == [0] && [] + [0] == [0];
    assert Decode([0], 2, 2, copied, limit) == OutsideTables;
    assert NextBit([0], 2, 1, copied, limit) == OutsideTables;
    assert Decode([0xFD, 0x0F, 0], 2, 1, [0], limit) == OutsideTables;
    assert NextBit([0xFD, 0x0F, 0], 2, 0, [0], limit) == OutsideTables;
    assert Decode([0, 0xFD, 0x0F, 0], 2, 0, [], limit) == OutsideTables;
  }

  lemma PastTablesFacts()
    ensures !FlagOn(2, 0) && FlagOn(2, 1)
    ensures FormatAt(1) == 0
    ensures TokenLength(0, Ushort(0xFD, 0x0F)) == 4096 && TokenDisplacement(0, Ushort(0xFD, 0x0F)) == 1
  {
    assert Pow2(0) == 1 && Pow2(1) == 2;
  }

  /** Exactly with room for at most 4097 bytes no input at all leads the decoder behind its format
      tables. */
  lemma InTablesIff(limit: nat)
    ensures (forall input: seq<byte> :: input != [] ==> !DecodeChunk(input, limit).OutsideTables?)
       <==> limit <= MAX_CHUNK + 1
  {
    hide DecodeChunk;
    if limit <= MAX_CHUNK + 1 {
      forall input: seq<byte> | input != []
        ensures !DecodeChunk(input, limit).OutsideTables?
      {
        ChunkInTables(input, limit);
      }
    } else {
      PastTables(limit);
    }
  }

  lemma ChunkInTables(input: seq<byte>, limit: nat)
    requires input != [] && limit <= MAX_CHUNK + 1
    ensures !DecodeChunk(input, limit).OutsideTables?
  {
    DecodeInTables(input[1..], input[0], 0, [], limit);
  }
}
