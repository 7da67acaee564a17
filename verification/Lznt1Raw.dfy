/** Inputs that do not compress: no three bytes occur in them twice. They show when the
    compressor stores a chunk raw, and that it then reads on behind an input that ends early. */
module Lznt1Raw {
  import opened Bytes
  import opened Lznt1Format
  import opened Lznt1Chunk
  import opened Lznt1Buffer
  import opened Lznt1Parse
  import opened Lznt1Compress

  // ----- No repeats, no matches -----

  function Three(mem: seq<byte>, p: nat): (byte, byte, byte)
    requires p + 3 <= |mem|
  {
    (mem[p], mem[p + 1], mem[p + 2])
  }

  ghost predicate NoRepeats(mem: seq<byte>, start: nat, end: nat)
    requires end <= |mem|
  {
    forall q: nat, p: nat :: start <= q < p && p + 3 <= end ==> Three(mem, q) != Three(mem, p)
  }

  lemma LongRun(mem: seq<byte>, q: nat, ziv: nat, max: nat, end: nat)
    requires q < ziv && ziv + 3 <= end <= |mem|
    ensures RunLength(mem, q, ziv, 0, max, end) >= 3 ==> Three(mem, q) == Three(mem, ziv)
  {
    hide RunLength;
    var r := RunLength(mem, q, ziv, 0, max, end);
    RunLengthAgrees(mem, q, ziv, 0, max, end);
    if r >= 3 {
      var here, there := mem[ziv..ziv + r], mem[q..q + r];
      assert here[0] == mem[ziv] && here[1] == mem[ziv + 1] && here[2] == mem[ziv + 2];
      assert there[0] == mem[q] && there[1] == mem[q + 1] && there[2] == mem[q + 2];
    }
  }

  lemma NotOffered(mem: seq<byte>, start: nat, ziv: nat, end: nat, max: nat, entry: int)
    requires start <= ziv && ziv + 3 <= end <= |mem|
    requires forall q: nat :: start <= q < ziv ==> Three(mem, q) != Three(mem, ziv)
    ensures Offered(mem, start, ziv, end, max, entry) == 0
  {
    hide RunLength;
    if start <= entry < ziv { assert Three(mem, entry) != Three(mem, ziv); }
  }

  lemma NoMatch(engine: Engine, mem: seq<byte>, start: nat, ziv: nat, end: nat, max: nat, t: Table)
    requires start <= ziv && ziv + 3 <= end <= |mem| && NoRepeats(mem, start, end)
    ensures Matched(engine, mem, start, ziv, end, max, t).length == 0
  {
    hide RunLength, HashIndex, NoRepeats, Three, Offered;
    NoneLike(mem, start, ziv, end);
    match engine
    case Standard =>
      NotOffered(mem, start, ziv, end, max, t.first[IndexAt(mem, ziv)]);
      NotOffered(mem, start, ziv, end, max, t.second[IndexAt(mem, ziv)]);
    case Maximum =>
      if start < ziv {
        LongestIs(mem, start, ziv, ziv, max, end);
        LongRun(mem, Longest(mem, start, ziv, ziv, max, end).at, ziv, max, end);
      } else {
        NothingBefore(mem, start, ziv, max, end);
      }
  }

  lemma NoneLike(mem: seq<byte>, start: nat, ziv: nat, end: nat)
    requires ziv + 3 <= end <= |mem| && NoRepeats(mem, start, end)
    ensures forall q: nat :: start <= q < ziv ==> Three(mem, q) != Three(mem, ziv)
  {
  }

  lemma {:induction false} AllLiterals(engine: Engine, mem: seq<byte>, start: nat, pos: nat, end: nat, t: Table)
    requires start <= pos <= end <= |mem| && end <= start + MAX_CHUNK && NoRepeats(mem, start, end)
    ensures Sizes(Parse(engine, mem, start, pos, end, t)) == |Parse(engine, mem, start, pos, end, t)| == end - pos
    decreases end - pos
  {
    hide Matched, MaxLengthAt, NoRepeats, IsMatch;
    if pos < end {
      if pos + 3 <= end { NoMatch(engine, mem, start, pos, end, MaxLengthAt(pos - start), t); }
      var p := NextToken(engine, mem, start, pos, end, t);
      AllLiterals(engine, mem, start, pos + 1, end, p.table);
      SizesCons(p.token, Parse(engine, mem, start, pos + 1, end, p.table));
    }
  }

  /** Without repeats, a chunk's tokens are few enough exactly up to 3638 bytes. */
  lemma SmallIff(engine: Engine, mem: seq<byte>, n: nat, room: nat, t: Table)
    requires 0 < n <= MAX_CHUNK && n <= |mem| && NoRepeats(mem, 0, n)
    ensures BeforeLast(engine, mem, n, 0, room, t) == Standing(0, room, t)
    ensures LastIsSmall(engine, mem, n, Standing(0, room, t)) <==> n <= 3638
  {
    hide NoRepeats, Parse, Choose;
    AllLiterals(engine, mem, 0, 0, n, t);
  }

  // ----- Such inputs -----

  /** Low and high digits of a counter, from disjoint ranges. */
  function Digit(i: nat): byte
    requires i < 7680
  {
    if i % 2 == 0 then i / 2 % 240 else 240 + i / 2 / 240
  }

  function Counter(n: nat): (s: seq<byte>)
    requires n <= 7680
    ensures |s| == n
  {
    seq(n, i requires 0 <= i < n => Digit(i))
  }

  lemma CounterHasNoRepeats(n: nat, end: nat)
    requires end <= n <= 7680
    ensures NoRepeats(Counter(n), 0, end)
  {
    hide Digit;
    var s := Counter(n);
    forall q: nat, p: nat | 0 <= q < p && p + 3 <= end
      ensures Three(s, q) != Three(s, p)
    {
      assert Three(s, q) == (Digit(q), Digit(q + 1), Digit(q + 2));
      assert Three(s, p) == (Digit(p), Digit(p + 1), Digit(p + 2));
      DigitsDiffer(q, p);
    }
  }

  lemma DigitsOf(a: nat)
    requires a < 3840
    ensures Digit(2 * a) == a % 240 && Digit(2 * a + 1) == 240 + a / 240
  {
  }

  lemma DigitsDiffer(q: nat, p: nat)
    requires q < p && p + 3 <= 7680
    ensures (Digit(q), Digit(q + 1), Digit(q + 2)) != (Digit(p), Digit(p + 1), Digit(p + 2))
  {
    hide Digit;
    var a, b := q / 2, p / 2;
    DigitsOf(a);
    DigitsOf(b);
    if q == 2 * a && p == 2 * b {
      NumbersDiffer(a, b);
    } else if q == 2 * a + 1 && p == 2 * b + 1 {
      DigitsOf(a + 1);
      DigitsOf(b + 1);
      NumbersDiffer(a + 1, b + 1);
    }
  }

  lemma NumbersDiffer(a: nat, b: nat)
    requires a != b
    ensures a % 240 != b % 240 || a / 240 != b / 240
  {
    assert a == 240 * (a / 240) + a % 240 && b == 240 * (b / 240) + b % 240;
  }

  // ----- What happens to them -----

  /** From a buffer of exactly 3639 bytes the compressor reads on behind the end, with either
      engine and whatever the hash table holds, as soon as there is room for a raw chunk. */
  lemma ReadsBehindInput(engine: Engine, room: nat, t: Table)
    requires room >= MAX_CHUNK + 2
    ensures Compressed(engine, Counter(3639), 3639, 0, room, t).OverRead?
  {
    hide Counter, NoRepeats, Compressed, BeforeLast, LastIsSmall;
    CounterHasNoRepeats(3639, 3639);
    SmallIff(engine, Counter(3639), 3639, room, t);
    OverReadIff(engine, Counter(3639), room, t);
  }

  /** If memory goes on, the 457 bytes behind the input come back with it. */
  lemma BringsMoreBack(engine: Engine, room: nat, t: Table)
    requires room >= MAX_CHUNK + 2
    ensures var mem := Counter(MAX_CHUNK);
            var r := Compressed(engine, mem, 3639, 0, room, t);
            && r.Complete? && GoodChunks(r.chunks) && |AllBytes(r.chunks)| >= 2
            && Decompressed(AllBytes(r.chunks), MAX_CHUNK) == Output(mem)
            && Output(mem) != Output(mem[..3639])
  {
    hide Counter, NoRepeats, Compressed, BeforeLast, Decompressed, AllBytes, GoodChunks, CodedSize, ChunkTokens;
    var mem := Counter(MAX_CHUNK);
    CounterHasNoRepeats(MAX_CHUNK, 3639);
    SmallIff(engine, mem, 3639, room, t);
    LastDecides(engine, mem, 3639, 0, room, t);
    LastIsTokensIff(engine, mem, 3639, room, t);
    CompressedSpells(engine, mem, 3639, 0, room, t);
    RoundTrip(engine, mem, 3639, room, t, [], MAX_CHUNK);
    var all := AllBytes(Compressed(engine, mem, 3639, 0, room, t).chunks);
    assert all + [] == all;
    assert mem[..MAX_CHUNK] == mem && |mem[..3639]| == 3639;
  }
}
