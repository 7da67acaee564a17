/** Compressing one chunk: the two match searches, and the loop that writes flags, literals and
    copy tokens into the caller's buffer. */
module Lznt1Chunk {
  import opened Bits
  import opened Bytes
  import opened Lznt1Format

  // ----- Matches -----

  /** How far the bytes at q and at ziv agree, up to a length and to the end of the buffer. */
  function RunLength(mem: seq<byte>, q: nat, ziv: nat, i: nat, max: nat, end: nat): (r: nat)
    requires q <= ziv <= end <= |mem|
    decreases max - i
  {
    if i < max && ziv + i < end && mem[ziv + i] == mem[q + i] then RunLength(mem, q, ziv, i + 1, max, end) else i
  }

  lemma SliceSnoc(s: seq<byte>, q: nat, i: nat)
    requires q + i < |s|
    ensures s[q..q + i + 1] == s[q..q + i] + [s[q + i]]
  {
  }

  lemma {:induction false} RunLengthAgrees(mem: seq<byte>, q: nat, ziv: nat, i: nat, max: nat, end: nat)
    requires q <= ziv <= end <= |mem| && i <= max && ziv + i <= end
    requires mem[ziv..ziv + i] == mem[q..q + i]
    ensures var r := RunLength(mem, q, ziv, i, max, end);
            && i <= r <= max && ziv + r <= end && mem[ziv..ziv + r] == mem[q..q + r]
            && (r == max || ziv + r == end || mem[ziv + r] != mem[q + r])
    decreases max - i
  {
    if i < max && ziv + i < end && mem[ziv + i] == mem[q + i] {
      SliceSnoc(mem, ziv, i);
      SliceSnoc(mem, q, i);
      RunLengthAgrees(mem, q, ziv, i + 1, max, end);
    }
  }

  /** What the compressor relies on: the bytes at ziv repeat those at an earlier position. */
  ghost predicate IsMatch(mem: seq<byte>, start: nat, ziv: nat, end: nat, max: nat, length: nat, matched: int) {
    && start <= matched < ziv && 3 <= length <= max && ziv + length <= end <= |mem|
    && mem[ziv..ziv + length] == mem[matched..matched + length]
  }

  lemma MatchFits(mem: seq<byte>, start: nat, ziv: nat, end: nat, max: nat, length: nat, matched: int)
    requires IsMatch(mem, start, ziv, end, max, length, matched)
    ensures start <= matched < ziv && 3 <= length <= max && ziv + length <= end <= |mem|
    ensures mem[ziv..ziv + length] == mem[matched..matched + length]
  {
  }

  datatype Engine = Standard | Maximum

  /** What the hash table holds: for each index the two positions seen last. It is never
      cleared, so that they may be any positions at all. */
  type Positions = s: seq<int> | |s| == 4096 witness seq(4096, _ => 0)

  datatype Table = Table(first: Positions, second: Positions)

  /** A search's result: a length, zero for none, the position that was found, and the table. */
  datatype Found = Found(length: nat, at: int, table: Table)

  datatype Best = Best(length: nat, at: nat)

  /** The longest run of all positions before q, the last one if there are several. */
  function Longest(mem: seq<byte>, start: nat, q: nat, ziv: nat, max: nat, end: nat): Best
    requires start <= q <= ziv <= end <= |mem|
  {
    if q == start then Best(0, start)
    else
      var best := Longest(mem, start, q - 1, ziv, max, end);
      var r := RunLength(mem, q - 1, ziv, 0, max, end);
      if r >= best.length then Best(r, q - 1) else best
  }

  lemma {:induction false} LongestIs(mem: seq<byte>, start: nat, q: nat, ziv: nat, max: nat, end: nat)
    requires start < q <= ziv <= end <= |mem|
    ensures var f := Longest(mem, start, q, ziv, max, end);
            && start <= f.at < q && f.length == RunLength(mem, f.at, ziv, 0, max, end)
            && (forall p :: start <= p < q ==> RunLength(mem, p, ziv, 0, max, end) <= f.length)
            && (forall p :: f.at < p < q ==> RunLength(mem, p, ziv, 0, max, end) < f.length)
    decreases q
  {
    hide RunLength;
    if q > start + 1 {
      LongestIs(mem, start, q - 1, ziv, max, end);
    } else {
      assert Longest(mem, start, start, ziv, max, end).length == 0;
    }
  }

  /** What one of the two table entries offers: nothing, unless it is within the buffer before
      ziv and three bytes agree. */
  function Offered(mem: seq<byte>, start: nat, ziv: nat, end: nat, max: nat, entry: int): nat
    requires start <= ziv && ziv + 3 <= end <= |mem|
  {
    if start <= entry < ziv && mem[entry] == mem[ziv] && mem[entry + 1] == mem[ziv + 1]
       && mem[entry + 2] == mem[ziv + 2]
    then RunLength(mem, entry, ziv, 3, max, end)
    else 0
  }

  /** The table index for the three bytes at a position. */
  function HashIndex(a: byte, b: byte, c: byte): (r: nat)
    ensures r < 4096
  {
    (40543 * BitXor(16, BitXor(16, a * 16, b) * 16, c)) / 16 % 4096
  }

  lemma HashKnownAnswers()
    ensures HashIndex(0, 0, 1) == 2533 && HashIndex(0, 1, 0) == 3679 && HashIndex(1, 0, 0) == 1520
    ensures HashIndex(1, 16, 0) == 0 && HashIndex(0, 1, 16) == 0
  {
    hide BitXor;
    KnownXors();
  }

  lemma KnownXors()
    ensures BitXor(16, 0, 0) == 0 && BitXor(16, 0, 1) == 1
    ensures BitXor(16, 16, 0) == 16 && BitXor(16, 256, 0) == 256
    ensures BitXor(16, 0, 16) == 16 && BitXor(16, 16, 16) == 0
  {
    hide BitXor, Pow2;
    WordPowers();
    XorZeroWord(16, 0);
    XorZeroWord(16, 16);
    XorZeroWord(16, 256);
    XorSelfWord(16, 16);
    XorSymmetric(16, 0, 16);
    XorZeroWord(16, 1);
    XorSymmetric(16, 0, 1);
  }

  function IndexAt(mem: seq<byte>, ziv: nat): (r: nat)
    requires ziv + 3 <= |mem|
    ensures r < 4096
  {
    HashIndex(mem[ziv], mem[ziv + 1], mem[ziv + 2])
  }

  /** The longer of the two candidates, and the table moved along. */
  function StandardMatch(mem: seq<byte>, start: nat, ziv: nat, end: nat, max: nat, t: Table): Found
    requires start <= ziv && ziv + 3 <= end <= |mem|
  {
    var index := IndexAt(mem, ziv);
    var first, second := t.first[index], t.second[index];
    var next := Table(t.first[index := ziv], t.second[index := first]);
    if Offered(mem, start, ziv, end, max, first) >= Offered(mem, start, ziv, end, max, second)
    then Found(Offered(mem, start, ziv, end, max, first), first, next)
    else Found(Offered(mem, start, ziv, end, max, second), second, next)
  }

  function MaximumMatch(mem: seq<byte>, start: nat, ziv: nat, end: nat, max: nat, t: Table): Found
    requires start <= ziv && ziv + 3 <= end <= |mem|
  {
    var f := Longest(mem, start, ziv, ziv, max, end);
    Found(if f.length < 3 then 0 else f.length, f.at, t)
  }

  function Matched(engine: Engine, mem: seq<byte>, start: nat, ziv: nat, end: nat, max: nat, t: Table): Found
    requires start <= ziv && ziv + 3 <= end <= |mem|
  {
    match engine
    case Standard => StandardMatch(mem, start, ziv, end, max, t)
    case Maximum => MaximumMatch(mem, start, ziv, end, max, t)
  }

  lemma OfferedIsMatch(mem: seq<byte>, start: nat, ziv: nat, end: nat, max: nat, entry: int)
    requires start <= ziv && ziv + 3 <= end <= |mem| && max >= 3
    ensures var length := Offered(mem, start, ziv, end, max, entry);
            length != 0 ==> IsMatch(mem, start, ziv, end, max, length, entry)
  {
    hide RunLength;
    if Offered(mem, start, ziv, end, max, entry) != 0 {
      assert mem[ziv..ziv + 3] == mem[entry..entry + 3];
      RunLengthAgrees(mem, entry, ziv, 3, max, end);
    }
  }

  /** Comparing three bytes and then running on from there is running from the start, where the
      run is long enough. */
  lemma OfferedIsRun(mem: seq<byte>, start: nat, ziv: nat, end: nat, max: nat, entry: int)
    requires start <= ziv && ziv + 3 <= end <= |mem| && max >= 3
    ensures Offered(mem, start, ziv, end, max, entry)
         == if start <= entry < ziv && RunLength(mem, entry, ziv, 0, max, end) >= 3
            then RunLength(mem, entry, ziv, 0, max, end) else 0
  {
    hide RunLength;
    if start <= entry < ziv {
      RunStep(mem, entry, ziv, 0, max, end);
      RunStep(mem, entry, ziv, 1, max, end);
      RunStep(mem, entry, ziv, 2, max, end);
      RunAtLeast(mem, entry, ziv, 3, max, end);
    }
  }

  lemma RunStep(mem: seq<byte>, q: nat, ziv: nat, i: nat, max: nat, end: nat)
    requires q <= ziv && ziv + i < end <= |mem| && i < max
    ensures RunLength(mem, q, ziv, i, max, end)
         == if mem[ziv + i] == mem[q + i] then RunLength(mem, q, ziv, i + 1, max, end) else i
  {
  }

  lemma {:induction false} RunAtLeast(mem: seq<byte>, q: nat, ziv: nat, i: nat, max: nat, end: nat)
    requires q <= ziv <= end <= |mem|
    ensures RunLength(mem, q, ziv, i, max, end) >= i
    decreases max - i
  {
    if i < max && ziv + i < end && mem[ziv + i] == mem[q + i] { RunAtLeast(mem, q, ziv, i + 1, max, end); }
  }

  /** The standard search takes the longer run of the two positions seen last with the same index,
      the later seen one if they are equal, and leaves the position itself as seen last. */
  lemma StandardMatchIs(mem: seq<byte>, start: nat, ziv: nat, end: nat, max: nat, t: Table)
    requires start <= ziv && ziv + 3 <= end <= |mem| && max >= 3
    ensures var f := StandardMatch(mem, start, ziv, end, max, t);
            var index := HashIndex(mem[ziv], mem[ziv + 1], mem[ziv + 2]);
            var seen := [t.first[index], t.second[index]];
            && f.table.first == t.first[index := ziv] && f.table.second == t.second[index := seen[0]]
            && (f.length != 0 ==>
                  start <= f.at < ziv && f.at in seen && f.length == RunLength(mem, f.at, ziv, 0, max, end) >= 3)
            && (forall k :: 0 <= k < 2 && start <= seen[k] < ziv && RunLength(mem, seen[k], ziv, 0, max, end) >= 3 ==>
                  RunLength(mem, seen[k], ziv, 0, max, end) <= f.length)
            && (f.length != 0 && f.at != seen[0] && start <= seen[0] < ziv ==>
                  RunLength(mem, seen[0], ziv, 0, max, end) < f.length)
  {
    hide RunLength, Offered, HashIndex;
    var index := IndexAt(mem, ziv);
    OfferedIsRun(mem, start, ziv, end, max, t.first[index]);
    OfferedIsRun(mem, start, ziv, end, max, t.second[index]);
  }

  /** Whatever either search finds is a match. */
  lemma MatchedIsMatch(engine: Engine, mem: seq<byte>, start: nat, ziv: nat, end: nat, max: nat, t: Table)
    requires start <= ziv && ziv + 3 <= end <= |mem| && max >= 3
    ensures var f := Matched(engine, mem, start, ziv, end, max, t);
            f.length != 0 ==> IsMatch(mem, start, ziv, end, max, f.length, f.at)
  {
    hide RunLength, Longest, Offered, IndexAt, IsMatch;
    match engine
    case Standard =>
      var index := IndexAt(mem, ziv);
      OfferedIsMatch(mem, start, ziv, end, max, t.first[index]);
      OfferedIsMatch(mem, start, ziv, end, max, t.second[index]);
    case Maximum =>
      var f := Longest(mem, start, ziv, ziv, max, end);
      if ziv > start {
        LongestIs(mem, start, ziv, ziv, max, end);
        RunIsMatch(mem, start, ziv, end, max, f.at);
      } else {
        NothingBefore(mem, start, ziv, max, end);
      }
  }

  lemma RunIsMatch(mem: seq<byte>, start: nat, ziv: nat, end: nat, max: nat, at: nat)
    requires start <= at < ziv <= end <= |mem|
    ensures var r := RunLength(mem, at, ziv, 0, max, end);
            r >= 3 ==> IsMatch(mem, start, ziv, end, max, r, at)
  {
    hide RunLength;
    RunLengthAgrees(mem, at, ziv, 0, max, end);
  }

  lemma NothingBefore(mem: seq<byte>, start: nat, ziv: nat, max: nat, end: nat)
    requires start == ziv <= end <= |mem|
    ensures Longest(mem, start, ziv, ziv, max, end).length == 0
  {
  }

  /** The compressor's workspace: where the last match was found, and the hash table. */
  class Workspace {
    var matchedString: int
    const first: array<int>
    const second: array<int>

    constructor ()
      ensures fresh(first) && fresh(second) && Valid()
    {
      matchedString := 0;
      first := new int[4096];
      second := new int[4096];
    }

    ghost predicate Valid() {
      first.Length == 4096 && second.Length == 4096 && first != second
    }

    ghost function Value(): Table
      requires Valid()
      reads first, second
    {
      Table(first[..], second[..])
    }
  }

  /** The inner loop of both searches. */
  method Run(mem: array<byte>, q: nat, ziv: nat, from: nat, max: nat, end: nat) returns (i: nat)
    requires q < ziv <= end <= mem.Length && from <= max && ziv + from <= end
    ensures i == RunLength(mem[..], q, ziv, from, max, end)
  {
    i := from;
    while i < max && ziv + i < end && mem[ziv + i] == mem[q + i]
      invariant from <= i <= max && ziv + i <= end
      invariant RunLength(mem[..], q, ziv, from, max, end) == RunLength(mem[..], q, ziv, i, max, end)
    {
      i := i + 1;
    }
  }

  /** LZNT1FindMatchMaximum */
  method FindMatchMaximum(mem: array<byte>, start: nat, ziv: nat, end: nat, max: nat, ws: Workspace)
    returns (length: nat)
    requires start <= ziv && ziv + 3 <= end <= mem.Length && ws.Valid()
    modifies ws`matchedString
    ensures var f := MaximumMatch(mem[..], start, ziv, end, max, ws.Value());
            length == f.length && (length != 0 ==> ws.matchedString == f.at)
  {
    hide RunLength;
    var best := 0;
    var q := start;
    while q < ziv
      invariant start <= q <= ziv
      invariant var f := Longest(mem[..], start, q, ziv, max, end);
                best == f.length && (q > start ==> ws.matchedString == f.at)
    {
      var i := Run(mem, q, ziv, 0, max, end);
      if i >= best {
        best := i;
        ws.matchedString := q;
      }
      q := q + 1;
    }
    if best < 3 {
      return 0;
    }
    return best;
  }

  /** One of the two table entries. */
  method Candidate(mem: array<byte>, start: nat, ziv: nat, end: nat, max: nat, entry: int) returns (length: nat)
    requires start <= ziv && ziv + 3 <= end <= mem.Length && max >= 3
    ensures length == Offered(mem[..], start, ziv, end, max, entry)
  {
    hide RunLength;
    length := 0;
    if start <= entry < ziv && mem[entry] == mem[ziv] && mem[entry + 1] == mem[ziv + 1]
       && mem[entry + 2] == mem[ziv + 2] {
      length := Run(mem, entry, ziv, 3, max, end);
    }
  }

  /** LZNT1FindMatchStandard */
  method FindMatchStandard(mem: array<byte>, start: nat, ziv: nat, end: nat, max: nat, ws: Workspace)
    returns (length: nat)
    requires start <= ziv && ziv + 3 <= end <= mem.Length && max >= 3 && ws.Valid()
    modifies ws, ws.first, ws.second
    ensures Found(length, ws.matchedString, ws.Value())
         == StandardMatch(mem[..], start, ziv, end, max, old(ws.Value()))
  {
    hide Offered, HashIndex;
    var index := HashIndex(mem[ziv], mem[ziv + 1], mem[ziv + 2]);
    assert index == IndexAt(mem[..], ziv);
    var firstEntry, secondEntry := ws.first[index], ws.second[index];
    var firstLength := Candidate(mem, start, ziv, end, max, firstEntry);
    var secondLength := Candidate(mem, start, ziv, end, max, secondEntry);
    ws.second[index] := firstEntry;
    ws.first[index] := ziv;
    if firstLength >= secondLength {
      ws.matchedString := firstEntry;
      length := firstLength;
    } else {
      ws.matchedString := secondEntry;
      length := secondLength;
    }
  }

  method FindMatch(engine: Engine, mem: array<byte>, start: nat, ziv: nat, end: nat, max: nat, ws: Workspace)
    returns (length: nat)
    requires start <= ziv && ziv + 3 <= end <= mem.Length && max >= 3 && ws.Valid()
    modifies ws, ws.first, ws.second
    ensures var f := Matched(engine, mem[..], start, ziv, end, max, old(ws.Value()));
            length == f.length && (length != 0 ==> ws.matchedString == f.at) && ws.Value() == f.table
  {
    hide StandardMatch;
    match engine
    case Standard => length := FindMatchStandard(mem, start, ziv, end, max, ws);
    case Maximum => length := FindMatchMaximum(mem, start, ziv, end, max, ws);
  }

  /** Copying from a match's displacement puts out the bytes at ziv, also where the two overlap. */
  lemma {:induction false} MatchCopies(mem: seq<byte>, start: nat, ziv: nat, length: nat, matched: nat)
    requires start <= matched < ziv && ziv + length <= |mem|
    requires mem[ziv..ziv + length] == mem[matched..matched + length]
    ensures Copied(mem[start..ziv], length, ziv - matched) == mem[start..ziv + length]
    decreases length
  {
    hide Copied;
    var out := mem[start..ziv];
    CopiedStep(out, length, ziv - matched);
    if length > 0 {
      SliceHead(mem, ziv, ziv + length);
      SliceHead(mem, matched, matched + length);
      SliceSnoc(mem, start, ziv - start);
      assert out[matched - start] == mem[matched] == mem[ziv];
      assert |out| - (ziv - matched) == matched - start;
      MatchCopies(mem, start, ziv + 1, length - 1, matched + 1);
    }
  }

  // ----- Writing groups -----

  /** Where the compressor writes: behind the last byte, at the group's flag byte, and the
      flags collected for it. */
  datatype Cursor = Cursor(output: nat, flagPointer: nat, flags: nat)

  /** The part of the buffer from `at` on holds the encoding of the finished groups, a byte kept
      free for the flags of the current group, and that group's tokens. The free byte may lie
      behind the end of the buffer as long as the group is empty. */
  ghost predicate Writing(d: seq<byte>, at: nat, end: nat, c: Cursor, done: seq<Token>, cur: seq<Token>)
  {
    && Valid([], done) && Valid(Expanded([], done), cur)
    && |done| % 8 == 0 && |cur| <= 8 && end <= |d|
    && c.flags == Flags(cur)
    && c.flagPointer == at + |Encoded([], done)|
    && (done != [] ==> c.flagPointer <= end && d[at..c.flagPointer] == Encoded([], done))
    && c.output == c.flagPointer + 1 + |Payload(Expanded([], done), cur)|
    && (cur != [] ==> c.output <= end && d[c.flagPointer + 1..c.output] == Payload(Expanded([], done), cur))
  }

  /** One more token of the current group. */
  lemma WritingToken(d: seq<byte>, at: nat, end: nat, c: Cursor, done: seq<Token>, cur: seq<Token>, t: Token)
    requires Writing(d, at, end, c, done, cur) && |cur| < 8
    requires Valid([], done) && Valid(Expanded([], done), cur)
    requires var out := Expanded(Expanded([], done), cur);
             |out| < MAX_CHUNK && Fitting(out, t) && c.output + |TokenBytes(out, t)| <= end
    ensures var tb := TokenBytes(Expanded(Expanded([], done), cur), t);
            Writing(Stored(d, c.output, tb), at, end,
                    Cursor(c.output + |tb|, c.flagPointer, c.flags + if t.Copy? then Pow2(|cur|) else 0),
                    done, cur + [t])
  {
    hide Fitting, Encoded, Flags, Valid, Payload, Expanded, Pow2, Stored, TokenBytes;
    var base := Expanded([], done);
    var tb := TokenBytes(Expanded(base, cur), t);
    var d' := Stored(d, c.output, tb);
    ValidSnoc(base, cur, t);
    FlagsSnoc(cur, t);
    StoredBefore(d, c.output, tb, c.flagPointer + 1, c.output);
    StoredAfter(d, c.output, tb, c.flagPointer + 1);
    if done != [] { StoredBefore(d, c.output, tb, at, c.flagPointer); }
    if cur == [] { EmptyPayload(base); }
    assert |d'| == |d|;
  }

  lemma StoredBefore(d: seq<byte>, at: nat, bytes: seq<byte>, i: nat, j: nat)
    requires at + |bytes| <= |d| && i <= j <= at
    ensures Stored(d, at, bytes)[i..j] == d[i..j]
  {
  }

  lemma StoredAfter(d: seq<byte>, at: nat, bytes: seq<byte>, i: nat)
    requires at + |bytes| <= |d| && i <= at
    ensures Stored(d, at, bytes)[i..at + |bytes|] == d[i..at] + bytes
  {
  }

  lemma EmptyPayload(out: seq<byte>)
    ensures Valid(out, []) && Payload(out, []) == [] && Expanded(out, []) == out
  {
  }

  /** The first group of an encoding, and the rest. */
  lemma EncodedStep(out: seq<byte>, ts: seq<Token>)
    requires Valid(out, ts) && ts != []
    ensures var g, more := ts[..GroupSize(ts)], ts[GroupSize(ts)..];
            && Valid(out, g) && Valid(Expanded(out, g), more)
            && Encoded(out, ts) == GroupFlags(g) + Payload(out, g) + Encoded(Expanded(out, g), more)
  {
    hide Valid, Expanded, Payload, GroupFlags;
    ValidSplit(out, ts, GroupSize(ts));
  }

  /** A flag byte stands before every eight tokens, and before the last ones if they are fewer. */
  lemma EncodedLayout(out: seq<byte>, ts: seq<Token>)
    requires Valid(out, ts) && ts != []
    ensures var n := if |ts| <= 8 then |ts| else 8;
            var e := Encoded(out, ts);
            && Valid(out, ts[..n]) && Valid(Expanded(out, ts[..n]), ts[n..])
            && |e| > 0 && e[0] == Flags(ts[..n])
            && e[1..] == Payload(out, ts[..n]) + Encoded(Expanded(out, ts[..n]), ts[n..])
  {
    hide Valid, Expanded, Payload, Encoded, Flags;
    EncodedStep(out, ts);
  }

  /** Groups before the last are encoded on their own. */
  lemma {:induction false} EncodedGroup(out: seq<byte>, done: seq<Token>, cur: seq<Token>)
    requires Valid(out, done) && Valid(Expanded(out, done), cur) && |done| % 8 == 0 && 0 < |cur| <= 8
    ensures Valid(out, done + cur)
    ensures Expanded(out, done + cur) == Expanded(Expanded(out, done), cur)
    ensures Encoded(out, done + cur) == Encoded(out, done) + (GroupFlags(cur) + Payload(Expanded(out, done), cur))
    decreases |done|
  {
    hide Valid, Expanded, Payload, GroupFlags, Encoded;
    ValidJoin(out, done, cur);
    EncodedStep(out, done + cur);
    if done == [] {
      assert [] + cur == cur && cur[..|cur|] == cur && cur[|cur|..] == [];
      EmptyPayload(out);
      NothingBehind(out);
      NothingBehind(Expanded(out, cur));
    } else {
      var g, more := done[..8], done[8..];
      EncodedStep(out, done);
      ValidSplit(out, done, 8);
      EncodedGroup(Expanded(out, g), more, cur);
      assert (done + cur)[..8] == g && (done + cur)[8..] == more + cur;
    }
  }

  lemma NothingBehind(out: seq<byte>)
    ensures Valid(out, []) && Encoded(out, []) == []
  {
  }

  lemma {:induction false} ValidJoin(out: seq<byte>, a: seq<Token>, b: seq<Token>)
    requires Valid(out, a) && Valid(Expanded(out, a), b)
    ensures Valid(out, a + b) && Expanded(out, a + b) == Expanded(Expanded(out, a), b)
    decreases |a|
  {
    hide Fitting, Extended;
    if a == [] {
      assert a + b == b;
    } else {
      assert (a + b)[1..] == a[1..] + b;
      ValidJoin(Extended(out, a[0]), a[1..], b);
    }
  }

  /** Storing the flags completes the current group. */
  lemma WritingFlags(d: seq<byte>, at: nat, end: nat, c: Cursor, done: seq<Token>, cur: seq<Token>)
    requires Writing(d, at, end, c, done, cur) && cur != []
    ensures c.flagPointer < end && c.flags < 256 && c.output <= end && at <= c.flagPointer
    ensures Valid([], done + cur)
    ensures d[c.flagPointer := c.flags][at..c.output] == Encoded([], done + cur)
  {
    hide Encoded, Flags, Valid, Payload, Expanded;
    var base := Expanded([], done);
    EncodedGroup([], done, cur);
    FlagByteOf(cur);
    var d' := d[c.flagPointer := c.flags];
    if done == [] {
      NothingBehind([]);
    } else {
      assert d'[at..c.flagPointer] == d[at..c.flagPointer];
    }
    assert d'[c.flagPointer + 1..c.output] == d[c.flagPointer + 1..c.output];
    assert d'[at..c.output] == d'[at..c.flagPointer] + ([c.flags] + d'[c.flagPointer + 1..c.output]);
  }

  lemma FlagByteOf(g: seq<Token>)
    requires |g| <= 8
    ensures GroupFlags(g) == [Flags(g)] && Flags(g) < 256
  {
    assert GroupFlags(g)[0] == Flags(g);
  }

  /** After a group of eight the next byte is kept free for the next group's flags. */
  lemma WritingNextGroup(d: seq<byte>, at: nat, end: nat, c: Cursor, done: seq<Token>, cur: seq<Token>)
    requires Writing(d, at, end, c, done, cur) && |cur| == 8
    ensures c.flagPointer < end && c.flags < 256
    ensures Writing(d[c.flagPointer := c.flags], at, end, Cursor(c.output + 1, c.output, 0), done + cur, [])
  {
    hide Encoded, Payload, Expanded;
    WritingFlags(d, at, end, c, done, cur);
    EmptyPayload(Expanded([], done + cur));
    assert |d[c.flagPointer := c.flags][at..c.output]| == |Encoded([], done + cur)|;
  }
}
