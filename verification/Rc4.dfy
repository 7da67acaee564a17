/** The RC4 stream cipher behind XcRC4Key and XcRC4Crypt: a table of 256 bytes that is
    shuffled in place, and one key-stream byte for each byte of the caller's buffer. */
module Rc4 {
  import opened Bytes
  import opened Streams

  const TABLE_SIZE := 256

  type Table = s: seq<byte> | |s| == TABLE_SIZE witness Zeros(TABLE_SIZE)

  /** The value of a key structure: the table and its two indices. */
  datatype State = State(S: Table, i: byte, j: byte)

  // ----- What the table is: a permutation of 0..255 -----

  /** 256 entries, no two of them equal. */
  ghost predicate IsPermutation(S: Table) {
    forall a, b :: 0 <= a < b < TABLE_SIZE ==> S[a] != S[b]
  }

  /** The values of the first n entries. */
  function Entries(S: seq<byte>, n: nat): (r: set<int>)
    requires n <= |S|
    ensures forall v :: v in r <==> exists k :: 0 <= k < n && S[k] == v
  {
    if n == 0 then {} else Entries(S, n - 1) + {S[n - 1]}
  }

  lemma {:induction false} EntriesSize(S: Table, n: nat)
    requires IsPermutation(S) && n <= TABLE_SIZE
    ensures |Entries(S, n)| == n
  {
    hide IsPermutation;
    if n > 0 {
      EntriesSize(S, n - 1);
      NotEarlier(S, n);
      var earlier := Entries(S, n - 1);
      assert |earlier + {S[n - 1]}| == |earlier| + 1;
    }
  }

  lemma NotEarlier(S: Table, n: nat)
    requires IsPermutation(S) && 0 < n <= TABLE_SIZE
    ensures S[n - 1] !in Entries(S, n - 1)
  {
    hide Entries;
  }

  /** A set of numbers below n has at most n members, and n only when it has them all. */
  lemma {:induction false} BelowIsSmall(s: set<int>, n: nat)
    requires forall v :: v in s ==> 0 <= v < n
    ensures |s| <= n
    ensures |s| == n ==> forall v :: 0 <= v < n ==> v in s
  {
    if n == 0 {
      assert forall v :: v !in s;
      assert |s| == 0;
    } else {
      BelowIsSmall(s - {n - 1}, n - 1);
      assert s <= (s - {n - 1}) + {n - 1};
      if n - 1 !in s {
        assert s - {n - 1} == s;
      } else {
        assert |s - {n - 1}| == |s| - 1;
        forall v | |s| == n && 0 <= v < n
          ensures v in s
        {
          assert v == n - 1 || v in s - {n - 1};
        }
      }
    }
  }

  /** A table without repeats holds every byte value. */
  lemma PermutationHoldsEveryValue(S: Table, v: byte)
    requires IsPermutation(S)
    ensures v in S
  {
    EntriesSize(S, TABLE_SIZE);
    BelowIsSmall(Entries(S, TABLE_SIZE), TABLE_SIZE);
    assert v in Entries(S, TABLE_SIZE);
  }

  function Swapped(S: Table, a: nat, b: nat): Table
    requires a < TABLE_SIZE && b < TABLE_SIZE
  {
    S[a := S[b]][b := S[a]]
  }

  /** The shuffle's only write, an exchange, keeps the table a permutation. */
  lemma SwapKeepsPermutation(S: Table, a: nat, b: nat)
    requires IsPermutation(S) && a < TABLE_SIZE && b < TABLE_SIZE
    ensures IsPermutation(Swapped(S, a, b))
  {
    var T := Swapped(S, a, b);
    forall x, y | 0 <= x < y < TABLE_SIZE
      ensures T[x] != T[y]
    {
      var x' := if x == a then b else if x == b then a else x;
      var y' := if y == a then b else if y == b then a else y;
      assert T[x] == S[x'] && T[y] == S[y'];
    }
  }

  // ----- Key set-up -----

  function Identity(): Table {
    seq(TABLE_SIZE, k requires 0 <= k < TABLE_SIZE => k)
  }

  /** The state after n steps of key set-up. */
  function Scheduled(key: seq<byte>, n: nat): State
    requires |key| > 0 && n <= TABLE_SIZE
  {
    if n == 0 then State(Identity(), 0, 0)
    else
      var p := Scheduled(key, n - 1);
      var j := (p.j + p.S[n - 1] + key[(n - 1) % |key|]) % 256;
      State(Swapped(p.S, n - 1, j), 0, j)
  }

  /** What XcRC4Key leaves in the key structure. */
  function KeyState(key: seq<byte>): State
    requires |key| > 0
  {
    State(Scheduled(key, TABLE_SIZE).S, 0, 0)
  }

  lemma {:induction false} ScheduledIsPermutation(key: seq<byte>, n: nat)
    requires |key| > 0 && n <= TABLE_SIZE
    ensures IsPermutation(Scheduled(key, n).S)
  {
    if n > 0 {
      ScheduledIsPermutation(key, n - 1);
      SwapKeepsPermutation(Scheduled(key, n - 1).S, n - 1, Scheduled(key, n).j);
    }
  }

  /** Key set-up ends in a permutation of 0..255 whatever the key. */
  lemma KeyStateIsPermutation(key: seq<byte>)
    requires |key| > 0
    ensures IsPermutation(KeyState(key).S)
  {
    ScheduledIsPermutation(key, TABLE_SIZE);
  }

  // ----- Key set-up against the published algorithm -----

  /** Two entries have changed places, and nothing else has. */
  ghost predicate Exchanged(S: Table, T: Table, a: nat, b: nat)
    requires a < TABLE_SIZE && b < TABLE_SIZE
  {
    T[a] == S[b] && T[b] == S[a] && forall k :: 0 <= k < TABLE_SIZE && k != a && k != b ==> T[k] == S[k]
  }

  lemma ExchangedIs(S: Table, T: Table, a: nat, b: nat)
    requires a < TABLE_SIZE && b < TABLE_SIZE
    ensures Exchanged(S, T, a, b) <==> T == Swapped(S, a, b)
  {
  }

  /** What each step of key set-up makes of the index: the key's bytes come in, one by one. */
  lemma KeyComesIn(key: seq<byte>, n: nat)
    requires |key| > 0 && n < TABLE_SIZE
    ensures Scheduled(key, n + 1).j == (Scheduled(key, n).j as int + Scheduled(key, n).S[n] + key[n % |key|]) % 256
    ensures Exchanged(Scheduled(key, n).S, Scheduled(key, n + 1).S, n, Scheduled(key, n + 1).j)
  {
    hide Exchanged, Swapped;
    var p, q := Scheduled(key, n), Scheduled(key, n + 1);
    ExchangedIs(p.S, q.S, n, q.j);
  }

  /** RC4 as it is published: any run of states that starts with the table in order and obeys the
      rule of its 256 steps ends in the table that key set-up leaves. */
  lemma SetUpIsPublished(key: seq<byte>, run: seq<State>)
    requires |key| > 0 && |run| == 257
    requires run[0].j == 0 && forall k :: 0 <= k < 256 ==> run[0].S[k] == k
    requires forall n :: 0 <= n < 256 ==>
               && run[n + 1].j == (run[n].j as int + run[n].S[n] + key[n % |key|]) % 256
               && Exchanged(run[n].S, run[n + 1].S, n, run[n + 1].j)
    ensures KeyState(key) == State(run[256].S, 0, 0)
  {
    hide Exchanged, Scheduled;
    RunOfSetUp(key, run, 256);
  }

  lemma {:induction false} RunOfSetUp(key: seq<byte>, run: seq<State>, n: nat)
    requires |key| > 0 && n <= 256 && |run| == 257
    requires run[0].j == 0 && forall k :: 0 <= k < 256 ==> run[0].S[k] == k
    requires forall m :: 0 <= m < 256 ==>
               && run[m + 1].j == (run[m].j as int + run[m].S[m] + key[m % |key|]) % 256
               && Exchanged(run[m].S, run[m + 1].S, m, run[m + 1].j)
    ensures run[n].S == Scheduled(key, n).S && run[n].j == Scheduled(key, n).j
  {
    hide Exchanged, Swapped, Scheduled;
    if n == 0 {
      SetUpStarts(key, run[0].S);
    } else {
      var m := n - 1;
      RunOfSetUp(key, run, m);
      KeyComesIn(key, m);
      assert Exchanged(run[m].S, run[m + 1].S, m, run[m + 1].j);
      ExchangedIs(run[m].S, run[m + 1].S, m, run[m + 1].j);
      ExchangedIs(run[m].S, Scheduled(key, n).S, m, run[m + 1].j);
    }
  }

  lemma SetUpStarts(key: seq<byte>, S: Table)
    requires |key| > 0 && forall k :: 0 <= k < 256 ==> S[k] == k
    ensures S == Scheduled(key, 0).S && Scheduled(key, 0).j == 0
  {
  }

  /** Nothing of the key is lost on the way: two keys of one length, of at most 256 bytes, that
      go through the same states are the same key. */
  lemma SameSetUpSameKey(k1: seq<byte>, k2: seq<byte>)
    requires 0 < |k1| == |k2| <= TABLE_SIZE
    requires forall n :: 0 <= n <= TABLE_SIZE ==> Scheduled(k1, n) == Scheduled(k2, n)
    ensures k1 == k2
  {
    hide Scheduled, Exchanged;
    forall n | 0 <= n < |k1|
      ensures k1[n] == k2[n]
    {
      SameByte(k1, k2, n);
    }
  }

  lemma SameByte(k1: seq<byte>, k2: seq<byte>, n: nat)
    requires n < |k1| == |k2| <= TABLE_SIZE
    requires Scheduled(k1, n) == Scheduled(k2, n) && Scheduled(k1, n + 1) == Scheduled(k2, n + 1)
    ensures k1[n] == k2[n]
  {
    hide Scheduled, Exchanged;
    KeyComesIn(k1, n);
    KeyComesIn(k2, n);
    WithinIs(n, |k1|);
    SumsDiffer(Scheduled(k1, n).j as int + Scheduled(k1, n).S[n], k1[n], k2[n]);
  }

  lemma WithinIs(n: nat, length: nat)
    requires n < length
    ensures n % length == n
  {
  }

  lemma SumsDiffer(sum: nat, a: byte, b: byte)
    requires (sum + a) % 256 == (sum + b) % 256
    ensures a == b
  {
  }

  // ----- Output -----

  /** One output step: move both indices, exchange the two entries. */
  function Next(s: State): State {
    var i := (s.i + 1) % 256;
    var j := (s.j + s.S[i]) % 256;
    State(Swapped(s.S, i, j), i, j)
  }

  /** The key-stream byte a state shows after its step. */
  function Shown(s: State): byte {
    s.S[(s.S[s.i] as int + s.S[s.j]) % 256]
  }

  /** The state after n output steps. */
  function After(s: State, n: nat): State {
    Run(Next, s, n)
  }

  /** The n bytes that n output steps show. */
  function KeyStream(s: State, n: nat): (r: seq<byte>)
    ensures |r| == n
  {
    Emitted(Next, Shown, s, n)
  }

  lemma NextKeepsPermutation(s: State)
    requires IsPermutation(s.S)
    ensures IsPermutation(Next(s).S)
  {
    var i := (s.i + 1) % 256;
    SwapKeepsPermutation(s.S, i, (s.j + s.S[i]) % 256);
  }

  /** The table is a permutation after any number of output steps. */
  lemma {:induction false} AfterIsPermutation(s: State, n: nat)
    requires IsPermutation(s.S)
    ensures IsPermutation(After(s, n).S)
  {
    if n > 0 {
      AfterIsPermutation(s, n - 1);
      NextKeepsPermutation(After(s, n - 1));
    }
  }

  /** At every step of every key's output the table holds every byte value. */
  lemma TableStaysComplete(key: seq<byte>, n: nat, v: byte)
    requires |key| > 0
    ensures v in After(KeyState(key), n).S
  {
    KeyStateIsPermutation(key);
    AfterIsPermutation(KeyState(key), n);
    PermutationHoldsEveryValue(After(KeyState(key), n).S, v);
  }

  /** Two calls in a row show what one call of the joint length shows. */
  lemma KeyStreamContinues(s: State, m: nat, n: nat)
    ensures KeyStream(s, m + n) == KeyStream(s, m) + KeyStream(After(s, m), n)
  {
    EmittedContinues(Next, Shown, s, m, n);
  }

  /** Output as it is published: any run of states that obeys the rule of the output step passes
      through the states that After gives, and shows the bytes of the key stream. */
  lemma OutputIsPublished(run: seq<State>, n: nat)
    requires |run| == n + 1
    requires forall k :: 0 <= k < n ==>
               && run[k + 1].i == (run[k].i as int + 1) % 256
               && run[k + 1].j == (run[k].j as int + run[k].S[run[k + 1].i]) % 256
               && Exchanged(run[k].S, run[k + 1].S, run[k + 1].i, run[k + 1].j)
    ensures After(run[0], n) == run[n]
    ensures forall k :: 0 <= k < n ==>
              KeyStream(run[0], n)[k]
              == run[k + 1].S[(run[k + 1].S[run[k + 1].i] as int + run[k + 1].S[run[k + 1].j]) % 256]
  {
    hide Exchanged, Next, KeyStream, After;
    forall k | 0 <= k < n
      ensures run[k + 1] == Next(run[k])
    {
      NextIsPublished(run[k], run[k + 1]);
    }
    RunOfOutput(run, n);
  }

  lemma NextIsPublished(s: State, t: State)
    requires t.i == (s.i as int + 1) % 256 && t.j == (s.j as int + s.S[t.i]) % 256 && Exchanged(s.S, t.S, t.i, t.j)
    ensures t == Next(s)
  {
    hide Exchanged, Swapped;
    ExchangedIs(s.S, t.S, t.i, t.j);
  }

  lemma {:induction false} RunOfOutput(run: seq<State>, n: nat)
    requires n < |run| && forall k :: 0 <= k < n ==> run[k + 1] == Next(run[k])
    ensures After(run[0], n) == run[n]
    ensures forall k :: 0 <= k < n ==> KeyStream(run[0], n)[k] == Shown(run[k + 1])
    decreases n
  {
    hide Next, Shown, KeyStream, After;
    if n > 0 {
      RunOfOutput(run, n - 1);
      OneMore(run[0], n - 1);
      assert run[n - 1 + 1] == Next(run[n - 1]);
    } else {
      NoneShown(run[0]);
    }
  }

  lemma NoneShown(s: State)
    ensures After(s, 0) == s
  {
  }

  lemma OneMore(s: State, n: nat)
    ensures After(s, n + 1) == Next(After(s, n))
    ensures KeyStream(s, n + 1) == KeyStream(s, n) + [Shown(Next(After(s, n)))]
  {
    hide Next, Shown;
  }

  /** A buffer in which the bytes from index at on are masked with a key stream. */
  function Masked(buffer: seq<byte>, at: nat, stream: seq<byte>): (r: seq<byte>)
    requires at + |stream| <= |buffer|
    ensures |r| == |buffer|
  {
    buffer[..at] + Xor(buffer[at..at + |stream|], stream) + buffer[at + |stream|..]
  }

  lemma MaskedFromStart(buffer: seq<byte>, stream: seq<byte>)
    requires |stream| <= |buffer|
    ensures Masked(buffer, 0, stream) == Xor(buffer[..|stream|], stream) + buffer[|stream|..]
  {
  }

  /** What lies before, under and after the mask. */
  lemma MaskedParts(buffer: seq<byte>, at: nat, stream: seq<byte>)
    requires at + |stream| <= |buffer|
    ensures var end := at + |stream|;
            && Masked(buffer, at, stream)[..at] == buffer[..at]
            && Masked(buffer, at, stream)[at..end] == Xor(buffer[at..end], stream)
            && Masked(buffer, at, stream)[end..] == buffer[end..]
  {
  }

  /** Masking a stretch and then the next is masking both with the joined stream. */
  lemma MaskedTwice(buffer: seq<byte>, at: nat, first: seq<byte>, second: seq<byte>)
    requires at + |first| + |second| <= |buffer|
    ensures Masked(Masked(buffer, at, first), at + |first|, second) == Masked(buffer, at, first + second)
  {
    hide Xor;
    var mid, end := at + |first|, at + |first| + |second|;
    var once := Masked(buffer, at, first);
    MaskedParts(buffer, at, first);
    assert once[..mid] == buffer[..at] + Xor(buffer[at..mid], first);
    assert once[mid..end] == buffer[mid..end] by {
      assert once[mid..][..|second|] == buffer[mid..][..|second|];
    }
    assert once[end..] == buffer[end..] by {
      assert once[mid..][|second|..] == buffer[mid..][|second|..];
    }
    assert buffer[at..end] == buffer[at..mid] + buffer[mid..end];
    XorConcat(buffer[at..mid], buffer[mid..end], first, second);
  }

  lemma MaskedOneMore(buffer: seq<byte>, at: nat, stream: seq<byte>, k: byte)
    requires at + |stream| < |buffer|
    ensures var n := at + |stream|;
            && Masked(buffer, at, stream)[n] == buffer[n]
            && Masked(buffer, at, stream + [k]) == Masked(buffer, at, stream)[n := XorByte(buffer[n], k)]
  {
  }

  /** What XcRC4Crypt makes of a buffer under a freshly keyed structure. */
  function Crypt(key: seq<byte>, data: seq<byte>): (r: seq<byte>)
    requires |key| > 0
    ensures |r| == |data|
  {
    Xor(data, KeyStream(KeyState(key), |data|))
  }

  /** Each byte is masked with the byte of the key stream in its place. */
  lemma CryptByte(key: seq<byte>, data: seq<byte>, n: nat)
    requires |key| > 0 && n < |data|
    ensures Crypt(key, data)[n] == XorByte(data[n], KeyStream(KeyState(key), |data|)[n])
  {
  }

  /** With the same key, the second pass undoes the first, for every length. */
  lemma CryptTwice(key: seq<byte>, data: seq<byte>)
    requires |key| > 0
    ensures Crypt(key, Crypt(key, data)) == data
  {
    XorTwice(data, KeyStream(KeyState(key), |data|));
  }

  /** The key structure: a table shuffled in place and two indices. */
  class KeyStruct {
    const S: array<byte>
    var i: byte
    var j: byte

    ghost predicate Valid() {
      S.Length == TABLE_SIZE
    }

    constructor ()
      ensures fresh(S) && Valid()
    {
      S := new byte[TABLE_SIZE](_ => 0);
      i, j := 0, 0;
    }

    ghost function Value(): State
      requires Valid()
      reads this, S
    {
      State(S[..], i, j)
    }

    method ResetTable()
      requires Valid()
      modifies this, S
      ensures Value() == State(Identity(), 0, 0)
    {
      for k := 0 to TABLE_SIZE
        invariant forall m :: 0 <= m < k ==> S[m] == m
      {
        S[k] := k;
      }
      i, j := 0, 0;
      assert S[..] == Identity();
    }

    method Exchange(a: nat, b: nat)
      requires Valid() && a < TABLE_SIZE && b < TABLE_SIZE
      modifies S
      ensures S[..] == Swapped(old(S[..]), a, b)
    {
      S[a], S[b] := S[b], S[a];
    }

    /** XcRC4Key. Nothing of the previous state survives. */
    method SetKey(dwKeyLength: nat, pbKey: array<byte>)
      requires Valid() && pbKey != S
      requires 0 < dwKeyLength <= pbKey.Length
      modifies this, S
      ensures Value() == KeyState(pbKey[..dwKeyLength])
    {
      hide Swapped, Identity;
      ghost var key := pbKey[..dwKeyLength];
      ResetTable();
      for k := 0 to TABLE_SIZE
        invariant pbKey[..dwKeyLength] == key
        invariant i == 0 && Value() == Scheduled(key, k)
      {
        assert pbKey[k % dwKeyLength] == key[k % dwKeyLength];
        j := (j + S[k] + pbKey[k % dwKeyLength]) % 256;
        Exchange(k, j);
      }
      j := 0;
    }

    /** One output step of XcRC4Crypt. */
    method Step() returns (k: byte)
      requires Valid()
      modifies this, S
      ensures Value() == Next(old(Value())) && k == Shown(Value())
    {
      i := (i + 1) % 256;
      j := (j + S[i]) % 256;
      Exchange(i, j);
      k := S[(S[i] as int + S[j]) % 256];
    }

    /** XcRC4Crypt on the dwInputLength bytes that start at pbInput[at]. */
    method CryptBytes(dwInputLength: nat, pbInput: array<byte>, at: nat)
      requires Valid() && pbInput != S
      requires at + dwInputLength <= pbInput.Length
      modifies this, S, pbInput
      ensures Value() == After(old(Value()), dwInputLength)
      ensures pbInput[..] == Masked(old(pbInput[..]), at, KeyStream(old(Value()), dwInputLength))
    {
      ghost var was := pbInput[..];
      ghost var from := Value();
      assert was == Masked(was, at, KeyStream(from, 0));
      for n := 0 to dwInputLength
        invariant Value() == After(from, n)
        invariant pbInput[..] == Masked(was, at, KeyStream(from, n))
      {
        var key := Step();
        MaskedOneMore(was, at, KeyStream(from, n), key);
        assert KeyStream(from, n + 1) == KeyStream(from, n) + [key];
        assert pbInput[..][at + n] == was[at + n];
        pbInput[at + n] := XorByte(pbInput[at + n], key);
      }
    }
  }
}
