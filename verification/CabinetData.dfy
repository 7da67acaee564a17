/** The CFDATA records of a cabinet set: how a writer cuts a folder's blocks at the end of a
    cabinet, and how a reader joins the pieces by the cbUncomp rule. */
module CabinetData {
  import opened Bytes

  /** The packed size of a CFDATA structure without its bytes. */
  const CFDATA_SIZE := 8
  const USHORT_END := 0x1_0000

  /** A CFDATA: cbData is the number of bytes; cbUncomp is zero in a piece whose block goes on
      in the next cabinet, and the size of the whole block in the piece that ends it. */
  datatype CFData = CFData(ab: seq<byte>, cbUncomp: nat) {
    predicate Continues() {
      cbUncomp == 0
    }
  }

  /** Complete blocks, as a folder holds them before it is put into cabinets. */
  ghost predicate Whole(d: seq<CFData>) {
    forall k :: 0 <= k < |d| ==> 0 < d[k].cbUncomp < USHORT_END && 0 < |d[k].ab| < USHORT_END
  }

  // ----- Cutting -----

  /** The records that go into a cabinet with this much room, and those left for the next.
      The last block is cut if at least one of its bytes fits behind its header. */
  function Taken(d: seq<CFData>, room: nat): seq<CFData> {
    if d == [] then []
    else if CFDATA_SIZE + |d[0].ab| <= room then [d[0]] + Taken(d[1..], room - CFDATA_SIZE - |d[0].ab|)
    else if room <= CFDATA_SIZE then []
    else [CFData(d[0].ab[..room - CFDATA_SIZE], 0)]
  }

  function Left(d: seq<CFData>, room: nat): seq<CFData> {
    if d == [] then []
    else if CFDATA_SIZE + |d[0].ab| <= room then Left(d[1..], room - CFDATA_SIZE - |d[0].ab|)
    else if room <= CFDATA_SIZE then d
    else [CFData(d[0].ab[room - CFDATA_SIZE..], d[0].cbUncomp)] + d[1..]
  }

  /** The three cases of the writer: the first block goes in whole, not at all, or in part. */
  lemma TakesWhole(d: seq<CFData>, room: nat)
    requires d != [] && CFDATA_SIZE + |d[0].ab| <= room
    ensures Taken(d, room) == [d[0]] + Taken(d[1..], room - CFDATA_SIZE - |d[0].ab|)
    ensures Left(d, room) == Left(d[1..], room - CFDATA_SIZE - |d[0].ab|)
  {
  }

  lemma TakesNone(d: seq<CFData>, room: nat)
    requires d == [] || (room <= CFDATA_SIZE && room < CFDATA_SIZE + |d[0].ab|)
    ensures Taken(d, room) == [] && Left(d, room) == d
  {
  }

  lemma TakesPart(d: seq<CFData>, room: nat)
    requires d != [] && CFDATA_SIZE < room < CFDATA_SIZE + |d[0].ab|
    ensures Taken(d, room) == [CFData(d[0].ab[..room - CFDATA_SIZE], 0)]
    ensures Left(d, room) == [CFData(d[0].ab[room - CFDATA_SIZE..], d[0].cbUncomp)] + d[1..]
  {
  }

  /** The bytes a list of records takes up in a cabinet. */
  function Cost(d: seq<CFData>): nat {
    if d == [] then 0 else CFDATA_SIZE + |d[0].ab| + Cost(d[1..])
  }

  lemma {:induction false} TakenFits(d: seq<CFData>, room: nat)
    ensures Cost(Taken(d, room)) <= room
    decreases |d|
  {
    if d != [] && CFDATA_SIZE + |d[0].ab| <= room {
      TakenFits(d[1..], room - CFDATA_SIZE - |d[0].ab|);
      assert Taken(d, room)[1..] == Taken(d[1..], room - CFDATA_SIZE - |d[0].ab|);
    } else if d != [] && room > CFDATA_SIZE {
      assert Taken(d, room)[1..] == [];
    }
  }

  /** What is left are complete blocks and at most one remainder, which keeps the block's size. */
  lemma {:induction false} LeftIsWhole(d: seq<CFData>, room: nat)
    requires Whole(d)
    ensures Whole(Left(d, room))
    decreases |d|
  {
    if d != [] && CFDATA_SIZE + |d[0].ab| <= room {
      LeftIsWhole(d[1..], room - CFDATA_SIZE - |d[0].ab|);
    }
  }

  /** A cabinet with room for a byte and its header takes something of every folder. */
  lemma TakesSome(d: seq<CFData>, room: nat)
    requires d != [] && room > CFDATA_SIZE
    ensures Taken(d, room) != []
  {
  }

  // ----- Joining -----

  /** Bytes of a continued piece in front of the next record. */
  function Glue(ab: seq<byte>, d: seq<CFData>): seq<CFData> {
    if d == [] then [CFData(ab, 0)] else [CFData(ab + d[0].ab, d[0].cbUncomp)] + d[1..]
  }

  /** The reader's rule: a record whose cbUncomp is zero is the front of the next record. */
  function Joined(d: seq<CFData>): seq<CFData> {
    if d == [] then []
    else if d[0].Continues() then Glue(d[0].ab, Joined(d[1..]))
    else [d[0]] + Joined(d[1..])
  }

  lemma {:induction false} JoinedWhole(d: seq<CFData>)
    requires Whole(d)
    ensures Joined(d) == d
    decreases |d|
  {
    if d != [] { JoinedWhole(d[1..]); }
  }

  /** Joining looks at what follows only through its own join. */
  lemma {:induction false} JoinedThrough(d: seq<CFData>, rest: seq<CFData>, rest': seq<CFData>)
    requires Joined(rest) == Joined(rest')
    ensures Joined(d + rest) == Joined(d + rest')
    decreases |d|
  {
    if d == [] {
      assert d + rest == rest && d + rest' == rest';
    } else {
      assert (d + rest)[1..] == d[1..] + rest && (d + rest')[1..] == d[1..] + rest';
      JoinedThrough(d[1..], rest, rest');
    }
  }

  lemma JoinedCons(r: CFData, d: seq<CFData>)
    ensures Joined([r] + d) == if r.Continues() then Glue(r.ab, Joined(d)) else [r] + Joined(d)
  {
    assert ([r] + d)[1..] == d;
  }

  lemma GluedCut(r: CFData, rest: seq<CFData>, n: nat)
    requires n <= |r.ab|
    ensures Glue(r.ab[..n], [CFData(r.ab[n..], r.cbUncomp)] + rest) == [r] + rest
  {
    assert r.ab[..n] + r.ab[n..] == r.ab;
  }

  /** Cutting is undone by joining, wherever the cut falls. */
  lemma {:induction false} CutJoins(d: seq<CFData>, room: nat)
    requires Whole(d)
    ensures Joined(Taken(d, room) + Left(d, room)) == d
    decreases |d|
  {
    hide Joined, Glue, Whole, Taken, Left;
    if d == [] {
      TakesNone(d, room);
      EmptyJoins();
    } else if CFDATA_SIZE + |d[0].ab| <= room {
      var room' := room - CFDATA_SIZE - |d[0].ab|;
      TakesWhole(d, room);
      WholeTail(d);
      CutJoins(d[1..], room');
      JoinedCons(d[0], Taken(d[1..], room') + Left(d[1..], room'));
      assert Taken(d, room) + Left(d, room) == [d[0]] + (Taken(d[1..], room') + Left(d[1..], room'));
    } else if room <= CFDATA_SIZE {
      TakesNone(d, room);
      assert [] + d == d;
      JoinedWhole(d);
    } else {
      var n := room - CFDATA_SIZE;
      TakesPart(d, room);
      LeftIsWhole(d, room);
      JoinedWhole(Left(d, room));
      JoinedCons(CFData(d[0].ab[..n], 0), Left(d, room));
      GluedCut(d[0], d[1..], n);
    }
  }

  lemma EmptyJoins()
    ensures Joined([]) == []
  {
  }

  lemma WholeTail(d: seq<CFData>)
    requires Whole(d) && d != []
    ensures Whole(d[1..]) && d[0].cbUncomp > 0
  {
  }

  // ----- Sums -----

  function StoredSize(d: seq<CFData>): nat {
    if d == [] then 0 else |d[0].ab| + StoredSize(d[1..])
  }

  function UncompSize(d: seq<CFData>): nat {
    if d == [] then 0 else d[0].cbUncomp + UncompSize(d[1..])
  }

  function Splits(d: seq<CFData>): nat {
    if d == [] then 0 else (if d[0].Continues() then 1 else 0) + Splits(d[1..])
  }

  /** All three counts of one list of records: bytes, uncompressed bytes, and records less
      the number of splits. */
  function Counts(d: seq<CFData>): (int, int, int) {
    (StoredSize(d), UncompSize(d), |d| - Splits(d))
  }

  function Sum(a: (int, int, int), b: (int, int, int)): (int, int, int) {
    (a.0 + b.0, a.1 + b.1, a.2 + b.2)
  }

  lemma {:induction false} CountsConcat(a: seq<CFData>, b: seq<CFData>)
    ensures Counts(a + b) == Sum(Counts(a), Counts(b))
    decreases |a|
  {
    if a == [] {
      assert a + b == b;
    } else {
      assert (a + b)[1..] == a[1..] + b;
      CountsConcat(a[1..], b);
    }
  }

  lemma CountsCons(r: CFData, d: seq<CFData>)
    ensures Counts([r] + d) == Sum((|r.ab|, r.cbUncomp, if r.Continues() then 0 else 1), Counts(d))
  {
    assert ([r] + d)[1..] == d;
  }

  /** A cut neither gains nor loses bytes, uncompressed bytes or blocks. */
  lemma {:induction false} CutConserves(d: seq<CFData>, room: nat)
    ensures Sum(Counts(Taken(d, room)), Counts(Left(d, room))) == Counts(d)
    decreases |d|
  {
    hide Counts, Taken, Left;
    NothingCounts();
    if d == [] {
      TakesNone(d, room);
    } else if CFDATA_SIZE + |d[0].ab| <= room {
      var room' := room - CFDATA_SIZE - |d[0].ab|;
      TakesWhole(d, room);
      CutConserves(d[1..], room');
      CountsCons(d[0], Taken(d[1..], room'));
      CountsCons(d[0], d[1..]);
      assert d == [d[0]] + d[1..];
    } else if room <= CFDATA_SIZE {
      TakesNone(d, room);
    } else {
      var n := room - CFDATA_SIZE;
      TakesPart(d, room);
      CountsCons(CFData(d[0].ab[..n], 0), []);
      assert Taken(d, room) == [CFData(d[0].ab[..n], 0)] + [];
      CountsCons(CFData(d[0].ab[n..], d[0].cbUncomp), d[1..]);
      CountsCons(d[0], d[1..]);
      assert d == [d[0]] + d[1..];
    }
  }

  lemma NothingCounts()
    ensures Counts([]) == (0, 0, 0)
  {
  }

  /** The uncompressed size of the block that a cabinet's last record leaves open. */
  function Open(d: seq<CFData>, room: nat): nat {
    if Taken(d, room) != [] && Taken(d, room)[|Taken(d, room)| - 1].Continues() && Left(d, room) != []
    then Left(d, room)[0].cbUncomp else 0
  }

  /** A cabinet that takes anything reaches at least to the end of the first block, whether the
      block ends in it or stays open. */
  lemma FirstBlockReached(d: seq<CFData>, room: nat)
    requires Whole(d) && Taken(d, room) != []
    ensures UncompSize(Taken(d, room)) + Open(d, room) >= d[0].cbUncomp
  {
    if CFDATA_SIZE + |d[0].ab| <= room {
      assert Taken(d, room)[0] == d[0];
    } else {
      assert Taken(d, room) == [CFData(d[0].ab[..room - CFDATA_SIZE], 0)];
      assert Left(d, room)[0].cbUncomp == d[0].cbUncomp;
    }
  }

  // ----- How often a block is cut -----

  /** A block that is cut in a cabinet with room r1 is completed by the next, with room r2,
      exactly when the two rooms together hold the block and two headers. */
  lemma RemainderCompletesIff(d: seq<CFData>, r1: nat, r2: nat)
    requires Whole(d) && d != [] && CFDATA_SIZE < r1 < CFDATA_SIZE + |d[0].ab|
    ensures Taken(d, r1) == [CFData(d[0].ab[..r1 - CFDATA_SIZE], 0)]
    ensures var rest := Left(d, r1);
            && rest != [] && rest[0] == CFData(d[0].ab[r1 - CFDATA_SIZE..], d[0].cbUncomp)
            && (Taken(rest, r2) != [] && Taken(rest, r2)[0] == rest[0] <==> r1 + r2 >= 2 * CFDATA_SIZE + |d[0].ab|)
  {
    var rest := Left(d, r1);
    if CFDATA_SIZE < r2 < CFDATA_SIZE + |rest[0].ab| { assert Taken(rest, r2)[0].Continues(); }
  }

  /** No block is in more than two pieces: a piece that continues is followed by one that ends. */
  ghost predicate CutOnce(d: seq<CFData>) {
    forall k :: 0 <= k < |d| - 1 ==> !(d[k].Continues() && d[k + 1].Continues())
  }

  /** A cabinet's records continue at most in the last. */
  lemma {:induction false} TakenEnds(d: seq<CFData>, room: nat)
    requires Whole(d)
    ensures forall k :: 0 <= k < |Taken(d, room)| - 1 ==> !Taken(d, room)[k].Continues()
    ensures Left(d, room) == [] ==> forall k :: 0 <= k < |Taken(d, room)| ==> !Taken(d, room)[k].Continues()
    decreases |d|
  {
    hide Whole;
    if d != [] && CFDATA_SIZE + |d[0].ab| <= room {
      var room' := room - CFDATA_SIZE - |d[0].ab|;
      WholeTail(d);
      TakenEnds(d[1..], room');
      forall k | 0 < k < |Taken(d, room)|
        ensures Taken(d, room)[k] == Taken(d[1..], room')[k - 1]
      {
      }
    }
  }

  lemma CutOnceConcat(a: seq<CFData>, b: seq<CFData>)
    requires forall k :: 0 <= k < |a| - 1 ==> !a[k].Continues()
    requires CutOnce(b) && (a != [] && b != [] ==> !(a[|a| - 1].Continues() && b[0].Continues()))
    ensures CutOnce(a + b)
  {
    var all := a + b;
    forall k | 0 <= k < |all| - 1
      ensures !(all[k].Continues() && all[k + 1].Continues())
    {
      if k >= |a| { assert all[k] == b[k - |a|] && all[k + 1] == b[k - |a| + 1]; }
    }
  }

  /** Room for the largest block behind its header. */
  ghost predicate Admits(room: nat, d: seq<CFData>) {
    forall k :: 0 <= k < |d| ==> CFDATA_SIZE + |d[k].ab| <= room
  }

  lemma {:induction false} LeftAdmits(d: seq<CFData>, room: nat, cap: nat)
    requires Admits(cap, d)
    ensures Admits(cap, Left(d, room))
    decreases |d|
  {
    if d != [] && CFDATA_SIZE + |d[0].ab| <= room {
      LeftAdmits(d[1..], room - CFDATA_SIZE - |d[0].ab|, cap);
    }
  }

  /** Room for the first block takes it whole. */
  lemma FirstIsWhole(d: seq<CFData>, room: nat)
    requires Whole(d) && d != [] && CFDATA_SIZE + |d[0].ab| <= room
    ensures Taken(d, room) != [] && Taken(d, room)[0] == d[0] && !d[0].Continues()
  {
  }
}
