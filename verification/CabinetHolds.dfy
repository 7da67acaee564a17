/** What it means that a fragment holds some of a file: a record of the fragment is a piece of a
    block that has bytes of the file. */
module CabinetHolds {
  import opened CabinetData
  import opened CabinetSet
  import opened CabinetExtract

  // ----- Records and their blocks -----

  /** The uncompressed size of the block that the first of these records is a piece of. */
  function BlockSize(d: seq<CFData>): nat {
    if d == [] then 0 else if d[0].cbUncomp > 0 then d[0].cbUncomp else BlockSize(d[1..])
  }

  /** Whether record i is a piece of the block with uncompressed byte x. */
  predicate PieceOf(d: seq<CFData>, i: nat, x: nat)
    requires i < |d|
  {
    UncompSize(d[..i]) <= x < UncompSize(d[..i]) + BlockSize(d[i..])
  }

  /** The block that is open behind a list of records, if their last one continues. */
  function OpenBehind(data: seq<CFData>, later: seq<CFData>): nat {
    if data != [] && data[|data| - 1].Continues() then BlockSize(later) else 0
  }

  /** A run of records touches exactly the bytes from where it starts to the end of the block
      that its last record is a piece of. */
  lemma {:induction false} RunTouches(before: seq<CFData>, data: seq<CFData>, later: seq<CFData>, x: nat)
    ensures Touched(before + data + later, |before|, |before| + |data|, x)
       <==> data != [] && UncompSize(before) <= x < UncompSize(before + data) + OpenBehind(data, later)
    decreases |data|
  {
    hide UncompSize, PieceOf, BlockSize, OpenBehind, Touched;
    TouchedMore(before + data + later, |before|, |before| + |data|, x);
    if data != [] {
      var before', data' := before + [data[0]], data[1..];
      assert before' + data' == before + data && |before'| == |before| + 1;
      assert before' + data' + later == before + data + later;
      if data' == [] { assert before' + data' == before'; }
      RunTouches(before', data', later, x);
      FirstTouches(before, data, later, x);
      OpenCons(data, later);
      UncompConcat(before, [data[0]]);
      UncompConcat(before', data');
      OneSize(data[0]);
      BlockStep(data, later);
      BehindSome(data', later);
    }
  }

  /** Whether one of a range of records is a piece of the block with uncompressed byte x. */
  ghost predicate Touched(d: seq<CFData>, from: nat, to: nat, x: nat)
    requires to <= |d|
  {
    exists i :: from <= i < to && PieceOf(d, i, x)
  }

  lemma TouchedMore(d: seq<CFData>, from: nat, to: nat, x: nat)
    requires from <= to <= |d|
    ensures Touched(d, from, to, x) <==> from < to && (PieceOf(d, from, x) || Touched(d, from + 1, to, x))
  {
    hide PieceOf;
  }

  lemma FirstTouches(before: seq<CFData>, data: seq<CFData>, later: seq<CFData>, x: nat)
    requires data != []
    ensures var d := before + data + later;
            PieceOf(d, |before|, x) <==> UncompSize(before) <= x < UncompSize(before) + BlockSize(data + later)
  {
    hide UncompSize, BlockSize;
    var d := before + data + later;
    assert d[..|before|] == before && d[|before|..] == data + later;
  }

  lemma OneSize(r: CFData)
    ensures UncompSize([r]) == r.cbUncomp
  {
    assert [r][1..] == [];
  }

  lemma BlockStep(data: seq<CFData>, later: seq<CFData>)
    requires data != []
    ensures BlockSize(data + later)
         == if data[0].cbUncomp > 0 then data[0].cbUncomp else BlockSize(data[1..] + later)
  {
    assert (data + later)[1..] == data[1..] + later;
  }

  lemma OpenCons(data: seq<CFData>, later: seq<CFData>)
    requires data != []
    ensures |data| == 1 ==> OpenBehind(data, later) == if data[0].Continues() then BlockSize(later) else 0
    ensures |data| > 1 ==> OpenBehind(data, later) == OpenBehind(data[1..], later)
    ensures |data| == 1 ==> data[1..] + later == later
  {
    hide BlockSize;
  }

  /** The first block of some records ends with them or behind them. */
  lemma {:induction false} BehindSome(data: seq<CFData>, later: seq<CFData>)
    ensures data != [] ==> BlockSize(data + later) <= UncompSize(data) + OpenBehind(data, later)
  {
    if data != [] {
      BehindSome(data[1..], later);
      BlockStep(data, later);
      OpenCons(data, later);
    }
  }

  // ----- Where a fragment ends -----

  /** The records' first block is the first of the blocks they join to. */
  lemma {:induction false} JoinedBlock(d: seq<CFData>)
    requires NoneOpen(Joined(d)) && d != []
    ensures Joined(d) != [] && BlockSize(d) == Joined(d)[0].cbUncomp
  {
    hide NoneOpen;
    assert d == [d[0]] + d[1..];
    JoinedCons(d[0], d[1..]);
    if d[0].Continues() {
      GlueOpen(d[0].ab, Joined(d[1..]));
      if d[1..] == [] { NothingJoined(); }
      JoinedBlock(d[1..]);
    }
  }

  /** A fragment of some records reaches to the end of the block that its last one is a piece of,
      although that block may end in a later cabinet. One without any is a whole empty folder. */
  ghost predicate Reaches(p: Fragment, later: seq<CFData>) {
    if p.data == [] then p.first && p.final else p.hi == p.nextLo + OpenBehind(p.data, later)
  }

  ghost predicate AllReach(ps: seq<Fragment>) {
    forall m :: 0 <= m < |ps| ==> Reaches(ps[m], Gathered(ps[m + 1..], ps[m].folder))
  }

  lemma AllReachCons(p: Fragment, ps: seq<Fragment>)
    requires AllReach(ps) && Reaches(p, Gathered(ps, p.folder))
    ensures AllReach([p] + ps)
  {
    hide Reaches, Gathered;
    var all := [p] + ps;
    forall m | 0 <= m < |all|
      ensures Reaches(all[m], Gathered(all[m + 1..], all[m].folder))
    {
      if m == 0 {
        assert all[1..] == ps;
      } else {
        assert all[m] == ps[m - 1] && all[m + 1..] == ps[m..];
        assert Reaches(ps[m - 1], Gathered(ps[m - 1 + 1..], ps[m - 1].folder));
      }
    }
  }

  lemma {:induction false} PlaceReaches(rest: seq<Rest>, cab: nat, index: nat, room: nat, caps: seq<nat>)
    requires RestsOk(rest) && Place(rest, cab, index, room, caps).Laid?
    ensures AllReach(Place(rest, cab, index, room, caps).fragments)
    decreases |caps|, |rest|
  {
    hide Place, CabinetFull, Fragmented, AllReach, RestOk, Gathered, Reaches, Joined;
    if rest == [] {
      NoneReach(cab, index, room, caps);
    } else {
      PlaceStep(rest, cab, index, room, caps);
      if CabinetFull(rest[0], index, room) {
        PlaceReaches(rest, cab + 1, 0, caps[0], caps[1..]);
      } else {
        var p := Fragmented(rest[0], cab, index, room);
        TailOk(rest);
        if p.final {
          PlaceReaches(rest[1..], cab, index + 1, room - Cost(p.data), caps);
          var ps := Place(rest[1..], cab, index + 1, room - Cost(p.data), caps).fragments;
          LastReaches(rest[0], cab, index, room, Gathered(ps, p.folder));
          AllReachCons(p, ps);
        } else {
          NextOk(rest, cab, index, room);
          var next := [Continuation(rest[0], p, room)] + rest[1..];
          PlaceReaches(next, cab + 1, 0, caps[0], caps[1..]);
          var ps := Place(next, cab + 1, 0, caps[0], caps[1..]).fragments;
          PlaceJoins(next, cab + 1, 0, caps[0], caps[1..], 0);
          assert next[0] == Continuation(rest[0], p, room);
          FragmentedFields(rest[0], cab, index, room);
          CutReaches(rest[0], cab, index, room, Gathered(ps, p.folder));
          AllReachCons(p, ps);
        }
      }
    }
  }

  lemma NoneReach(cab: nat, index: nat, room: nat, caps: seq<nat>)
    ensures Place([], cab, index, room, caps) == Laid([]) && AllReach([])
  {
  }

  lemma LastReaches(r: Rest, cab: nat, index: nat, room: nat, later: seq<CFData>)
    requires RestOk(r) && !CabinetFull(r, index, room) && Fragmented(r, cab, index, room).final
    ensures Reaches(Fragmented(r, cab, index, room), later)
  {
    hide UncompSize, BlockSize;
    TakenEnds(r.data, room);
    TakenOfNothing(room);
  }

  lemma TakenOfNothing(room: nat)
    ensures Taken([], room) == []
  {
  }

  lemma CutReaches(r: Rest, cab: nat, index: nat, room: nat, later: seq<CFData>)
    requires RestOk(r) && !CabinetFull(r, index, room) && !Fragmented(r, cab, index, room).final
    requires Joined(later) == Left(r.data, room)
    ensures Reaches(Fragmented(r, cab, index, room), later)
  {
    hide UncompSize, BlockSize, Taken, Left, Joined;
    LeftIsWhole(r.data, room);
    WholeNoneOpen(Left(r.data, room));
    NothingJoined();
    JoinedBlock(later);
    TookSome(r, index, room);
    TakenOfNothing(room);
  }

  // ----- What a fragment holds -----

  /** The number of the folder's records in the fragments before this one. */
  function RecordsBefore(ps: seq<Fragment>, m: nat): nat
    requires m < |ps|
  {
    |Gathered(ps[..m], ps[m].folder)|
  }

  /** The extent of a fragment is what its records are pieces of: byte x of the folder is in it
      exactly when one of its records is a piece of the block with x. */
  lemma ExtentIff(folders: seq<seq<CFData>>, caps: seq<nat>, m: nat, n: nat, x: nat)
    requires forall i :: 0 <= i < |folders| ==> Whole(folders[i])
    requires CapsOk(caps) && n < |folders| && LayOut(folders, caps).Laid? && x < UncompSize(folders[n])
    requires InFolder(LayOut(folders, caps).fragments, m, n)
    ensures var ps := LayOut(folders, caps).fragments;
            var records, from := Gathered(ps, n), RecordsBefore(ps, m);
            var to := from + |ps[m].data|;
            && to <= |records|
            && (ps[m].lo <= x < ps[m].hi
                <==> Touched(records, from, to, x))
  {
    hide UncompSize, LayOut, Measured, WellFormed, Touched, OpenBehind, BlockSize, Gathered, Whole, AllReach;
    var ps := LayOut(folders, caps).fragments;
    SetLinks(folders, caps);
    SetMeasures(folders, caps);
    SetReaches(folders, caps);
    var before, data, later := Gathered(ps[..m], n), ps[m].data, Gathered(ps[m + 1..], n);
    SplitRecords(ps, m);
    RunTouches(before, data, later, x);
    GatheredSize(ps, m);
    UncompConcat(before, data);
    IsMeasured(ps, m);
    IsReached(ps, m);
    if data == [] {
      NothingJoined();
      FinalReaches(ps, m, folders, caps, n);
      FirstStarts(ps, m);
    }
  }

  lemma SplitRecords(ps: seq<Fragment>, m: nat)
    requires m < |ps|
    ensures Gathered(ps[..m + 1], ps[m].folder) == Gathered(ps[..m], ps[m].folder) + ps[m].data
    ensures Gathered(ps, ps[m].folder) == Gathered(ps[..m + 1], ps[m].folder) + Gathered(ps[m + 1..], ps[m].folder)
  {
    hide Gathered;
    SplitAround(ps, m);
    SplitGathered(ps[..m], ps[m], ps[m + 1..]);
  }

  lemma SplitAround<T>(s: seq<T>, m: nat)
    requires m < |s|
    ensures s[..m + 1] == s[..m] + [s[m]] && s == s[..m] + [s[m]] + s[m + 1..]
  {
  }

  lemma SplitGathered(a: seq<Fragment>, p: Fragment, b: seq<Fragment>)
    ensures Gathered(a + [p], p.folder) == Gathered(a, p.folder) + p.data
    ensures Gathered(a + [p] + b, p.folder) == Gathered(a + [p], p.folder) + Gathered(b, p.folder)
  {
    hide Gathered;
    GatheredConcat(a, [p], p.folder);
    GatheredOne(p);
    GatheredConcat(a + [p], b, p.folder);
  }

  lemma IsMeasured(ps: seq<Fragment>, m: nat)
    requires Measured(ps) && m < |ps|
    ensures ps[m].nextLo == ps[m].lo + UncompSize(ps[m].data)
  {
  }

  lemma IsReached(ps: seq<Fragment>, m: nat)
    requires AllReach(ps) && m < |ps|
    ensures Reaches(ps[m], Gathered(ps[m + 1..], ps[m].folder))
  {
  }

  lemma FirstStarts(ps: seq<Fragment>, m: nat)
    requires WellFormed(ps) && m < |ps| && ps[m].first
    ensures ps[m].lo == 0
  {
    assert FragmentOk(ps[m]);
  }

  lemma SetReaches(folders: seq<seq<CFData>>, caps: seq<nat>)
    requires forall i :: 0 <= i < |folders| ==> Whole(folders[i])
    requires LayOut(folders, caps).Laid?
    ensures AllReach(LayOut(folders, caps).fragments)
  {
    hide AllReach;
    WaitingOk(folders);
    PlaceReaches(Waiting(folders), 0, 0, caps[0], caps[1..]);
  }

  /** A fragment holds some of a file that is not empty exactly when one of its records is a
      piece of a block with a byte of the file. */
  lemma HoldsIff(folders: seq<seq<CFData>>, caps: seq<nat>, m: nat, n: nat, f: File)
    requires forall i :: 0 <= i < |folders| ==> Whole(folders[i])
    requires CapsOk(caps) && n < |folders| && LayOut(folders, caps).Laid?
    requires InFolder(LayOut(folders, caps).fragments, m, n) && Inside(f, folders[n]) && f.cbFile > 0
    ensures var ps := LayOut(folders, caps).fragments;
            var records, from := Gathered(ps, n), RecordsBefore(ps, m);
            var to := from + |ps[m].data|;
            && to <= |records|
            && (Holds(ps[m], f, UncompSize(folders[n]))
                <==> exists x: nat :: f.uoffFolderStart <= x < f.uoffFolderStart + f.cbFile
                                      && Touched(records, from, to, x))
  {
    hide UncompSize, LayOut, WellFormed, Touched, Gathered, Whole;
    var ps := LayOut(folders, caps).fragments;
    var records, from, total := Gathered(ps, n), RecordsBefore(ps, m), UncompSize(folders[n]);
    var to := from + |ps[m].data|;
    ExtentIff(folders, caps, m, n, f.uoffFolderStart);
    SetLinks(folders, caps);
    NotEmpty(ps, m);
    if Holds(ps[m], f, total) {
      var x := if ps[m].lo < f.uoffFolderStart then f.uoffFolderStart else ps[m].lo;
      ExtentIff(folders, caps, m, n, x);
    }
    if x: nat :| f.uoffFolderStart <= x < f.uoffFolderStart + f.cbFile
                 && Touched(records, from, to, x) {
      ExtentIff(folders, caps, m, n, x);
    }
  }

  lemma NotEmpty(ps: seq<Fragment>, m: nat)
    requires WellFormed(ps) && m < |ps|
    ensures ps[m].lo < ps[m].hi
  {
    assert FragmentOk(ps[m]);
  }
}
