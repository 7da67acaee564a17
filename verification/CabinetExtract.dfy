/** Getting a file out of a cabinet set: every file is somewhere, and the fragments from its
    folder's start to the last cabinet that holds it are enough. */
module CabinetExtract {
  import opened Bytes
  import opened CabinetData
  import opened CabinetSet

  // ----- Every file is somewhere -----

  function Width(d: seq<CFData>): nat {
    if d == [] then 1 else UncompSize(d)
  }

  /** The uncompressed offset behind a fragment that ends its folder, and before what is left
      of one that does not. */
  lemma FragmentReach(r: Rest, cab: nat, index: nat, room: nat)
    requires RestOk(r)
    ensures var p := Fragmented(r, cab, index, room);
            && p.nextLo + UncompSize(Left(r.data, room)) == r.lo + UncompSize(r.data)
            && (p.final ==> p.hi == r.lo + Width(r.data))
            && (!p.final ==> p.nextLo <= p.hi)
  {
    CutConserves(r.data, room);
    NothingLeftIsZero(r.data, room);
  }

  lemma NothingLeftIsZero(d: seq<CFData>, room: nat)
    ensures Left(d, room) == [] ==> UncompSize(Left(d, room)) == 0 && Open(d, room) == 0
  {
  }

  /** Every uncompressed byte of a waiting folder gets into some fragment's extent. */
  lemma {:induction false} PlaceCovers(rest: seq<Rest>, cab: nat, index: nat, room: nat, caps: seq<nat>, k: nat, x: nat)
    returns (m: nat)
    requires RestsOk(rest) && Place(rest, cab, index, room, caps).Laid? && k < |rest|
    requires rest[k].lo <= x < rest[k].lo + Width(rest[k].data)
    ensures var ps := Place(rest, cab, index, room, caps).fragments;
            m < |ps| && ps[m].folder == rest[k].folder && ps[m].lo <= x < ps[m].hi
    decreases |caps|, |rest|
  {
    hide Place, CabinetFull, RestOk, Fragmented, UncompSize;
    PlaceStep(rest, cab, index, room, caps);
    if CabinetFull(rest[0], index, room) {
      m := PlaceCovers(rest, cab + 1, 0, caps[0], caps[1..], k, x);
    } else {
      TailOk(rest);
      FragmentedFields(rest[0], cab, index, room);
      FragmentReach(rest[0], cab, index, room);
      var p := Fragmented(rest[0], cab, index, room);
      if k == 0 && x < p.hi {
        m := 0;
      } else if p.final {
        TakenFits(rest[0].data, room);
        m := PlaceCovers(rest[1..], cab, index + 1, room - Cost(p.data), caps, k - 1, x);
        m := m + 1;
      } else {
        NextOk(rest, cab, index, room);
        var r := Continuation(rest[0], p, room);
        var next := [r] + rest[1..];
        assert k == 0 ==> next[0] == r;
        m := PlaceCovers(next, cab + 1, 0, caps[0], caps[1..], k, x);
        m := m + 1;
      }
    }
  }

  /** A file that lies within its folder. */
  ghost predicate Inside(f: File, folder: seq<CFData>) {
    f.uoffFolderStart + f.cbFile <= UncompSize(folder)
  }

  /** Every file of a laid-out set, an empty one included, is held by some fragment. */
  lemma HeldSomewhere(folders: seq<seq<CFData>>, caps: seq<nat>, n: nat, f: File) returns (k: nat)
    requires forall i :: 0 <= i < |folders| ==> Whole(folders[i])
    requires n < |folders| && LayOut(folders, caps).Laid? && Inside(f, folders[n])
    ensures HeldAt(LayOut(folders, caps).fragments, k, n, f, UncompSize(folders[n]))
  {
    hide UncompSize;
    var total := UncompSize(folders[n]);
    WidthOf(folders[n]);
    WaitingOk(folders);
    k := PlaceCovers(Waiting(folders), 0, 0, caps[0], caps[1..], n, FirstByte(f, total));
  }

  lemma WidthOf(d: seq<CFData>)
    requires Whole(d)
    ensures Width(d) == if UncompSize(d) == 0 then 1 else UncompSize(d)
  {
  }

  // ----- The part of a folder that a reader needs -----

  /** Joined records without a last piece whose block is still open. */
  function Closed(d: seq<CFData>): seq<CFData> {
    if d != [] && d[|d| - 1].Continues() then d[..|d| - 1] else d
  }

  ghost predicate NoneOpen(d: seq<CFData>) {
    forall k :: 0 <= k < |d| ==> d[k].cbUncomp > 0
  }

  /** Joining only the front part of a folder's records gives the front part of its blocks,
      all those that end in it. */
  lemma {:induction false} JoinedFront(a: seq<CFData>, b: seq<CFData>)
    requires NoneOpen(Joined(a + b))
    ensures Closed(Joined(a)) <= Joined(a + b)
    ensures UncompSize(Closed(Joined(a))) == UncompSize(a)
    decreases |a|
  {
    hide Glue, NoneOpen, Joined;
    if a == [] {
      NothingJoined();
    } else {
      var rest := a[1..];
      var whole := Joined(rest + b);
      assert a == [a[0]] + rest && a + b == [a[0]] + (rest + b);
      JoinedCons(a[0], rest + b);
      JoinedCons(a[0], rest);
      if a[0].Continues() {
        GlueOpen(a[0].ab, whole);
        JoinedFront(rest, b);
        GlueFront(a[0].ab, Joined(rest), whole);
      } else {
        NoneOpenCons(a[0], whole);
        JoinedFront(rest, b);
        ClosedCons(a[0], Joined(rest));
        UncompCons(a[0], Closed(Joined(rest)));
      }
    }
  }

  lemma NothingJoined()
    ensures Joined([]) == [] && UncompSize([]) == 0
  {
  }

  lemma UncompCons(r: CFData, d: seq<CFData>)
    ensures UncompSize([r] + d) == r.cbUncomp + UncompSize(d)
  {
    assert ([r] + d)[1..] == d;
  }

  lemma GlueOpen(ab: seq<byte>, d: seq<CFData>)
    requires NoneOpen(Glue(ab, d))
    ensures d != [] && NoneOpen(d)
  {
    var g := Glue(ab, d);
    assert g[0].cbUncomp > 0;
    forall k | 0 <= k < |d|
      ensures d[k].cbUncomp > 0
    {
      assert g[k].cbUncomp > 0;
      if k > 0 { assert g[k] == d[k]; }
    }
  }

  lemma NoneOpenCons(r: CFData, d: seq<CFData>)
    requires NoneOpen([r] + d)
    ensures NoneOpen(d)
  {
    assert forall k :: 0 <= k < |d| ==> ([r] + d)[k + 1] == d[k];
  }

  lemma ClosedCons(r: CFData, d: seq<CFData>)
    requires !r.Continues()
    ensures Closed([r] + d) == [r] + Closed(d)
  {
    if d != [] { assert ([r] + d)[|d|] == d[|d| - 1]; }
  }

  /** Gluing onto the front part and onto the whole. */
  lemma GlueFront(ab: seq<byte>, front: seq<CFData>, whole: seq<CFData>)
    requires Closed(front) <= whole && whole != [] && NoneOpen(whole)
    ensures Closed(Glue(ab, front)) <= Glue(ab, whole)
    ensures UncompSize(Closed(Glue(ab, front))) == UncompSize(Closed(front))
  {
    var c := Closed(front);
    if c == [] {
      assert Closed(Glue(ab, front)) == [];
    } else {
      assert front[0] == c[0] == whole[0] && whole[0].cbUncomp > 0;
      var g := CFData(ab + c[0].ab, c[0].cbUncomp);
      assert Closed(Glue(ab, front)) == [g] + c[1..];
      UncompCons(g, c[1..]);
      UncompCons(c[0], c[1..]);
      assert [c[0]] + c[1..] == c;
    }
  }

  // ----- What the gathered records of a front part add up to -----

  lemma {:induction false} GatheredConcat(a: seq<Fragment>, b: seq<Fragment>, folder: nat)
    ensures Gathered(a + b, folder) == Gathered(a, folder) + Gathered(b, folder)
    decreases |a|
  {
    if a == [] {
      assert a + b == b;
    } else {
      assert (a + b)[1..] == a[1..] + b;
      GatheredConcat(a[1..], b, folder);
    }
  }

  /** What each fragment's record says about itself: it takes its folder from lo to nextLo. */
  ghost predicate Measured(ps: seq<Fragment>) {
    forall k :: 0 <= k < |ps| ==> ps[k].nextLo == ps[k].lo + UncompSize(ps[k].data)
  }

  lemma {:induction false} PlaceMeasures(rest: seq<Rest>, cab: nat, index: nat, room: nat, caps: seq<nat>)
    requires Place(rest, cab, index, room, caps).Laid?
    ensures Measured(Place(rest, cab, index, room, caps).fragments)
    decreases |caps|, |rest|
  {
    hide Place, CabinetFull, Fragmented, Measured;
    if rest == [] {
      NoneMeasured(cab, index, room, caps);
    } else {
      PlaceStep(rest, cab, index, room, caps);
      if CabinetFull(rest[0], index, room) {
        PlaceMeasures(rest, cab + 1, 0, caps[0], caps[1..]);
      } else {
        var p := Fragmented(rest[0], cab, index, room);
        FragmentMeasured(rest[0], cab, index, room);
        if p.final {
          PlaceMeasures(rest[1..], cab, index + 1, room - Cost(p.data), caps);
          MeasuredCons(p, Place(rest[1..], cab, index + 1, room - Cost(p.data), caps).fragments);
        } else {
          var next := [Continuation(rest[0], p, room)] + rest[1..];
          PlaceMeasures(next, cab + 1, 0, caps[0], caps[1..]);
          MeasuredCons(p, Place(next, cab + 1, 0, caps[0], caps[1..]).fragments);
        }
      }
    }
  }

  lemma NoneMeasured(cab: nat, index: nat, room: nat, caps: seq<nat>)
    ensures Place([], cab, index, room, caps) == Laid([]) && Measured([])
  {
  }

  lemma FragmentMeasured(r: Rest, cab: nat, index: nat, room: nat)
    ensures var p := Fragmented(r, cab, index, room);
            p.nextLo == p.lo + UncompSize(p.data)
  {
    hide UncompSize, Open, Taken, Left;
  }

  lemma MeasuredCons(p: Fragment, ps: seq<Fragment>)
    requires Measured(ps) && p.nextLo == p.lo + UncompSize(p.data)
    ensures Measured([p] + ps)
  {
    hide UncompSize;
    assert forall k :: 0 <= k < |ps| ==> ([p] + ps)[k + 1] == ps[k];
  }

  /** The records of a folder up to a fragment cover it up to that fragment's nextLo. */
  lemma {:induction false} GatheredSize(ps: seq<Fragment>, k: nat)
    requires WellFormed(ps) && Measured(ps) && k < |ps|
    ensures UncompSize(Gathered(ps[..k + 1], ps[k].folder)) == ps[k].nextLo
    decreases k
  {
    hide UncompSize, Counts, Gathered, FragmentOk, Follows;
    var f := ps[k].folder;
    assert ps[..k + 1] == ps[..k] + [ps[k]];
    GatheredConcat(ps[..k], [ps[k]], f);
    GatheredOne(ps[k]);
    UncompConcat(Gathered(ps[..k], f), ps[k].data);
    if k > 0 && ps[k - 1].folder == f {
      GatheredSize(ps, k - 1);
      ContinuedFragment(ps, k);
      assert ps[..k - 1 + 1] == ps[..k];
    } else {
      NoneGathered(ps, k, f);
      FirstFragment(ps, k);
    }
  }

  lemma GatheredOne(p: Fragment)
    ensures Gathered([p], p.folder) == p.data
  {
    assert [p][1..] == [];
    assert Gathered([], p.folder) == [];
  }

  lemma UncompConcat(a: seq<CFData>, b: seq<CFData>)
    ensures UncompSize(a + b) == UncompSize(a) + UncompSize(b)
  {
    CountsConcat(a, b);
  }

  lemma ContinuedFragment(ps: seq<Fragment>, k: nat)
    requires Linked(ps) && 0 < k < |ps| && ps[k - 1].folder == ps[k].folder
    ensures ps[k].lo == ps[k - 1].nextLo
  {
    assert Follows(ps[k - 1], ps[k]);
  }

  lemma FirstFragment(ps: seq<Fragment>, k: nat)
    requires WellFormed(ps) && k < |ps| && (k > 0 ==> ps[k - 1].folder != ps[k].folder)
    ensures ps[k].lo == 0
  {
    assert FragmentOk(ps[k]);
    if k > 0 { assert Follows(ps[k - 1], ps[k]); }
  }

  lemma {:induction false} NoneGathered(ps: seq<Fragment>, n: nat, folder: nat)
    requires Linked(ps) && n <= |ps| && (n > 0 ==> ps[n - 1].folder != folder)
    requires n < |ps| && ps[n].folder == folder
    ensures Gathered(ps[..n], folder) == [] && UncompSize([]) == 0
    decreases n
  {
    if n > 0 {
      ExtentsGrow(ps, n - 1, n);
      AllBefore(ps, n, folder);
    }
  }

  lemma {:induction false} AllBefore(ps: seq<Fragment>, n: nat, folder: nat)
    requires Linked(ps) && 0 < n <= |ps| && ps[n - 1].folder < folder
    ensures Gathered(ps[..n], folder) == []
    decreases n
  {
    hide FragmentOk, Follows;
    assert ps[..n] == ps[..n - 1] + [ps[n - 1]];
    GatheredConcat(ps[..n - 1], [ps[n - 1]], folder);
    assert [ps[n - 1]][1..] == [];
    if n > 1 {
      ExtentsGrow(ps, n - 2, n - 1);
      AllBefore(ps, n - 1, folder);
    }
  }

  // ----- Extraction -----

  /** A decompressor reads a folder from its start; what it makes of the first blocks does not
      depend on the later ones. */
  ghost predicate Streaming(inflate: seq<CFData> -> seq<byte>) {
    && (forall d :: |inflate(d)| == UncompSize(d))
    && (forall d, n :: 0 <= n <= |d| ==> inflate(d[..n]) <= inflate(d))
  }

  /** The records a reader has after the last cabinet it visits. */
  function Collected(ps: seq<Fragment>, k: nat): seq<CFData>
    requires k < |ps|
  {
    Closed(Joined(Gathered(ps[..k + 1], ps[k].folder)))
  }

  /** The blocks that end by the last fragment holding a file are a front part of the folder
      as it was before it was cut, and long enough for the file. */
  lemma CollectedSuffices(folders: seq<seq<CFData>>, caps: seq<nat>, k: nat, n: nat, f: File)
    requires forall i :: 0 <= i < |folders| ==> Whole(folders[i])
    requires CapsOk(caps) && n < |folders| && LayOut(folders, caps).Laid? && Inside(f, folders[n])
    requires HeldAt(LayOut(folders, caps).fragments, k, n, f, UncompSize(folders[n]))
    requires !IsContdForward(Code(LayOut(folders, caps).fragments[k], f, UncompSize(folders[n])))
    ensures var d := Collected(LayOut(folders, caps).fragments, k);
            d <= folders[n] && f.uoffFolderStart + f.cbFile <= UncompSize(d)
  {
    hide Joined, Gathered, UncompSize, Code, IsContdForward, Closed, WellFormed, Measured, LayOut, Whole;
    var ps := LayOut(folders, caps).fragments;
    SetLinks(folders, caps);
    SetMeasures(folders, caps);
    SetJoins(folders, caps, n);
    var front, back := Gathered(ps[..k + 1], n), Gathered(ps[k + 1..], n);
    assert ps == ps[..k + 1] + ps[k + 1..];
    GatheredConcat(ps[..k + 1], ps[k + 1..], n);
    WholeNoneOpen(folders[n]);
    JoinedFront(front, back);
    GatheredSize(ps, k);
    ReachesFile(ps, k, f, folders[n], folders, caps, n);
  }

  lemma SetMeasures(folders: seq<seq<CFData>>, caps: seq<nat>)
    requires LayOut(folders, caps).Laid?
    ensures Measured(LayOut(folders, caps).fragments)
  {
    PlaceMeasures(Waiting(folders), 0, 0, caps[0], caps[1..]);
  }

  lemma WholeNoneOpen(d: seq<CFData>)
    requires Whole(d)
    ensures NoneOpen(d)
  {
  }

  /** A fragment whose code does not say forward covers its folder to the end of the file. */
  lemma ReachesFile(ps: seq<Fragment>, k: nat, f: File, folder: seq<CFData>, folders: seq<seq<CFData>>, caps: seq<nat>,
                    n: nat)
    requires forall i :: 0 <= i < |folders| ==> Whole(folders[i])
    requires CapsOk(caps) && n < |folders| && folder == folders[n]
    requires LayOut(folders, caps).Laid? && ps == LayOut(folders, caps).fragments
    requires WellFormed(ps) && Measured(ps) && k < |ps| && ps[k].folder == n && Inside(f, folder)
    requires !IsContdForward(Code(ps[k], f, UncompSize(folder)))
    ensures f.uoffFolderStart + f.cbFile <= ps[k].nextLo
  {
    hide Joined, Gathered, UncompSize, Code, IsContdForward, Measured, LayOut, Whole;
    assert FragmentOk(ps[k]);
    CodeTests(ps[k], f, UncompSize(folder));
    if ps[k].final {
      FinalReaches(ps, k, folders, caps, n);
    } else if f.cbFile == 0 {
      EmptyFileReach(f, UncompSize(folder), ps[k]);
    }
  }

  lemma EmptyFileReach(f: File, total: nat, p: Fragment)
    requires f.cbFile == 0 && f.uoffFolderStart <= total && LastByte(f, total) < p.nextLo
    ensures f.uoffFolderStart <= p.nextLo
  {
  }

  /** The fragment that ends a folder covers it to its end: nothing of it comes later. */
  lemma FinalReaches(ps: seq<Fragment>, k: nat, folders: seq<seq<CFData>>, caps: seq<nat>, n: nat)
    requires forall i :: 0 <= i < |folders| ==> Whole(folders[i])
    requires CapsOk(caps) && n < |folders|
    requires LayOut(folders, caps).Laid? && ps == LayOut(folders, caps).fragments
    requires WellFormed(ps) && Measured(ps) && k < |ps| && ps[k].folder == n && ps[k].final
    ensures ps[k].nextLo == UncompSize(folders[n])
  {
    hide UncompSize, LayOut, Measured, Gathered;
    GatheredSize(ps, k);
    SetJoins(folders, caps, n);
    assert ps == ps[..k + 1] + ps[k + 1..];
    GatheredConcat(ps[..k + 1], ps[k + 1..], n);
    NoneAfter(ps, k);
    assert Gathered(ps[..k + 1], n) + [] == Gathered(ps[..k + 1], n);
  }

  lemma NoneAfter(ps: seq<Fragment>, k: nat)
    requires Linked(ps) && k < |ps| && ps[k].final
    ensures Gathered(ps[k + 1..], ps[k].folder) == []
  {
    if k + 1 < |ps| {
      assert Follows(ps[(k + 1) - 1], ps[k + 1]);
      AllAfter(ps, k + 1, ps[k].folder);
    }
  }

  lemma {:induction false} AllAfter(ps: seq<Fragment>, n: nat, folder: nat)
    requires Linked(ps) && n <= |ps| && (n < |ps| ==> folder < ps[n].folder)
    ensures Gathered(ps[n..], folder) == []
    decreases |ps| - n
  {
    if n < |ps| {
      assert ps[n..][1..] == ps[n + 1..];
      if n + 1 < |ps| { ExtentsGrow(ps, n, n + 1); }
      AllAfter(ps, n + 1, folder);
    }
  }

  /** Round trip of a file: what a reader cuts out of the folder it has collected by the last
      cabinet of the file is what it would cut out of the folder in a single cabinet. */
  lemma ExtractedIsOriginal(folders: seq<seq<CFData>>, caps: seq<nat>, k: nat, n: nat, f: File,
                            inflate: seq<CFData> -> seq<byte>)
    requires forall i :: 0 <= i < |folders| ==> Whole(folders[i])
    requires CapsOk(caps) && n < |folders| && LayOut(folders, caps).Laid? && Inside(f, folders[n])
    requires HeldAt(LayOut(folders, caps).fragments, k, n, f, UncompSize(folders[n]))
    requires !IsContdForward(Code(LayOut(folders, caps).fragments[k], f, UncompSize(folders[n])))
    requires Streaming(inflate)
    ensures var d := Collected(LayOut(folders, caps).fragments, k);
            var from, to := f.uoffFolderStart, f.uoffFolderStart + f.cbFile;
            && to <= |inflate(d)| && to <= |inflate(folders[n])|
            && inflate(d)[from..to] == inflate(folders[n])[from..to]
  {
    hide UncompSize, Code, IsContdForward, LayOut, Collected, Whole;
    CollectedSuffices(folders, caps, k, n, f);
    var d := Collected(LayOut(folders, caps).fragments, k);
    assert folders[n][..|d|] == d;
    assert inflate(d) <= inflate(folders[n]);
  }

  // ----- From a file's first cabinet to its bytes -----

  /** Going back from any fragment that holds a file leads to one where the file starts. */
  lemma {:induction false} StartsSomewhere(ps: seq<Fragment>, k: nat, f: File, total: nat) returns (s: nat)
    requires WellFormed(ps) && k < |ps| && Holds(ps[k], f, total)
    ensures s <= k && HeldAt(ps, s, ps[k].folder, f, total) && !IsContdBack(Code(ps[s], f, total))
    decreases k
  {
    hide Linked, Code, IsContdBack, IsContdForward, Holds;
    CodesMeet(ps, k, f, total);
    if IsContdBack(Code(ps[k], f, total)) {
      s := StartsSomewhere(ps, k - 1, f, total);
    } else {
      s := k;
    }
  }

  /** The last fragment visited holds the file and does not send the reader on. */
  lemma VisitEnds(ps: seq<Fragment>, k: nat, f: File, total: nat)
    requires WellFormed(ps) && k < |ps| && Holds(ps[k], f, total)
    ensures var v := Visited(ps, k, f, total);
            && v != [] && HeldAt(ps, v[|v| - 1], ps[k].folder, f, total)
            && !IsContdForward(Code(ps[v[|v| - 1]], f, total))
  {
    hide Linked, Code, IsContdBack, IsContdForward, Holds, Visited, FirstByte, LastByte;
    VisitsForward(ps, k, f, total);
    var v := Visited(ps, k, f, total);
    var last := v[|v| - 1];
    assert last == k + (|v| - 1) && HeldAt(ps, last, ps[k].folder, f, total);
    CodesMeet(ps, last, f, total);
    if last + 1 < |ps| { assert !HeldAt(ps, last + 1, ps[k].folder, f, total); }
  }

  /** The visits of a reader from fragment s on: one in each of consecutive cabinets, to exactly
      the fragments of the whole set that hold some of the file. */
  ghost predicate VisitsHolders(ps: seq<Fragment>, s: nat, v: seq<nat>, folder: nat, f: File, total: nat) {
    && v != [] && s < |ps| && (forall i :: 0 <= i < |v| ==> v[i] < |ps|)
    && (forall i :: 0 <= i < |v| ==> ps[v[i]].cab == ps[s].cab + i)
    && (forall m :: 0 <= m < |ps| ==> (m in v <==> HeldAt(ps, m, folder, f, total)))
  }

  /** The bytes at a file's place, cut out of two streams. */
  predicate SameFile(a: seq<byte>, b: seq<byte>, f: File) {
    var from, to := f.uoffFolderStart, f.uoffFolderStart + f.cbFile;
    to <= |a| && to <= |b| && a[from..to] == b[from..to]
  }

  /** Every file comes back: there is a fragment where it starts, following its codes from there
      visits exactly the fragments that hold it, and what the reader cuts out of the folder it
      has collected by the last of them is the original. */
  lemma FileComesBack(folders: seq<seq<CFData>>, caps: seq<nat>, n: nat, f: File, inflate: seq<CFData> -> seq<byte>)
    returns (s: nat, v: seq<nat>)
    requires forall i :: 0 <= i < |folders| ==> Whole(folders[i])
    requires CapsOk(caps) && n < |folders| && LayOut(folders, caps).Laid? && Inside(f, folders[n]) && Streaming(inflate)
    ensures var ps, total := LayOut(folders, caps).fragments, UncompSize(folders[n]);
            && s < |ps| && HeldAt(ps, s, n, f, total) && !IsContdBack(Code(ps[s], f, total))
            && v == Visited(ps, s, f, total) && VisitsHolders(ps, s, v, n, f, total)
            && SameFile(inflate(Collected(ps, v[|v| - 1])), inflate(folders[n]), f)
  {
    hide UncompSize, Code, IsContdForward, IsContdBack, LayOut, Collected, Whole, WellFormed, Holds, Visited,
         Streaming, Inside;
    var ps, total := LayOut(folders, caps).fragments, UncompSize(folders[n]);
    SetLinks(folders, caps);
    var k := HeldSomewhere(folders, caps, n, f);
    s := StartsSomewhere(ps, k, f, total);
    v := Visited(ps, s, f, total);
    VisitsExactly(ps, s, f, total);
    VisitEnds(ps, s, f, total);
    ExtractedIsOriginal(folders, caps, v[|v| - 1], n, f, inflate);
  }
}
