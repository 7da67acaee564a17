/** Whole cabinet sets: how folders are laid out over cabinets of given capacities, and what
    the continuation codes of their files say. */
module CabinetSet {
  import opened Bits
  import opened Bytes
  import opened CabinetData

  // ----- The codes of CFFILE.iFolder -----

  const IFOLD_MASK := 0xFFFC
  const IFOLD_CONTINUED_FROM_PREV := 0xFFFD
  const IFOLD_CONTINUED_TO_NEXT := 0xFFFE
  const IFOLD_CONTINUED_PREV_AND_NEXT := 0xFFFF
  const MAX_FOLDERS_PER_CABINET := IFOLD_MASK - 1

  predicate IsContdForward(ifold: nat) {
    And(16, ifold, 0xFFFE) == IFOLD_CONTINUED_TO_NEXT
  }

  predicate IsContdBack(ifold: nat) {
    And(16, ifold, 0xFFFD) == IFOLD_CONTINUED_FROM_PREV
  }

  /** On every 16-bit code the two mask tests single out exactly the codes they are named for. */
  lemma ContdCodes(ifold: nat)
    requires ifold < 0x1_0000
    ensures IsContdForward(ifold) <==> ifold == IFOLD_CONTINUED_TO_NEXT || ifold == IFOLD_CONTINUED_PREV_AND_NEXT
    ensures IsContdBack(ifold) <==> ifold == IFOLD_CONTINUED_FROM_PREV || ifold == IFOLD_CONTINUED_PREV_AND_NEXT
  {
    WordPowers();
    assert Pow2(1) == 2;
    assert Pow2(16) == 2 * Pow2(15);
    AndHighMask(16, ifold, 1);
    AndHighMask(15, ifold / 2, 1);
    AndTopBits(ifold);
  }

  lemma AndTopBits(ifold: nat)
    ensures And(16, ifold, 0xFFFD) == ifold % 2 + 2 * And(15, ifold / 2, 0x7FFE)
  {
  }

  // ----- Laying folders out -----

  /** A folder fragment: one CFFOLDER of one cabinet, with what the writer knows about it.
      Offsets count uncompressed bytes of the folder. The fragment holds some of the block at
      lo and of every block up to hi; the next fragment's first block is the one at nextLo. */
  datatype Fragment = Fragment(cab: nat, index: nat, folder: nat, first: bool, final: bool,
                               lo: nat, nextLo: nat, prevHi: nat, hi: nat, data: seq<CFData>)

  /** A folder, or what is left of one, waiting to be written. */
  datatype Rest = Rest(folder: nat, started: bool, lo: nat, prevHi: nat, data: seq<CFData>)

  datatype Layout = TooSmall | Laid(fragments: seq<Fragment>)

  /** The fragment that a cabinet with this much room takes. A folder without data counts as
      one byte wide, so that its empty files have a place. */
  function Fragmented(r: Rest, cab: nat, index: nat, room: nat): Fragment {
    var data := Taken(r.data, room);
    var nextLo := r.lo + UncompSize(data);
    var hi := if r.data == [] then r.lo + 1 else nextLo + Open(r.data, room);
    Fragment(cab, index, r.folder, !r.started, Left(r.data, room) == [], r.lo, nextLo, r.prevHi, hi, data)
  }

  function Continuation(r: Rest, p: Fragment, room: nat): Rest {
    Rest(r.folder, true, p.nextLo, p.hi, Left(r.data, room))
  }

  /** Nothing more goes into this cabinet: it has all the folders it may have, or no room for
      a byte of the next one. */
  predicate CabinetFull(r: Rest, index: nat, room: nat) {
    index >= MAX_FOLDERS_PER_CABINET || (r.data != [] && Taken(r.data, room) == [])
  }

  /** Writes the waiting folders into the current cabinet and those that follow. */
  function Place(rest: seq<Rest>, cab: nat, index: nat, room: nat, caps: seq<nat>): Layout
    decreases |caps|, |rest|
  {
    if rest == [] then Laid([])
    else if CabinetFull(rest[0], index, room) then
      if caps == [] then TooSmall else Place(rest, cab + 1, 0, caps[0], caps[1..])
    else
      var p := Fragmented(rest[0], cab, index, room);
      var tail :=
        if p.final then TakenFits(rest[0].data, room); Place(rest[1..], cab, index + 1, room - Cost(p.data), caps)
        else if caps == [] then TooSmall
        else Place([Continuation(rest[0], p, room)] + rest[1..], cab + 1, 0, caps[0], caps[1..]);
      if tail.TooSmall? then TooSmall else Laid([p] + tail.fragments)
  }

  /** What one step of the writer leads to, when the layout succeeds. */
  lemma PlaceStep(rest: seq<Rest>, cab: nat, index: nat, room: nat, caps: seq<nat>)
    requires rest != [] && Place(rest, cab, index, room, caps).Laid?
    ensures Cost(Fragmented(rest[0], cab, index, room).data) <= room
    ensures var p := Fragmented(rest[0], cab, index, room);
            var all := Place(rest, cab, index, room, caps);
            if CabinetFull(rest[0], index, room) then
              caps != [] && all == Place(rest, cab + 1, 0, caps[0], caps[1..])
            else if p.final then
              var tail := Place(rest[1..], cab, index + 1, room - Cost(p.data), caps);
              tail.Laid? && all == Laid([p] + tail.fragments)
            else
              caps != []
              && var tail := Place([Continuation(rest[0], p, room)] + rest[1..], cab + 1, 0, caps[0], caps[1..]);
              tail.Laid? && all == Laid([p] + tail.fragments)
  {
    hide CabinetFull, Open, UncompSize, Left;
    TakenFits(rest[0].data, room);
  }

  function Waiting(folders: seq<seq<CFData>>): (r: seq<Rest>)
    ensures |r| == |folders|
  {
    seq(|folders|, k requires 0 <= k < |folders| => Rest(k, false, 0, 0, folders[k]))
  }

  /** The layout of a set: folders in order, over cabinets of the given capacities. */
  function LayOut(folders: seq<seq<CFData>>, caps: seq<nat>): Layout {
    if caps == [] then TooSmall else Place(Waiting(folders), 0, 0, caps[0], caps[1..])
  }

  // ----- What waits to be written -----

  ghost predicate RestOk(r: Rest) {
    && Whole(r.data)
    && (if r.started then r.data != [] && 0 < r.prevHi <= r.lo + r.data[0].cbUncomp
        else r.lo == 0 && r.prevHi == 0)
  }

  ghost predicate RestsOk(rest: seq<Rest>) {
    && (forall k :: 0 <= k < |rest| ==> RestOk(rest[k]))
    && (forall k :: 0 < k < |rest| ==> !rest[k].started && rest[k].folder == rest[0].folder + k)
  }

  /** A cabinet can take at least one byte of a block behind its header. */
  ghost predicate CapsOk(caps: seq<nat>) {
    forall k :: 0 <= k < |caps| ==> caps[k] > CFDATA_SIZE
  }

  /** Where the writer stands: a folder in progress always goes on in a fresh cabinet. */
  ghost predicate PlaceOk(rest: seq<Rest>, index: nat, room: nat, caps: seq<nat>) {
    && RestsOk(rest) && CapsOk(caps)
    && (index == 0 ==> room > CFDATA_SIZE)
    && (rest != [] && rest[0].started ==> index == 0)
  }

  lemma ContinuationOk(r: Rest, cab: nat, index: nat, room: nat)
    requires RestOk(r) && !CabinetFull(r, index, room)
    ensures var p := Fragmented(r, cab, index, room);
            && FragmentOk(p)
            && (!p.final ==> RestOk(Continuation(r, p, room)))
  {
    hide Open;
    LeftIsWhole(r.data, room);
    if r.data != [] {
      FirstBlockReached(r.data, room);
      OpenBlock(r.data, room);
    }
  }

  /** If a folder goes on, the block that is left open comes next. */
  lemma OpenBlock(d: seq<CFData>, room: nat)
    requires Whole(d)
    ensures Left(d, room) != [] ==> Open(d, room) <= Left(d, room)[0].cbUncomp
  {
  }

  /** What holds of each fragment by itself. */
  ghost predicate FragmentOk(p: Fragment) {
    && p.lo <= p.nextLo && p.lo < p.hi && (p.data != [] ==> p.nextLo <= p.hi)
    && p.index < MAX_FOLDERS_PER_CABINET
    && (if p.first then p.lo == 0 && p.prevHi == 0 else 0 < p.prevHi <= p.hi)
    && (!p.final ==> p.nextLo <= p.hi)
  }

  /** What ties each fragment to the one after it: a folder that is not finished ends its
      cabinet and opens the next one. */
  ghost predicate Follows(p: Fragment, q: Fragment) {
    if p.final then
      && q.first && q.folder == p.folder + 1
      && ((q.cab == p.cab && q.index == p.index + 1) || (q.cab == p.cab + 1 && q.index == 0))
    else
      && !q.first && q.folder == p.folder
      && q.cab == p.cab + 1 && q.index == 0
      && q.lo == p.nextLo && q.prevHi == p.hi
  }

  ghost predicate Linked(ps: seq<Fragment>) {
    && (forall k :: 0 <= k < |ps| ==> FragmentOk(ps[k]))
    && (forall k :: 0 < k < |ps| ==> Follows(ps[k - 1], ps[k]))
    && (ps != [] ==> ps[|ps| - 1].final)
  }

  /** What the first fragment of a layout is. */
  ghost predicate StartsWith(ps: seq<Fragment>, rest: seq<Rest>, cab: nat, index: nat) {
    if rest == [] then ps == []
    else
      && ps != []
      && ps[0].folder == rest[0].folder && ps[0].first == !rest[0].started
      && ps[0].lo == rest[0].lo && ps[0].prevHi == rest[0].prevHi
      && ((ps[0].cab == cab && ps[0].index == index) || (index > 0 && ps[0].cab == cab + 1 && ps[0].index == 0))
  }

  lemma LinkedCons(p: Fragment, ps: seq<Fragment>)
    requires FragmentOk(p) && Linked(ps)
    requires if ps == [] then p.final else Follows(p, ps[0])
    ensures Linked([p] + ps)
  {
    var all := [p] + ps;
    forall k | 0 < k < |all|
      ensures Follows(all[k - 1], all[k])
    {
      if k > 1 { assert all[k - 1] == ps[k - 2] && all[k] == ps[k - 1]; }
    }
    assert ps != [] ==> all[|all| - 1] == ps[|ps| - 1];
  }

  lemma TailOk(rest: seq<Rest>)
    requires RestsOk(rest) && rest != []
    ensures RestsOk(rest[1..]) && RestOk(rest[0])
  {
    assert forall k :: 0 < k < |rest| ==> rest[k] == rest[1..][k - 1];
  }

  lemma ContinuedOk(rest: seq<Rest>, r: Rest)
    requires RestsOk(rest) && rest != [] && RestOk(r) && r.folder == rest[0].folder
    ensures RestsOk([r] + rest[1..])
  {
    var next := [r] + rest[1..];
    assert forall k :: 0 < k < |next| ==> next[k] == rest[k];
  }

  /** Every layout is a chain: within it each fragment is tied to the next, the last folder is
      finished, and only the last folder of a cabinet can go on in the next, as its first. */
  lemma {:induction false} PlaceLinks(rest: seq<Rest>, cab: nat, index: nat, room: nat, caps: seq<nat>)
    requires PlaceOk(rest, index, room, caps) && Place(rest, cab, index, room, caps).Laid?
    ensures var ps := Place(rest, cab, index, room, caps).fragments;
            Linked(ps) && StartsWith(ps, rest, cab, index)
    decreases |caps|, |rest|
  {
    hide RestOk, RestsOk, FragmentOk, Follows, Linked, Fragmented, CabinetFull;
    if rest == [] {
      NoneLinked();
    } else if CabinetFull(rest[0], index, room) {
      NotFullWhenFresh(rest, index, room);
      PlaceLinks(rest, cab + 1, 0, caps[0], caps[1..]);
    } else {
      TailOk(rest);
      ContinuationOk(rest[0], cab, index, room);
      var p := Fragmented(rest[0], cab, index, room);
      FragmentedFields(rest[0], cab, index, room);
      if p.final {
        TakenFits(rest[0].data, room);
        FreshTail(rest);
        PlaceLinks(rest[1..], cab, index + 1, room - Cost(p.data), caps);
        var ps := Place(rest[1..], cab, index + 1, room - Cost(p.data), caps).fragments;
        if ps != [] { FollowsFresh(p, ps, rest); }
        LinkedCons(p, ps);
      } else {
        var r := Continuation(rest[0], p, room);
        var next := [r] + rest[1..];
        ContinuedOk(rest, r);
        PlaceLinks(next, cab + 1, 0, caps[0], caps[1..]);
        var ps := Place(next, cab + 1, 0, caps[0], caps[1..]).fragments;
        assert next[0] == r;
        FollowsContinued(p, ps, r, next);
        LinkedCons(p, ps);
      }
    }
  }

  lemma NoneLinked()
    ensures Linked([])
  {
  }

  lemma NotFullWhenFresh(rest: seq<Rest>, index: nat, room: nat)
    requires rest != [] && CabinetFull(rest[0], index, room) && (index == 0 ==> room > CFDATA_SIZE)
    ensures index > 0
  {
    if index == 0 && rest[0].data != [] { TakesSome(rest[0].data, room); }
  }

  lemma FragmentedFields(r: Rest, cab: nat, index: nat, room: nat)
    ensures var p := Fragmented(r, cab, index, room);
            && p.cab == cab && p.index == index && p.folder == r.folder && p.first == !r.started
            && p.lo == r.lo && p.prevHi == r.prevHi
            && p.data == Taken(r.data, room) && p.final == (Left(r.data, room) == [])
  {
  }

  lemma FreshTail(rest: seq<Rest>)
    requires RestsOk(rest) && rest != []
    ensures rest[1..] != [] ==> !rest[1..][0].started && rest[1..][0].folder == rest[0].folder + 1
  {
  }

  lemma FollowsFresh(p: Fragment, ps: seq<Fragment>, rest: seq<Rest>)
    requires RestsOk(rest) && rest != [] && p.final && p.folder == rest[0].folder
    requires ps != [] && StartsWith(ps, rest[1..], p.cab, p.index + 1)
    ensures Follows(p, ps[0])
  {
    FreshTail(rest);
  }

  lemma FollowsContinued(p: Fragment, ps: seq<Fragment>, r: Rest, next: seq<Rest>)
    requires !p.final && r.started && r.folder == p.folder && r.lo == p.nextLo && r.prevHi == p.hi
    requires next != [] && next[0] == r && StartsWith(ps, next, p.cab + 1, 0)
    ensures ps != [] && Follows(p, ps[0])
  {
  }

  // ----- Rejoining a folder -----

  /** All records of one folder, cabinet after cabinet. */
  function Gathered(ps: seq<Fragment>, folder: nat): seq<CFData> {
    if ps == [] then []
    else (if ps[0].folder == folder then ps[0].data else []) + Gathered(ps[1..], folder)
  }

  lemma GatheredCons(p: Fragment, ps: seq<Fragment>, folder: nat)
    ensures Gathered([p] + ps, folder)
         == (if p.folder == folder then p.data else []) + Gathered(ps, folder)
  {
    assert ([p] + ps)[1..] == ps;
  }

  /** No fragment of a folder that is not waiting. */
  lemma {:induction false} NotWaiting(rest: seq<Rest>, cab: nat, index: nat, room: nat, caps: seq<nat>, folder: nat)
    requires RestsOk(rest) && Place(rest, cab, index, room, caps).Laid?
    requires rest != [] ==> folder < rest[0].folder
    ensures Gathered(Place(rest, cab, index, room, caps).fragments, folder) == []
    decreases |caps|, |rest|
  {
    hide Fragmented, CabinetFull, RestOk;
    if rest == [] {
    } else if CabinetFull(rest[0], index, room) {
      NotWaiting(rest, cab + 1, 0, caps[0], caps[1..], folder);
    } else {
      FragmentedFields(rest[0], cab, index, room);
      var p := Fragmented(rest[0], cab, index, room);
      if p.final {
        TakenFits(rest[0].data, room);
        TailOk(rest);
        NotWaiting(rest[1..], cab, index + 1, room - Cost(p.data), caps, folder);
        GatheredCons(p, Place(rest[1..], cab, index + 1, room - Cost(p.data), caps).fragments, folder);
      } else {
        var next := [Continuation(rest[0], p, room)] + rest[1..];
        NextOk(rest, cab, index, room);
        NotWaiting(next, cab + 1, 0, caps[0], caps[1..], folder);
        GatheredCons(p, Place(next, cab + 1, 0, caps[0], caps[1..]).fragments, folder);
      }
    }
  }

  lemma NextOk(rest: seq<Rest>, cab: nat, index: nat, room: nat)
    requires RestsOk(rest) && rest != [] && !CabinetFull(rest[0], index, room)
    requires !Fragmented(rest[0], cab, index, room).final
    ensures var r := Continuation(rest[0], Fragmented(rest[0], cab, index, room), room);
            && RestsOk([r] + rest[1..]) && r.folder == rest[0].folder && r.data == Left(rest[0].data, room)
  {
    ContinuationOk(rest[0], cab, index, room);
    ContinuedOk(rest, Continuation(rest[0], Fragmented(rest[0], cab, index, room), room));
  }

  /** Round trip and conservation: whatever the capacities, gathering a folder's records over
      the cabinets and joining them gives back its blocks, and no byte, no uncompressed byte
      and no block is gained or lost. */
  lemma {:induction false} PlaceJoins(rest: seq<Rest>, cab: nat, index: nat, room: nat, caps: seq<nat>, k: nat)
    requires RestsOk(rest) && Place(rest, cab, index, room, caps).Laid? && k < |rest|
    ensures var records := Gathered(Place(rest, cab, index, room, caps).fragments, rest[k].folder);
            Joined(records) == rest[k].data && Counts(records) == Counts(rest[k].data)
    decreases |caps|, |rest|
  {
    hide Place, Fragmented, CabinetFull, RestOk, Joined, Counts, Gathered;
    PlaceStep(rest, cab, index, room, caps);
    if CabinetFull(rest[0], index, room) {
      PlaceJoins(rest, cab + 1, 0, caps[0], caps[1..], k);
    } else {
      FragmentedFields(rest[0], cab, index, room);
      var p := Fragmented(rest[0], cab, index, room);
      var f := rest[k].folder;
      if p.final {
        TakenFits(rest[0].data, room);
        TailOk(rest);
        var ps := Place(rest[1..], cab, index + 1, room - Cost(p.data), caps).fragments;
        GatheredCons(p, ps, f);
        if k == 0 {
          NotWaiting(rest[1..], cab, index + 1, room - Cost(p.data), caps, f);
          JoinsFirst(rest[0], room, []);
        } else {
          PlaceJoins(rest[1..], cab, index + 1, room - Cost(p.data), caps, k - 1);
          assert [] + Gathered(ps, f) == Gathered(ps, f);
        }
      } else {
        NextOk(rest, cab, index, room);
        var next := [Continuation(rest[0], p, room)] + rest[1..];
        var ps := Place(next, cab + 1, 0, caps[0], caps[1..]).fragments;
        GatheredCons(p, ps, f);
        PlaceJoins(next, cab + 1, 0, caps[0], caps[1..], k);
        if k == 0 {
          JoinsFirst(rest[0], room, Gathered(ps, f));
        } else {
          assert [] + Gathered(ps, f) == Gathered(ps, f);
        }
      }
    }
  }

  /** One cut, whatever becomes of the part that is left. */
  lemma JoinsFirst(r: Rest, room: nat, later: seq<CFData>)
    requires RestOk(r)
    requires Left(r.data, room) != [] ==>
               Joined(later) == Left(r.data, room) && Counts(later) == Counts(Left(r.data, room))
    requires Left(r.data, room) == [] ==> later == []
    ensures Joined(Taken(r.data, room) + later) == r.data
    ensures Counts(Taken(r.data, room) + later) == Counts(r.data)
  {
    hide Joined, Counts, Taken, Left;
    CutJoins(r.data, room);
    CutConserves(r.data, room);
    CountsConcat(Taken(r.data, room), later);
    LeftIsWhole(r.data, room);
    JoinedWhole(Left(r.data, room));
    if Left(r.data, room) != [] {
      JoinedThrough(Taken(r.data, room), later, Left(r.data, room));
    }
  }

  /** The same, for a whole set. */
  lemma SetJoins(folders: seq<seq<CFData>>, caps: seq<nat>, f: nat)
    requires forall k :: 0 <= k < |folders| ==> Whole(folders[k])
    requires f < |folders| && LayOut(folders, caps).Laid?
    ensures var records := Gathered(LayOut(folders, caps).fragments, f);
            && Joined(records) == folders[f]
            && StoredSize(records) == StoredSize(folders[f])
            && UncompSize(records) == UncompSize(folders[f])
            && |records| == |folders[f]| + Splits(records)
  {
    WaitingOk(folders);
    PlaceJoins(Waiting(folders), 0, 0, caps[0], caps[1..], f);
    WholeHasNoSplits(folders[f]);
  }

  lemma WaitingOk(folders: seq<seq<CFData>>)
    requires forall k :: 0 <= k < |folders| ==> Whole(folders[k])
    ensures RestsOk(Waiting(folders))
  {
  }

  lemma {:induction false} WholeHasNoSplits(d: seq<CFData>)
    requires Whole(d)
    ensures Splits(d) == 0
    decreases |d|
  {
    if d != [] { WholeHasNoSplits(d[1..]); }
  }

  // ----- Two pieces -----

  ghost predicate AllAdmit(caps: seq<nat>, d: seq<CFData>) {
    forall k :: 0 <= k < |caps| ==> Admits(caps[k], d)
  }

  lemma AllAdmitLeft(caps: seq<nat>, d: seq<CFData>, room: nat)
    requires AllAdmit(caps, d)
    ensures AllAdmit(caps, Left(d, room))
  {
    hide Admits;
    forall k | 0 <= k < |caps|
      ensures Admits(caps[k], Left(d, room))
    {
      LeftAdmits(d, room, caps[k]);
    }
  }

  lemma AdmitsFirst(caps: seq<nat>, d: seq<CFData>)
    requires AllAdmit(caps, d) && caps != []
    ensures AllAdmit(caps[1..], d) && (d != [] ==> CFDATA_SIZE + |d[0].ab| <= caps[0])
  {
    assert Admits(caps[0], d);
  }

  /** If every cabinet to come can hold each block of a folder, no block is cut twice, and a
      remainder is not cut at all. */
  lemma {:induction false} PlaceCutsOnce(rest: seq<Rest>, cab: nat, index: nat, room: nat, caps: seq<nat>, k: nat)
    requires RestsOk(rest) && Place(rest, cab, index, room, caps).Laid? && k < |rest|
    requires AllAdmit(caps, rest[k].data)
    requires k == 0 && rest[0].started ==> CFDATA_SIZE + |rest[0].data[0].ab| <= room
    ensures var records := Gathered(Place(rest, cab, index, room, caps).fragments, rest[k].folder);
            CutOnce(records) && (k == 0 && rest[0].started && records != [] ==> !records[0].Continues())
    decreases |caps|, |rest|
  {
    hide Place, Fragmented, CabinetFull, RestOk, Gathered, CutOnce, AllAdmit, Taken, Left;
    PlaceStep(rest, cab, index, room, caps);
    if CabinetFull(rest[0], index, room) {
      AdmitsFirst(caps, rest[k].data);
      RestIsOk(rest, k);
      PlaceCutsOnce(rest, cab + 1, 0, caps[0], caps[1..], k);
    } else {
      FragmentedFields(rest[0], cab, index, room);
      var p := Fragmented(rest[0], cab, index, room);
      var f := rest[k].folder;
      TailOk(rest);
      if p.final {
        TakenFits(rest[0].data, room);
        var ps := Place(rest[1..], cab, index + 1, room - Cost(p.data), caps).fragments;
        GatheredCons(p, ps, f);
        if k == 0 {
          NotWaiting(rest[1..], cab, index + 1, room - Cost(p.data), caps, f);
          NoneCut();
          OneCut(rest[0], room, []);
        } else {
          PlaceCutsOnce(rest[1..], cab, index + 1, room - Cost(p.data), caps, k - 1);
          assert [] + Gathered(ps, f) == Gathered(ps, f);
        }
      } else {
        NextOk(rest, cab, index, room);
        var r := Continuation(rest[0], p, room);
        var next := [r] + rest[1..];
        var ps := Place(next, cab + 1, 0, caps[0], caps[1..]).fragments;
        GatheredCons(p, ps, f);
        assert next[k] == if k == 0 then r else rest[k];
        if k == 0 { AllAdmitLeft(caps, rest[0].data, room); }
        AdmitsFirst(caps, next[k].data);
        PlaceCutsOnce(next, cab + 1, 0, caps[0], caps[1..], k);
        if k == 0 {
          OneCut(rest[0], room, Gathered(ps, f));
        } else {
          assert [] + Gathered(ps, f) == Gathered(ps, f);
        }
      }
    }
  }

  lemma NoneCut()
    ensures CutOnce([])
  {
  }

  lemma RestIsOk(rest: seq<Rest>, k: nat)
    requires RestsOk(rest) && k < |rest|
    ensures RestOk(rest[k]) && (rest[k].started ==> rest[k].data != [])
  {
  }

  /** One cut, if what is left goes on without being cut again. */
  lemma OneCut(r: Rest, room: nat, later: seq<CFData>)
    requires RestOk(r) && CutOnce(later) && (later != [] ==> !later[0].Continues())
    requires Left(r.data, room) == [] ==> later == []
    requires r.started ==> CFDATA_SIZE + |r.data[0].ab| <= room
    ensures var records := Taken(r.data, room) + later;
            CutOnce(records) && (r.started && records != [] ==> !records[0].Continues())
  {
    hide CutOnce, Taken, Left;
    TakenEnds(r.data, room);
    CutOnceConcat(Taken(r.data, room), later);
    if r.started { FirstIsWhole(r.data, room); }
  }

  /** In a set whose every cabinet can hold the largest block of a folder, no block of it is in
      more than two pieces. */
  lemma SetCutsOnce(folders: seq<seq<CFData>>, caps: seq<nat>, f: nat)
    requires forall k :: 0 <= k < |folders| ==> Whole(folders[k])
    requires f < |folders| && LayOut(folders, caps).Laid? && AllAdmit(caps, folders[f])
    ensures CutOnce(Gathered(LayOut(folders, caps).fragments, f))
  {
    hide AllAdmit, CutOnce, Gathered;
    WaitingOk(folders);
    AdmitsFirst(caps, folders[f]);
    PlaceCutsOnce(Waiting(folders), 0, 0, caps[0], caps[1..], f);
  }

  lemma PlaceCut(r: Rest, cab: nat, room: nat, caps: seq<nat>)
    requires !CabinetFull(r, 0, room) && !Fragmented(r, cab, 0, room).final && caps != []
    ensures var p := Fragmented(r, cab, 0, room);
            var tail := Place([Continuation(r, p, room)], cab + 1, 0, caps[0], caps[1..]);
            Place([r], cab, 0, room, caps) == if tail.TooSmall? then TooSmall else Laid([p] + tail.fragments)
  {
    hide CabinetFull, Fragmented, Continuation;
    var p := Fragmented(r, cab, 0, room);
    assert [Continuation(r, p, room)] + [r][1..] == [Continuation(r, p, room)];
  }

  lemma PlaceWhole(r: Rest, cab: nat, room: nat, caps: seq<nat>)
    requires !CabinetFull(r, 0, room) && Fragmented(r, cab, 0, room).final
    ensures Place([r], cab, 0, room, caps) == Laid([Fragmented(r, cab, 0, room)])
  {
    hide CabinetFull;
    var p := Fragmented(r, cab, 0, room);
    TakenFits(r.data, room);
    assert [r][1..] == [] && Place([], cab, 1, room - Cost(p.data), caps) == Laid([]);
    assert [p] + [] == [p];
  }

  /** In smaller cabinets there are more: eight bytes over capacities of 10 make three pieces. */
  lemma ThreePieces(ab: seq<byte>)
    requires |ab| == 8
    ensures var layout := LayOut([[CFData(ab, 10)]], [10, 10, 100]);
            layout.Laid? && Gathered(layout.fragments, 0)
                            == [CFData(ab[..2], 0), CFData(ab[2..4], 0), CFData(ab[4..], 10)]
  {
    hide Place, Gathered, Open, UncompSize;
    var r := Rest(0, false, 0, 0, [CFData(ab, 10)]);
    assert Waiting([[CFData(ab, 10)]]) == [r];
    var p := Fragmented(r, 0, 0, 10);
    assert Taken(r.data, 10) == [CFData(ab[..2], 0)] && Left(r.data, 10) == [CFData(ab[2..], 10)];
    var r' := Continuation(r, p, 10);
    var p' := Fragmented(r', 1, 0, 10);
    assert ab[2..][..2] == ab[2..4] && ab[2..][2..] == ab[4..];
    assert Taken(r'.data, 10) == [CFData(ab[2..4], 0)] && Left(r'.data, 10) == [CFData(ab[4..], 10)];
    var r'' := Continuation(r', p', 10);
    var p'' := Fragmented(r'', 2, 0, 100);
    assert r''.data == [CFData(ab[4..], 10)] && r''.data[1..] == [];
    assert Taken(r''.data, 100) == r''.data && Left(r''.data, 100) == [];
    assert [10, 10, 100][1..] == [10, 100] && [10, 100][1..] == [100];
    PlaceCut(r, 0, 10, [10, 100]);
    PlaceCut(r', 1, 10, [100]);
    PlaceWhole(r'', 2, 100, [100][1..]);
    GatheredThree(p, p', p'');
  }

  lemma GatheredThree(p: Fragment, p': Fragment, p'': Fragment)
    requires p.folder == p'.folder == p''.folder
    ensures Gathered([p] + ([p'] + [p'']), p.folder) == p.data + (p'.data + p''.data)
  {
    GatheredCons(p, [p'] + [p''], p.folder);
    GatheredCons(p', [p''], p.folder);
    GatheredCons(p'', [], p.folder);
    assert [p''] + [] == [p''] && p''.data + [] == p''.data;
  }

  // ----- Capacities -----

  /** The bytes of all records in one cabinet. */
  function Filled(ps: seq<Fragment>, cab: nat): nat {
    if ps == [] then 0 else (if ps[0].cab == cab then Cost(ps[0].data) else 0) + Filled(ps[1..], cab)
  }

  /** No cabinet is filled beyond its capacity. */
  lemma {:induction false} PlaceFits(rest: seq<Rest>, cab: nat, index: nat, room: nat, caps: seq<nat>, c: nat)
    requires Place(rest, cab, index, room, caps).Laid?
    ensures var used := Filled(Place(rest, cab, index, room, caps).fragments, c);
            used <= if c == cab then room else if cab < c <= cab + |caps| then caps[c - cab - 1] else 0
    decreases |caps|, |rest|
  {
    hide CabinetFull, Fragmented;
    if rest == [] {
    } else if CabinetFull(rest[0], index, room) {
      PlaceFits(rest, cab + 1, 0, caps[0], caps[1..], c);
    } else {
      FragmentedFields(rest[0], cab, index, room);
      TakenFits(rest[0].data, room);
      var p := Fragmented(rest[0], cab, index, room);
      if p.final {
        PlaceFits(rest[1..], cab, index + 1, room - Cost(p.data), caps, c);
        assert ([p] + Place(rest[1..], cab, index + 1, room - Cost(p.data), caps).fragments)[1..]
            == Place(rest[1..], cab, index + 1, room - Cost(p.data), caps).fragments;
      } else {
        var next := [Continuation(rest[0], p, room)] + rest[1..];
        PlaceFits(next, cab + 1, 0, caps[0], caps[1..], c);
        assert ([p] + Place(next, cab + 1, 0, caps[0], caps[1..]).fragments)[1..]
            == Place(next, cab + 1, 0, caps[0], caps[1..]).fragments;
      }
    }
  }

  lemma SetFits(folders: seq<seq<CFData>>, caps: seq<nat>, c: nat)
    requires LayOut(folders, caps).Laid? && c < |caps|
    ensures Filled(LayOut(folders, caps).fragments, c) <= caps[c]
  {
    PlaceFits(Waiting(folders), 0, 0, caps[0], caps[1..], c);
  }

  // ----- Enough cabinets -----

  /** What each waiting folder can take cabinets for: its bytes, and itself. */
  function Work(rest: seq<Rest>): nat {
    if rest == [] then 0 else StoredSize(rest[0].data) + 1 + Work(rest[1..])
  }

  lemma WorkCons(r: Rest, rest: seq<Rest>)
    ensures Work([r] + rest) == StoredSize(r.data) + 1 + Work(rest)
  {
    assert ([r] + rest)[1..] == rest;
  }

  lemma LeavesLess(d: seq<CFData>, room: nat)
    requires Whole(d) && Taken(d, room) != []
    ensures StoredSize(Left(d, room)) < StoredSize(d)
  {
    CutConserves(d, room);
    if CFDATA_SIZE + |d[0].ab| <= room {
      assert Taken(d, room)[0] == d[0];
    } else {
      assert Taken(d, room)[0].ab == d[0].ab[..room - CFDATA_SIZE];
    }
  }

  /** With a cabinet for every byte and every folder the layout cannot fail. */
  lemma {:induction false} PlaceSucceeds(rest: seq<Rest>, cab: nat, index: nat, room: nat, caps: seq<nat>)
    requires PlaceOk(rest, index, room, caps)
    requires Work(rest) <= |caps| + if index == 0 then 1 else 0
    ensures Place(rest, cab, index, room, caps).Laid?
    decreases |caps|, |rest|
  {
    hide RestOk, RestsOk, CabinetFull, Fragmented;
    if rest == [] {
    } else if CabinetFull(rest[0], index, room) {
      NotFullWhenFresh(rest, index, room);
      PlaceSucceeds(rest, cab + 1, 0, caps[0], caps[1..]);
    } else {
      TailOk(rest);
      FragmentedFields(rest[0], cab, index, room);
      var p := Fragmented(rest[0], cab, index, room);
      WorkCons(rest[0], rest[1..]);
      assert [rest[0]] + rest[1..] == rest;
      if p.final {
        TakenFits(rest[0].data, room);
        FreshTail(rest);
        PlaceSucceeds(rest[1..], cab, index + 1, room - Cost(p.data), caps);
      } else {
        NextOk(rest, cab, index, room);
        var r := Continuation(rest[0], p, room);
        TookSome(rest[0], index, room);
        LeavesLess(rest[0].data, room);
        WorkCons(r, rest[1..]);
        var next := [r] + rest[1..];
        assert next[0] == r;
        PlaceSucceeds(next, cab + 1, 0, caps[0], caps[1..]);
      }
    }
  }

  lemma TookSome(r: Rest, index: nat, room: nat)
    requires RestOk(r) && !CabinetFull(r, index, room) && Left(r.data, room) != []
    ensures Taken(r.data, room) != [] && Whole(r.data)
  {
  }

  lemma SetSucceeds(folders: seq<seq<CFData>>, caps: seq<nat>)
    requires forall k :: 0 <= k < |folders| ==> Whole(folders[k])
    requires CapsOk(caps) && caps != [] && Work(Waiting(folders)) <= |caps|
    ensures LayOut(folders, caps).Laid?
  {
    WaitingOk(folders);
    PlaceSucceeds(Waiting(folders), 0, 0, caps[0], caps[1..]);
  }

  /** A chain that begins where a cabinet set begins. */
  ghost predicate WellFormed(ps: seq<Fragment>) {
    Linked(ps) && (ps != [] ==> ps[0].first && ps[0].cab == 0 && ps[0].index == 0)
  }

  /** Every cabinet set the writer produces is well formed. */
  lemma SetLinks(folders: seq<seq<CFData>>, caps: seq<nat>)
    requires forall k :: 0 <= k < |folders| ==> Whole(folders[k])
    requires CapsOk(caps) && LayOut(folders, caps).Laid?
    ensures WellFormed(LayOut(folders, caps).fragments)
  {
    WaitingOk(folders);
    PlaceLinks(Waiting(folders), 0, 0, caps[0], caps[1..]);
  }

  // ----- Files and their codes -----

  /** The folder a file is in is known from its fragment; offsets are of uncompressed bytes. */
  datatype File = File(cbFile: nat, uoffFolderStart: nat)

  /** The first and the last byte that decide where a file is. An empty file is where its
      offset is, or at the end of the folder. */
  function FirstByte(f: File, total: nat): nat {
    if f.uoffFolderStart < total then f.uoffFolderStart else if total == 0 then 0 else total - 1
  }

  function LastByte(f: File, total: nat): nat {
    if f.cbFile == 0 then FirstByte(f, total) else f.uoffFolderStart + f.cbFile - 1
  }

  /** Whether some of the file's data is in a fragment of its folder. */
  ghost predicate Holds(p: Fragment, f: File, total: nat) {
    p.lo <= LastByte(f, total) && FirstByte(f, total) < p.hi
  }

  /** The iFolder a writer stores for a file in the cabinet of this fragment. */
  function Code(p: Fragment, f: File, total: nat): nat {
    var back := !p.first && FirstByte(f, total) < p.prevHi;
    var forward := !p.final && p.nextLo <= LastByte(f, total);
    if back && forward then IFOLD_CONTINUED_PREV_AND_NEXT
    else if back then IFOLD_CONTINUED_FROM_PREV
    else if forward then IFOLD_CONTINUED_TO_NEXT
    else p.index
  }

  lemma CodeTests(p: Fragment, f: File, total: nat)
    requires FragmentOk(p)
    ensures IsContdForward(Code(p, f, total)) <==> !p.final && p.nextLo <= LastByte(f, total)
    ensures IsContdBack(Code(p, f, total)) <==> !p.first && FirstByte(f, total) < p.prevHi
    ensures Code(p, f, total) < 0x1_0000
  {
    hide IsContdForward, IsContdBack;
    ContdCodes(Code(p, f, total));
  }

  ghost predicate InFolder(ps: seq<Fragment>, k: int, folder: nat) {
    0 <= k < |ps| && ps[k].folder == folder
  }

  /** A file's code says "continued" in a direction exactly when the neighbouring fragment is
      of the same folder and holds some of the file too. So a file continued forward in one
      cabinet is continued back in the next, and the other way round. */
  lemma CodesMeet(ps: seq<Fragment>, k: nat, f: File, total: nat)
    requires WellFormed(ps) && k < |ps| && Holds(ps[k], f, total)
    ensures IsContdForward(Code(ps[k], f, total))
       <==> InFolder(ps, k + 1, ps[k].folder) && Holds(ps[k + 1], f, total)
    ensures IsContdBack(Code(ps[k], f, total))
       <==> InFolder(ps, k - 1, ps[k].folder) && Holds(ps[k - 1], f, total)
  {
    hide IsContdForward, IsContdBack, Code;
    CodeTests(ps[k], f, total);
    if k + 1 < |ps| {
      assert Follows(ps[(k + 1) - 1], ps[k + 1]) && FragmentOk(ps[k + 1]);
    }
    if k > 0 {
      assert Follows(ps[k - 1], ps[k]) && FragmentOk(ps[k - 1]);
    } else {
      assert FragmentOk(ps[0]);
    }
  }

  // ----- Resolving a code -----

  /** The number of folders in a cabinet. */
  function FolderCount(ps: seq<Fragment>, cab: nat): nat {
    if ps == [] then 0 else FolderCount(ps[..|ps| - 1], cab) + if ps[|ps| - 1].cab == cab then 1 else 0
  }

  /** The folder index a reader takes from a code: the first folder, the last, or the only one. */
  function Resolved(code: nat, count: nat): int {
    if code == IFOLD_CONTINUED_FROM_PREV then 0
    else if code == IFOLD_CONTINUED_TO_NEXT then count - 1
    else if code == IFOLD_CONTINUED_PREV_AND_NEXT then 0
    else code
  }

  lemma {:induction false} CabsGrow(ps: seq<Fragment>, j: nat, k: nat)
    requires Linked(ps) && j <= k < |ps|
    ensures ps[j].cab <= ps[k].cab
    ensures ps[j].cab == ps[k].cab ==> ps[k].index == ps[j].index + (k - j)
    ensures j < k && !ps[j].final ==> ps[j].cab < ps[k].cab
    decreases k - j
  {
    hide FragmentOk;
    if j < k {
      assert Follows(ps[(j + 1) - 1], ps[j + 1]);
      CabsGrow(ps, j + 1, k);
    }
  }

  lemma {:induction false} CountUpTo(ps: seq<Fragment>, k: nat, n: nat)
    requires WellFormed(ps) && k < n <= |ps|
    requires forall m :: k < m < n ==> ps[m].cab > ps[k].cab
    ensures FolderCount(ps[..n], ps[k].cab) == ps[k].index + 1
    decreases n + k
  {
    hide FragmentOk, Follows;
    assert ps[..n][..n - 1] == ps[..n - 1];
    if n > k + 1 {
      CountUpTo(ps, k, n - 1);
    } else if k == 0 {
      assert FolderCount(ps[..0], ps[0].cab) == 0;
    } else {
      CabsGrow(ps, k - 1, k);
      if ps[k - 1].cab == ps[k].cab {
        CountUpTo(ps, k - 1, k);
      } else {
        NoneYet(ps, k, ps[k].cab);
        NewCabinet(ps, k);
      }
    }
  }

  lemma NewCabinet(ps: seq<Fragment>, k: nat)
    requires Linked(ps) && 0 < k < |ps| && ps[k - 1].cab != ps[k].cab
    ensures ps[k].index == 0
  {
    assert Follows(ps[k - 1], ps[k]);
  }

  lemma {:induction false} NoneYet(ps: seq<Fragment>, n: nat, cab: nat)
    requires Linked(ps) && 0 < n <= |ps| && ps[n - 1].cab < cab
    ensures FolderCount(ps[..n], cab) == 0
  {
    assert ps[..n][..n - 1] == ps[..n - 1];
    if n > 1 {
      CabsGrow(ps, n - 2, n - 1);
      NoneYet(ps, n - 1, cab);
    }
  }

  /** Every code resolves, within its cabinet, to the folder that holds the file: an index in
      range, and in the middle of a file the only folder there is. */
  lemma CodeResolves(ps: seq<Fragment>, k: nat, f: File, total: nat)
    requires WellFormed(ps) && k < |ps|
    ensures var count := FolderCount(ps, ps[k].cab);
            var code := Code(ps[k], f, total);
            && Resolved(code, count) == ps[k].index < count
            && (code == IFOLD_CONTINUED_PREV_AND_NEXT ==> count == 1)
  {
    hide FragmentOk, Follows;
    var end := LastInCabinet(ps, k);
    CountUpTo(ps, end, |ps|);
    assert ps[..|ps|] == ps;
    CabsGrow(ps, k, end);
    CodeFits(ps, k, f, total);
    if k < end && !ps[k].final { assert false; }
  }

  /** Within a code's meaning: what the code says about the fragment that carries it. */
  lemma CodeFits(ps: seq<Fragment>, k: nat, f: File, total: nat)
    requires Linked(ps) && k < |ps|
    ensures ps[k].index < MAX_FOLDERS_PER_CABINET
    ensures !ps[k].first ==> ps[k].index == 0 || k == 0
  {
    assert FragmentOk(ps[k]);
    if k > 0 { assert Follows(ps[k - 1], ps[k]); }
  }

  lemma LastInCabinet(ps: seq<Fragment>, k: nat) returns (end: nat)
    requires Linked(ps) && k < |ps|
    ensures k <= end < |ps| && ps[end].cab == ps[k].cab
    ensures forall m :: end < m < |ps| ==> ps[m].cab > ps[end].cab
  {
    hide FragmentOk, Follows;
    end := k;
    while end + 1 < |ps| && ps[end + 1].cab == ps[k].cab
      invariant k <= end < |ps| && ps[end].cab == ps[k].cab
    {
      end := end + 1;
    }
    forall m | end < m < |ps|
      ensures ps[m].cab > ps[end].cab
    {
      CabsGrow(ps, end, end + 1);
      CabsGrow(ps, end + 1, m);
    }
  }

  // ----- Following a file -----

  function CabinetCount(ps: seq<Fragment>): nat {
    if ps == [] then 0 else ps[|ps| - 1].cab + 1
  }

  /** The position of a folder of a cabinet, as a reader finds it by looking. */
  function Lookup(ps: seq<Fragment>, cab: nat, index: nat): (k: nat)
    ensures k <= |ps|
    ensures k < |ps| ==> ps[k].cab == cab && ps[k].index == index
    ensures forall m :: 0 <= m < k ==> ps[m].cab != cab || ps[m].index != index
  {
    if ps == [] then 0
    else if ps[0].cab == cab && ps[0].index == index then 0
    else 1 + Lookup(ps[1..], cab, index)
  }

  /** The fragments a reader visits from one entry of a file on: while the code says forward
      and there is a next cabinet, that cabinet's first folder. */
  function Visited(ps: seq<Fragment>, k: nat, f: File, total: nat): seq<nat>
    requires k < |ps|
    decreases CabinetCount(ps) - ps[k].cab
  {
    if IsContdForward(Code(ps[k], f, total)) && ps[k].cab + 1 < CabinetCount(ps) then
      var next := Lookup(ps, ps[k].cab + 1, 0);
      if next < |ps| then [k] + Visited(ps, next, f, total) else [k]
    else [k]
  }

  /** Along the chain folders come in order, and within a folder the extents move forward. */
  lemma {:induction false} ExtentsGrow(ps: seq<Fragment>, j: nat, k: nat)
    requires Linked(ps) && j <= k < |ps|
    ensures ps[j].folder <= ps[k].folder
    ensures ps[j].folder == ps[k].folder ==> ps[j].lo <= ps[k].lo && ps[j].hi <= ps[k].hi
    decreases k - j
  {
    if j < k {
      assert Follows(ps[(j + 1) - 1], ps[j + 1]);
      assert FragmentOk(ps[j]) && FragmentOk(ps[j + 1]);
      ExtentsGrow(ps, j + 1, k);
    }
  }

  ghost predicate HeldAt(ps: seq<Fragment>, k: int, folder: nat, f: File, total: nat) {
    InFolder(ps, k, folder) && Holds(ps[k], f, total)
  }

  /** If the next fragment does not hold a file that this one holds, no later one does. */
  lemma NoneLater(ps: seq<Fragment>, k: nat, m: nat, f: File, total: nat)
    requires Linked(ps) && k < m < |ps| && Holds(ps[k], f, total)
    requires HeldAt(ps, m, ps[k].folder, f, total)
    ensures HeldAt(ps, k + 1, ps[k].folder, f, total)
  {
    hide FirstByte, LastByte, Linked;
    ExtentsGrow(ps, k, k + 1);
    ExtentsGrow(ps, k + 1, m);
  }

  lemma NoneEarlier(ps: seq<Fragment>, k: nat, m: nat, f: File, total: nat)
    requires Linked(ps) && m < k < |ps| && Holds(ps[k], f, total)
    requires HeldAt(ps, m, ps[k].folder, f, total)
    ensures HeldAt(ps, k - 1, ps[k].folder, f, total)
  {
    hide FirstByte, LastByte, Linked;
    ExtentsGrow(ps, m, k - 1);
    ExtentsGrow(ps, k - 1, k);
  }

  lemma NextIsLookedUp(ps: seq<Fragment>, k: nat)
    requires Linked(ps) && k + 1 < |ps| && !ps[k].final
    ensures ps[k].cab + 1 < CabinetCount(ps)
    ensures Lookup(ps, ps[k].cab + 1, 0) == k + 1
  {
    hide FragmentOk;
    var next := Lookup(ps, ps[k].cab + 1, 0);
    assert Follows(ps[(k + 1) - 1], ps[k + 1]);
    CabsGrow(ps, k + 1, |ps| - 1);
    assert next <= k + 1;
    if next < k + 1 { CabsGrow(ps, next, k); }
  }

  lemma ForwardIsUnfinished(ps: seq<Fragment>, k: nat, f: File, total: nat)
    requires Linked(ps) && k < |ps| && IsContdForward(Code(ps[k], f, total))
    ensures !ps[k].final && k + 1 < |ps|
  {
    hide Code, IsContdForward;
    assert FragmentOk(ps[k]);
    CodeTests(ps[k], f, total);
  }

  /** Fragments one after another from k on, each in the cabinet after the one before. */
  ghost predicate InARow(ps: seq<Fragment>, k: nat, v: seq<nat>) {
    k < |ps| && forall i :: 0 <= i < |v| ==> v[i] == k + i < |ps| && ps[v[i]].cab == ps[k].cab + i
  }

  lemma InARowCons(ps: seq<Fragment>, k: nat, w: seq<nat>)
    requires k + 1 < |ps| && ps[k + 1].cab == ps[k].cab + 1 && InARow(ps, k + 1, w)
    ensures InARow(ps, k, [k] + w)
  {
    var v := [k] + w;
    forall i | 0 <= i < |v|
      ensures v[i] == k + i < |ps| && ps[v[i]].cab == ps[k].cab + i
    {
      if i == 0 {
        assert v[0] == k;
      } else {
        var j := i - 1;
        assert v[i] == w[j] && w[j] == k + 1 + j && ps[w[j]].cab == ps[k + 1].cab + j;
      }
    }
  }

  /** Following the codes forward visits one fragment in each of consecutive cabinets, and
      from its start on exactly those that hold some of the file. */
  lemma {:induction false} VisitsForward(ps: seq<Fragment>, k: nat, f: File, total: nat)
    requires WellFormed(ps) && k < |ps| && Holds(ps[k], f, total)
    ensures var v := Visited(ps, k, f, total);
            && |v| > 0
            && InARow(ps, k, v)
            && (forall m :: k <= m < |ps| ==> (m < k + |v| <==> HeldAt(ps, m, ps[k].folder, f, total)))
    decreases |ps| - k
  {
    hide Linked, FragmentOk, Follows, Code, IsContdForward, IsContdBack, FirstByte, LastByte, Holds;
    CodesMeet(ps, k, f, total);
    var v := Visited(ps, k, f, total);
    if IsContdForward(Code(ps[k], f, total)) {
      ForwardIsUnfinished(ps, k, f, total);
      NextIsLookedUp(ps, k);
      VisitsForward(ps, k + 1, f, total);
      var w := Visited(ps, k + 1, f, total);
      assert v == [k] + w;
      InARowCons(ps, k, w);
    } else {
      assert v == [k];
      forall m | k < m < |ps|
        ensures !HeldAt(ps, m, ps[k].folder, f, total)
      {
        if HeldAt(ps, m, ps[k].folder, f, total) { NoneLater(ps, k, m, f, total); }
      }
    }
  }

  /** From the cabinet where a file starts, following its codes visits exactly the fragments
      of the whole set that hold some of it, in consecutive cabinets. */
  lemma VisitsExactly(ps: seq<Fragment>, k: nat, f: File, total: nat)
    requires WellFormed(ps) && k < |ps| && Holds(ps[k], f, total)
    requires !IsContdBack(Code(ps[k], f, total))
    ensures var v := Visited(ps, k, f, total);
            && InARow(ps, k, v)
            && (forall m :: 0 <= m < |ps| ==> (m in v <==> HeldAt(ps, m, ps[k].folder, f, total)))
  {
    hide Linked, Code, IsContdForward, IsContdBack, FirstByte, LastByte, Holds, Visited, HeldAt, FragmentOk, Follows,
         InARow;
    VisitsForward(ps, k, f, total);
    var v := Visited(ps, k, f, total);
    forall m | 0 <= m < |ps|
      ensures m in v <==> HeldAt(ps, m, ps[k].folder, f, total)
    {
      InARowMembers(ps, k, v, m);
      if m < k { NotBefore(ps, k, m, f, total); }
    }
  }

  lemma InARowMembers(ps: seq<Fragment>, k: nat, v: seq<nat>, m: nat)
    requires InARow(ps, k, v)
    ensures m in v <==> k <= m < k + |v|
  {
    if k <= m < k + |v| { assert v[m - k] == m; }
  }

  lemma NotBefore(ps: seq<Fragment>, k: nat, m: nat, f: File, total: nat)
    requires WellFormed(ps) && m < k < |ps| && Holds(ps[k], f, total) && !IsContdBack(Code(ps[k], f, total))
    ensures !HeldAt(ps, m, ps[k].folder, f, total)
  {
    hide Linked, Code, IsContdForward, IsContdBack, FirstByte, LastByte, Holds, InFolder;
    CodesMeet(ps, k, f, total);
    if HeldAt(ps, m, ps[k].folder, f, total) { NoneEarlier(ps, k, m, f, total); }
  }

  /** A fragment is the beginning of its folder exactly when the file at offset zero is in it
      without being continued from the previous cabinet. The offset alone does not tell: the
      same file has offset zero in every cabinet it goes on in. */
  lemma BeginsFolderIff(ps: seq<Fragment>, k: nat, f: File, total: nat)
    requires Linked(ps) && k < |ps| && Holds(ps[k], f, total) && f.uoffFolderStart == 0
    ensures ps[k].first <==> !IsContdBack(Code(ps[k], f, total))
  {
    hide Code, IsContdBack, IsContdForward;
    assert FragmentOk(ps[k]);
    CodeTests(ps[k], f, total);
  }

  /** One block of eight bytes over two cabinets: the second cabinet lists the file with offset
      zero, although its fragment is not the beginning of the folder. */
  lemma OffsetZeroIsNotEnough(ab: seq<byte>)
    requires |ab| == 8
    ensures var folder := [CFData(ab, 10)];
            var layout := LayOut([folder], [12, 100]);
            var f := File(10, 0);
            && layout.Laid? && |layout.fragments| == 2
            && Holds(layout.fragments[1], f, 10) && f.uoffFolderStart == 0 && !layout.fragments[1].first
  {
    var r := Rest(0, false, 0, 0, [CFData(ab, 10)]);
    assert Waiting([[CFData(ab, 10)]]) == [r];
    var p := Fragmented(r, 0, 0, 12);
    assert Taken(r.data, 12) == [CFData(ab[..4], 0)];
    assert Left(r.data, 12) == [CFData(ab[4..], 10)];
    var piece := CFData(ab[..4], 0);
    assert [piece][1..] == [] && UncompSize([piece]) == 0;
    assert p.data == [piece];
    assert p.nextLo == 0 && p.hi == 10 && !p.final;
    var r' := Continuation(r, p, 12);
    assert [r][1..] == [] && [r'] + [] == [r'] && [r'][1..] == [];
    assert r'.data == [CFData(ab[4..], 10)] && r'.data[1..] == [];
    var p' := Fragmented(r', 1, 0, 100);
    assert Taken(r'.data, 100) == r'.data && Left(r'.data, 100) == [];
    assert Cost(p'.data) == 12 && UncompSize(p'.data) == 10;
    assert p'.lo == 0 && p'.hi == 10 && p'.final && !p'.first;
    assert Place([], 1, 1, 100 - Cost(p'.data), []) == Laid([]);
    assert Place([r'], 1, 0, 100, []) == Laid([p']);
    assert [12, 100][1..] == [100] && [100][1..] == [];
    assert Place([r], 0, 0, 12, [100]) == Laid([p] + [p']);
  }
}
