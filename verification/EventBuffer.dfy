/** The IDirectMusicBuffer operations on the format of module EventFormat. The abstract state
    is the list of events; the class holds the bytes. */
module EventBuffer {
  import opened Bytes
  import opened EventFormat

  const DMUS_EVENT_STRUCTURED: Dword := 1

  // ----- The abstract buffer -----

  /** Events in packing order, and how many of them have been read since the last reset. */
  datatype State = State(max: nat, start: Time, events: seq<Event>, next: nat)

  datatype Op = Flush
              | Pack(rt: Time, channelGroup: Dword, flags: Dword, data: seq<byte>)
              | ResetReadPtr
              | GetNextEvent
              | SetStartTime(start: Time)

  datatype Outcome = Done
                   | BufferFull
                   | Next(rt: Time, channelGroup: Dword, data: seq<byte>)
                   | NoMore

  function Stamp(s: State, op: Op): Event
    requires op.Pack?
  {
    Event(op.channelGroup, Wrapped(op.rt - s.start), op.flags, op.data)
  }

  /** A stored event as a reader sees it: its time is the start time plus its delta. */
  function Returned(start: Time, e: Event): Outcome {
    Next(Wrapped(start + e.rtDelta), e.channelGroup, e.data)
  }

  function Step(s: State, op: Op): (State, Outcome) {
    match op
    case Flush => (s.(events := [], next := 0), Done)
    case Pack(_, _, _, data) =>
      if UsedBy(s.events) + FullSize(|data|) <= s.max then (s.(events := s.events + [Stamp(s, op)]), Done)
      else (s, BufferFull)
    case ResetReadPtr => (s.(next := 0), Done)
    case GetNextEvent =>
      if s.next < |s.events| then
        (s.(next := s.next + 1), Returned(s.start, s.events[s.next]))
      else (s, NoMore)
    case SetStartTime(start) => (s.(start := start), Done)
  }

  /** A packed event carries its request's fields, and a delta which, added to the start time,
      gives its time up to multiples of 2^64. */
  lemma PackedEventIs(s: State, op: Op)
    requires op.Pack? && Step(s, op).1 == Done
    ensures var es := Step(s, op).0.events;
            && |es| == |s.events| + 1 && es[..|s.events|] == s.events
            && var e := es[|s.events|];
               && (op.rt - s.start - e.rtDelta) % 0x1_0000_0000_0000_0000 == 0
               && e.channelGroup == op.channelGroup && e.flags == op.flags && e.data == op.data
  {
    hide Wrapped, UsedBy, FullSize;
    WrappedIs(op.rt - s.start);
  }

  /** A time read differs from start time plus stored delta by a multiple of 2^64. */
  lemma ReadEventIs(s: State)
    requires s.next < |s.events|
    ensures var e, shown := s.events[s.next], Step(s, Op.GetNextEvent).1;
            && shown.Next?
            && (shown.rt - s.start - e.rtDelta) % 0x1_0000_0000_0000_0000 == 0
            && shown.channelGroup == e.channelGroup && shown.data == e.data
  {
    hide Wrapped;
    WrappedIs(s.start + s.events[s.next].rtDelta);
  }

  /** The state after a run of operations, and what each of them returned. */
  function After(s: State, ops: seq<Op>): State
    decreases |ops|
  {
    if ops == [] then s else After(Step(s, ops[0]).0, ops[1..])
  }

  function Shown(s: State, ops: seq<Op>): (r: seq<Outcome>)
    ensures |r| == |ops|
    decreases |ops|
  {
    if ops == [] then [] else [Step(s, ops[0]).1] + Shown(Step(s, ops[0]).0, ops[1..])
  }

  // ----- What every run keeps -----

  /** The used count is the sum of the event sizes, a multiple of eight and within bounds; the
      read position never passes the last event. */
  ghost predicate Consistent(s: State) {
    UsedBy(s.events) <= s.max && UsedBy(s.events) % 8 == 0 && s.next <= |s.events|
  }

  lemma StepKeeps(s: State, op: Op)
    requires Consistent(s)
    ensures Consistent(Step(s, op).0) && Step(s, op).0.max == s.max
    ensures Step(s, op).1.BufferFull? ==> Step(s, op).0 == s
  {
    hide FullSize, UsedBy;
    UsedByIsMultiple(Step(s, op).0.events);
    match op
    case Flush => NoneUsed();
    case Pack(_, _, _, _) => UsedByMore(s.events, Stamp(s, op));
    case ResetReadPtr =>
    case GetNextEvent =>
    case SetStartTime(_) =>
  }

  lemma NoneUsed()
    ensures UsedBy([]) == 0
  {
  }

  lemma UsedByMore(es: seq<Event>, e: Event)
    ensures UsedBy(es + [e]) == UsedBy(es) + FullSize(|e.data|)
  {
    UsedByConcat(es, [e]);
    assert [e][1..] == [];
  }

  /** Whatever operations run, in whatever order, on a buffer that starts empty. */
  lemma {:induction false} RunKeeps(s: State, ops: seq<Op>)
    requires Consistent(s)
    ensures Consistent(After(s, ops)) && After(s, ops).max == s.max
    decreases |ops|
  {
    if ops != [] {
      StepKeeps(s, ops[0]);
      RunKeeps(Step(s, ops[0]).0, ops[1..]);
    }
  }

  lemma {:induction false} AfterConcat(s: State, a: seq<Op>, b: seq<Op>)
    ensures After(s, a + b) == After(After(s, a), b)
    decreases |a|
  {
    hide Step;
    if a == [] {
      assert a + b == b;
    } else {
      assert (a + b)[1..] == a[1..] + b;
      AfterConcat(Step(s, a[0]).0, a[1..], b);
    }
  }

  // ----- Round trip -----

  /** A list of pack requests. */
  ghost predicate AllPacks(ops: seq<Op>) {
    forall k :: 0 <= k < |ops| ==> ops[k].Pack?
  }

  function SizeOf(ops: seq<Op>): nat
    requires AllPacks(ops)
  {
    if ops == [] then 0 else FullSize(|ops[0].data|) + SizeOf(ops[1..])
  }

  /** What reading must return for the requests, when the start time has moved since. */
  function ExpectedAll(ops: seq<Op>, shift: int): (r: seq<Outcome>)
    requires AllPacks(ops)
    ensures |r| == |ops|
  {
    if ops == [] then []
    else [Next(Wrapped(ops[0].rt + shift), ops[0].channelGroup, ops[0].data)] + ExpectedAll(ops[1..], shift)
  }

  function Stamps(s: State, ops: seq<Op>): (es: seq<Event>)
    requires AllPacks(ops)
    ensures |es| == |ops|
    ensures forall k :: 0 <= k < |ops| ==> es[k] == Stamp(s, ops[k])
  {
    seq(|ops|, k requires 0 <= k < |ops| => Stamp(s, ops[k]))
  }

  /** A list of requests that fits is packed in full and in order. */
  lemma {:induction false} PackedInOrder(s: State, ops: seq<Op>)
    requires AllPacks(ops) && UsedBy(s.events) + SizeOf(ops) <= s.max
    ensures After(s, ops) == s.(events := s.events + Stamps(s, ops))
    decreases |ops|
  {
    hide FullSize, UsedBy, Stamp, Stamps;
    if ops == [] {
      assert s.events + Stamps(s, ops) == s.events;
    } else {
      var e := Stamp(s, ops[0]);
      var s1 := s.(events := s.events + [e]);
      StampKeepsData(s, ops[0]);
      UsedByMore(s.events, e);
      assert Step(s, ops[0]).0 == s1;
      PackedInOrder(s1, ops[1..]);
      StampsOfSameStart(s, s1, ops);
      assert s1.events + Stamps(s1, ops[1..]) == s.events + Stamps(s, ops);
    }
  }

  ghost predicate AllDone(outcomes: seq<Outcome>) {
    forall k :: 0 <= k < |outcomes| ==> outcomes[k] == Done
  }

  lemma AllDoneCons(first: Outcome, rest: seq<Outcome>)
    ensures AllDone([first] + rest) <==> first == Done && AllDone(rest)
  {
    var all := [first] + rest;
    assert all[0] == first && forall k :: 0 <= k < |rest| ==> all[k + 1] == rest[k];
    if first == Done && AllDone(rest) {
      assert forall k :: 0 < k < |all| ==> all[k] == rest[k - 1];
    }
  }

  /** No request of a list is refused exactly when the whole list fits. */
  lemma {:induction false} AllPackedIff(s: State, ops: seq<Op>)
    requires Consistent(s) && AllPacks(ops)
    ensures AllDone(Shown(s, ops)) <==> UsedBy(s.events) + SizeOf(ops) <= s.max
    decreases |ops|
  {
    hide FullSize, UsedBy, Stamp, Consistent, AllDone;
    ConsistentIs(s);
    if ops == [] {
      assert AllDone([]) by { NoneRefused(); }
    } else {
      var s1 := Step(s, ops[0]).0;
      StampKeepsData(s, ops[0]);
      UsedByMore(s.events, Stamp(s, ops[0]));
      StepKeeps(s, ops[0]);
      AllPackedIff(s1, ops[1..]);
      AllDoneCons(Step(s, ops[0]).1, Shown(s1, ops[1..]));
    }
  }

  lemma NoneRefused()
    ensures AllDone([])
  {
  }

  lemma ConsistentIs(s: State)
    requires Consistent(s)
    ensures UsedBy(s.events) <= s.max
  {
  }

  lemma StampKeepsData(s: State, op: Op)
    requires op.Pack?
    ensures Stamp(s, op).data == op.data
  {
  }

  lemma StampsOfSameStart(s: State, s1: State, ops: seq<Op>)
    requires AllPacks(ops) && ops != [] && s1.start == s.start
    ensures Stamps(s, ops) == [Stamp(s, ops[0])] + Stamps(s1, ops[1..])
  {
  }

  lemma WrappedTwice(a: int, b: int)
    ensures Wrapped(a + Wrapped(b)) == Wrapped(a + b)
  {
  }

  function Reads(n: nat): (ops: seq<Op>)
    ensures |ops| == n
  {
    seq(n, _ => GetNextEvent)
  }

  function ReturnedAll(start: Time, es: seq<Event>): (r: seq<Outcome>)
    ensures |r| == |es|
  {
    if es == [] then [] else [Returned(start, es[0])] + ReturnedAll(start, es[1..])
  }

  /** Reading on from event s.next shows the remaining events one by one, and then nothing. */
  lemma {:induction false} ReadInOrder(s: State)
    requires s.next <= |s.events|
    ensures var n := |s.events| - s.next;
            && After(s, Reads(n + 1)) == s.(next := |s.events|)
            && Shown(s, Reads(n + 1)) == ReturnedAll(s.start, s.events[s.next..]) + [NoMore]
    decreases |s.events| - s.next
  {
    hide Returned;
    var n := |s.events| - s.next;
    var ops := Reads(n + 1);
    if n == 0 {
      assert ops == [GetNextEvent] && ops[1..] == [];
    } else {
      var s1 := Step(s, GetNextEvent).0;
      assert ops[0] == GetNextEvent && ops[1..] == Reads(n);
      assert s.events[s.next..][1..] == s.events[s1.next..];
      ReadInOrder(s1);
    }
  }

  function Session(ops: seq<Op>, start: Time): seq<Op> {
    [Flush] + ops + [SetStartTime(start), ResetReadPtr]
  }

  /** What a flush, the requests and a new start time leave to be read. */
  lemma SessionLeaves(s: State, ops: seq<Op>, start: Time)
    requires AllPacks(ops) && SizeOf(ops) <= s.max
    ensures After(s, Session(ops, start)) == State(s.max, start, Stamps(s, ops), 0)
  {
    hide Stamp, UsedBy, SizeOf, Stamps;
    NoneUsed();
    var flushed := State(s.max, s.start, [], 0);
    var filled := State(s.max, s.start, Stamps(s, ops), 0);
    var last := [SetStartTime(start), ResetReadPtr];
    assert After(s, [Flush]) == flushed by { assert [Flush][1..] == []; }
    PackedInOrder(flushed, ops);
    StampsSame(s, flushed, ops);
    assert flushed.events + Stamps(flushed, ops) == Stamps(s, ops);
    AfterConcat(s, [Flush], ops);
    AfterConcat(s, [Flush] + ops, last);
    assert last[1..] == [ResetReadPtr] && [ResetReadPtr][1..] == [];
    assert After(filled, last) == After(Step(filled, last[0]).0, [ResetReadPtr]);
  }

  lemma StampsSame(s: State, s1: State, ops: seq<Op>)
    requires AllPacks(ops) && s1.start == s.start
    ensures Stamps(s, ops) == Stamps(s1, ops)
  {
  }

  /** Flush, pack any list of requests that fits, move the start time if you like, go back to
      the start and read: the requests come back in order and in full, each at its own time
      plus the distance the start time has moved, and then reading stops. */
  lemma PackedComeBack(s: State, ops: seq<Op>, start: Time)
    requires AllPacks(ops) && SizeOf(ops) <= s.max
    ensures Shown(After(s, Session(ops, start)), Reads(|ops| + 1)) == ExpectedAll(ops, start - s.start) + [NoMore]
  {
    hide UsedBy, SizeOf, Session, After, Shown, Step, Stamps, Stamp, Reads, ReturnedAll, ExpectedAll, AllPacks;
    SessionLeaves(s, ops, start);
    var packed := State(s.max, start, Stamps(s, ops), 0);
    ReadInOrder(packed);
    assert packed.events[0..] == packed.events;
    StampsReturned(s, start, ops);
  }

  lemma {:induction false} StampsReturned(s: State, start: Time, ops: seq<Op>)
    requires AllPacks(ops)
    ensures ReturnedAll(start, Stamps(s, ops)) == ExpectedAll(ops, start - s.start)
    decreases |ops|
  {
    if ops != [] {
      hide Wrapped;
      WrappedTwice(start, ops[0].rt - s.start);
      assert start + (ops[0].rt - s.start) == ops[0].rt + (start - s.start);
      StampsOfSameStart(s, s, ops);
      StampsReturned(s, start, ops[1..]);
    }
  }

  // ----- The buffer itself -----

  class Buffer {
    const contents: array<byte>
    var cbUsed: nat
    var readPtr: nat
    var rtStart: Time
    ghost var events: seq<Event>
    ghost var next: nat

    ghost predicate Valid()
      reads this, contents
    {
      && contents.Length < DWORD_END
      && cbUsed <= contents.Length
      && Walked(contents[..cbUsed]) == Events(events)
      && next <= |events| && readPtr == UsedBy(events[..next])
    }

    ghost function Abs(): State
      reads this
    {
      State(contents.Length, rtStart, events, next)
    }

    constructor (cbMax: nat)
      requires cbMax < DWORD_END
      ensures Valid() && fresh(contents)
      ensures Abs() == State(cbMax, 0, [], 0)
    {
      contents := new byte[cbMax](_ => 0);
      cbUsed, readPtr, rtStart := 0, 0, 0;
      events, next := [], 0;
    }

    method GetUsedBytes() returns (cb: nat)
      requires Valid()
      ensures cb == UsedBy(Abs().events) && cb <= Abs().max
    {
      WalkedSize(contents[..cbUsed]);
      cb := cbUsed;
    }

    method GetMaxBytes() returns (cb: nat)
      ensures cb == Abs().max
    {
      cb := contents.Length;
    }

    method Flush()
      requires Valid()
      modifies this
      ensures Valid() && Abs() == Step(old(Abs()), Op.Flush).0
    {
      cbUsed, readPtr := 0, 0;
      events, next := [], 0;
      assert contents[..0] == [];
      EmptyWalk();
    }

    method ResetReadPtr()
      requires Valid()
      modifies this
      ensures Valid() && Abs() == Step(old(Abs()), Op.ResetReadPtr).0
    {
      readPtr, next := 0, 0;
      EmptyWalk();
    }

    method SetStartTime(rt: Time)
      requires Valid()
      modifies this
      ensures Valid() && Abs() == Step(old(Abs()), Op.SetStartTime(rt)).0
    {
      rtStart := rt;
    }

    /** Appends an event, or leaves bytes, used count and read position alone when there is no
        room for it. */
    method Pack(rt: Time, dwChannelGroup: Dword, flags: Dword, cb: Dword, lpb: array<byte>)
      returns (r: Outcome)
      requires Valid() && cb <= lpb.Length && lpb != contents
      modifies this, contents
      ensures Valid()
      ensures (Abs(), r) == Step(old(Abs()), Op.Pack(rt, dwChannelGroup, flags, lpb[..cb]))
      ensures r == BufferFull ==> unchanged(this) && unchanged(contents)
      ensures r == Done ==>
                && HoldsAt(contents[..], old(cbUsed), rt - rtStart, dwChannelGroup, flags, lpb[..cb])
                && contents[..old(cbUsed)] == old(contents[..cbUsed])
    {
      hide EventSize, FullSize, UsedBy, Header, Walked, HoldsAt;
      ghost var walked := contents[..cbUsed];
      WalkedSize(walked);
      FitsIff(cb, contents.Length - cbUsed);
      FullSizeIs(cb);
      if !Fits(cb, contents.Length - cbUsed) {
        return BufferFull;
      }
      EventSizeSufficesIff(cb);
      var e := Event(dwChannelGroup, Wrapped(rt - rtStart), flags, lpb[..cb]);
      ghost var size := EventSize(cb);
      Store(contents, cbUsed, Header(e) + e.data);
      EventStored(walked, contents[..], e, rt - rtStart);
      ghost var padding := contents[cbUsed + HEADER_SIZE + cb..cbUsed + size];
      assert contents[..cbUsed + size] == walked + (Header(e) + e.data + padding);
      OneEventWalked(e, padding);
      WalkedConcat(walked, Header(e) + e.data + padding);
      cbUsed := cbUsed + EventSize(cb);
      assert (events + [e])[..next] == events[..next];
      events := events + [e];
      r := Done;
    }

    method PackUnstructured(rt: Time, dwChannelGroup: Dword, cb: Dword, lpb: array<byte>) returns (r: Outcome)
      requires Valid() && cb <= lpb.Length && lpb != contents
      modifies this, contents
      ensures Valid()
      ensures (Abs(), r) == Step(old(Abs()), Op.Pack(rt, dwChannelGroup, 0, lpb[..cb]))
      ensures r == BufferFull ==> unchanged(this) && unchanged(contents)
      ensures r == Done ==> HoldsAt(contents[..], old(cbUsed), rt - rtStart, dwChannelGroup, 0, lpb[..cb])
    {
      hide HoldsAt, UsedBy, FullSize, Walked, Wrapped;
      r := Pack(rt, dwChannelGroup, 0, cb, lpb);
    }

    /** A channel message is four bytes of data, flagged as structured. */
    method PackStructured(rt: Time, dwChannelGroup: Dword, dwChannelMessage: Dword) returns (r: Outcome)
      requires Valid()
      modifies this, contents
      ensures Valid()
      ensures (Abs(), r)
           == Step(old(Abs()), Op.Pack(rt, dwChannelGroup, DMUS_EVENT_STRUCTURED, ToBytes(dwChannelMessage)))
      ensures r == BufferFull ==> unchanged(this) && unchanged(contents)
      ensures r == Done ==>
                HoldsAt(contents[..], old(cbUsed), rt - rtStart, dwChannelGroup, 1, ToBytes(dwChannelMessage))
    {
      hide HoldsAt, UsedBy, FullSize, Walked, ToBytes, Wrapped;
      var message := new byte[4](k requires 0 <= k < 4 => ToBytes(dwChannelMessage)[k]);
      assert message[..4] == ToBytes(dwChannelMessage);
      r := Pack(rt, dwChannelGroup, DMUS_EVENT_STRUCTURED, 4, message);
    }

    /** Shows the event at the read position and moves past it by the size macro. */
    method GetNextEvent() returns (more: bool, prt: Time, pdwChannelGroup: Dword, pdwLength: nat, ppData: nat)
      requires Valid()
      modifies this`readPtr, this`next
      ensures Valid() && Abs() == Step(old(Abs()), Op.GetNextEvent).0
      ensures match Step(old(Abs()), Op.GetNextEvent).1
              case Next(rt, channelGroup, data) =>
                && more && prt == rt && pdwChannelGroup == channelGroup && pdwLength == |data|
                && ppData + pdwLength <= cbUsed && contents[ppData..ppData + pdwLength] == data
              case _ => !more
      ensures more ==>
                && ppData == old(readPtr) + 20 && readPtr == old(readPtr) + FullSize(pdwLength)
                && HoldsAt(contents[..], old(readPtr), prt - rtStart, pdwChannelGroup, events[old(next)].flags,
                           contents[ppData..ppData + pdwLength])
    {
      hide EventSize, FullSize, UsedBy, Walked, EventAt, Starts, FirstSize, Wrapped, HoldsAt;
      ghost var s := contents[..][..cbUsed];
      assert s == contents[..cbUsed];
      more, prt, pdwChannelGroup, pdwLength, ppData := false, 0, 0, 0, 0;
      WalkedSize(s);
      ReadPositions(events, next);
      if readPtr == cbUsed {
        return;
      }
      NextEventIs(s, events, next);
      var rest := contents[..][readPtr..cbUsed];
      SliceOfPrefix(contents[..], cbUsed, readPtr, cbUsed);
      var e := EventAt(rest);
      more, prt, pdwChannelGroup := true, Wrapped(rtStart + e.rtDelta), e.channelGroup;
      pdwLength, ppData := |e.data|, readPtr + HEADER_SIZE;
      SliceOfPrefix(contents[..], cbUsed, ppData, ppData + pdwLength);
      assert contents[ppData..ppData + pdwLength] == contents[..][ppData..ppData + pdwLength];
      HeldAt(contents[..], readPtr, cbUsed, rtStart);
      readPtr := readPtr + FirstSize(rest);
      next := next + 1;
    }
  }

  /** At a position of the string stand the number of data bytes, the channel group, a time's
      difference from the start time up to multiples of 2^64, the flags, and the data. */
  ghost predicate HoldsAt(s: seq<byte>, at: nat, delta: int, channelGroup: Dword, flags: Dword, data: seq<byte>) {
    && at + 20 + |data| <= |s|
    && ToDword(s[at..at + 4]) == |data|
    && ToDword(s[at + 4..at + 8]) == channelGroup
    && (delta - ToTime(s[at + 8..at + 16])) % 0x1_0000_0000_0000_0000 == 0
    && ToDword(s[at + 16..at + 20]) == flags
    && s[at + 20..at + 20 + |data|] == data
  }

  lemma EventStored(before: seq<byte>, s: seq<byte>, e: Event, delta: int)
    requires |e.data| < DWORD_END && before + Header(e) + e.data <= s && e.rtDelta == Wrapped(delta)
    ensures HoldsAt(s, |before|, delta, e.channelGroup, e.flags, e.data)
  {
    hide Header, ToDword, ToTime, Wrapped;
    var at, h := |before|, Header(e);
    HeaderLayout(e);
    WrappedIs(delta);
    assert s[at..at + 20] == h by { assert (before + h + e.data)[at..at + 20] == h; }
    SliceOfSlice(s, at, at + 20, 0, 4);
    SliceOfSlice(s, at, at + 20, 4, 8);
    SliceOfSlice(s, at, at + 20, 8, 16);
    SliceOfSlice(s, at, at + 20, 16, 20);
    assert s[at + 20..at + 20 + |e.data|] == e.data;
  }

  lemma HeldAt(s: seq<byte>, at: nat, end: nat, start: Time)
    requires at <= end <= |s| && Starts(s[at..end])
    ensures var e := EventAt(s[at..end]);
            && HoldsAt(s, at, Wrapped(start + e.rtDelta) - start, e.channelGroup, e.flags, e.data)
            && FirstSize(s[at..end]) == FullSize(|e.data|)
  {
    hide ToDword, ToTime, Wrapped, EventSize, FullSize;
    var rest := s[at..end];
    WalkStep(rest);
    WrappedIs(start + EventAt(rest).rtDelta);
    SliceOfSlice(s, at, end, 0, 4);
    SliceOfSlice(s, at, end, 4, 8);
    SliceOfSlice(s, at, end, 8, 16);
    SliceOfSlice(s, at, end, 16, 20);
    SliceOfSlice(s, at, end, 20, 20 + |EventAt(rest).data|);
  }

  /** What stands at the read position, and how far the size macro moves it. */
  lemma NextEventIs(s: seq<byte>, es: seq<Event>, next: nat)
    requires Walked(s) == Events(es) && next < |es|
    ensures var at, e := UsedBy(es[..next]), es[next];
            && at <= |s| && Starts(s[at..]) && EventAt(s[at..]) == e
            && at + HEADER_SIZE + |e.data| <= |s| && s[at + HEADER_SIZE..at + HEADER_SIZE + |e.data|] == e.data
            && UsedBy(es[..next + 1]) == at + FirstSize(s[at..]) <= |s|
  {
    hide EventSize, FullSize, UsedBy, Walked, ToDword, ToTime, EventAt, Starts;
    hide FirstSize;
    var at, rest := UsedBy(es[..next]), es[next..];
    WalkedSplit(s, next);
    assert rest[0] == es[next];
    WalkedStarts(s[at..]);
    WalkStep(s[at..]);
    FirstOfWalk(s[at..], rest);
    ReadPositions(es, next);
    DataOf(s[at..]);
    SliceOfDrop(s, at, HEADER_SIZE, HEADER_SIZE + |es[next].data|);
  }

  lemma FirstOfWalk(s: seq<byte>, es: seq<Event>)
    requires Starts(s) && Walked(s) == Events(es) && es != []
    ensures EventAt(s) == es[0]
  {
    hide EventAt, Starts, FirstSize, FullSize;
    WalkStep(s);
  }

  lemma DataOf(s: seq<byte>)
    requires Starts(s)
    ensures HEADER_SIZE + |EventAt(s).data| <= |s|
    ensures s[HEADER_SIZE..HEADER_SIZE + |EventAt(s).data|] == EventAt(s).data
  {
    hide ToDword, ToTime, EventSize;
  }

  /** The read position tells how many events have been read. */
  lemma ReadPositions(es: seq<Event>, next: nat)
    requires next <= |es|
    ensures UsedBy(es[..next]) == UsedBy(es) <==> next == |es|
    ensures next < |es| ==> UsedBy(es[..next + 1]) == UsedBy(es[..next]) + FullSize(|es[next].data|)
  {
    hide FullSize, UsedBy;
    if next < |es| {
      assert es[..next + 1] == es[..next] + [es[next]];
      UsedByMore(es[..next], es[next]);
      assert es == es[..next + 1] + es[next + 1..];
      UsedByConcat(es[..next + 1], es[next + 1..]);
      FullSizeIs(|es[next].data|);
    } else {
      assert es[..next] == es;
    }
  }
}
