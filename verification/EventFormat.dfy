/** The layout of DirectMusic events in a buffer: a packed 20-byte header, the data, and
    padding to the next quadword. */
module EventFormat {
  import opened Bits
  import opened Bytes
  import opened Align

  const HEADER_SIZE := 20
  const DWORD_END := 0x1_0000_0000

  /** A REFERENCE_TIME: 64 bits, signed. */
  type Time = t: int | -0x8000_0000_0000_0000 <= t < 0x8000_0000_0000_0000

  /** Arithmetic on times wraps at 64 bits. */
  function Wrapped(t: int): Time {
    (t + 0x8000_0000_0000_0000) % 0x1_0000_0000_0000_0000 - 0x8000_0000_0000_0000
  }

  /** A stored event; its header holds the number of data bytes and these three fields. */
  datatype Event = Event(channelGroup: Dword, rtDelta: Time, flags: Dword, data: seq<byte>)

  // ----- Sizes -----

  /** QWORD_ALIGN, with the int constant ~7 converted to the operand's width. */
  function QwordAlign(x: Dword): nat
    requires 8 <= Pow2(32)
  {
    And(32, (x + 7) % Pow2(32), Converted(32, -7 - 1))
  }

  lemma Powers()
    ensures Pow2(3) == 8 && Pow2(32) == DWORD_END
  {
    WordPowers();
    assert Pow2(3) == 8;
  }

  /** DMUS_EVENT_SIZE: both additions are of 32-bit words and wrap. */
  function EventSize(cb: Dword): nat {
    Powers();
    QwordAlign((HEADER_SIZE + cb) % DWORD_END)
  }

  /** The number of bytes an event takes up when nothing wraps. */
  function FullSize(cb: nat): nat {
    Ceiling(HEADER_SIZE + cb, 8)
  }

  /** QWORD_ALIGN is the rounding macro at 8. */
  lemma QwordAlignIsRoundUp(x: Dword)
    ensures 8 <= Pow2(32)
    ensures QwordAlign(x) == RoundUp(32, x, 8)
  {
    Powers();
  }

  lemma QwordAlignValue(x: Dword)
    ensures 8 <= Pow2(32)
    ensures QwordAlign(x) == if x <= DWORD_END - 8 then Ceiling(x, 8) else 0
  {
    hide And, RoundUp, QwordAlign, Ceiling, Pow2;
    Powers();
    QwordAlignIsRoundUp(x);
    RoundUpValue(32, x, 3);
  }

  function Distance(a: int, b: int): nat {
    if a < b then b - a else a - b
  }

  ghost predicate IsNearest(q: int, x: int) {
    IsMultiple(q, 8) && forall m: int :: IsMultiple(m, 8) ==> Distance(q, x) <= Distance(m, x)
  }

  lemma CeilingOfEight(x: nat)
    ensures Ceiling(x, 8) == if x % 8 == 0 then x else x - x % 8 + 8
  {
    hide Ceiling, Floor;
    CeilingIs(x, 8, if x % 8 == 0 then x else x - x % 8 + 8);
  }

  /** The macro rounds up: the result is a nearest quadword only from the middle of one on. */
  lemma RoundsToNearestIff(x: Dword)
    ensures 8 <= Pow2(32)
    ensures IsNearest(QwordAlign(x), x) <==> x <= DWORD_END - 8 && (x % 8 == 0 || x % 8 >= 4)
  {
    hide QwordAlign, Pow2, Ceiling, Floor;
    QwordAlignValue(x);
    CeilingOfEight(x);
    var q, down := QwordAlign(x), x - x % 8;
    assert IsMultiple(down, 8) && Distance(down, x) == x % 8;
    if x <= DWORD_END - 8 && (x % 8 == 0 || x % 8 >= 4) {
      CeilingIsLeast(x, 8);
      forall m: int | IsMultiple(m, 8)
        ensures Distance(q, x) <= Distance(m, x)
      {
        if m < x { MultiplesApart(m, q, 8); }
      }
    }
  }

  /** The size macro leaves room for header and data exactly up to this bound, and up to it
      the size is the rounded sum. */
  lemma EventSizeSufficesIff(cb: Dword)
    ensures EventSize(cb) >= HEADER_SIZE + cb <==> cb <= DWORD_END - 28
    ensures cb <= DWORD_END - 28 ==> EventSize(cb) == FullSize(cb)
  {
    hide QwordAlign, Pow2;
    Powers();
    var x := (HEADER_SIZE + cb) % DWORD_END;
    QwordAlignValue(x);
    CeilingIsLeast(x, 8);
  }

  lemma FullSizeIs(cb: nat)
    ensures IsMultiple(FullSize(cb), 8) && HEADER_SIZE + cb <= FullSize(cb) < HEADER_SIZE + cb + 8
  {
    CeilingIsLeast(HEADER_SIZE + cb, 8);
  }

  /** Room for an event of cb bytes, as a packer must test it: by the macro, and only when the
      macro has not wrapped. */
  predicate Fits(cb: Dword, room: nat) {
    EventSize(cb) >= HEADER_SIZE + cb && EventSize(cb) <= room
  }

  lemma FitsIff(cb: Dword, room: nat)
    requires room < DWORD_END
    ensures Fits(cb, room) <==> FullSize(cb) <= room
  {
    hide EventSize, FullSize;
    EventSizeSufficesIff(cb);
    FullSizeIs(cb);
  }

  function UsedBy(es: seq<Event>): nat {
    if es == [] then 0 else FullSize(|es[0].data|) + UsedBy(es[1..])
  }

  // ----- Headers -----

  function TimeBytes(t: Time): (r: seq<byte>)
    ensures |r| == 8
  {
    var u: nat := if t >= 0 then t else t + 0x1_0000_0000_0000_0000;
    ToBytes(u % DWORD_END) + ToBytes(u / DWORD_END)
  }

  function ToTime(b: seq<byte>): Time
    requires |b| == 8
  {
    var u := ToDword(b[..4]) + DWORD_END * (ToDword(b[4..]) as int);
    if u < 0x8000_0000_0000_0000 then u else u - 0x1_0000_0000_0000_0000
  }

  lemma TimeThere(t: Time)
    ensures ToTime(TimeBytes(t)) == t
  {
    hide ToBytes, ToDword;
    var u: nat := if t >= 0 then t else t + 0x1_0000_0000_0000_0000;
    DwordThere(u % DWORD_END);
    DwordThere(u / DWORD_END);
    assert TimeBytes(t)[..4] == ToBytes(u % DWORD_END) && TimeBytes(t)[4..] == ToBytes(u / DWORD_END);
  }

  function Header(e: Event): (r: seq<byte>)
    requires |e.data| < DWORD_END
    ensures |r| == HEADER_SIZE
  {
    ToBytes(|e.data|) + ToBytes(e.channelGroup) + TimeBytes(e.rtDelta) + ToBytes(e.flags)
  }

  /** The two dwords of a time make up a number that differs from it by a multiple of 2^64. */
  lemma TimeBytesAre(t: Time)
    ensures (ToDword(TimeBytes(t)[..4]) + DWORD_END * (ToDword(TimeBytes(t)[4..]) as int) - t)
            % 0x1_0000_0000_0000_0000 == 0
  {
    hide ToBytes, ToDword;
    var u: nat := if t >= 0 then t else t + 0x1_0000_0000_0000_0000;
    DwordThere(u % DWORD_END);
    DwordThere(u / DWORD_END);
    assert TimeBytes(t)[..4] == ToBytes(u % DWORD_END) && TimeBytes(t)[4..] == ToBytes(u / DWORD_END);
  }

  /** Which four bytes of a header, or eight for the time, hold which field. */
  lemma HeaderLayout(e: Event)
    requires |e.data| < DWORD_END
    ensures |Header(e)| == 20
    ensures ToDword(Header(e)[..4]) == |e.data|
    ensures ToDword(Header(e)[4..8]) == e.channelGroup
    ensures Header(e)[8..16] == TimeBytes(e.rtDelta) && ToTime(Header(e)[8..16]) == e.rtDelta
    ensures ToDword(Header(e)[16..]) == e.flags
  {
    hide ToBytes, ToDword, ToTime, TimeBytes;
    DwordThere(|e.data|);
    DwordThere(e.channelGroup);
    DwordThere(e.flags);
    TimeThere(e.rtDelta);
    assert Header(e)[..4] == ToBytes(|e.data|);
    assert Header(e)[4..8] == ToBytes(e.channelGroup);
    assert Header(e)[8..16] == TimeBytes(e.rtDelta);
    assert Header(e)[16..] == ToBytes(e.flags);
  }

  /** Wrapping a time changes it by a multiple of 2^64. */
  lemma WrappedIs(t: int)
    ensures (Wrapped(t) - t) % 0x1_0000_0000_0000_0000 == 0
    ensures -0x8000_0000_0000_0000 <= t < 0x8000_0000_0000_0000 ==> Wrapped(t) == t
  {
  }

  /** Whether a whole event starts the string, by the walker's test of the size macro. */
  predicate Starts(s: seq<byte>) {
    |s| >= HEADER_SIZE && Fits(ToDword(s[..4]), |s|)
  }

  /** The event a header announces, with the data that follow it. */
  function EventAt(s: seq<byte>): Event
    requires Starts(s)
  {
    Event(ToDword(s[4..8]), ToTime(s[8..16]), ToDword(s[16..20]), s[HEADER_SIZE..HEADER_SIZE + ToDword(s[..4])])
  }

  /** Reading back what was written, whatever the padding holds. */
  lemma EventThere(e: Event, padding: seq<byte>)
    requires |e.data| <= DWORD_END - 28 && FullSize(|e.data|) <= HEADER_SIZE + |e.data| + |padding|
    ensures var s := Header(e) + e.data + padding;
            ToDword(s[..4]) == |e.data| && Starts(s) && EventAt(s) == e
  {
    hide ToBytes, ToDword, ToTime, TimeBytes, EventSize, FullSize;
    var s := Header(e) + e.data + padding;
    var cb: Dword := |e.data|;
    DwordThere(cb);
    DwordThere(e.channelGroup);
    DwordThere(e.flags);
    TimeThere(e.rtDelta);
    EventSizeSufficesIff(cb);
    assert s[..4] == ToBytes(cb);
    assert s[4..8] == ToBytes(e.channelGroup);
    assert s[8..16] == TimeBytes(e.rtDelta);
    assert s[16..20] == ToBytes(e.flags);
    assert s[HEADER_SIZE..HEADER_SIZE + |e.data|] == e.data;
  }

  // ----- The walk -----

  datatype Walk = Malformed | Events(es: seq<Event>)

  /** The walk by DMUS_EVENT_SIZE from one header to the next. It succeeds only if it ends
      exactly at the end of the string. */
  function Walked(s: seq<byte>): Walk {
    if s == [] then Events([])
    else if !Starts(s) then Malformed
    else
      match Walked(s[EventSize(ToDword(s[..4]))..])
      case Malformed => Malformed
      case Events(es) => Events([EventAt(s)] + es)
  }

  lemma {:induction false} UsedByConcat(a: seq<Event>, b: seq<Event>)
    ensures UsedBy(a + b) == UsedBy(a) + UsedBy(b)
  {
    hide FullSize;
    if a == [] {
      assert a + b == b;
    } else {
      assert (a + b)[1..] == a[1..] + b;
      UsedByConcat(a[1..], b);
    }
  }

  lemma {:induction false} UsedByIsMultiple(es: seq<Event>)
    ensures UsedBy(es) % 8 == 0
  {
    hide FullSize;
    if es != [] {
      FullSizeIs(|es[0].data|);
      UsedByIsMultiple(es[1..]);
    }
  }

  /** What one header says about a string that continues. */
  lemma StartsLonger(s: seq<byte>, more: seq<byte>)
    requires |s| >= HEADER_SIZE
    ensures (s + more)[..4] == s[..4]
    ensures Starts(s) ==> Starts(s + more)
    ensures Starts(s) ==> EventAt(s + more) == EventAt(s)
  {
    hide EventSize, ToTime, ToDword;
    var t := s + more;
    assert t[..4] == s[..4];
    if Starts(s) {
      var cb := ToDword(s[..4]);
      assert t[4..8] == s[4..8] && t[8..16] == s[8..16] && t[16..20] == s[16..20];
      assert t[HEADER_SIZE..HEADER_SIZE + cb] == s[HEADER_SIZE..HEADER_SIZE + cb];
    }
  }

  /** The size of the event at the start. */
  function FirstSize(s: seq<byte>): nat
    requires |s| >= HEADER_SIZE
  {
    EventSize(ToDword(s[..4]))
  }

  lemma WalkStep(s: seq<byte>)
    requires Starts(s)
    ensures HEADER_SIZE <= FirstSize(s) <= |s| && FullSize(|EventAt(s).data|) == FirstSize(s)
    ensures var rest := Walked(s[FirstSize(s)..]);
            Walked(s) == if rest.Malformed? then Malformed else Events([EventAt(s)] + rest.es)
  {
    hide EventSize, ToTime, ToDword, FullSize;
    EventSizeSufficesIff(ToDword(s[..4]));
  }

  lemma WalkedStarts(s: seq<byte>)
    requires Walked(s).Events?
    ensures if s == [] then Walked(s).es == [] else Starts(s)
  {
  }

  /** The walk over two well-formed strings in a row is the one walk and then the other. */
  lemma {:induction false} WalkedConcat(a: seq<byte>, b: seq<byte>)
    requires Walked(a).Events? && Walked(b).Events?
    ensures Walked(a + b) == Events(Walked(a).es + Walked(b).es)
    decreases |a|
  {
    hide Starts, FirstSize, EventAt, Walked;
    WalkedStarts(a);
    if a == [] {
      assert a + b == b && Walked(a).es + Walked(b).es == Walked(b).es;
    } else {
      StartsLonger(a, b);
      WalkStep(a);
      WalkStep(a + b);
      var n := FirstSize(a);
      assert FirstSize(a + b) == n by { FirstSizeLonger(a, b); }
      assert (a + b)[n..] == a[n..] + b;
      WalkedConcat(a[n..], b);
      assert Walked(a).es + Walked(b).es == [EventAt(a)] + (Walked(a[n..]).es + Walked(b).es);
    }
  }

  lemma FirstSizeLonger(s: seq<byte>, more: seq<byte>)
    requires |s| >= HEADER_SIZE
    ensures FirstSize(s + more) == FirstSize(s)
  {
    StartsLonger(s, more);
  }

  /** The bytes of one event, with any padding, walk to that event. */
  lemma OneEventWalked(e: Event, padding: seq<byte>)
    requires |e.data| <= DWORD_END - 28 && HEADER_SIZE + |e.data| + |padding| == FullSize(|e.data|)
    ensures Walked(Header(e) + e.data + padding) == Events([e])
  {
    hide EventSize, FullSize, ToTime, ToDword, EventAt, Header;
    var s := Header(e) + e.data + padding;
    EventThere(e, padding);
    EventSizeSufficesIff(|e.data|);
    assert s[EventSize(|e.data|)..] == [];
  }

  /** A well-formed string is exactly as long as its events are large. */
  lemma {:induction false} WalkedSize(s: seq<byte>)
    requires Walked(s).Events?
    ensures |s| == UsedBy(Walked(s).es)
    decreases |s|
  {
    hide EventSize, FullSize, ToTime, ToDword;
    if s != [] {
      EventSizeSufficesIff(ToDword(s[..4]));
      WalkedSize(s[EventSize(ToDword(s[..4]))..]);
      assert Walked(s).es[1..] == Walked(s[EventSize(ToDword(s[..4]))..]).es;
    }
  }

  /** At each event boundary a well-formed string falls into two well-formed strings. */
  lemma {:induction false} WalkedSplit(s: seq<byte>, k: nat)
    requires Walked(s).Events? && k <= |Walked(s).es|
    ensures var es := Walked(s).es;
            var at := UsedBy(es[..k]);
            && at <= |s|
            && Walked(s[..at]) == Events(es[..k])
            && Walked(s[at..]) == Events(es[k..])
    decreases |s|
  {
    hide FullSize, Starts, FirstSize, EventAt, Walked, UsedBy;
    var es := Walked(s).es;
    WalkedStarts(s);
    if k == 0 {
      EmptyWalk();
      assert s[..0] == [] && s[0..] == s && es[..0] == [] && es[0..] == es;
    } else {
      WalkStep(s);
      var n := FirstSize(s);
      var rest := s[n..];
      var es' := Walked(rest).es;
      WalkedSplit(rest, k - 1);
      var at' := UsedBy(es'[..k - 1]);
      assert es[..k] == [EventAt(s)] + es'[..k - 1] && es[k..] == es'[k - 1..];
      var at := n + at';
      assert UsedBy(es[..k]) == at by { UsedByCons(EventAt(s), es'[..k - 1]); }
      assert s[at..] == rest[at'..];
      StartsShorter(s, at);
      assert s[..at][n..] == rest[..at'];
      WalkStep(s[..at]);
    }
  }

  lemma EmptyWalk()
    ensures Walked([]) == Events([]) && UsedBy([]) == 0
  {
  }

  lemma UsedByCons(e: Event, es: seq<Event>)
    ensures UsedBy([e] + es) == FullSize(|e.data|) + UsedBy(es)
  {
    assert ([e] + es)[1..] == es;
  }

  /** A prefix that still holds the whole first event starts with that event. */
  lemma StartsShorter(s: seq<byte>, at: nat)
    requires Starts(s) && FirstSize(s) <= at <= |s|
    ensures Starts(s[..at]) && EventAt(s[..at]) == EventAt(s) && FirstSize(s[..at]) == FirstSize(s)
  {
    hide EventSize, ToTime, ToDword;
    assert at >= HEADER_SIZE;
    StartsLonger(s[..at], s[at..]);
    assert s[..at] + s[at..] == s;
  }

  /** Cutting the used count back leaves a well-formed buffer exactly when the cut falls on an
      event boundary; what is left then are the events before it. */
  lemma CutIsWellFormedIff(s: seq<byte>, cb: nat)
    requires Walked(s).Events? && cb <= |s|
    ensures var es := Walked(s).es;
            && (Walked(s[..cb]).Events? <==> exists k :: 0 <= k <= |es| && cb == UsedBy(es[..k]))
            && (Walked(s[..cb]).Events? ==> Walked(s[..cb]).es <= es)
  {
    hide EventSize, FullSize, ToTime, ToDword, EventAt, Walked;
    var es := Walked(s).es;
    if Walked(s[..cb]).Events? {
      CutWalksPrefix(s, cb);
      var k := |Walked(s[..cb]).es|;
      WalkedSize(s[..cb]);
      assert es[..k] == Walked(s[..cb]).es;
      assert 0 <= k <= |es| && cb == UsedBy(es[..k]);
    }
    if k :| 0 <= k <= |es| && cb == UsedBy(es[..k]) {
      WalkedSplit(s, k);
    }
  }

  lemma {:induction false} CutWalksPrefix(s: seq<byte>, cb: nat)
    requires Walked(s).Events? && cb <= |s| && Walked(s[..cb]).Events?
    ensures Walked(s[..cb]).es <= Walked(s).es
    decreases |s|
  {
    hide EventSize, FullSize, ToTime, ToDword, EventAt;
    if cb > 0 {
      var n := EventSize(ToDword(s[..4]));
      assert s[..cb] + s[cb..] == s;
      StartsLonger(s[..cb], s[cb..]);
      assert s[..cb][n..] == s[n..][..cb - n];
      CutWalksPrefix(s[n..], cb - n);
    }
  }
}
