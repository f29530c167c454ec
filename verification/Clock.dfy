/**
 The slot clock of hw_api. `syncTslot` advances the start time of the current
 slot by adding one slot length to it, or jumps to a stamp received from
 another node; the conversions between stamps and times are closed forms.
 Stamps and slot lengths are non-negative ints, so their product fits 64 bits;
 the casts of seconds and microseconds to int are explicit.
 */
module Clock {
  import opened Arith

  const US_IN_S := 1000000

  datatype Time = Time(sec: int, usec: int)

  /** Microseconds in a time. */
  function Micros(t: Time): int {
    t.sec * US_IN_S + t.usec
  }

  predicate Normal(t: Time) {
    0 <= t.sec && 0 <= t.usec < US_IN_S
  }

  function TstampToTime(tstamp: nat, tslen: nat): Time {
    var x := tstamp * tslen;
    var sec := AsInt(x / US_IN_S);
    Time(sec, AsInt(x - sec * US_IN_S))
  }

  function TimeToTstamp(t: Time, tslen: nat): int
    requires tslen > 0
  {
    Micros(t) / tslen
  }

  /** The seconds of this stamp fit an int. */
  predicate InRange(tstamp: nat, tslen: nat) {
    tstamp * tslen / US_IN_S < INT_LIMIT
  }

  // ---- Arithmetic ----

  /** A normal time is determined by its microseconds. */
  lemma NormalUnique(a: Time, b: Time)
    requires Normal(a) && Normal(b) && Micros(a) == Micros(b)
    ensures a == b
  {
    DivModUnique(Micros(a), US_IN_S, a.sec, a.usec);
    DivModUnique(Micros(b), US_IN_S, b.sec, b.usec);
  }

  // ---- The conversions ----

  lemma AsIntSmall(x: int)
    requires 0 <= x < INT_LIMIT
    ensures AsInt(x) == x
  {
  }

  /** In range, the conversion is exact and normal. */
  lemma TstampExact(tstamp: nat, tslen: nat)
    requires InRange(tstamp, tslen)
    ensures Normal(TstampToTime(tstamp, tslen))
    ensures Micros(TstampToTime(tstamp, tslen)) == tstamp * tslen
  {
    hide AsInt;
    MulMono(0, tstamp, tslen);
    var x := tstamp * tslen;
    AsIntSmall(x / US_IN_S);
    AsIntSmall(x - x / US_IN_S * US_IN_S);
  }

  /** Out of range it is not: the cast of the seconds loses a multiple of 2^32. */
  lemma ExactIffInRange(tstamp: nat, tslen: nat)
    ensures Micros(TstampToTime(tstamp, tslen)) == tstamp * tslen <==> InRange(tstamp, tslen)
  {
    if InRange(tstamp, tslen) {
      TstampExact(tstamp, tslen);
    } else {
      CastLoses(tstamp * tslen);
    }
  }

  lemma CastLoses(x: int)
    requires x / US_IN_S >= INT_LIMIT
    ensures var sec := AsInt(x / US_IN_S); sec * US_IN_S + AsInt(x - sec * US_IN_S) != x
  {
    var q := x / US_IN_S;
    var sec := AsInt(q);
    assert AsInt(x - sec * US_IN_S) < INT_LIMIT;
    SecondsShort(q, sec);
    assert x - sec * US_IN_S >= (q - sec) * US_IN_S;
  }

  lemma SecondsShort(q: int, sec: int)
    requires q >= INT_LIMIT && sec == AsInt(q)
    ensures q - sec >= 0x1_0000_0000
  {
    var w := q % 0x1_0000_0000;
    assert q - w == q / 0x1_0000_0000 * 0x1_0000_0000;
  }

  /** Every time inside slot t, and no other time, has stamp t. */
  lemma StampOfTimeIff(t: Time, tstamp: nat, tslen: nat)
    requires tslen > 0 && Normal(t) && InRange(tstamp, tslen) && InRange(tstamp + 1, tslen)
    ensures TimeToTstamp(t, tslen) == tstamp
            <==> Micros(TstampToTime(tstamp, tslen)) <= Micros(t) < Micros(TstampToTime(tstamp + 1, tslen))
  {
    hide TstampToTime;
    TstampExact(tstamp, tslen);
    TstampExact(tstamp + 1, tslen);
    DivIs(Micros(t), tslen, tstamp);
  }

  lemma DivIs(x: int, d: nat, q: int)
    requires d > 0
    ensures x / d == q <==> q * d <= x < (q + 1) * d
  {
    var p := x / d;
    assert p * d <= x < p * d + d;
    assert (q + 1) * d == q * d + d;
    if q * d <= x < q * d + d {
      DivModUnique(x, d, q, x - q * d);
    }
  }

  /** `time_to_tstamp` inverts `tstamp_to_time`. */
  lemma RoundTrip(tstamp: nat, tslen: nat)
    requires tslen > 0 && InRange(tstamp, tslen)
    ensures TimeToTstamp(TstampToTime(tstamp, tslen), tslen) == tstamp
  {
    hide TstampToTime;
    TstampExact(tstamp, tslen);
    DivModUnique(tstamp * tslen, tslen, tstamp, 0);
  }

  /** With slots of at most one second every int stamp is in range. */
  lemma ShortSlotsInRange(tstamp: nat, tslen: nat)
    requires tstamp < INT_LIMIT && tslen <= US_IN_S
    ensures InRange(tstamp, tslen)
  {
    MulMono(tslen, US_IN_S, tstamp);
    assert tslen * tstamp == tstamp * tslen;
    DivIs(tstamp * tslen, US_IN_S, tstamp * tslen / US_IN_S);
  }

  // ---- Synchronisation as a step ----

  /** The shared time record and the static `last_offset`. */
  datatype State = State(tslot: nat, slotinit: Time, newTstamp: nat, nextTs: int, lastOffset: bool)

  predicate Jumps(s: State) {
    s.newTstamp != 0 && s.nextTs == 0
  }

  function NextSlot(s: State): nat {
    if Jumps(s) then s.newTstamp + (if s.lastOffset then 2 else 1) else s.tslot + 1
  }

  /** Moving whole seconds out of the microseconds, one by one. */
  function Carry(t: Time): (r: Time)
    ensures Micros(r) == Micros(t)
    ensures t.sec >= 0 && t.usec >= 0 ==> Normal(r)
    decreases t.usec
  {
    if t.usec < US_IN_S then t else Carry(Time(t.sec + 1, t.usec - US_IN_S))
  }

  /** One call of `syncTslot`: a jump converts the stamp, any other tick adds a slot length. */
  function Sync(s: State, tslen: nat): State {
    State(NextSlot(s),
          if Jumps(s) then TstampToTime(NextSlot(s), tslen) else Carry(s.slotinit.(usec := s.slotinit.usec + tslen)),
          if Jumps(s) then 0 else s.newTstamp, 0, s.lastOffset || s.nextTs < 0)
  }

  /** The delay the timer is armed with; 0 if it is left alone. */
  function Armed(s: State, tslen: nat): int {
    if s.nextTs < 0 then tslen + s.nextTs else s.nextTs
  }

  /** The slot starts where it should: slot number times slot length. */
  predicate OnTime(s: State, tslen: nat) {
    Normal(s.slotinit) && Micros(s.slotinit) == s.tslot * tslen
  }

  /** The slot start agrees with the conversion of the slot number. */
  predicate Agrees(s: State, tslen: nat) {
    s.slotinit == TstampToTime(s.tslot, tslen)
  }

  class SlotClock {
    const tslen: nat
    var tslot: nat
    var slotinit: Time
    var newTstamp: nat
    var nextTs: int
    var lastOffset: bool

    constructor (tslen: nat)
      ensures this.tslen == tslen && Contents() == Start() && OnTime(Contents(), tslen)
    {
      this.tslen := tslen;
      tslot, slotinit, newTstamp, nextTs, lastOffset := 0, Time(0, 0), 0, 0, false;
    }

    ghost function Contents(): State
      reads this
    {
      State(tslot, slotinit, newTstamp, nextTs, lastOffset)
    }

    /** `time_sync`, and with usec 0 `time_sync_tslot`. */
    method TimeSync(tstamp: nat, usec: int)
      modifies this`newTstamp, this`nextTs
      ensures Contents() == Do(old(Contents()), Request(tstamp, usec), tslen)
    {
      newTstamp := tstamp;
      nextTs := usec;
    }

    /** `syncTslot`. From a slot that starts on time, the next one does exactly if no jump lands out of range. */
    method SyncTslot() returns (armed: int)
      modifies this
      ensures Contents() == Sync(old(Contents()), tslen) && armed == Armed(old(Contents()), tslen)
      ensures old(OnTime(Contents(), tslen)) ==>
                (OnTime(Contents(), tslen) <==> (old(Jumps(Contents())) ==> InRange(tslot, tslen)))
    {
      hide TstampToTime, InRange, OnTime, Micros, Normal;
      ghost var was := Contents();
      if OnTime(was, tslen) {
        SyncOnTimeIff(was, tslen);
      }
      ghost var moved := slotinit.(usec := slotinit.usec + tslen);
      if newTstamp != 0 && nextTs == 0 {
        if lastOffset {
          tslot := newTstamp + 2;
        } else {
          tslot := newTstamp + 1;
        }
        slotinit := TstampToTime(tslot, tslen);
        newTstamp := 0;
      } else {
        tslot := tslot + 1;
        slotinit := slotinit.(usec := slotinit.usec + tslen);
        while slotinit.usec >= US_IN_S
          invariant Carry(slotinit) == Carry(moved)
          invariant tslot == old(tslot) + 1 && newTstamp == old(newTstamp)
          invariant nextTs == old(nextTs) && lastOffset == old(lastOffset)
          decreases slotinit.usec
        {
          slotinit := slotinit.(sec := slotinit.sec + 1);
          slotinit := slotinit.(usec := slotinit.usec - US_IN_S);
        }
        assert Carry(slotinit) == slotinit;
      }
      armed := 0;
      if nextTs != 0 {
        if nextTs < 0 {
          nextTs := tslen + nextTs;
          lastOffset := true;
        }
        armed := nextTs;
        nextTs := 0;
      }
      assert Contents() == Sync(was, tslen);
    }
  }

  /** A tick keeps the clock on time exactly when it adds a slot length or jumps to a slot in range. */
  lemma SyncOnTimeIff(s: State, tslen: nat)
    requires OnTime(s, tslen)
    ensures OnTime(Sync(s, tslen), tslen) <==> (Jumps(s) ==> InRange(NextSlot(s), tslen))
  {
    hide TstampToTime, InRange;
    if Jumps(s) {
      ExactIffInRange(NextSlot(s), tslen);
      if InRange(NextSlot(s), tslen) {
        TstampExact(NextSlot(s), tslen);
      }
    } else {
      assert (s.tslot + 1) * tslen == s.tslot * tslen + tslen;
    }
  }

  /** A slot that starts on time agrees with the conversion of its number exactly when it is in range. */
  lemma AgreesIffInRange(s: State, tslen: nat)
    requires OnTime(s, tslen)
    ensures Agrees(s, tslen) <==> InRange(s.tslot, tslen)
  {
    hide TstampToTime, InRange;
    ExactIffInRange(s.tslot, tslen);
    if InRange(s.tslot, tslen) {
      TstampExact(s.tslot, tslen);
      NormalUnique(s.slotinit, TstampToTime(s.tslot, tslen));
    }
  }

  /** From an agreeing slot in range, adding a slot length agrees with the closed form exactly when the next slot is in range. */
  lemma StepAgreesIff(s: State, tslen: nat)
    requires Agrees(s, tslen) && InRange(s.tslot, tslen) && !Jumps(s)
    ensures Agrees(Sync(s, tslen), tslen) <==> InRange(s.tslot + 1, tslen)
  {
    hide TstampToTime, InRange, Sync;
    TstampExact(s.tslot, tslen);
    SyncOnTimeIff(s, tslen);
    AgreesIffInRange(Sync(s, tslen), tslen);
    assert Sync(s, tslen).tslot == s.tslot + 1 by { SyncSlot(s, tslen); }
  }

  lemma SyncSlot(s: State, tslen: nat)
    ensures Sync(s, tslen).tslot == NextSlot(s)
  {
  }

  // ---- Runs ----

  datatype Event = Tick | Request(tstamp: nat, usec: int)

  function Start(): State {
    State(0, Time(0, 0), 0, 0, false)
  }

  function Do(s: State, e: Event, tslen: nat): State {
    match e
    case Tick => Sync(s, tslen)
    case Request(tstamp, usec) => s.(newTstamp := tstamp, nextTs := usec)
  }

  function After(s: State, run: seq<Event>, tslen: nat): State
    decreases |run|
  {
    if |run| == 0 then s else After(Do(s, run[0], tslen), run[1..], tslen)
  }

  /** Every jump along the run lands in range. */
  predicate JumpsInRange(s: State, run: seq<Event>, tslen: nat)
    decreases |run|
  {
    |run| == 0
    || ((run[0].Tick? && Jumps(s) ==> InRange(NextSlot(s), tslen)) && JumpsInRange(Do(s, run[0], tslen), run[1..], tslen))
  }

  /** The clock is on time now and after every event of the run. */
  predicate AlwaysOnTime(s: State, run: seq<Event>, tslen: nat)
    decreases |run|
  {
    OnTime(s, tslen) && (|run| == 0 || AlwaysOnTime(Do(s, run[0], tslen), run[1..], tslen))
  }

  /**
   Over every run of ticks and requests the slot start is slot number times
   slot length throughout, with microseconds below one million, exactly when
   every jump lands in range; how far the ticks between them count is no limit.
   */
  lemma {:induction false} AlwaysOnTimeIff(s: State, run: seq<Event>, tslen: nat)
    requires OnTime(s, tslen)
    ensures AlwaysOnTime(s, run, tslen) <==> JumpsInRange(s, run, tslen)
    decreases |run|
  {
    hide Sync, InRange;
    if |run| > 0 {
      var t := Do(s, run[0], tslen);
      if run[0].Tick? {
        SyncOnTimeIff(s, tslen);
      }
      if OnTime(t, tslen) {
        AlwaysOnTimeIff(t, run[1..], tslen);
      }
    }
  }

  lemma {:induction false} OnTimeAtEnd(s: State, run: seq<Event>, tslen: nat)
    requires AlwaysOnTime(s, run, tslen)
    ensures OnTime(After(s, run, tslen), tslen)
    decreases |run|
  {
    if |run| > 0 {
      OnTimeAtEnd(Do(s, run[0], tslen), run[1..], tslen);
    }
  }

  /**
   After every run whose jumps land in range, the incremental slot start is the
   closed form of the slot number exactly when that number is in range.
   */
  lemma RunAgreesIff(s: State, run: seq<Event>, tslen: nat)
    requires OnTime(s, tslen) && JumpsInRange(s, run, tslen)
    ensures var t := After(s, run, tslen);
            OnTime(t, tslen) && (Agrees(t, tslen) <==> InRange(t.tslot, tslen))
  {
    AlwaysOnTimeIff(s, run, tslen);
    OnTimeAtEnd(s, run, tslen);
    AgreesIffInRange(After(s, run, tslen), tslen);
  }

  /** With slots of two seconds the two forms part at slot 0x40000000. */
  lemma FormsPart()
    ensures var s := State(0x3fff_ffff, Time(0x7fff_fffe, 0), 0, 0, false);
            && OnTime(s, 2 * US_IN_S) && Agrees(s, 2 * US_IN_S)
            && Sync(s, 2 * US_IN_S).slotinit == Time(INT_LIMIT, 0)
            && TstampToTime(0x4000_0000, 2 * US_IN_S).sec == -INT_LIMIT
  {
    var t := Time(0x7fff_fffe, 0);
    assert Carry(t.(usec := 2 * US_IN_S)) == Carry(Time(0x7fff_ffff, US_IN_S)) == Carry(Time(0x8000_0000, 0));
  }

  /** A tick of the run finds a negative adjustment; `nextTs` is the one pending at the start. */
  predicate Late(nextTs: int, run: seq<Event>)
    decreases |run|
  {
    |run| > 0
    && match run[0]
       case Tick => nextTs < 0 || Late(0, run[1..])
       case Request(_, usec) => Late(usec, run[1..])
  }

  /** The offset that later jumps add is set by the first backward adjustment and never cleared. */
  lemma {:induction false} OffsetSticks(s: State, run: seq<Event>, tslen: nat)
    ensures After(s, run, tslen).lastOffset <==> s.lastOffset || Late(s.nextTs, run)
    decreases |run|
  {
    if |run| > 0 {
      OffsetSticks(Do(s, run[0], tslen), run[1..], tslen);
    }
  }

  lemma {:induction false} AfterAppend(s: State, a: seq<Event>, b: seq<Event>, tslen: nat)
    ensures After(s, a + b, tslen) == After(After(s, a, tslen), b, tslen)
    decreases |a|
  {
    if |a| == 0 {
      assert a + b == b;
    } else {
      assert (a + b)[1..] == a[1..] + b;
      AfterAppend(Do(s, a[0], tslen), a[1..], b, tslen);
    }
  }

  /**
   Whatever came before, the last request before a tick decides it: a stamp
   without an adjustment jumps behind that stamp, by two slots if any tick so
   far met a backward adjustment, and the stamp 0 is an ordinary tick.
   */
  lemma LastRequestWins(s: State, run: seq<Event>, tstamp: nat, tslen: nat)
    ensures After(s, run + [Request(tstamp, 0), Tick], tslen).tslot
            == if tstamp == 0 then After(s, run, tslen).tslot + 1
               else tstamp + (if s.lastOffset || Late(s.nextTs, run) then 2 else 1)
  {
    hide Late;
    var t := After(s, run, tslen);
    AfterAppend(s, run, [Request(tstamp, 0), Tick], tslen);
    OffsetSticks(s, run, tslen);
    var t1 := Do(t, Request(tstamp, 0), tslen);
    assert [Request(tstamp, 0), Tick][1..] == [Tick] && [Tick][1..] == [];
    assert After(t, [Request(tstamp, 0), Tick], tslen) == After(t1, [Tick], tslen) == Do(t1, Tick, tslen);
  }

  /**
   What the next tick arms the timer with: the adjustment of the last request
   since the last tick, a negative one counted from the end of a slot, and
   nothing when there was no request in between.
   */
  lemma LastRequestArms(s: State, run: seq<Event>, tstamp: nat, usec: int, tslen: nat)
    ensures Armed(After(s, run + [Request(tstamp, usec)], tslen), tslen) == (if usec < 0 then tslen + usec else usec)
    ensures Armed(After(s, run + [Tick], tslen), tslen) == 0
  {
    hide After;
    var t := After(s, run, tslen);
    AfterAppend(s, run, [Request(tstamp, usec)], tslen);
    AfterAppend(s, run, [Tick], tslen);
    AfterOne(t, Request(tstamp, usec), tslen);
    AfterOne(t, Tick, tslen);
  }

  lemma AfterOne(s: State, e: Event, tslen: nat)
    ensures After(s, [e], tslen) == Do(s, e, tslen)
  {
    assert [e][1..] == [];
  }

  /** A request with an adjustment counts one more slot, arms the timer, and jumps at the second tick. */
  lemma AdjustThenJump(s: State, tstamp: nat, usec: int, tslen: nat)
    requires tstamp != 0 && usec != 0
    ensures var s1 := Sync(Do(s, Request(tstamp, usec), tslen), tslen);
            && s1.tslot == s.tslot + 1
            && Sync(s1, tslen).tslot == tstamp + (if s.lastOffset || usec < 0 then 2 else 1)
            && Sync(Sync(s1, tslen), tslen).tslot == Sync(s1, tslen).tslot + 1
  {
  }
}
