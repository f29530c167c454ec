/**
 The status handshake of hw_api. Any process may request a status for an
 object, the object polls for it, any process may acknowledge it; each call
 runs under one semaphore, so a run is a sequence of calls. The object side,
 `Status`, makes several calls in a row, and requests and acknowledgements by
 other parties may fall between them.
 */
module Handshake {

  const INIT := 2
  const RUN := 3
  const PAUSE := 4
  const STEP := 5
  const STOP := 6
  const ABNSTOP := 7

  /** The status part of a process record. */
  datatype Proc = Proc(objId: int, cur: int, next: int, due: int, progress: int, objTstamp: int)

  /** What `hwapi_proc_create` writes. */
  function Created(objId: int, now: int): Proc {
    Proc(objId, 0, 1, now, 1, 0)
  }

  // ---- The three calls ----

  function Get(s: Proc, now: int): (r: (Proc, int)) {
    if s.next == s.cur then (s, s.cur)
    else if s.progress < 2 then
      if now >= s.due then (s.(progress := 2), s.next) else (s, s.cur)
    else (s.(cur := s.next), s.next)
  }

  function Stamp(tstamp: int, now: int): int {
    if tstamp == 0 then now else tstamp
  }

  /** A request is taken when the last one is over, or when it is forced by the stamp -1. */
  predicate Accepts(s: Proc, tstamp: int, now: int) {
    (s.progress == 0 && s.next == s.cur) || Stamp(tstamp, now) == -1
  }

  function New(s: Proc, status: int, tstamp: int, now: int): (r: (Proc, int)) {
    if Accepts(s, tstamp, now) then (s.(next := status, due := Stamp(tstamp, now), progress := 1), status)
    else (s, 0)
  }

  function Ack(s: Proc): (r: (Proc, int)) {
    if s.cur == s.next && s.progress == 2 then (s.(progress := 0), 1) else (s, 0)
  }

  // ---- Runs ----

  datatype Event = GetE(now: int) | NewE(status: int, tstamp: int, now: int) | AckE

  function Do(s: Proc, e: Event): Proc {
    match e
    case GetE(now) => Get(s, now).0
    case NewE(status, tstamp, now) => New(s, status, tstamp, now).0
    case AckE => Ack(s).0
  }

  function After(s: Proc, run: seq<Event>): Proc
    decreases |run|
  {
    if |run| == 0 then s else After(Do(s, run[0]), run[1..])
  }

  /** No request is accepted anywhere along the run. */
  predicate Quiet(s: Proc, run: seq<Event>)
    decreases |run|
  {
    |run| == 0
    || (!(run[0].NewE? && Accepts(s, run[0].tstamp, run[0].now)) && Quiet(Do(s, run[0]), run[1..]))
  }

  /** No request along the run is forced. */
  predicate Unforced(run: seq<Event>) {
    forall i :: 0 <= i < |run| && run[i].NewE? ==> Stamp(run[i].tstamp, run[i].now) != -1
  }

  predicate Inv(s: Proc) {
    0 <= s.progress <= 2 && (s.progress == 0 ==> s.cur == s.next)
  }

  /** Every call keeps progress in {0, 1, 2}, with nothing pending at 0. */
  lemma {:induction false} InvAlways(s: Proc, run: seq<Event>)
    requires Inv(s)
    ensures Inv(After(s, run))
    decreases |run|
  {
    if |run| > 0 {
      InvAlways(Do(s, run[0]), run[1..]);
    }
  }

  lemma {:induction false} AfterAppend(s: Proc, a: seq<Event>, b: seq<Event>)
    ensures After(s, a + b) == After(After(s, a), b)
    decreases |a|
  {
    if |a| == 0 {
      assert a + b == b;
    } else {
      assert (a + b)[1..] == a[1..] + b;
      AfterAppend(Do(s, a[0]), a[1..], b);
    }
  }

  // ---- A request goes through four phases ----

  datatype Phase = Pending | Announced | Adopted | Acked

  function Next(p: Phase, e: Event, due: int): Phase {
    match p
    case Pending => if e.GetE? && e.now >= due then Announced else Pending
    case Announced => if e.GetE? then Adopted else Announced
    case Adopted => if e.AckE? then Acked else Adopted
    case Acked => Acked
  }

  function PhaseAfter(p: Phase, run: seq<Event>, due: int): Phase
    decreases |run|
  {
    if |run| == 0 then p else PhaseAfter(Next(p, run[0], due), run[1..], due)
  }

  /** The record of a request in a phase; `r` is the record just after the request was accepted. */
  function Record(r: Proc, p: Phase): Proc {
    match p
    case Pending => r
    case Announced => r.(progress := 2)
    case Adopted => r.(cur := r.next, progress := 2)
    case Acked => r.(cur := r.next, progress := 0)
  }

  /** A record just after a request for another status was accepted. */
  predicate Requested(r: Proc) {
    r.progress == 1 && r.cur != r.next
  }

  /**
   Until another request is accepted, the record is a function of the phase
   alone: a due get announces the status, a second get adopts it, an ack after
   that ends it, and every other call changes nothing.
   */
  lemma {:induction false} PhasesRefine(r: Proc, p: Phase, run: seq<Event>)
    requires Requested(r) && Quiet(Record(r, p), run)
    ensures After(Record(r, p), run) == Record(r, PhaseAfter(p, run, r.due))
    decreases |run|
  {
    if |run| > 0 {
      assert Do(Record(r, p), run[0]) == Record(r, Next(p, run[0], r.due));
      PhasesRefine(r, Next(p, run[0], r.due), run[1..]);
    }
  }

  /** Some get along the run is due. */
  predicate HasDueGet(run: seq<Event>, due: int) {
    exists i :: 0 <= i < |run| && run[i].GetE? && run[i].now >= due
  }

  lemma {:induction false} PendingUntilDue(p: Phase, run: seq<Event>, due: int)
    ensures PhaseAfter(p, run, due) == Pending <==> p == Pending && !HasDueGet(run, due)
    decreases |run|
  {
    if |run| > 0 {
      var p1 := Next(p, run[0], due);
      PendingUntilDue(p1, run[1..], due);
      assert HasDueGet(run, due) <==> (run[0].GetE? && run[0].now >= due) || HasDueGet(run[1..], due) by {
        if HasDueGet(run, due) {
          var i :| 0 <= i < |run| && run[i].GetE? && run[i].now >= due;
          assert i > 0 ==> run[1..][i - 1] == run[i];
        }
        if HasDueGet(run[1..], due) {
          var i :| 0 <= i < |run[1..]| && run[1..][i].GetE? && run[1..][i].now >= due;
          assert run[i + 1] == run[1..][i];
        }
      }
    }
  }

  /**
   What a get returns after any quiet run: the requested status exactly when
   that get or an earlier one was due, the old status otherwise. So it is
   never returned early, and once returned it is returned by every later get.
   */
  lemma GetReturnsIff(r: Proc, run: seq<Event>, now: int)
    requires Requested(r) && Quiet(r, run)
    ensures Get(After(r, run), now).1 == if HasDueGet(run, r.due) || now >= r.due then r.next else r.cur
  {
    PhasesRefine(r, Pending, run);
    PendingUntilDue(Pending, run, r.due);
  }

  predicate DueGet(e: Event, due: int) {
    e.GetE? && e.now >= due
  }

  /** The run holds, in this order, a due get, another get, and an ack. */
  predicate Completes(run: seq<Event>, due: int) {
    exists i :: 0 <= i < |run| && DueGet(run[i], due) && GetThenAck(run[i + 1..])
  }

  predicate GetThenAck(run: seq<Event>) {
    exists j :: 0 <= j < |run| && run[j].GetE? && HasAck(run[j + 1..])
  }

  predicate HasAck(run: seq<Event>) {
    exists k :: 0 <= k < |run| && run[k].AckE?
  }

  lemma {:induction false} AckedFromAdopted(run: seq<Event>, due: int)
    ensures PhaseAfter(Adopted, run, due) == Acked <==> HasAck(run)
    decreases |run|
  {
    if |run| > 0 {
      AckedFromAdopted(run[1..], due);
      AckedStays(run[1..], due);
      HasAckStep(run);
    }
  }

  lemma HasAckStep(run: seq<Event>)
    requires |run| > 0
    ensures HasAck(run) <==> run[0].AckE? || HasAck(run[1..])
  {
    if HasAck(run) {
      var k :| 0 <= k < |run| && run[k].AckE?;
      assert k > 0 ==> run[1..][k - 1].AckE?;
    }
    if HasAck(run[1..]) {
      var k :| 0 <= k < |run[1..]| && run[1..][k].AckE?;
      assert run[k + 1].AckE?;
    }
  }

  lemma {:induction false} AckedStays(run: seq<Event>, due: int)
    ensures PhaseAfter(Acked, run, due) == Acked
    decreases |run|
  {
    if |run| > 0 { AckedStays(run[1..], due); }
  }

  lemma {:induction false} AckedFromAnnounced(run: seq<Event>, due: int)
    ensures PhaseAfter(Announced, run, due) == Acked <==> GetThenAck(run)
    decreases |run|
  {
    if |run| > 0 {
      AckedFromAnnounced(run[1..], due);
      AckedFromAdopted(run[1..], due);
      GetThenAckStep(run);
    }
  }

  lemma GetThenAckStep(run: seq<Event>)
    requires |run| > 0
    ensures GetThenAck(run) <==> (run[0].GetE? && HasAck(run[1..])) || GetThenAck(run[1..])
  {
    var t := run[1..];
    forall j | 0 <= j < |t| ensures t[j] == run[j + 1] && t[j + 1..] == run[j + 2..] {
    }
    if GetThenAck(run) {
      var j :| 0 <= j < |run| && run[j].GetE? && HasAck(run[j + 1..]);
      assert j > 0 ==> t[j - 1].GetE? && t[j - 1 + 1..] == run[j + 1..];
    }
    if GetThenAck(t) {
      var j :| 0 <= j < |t| && t[j].GetE? && HasAck(t[j + 1..]);
      assert run[j + 1].GetE? && HasAck(run[j + 1 + 1..]);
    }
  }

  lemma {:induction false} AckedFromPending(run: seq<Event>, due: int)
    ensures PhaseAfter(Pending, run, due) == Acked <==> Completes(run, due)
    decreases |run|
  {
    if |run| > 0 {
      AckedFromPending(run[1..], due);
      AckedFromAnnounced(run[1..], due);
      CompletesStep(run, due);
    }
  }

  lemma CompletesStep(run: seq<Event>, due: int)
    requires |run| > 0
    ensures Completes(run, due) <==> (DueGet(run[0], due) && GetThenAck(run[1..])) || Completes(run[1..], due)
  {
    var t := run[1..];
    forall j | 0 <= j < |t| ensures t[j] == run[j + 1] && t[j + 1..] == run[j + 2..] {
    }
    if Completes(run, due) {
      var i :| 0 <= i < |run| && DueGet(run[i], due) && GetThenAck(run[i + 1..]);
      assert i > 0 ==> DueGet(t[i - 1], due) && t[i - 1 + 1..] == run[i + 1..];
    }
    if Completes(t, due) {
      var i :| 0 <= i < |t| && DueGet(t[i], due) && GetThenAck(t[i + 1..]);
      assert DueGet(run[i + 1], due) && GetThenAck(run[i + 1 + 1..]);
    }
  }

  /**
   After any quiet run an unforced request is accepted exactly when the run
   held a due get, another get and an ack, in that order.
   */
  lemma NextAcceptedIff(r: Proc, run: seq<Event>, tstamp: int, now: int)
    requires Requested(r) && Quiet(r, run) && Stamp(tstamp, now) != -1
    ensures Accepts(After(r, run), tstamp, now) <==> Completes(run, r.due)
  {
    PhasesRefine(r, Pending, run);
    AckedFromPending(run, r.due);
  }

  // ---- From the request to its end ----

  /** The record takes a request for another status with this stamp. */
  predicate Takes(s: Proc, status: int, tstamp: int) {
    status != s.cur && ((s.progress == 0 && s.next == s.cur) || tstamp == -1)
  }

  /** For every record, reachable or not: what a request does, and what it is answered with. */
  lemma EveryRequest(s: Proc, status: int, tstamp: int, now: int)
    ensures var t := if tstamp == 0 then now else tstamp;
            New(s, status, tstamp, now)
            == if t == -1 || (s.progress == 0 && s.next == s.cur)
               then (Proc(s.objId, s.cur, status, t, 1, s.objTstamp), status)
               else (s, 0)
  {
  }

  lemma TakenRecord(s: Proc, status: int, tstamp: int, now: int)
    requires Takes(s, status, tstamp)
    ensures var r := New(s, status, tstamp, now).0;
            Requested(r) && r == Proc(s.objId, s.cur, status, if tstamp == 0 then now else tstamp, 1, s.objTstamp)
    ensures New(s, status, tstamp, now).1 == status
  {
  }

  /**
   A request for another status with stamp t, made when the last one is over or
   forced with -1, is taken and its status is the answer. After any quiet run a
   get returns that status exactly when it or an earlier get is at t or later,
   and the old status before; the stamp 0 stands for the time of the request.
   */
  lemma ReturnedFromStampOn(s: Proc, status: int, tstamp: int, now: int, run: seq<Event>, at: int)
    requires Takes(s, status, tstamp) && Quiet(New(s, status, tstamp, now).0, run)
    ensures New(s, status, tstamp, now).1 == status
    ensures var t := if tstamp == 0 then now else tstamp;
            Get(After(New(s, status, tstamp, now).0, run), at).1
            == if at >= t || (exists i :: 0 <= i < |run| && run[i].GetE? && run[i].now >= t) then status else s.cur
  {
    hide After, Get, New;
    TakenRecord(s, status, tstamp, now);
    GetReturnsIff(New(s, status, tstamp, now).0, run, at);
  }

  /**
   The next unforced request is refused with 0 and no effect until a get at t or
   later, another get and an ack have followed each other. Then it is answered
   with its status, and the object has the first status until it is due.
   */
  lemma NextTakenIff(s: Proc, status: int, tstamp: int, now: int, run: seq<Event>, status1: int, tstamp1: int, now1: int)
    requires Takes(s, status, tstamp) && Quiet(New(s, status, tstamp, now).0, run)
    requires tstamp1 != -1 && (tstamp1 == 0 ==> now1 != -1)
    ensures var t, s1 := if tstamp == 0 then now else tstamp, After(New(s, status, tstamp, now).0, run);
            New(s1, status1, tstamp1, now1)
            == if Completes(run, t)
               then (Proc(s.objId, status, status1, if tstamp1 == 0 then now1 else tstamp1, 1, s.objTstamp), status1)
               else (s1, 0)
  {
    hide After, Completes;
    TakenRecord(s, status, tstamp, now);
    var r := New(s, status, tstamp, now).0;
    NextAcceptedIff(r, run, tstamp1, now1);
    PhasesRefine(r, Pending, run);
    AckedFromPending(run, r.due);
  }

  lemma {:induction false} PhaseAppend(p: Phase, a: seq<Event>, e: Event, due: int)
    ensures PhaseAfter(p, a + [e], due) == Next(PhaseAfter(p, a, due), e, due)
    decreases |a|
  {
    if |a| == 0 {
      assert a + [e] == [e] && [e][1..] == [];
    } else {
      assert (a + [e])[1..] == a[1..] + [e];
      PhaseAppend(Next(p, a[0], due), a[1..], e, due);
    }
  }

  /** An ack is answered with 1 exactly when it is the one that completes the request, and with 0 otherwise. */
  lemma AckSucceedsIff(s: Proc, status: int, tstamp: int, now: int, run: seq<Event>)
    requires Takes(s, status, tstamp) && Quiet(New(s, status, tstamp, now).0, run)
    ensures var t := if tstamp == 0 then now else tstamp;
            Ack(After(New(s, status, tstamp, now).0, run)).1
            == if Completes(run + [AckE], t) && !Completes(run, t) then 1 else 0
  {
    hide After, Completes;
    TakenRecord(s, status, tstamp, now);
    var r := New(s, status, tstamp, now).0;
    PhasesRefine(r, Pending, run);
    PhaseAppend(Pending, run, AckE, r.due);
    AckedFromPending(run, r.due);
    AckedFromPending(run + [AckE], r.due);
  }

  /**
   In every interleaving from the record of a new object progress stays in
   {0, 1, 2}, with nothing pending at 0. Until a request is accepted, its gets
   return 1 from the time of its creation on and 0 before.
   */
  lemma InvFromCreation(objId: int, now: int, run: seq<Event>, at: int)
    ensures Inv(After(Created(objId, now), run))
    ensures Created(objId, now).objTstamp == 0
    ensures Quiet(Created(objId, now), run) ==>
              Get(After(Created(objId, now), run), at).1
              == if at >= now || (exists i :: 0 <= i < |run| && run[i].GetE? && run[i].now >= now) then 1 else 0
  {
    hide After, Get;
    InvAlways(Created(objId, now), run);
    if Quiet(Created(objId, now), run) {
      GetReturnsIff(Created(objId, now), run, at);
    }
  }

  /**
   A request for the status the object already has is accepted but never over:
   without a forced request nothing changes it, no ack succeeds and no later
   request is accepted.
   */
  lemma {:induction false} SameStatusNeverEnds(s: Proc, run: seq<Event>)
    requires s.progress == 1 && s.cur == s.next && Unforced(run)
    ensures After(s, run) == s && Quiet(s, run)
    ensures Ack(s).1 == 0
    decreases |run|
  {
    if |run| > 0 {
      var e := run[0];
      assert e.NewE? ==> Stamp(e.tstamp, e.now) != -1;
      assert Do(s, e) == s;
      assert Unforced(run[1..]) by {
        forall i | 0 <= i < |run[1..]| && run[1..][i].NewE? ensures Stamp(run[1..][i].tstamp, run[1..][i].now) != -1 {
          assert run[1..][i] == run[i + 1];
        }
      }
      SameStatusNeverEnds(s, run[1..]);
    }
  }

  /** An accepted request can be brought to its end exactly when it asks for another status. */
  lemma CanEndIff(s: Proc, status: int, tstamp: int, now: int)
    requires Accepts(s, tstamp, now)
    ensures var s1 := New(s, status, tstamp, now).0;
            (exists run :: Unforced(run) && After(s1, run).progress == 0) <==> status != s.cur
  {
    var s1 := New(s, status, tstamp, now).0;
    if status != s.cur {
      var run := [GetE(s1.due), GetE(s1.due), AckE];
      assert run[1..] == [GetE(s1.due), AckE] && run[1..][1..] == [AckE] && run[1..][1..][1..] == [];
      var s2, s3 := Do(s1, GetE(s1.due)), Do(Do(s1, GetE(s1.due)), GetE(s1.due));
      assert After(s1, run) == After(s2, run[1..]) == After(s3, run[1..][1..]) == Do(s3, AckE);
      assert Unforced(run) && After(s1, run).progress == 0;
    } else {
      forall run | Unforced(run) ensures After(s1, run).progress != 0 {
        SameStatusNeverEnds(s1, run);
      }
    }
  }

  // ---- The object side ----

  datatype Outcome = Running | Initial | Stopped | Waiting

  /** The clock at the calls of one pass, and the calls of other parties before each but the first. */
  datatype Env = Env(now: seq<int>, foreign: seq<seq<Event>>)

  predicate NoGets(run: seq<Event>) {
    forall i :: 0 <= i < |run| ==> !run[i].GetE?
  }

  predicate EnvOk(e: Env) {
    && |e.now| == 4 && |e.foreign| == 4
    && (forall i, j :: 0 <= i <= j < 4 ==> 0 <= e.now[i] <= e.now[j])
    && (forall i :: 0 <= i < 4 ==> NoGets(e.foreign[i]))
  }

  function Tick(s: Proc): Proc {
    s.(objTstamp := s.objTstamp + 1)
  }

  /** The calls of the STEP branch up to the object's own request. */
  function UntilRequest(e: Env): seq<Event>
    requires EnvOk(e)
  {
    e.foreign[0] + [GetE(e.now[1])] + e.foreign[1] + [AckE] + e.foreign[2]
  }

  /** All calls of the STEP branch, after the get that returned STEP. */
  function StepEvents(e: Env): seq<Event>
    requires EnvOk(e)
  {
    UntilRequest(e) + [NewE(PAUSE, 0, e.now[2])] + e.foreign[3] + [GetE(e.now[3])]
  }

  /** One pass of the loop in `Status`. */
  function Pass(s: Proc, initDone: bool, e: Env): (r: (Proc, Outcome))
    requires EnvOk(e)
  {
    var (s1, status) := Get(s, e.now[0]);
    if status == RUN then (Tick(s1), Running)
    else if status == INIT && !initDone then (s1, Initial)
    else if status == STOP || status == ABNSTOP then (s1, Stopped)
    else if status == STEP then (After(Tick(s1), StepEvents(e)), Running)
    else (s1, Waiting)
  }

  /** The record when the STEP branch begins, if the first get returns STEP. */
  function Stepping(s: Proc, e: Env): Proc
    requires EnvOk(e)
  {
    Tick(Get(s, e.now[0]).0)
  }

  /** The object's own PAUSE request is accepted. */
  predicate OwnAccepted(s: Proc, e: Env)
    requires EnvOk(e)
  {
    Accepts(After(Stepping(s, e), UntilRequest(e)), 0, e.now[2])
  }

  function Gets(run: seq<Event>): nat {
    if |run| == 0 then 0 else (if run[0].GetE? then 1 else 0) + Gets(run[1..])
  }

  lemma {:induction false} GetsAppend(a: seq<Event>, b: seq<Event>)
    ensures Gets(a + b) == Gets(a) + Gets(b)
    decreases |a|
  {
    if |a| == 0 {
      assert a + b == b;
    } else {
      assert (a + b)[1..] == a[1..] + b;
      GetsAppend(a[1..], b);
    }
  }

  lemma {:induction false} GetsNone(run: seq<Event>)
    requires NoGets(run)
    ensures Gets(run) == 0
  {
    if |run| > 0 {
      GetsNone(run[1..]);
    }
  }

  lemma OneGet(e: Env)
    requires EnvOk(e)
    ensures Gets(UntilRequest(e)) == 1
  {
    hide Gets;
    var f := e.foreign;
    GetsNone(f[0]);
    GetsNone(f[1]);
    GetsNone(f[2]);
    SingleGets(e.now[1]);
    GetsAppend(f[0] + [GetE(e.now[1])] + f[1] + [AckE], f[2]);
    GetsAppend(f[0] + [GetE(e.now[1])] + f[1], [AckE]);
    GetsAppend(f[0] + [GetE(e.now[1])], f[1]);
    GetsAppend(f[0], [GetE(e.now[1])]);
  }

  lemma SingleGets(now: int)
    ensures Gets([GetE(now)]) == 1 && Gets([AckE]) == 0
  {
    assert [GetE(now)][1..] == [] && [AckE][1..] == [];
  }

  /** A pending request that one more get can at most announce is not over after that get. */
  lemma {:induction false} PendingStays(s: Proc, run: seq<Event>)
    requires Gets(run) <= 1 && (s.progress == 1 || (s.progress == 2 && s.cur != s.next && Gets(run) == 0))
    ensures After(s, run).progress != 0
    decreases |run|
  {
    if |run| > 0 {
      PendingStays(Do(s, run[0]), run[1..]);
    }
  }

  lemma {:induction false} DisturbedStays(s: Proc, run: seq<Event>)
    requires Gets(run) <= 1 && !Quiet(s, run)
    ensures After(s, run).progress != 0
    decreases |run|
  {
    if run[0].NewE? && Accepts(s, run[0].tstamp, run[0].now) {
      PendingStays(Do(s, run[0]), run[1..]);
    } else {
      DisturbedStays(Do(s, run[0]), run[1..]);
    }
  }

  /** A record in some phase of a STEP request. */
  lemma StepPhase(s: Proc, e: Env) returns (r: Proc, p: Phase)
    requires EnvOk(e) && Inv(s) && Get(s, e.now[0]).1 == STEP && !(s.cur == STEP && s.progress == 1)
    ensures Requested(r) && r.next == STEP && r.objId == s.objId && r.objTstamp == s.objTstamp + 1
    ensures Stepping(s, e) == Record(r, p) && p != Pending
  {
    var s1 := Stepping(s, e);
    r := s1.(cur := if s1.cur == STEP then PAUSE else s1.cur, progress := 1);
    p := if s1.progress == 0 then Acked else if s1.cur == STEP then Adopted else Announced;
  }

  lemma GetAndAck(e: Env)
    requires EnvOk(e)
    ensures GetThenAck(UntilRequest(e)) && HasAck(UntilRequest(e))
  {
    var run, j := UntilRequest(e), |e.foreign[0]|;
    var k := j + 1 + |e.foreign[1]|;
    assert run[j] == GetE(e.now[1]) && run[k] == AckE;
    assert run[j + 1..][k - j - 1].AckE?;
  }

  /** Undisturbed, the calls up to the object's own request end the STEP request. */
  lemma StepEnds(r: Proc, p: Phase, e: Env)
    requires EnvOk(e) && Requested(r) && p != Pending && Quiet(Record(r, p), UntilRequest(e))
    ensures After(Record(r, p), UntilRequest(e)) == Record(r, Acked)
  {
    var run := UntilRequest(e);
    PhasesRefine(r, p, run);
    GetAndAck(e);
    AckedFromAnnounced(run, r.due);
    AckedFromAdopted(run, r.due);
    AckedStays(run, r.due);
  }

  /**
   When the first get of a pass returns STEP, the object's own PAUSE request is
   accepted exactly when no request by another party is accepted before it
   during the step, and the object was not already in STEP with a request
   still pending.
   */
  lemma OwnAcceptedIff(s: Proc, e: Env)
    requires EnvOk(e) && Inv(s) && Get(s, e.now[0]).1 == STEP
    ensures OwnAccepted(s, e) <==> !(s.cur == STEP && s.progress == 1) && Quiet(Stepping(s, e), UntilRequest(e))
  {
    hide After, Quiet, UntilRequest, Gets;
    OneGet(e);
    if s.cur == STEP && s.progress == 1 {
      PendingStays(Stepping(s, e), UntilRequest(e));
    } else if Quiet(Stepping(s, e), UntilRequest(e)) {
      var r, p := StepPhase(s, e);
      StepEnds(r, p, e);
    } else {
      DisturbedStays(Stepping(s, e), UntilRequest(e));
    }
  }

  /** The record just after the object's own request was accepted. */
  function Paused(s: Proc, e: Env): Proc
    requires EnvOk(e)
  {
    Proc(s.objId, STEP, PAUSE, e.now[2], 1, s.objTstamp + 1)
  }

  /** A step that other parties do not disturb: no request of theirs is accepted before or after the object's own. */
  predicate Undisturbed(s: Proc, e: Env)
    requires EnvOk(e)
  {
    Quiet(Stepping(s, e), UntilRequest(e)) && Quiet(Paused(s, e), e.foreign[3])
  }

  /**
   An undisturbed step makes `Status` return RUN, moves the object's stamp by
   one and leaves a PAUSE request that is already announced, whatever
   acknowledgements and refused requests fall between the calls.
   */
  lemma StepRunsOnce(s: Proc, initDone: bool, e: Env)
    requires EnvOk(e) && Inv(s) && Get(s, e.now[0]).1 == STEP && !(s.cur == STEP && s.progress == 1)
    requires Undisturbed(s, e)
    ensures Pass(s, initDone, e) == (Paused(s, e).(progress := 2), Running)
  {
    hide After, Quiet, UntilRequest;
    var r, p := StepPhase(s, e);
    StepEnds(r, p, e);
    var s0, own, f := Stepping(s, e), NewE(PAUSE, 0, e.now[2]), e.foreign[3];
    AfterAppend(s0, UntilRequest(e) + [own] + f, [GetE(e.now[3])]);
    AfterAppend(s0, UntilRequest(e) + [own], f);
    AfterAppend(s0, UntilRequest(e), [own]);
    AfterOne(Record(r, Acked), own);
    assert Do(Record(r, Acked), own) == Paused(s, e);
    AfterOne(After(Paused(s, e), f), GetE(e.now[3]));
    PhasesRefine(Paused(s, e), Pending, f);
    NoDueGet(f, e.now[2]);
    assert e.now[2] <= e.now[3];
  }

  lemma AfterOne(s: Proc, e: Event)
    ensures After(s, [e]) == Do(s, e)
  {
    assert [e][1..] == [];
  }

  lemma NoDueGet(run: seq<Event>, due: int)
    requires NoGets(run)
    ensures PhaseAfter(Pending, run, due) == Pending
  {
    PendingUntilDue(Pending, run, due);
  }

  /** Gets and acks accept no request. */
  lemma {:induction false} QuietIf(s: Proc, run: seq<Event>)
    requires forall i :: 0 <= i < |run| ==> !run[i].NewE?
    ensures Quiet(s, run)
    decreases |run|
  {
    if |run| > 0 {
      QuietIf(Do(s, run[0]), run[1..]);
    }
  }

  /** A STEP request that the next get returns to an object in another status. */
  predicate StepDue(s: Proc, now: int) {
    s.next == STEP && s.cur != STEP && (s.progress == 2 || (s.progress == 1 && now >= s.due))
  }

  predicate AcksOnly(run: seq<Event>) {
    forall i :: 0 <= i < |run| ==> run[i].AckE?
  }

  /** A due STEP runs exactly once and ends in PAUSE, however acknowledgements by other parties interleave. */
  lemma StepDespiteAcks(s: Proc, initDone: bool, e: Env)
    requires EnvOk(e) && StepDue(s, e.now[0]) && forall i :: 0 <= i < 4 ==> AcksOnly(e.foreign[i])
    ensures Pass(s, initDone, e) == (Paused(s, e).(progress := 2), Running)
  {
    hide Quiet, After;
    assert AcksOnly(e.foreign[0]) && AcksOnly(e.foreign[1]) && AcksOnly(e.foreign[2]) && AcksOnly(e.foreign[3]);
    var run := UntilRequest(e);
    forall i | 0 <= i < |run| ensures !run[i].NewE? {
    }
    QuietIf(Stepping(s, e), run);
    QuietIf(Paused(s, e), e.foreign[3]);
    StepRunsOnce(s, initDone, e);
  }

  /** After an undisturbed step no pass runs and the stamp stands still until another request is accepted. */
  lemma NoRunAfterStep(s: Proc, initDone: bool, e: Env, run: seq<Event>, e1: Env)
    requires EnvOk(e) && Inv(s) && Get(s, e.now[0]).1 == STEP && !(s.cur == STEP && s.progress == 1)
    requires Undisturbed(s, e) && EnvOk(e1) && Quiet(Pass(s, initDone, e).0, run)
    ensures var s1 := After(Pass(s, initDone, e).0, run);
            s1.objTstamp == s.objTstamp + 1 && Pass(s1, initDone, e1).1 == Waiting
            && Pass(s1, initDone, e1).0 == Do(s1, GetE(e1.now[0]))
  {
    hide After, Quiet, Undisturbed;
    StepRunsOnce(s, initDone, e);
    var r := Paused(s, e);
    PhasesRefine(r, Announced, run);
    var p := PhaseAfter(Announced, run, r.due);
    PendingUntilDue(Announced, run, r.due);
    assert Get(Record(r, p), e1.now[0]).1 == PAUSE;
  }

  // ---- STEP requested while in STEP ----

  /** STEP is pending and the object is already in STEP. */
  predicate Stuck(s: Proc) {
    s.cur == STEP && s.next == STEP && s.progress == 1
  }

  predicate EnvsOk(envs: seq<Env>) {
    forall i :: 0 <= i < |envs| ==> EnvOk(envs[i]) && forall j :: 0 <= j < 4 ==> Unforced(envs[i].foreign[j])
  }

  /** The record after a number of passes, and how many of them returned RUN. */
  function Passes(s: Proc, initDone: bool, envs: seq<Env>): (r: (Proc, nat))
    requires EnvsOk(envs)
    decreases |envs|
  {
    if |envs| == 0 then (s, 0)
    else
      var (s1, o) := Pass(s, initDone, envs[0]);
      var (s2, n) := Passes(s1, initDone, envs[1..]);
      (s2, if o == Running then n + 1 else n)
  }

  /** As long as no request is forced, such an object runs in every pass and its record never changes. */
  lemma {:induction false} StuckRunsOn(s: Proc, initDone: bool, envs: seq<Env>)
    requires Stuck(s) && EnvsOk(envs)
    ensures Passes(s, initDone, envs) == (s.(objTstamp := s.objTstamp + |envs|), |envs|)
    decreases |envs|
  {
    hide StepEvents;
    if |envs| > 0 {
      StuckStep(s, envs[0]);
      StuckRunsOn(Tick(s), initDone, envs[1..]);
    }
  }

  lemma StuckStep(s: Proc, e: Env)
    requires Stuck(s) && EnvOk(e) && forall j :: 0 <= j < 4 ==> Unforced(e.foreign[j])
    ensures After(Tick(s), StepEvents(e)) == Tick(s)
  {
    hide After;
    var run := StepEvents(e);
    assert Unforced(e.foreign[0]) && Unforced(e.foreign[1]) && Unforced(e.foreign[2]) && Unforced(e.foreign[3]);
    UnforcedEvents(e);
    SameStatusNeverEnds(Tick(s), run);
  }

  lemma UnforcedEvents(e: Env)
    requires EnvOk(e) && forall j :: 0 <= j < 4 ==> Unforced(e.foreign[j])
    ensures Unforced(StepEvents(e))
  {
    var f := e.foreign;
    UnforcedAppend(f[0], [GetE(e.now[1])]);
    UnforcedAppend(f[0] + [GetE(e.now[1])], f[1]);
    UnforcedAppend(f[0] + [GetE(e.now[1])] + f[1], [AckE]);
    UnforcedAppend(f[0] + [GetE(e.now[1])] + f[1] + [AckE], f[2]);
    UnforcedAppend(UntilRequest(e), [NewE(PAUSE, 0, e.now[2])]);
    UnforcedAppend(UntilRequest(e) + [NewE(PAUSE, 0, e.now[2])], f[3]);
    UnforcedAppend(UntilRequest(e) + [NewE(PAUSE, 0, e.now[2])] + f[3], [GetE(e.now[3])]);
  }

  lemma UnforcedAppend(a: seq<Event>, b: seq<Event>)
    requires Unforced(a) && Unforced(b)
    ensures Unforced(a + b)
  {
  }

  /** Calls that take a new record to a pending STEP request. */
  function ToStep(now: int): seq<Event> {
    [GetE(now), GetE(now), AckE, NewE(STEP, 0, now)]
  }

  /** A second STEP request between the object's ack and its own request. */
  function SecondStep(now: int): Env {
    Env([now, now, now, now], [[], [], [NewE(STEP, 0, now)], []])
  }

  /** Two STEP requests, the second of which meets that gap, leave an object in this state for good. */
  lemma StuckIsReached(objId: int, now: int)
    requires now >= 0
    ensures EnvOk(SecondStep(now))
    ensures var s := After(Created(objId, now), ToStep(now));
            && StepDue(s, now)
            && Pass(s, true, SecondStep(now)) == (Proc(objId, STEP, STEP, now, 1, 1), Running)
            && Stuck(Pass(s, true, SecondStep(now)).0)
  {
    var c, e := Created(objId, now), SecondStep(now);
    assert After(c, ToStep(now)) == Proc(objId, 1, STEP, now, 1, 0) by {
      hide After;
      assert ToStep(now) == [GetE(now)] + [GetE(now)] + [AckE] + [NewE(STEP, 0, now)];
      FourCalls(c, GetE(now), GetE(now), AckE, NewE(STEP, 0, now));
    }
    assert After(Proc(objId, 1, STEP, now, 2, 1), StepEvents(e)) == Proc(objId, STEP, STEP, now, 1, 1) by {
      hide After;
      var t := Proc(objId, 1, STEP, now, 2, 1);
      assert StepEvents(e) == [GetE(now)] + [AckE] + [NewE(STEP, 0, now)] + [NewE(PAUSE, 0, now)] + [GetE(now)];
      AfterAppend(t, [GetE(now)] + [AckE] + [NewE(STEP, 0, now)] + [NewE(PAUSE, 0, now)], [GetE(now)]);
      FourCalls(t, GetE(now), AckE, NewE(STEP, 0, now), NewE(PAUSE, 0, now));
      AfterOne(Proc(objId, STEP, STEP, now, 1, 1), GetE(now));
    }
  }

  lemma FourCalls(s: Proc, a: Event, b: Event, c: Event, d: Event)
    ensures After(s, [a] + [b] + [c] + [d]) == Do(Do(Do(Do(s, a), b), c), d)
  {
    hide After, Do;
    AfterAppend(s, [a] + [b] + [c], [d]);
    AfterAppend(s, [a] + [b], [c]);
    AfterAppend(s, [a], [b]);
    AfterOne(s, a);
    AfterOne(Do(s, a), b);
    AfterOne(Do(Do(s, a), b), c);
    AfterOne(Do(Do(Do(s, a), b), c), d);
  }

  // ---- What a pass returns ----

  /**
   A pass returns RUN exactly when its first get returns RUN or STEP, STOP
   exactly for STOP and ABNSTOP, INIT exactly for INIT before initialisation is
   over, and waits for the rest. Unless it steps, its effect on the record is
   that get, and one stamp more if it returned RUN.
   */
  lemma PassOutcome(s: Proc, initDone: bool, e: Env)
    requires EnvOk(e)
    ensures var (s1, o), (s2, status) := Pass(s, initDone, e), Get(s, e.now[0]);
            && (o == Running <==> status == RUN || status == STEP)
            && (o == Stopped <==> status == STOP || status == ABNSTOP)
            && (o == Initial <==> status == INIT && !initDone)
            && (o == Waiting <==> status !in {RUN, STEP, STOP, ABNSTOP} && (status == INIT ==> initDone))
            && (status != STEP ==> s1 == s2.(objTstamp := s.objTstamp + (if status == RUN then 1 else 0)))
  {
    hide After, StepEvents;
  }

  lemma {:induction false} TstampKept(s: Proc, run: seq<Event>)
    ensures After(s, run).objTstamp == s.objTstamp
    decreases |run|
  {
    if |run| > 0 {
      TstampKept(Do(s, run[0]), run[1..]);
    }
  }

  lemma PassTstamp(s: Proc, initDone: bool, e: Env)
    requires EnvOk(e)
    ensures var (s1, o) := Pass(s, initDone, e); s1.objTstamp == s.objTstamp + (if o == Running then 1 else 0)
  {
    hide After, StepEvents;
    PassOutcome(s, initDone, e);
    TstampKept(Stepping(s, e), StepEvents(e));
  }

  /** The passes of a run that return RUN. */
  function Ran(s: Obj, run: seq<Action>): nat
    requires RunOk(run)
    decreases |run|
  {
    if |run| == 0 then 0
    else (if run[0].Passed? && Pass(s.proc, s.initDone, run[0].e).1 == Running then 1 else 0)
         + Ran(Act(s, run[0]), run[1..])
  }

  /** In every run of passes, relinquishes and foreign calls the object's stamp counts the passes that returned RUN. */
  lemma {:induction false} TstampCountsRuns(s: Obj, run: seq<Action>)
    requires RunOk(run)
    ensures Acted(s, run).proc.objTstamp == s.proc.objTstamp + Ran(s, run)
    decreases |run|
  {
    hide Pass, Get, Do;
    if |run| > 0 {
      match run[0] {
        case Passed(e) => PassTstamp(s.proc, s.initDone, e);
        case Relinquished =>
        case Called(call) => CallTstamp(s.proc, call);
      }
      TstampCountsRuns(Act(s, run[0]), run[1..]);
    }
  }

  lemma CallTstamp(s: Proc, call: Event)
    ensures Do(s, call).objTstamp == s.objTstamp
  {
  }

  // ---- The end of initialisation ----

  /** An object's record with its own static variables. */
  datatype Obj = Obj(proc: Proc, status: int, initDone: bool)

  /** The object passes through `Status` or relinquishes, or another party calls. */
  datatype Action = Passed(e: Env) | Relinquished | Called(call: Event)

  predicate RunOk(run: seq<Action>) {
    forall i :: 0 <= i < |run| && run[i].Passed? ==> EnvOk(run[i].e)
  }

  function Act(s: Obj, a: Action): Obj
    requires a.Passed? ==> EnvOk(a.e)
  {
    match a
    case Passed(e) => Obj(Pass(s.proc, s.initDone, e).0, Get(s.proc, e.now[0]).1, s.initDone)
    case Relinquished => s.(initDone := s.initDone || s.status == INIT)
    case Called(call) => s.(proc := Do(s.proc, call))
  }

  function Acted(s: Obj, run: seq<Action>): Obj
    requires RunOk(run)
    decreases |run|
  {
    if |run| == 0 then s else Acted(Act(s, run[0]), run[1..])
  }

  /** The object relinquishes somewhere along the run while its last status was INIT. */
  predicate InitEnds(s: Obj, run: seq<Action>)
    requires RunOk(run)
    decreases |run|
  {
    |run| > 0 && ((run[0].Relinquished? && s.status == INIT) || InitEnds(Act(s, run[0]), run[1..]))
  }

  /**
   After any run a pass returns INIT exactly when its get does and the object
   has never relinquished in INIT; from then on it never does, whatever status
   is requested.
   */
  lemma {:induction false} InitialIff(s: Obj, run: seq<Action>, e: Env)
    requires RunOk(run) && EnvOk(e) && !s.initDone
    ensures var t := Acted(s, run);
            Pass(t.proc, t.initDone, e).1 == Initial <==> Get(t.proc, e.now[0]).1 == INIT && !InitEnds(s, run)
  {
    InitDoneIff(s, run);
  }

  lemma {:induction false} InitDoneIff(s: Obj, run: seq<Action>)
    requires RunOk(run)
    ensures Acted(s, run).initDone <==> s.initDone || InitEnds(s, run)
    decreases |run|
  {
    hide Pass, Get, Do;
    if |run| > 0 {
      InitDoneIff(Act(s, run[0]), run[1..]);
    }
  }

  // ---- The shared table ----

  /** The first record with this id among the first `max`; `max` if there is none. */
  function Lookup(db: seq<Proc>, objId: int, max: nat, from: nat): (i: nat)
    requires from <= max <= |db|
    ensures from <= i <= max
    ensures i < max ==> db[i].objId == objId
    ensures forall k :: from <= k < i ==> db[k].objId != objId
    decreases max - from
  {
    if from == max || db[from].objId == objId then from else Lookup(db, objId, max, from + 1)
  }

  lemma {:induction false} LookupStable(db: seq<Proc>, objId: int, max: nat, from: nat, i: nat, s: Proc)
    requires from <= max <= |db| && i < |db| && s.objId == db[i].objId
    ensures Lookup(db[i := s], objId, max, from) == Lookup(db, objId, max, from)
    decreases max - from
  {
    if from < max && db[from].objId != objId {
      LookupStable(db, objId, max, from + 1, i, s);
    }
  }

  lemma SameId(s: Proc, e: Event)
    ensures Do(s, e).objId == s.objId
  {
  }

  lemma FourTimes(e: Env)
    requires EnvOk(e)
    ensures |e.now| == 4 && |e.foreign| == 4
    ensures NoGets(e.foreign[0]) && NoGets(e.foreign[1]) && NoGets(e.foreign[2]) && NoGets(e.foreign[3])
  {
  }

  lemma StepInPieces(s: Proc, e: Env)
    requires EnvOk(e)
    ensures var s1 := Get(After(s, e.foreign[0]), e.now[1]).0;
            var s2 := Ack(After(s1, e.foreign[1])).0;
            var s3 := New(After(s2, e.foreign[2]), PAUSE, 0, e.now[2]).0;
            After(s, StepEvents(e)) == Get(After(s3, e.foreign[3]), e.now[3]).0
  {
    hide After, EnvOk, New, Ack, Get;
    FourTimes(e);
    var f, get, own, last := e.foreign, [GetE(e.now[1])], [NewE(PAUSE, 0, e.now[2])], [GetE(e.now[3])];
    AfterAppend(s, f[0], get);
    AfterAppend(s, f[0] + get, f[1]);
    AfterAppend(s, f[0] + get + f[1], [AckE]);
    AfterAppend(s, f[0] + get + f[1] + [AckE], f[2]);
    AfterAppend(s, UntilRequest(e), own);
    AfterAppend(s, UntilRequest(e) + own, f[3]);
    AfterAppend(s, UntilRequest(e) + own + f[3], last);
    AfterOne(After(s, f[0]), get[0]);
    AfterOne(After(s, f[0] + get + f[1]), AckE);
    AfterOne(After(s, UntilRequest(e)), own[0]);
    AfterOne(After(s, UntilRequest(e) + own + f[3]), last[0]);
  }

  class ProcDb {
    const db: array<Proc>
    var maxProcId: nat
    /** The static variables of the object side. */
    var status: int
    var initDone: bool

    constructor (max: nat)
      ensures Valid() && fresh(db) && maxProcId == 0
    {
      db := new Proc[max](_ => Proc(0, 0, 0, 0, 0, 0));
      maxProcId, status, initDone := 0, 0, false;
    }

    ghost predicate Valid()
      reads this
    {
      maxProcId <= db.Length
    }

    method FindProc(objId: int) returns (i: nat)
      requires Valid()
      ensures i == Lookup(db[..], objId, maxProcId, 0) <= maxProcId
    {
      i := 0;
      while i < maxProcId && db[i].objId != objId
        invariant i <= maxProcId
        invariant Lookup(db[..], objId, maxProcId, i) == Lookup(db[..], objId, maxProcId, 0)
      {
        i := i + 1;
      }
    }

    /** `hwapi_proc_status_get` for the caller's own record. */
    method StatusGet(me: nat, now: int) returns (r: int)
      requires Valid() && me < db.Length
      modifies db
      ensures db[..] == old(db[..])[me := Get(old(db[me]), now).0] && r == Get(old(db[me]), now).1
    {
      r := db[me].cur;
      if db[me].next != db[me].cur {
        if db[me].progress < 2 {
          if now >= db[me].due {
            db[me] := db[me].(progress := 2);
            r := db[me].next;
          }
        } else {
          db[me] := db[me].(cur := db[me].next);
          r := db[me].cur;
        }
      }
    }

    /** `hwapi_proc_status_new`: 1 for an object that is terminating, -1 for an unknown id. */
    method StatusNew(terminating: bool, objId: int, nextStatus: int, tstamp: int, now: int) returns (r: int)
      requires Valid()
      modifies db
      ensures terminating ==> r == 1 && db[..] == old(db[..])
      ensures !terminating ==>
                var i := Lookup(old(db[..]), objId, maxProcId, 0);
                if i == maxProcId then r == -1 && db[..] == old(db[..])
                else r == New(old(db[..])[i], nextStatus, tstamp, now).1
                     && db[..] == old(db[..])[i := New(old(db[..])[i], nextStatus, tstamp, now).0]
    {
      if terminating {
        return 1;
      }
      var stamp := tstamp;
      if stamp == 0 {
        stamp := now;
      }
      var i := FindProc(objId);
      if i == maxProcId {
        return -1;
      }
      if (db[i].progress == 0 && db[i].next == db[i].cur) || stamp == -1 {
        db[i] := db[i].(next := nextStatus);
        db[i] := db[i].(due := stamp);
        db[i] := db[i].(progress := 1);
        r := nextStatus;
      } else {
        r := 0;
      }
    }

    /** `hwapi_proc_status_ack`. */
    method StatusAck(objId: int) returns (r: int)
      requires Valid()
      modifies db
      ensures var i := Lookup(old(db[..]), objId, maxProcId, 0);
              if i == maxProcId then r == -1 && db[..] == old(db[..])
              else r == Ack(old(db[..])[i]).1 && db[..] == old(db[..])[i := Ack(old(db[..])[i]).0]
    {
      var i := FindProc(objId);
      if i == maxProcId {
        return -1;
      }
      if db[i].cur == db[i].next && db[i].progress == 2 {
        db[i] := db[i].(progress := 0);
        r := 1;
      } else {
        r := 0;
      }
    }

    /** Requests and acks for the object `me` by other parties. */
    method ForeignCalls(me: nat, calls: seq<Event>)
      requires Valid() && NoGets(calls)
      requires me < maxProcId && Lookup(db[..], db[me].objId, maxProcId, 0) == me
      modifies db
      ensures db[..] == old(db[..])[me := After(old(db[me]), calls)]
      ensures db[me].objId == old(db[me].objId) && Lookup(db[..], db[me].objId, maxProcId, 0) == me
    {
      hide New, Ack, Lookup;
      assert calls[0..] == calls;
      for i := 0 to |calls|
        invariant After(db[me], calls[i..]) == After(old(db[me]), calls)
        invariant db[me].objId == old(db[me].objId) && db[..] == old(db[..])[me := db[me]]
        invariant Lookup(db[..], db[me].objId, maxProcId, 0) == me
      {
        assert calls[i..][1..] == calls[i + 1..];
        SameId(db[me], calls[i]);
        LookupStable(db[..], db[me].objId, maxProcId, 0, me, Do(db[me], calls[i]));
        match calls[i]
        case AckE =>
          var r := StatusAck(db[me].objId);
        case NewE(status, tstamp, now) =>
          var r := StatusNew(false, db[me].objId, status, tstamp, now);
      }
    }

    /** One pass of the loop in `Status`, for the object `me`. */
    method StatusPass(me: nat, e: Env) returns (r: Outcome)
      requires Valid() && EnvOk(e) && me < maxProcId && Lookup(db[..], db[me].objId, maxProcId, 0) == me
      modifies db, this`status
      ensures var (s1, o) := Pass(old(db[me]), initDone, e); r == o && db[..] == old(db[..])[me := s1]
      ensures status == Get(old(db[me]), e.now[0]).1
      ensures Obj(db[me], status, initDone) == Act(Obj(old(db[me]), old(status), initDone), Passed(e))
    {
      hide After, EnvOk, StepEvents;
      FourTimes(e);
      LookupStable(db[..], db[me].objId, maxProcId, 0, me, Get(db[me], e.now[0]).0);
      status := StatusGet(me, e.now[0]);
      if status == RUN {
        db[me] := Tick(db[me]);
        r := Running;
      } else if status == INIT && !initDone {
        r := Initial;
      } else if status == STOP || status == ABNSTOP {
        r := Stopped;
      } else if status == STEP {
        StepCalls(me, e);
        r := Running;
      } else {
        r := Waiting;
      }
    }

    /** The calls of the STEP branch, among those of other parties. */
    method StepCalls(me: nat, e: Env)
      requires Valid() && EnvOk(e) && me < maxProcId && Lookup(db[..], db[me].objId, maxProcId, 0) == me
      modifies db
      ensures db[..] == old(db[..])[me := After(Tick(old(db[me])), StepEvents(e))]
    {
      hide After, EnvOk, New, Ack, Get, NoGets;
      FourTimes(e);
      StepInPieces(Tick(db[me]), e);
      LookupStable(db[..], db[me].objId, maxProcId, 0, me, Tick(db[me]));
      db[me] := Tick(db[me]);
      ForeignCalls(me, e.foreign[0]);
      SameId(db[me], GetE(e.now[1]));
      LookupStable(db[..], db[me].objId, maxProcId, 0, me, Get(db[me], e.now[1]).0);
      var ignored := StatusGet(me, e.now[1]);
      ForeignCalls(me, e.foreign[1]);
      SameId(db[me], AckE);
      LookupStable(db[..], db[me].objId, maxProcId, 0, me, Ack(db[me]).0);
      ignored := StatusAck(db[me].objId);
      ForeignCalls(me, e.foreign[2]);
      SameId(db[me], NewE(PAUSE, 0, e.now[2]));
      LookupStable(db[..], db[me].objId, maxProcId, 0, me, New(db[me], PAUSE, 0, e.now[2]).0);
      ignored := StatusNew(false, db[me].objId, PAUSE, 0, e.now[2]);
      ForeignCalls(me, e.foreign[3]);
      ignored := StatusGet(me, e.now[3]);
    }

    /** `Relinquish` of an object: the first one in INIT ends it, one in STOP ends the process. */
    method Relinquish() returns (exits: bool)
      modifies this`initDone
      ensures initDone == (old(initDone) || status == INIT)
      ensures forall s: Proc :: Obj(s, status, initDone) == Act(Obj(s, status, old(initDone)), Relinquished)
      ensures exits <==> status == STOP || status == ABNSTOP
    {
      exits := false;
      if status == INIT {
        initDone := true;
      } else if status == STOP || status == ABNSTOP {
        exits := true;
      }
    }
  }
}
