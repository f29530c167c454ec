/**
 Slot scheduling on one core: a chain of counting semaphores. The kernel posts
 semaphore 0 in every time slot; the object at position k, when it gives up the
 core, posts semaphore k + 1 and waits on semaphore k. All start at 1.
 */
module Scheduler {

  /**
   value[k] is semaphore k, for k up to the number of objects. blocked[k] says
   that object k has posted and not yet passed its wait; posts and waits count
   what each object has done, and slots counts the kernel's posts.
   */
  datatype State = State(value: seq<nat>, blocked: seq<bool>, posts: seq<nat>, waits: seq<nat>, slots: nat)

  datatype Event = Slot | Post(k: nat) | Pass(k: nat)

  predicate Shape(s: State) {
    |s.value| == |s.blocked| + 1 && |s.posts| == |s.waits| == |s.blocked|
  }

  function Start(n: nat): (s: State)
    ensures Shape(s) && |s.blocked| == n
  {
    State(seq(n + 1, _ => 1), seq(n, _ => false), seq(n, _ => 0), seq(n, _ => 0), 0)
  }

  /** An object posts when it holds the core, and passes its wait when its semaphore is positive. */
  predicate Enabled(s: State, e: Event)
    requires Shape(s)
  {
    match e
    case Slot => true
    case Post(k) => k < |s.blocked| && !s.blocked[k]
    case Pass(k) => k < |s.blocked| && s.blocked[k] && s.value[k] > 0
  }

  function Do(s: State, e: Event): (t: State)
    requires Shape(s) && Enabled(s, e)
    ensures Shape(t) && |t.blocked| == |s.blocked|
  {
    match e
    case Slot => s.(value := s.value[0 := s.value[0] + 1], slots := s.slots + 1)
    case Post(k) =>
      s.(value := s.value[k + 1 := s.value[k + 1] + 1], blocked := s.blocked[k := true],
         posts := s.posts[k := s.posts[k] + 1])
    case Pass(k) =>
      s.(value := s.value[k := s.value[k] - 1], blocked := s.blocked[k := false],
         waits := s.waits[k := s.waits[k] + 1])
  }

  /** The run is possible from s. */
  predicate Runs(s: State, run: seq<Event>)
    requires Shape(s)
    decreases |run|
  {
    |run| == 0 || (Enabled(s, run[0]) && Runs(Do(s, run[0]), run[1..]))
  }

  function After(s: State, run: seq<Event>): (t: State)
    requires Shape(s) && Runs(s, run)
    ensures Shape(t) && |t.blocked| == |s.blocked|
    decreases |run|
  {
    if |run| == 0 then s else After(Do(s, run[0]), run[1..])
  }

  // ---- What every step keeps ----

  /** What has been put into semaphore k beyond its start value. */
  function Feed(s: State, k: nat): nat
    requires Shape(s) && k <= |s.blocked|
  {
    if k == 0 then s.slots else s.posts[k - 1]
  }

  ghost predicate Counts(s: State, k: nat)
    requires Shape(s) && k < |s.blocked|
  {
    && s.value[k] + s.waits[k] == 1 + Feed(s, k)
    && s.posts[k] == s.waits[k] + (if s.blocked[k] then 1 else 0)
  }

  /** Conservation: value + waits = 1 + posts at every semaphore. */
  ghost predicate Inv(s: State) {
    Shape(s) && forall k :: 0 <= k < |s.blocked| ==> Counts(s, k)
  }

  lemma StepKeeps(s: State, e: Event)
    requires Inv(s) && Enabled(s, e)
    ensures Inv(Do(s, e))
  {
    var t := Do(s, e);
    forall k | 0 <= k < |t.blocked| ensures Counts(t, k) {
      assert Counts(s, k);
    }
  }

  lemma {:induction false} AlwaysInv(s: State, run: seq<Event>)
    requires Inv(s) && Runs(s, run)
    ensures Inv(After(s, run))
    decreases |run|
  {
    if |run| > 0 {
      StepKeeps(s, run[0]);
      AlwaysInv(Do(s, run[0]), run[1..]);
    }
  }

  lemma StartInv(n: nat)
    ensures Inv(Start(n))
  {
  }

  // ---- How far an object can get ----

  /** The most times object k can have passed its wait after `slots` time slots. */
  function Limit(slots: nat, k: nat): nat {
    slots + 2 * k + 1
  }

  lemma {:induction false} WaitsBounded(s: State, k: nat)
    requires Inv(s) && k < |s.blocked|
    ensures s.waits[k] <= Limit(s.slots, k)
  {
    assert Counts(s, k);
    if k > 0 {
      WaitsBounded(s, k - 1);
      assert Counts(s, k - 1);
    }
  }

  /** In every run from the start, object k passes its wait at most slots + 2k + 1 times. */
  lemma RunBounded(n: nat, run: seq<Event>, k: nat)
    requires Runs(Start(n), run) && k < n
    ensures After(Start(n), run).waits[k] <= Limit(After(Start(n), run).slots, k)
  {
    StartInv(n);
    AlwaysInv(Start(n), run);
    WaitsBounded(After(Start(n), run), k);
  }

  /** No object can move: only the next time slot can. */
  predicate Quiescent(s: State)
    requires Shape(s)
  {
    forall k :: 0 <= k < |s.blocked| ==> s.blocked[k] && s.value[k] == 0
  }

  /** When no object can move, every object has reached its limit exactly. */
  lemma {:induction false} QuiescentExact(s: State, k: nat)
    requires Inv(s) && Quiescent(s) && k < |s.blocked|
    ensures s.waits[k] == Limit(s.slots, k)
  {
    assert Counts(s, k) && s.blocked[k];
    if k > 0 {
      QuiescentExact(s, k - 1);
      assert Counts(s, k - 1) && s.blocked[k - 1];
    }
  }

  /** Object moves that are still possible before the next slot, for the objects from k on. */
  function Left(s: State, k: nat): int
    requires Shape(s) && k <= |s.blocked|
    decreases |s.blocked| - k
  {
    if k == |s.blocked| then 0
    else 2 * (Limit(s.slots, k) - s.waits[k]) + (if s.blocked[k] then 0 else 1) + Left(s, k + 1)
  }

  lemma {:induction false} LeftStep(s: State, e: Event, k: nat)
    requires Shape(s) && Enabled(s, e) && k <= |s.blocked|
    ensures Left(Do(s, e), k) == Left(s, k)
            + (if e.Slot? then 2 * (|s.blocked| - k) else if e.k >= k then -1 else 0)
    decreases |s.blocked| - k
  {
    if k < |s.blocked| {
      LeftStep(s, e, k + 1);
    }
  }

  lemma {:induction false} LeftZeroIff(s: State, k: nat)
    requires Inv(s) && k <= |s.blocked|
    ensures Left(s, k) >= 0
    ensures Left(s, k) == 0 <==> forall i :: k <= i < |s.blocked| ==> s.blocked[i] && s.waits[i] == Limit(s.slots, i)
    decreases |s.blocked| - k
  {
    if k < |s.blocked| {
      WaitsBounded(s, k);
      LeftZeroIff(s, k + 1);
    }
  }

  lemma QuiescentIff(s: State)
    requires Inv(s)
    ensures Quiescent(s) <==> Left(s, 0) == 0
  {
    LeftZeroIff(s, 0);
    if Quiescent(s) {
      forall k | 0 <= k < |s.blocked| ensures s.waits[k] == Limit(s.slots, k) {
        QuiescentExact(s, k);
      }
    } else {
      var k :| 0 <= k < |s.blocked| && !(s.blocked[k] && s.value[k] == 0);
      assert Counts(s, k);
      if k > 0 {
        WaitsBounded(s, k - 1);
        assert Counts(s, k - 1);
      }
    }
  }

  /** The run holds no time slot. */
  predicate NoSlot(run: seq<Event>) {
    forall i :: 0 <= i < |run| ==> !run[i].Slot?
  }

  lemma {:induction false} MovesCounted(s: State, run: seq<Event>)
    requires Inv(s) && Runs(s, run) && NoSlot(run)
    ensures |run| == Left(s, 0) - Left(After(s, run), 0)
    ensures After(s, run).slots == s.slots
    decreases |run|
  {
    if |run| > 0 {
      StepKeeps(s, run[0]);
      LeftStep(s, run[0], 0);
      MovesCounted(Do(s, run[0]), run[1..]);
    }
  }

  /**
   Between two slots the objects make at most Left moves whatever their order,
   and they stand still after exactly that many.
   */
  lemma SlotWorkIsFixed(s: State, run: seq<Event>)
    requires Inv(s) && Runs(s, run) && NoSlot(run)
    ensures |run| <= Left(s, 0)
    ensures Quiescent(After(s, run)) <==> |run| == Left(s, 0)
  {
    MovesCounted(s, run);
    AlwaysInv(s, run);
    QuiescentIff(After(s, run));
    LeftZeroIff(After(s, run), 0);
  }

  /** Some object can move until all stand still, so no run gets stuck early. */
  lemma NoDeadlock(s: State)
    requires Inv(s) && Left(s, 0) > 0
    ensures exists k :: 0 <= k < |s.blocked| && (Enabled(s, Post(k)) || Enabled(s, Pass(k)))
  {
    QuiescentIff(s);
    var k :| 0 <= k < |s.blocked| && !(s.blocked[k] && s.value[k] == 0);
    if !s.blocked[k] {
      assert Enabled(s, Post(k));
    } else {
      assert Enabled(s, Pass(k));
    }
  }

  /**
   One slot from a standstill to the next: every object passes its wait exactly
   once and posts exactly once, 2n moves in all.
   */
  lemma OneSlotOneRound(s: State, run: seq<Event>)
    requires Inv(s) && Quiescent(s) && NoSlot(run)
    requires Runs(Do(s, Slot), run) && Quiescent(After(Do(s, Slot), run))
    ensures var t := After(Do(s, Slot), run);
            && |run| == 2 * |s.blocked|
            && forall k :: 0 <= k < |s.blocked| ==> t.waits[k] == s.waits[k] + 1 && t.posts[k] == s.posts[k] + 1
  {
    var s1, t := Do(s, Slot), After(Do(s, Slot), run);
    StepKeeps(s, Slot);
    AlwaysInv(s1, run);
    QuiescentIff(s);
    LeftStep(s, Slot, 0);
    SlotWorkIsFixed(s1, run);
    MovesCounted(s1, run);
    forall k | 0 <= k < |s.blocked| ensures t.waits[k] == s.waits[k] + 1 && t.posts[k] == s.posts[k] + 1 {
      QuiescentExact(s, k);
      QuiescentExact(t, k);
      assert Counts(s, k) && Counts(t, k) && s.blocked[k] && t.blocked[k];
    }
  }

  /** Within a slot the core is handed down the chain: object k + 1 runs only after object k has run and posted. */
  lemma ChainOrder(s: State, run: seq<Event>, k: nat)
    requires Inv(s) && Quiescent(s) && NoSlot(run) && Runs(Do(s, Slot), run) && k + 1 < |s.blocked|
    ensures var t := After(Do(s, Slot), run);
            t.waits[k + 1] > s.waits[k + 1] ==> t.posts[k] > s.posts[k] && t.waits[k] > s.waits[k]
  {
    var s1, t := Do(s, Slot), After(Do(s, Slot), run);
    StepKeeps(s, Slot);
    AlwaysInv(s1, run);
    assert Counts(s, k) && Counts(s, k + 1) && s.blocked[k] && s.blocked[k + 1] && s.value[k + 1] == 0;
    assert Counts(t, k) && Counts(t, k + 1);
  }

  // ---- The shared semaphores ----

  /** One core: its semaphores and, per object, the fields that relinquishing updates. */
  class Core {
    const sems: array<nat>
    const relinquished: array<bool>
    const relTstamp: array<int>
    const curTstamp: array<int>
    ghost var posts: seq<nat>
    ghost var waits: seq<nat>
    ghost var slots: nat

    ghost predicate Valid()
      reads this
    {
      && sems.Length == relinquished.Length + 1
      && relTstamp.Length == curTstamp.Length == relinquished.Length == |posts| == |waits|
      && relTstamp != curTstamp
    }

    ghost function Contents(): (s: State)
      reads this, sems, relinquished
      requires Valid()
      ensures Shape(s) && |s.blocked| == relinquished.Length
    {
      State(sems[..], relinquished[..], posts, waits, slots)
    }

    constructor (n: nat)
      ensures Valid() && Contents() == Start(n)
      ensures fresh(sems) && fresh(relinquished) && fresh(relTstamp) && fresh(curTstamp)
    {
      sems := new nat[n + 1](_ => 1);
      relinquished := new bool[n](_ => false);
      relTstamp := new int[n](_ => 0);
      curTstamp := new int[n](_ => 0);
      posts, waits, slots := seq(n, _ => 0), seq(n, _ => 0), 0;
    }

    /** The turn of `post_objects` for this core. */
    method PostFirst()
      requires Valid()
      modifies sems, this`slots
      ensures Valid() && Contents() == Do(old(Contents()), Slot)
    {
      sems[0] := sems[0] + 1;
      slots := slots + 1;
    }

    /** `hwapi_relinquish` up to its wait. */
    method RelinquishPost(k: nat, tstamp: int)
      requires Valid() && Enabled(Contents(), Post(k))
      modifies sems, relinquished, relTstamp, this`posts
      ensures Valid() && Contents() == Do(old(Contents()), Post(k))
      ensures relTstamp[..] == old(relTstamp[..])[k := tstamp]
    {
      relTstamp[k] := tstamp;
      relinquished[k] := true;
      sems[k + 1] := sems[k + 1] + 1;
      posts := posts[k := posts[k] + 1];
    }

    /** The return of the wait in `hwapi_relinquish`: the next time slot of object k begins. */
    method RelinquishPass(k: nat)
      requires Valid() && Enabled(Contents(), Pass(k))
      modifies sems, relinquished, curTstamp, this`waits
      ensures Valid() && Contents() == Do(old(Contents()), Pass(k))
      ensures curTstamp[..] == old(curTstamp[..])[k := relTstamp[k] + 1]
    {
      sems[k] := sems[k] - 1;
      relinquished[k] := false;
      curTstamp[k] := relTstamp[k] + 1;
      waits := waits[k := waits[k] + 1];
    }
  }

  /** The cores of a node; no two share their semaphores. */
  class Node {
    const cores: seq<Core>

    constructor (cores: seq<Core>)
      ensures this.cores == cores
    {
      this.cores := cores;
    }

    ghost function Sems(): set<object>
      reads this
    {
      set i | 0 <= i < |cores| :: cores[i].sems
    }

    ghost predicate Valid()
      reads this, cores
    {
      && (forall i :: 0 <= i < |cores| ==> cores[i].Valid())
      && (forall i, j :: 0 <= i < j < |cores| ==> cores[i] != cores[j] && cores[i].sems != cores[j].sems)
    }

    /** `post_objects`: the next slot begins on every core. */
    method PostObjects()
      requires Valid()
      modifies cores, Sems()
      ensures Valid()
      ensures forall i :: 0 <= i < |cores| ==> cores[i].Contents() == Do(old(cores[i].Contents()), Slot)
    {
      hide Do;
      for i := 0 to |cores|
        invariant Valid()
        invariant forall k :: 0 <= k < i ==> cores[k].Contents() == Do(old(cores[k].Contents()), Slot)
        invariant forall k :: i <= k < |cores| ==> cores[k].Contents() == old(cores[k].Contents())
      {
        cores[i].PostFirst();
      }
    }
  }
}
