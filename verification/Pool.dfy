/**
 The shared-memory pool of hw_api: first-fit allocation of runs of slots, with
 a table of chunk descriptors. The slot flags, the descriptors and the data
 area are kept apart here; byte addresses inside the pool are plain offsets.
 */
module Pool {
  import opened Arith

  /** sizeof (struct mem_o) and sizeof (struct chunk). */
  const OBJECT_SZ := 24
  const CHUNK_SZ := 8

  datatype Chunk = Chunk(offset: int, slotSt: int, slotEnd: int)

  const FREE_CHUNK := Chunk(-1, 0, 0)

  predicate Covers(c: Chunk, s: int) {
    c.offset != -1 && c.slotSt <= s < c.slotEnd
  }

  predicate Apart(c: Chunk, d: Chunk) {
    c.offset == -1 || d.offset == -1 || c.slotEnd <= d.slotSt || d.slotEnd <= c.slotSt
  }

  function Offset(st: int, slotSz: nat, base: nat): int {
    base + st * slotSz
  }

  predicate Placed(c: Chunk, n: nat, slotSz: nat, base: nat) {
    || c == FREE_CHUNK
    || (c.offset >= 0 && 0 <= c.slotSt < c.slotEnd <= n && c.offset == Offset(c.slotSt, slotSz, base))
  }

  /** Live chunks are disjoint, and a slot flag is set exactly when a live chunk covers the slot. */
  ghost predicate Consistent(slots: seq<bool>, chunks: seq<Chunk>, slotSz: nat, base: nat) {
    && |slots| == |chunks|
    && (forall i :: 0 <= i < |chunks| ==> Placed(chunks[i], |slots|, slotSz, base))
    && (forall i, j :: 0 <= i < j < |chunks| ==> Apart(chunks[i], chunks[j]))
    && (forall s :: 0 <= s < |slots| ==> (slots[s] <==> exists i :: 0 <= i < |chunks| && Covers(chunks[i], s)))
  }

  predicate FreeRun(slots: seq<bool>, j: int, i: int) {
    0 <= j <= i <= |slots| && forall k :: j <= k < i ==> !slots[k]
  }

  predicate RunAt(slots: seq<bool>, k: int, need: nat) {
    FreeRun(slots, k, k + need)
  }

  /** The lowest start, from j on, of a run of `need` free slots; -1 if there is none. */
  function FirstRun(slots: seq<bool>, need: nat, j: nat): (r: int)
    requires need >= 1
    ensures -1 <= r
    ensures r == -1 ==> forall k :: j <= k ==> !RunAt(slots, k, need)
    ensures r >= 0 ==> j <= r && RunAt(slots, r, need)
    ensures r >= 0 ==> forall k :: j <= k < r ==> !RunAt(slots, k, need)
    decreases |slots| - j
  {
    if j + need > |slots| then -1
    else if RunAt(slots, j, need) then j
    else FirstRun(slots, need, j + 1)
  }

  function Fill(slots: seq<bool>, j: int, i: int, used: bool): (r: seq<bool>)
    ensures |r| == |slots|
    ensures forall k {:trigger r[k]} :: 0 <= k < |slots| ==> r[k] == if j <= k < i then used else slots[k]
  {
    seq(|slots|, k requires 0 <= k < |slots| => if j <= k < i then used else slots[k])
  }

  /** Slots a request of `size` bytes takes; the search loop takes one even for size 0. */
  function Need(size: nat, slotSz: nat): (r: nat)
    requires slotSz > 0
  {
    if size == 0 then 1 else (size + slotSz - 1) / slotSz
  }

  lemma NeedIs(size: nat, slotSz: nat, d: nat)
    requires slotSz > 0 && size > 0
    ensures Need(size, slotSz) >= 1
    ensures d * slotSz < size <==> d < Need(size, slotSz)
  {
    var q := Need(size, slotSz);
    assert q * slotSz <= size + slotSz - 1 < q * slotSz + slotSz;
    assert (q - 1) * slotSz == q * slotSz - slotSz;
    if d < q {
      MulMono(d, q - 1, slotSz);
    } else {
      MulMono(q, d, slotSz);
    }
  }

  // ---- What the two operations keep ----

  lemma AllocConsistent(slots: seq<bool>, chunks: seq<Chunk>, slotSz: nat, base: nat, c: nat, j: nat, i: nat)
    requires Consistent(slots, chunks, slotSz, base)
    requires c < |chunks| && chunks[c] == FREE_CHUNK && j < i && FreeRun(slots, j, i)
    ensures Consistent(Fill(slots, j, i, true), chunks[c := Chunk(Offset(j, slotSz, base), j, i)], slotSz, base)
  {
    var c1 := Chunk(Offset(j, slotSz, base), j, i);
    var slots1, chunks1 := Fill(slots, j, i, true), chunks[c := c1];
    assert Offset(j, slotSz, base) >= 0 by { MulMono(0, j, slotSz); }
    forall a | 0 <= a < |chunks| && a != c ensures Apart(chunks[a], c1) && Apart(c1, chunks[a]) {
      assert Placed(chunks[a], |slots|, slotSz, base);
      var s := if chunks[a].slotSt < j then j else chunks[a].slotSt;
      if s < i {
        assert !slots[s];
        assert !Covers(chunks[a], s);
      }
    }
    forall s, a | 0 <= s < |slots| && 0 <= a < |chunks1| && Covers(chunks1[a], s) ensures slots1[s] {
      assert a != c ==> Covers(chunks[a], s);
    }
    forall s | 0 <= s < |slots| && slots1[s] ensures exists a :: 0 <= a < |chunks1| && Covers(chunks1[a], s) {
      if j <= s < i {
        assert Covers(chunks1[c], s);
      } else {
        var a :| 0 <= a < |chunks| && Covers(chunks[a], s);
        assert Covers(chunks1[a], s);
      }
    }
  }

  lemma FreeConsistent(slots: seq<bool>, chunks: seq<Chunk>, slotSz: nat, base: nat, c: nat)
    requires Consistent(slots, chunks, slotSz, base) && c < |chunks| && chunks[c] != FREE_CHUNK
    ensures Consistent(Fill(slots, chunks[c].slotSt, chunks[c].slotEnd, false), chunks[c := FREE_CHUNK], slotSz, base)
  {
    var d := chunks[c];
    var slots1, chunks1 := Fill(slots, d.slotSt, d.slotEnd, false), chunks[c := FREE_CHUNK];
    forall s, a | 0 <= s < |slots| && 0 <= a < |chunks1| && Covers(chunks1[a], s) ensures slots1[s] {
      assert Covers(chunks[a], s);
      assert Apart(chunks[if a < c then a else c], chunks[if a < c then c else a]);
    }
    forall s | 0 <= s < |slots| && slots1[s] ensures exists a :: 0 <= a < |chunks1| && Covers(chunks1[a], s) {
      var a :| 0 <= a < |chunks| && Covers(chunks[a], s);
      assert Covers(chunks1[a], s);
    }
  }

  /** No two live chunks share an offset. */
  lemma OffsetsUnique(slots: seq<bool>, chunks: seq<Chunk>, slotSz: nat, base: nat, a: nat, b: nat)
    requires Consistent(slots, chunks, slotSz, base) && slotSz > 0
    requires a < |chunks| && b < |chunks| && chunks[a].offset == chunks[b].offset != -1
    ensures a == b
  {
    var c, d := chunks[a], chunks[b];
    assert Placed(c, |slots|, slotSz, base) && Placed(d, |slots|, slotSz, base);
    if c.slotSt < d.slotSt {
      MulMono(c.slotSt + 1, d.slotSt, slotSz);
    } else if d.slotSt < c.slotSt {
      MulMono(d.slotSt + 1, c.slotSt, slotSz);
    }
  }

  /** A set flag is covered by exactly one live chunk. */
  lemma CoveredOnce(slots: seq<bool>, chunks: seq<Chunk>, slotSz: nat, base: nat, s: nat)
    requires Consistent(slots, chunks, slotSz, base) && s < |slots| && slots[s]
    ensures exists a :: 0 <= a < |chunks| && Covers(chunks[a], s)
                        && forall b :: 0 <= b < |chunks| && Covers(chunks[b], s) ==> b == a
  {
    var a :| 0 <= a < |chunks| && Covers(chunks[a], s);
    forall b | 0 <= b < |chunks| && b != a ensures !Covers(chunks[b], s) {
      assert Apart(chunks[if a < b then a else b], chunks[if a < b then b else a]);
    }
  }

  // ---- Descriptors never run out before slots ----

  function Below(n: nat): (r: set<int>)
    ensures forall k :: k in r <==> 0 <= k < n
    ensures |r| == n
  {
    if n == 0 then {} else Below(n - 1) + {n - 1}
  }

  function Starts(chunks: seq<Chunk>): (r: set<int>)
    ensures forall i :: 0 <= i < |chunks| ==> chunks[i].slotSt in r
    ensures forall x :: x in r ==> exists i :: 0 <= i < |chunks| && chunks[i].slotSt == x
  {
    if |chunks| == 0 then {} else Starts(chunks[..|chunks| - 1]) + {chunks[|chunks| - 1].slotSt}
  }

  lemma {:induction false} DistinctStarts(chunks: seq<Chunk>)
    requires forall i, j :: 0 <= i < j < |chunks| ==> chunks[i].slotSt != chunks[j].slotSt
    ensures |Starts(chunks)| == |chunks|
  {
    if |chunks| > 0 {
      DistinctStarts(chunks[..|chunks| - 1]);
    }
  }

  lemma SubsetFull(a: set<int>, b: set<int>)
    requires a <= b && |a| == |b|
    ensures a == b
  {
    assert b == a + (b - a);
    assert b - a == {};
  }

  /** When every descriptor is live, every slot is used. */
  lemma NoDescriptorNoSlot(slots: seq<bool>, chunks: seq<Chunk>, slotSz: nat, base: nat)
    requires Consistent(slots, chunks, slotSz, base)
    requires forall i :: 0 <= i < |chunks| ==> chunks[i] != FREE_CHUNK
    ensures forall s :: 0 <= s < |slots| ==> slots[s]
  {
    forall i, j | 0 <= i < j < |chunks| ensures chunks[i].slotSt != chunks[j].slotSt {
      assert Placed(chunks[i], |slots|, slotSz, base) && Placed(chunks[j], |slots|, slotSz, base);
      assert Apart(chunks[i], chunks[j]);
    }
    DistinctStarts(chunks);
    forall x | x in Starts(chunks) ensures x in Below(|slots|) {
      var i :| 0 <= i < |chunks| && chunks[i].slotSt == x;
      assert Placed(chunks[i], |slots|, slotSz, base);
    }
    SubsetFull(Starts(chunks), Below(|slots|));
    forall s | 0 <= s < |slots| ensures slots[s] {
      assert s in Starts(chunks);
      var i :| 0 <= i < |chunks| && chunks[i].slotSt == s;
      assert Placed(chunks[i], |slots|, slotSz, base);
      assert Covers(chunks[i], s);
    }
  }

  // ---- What a call does ----

  datatype State = State(slots: seq<bool>, chunks: seq<Chunk>)

  /** The first descriptor with this offset; -1 if there is none. */
  function Find(chunks: seq<Chunk>, offset: int, from: nat): (c: int)
    ensures c == -1 || from <= c < |chunks|
    ensures c >= 0 ==> chunks[c].offset == offset
    ensures c >= 0 ==> forall k :: from <= k < c ==> chunks[k].offset != offset
    ensures c == -1 ==> forall k :: from <= k < |chunks| ==> chunks[k].offset != offset
    decreases |chunks| - from
  {
    if from >= |chunks| then -1
    else if chunks[from].offset == offset then from
    else Find(chunks, offset, from + 1)
  }

  /** The slots [0] .. [1] that a request takes; (-1, -1) if it does not fit. */
  function Window(slots: seq<bool>, size: nat, slotSz: nat): (w: (int, int))
    requires slotSz > 0 && |slots| > 0
  {
    if size == 0 && slots[0] then (1, 1)
    else
      var j := FirstRun(slots, Need(size, slotSz), 0);
      if j == -1 then (-1, -1) else (j, j + Need(size, slotSz))
  }

  function AllocSpec(s: State, slotSz: nat, base: nat, size: nat): (r: (State, int))
    requires slotSz > 0 && |s.slots| > 0
  {
    var c, w := Find(s.chunks, -1, 0), Window(s.slots, size, slotSz);
    if c == -1 || w.0 == -1 then (s, -1)
    else
      var offset := Offset(w.0, slotSz, base);
      (State(Fill(s.slots, w.0, w.1, true), s.chunks[c := Chunk(offset, w.0, w.1)]), offset)
  }

  function FreeSpec(s: State, offset: int): (r: (State, int)) {
    var c := Find(s.chunks, offset, 0);
    if offset < 0 || c == -1 then (s, 0)
    else (State(Fill(s.slots, s.chunks[c].slotSt, s.chunks[c].slotEnd, false), s.chunks[c := FREE_CHUNK]), 1)
  }

  ghost predicate Ok(s: State, slotSz: nat, base: nat) {
    slotSz > 0 && |s.slots| > 0 && Consistent(s.slots, s.chunks, slotSz, base)
  }

  lemma FreeDescriptor(s: State, slotSz: nat, base: nat)
    requires Ok(s, slotSz, base)
    ensures var c := Find(s.chunks, -1, 0); c >= 0 ==> s.chunks[c] == FREE_CHUNK
    ensures Find(s.chunks, -1, 0) == -1 ==> forall k :: 0 <= k < |s.slots| ==> s.slots[k]
  {
    var c := Find(s.chunks, -1, 0);
    if c >= 0 {
      assert Placed(s.chunks[c], |s.slots|, slotSz, base);
    } else {
      NoDescriptorNoSlot(s.slots, s.chunks, slotSz, base);
    }
  }

  /**
   A request fails exactly when no run of enough free slots exists: running out
   of descriptors never fails a request that the slots could serve.
   */
  lemma AllocFailsIff(s: State, slotSz: nat, base: nat, size: nat)
    requires Ok(s, slotSz, base) && size > 0
    ensures AllocSpec(s, slotSz, base, size).1 == -1 <==> forall k :: 0 <= k ==> !RunAt(s.slots, k, Need(size, slotSz))
  {
    NeedIs(size, slotSz, 0);
    FreeDescriptor(s, slotSz, base);
    var j := FirstRun(s.slots, Need(size, slotSz), 0);
    if Find(s.chunks, -1, 0) == -1 {
      forall k | 0 <= k ensures !RunAt(s.slots, k, Need(size, slotSz)) {
        assert k < |s.slots| ==> s.slots[k];
      }
    }
    if j >= 0 {
      MulMono(0, j, slotSz);
    }
  }

  /** The chunk stands in what was the first free descriptor, and no other descriptor has changed. */
  predicate Recorded(before: seq<Chunk>, after: seq<Chunk>, chunk: Chunk) {
    exists c :: 0 <= c < |before| && before[c] == FREE_CHUNK && after == before[c := chunk]
                && forall k :: 0 <= k < c ==> before[k] != FREE_CHUNK
  }

  /** A request that succeeds takes the lowest run of exactly ceil(size / slotSz) free slots. */
  lemma AllocIsFirstFit(s: State, slotSz: nat, base: nat, size: nat)
    requires Ok(s, slotSz, base) && size > 0
    ensures var n := Need(size, slotSz);
            var (s1, r) := AllocSpec(s, slotSz, base, size);
            (n - 1) * slotSz < size <= n * slotSz
            && (r == -1 ==> s1 == s)
            && (r != -1 ==>
                exists j :: RunAt(s.slots, j, n) && (forall k :: 0 <= k < j ==> !RunAt(s.slots, k, n))
                           && r == base + j * slotSz && s1.slots == Fill(s.slots, j, j + n, true)
                           && Recorded(s.chunks, s1.chunks, Chunk(r, j, j + n)))
  {
    NeedIs(size, slotSz, Need(size, slotSz) - 1);
    NeedIs(size, slotSz, Need(size, slotSz));
    FreeDescriptor(s, slotSz, base);
    if AllocSpec(s, slotSz, base, size).1 != -1 {
      var j, c := FirstRun(s.slots, Need(size, slotSz), 0), Find(s.chunks, -1, 0);
      assert RunAt(s.slots, j, Need(size, slotSz));
      assert Recorded(s.chunks, s.chunks[c := Chunk(Offset(j, slotSz, base), j, j + Need(size, slotSz))],
                      Chunk(Offset(j, slotSz, base), j, j + Need(size, slotSz)));
    }
  }

  /**
   An empty request takes the first slot if it is free. If it is used and a
   descriptor is free, it takes no slot and gets the offset of slot 1.
   */
  lemma AllocEmpty(s: State, slotSz: nat, base: nat)
    requires Ok(s, slotSz, base)
    ensures var (s1, r) := AllocSpec(s, slotSz, base, 0);
            && (!s.slots[0] ==> r == base && s1.slots == s.slots[0 := true] && Recorded(s.chunks, s1.chunks, Chunk(r, 0, 1)))
            && (s.slots[0] && FREE_CHUNK in s.chunks ==>
                r == base + slotSz && s1.slots == s.slots && Recorded(s.chunks, s1.chunks, Chunk(r, 1, 1)))
            && (FREE_CHUNK !in s.chunks ==> r == -1 && s1 == s)
  {
    FreeDescriptor(s, slotSz, base);
    var c := Find(s.chunks, -1, 0);
    if c >= 0 {
      assert s.chunks[c] == FREE_CHUNK;
      if s.slots[0] {
        assert Fill(s.slots, 1, 1, true) == s.slots;
        assert Recorded(s.chunks, s.chunks[c := Chunk(base + slotSz, 1, 1)], Chunk(base + slotSz, 1, 1));
      } else {
        assert RunAt(s.slots, 0, 1);
        assert Fill(s.slots, 0, 1, true) == s.slots[0 := true];
        assert Recorded(s.chunks, s.chunks[c := Chunk(base, 0, 1)], Chunk(base, 0, 1));
      }
    }
  }

  /**
   The pool stays consistent exactly when the request is not an empty one that
   meets a used slot 0 and a free descriptor.
   */
  lemma AllocKeepsIff(s: State, slotSz: nat, base: nat, size: nat)
    requires Ok(s, slotSz, base)
    ensures Ok(AllocSpec(s, slotSz, base, size).0, slotSz, base)
            <==> size > 0 || !s.slots[0] || forall c :: 0 <= c < |s.chunks| ==> s.chunks[c] != FREE_CHUNK
  {
    FreeDescriptor(s, slotSz, base);
    var c, w := Find(s.chunks, -1, 0), Window(s.slots, size, slotSz);
    if c >= 0 && w.0 >= 0 {
      if size == 0 && s.slots[0] {
        MulMono(0, 1, slotSz);
        assert !Placed(s.chunks[c := Chunk(Offset(1, slotSz, base), 1, 1)][c], |s.slots|, slotSz, base);
      } else {
        if size > 0 { NeedIs(size, slotSz, 0); }
        MulMono(0, w.0, slotSz);
        AllocConsistent(s.slots, s.chunks, slotSz, base, c, w.0, w.1);
      }
    }
  }

  lemma FreeKeeps(s: State, slotSz: nat, base: nat, offset: int)
    requires Ok(s, slotSz, base)
    ensures Ok(FreeSpec(s, offset).0, slotSz, base)
  {
    var c := Find(s.chunks, offset, 0);
    if offset >= 0 && c >= 0 {
      FreeConsistent(s.slots, s.chunks, slotSz, base, c);
    }
  }

  /**
   A free succeeds exactly when some live chunk has the offset. Then the slots
   of that chunk become free and its descriptor too, and no other slot or
   descriptor changes; a free that fails changes nothing.
   */
  lemma FreeExact(s: State, slotSz: nat, base: nat, offset: int)
    requires Ok(s, slotSz, base)
    ensures var (s1, r) := FreeSpec(s, offset);
            && (r == 0 || r == 1)
            && (r == 1 <==> offset >= 0 && exists c :: 0 <= c < |s.chunks| && s.chunks[c].offset == offset)
            && (r == 0 ==> s1 == s)
            && forall c :: 0 <= c < |s.chunks| && offset >= 0 && s.chunks[c].offset == offset ==>
                 && s1.chunks == s.chunks[c := FREE_CHUNK]
                 && |s1.slots| == |s.slots|
                 && (forall k :: s.chunks[c].slotSt <= k < s.chunks[c].slotEnd ==> 0 <= k < |s.slots| && !s1.slots[k])
                 && (forall k :: 0 <= k < |s.slots| && !(s.chunks[c].slotSt <= k < s.chunks[c].slotEnd) ==>
                       s1.slots[k] == s.slots[k])
  {
    var d := Find(s.chunks, offset, 0);
    forall c | 0 <= c < |s.chunks| && offset >= 0 && s.chunks[c].offset == offset
      ensures c == d && Placed(s.chunks[c], |s.slots|, slotSz, base)
    {
      OffsetsUnique(s.slots, s.chunks, slotSz, base, c, d);
    }
  }

  /** Freeing what was just allocated restores the slot map and the chunk table. */
  lemma AllocThenFree(s: State, slotSz: nat, base: nat, size: nat)
    requires Ok(s, slotSz, base) && size > 0
    ensures var (s1, r) := AllocSpec(s, slotSz, base, size); r != -1 ==> FreeSpec(s1, r) == (s, 1)
  {
    var (s1, r) := AllocSpec(s, slotSz, base, size);
    var c, w := Find(s.chunks, -1, 0), Window(s.slots, size, slotSz);
    if r != -1 {
      FreeDescriptor(s, slotSz, base);
      AllocKeepsIff(s, slotSz, base, size);
      MulMono(0, w.0, slotSz);
      assert s1.chunks[c].offset == r;
      OffsetsUnique(s1.slots, s1.chunks, slotSz, base, c, Find(s1.chunks, r, 0));
      assert RunAt(s.slots, w.0, Need(size, slotSz));
      assert Fill(s1.slots, w.0, w.1, false) == s.slots;
      assert s1.chunks[c := FREE_CHUNK] == s.chunks;
    }
  }

  datatype Op = Alloc(size: nat) | Free(offset: int)

  function Run(s: State, slotSz: nat, base: nat, ops: seq<Op>): State
    requires slotSz > 0 && |s.slots| > 0
    decreases |ops|
  {
    if |ops| == 0 then s
    else match ops[0]
      case Alloc(size) => Run(AllocSpec(s, slotSz, base, size).0, slotSz, base, ops[1..])
      case Free(offset) => Run(FreeSpec(s, offset).0, slotSz, base, ops[1..])
  }

  /** Every run of positive requests and of frees, valid or not, keeps the pool consistent. */
  lemma {:induction false} RunConsistent(s: State, slotSz: nat, base: nat, ops: seq<Op>)
    requires Ok(s, slotSz, base)
    requires forall i :: 0 <= i < |ops| && ops[i].Alloc? ==> ops[i].size > 0
    ensures Ok(Run(s, slotSz, base, ops), slotSz, base)
    decreases |ops|
  {
    if |ops| > 0 {
      match ops[0]
      case Alloc(size) =>
        AllocKeepsIff(s, slotSz, base, size);
        RunConsistent(AllocSpec(s, slotSz, base, size).0, slotSz, base, ops[1..]);
      case Free(offset) =>
        FreeKeeps(s, slotSz, base, offset);
        RunConsistent(FreeSpec(s, offset).0, slotSz, base, ops[1..]);
    }
  }

  /** A live chunk keeps its descriptor over every run of requests and of frees of other offsets. */
  lemma {:induction false} StaysAllocated(s: State, slotSz: nat, base: nat, ops: seq<Op>, c: nat)
    requires Ok(s, slotSz, base) && c < |s.chunks| && s.chunks[c].offset >= 0
    requires forall i :: 0 <= i < |ops| && ops[i].Alloc? ==> ops[i].size > 0
    requires forall i :: 0 <= i < |ops| && ops[i].Free? ==> ops[i].offset != s.chunks[c].offset
    ensures var t := Run(s, slotSz, base, ops);
            |t.chunks| == |s.chunks| && t.chunks[c] == s.chunks[c]
            && forall k :: 0 <= k < |t.slots| && Covers(s.chunks[c], k) ==> t.slots[k]
    decreases |ops|
  {
    hide Consistent, Fill, Window, Find;
    if |ops| == 0 {
      CoveredIsUsed(s, slotSz, base);
    } else {
      var s1 := if ops[0].Alloc? then AllocSpec(s, slotSz, base, ops[0].size).0 else FreeSpec(s, ops[0].offset).0;
      match ops[0] {
        case Alloc(size) =>
          AllocKeepsIff(s, slotSz, base, size);
          AllocKeepsLive(s, slotSz, base, size, c);
        case Free(offset) =>
          FreeKeeps(s, slotSz, base, offset);
          FreeExact(s, slotSz, base, offset);
      }
      StaysAllocated(s1, slotSz, base, ops[1..], c);
    }
  }

  lemma CoveredIsUsed(s: State, slotSz: nat, base: nat)
    requires Ok(s, slotSz, base)
    ensures forall c, k :: 0 <= c < |s.chunks| && 0 <= k < |s.slots| && Covers(s.chunks[c], k) ==> s.slots[k]
  {
  }

  lemma AllocKeepsLive(s: State, slotSz: nat, base: nat, size: nat, c: nat)
    requires Ok(s, slotSz, base) && c < |s.chunks| && s.chunks[c].offset >= 0
    ensures var s1 := AllocSpec(s, slotSz, base, size).0; |s1.chunks| == |s.chunks| && s1.chunks[c] == s.chunks[c]
  {
    FreeDescriptor(s, slotSz, base);
  }

  // ---- The size of a pool ----

  /**
   The number of slots `mem_new` computes. The difference is an int, and the
   division is one of 64-bit unsigned numbers whose result is cast to int.
   */
  function SlotCount(buffSz: nat, slotSz: nat): int {
    AsInt(AsWord(AsInt(buffSz - OBJECT_SZ)) / (slotSz + 1 + CHUNK_SZ))
  }

  /** For a buffer that holds the pool object, that is the plain quotient. */
  lemma SlotCountIs(buffSz: nat, slotSz: nat)
    requires OBJECT_SZ <= buffSz < INT_LIMIT
    ensures SlotCount(buffSz, slotSz) == (buffSz - OBJECT_SZ) / (slotSz + 1 + CHUNK_SZ)
  {
    var x, w := buffSz - OBJECT_SZ, slotSz + 1 + CHUNK_SZ;
    assert x / w * w <= x;
    MulMono(1, w, x / w);
    assert 0 <= x / w <= x / w * w by {
      assert w * (x / w) == x / w * w;
    }
  }

  lemma PoolFits(buffSz: nat, slotSz: nat, n: nat)
    requires slotSz > 0 && buffSz >= OBJECT_SZ && n == (buffSz - OBJECT_SZ) / (slotSz + 1 + CHUNK_SZ)
    ensures OBJECT_SZ + n * CHUNK_SZ + n + n * slotSz <= buffSz < OBJECT_SZ + (n + 1) * (slotSz + 1 + CHUNK_SZ)
    ensures n == 0 <==> buffSz < OBJECT_SZ + slotSz + 1 + CHUNK_SZ
  {
    var w := slotSz + 1 + CHUNK_SZ;
    assert n * w <= buffSz - OBJECT_SZ < n * w + w;
    assert n * w == n * slotSz + n + n * CHUNK_SZ;
    assert (n + 1) * w == n * w + w;
    if n >= 1 {
      MulMono(1, n, w);
    }
  }

  /** `((offset-1)>>2)<<2`. */
  function RoundDown(offset: nat): int {
    (offset - 1) / 4 * 4
  }

  /** The data area starts on a multiple of 4, 1 to 4 bytes before the end of the slot flags. */
  lemma RoundedDown(offset: nat)
    requires offset > 0
    ensures RoundDown(offset) % 4 == 0 && 0 <= RoundDown(offset) < offset <= RoundDown(offset) + 4
  {
  }

  /**
   A pool of n slots with its data at dataOffset: it ends inside the buffer, one
   more slot would not fit, and the data starts inside the slot flags.
   */
  predicate Sized(n: nat, dataOffset: int, buffSz: nat, slotSz: nat) {
    && dataOffset + n * slotSz <= buffSz < OBJECT_SZ + (n + 1) * (slotSz + 1 + CHUNK_SZ)
    && dataOffset % 4 == 0 && 0 <= dataOffset < OBJECT_SZ + n * (CHUNK_SZ + 1) <= dataOffset + 4
  }

  lemma CountFits(buffSz: nat, slotSz: nat)
    requires 0 < slotSz && OBJECT_SZ <= buffSz < INT_LIMIT
    ensures var n := SlotCount(buffSz, slotSz);
            && n >= 0 && (n == 0 <==> buffSz < OBJECT_SZ + slotSz + 1 + CHUNK_SZ)
            && OBJECT_SZ + n * CHUNK_SZ + n + n * slotSz <= buffSz < OBJECT_SZ + (n + 1) * (slotSz + 1 + CHUNK_SZ)
  {
    hide SlotCount;
    SlotCountIs(buffSz, slotSz);
    PoolFits(buffSz, slotSz, (buffSz - OBJECT_SZ) / (slotSz + 1 + CHUNK_SZ));
  }

  lemma MakingIs(buffSz: nat, slotSz: nat)
    requires 0 < slotSz && 0 < buffSz < INT_LIMIT
    ensures var n := SlotCount(buffSz, slotSz);
            && (buffSz >= OBJECT_SZ ==> (n > 0 <==> buffSz >= OBJECT_SZ + slotSz + 1 + CHUNK_SZ))
            && (n > 0 ==>
                var dataOffset := RoundDown(OBJECT_SZ + n * CHUNK_SZ + n);
                && dataOffset >= 0
                && (buffSz >= OBJECT_SZ ==> dataOffset + n * slotSz <= buffSz && Sized(n, dataOffset, buffSz, slotSz))
                && (buffSz < OBJECT_SZ ==> dataOffset + n * slotSz > buffSz))
  {
    hide SlotCount, RoundDown;
    var n := SlotCount(buffSz, slotSz);
    if buffSz >= OBJECT_SZ {
      CountFits(buffSz, slotSz);
    }
    if n > 0 {
      RoundedDown(OBJECT_SZ + n * CHUNK_SZ + n);
      MulMono(0, slotSz, n);
      assert slotSz * n == n * slotSz;
    }
  }

  /** How `mem_new` can end. */
  datatype Making = NoPool | Aborted | Made

  /** Where the slot search can stop: the run is long enough, or the map has ended. */
  ghost predicate Stopped(slots: seq<bool>, size: nat, slotSz: nat, j: int, i: int)
    requires slotSz > 0 && |slots| > 0
  {
    if size == 0 then i == 1 && j == (if slots[0] then 1 else 0)
    else i - j == Need(size, slotSz) || (i == |slots| && i - j < Need(size, slotSz))
  }

  /** A used slot inside a run that is still too short rules out every start up to it. */
  lemma SearchStep(slots: seq<bool>, size: nat, slotSz: nat, j: nat, i: nat)
    requires slotSz > 0 && j <= i < |slots| && i - j < Need(size, slotSz)
    ensures slots[i] ==> forall k :: j <= k <= i ==> !RunAt(slots, k, Need(size, slotSz))
  {
  }

  lemma WindowFound(slots: seq<bool>, size: nat, slotSz: nat, j: nat, i: nat)
    requires slotSz > 0 && |slots| > 0 && j <= i && FreeRun(slots, j, i) && Stopped(slots, size, slotSz, j, i)
    requires forall k :: 0 <= k < j ==> !RunAt(slots, k, Need(size, slotSz)) || size == 0
    ensures var w := Window(slots, size, slotSz);
            if (i - j) * slotSz < size then w == (-1, -1) else w == (j, i)
  {
    var n := Need(size, slotSz);
    if size > 0 {
      NeedIs(size, slotSz, i - j);
      var f := FirstRun(slots, n, 0);
      if i - j == n {
        assert RunAt(slots, j, n);
        assert f == j;
      } else {
        forall k | 0 <= k ensures !RunAt(slots, k, n) {
        }
        assert f == -1;
      }
    } else {
      MulMono(0, i - j, slotSz);
      assert slots[0] || RunAt(slots, 0, 1);
    }
  }

  // ---- The pool ----

  class Pool {
    const slots: array<bool>
    const chunks: array<Chunk>
    const slotSz: nat
    const buffSz: nat
    const dataOffset: nat

    ghost function Contents(): State
      reads slots, chunks
    {
      State(slots[..], chunks[..])
    }

    ghost predicate Valid()
      reads slots, chunks
    {
      slots.Length == chunks.Length < 32768 && Ok(Contents(), slotSz, dataOffset)
    }

    constructor (nofSlots: nat, slotSz: nat, buffSz: nat, dataOffset: nat)
      requires 0 < nofSlots < 32768 && slotSz > 0
      ensures Valid() && fresh(slots) && fresh(chunks) && slots.Length == nofSlots
      ensures this.slotSz == slotSz && this.buffSz == buffSz && this.dataOffset == dataOffset
      ensures forall s :: 0 <= s < nofSlots ==> !slots[s]
    {
      slots := new bool[nofSlots](_ => false);
      chunks := new Chunk[nofSlots](_ => FREE_CHUNK);
      this.slotSz, this.buffSz, this.dataOffset := slotSz, buffSz, dataOffset;
    }

    /**
     `mem_new`: as many slots as the buffer holds with their flag and descriptor.
     In a buffer too small for the pool object the count can come out positive;
     then the assertion on the final offset fails.
     */
    static method New(buffSz: nat, slotSz: nat) returns (how: Making, mem: Pool?)
      requires 0 < slotSz < INT_LIMIT && 0 < buffSz < INT_LIMIT
      requires buffSz >= OBJECT_SZ ==> SlotCount(buffSz, slotSz) < 32768
      ensures how.Made? <==> buffSz >= OBJECT_SZ + slotSz + 1 + CHUNK_SZ
      ensures how.Aborted? <==> buffSz < OBJECT_SZ && SlotCount(buffSz, slotSz) > 0
      ensures how.Made? <==> mem != null
      ensures mem != null ==> mem.Valid() && fresh(mem) && fresh(mem.slots) && fresh(mem.chunks)
      ensures mem != null ==> forall s :: 0 <= s < mem.slots.Length ==> !mem.slots[s]
      ensures mem != null ==> mem.slotSz == slotSz && Sized(mem.slots.Length, mem.dataOffset, buffSz, slotSz)
    {
      hide SlotCount, RoundDown, Consistent, Sized;
      mem := null;
      var nofSlots := SlotCount(buffSz, slotSz);
      MakingIs(buffSz, slotSz);
      if nofSlots <= 0 {
        return NoPool, null;
      }
      var offset := OBJECT_SZ;
      offset := offset + nofSlots * CHUNK_SZ;
      offset := offset + nofSlots;
      offset := RoundDown(offset);
      var dataOffset := offset;
      offset := offset + nofSlots * slotSz;
      if offset > buffSz {
        return Aborted, null;
      }
      mem := new Pool(nofSlots, slotSz, buffSz, dataOffset);
      how := Made;
    }

    /** `mem_alloc`: search a free descriptor, search the slots, mark them. */
    method Alloc(size: nat) returns (r: int)
      requires slots.Length == chunks.Length && slots.Length > 0 && slotSz > 0
      modifies slots, chunks
      ensures (Contents(), r) == AllocSpec(old(Contents()), slotSz, dataOffset, size)
    {
      var c := FindDescriptor(-1);
      if c == chunks.Length {
        return -1;
      }
      var j, i := Search(size);
      if (i - j) * slotSz < size {
        return -1;
      }
      r := Offset(j, slotSz, dataOffset);
      chunks[c] := Chunk(r, j, i);
      Mark(j, i, true);
    }

    /** The loops that look for a descriptor by its offset. */
    method FindDescriptor(offset: int) returns (c: nat)
      requires slots.Length == chunks.Length
      ensures c <= chunks.Length
      ensures Find(chunks[..], offset, 0) == if c == chunks.Length then -1 else c
    {
      c := 0;
      while c < chunks.Length && chunks[c].offset != offset
        invariant c <= chunks.Length
        invariant Find(chunks[..], offset, 0) == Find(chunks[..], offset, c)
      {
        c := c + 1;
      }
    }

    /** The slot search: [j, i) is a run of free slots that grows until it is long enough or the map ends. */
    method Search(size: nat) returns (j: nat, i: nat)
      requires slots.Length > 0 && slotSz > 0
      ensures var w := Window(slots[..], size, slotSz);
              if (i - j) * slotSz < size then w == (-1, -1) else w == (j, i)
      ensures j <= i <= slots.Length
    {
      j, i := 0, 0;
      var more := true;
      if size > 0 { NeedIs(size, slotSz, 0); }
      while more
        invariant 0 <= j <= i <= slots.Length && FreeRun(slots[..], j, i)
        invariant forall k :: 0 <= k < j ==> !RunAt(slots[..], k, Need(size, slotSz)) || size == 0
        invariant more ==> i < slots.Length && i - j < Need(size, slotSz) && (size == 0 ==> i == 0)
        invariant !more ==> Stopped(slots[..], size, slotSz, j, i)
        decreases slots.Length - i, more
      {
        SearchStep(slots[..], size, slotSz, j, i);
        if slots[i] {
          j := i + 1;
        }
        i := i + 1;
        if size > 0 { NeedIs(size, slotSz, i - j); }
        more := (i - j) * slotSz < size && i < slots.Length;
      }
      WindowFound(slots[..], size, slotSz, j, i);
    }

    method Mark(j: nat, i: nat, used: bool)
      requires j <= i <= slots.Length
      modifies slots
      ensures slots[..] == Fill(old(slots[..]), j, i, used)
    {
      for k := j to i
        invariant slots[..] == Fill(old(slots[..]), j, k, used)
      {
        slots[k] := used;
      }
    }

    /** `mem_free`: clear the slots of the chunk with this offset and its descriptor. */
    method Free(offset: int) returns (r: int)
      requires Valid()
      modifies slots, chunks
      ensures (Contents(), r) == FreeSpec(old(Contents()), offset) && Valid()
    {
      FreeKeeps(Contents(), slotSz, dataOffset, offset);
      if offset < 0 {
        return 0;
      }
      var c := FindDescriptor(offset);
      if c == chunks.Length {
        return 0;
      }
      assert Placed(chunks[..][c], slots.Length, slotSz, dataOffset);
      Mark(chunks[c].slotSt, chunks[c].slotEnd, false);
      chunks[c] := FREE_CHUNK;
      return 1;
    }
  }
}
