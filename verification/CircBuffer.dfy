/**
 The circular buffer of modules/CIRC_BUFFER and the re-blocking step over it.
 Equal indices mean empty, so a write that fills the last free cell is accepted
 and empties the buffer; every other accepted write appends.
 */
module CircBuffer {
  import opened Arith

  // ---- Indices and contents ----

  function Occupancy(r: nat, w: nat, size: nat): int {
    if w >= r then w - r else size - (r - w)
  }

  /** The cells from the read index to the write index. */
  function Window<T>(data: seq<T>, r: nat, w: nat): (c: seq<T>)
    requires r < |data| && w < |data|
    ensures |c| == Occupancy(r, w, |data|)
    ensures forall i {:trigger c[i]} :: 0 <= i < |c| ==> c[i] == data[if r + i < |data| then r + i else r + i - |data|]
  {
    if w >= r then data[r..w] else data[r..] + data[..w]
  }

  function Next(i: nat, size: nat): nat {
    if i + 1 == size then 0 else i + 1
  }

  lemma PutOne<T>(data: seq<T>, r: nat, w: nat, x: T)
    requires r < |data| && w < |data|
    ensures Occupancy(r, w, |data|) + 1 < |data| ==> Window(data[w := x], r, Next(w, |data|)) == Window(data, r, w) + [x]
    ensures Occupancy(r, w, |data|) + 1 == |data| ==> Next(w, |data|) == r
  {
    hide Window;
  }

  lemma TakeOne<T>(data: seq<T>, r: nat, w: nat)
    requires r < |data| && w < |data| && Occupancy(r, w, |data|) > 0
    ensures Window(data, r, w) == [data[r]] + Window(data, Next(r, |data|), w)
  {
    hide Window;
    var c, d := Window(data, r, w), Window(data, Next(r, |data|), w);
    forall i | 0 <= i < |c| ensures c[i] == ([data[r]] + d)[i] {
      assert i > 0 ==> ([data[r]] + d)[i] == d[i - 1];
    }
  }

  /** Storing samples one by one from the write index on, without looking at the read index. */
  function PutAll<T>(data: seq<T>, w: nat, input: seq<T>): (r: (seq<T>, nat))
    requires w < |data|
    ensures |r.0| == |data| && r.1 < |data|
    decreases |input|
  {
    if |input| == 0 then (data, w) else PutAll(data[w := input[0]], Next(w, |data|), input[1..])
  }

  /** What an accepted write makes of the contents c of a buffer of `size` cells. */
  function Written<T>(c: seq<T>, size: nat, input: seq<T>): seq<T> {
    if |input| == size - |c| then [] else c + input
  }

  lemma {:induction false} PutAllWritten<T>(data: seq<T>, r: nat, w: nat, input: seq<T>)
    requires r < |data| && w < |data| && |input| <= |data| - Occupancy(r, w, |data|)
    ensures var (data1, w1) := PutAll(data, w, input);
            Window(data1, r, w1) == Written(Window(data, r, w), |data|, input)
    decreases |input|
  {
    hide Window;
    var c := Window(data, r, w);
    if |input| == 0 {
      assert c + input == c;
    } else {
      var x, data1, w1 := input[0], data[w := input[0]], Next(w, |data|);
      PutOne(data, r, w, x);
      if |c| + 1 < |data| {
        PutAllWritten(data1, r, w1, input[1..]);
        assert c + [x] + input[1..] == c + input;
      } else {
        assert input[1..] == [] && Window(data1, r, w1) == [];
      }
    }
  }

  /**
   For every position of the two indices, wrapped round or not, storing a block
   that fits the room appends it exactly when one cell stays free. A block that
   takes the last free cell leaves equal indices, and so an empty buffer.
   */
  lemma WriteAppendsIff<T>(data: seq<T>, r: nat, w: nat, input: seq<T>)
    requires r < |data| && w < |data| && |input| <= |data| - Occupancy(r, w, |data|)
    ensures var (data1, w1) := PutAll(data, w, input);
            && (Window(data1, r, w1) == Window(data, r, w) + input <==> |input| < |data| - Occupancy(r, w, |data|))
            && (w1 == r <==> |input| == |data| - Occupancy(r, w, |data|) || (w == r && |input| == 0))
  {
    hide Window, PutAll;
    PutAllWritten(data, r, w, input);
  }

  /** The step of a run that a read stands for. */
  lemma TakeStep<T>(c: seq<T>, size: nat, length: nat)
    requires |c| < size
    ensures Step(History([], [], c), size, Op.Take(length))
            == if length > |c| then History([], [], c) else History([], c[..length], c[length..])
  {
  }

  lemma HeadIs<T>(c: seq<T>, i: nat, x: T, rest: seq<T>)
    requires i <= |c| && c[i..] == [x] + rest
    ensures i < |c| && c[i] == x && rest == c[i + 1..] && c[..i + 1] == c[..i] + [x]
  {
    assert c[i..][0] == x && c[i..][1..] == rest;
  }

  class CBuffer<T(0)> {
    const data: array<T>
    var readIndex: nat
    var writeIndex: nat
    var buffsize: nat
    var occuplevel: int
    var roomlevel: int

    ghost predicate Valid()
      reads this
    {
      && data.Length == buffsize && readIndex < buffsize && writeIndex < buffsize
      && occuplevel == Occupancy(readIndex, writeIndex, buffsize)
      && roomlevel == buffsize - occuplevel
    }

    ghost function Contents(): (c: seq<T>)
      reads this, data
      requires Valid()
      ensures |c| == occuplevel < buffsize
    {
      Window(data[..], readIndex, writeIndex)
    }

    /** `initCbuff`: both indices start at the same cell, so the buffer is empty. */
    constructor (size: nat, first: nat, zero: T)
      requires first < size
      ensures Valid() && Contents() == [] && buffsize == size && fresh(data)
    {
      data := new T[size](_ => zero);
      readIndex, writeIndex, buffsize := first, first, size;
      occuplevel, roomlevel := 0, size;
    }

    method UpdateLevels()
      requires data.Length == buffsize && readIndex < buffsize && writeIndex < buffsize
      modifies this`occuplevel, this`roomlevel
      ensures Valid()
    {
      if writeIndex >= readIndex {
        occuplevel := writeIndex - readIndex;
      } else {
        occuplevel := buffsize - (readIndex - writeIndex);
      }
      roomlevel := buffsize - occuplevel;
    }

    /** The body of the read loop: one sample, and the read index moves on. */
    method Take() returns (x: T)
      requires data.Length == buffsize && readIndex < buffsize && writeIndex < buffsize
      requires |Window(data[..], readIndex, writeIndex)| > 0
      modifies this`readIndex
      ensures readIndex < buffsize
      ensures old(Window(data[..], readIndex, writeIndex)) == [x] + Window(data[..], readIndex, writeIndex)
    {
      TakeOne(data[..], readIndex, writeIndex);
      x := data[readIndex];
      readIndex := readIndex + 1;
      if readIndex == buffsize {
        readIndex := 0;
      }
    }

    /** `writeCbuff`. A refused write changes neither data nor indices. */
    method Write(input: seq<T>) returns (r: int)
      requires Valid()
      modifies this`writeIndex, this`occuplevel, this`roomlevel, data
      ensures Valid() && r == if |input| <= old(roomlevel) then 1 else -1
      ensures r == 1 ==> (data[..], writeIndex) == PutAll(old(data[..]), old(writeIndex), input)
      ensures r == 1 ==> Contents() == Written(old(Contents()), buffsize, input)
      ensures r == -1 ==> data[..] == old(data[..]) && writeIndex == old(writeIndex)
      ensures var h := Step(History([], [], old(Contents())), buffsize, Op.Put(input));
              h.contents == Contents() && h.accepted == if r == 1 then input else []
    {
      hide Window;
      UpdateLevels();
      if roomlevel < |input| {
        return -1;
      }
      PutAllWritten(data[..], readIndex, writeIndex, input);
      assert input[0..] == input;
      for i := 0 to |input|
        invariant data.Length == buffsize && writeIndex < buffsize
        invariant PutAll(data[..], writeIndex, input[i..]) == PutAll(old(data[..]), old(writeIndex), input)
      {
        ghost var was := data[..];
        data[writeIndex] := input[i];
        assert data[..] == was[writeIndex := input[i]] && input[i..][1..] == input[i + 1..];
        writeIndex := writeIndex + 1;
        if writeIndex == buffsize {
          writeIndex := 0;
        }
      }
      UpdateLevels();
      return 1;
    }

    /** `readCbuff`. A refused read changes neither the output nor the read index. */
    method Read(out: array<T>, length: nat) returns (r: int)
      requires Valid() && out != data && length <= out.Length
      modifies this`readIndex, this`occuplevel, this`roomlevel, out
      ensures Valid() && r == if length <= old(occuplevel) then 1 else -1
      ensures r == 1 ==> out[..length] == old(Contents())[..length] && Contents() == old(Contents())[length..]
      ensures r == 1 ==> out[length..] == old(out[length..])
      ensures r == -1 ==> out[..] == old(out[..]) && readIndex == old(readIndex)
      ensures var h := Step(History([], [], old(Contents())), buffsize, Op.Take(length));
              h.contents == Contents() && h.taken == if r == 1 then out[..length] else []
    {
      hide Window, Next, Step;
      UpdateLevels();
      TakeStep(Contents(), buffsize, length);
      if occuplevel < length {
        return -1;
      }
      ghost var c, cells := Contents(), data[..];
      for i := 0 to length
        invariant readIndex < buffsize && data.Length == buffsize && data[..] == cells
        invariant out[..i] == c[..i] && out[length..] == old(out[length..])
        invariant Window(cells, readIndex, writeIndex) == c[i..]
      {
        var x := Take();
        HeadIs(c, i, x, Window(cells, readIndex, writeIndex));
        ghost var was := out[..];
        out[i] := x;
        assert out[..i + 1] == was[..i] + [x] && out[length..] == was[length..];
      }
      UpdateLevels();
      return 1;
    }
  }

  // ---- Runs of writes and reads ----

  datatype Op<T> = Put(input: seq<T>) | Take(length: nat)

  /** A run of calls: the accepted input, everything read, the contents. */
  datatype History<T> = History(accepted: seq<T>, taken: seq<T>, contents: seq<T>)

  function NoHistory<T>(): History<T> {
    History([], [], [])
  }

  /** One call: a block that exceeds the room and a read that exceeds the contents change nothing. */
  function Step<T>(h: History<T>, size: nat, op: Op<T>): (t: History<T>)
    requires |h.contents| < size
    ensures |t.contents| < size
  {
    match op
    case Put(input) =>
      if |input| > size - |h.contents| then h
      else h.(accepted := h.accepted + input, contents := Written(h.contents, size, input))
    case Take(length) =>
      if length > |h.contents| then h
      else h.(taken := h.taken + h.contents[..length], contents := h.contents[length..])
  }

  function After<T>(h: History<T>, size: nat, run: seq<Op<T>>): (t: History<T>)
    requires |h.contents| < size
    ensures |t.contents| < size
    decreases |run|
  {
    if |run| == 0 then h else After(Step(h, size, run[0]), size, run[1..])
  }

  /** Some accepted block takes the last free cell. */
  predicate Overfilled<T>(h: History<T>, size: nat, run: seq<Op<T>>)
    requires |h.contents| < size
    decreases |run|
  {
    && |run| > 0
    && ((run[0].Put? && |run[0].input| == size - |h.contents|) || Overfilled(Step(h, size, run[0]), size, run[1..]))
  }

  /** Samples that are neither read nor in the buffer. */
  function Lost<T>(h: History<T>): int {
    |h.accepted| - |h.taken| - |h.contents|
  }

  lemma {:induction false} LossCount<T>(h: History<T>, size: nat, run: seq<Op<T>>)
    requires |h.contents| < size && Lost(h) >= 0
    ensures Lost(After(h, size, run)) >= Lost(h)
    ensures Overfilled(h, size, run) ==> Lost(After(h, size, run)) > 0
    decreases |run|
  {
    if |run| > 0 {
      LossCount(Step(h, size, run[0]), size, run[1..]);
    }
  }

  lemma StepConserves<T>(h: History<T>, size: nat, op: Op<T>)
    requires |h.contents| < size && (op.Put? ==> |op.input| != size - |h.contents|)
    requires h.accepted == h.taken + h.contents
    ensures var t := Step(h, size, op); t.accepted == t.taken + t.contents
  {
  }

  lemma {:induction false} Conserves<T>(h: History<T>, size: nat, run: seq<Op<T>>)
    requires |h.contents| < size && h.accepted == h.taken + h.contents
    requires !Overfilled(h, size, run)
    ensures var t := After(h, size, run); t.accepted == t.taken + t.contents
    decreases |run|
  {
    hide Step;
    if |run| > 0 {
      StepConserves(h, size, run[0]);
      Conserves(Step(h, size, run[0]), size, run[1..]);
    }
  }

  /**
   Over every run of writes and reads, refused calls included, the buffer is an
   unbounded queue, with what was read followed by the contents equal to the
   accepted input, exactly when no accepted block took the last free cell.
   */
  lemma RunIsFifoIff<T>(size: nat, run: seq<Op<T>>)
    requires size > 0
    ensures var h := NoHistory<T>();
            var t := After(h, size, run);
            && (t.accepted == t.taken + t.contents <==> !Overfilled(h, size, run))
            && (!Overfilled(h, size, run) ==> t.taken <= t.accepted)
  {
    var h := NoHistory<T>();
    LossCount(h, size, run);
    if !Overfilled(h, size, run) {
      Conserves(h, size, run);
    }
  }

  // ---- Re-blocking ----

  /** One call of `work` on contents c: the contents after, the return value, the samples sent. */
  function WorkSpec<T>(c: seq<T>, size: nat, input: seq<T>, outlength: nat): (r: (seq<T>, int, seq<T>))
    requires |c| < size
    ensures |r.0| < size
  {
    if |input| > size - |c| then (c, -1, [])
    else
      var c1 := if |input| == 0 then c else Written(c, size, input);
      if |c1| >= outlength then (c1[outlength..], 0, c1[..outlength]) else (c1, 0, [])
  }

  class Reblocker<T(0)> {
    const buf: CBuffer<T>
    const outlength: nat
    var tslot: nat

    constructor (size: nat, zero: T, outlength: nat)
      requires size > 0
      ensures Valid() && buf.Contents() == [] && fresh(buf) && fresh(buf.data)
    {
      buf := new CBuffer(size, 0, zero);
      this.outlength := outlength;
      tslot := 0;
    }

    ghost predicate Valid()
      reads this, buf
    {
      buf.Valid()
    }

    /** `work`: store the block, then send one output block if there is enough. */
    method Work(input: seq<T>, out: array<T>) returns (r: int, sent: nat)
      requires Valid() && out != buf.data && outlength <= out.Length
      modifies this`tslot, buf, buf.data, out
      ensures Valid() && buf.buffsize == old(buf.buffsize) && sent <= out.Length
      ensures (buf.Contents(), r, out[..sent]) == WorkSpec(old(buf.Contents()), buf.buffsize, input, outlength)
      ensures tslot == old(tslot) + (if r == 0 then 1 else 0)
    {
      if |input| > 0 {
        var ok := buf.Write(input);
        if ok == -1 {
          return -1, 0;
        }
      }
      if buf.occuplevel >= outlength {
        var ok := buf.Read(out, outlength);
        sent := outlength;
      } else {
        sent := 0;
      }
      tslot := tslot + 1;
      r := 0;
    }
  }

  function WorkStep<T>(h: History<T>, size: nat, input: seq<T>, outlength: nat): (t: History<T>)
    requires |h.contents| < size
    ensures |t.contents| < size
  {
    var (c, r, out) := WorkSpec(h.contents, size, input, outlength);
    History(if r == 0 then h.accepted + input else h.accepted, h.taken + out, c)
  }

  /** A run of `work` calls, one per block. */
  function WorkRun<T>(h: History<T>, size: nat, blocks: seq<seq<T>>, outlength: nat): (t: History<T>)
    requires |h.contents| < size
    ensures |t.contents| < size
    decreases |blocks|
  {
    if |blocks| == 0 then h else WorkRun(WorkStep(h, size, blocks[0], outlength), size, blocks[1..], outlength)
  }

  /** Some accepted block takes the last free cell. */
  predicate Fills<T>(h: History<T>, size: nat, blocks: seq<seq<T>>, outlength: nat)
    requires |h.contents| < size
    decreases |blocks|
  {
    && |blocks| > 0
    && (|blocks[0]| == size - |h.contents|
        || Fills(WorkStep(h, size, blocks[0], outlength), size, blocks[1..], outlength))
  }

  /** The buffer calls of one `work`: a refused block ends it before the read. */
  function Calls<T>(h: History<T>, size: nat, input: seq<T>, outlength: nat): seq<Op<T>> {
    if |input| > size - |h.contents| then [] else [Op.Put(input), Op.Take(outlength)]
  }

  function AllCalls<T>(h: History<T>, size: nat, blocks: seq<seq<T>>, outlength: nat): seq<Op<T>>
    requires |h.contents| < size
    decreases |blocks|
  {
    if |blocks| == 0 then []
    else Calls(h, size, blocks[0], outlength)
         + AllCalls(WorkStep(h, size, blocks[0], outlength), size, blocks[1..], outlength)
  }

  lemma WorkStepCalls<T>(h: History<T>, size: nat, input: seq<T>, outlength: nat, rest: seq<Op<T>>)
    requires |h.contents| < size
    ensures var run := Calls(h, size, input, outlength) + rest;
            var t := WorkStep(h, size, input, outlength);
            && After(h, size, run) == After(t, size, rest)
            && (Overfilled(h, size, run) <==> |input| == size - |h.contents| || Overfilled(t, size, rest))
  {
    var run := Calls(h, size, input, outlength) + rest;
    if |input| > size - |h.contents| {
      assert run == rest;
      assert h.taken + [] == h.taken;
    } else {
      assert run[1..][1..] == rest && run[0] == Op.Put(input) && run[1..][0] == Op.Take(outlength);
      var h1 := Step(h, size, Op.Put(input));
      assert |input| == 0 ==> h.accepted + input == h.accepted && h.contents + input == h.contents;
      assert h1.taken + [] == h1.taken;
      assert Step(h1, size, Op.Take(outlength)) == WorkStep(h, size, input, outlength);
    }
  }

  lemma {:induction false} WorkRunCalls<T>(h: History<T>, size: nat, blocks: seq<seq<T>>, outlength: nat)
    requires |h.contents| < size
    ensures var run := AllCalls(h, size, blocks, outlength);
            && WorkRun(h, size, blocks, outlength) == After(h, size, run)
            && (Fills(h, size, blocks, outlength) <==> Overfilled(h, size, run))
    decreases |blocks|
  {
    hide WorkStep, Calls, After, Overfilled;
    if |blocks| == 0 {
      NoCalls(h, size);
    } else {
      var t := WorkStep(h, size, blocks[0], outlength);
      WorkRunCalls(t, size, blocks[1..], outlength);
      WorkStepCalls(h, size, blocks[0], outlength, AllCalls(t, size, blocks[1..], outlength));
    }
  }

  lemma NoCalls<T>(h: History<T>, size: nat)
    requires |h.contents| < size
    ensures After(h, size, []) == h && !Overfilled(h, size, [])
  {
  }

  /**
   Over every run of `work` the output followed by the contents is the accepted
   input exactly when no accepted block filled the last free cell. Then the
   output is a prefix of the accepted input.
   */
  lemma WorkIsFifoIff<T>(size: nat, blocks: seq<seq<T>>, outlength: nat)
    requires size > 0
    ensures var h := NoHistory<T>();
            var t := WorkRun(h, size, blocks, outlength);
            && (t.accepted == t.taken + t.contents <==> !Fills(h, size, blocks, outlength))
            && (!Fills(h, size, blocks, outlength) ==> t.taken <= t.accepted)
  {
    hide WorkRun, Fills, After, Overfilled;
    var h := NoHistory<T>();
    WorkRunCalls(h, size, blocks, outlength);
    RunIsFifoIff(size, AllCalls(h, size, blocks, outlength));
  }

  /**
   A call fails exactly when the block exceeds the room, and then nothing
   happens. Otherwise, if a cell stays free, it sends one output block of the
   oldest samples exactly when enough are stored, and sends nothing else.
   */
  lemma WorkSendsIff<T>(c: seq<T>, size: nat, input: seq<T>, outlength: nat)
    requires |c| < size
    ensures var (c1, r, out) := WorkSpec(c, size, input, outlength);
            && (r == -1 || r == 0)
            && (r == -1 <==> |c| + |input| > size)
            && (r == -1 ==> c1 == c && out == [])
            && (|c| + |input| < size ==>
                && out + c1 == c + input
                && |out| == (if |c| + |input| >= outlength then outlength else 0))
  {
    var c1 := if |input| == 0 then c else Written(c, size, input);
    assert |input| == 0 ==> c + input == c;
    if |c| + |input| < size && |c1| < outlength {
      assert [] + c1 == c1;
    }
  }

  /** Every block of the run is at most one output block long. */
  predicate Short<T>(blocks: seq<seq<T>>, outlength: nat) {
    forall i :: 0 <= i < |blocks| ==> |blocks[i]| <= outlength
  }

  lemma WorkStepKeeps<T>(h: History<T>, size: nat, input: seq<T>, outlength: nat)
    requires |h.contents| < size && |input| != size - |h.contents| && h.accepted == h.taken + h.contents
    ensures var t := WorkStep(h, size, input, outlength);
            && t.accepted == t.taken + t.contents
            && (|t.taken| == |h.taken| || |t.taken| == |h.taken| + outlength)
            && (|h.contents| < outlength && |input| <= outlength ==> |t.contents| < outlength)
  {
    hide WorkSpec;
    var (c, r, out) := WorkSpec(h.contents, size, input, outlength);
    WorkSendsIff(h.contents, size, input, outlength);
    if r == 0 {
      assert h.accepted + input == h.taken + (h.contents + input) == h.taken + out + c;
      assert |out| + |c| == |h.contents| + |input|;
    } else {
      assert h.taken + out == h.taken;
    }
  }

  lemma {:induction false} BacklogKept<T>(h: History<T>, size: nat, blocks: seq<seq<T>>, outlength: nat)
    requires |h.contents| < size && |h.contents| < outlength && h.accepted == h.taken + h.contents
    requires Short(blocks, outlength) && !Fills(h, size, blocks, outlength)
    ensures var t := WorkRun(h, size, blocks, outlength);
            && t.accepted == t.taken + t.contents && |t.contents| < outlength
            && exists n: nat :: |t.taken| == |h.taken| + n * outlength
    decreases |blocks|
  {
    hide WorkStep;
    if |blocks| == 0 {
      assert |h.taken| == |h.taken| + 0 * outlength;
    } else {
      var t := WorkStep(h, size, blocks[0], outlength);
      WorkStepKeeps(h, size, blocks[0], outlength);
      BacklogKept(t, size, blocks[1..], outlength);
      var u := WorkRun(t, size, blocks[1..], outlength);
      var n: nat :| |u.taken| == |t.taken| + n * outlength;
      assert (n + 1) * outlength == n * outlength + outlength;
      assert |u.taken| == |h.taken| + (if |t.taken| == |h.taken| then n else n + 1) * outlength;
    }
  }

  /**
   With blocks no longer than an output block, and none that takes the last
   free cell, every run of `work` has sent every whole output block of its
   accepted input, and keeps less than one.
   */
  lemma AllWholeBlocksSent<T>(size: nat, blocks: seq<seq<T>>, outlength: nat)
    requires size > 0 && outlength > 0 && Short(blocks, outlength)
    requires !Fills(NoHistory<T>(), size, blocks, outlength)
    ensures var t := WorkRun(NoHistory<T>(), size, blocks, outlength);
            && t.taken + t.contents == t.accepted
            && |t.contents| == |t.accepted| % outlength
  {
    hide WorkRun, Fills, Short;
    var h := NoHistory<T>();
    BacklogKept(h, size, blocks, outlength);
    var t := WorkRun(h, size, blocks, outlength);
    var n: nat :| |t.taken| == |h.taken| + n * outlength;
    DivModUnique(|t.accepted|, outlength, n, |t.contents|);
  }
}
