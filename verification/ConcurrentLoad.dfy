/** The loading tasks of `LoadVirtualStorage` run at the same time in a thread pool. Each one only
    writes bytes into the storage, one `WriteByte` after another; this module lets the writes of all
    carriers interleave in any order and proves that the outcome does not depend on it. */
module ConcurrentLoad {
  import opened Bits
  import opened HammingCode
  import opened Permutations
  import opened Embedding
  import opened Layout
  import opened Volumes

  /** The bytes the task of carrier i writes, from its offset on. */
  ghost function Output(v: Volume, i: nat): (d: Bytes)
    requires v.Valid() && i < |v.files|
    ensures |d| == v.SetupOf(i).DataBytes()
  {
    v.SetupFits(i);
    LoadData(v.files[i].image, v.SetupOf(i))
  }

  function Start(v: Volume, i: nat): nat
    requires v.Valid() && i <= |v.files|
  {
    Offset(v.Capacities(), i)
  }

  /** Task i writes storage position pos. */
  ghost predicate Writes(v: Volume, i: nat, pos: nat)
    requires v.Valid() && i < |v.files|
  {
    pos < v.global.Size() && Start(v, i) <= pos < Start(v, i) + |Output(v, i)|
  }

  /** The storage, how far each task has come, and the cells written so far, in order. */
  datatype State = State(data: Bytes, done: seq<nat>, log: seq<nat>) {
    ghost predicate Fits(v: Volume) {
      && v.Valid() && |data| == v.global.Size() && |done| == |v.files|
      && forall i: nat | i < |done| :: done[i] <= |Output(v, i)|
    }

    ghost predicate Complete(v: Volume)
      requires Fits(v)
    {
      forall i: nat | i < |done| :: done[i] == |Output(v, i)|
    }
  }

  /** One write of task i; a task that has finished does nothing. */
  ghost function Step(v: Volume, st: State, i: nat): (r: State)
    requires st.Fits(v)
    ensures r.Fits(v)
  {
    if i < |st.done| && st.done[i] < |Output(v, i)| then
      var pos := Start(v, i) + st.done[i];
      State(StoreAt(st.data, v.global, pos, Output(v, i)[st.done[i]]),
            st.done[i := st.done[i] + 1],
            if pos < v.global.Size() then st.log + [v.global.Apply(pos)] else st.log)
    else st
  }

  /** The tasks take turns in the order of the schedule. */
  ghost function Execute(v: Volume, st: State, schedule: seq<nat>): (r: State)
    requires st.Fits(v)
    ensures r.Fits(v)
    decreases |schedule|
  {
    if schedule == [] then st
    else Step(v, Execute(v, st, schedule[..|schedule| - 1]), schedule[|schedule| - 1])
  }

  ghost function Initial(v: Volume, memory: Bytes): (st: State)
    requires v.Valid() && |memory| == v.global.Size()
    ensures st.Fits(v)
  {
    State(memory, seq(|v.files|, _ => 0), [])
  }

  // ---------------------------------------------------------------- no two tasks share a cell

  lemma WritesInside(v: Volume, i: nat, pos: nat)
    requires v.Valid() && i < |v.files| && Writes(v, i, pos)
    ensures pos < v.global.Size()
  {
    hide Volume.Valid, Output, Start, Perm.Size;
  }

  /** Inside the storage, what a task writes lies before the next carrier. */
  lemma WritesEnd(v: Volume, i: nat, pos: nat)
    requires v.Valid() && i < |v.files| && Writes(v, i, pos)
    ensures pos < Start(v, i + 1)
  {
    v.SetupFits(i);
    RemainingIsRest(v.Capacities(), v.global.Size(), i);
  }

  /** Every storage position is written by exactly one task. */
  lemma OneWriter(v: Volume, pos: nat) returns (i: nat)
    requires v.Valid() && pos < v.global.Size()
    ensures i < |v.files| && Writes(v, i, pos)
    ensures forall j: nat | j < |v.files| :: Writes(v, j, pos) ==> j == i
  {
    var caps := v.Capacities();
    i := Owner(caps, v.global.Size(), pos, |caps|);
    v.SetupFits(i);
    forall j: nat | j < |v.files| && Writes(v, j, pos) ensures j == i { SameWriter(v, i, j, pos); }
  }

  lemma SameWriter(v: Volume, i: nat, j: nat, pos: nat)
    requires v.Valid() && i < |v.files| && j < |v.files| && Writes(v, i, pos) && Writes(v, j, pos)
    ensures i == j
  {
    hide *;
    WritesEnd(v, i, pos);
    WritesEnd(v, j, pos);
    WritesFrom(v, i, pos);
    WritesFrom(v, j, pos);
    if i < j { StartsIncrease(v, i + 1, j); }
    if j < i { StartsIncrease(v, j + 1, i); }
  }

  lemma WritesFrom(v: Volume, i: nat, pos: nat)
    requires v.Valid() && i < |v.files| && Writes(v, i, pos)
    ensures Start(v, i) <= pos
  {
    hide Volume.Valid, Start, Output;
  }

  lemma StartsIncrease(v: Volume, i: nat, j: nat)
    requires v.Valid() && i <= j <= |v.files|
    ensures Start(v, i) <= Start(v, j)
  {
    hide Offset;
    OffsetsIncrease(v.Capacities(), i, j);
  }

  /** No two tasks touch the same storage cell, and no task touches one twice. */
  lemma CellsAreDisjoint(v: Volume, i: nat, j: nat, a: nat, b: nat)
    requires v.Valid() && i < |v.files| && j < |v.files| && Writes(v, i, a) && Writes(v, j, b)
    requires v.global.Apply(a) == v.global.Apply(b)
    ensures i == j && a == b
  {
    hide Output, Perm.Apply;
    SameWriter(v, i, j, a);
  }

  // ---------------------------------------------------------------- the invariant of every interleaving

  /** The position has been written. */
  ghost predicate Written(v: Volume, st: State, i: nat, pos: nat)
    requires st.Fits(v) && i < |v.files|
  {
    pos < v.global.Size() && Start(v, i) <= pos < Start(v, i) + st.done[i]
  }

  /** A cell holds the byte of the one task that writes it, once that task has come so far, and
      before that what the memory held; it is in the log exactly if it has been written, and once. */
  ghost predicate CellIsRight(v: Volume, memory: Bytes, st: State, i: nat, pos: nat)
    requires st.Fits(v) && |memory| == v.global.Size() && i < |v.files| && Writes(v, i, pos)
  {
    var cell := v.global.Apply(pos);
    && st.data[cell] == (if Written(v, st, i, pos) then Output(v, i)[pos - Start(v, i)] else memory[cell])
    && multiset(st.log)[cell] == (if Written(v, st, i, pos) then 1 else 0)
  }

  ghost predicate Right(v: Volume, memory: Bytes, st: State) {
    && st.Fits(v) && |memory| == v.global.Size()
    && forall i: nat, pos: nat | i < |v.files| && Writes(v, i, pos) :: CellIsRight(v, memory, st, i, pos)
  }

  lemma StepIsRight(v: Volume, memory: Bytes, st: State, k: nat)
    requires Right(v, memory, st)
    ensures Right(v, memory, Step(v, st, k))
  {
    var r := Step(v, st, k);
    forall i: nat, pos: nat | i < |v.files| && Writes(v, i, pos) ensures CellIsRight(v, memory, r, i, pos) {
      assert CellIsRight(v, memory, st, i, pos);
      StepKeepsCell(v, memory, st, k, i, pos);
    }
  }

  lemma StepKeepsCell(v: Volume, memory: Bytes, st: State, k: nat, i: nat, pos: nat)
    requires st.Fits(v) && |memory| == v.global.Size() && i < |v.files| && Writes(v, i, pos)
    requires CellIsRight(v, memory, st, i, pos)
    ensures CellIsRight(v, memory, Step(v, st, k), i, pos)
  {
    hide Perm.Apply, Perm.Size, Perm.Valid, Bijective, Start, Output, Volume.Capacities;
    if k < |st.done| && st.done[k] < |Output(v, k)| {
      var at := Start(v, k) + st.done[k];
      if at < v.global.Size() {
        CellStored(st.data, v.global, at, Output(v, k)[st.done[k]], pos);
        CountAppended(st.log, v.global.Apply(at), v.global.Apply(pos));
        if v.global.Apply(at) == v.global.Apply(pos) { CellsAreDisjoint(v, k, i, at, pos); }
      }
    }
  }

  lemma CellStored(data: Bytes, p: Perm, at: nat, b: byte, pos: nat)
    requires p.Valid() && Bijective(p) && |data| == p.Size() && at < p.Size() && pos < p.Size()
    ensures StoreAt(data, p, at, b)[p.Apply(pos)] == if p.Apply(pos) == p.Apply(at) then b else data[p.Apply(pos)]
  {
    hide Perm.Apply;
  }

  lemma CountAppended(log: seq<nat>, x: nat, y: nat)
    ensures multiset(log + [x])[y] == multiset(log)[y] + (if x == y then 1 else 0)
  {}

  lemma {:induction false} ExecuteIsRight(v: Volume, memory: Bytes, schedule: seq<nat>)
    requires v.Valid() && |memory| == v.global.Size()
    ensures Right(v, memory, Execute(v, Initial(v, memory), schedule))
    decreases |schedule|
  {
    if schedule != [] {
      var n := |schedule| - 1;
      ExecuteIsRight(v, memory, schedule[..n]);
      StepIsRight(v, memory, Execute(v, Initial(v, memory), schedule[..n]), schedule[n]);
    }
  }

  // ---------------------------------------------------------------- the results

  /** What the sequential run leaves in the cell of a position. */
  lemma {:induction false} SequentialCell(v: Volume, memory: Bytes, n: nat, i: nat, pos: nat)
    requires v.Valid() && |memory| == v.global.Size() && i < n <= |v.files| && Writes(v, i, pos)
    ensures v.LoadFirst(memory, n)[v.global.Apply(pos)] == Output(v, i)[pos - Start(v, i)]
    decreases n
  {
    hide *;
    WritesInside(v, i, pos);
    LastCarrier(v, memory, n, pos);
    if Writes(v, n - 1, pos) {
      SameWriter(v, i, n - 1, pos);
    } else {
      SequentialCell(v, memory, n - 1, i, pos);
    }
  }

  lemma LastCarrier(v: Volume, memory: Bytes, n: nat, pos: nat)
    requires v.Valid() && |memory| == v.global.Size() && 0 < n <= |v.files| && pos < v.global.Size()
    ensures v.LoadFirst(memory, n)[v.global.Apply(pos)]
         == if Writes(v, n - 1, pos) then Output(v, n - 1)[pos - Start(v, n - 1)]
            else v.LoadFirst(memory, n - 1)[v.global.Apply(pos)]
  {
    v.SetupFits(n - 1);
    hide Perm.Size, Perm.Apply, Perm.Valid, Bijective, LoadData, Volume.SetupOf, Volume.Capacities, StoreBytes;
    var d := LoadData(v.files[n - 1].image, v.SetupOf(n - 1));
    StoredByte(v.LoadFirst(memory, n - 1), v.global, Start(v, n - 1), d, |d|, pos);
  }

  /** Loading is deterministic: whatever the interleaving, once every task has finished the storage
      is the one the tasks leave when they run one after the other. */
  lemma AnyScheduleIsSequential(v: Volume, memory: Bytes, schedule: seq<nat>)
    requires v.Valid() && |memory| == v.global.Size()
    requires Execute(v, Initial(v, memory), schedule).Complete(v)
    ensures Execute(v, Initial(v, memory), schedule).data == v.LoadFirst(memory, |v.files|)
  {
    var r := Execute(v, Initial(v, memory), schedule);
    var s := v.LoadFirst(memory, |v.files|);
    ExecuteIsRight(v, memory, schedule);
    hide Perm.Apply, Execute, Right, State.Complete, Volume.LoadFirst;
    forall cell: nat | cell < |s| ensures r.data[cell] == s[cell] {
      assert Reached(v.global, cell);
      var pos: nat :| pos < v.global.Size() && v.global.Apply(pos) == cell;
      FinalCell(v, memory, r, pos);
    }
  }

  lemma FinalCell(v: Volume, memory: Bytes, st: State, pos: nat)
    requires Right(v, memory, st) && st.Complete(v) && pos < v.global.Size()
    ensures st.data[v.global.Apply(pos)] == v.LoadFirst(memory, |v.files|)[v.global.Apply(pos)]
  {
    var i := OneWriter(v, pos);
    hide Perm.Apply, Volume.LoadFirst, Output, Start;
    assert CellIsRight(v, memory, st, i, pos);
    SequentialCell(v, memory, |v.files|, i, pos);
  }

  /** At no point has a storage cell been written twice, and in the end each was written once. */
  lemma EveryCellWrittenOnce(v: Volume, memory: Bytes, schedule: seq<nat>, cell: nat)
    requires v.Valid() && |memory| == v.global.Size() && cell < |memory|
    ensures var r := Execute(v, Initial(v, memory), schedule);
            && multiset(r.log)[cell] <= 1
            && (r.Complete(v) ==> multiset(r.log)[cell] == 1)
  {
    var r := Execute(v, Initial(v, memory), schedule);
    ExecuteIsRight(v, memory, schedule);
    assert Reached(v.global, cell);
    var pos: nat :| pos < v.global.Size() && v.global.Apply(pos) == cell;
    var i := OneWriter(v, pos);
    hide Perm.Apply, Execute, Output;
    assert CellIsRight(v, memory, r, i, pos);
  }

  /** The writes the first n tasks still have to do. */
  ghost function Left(v: Volume, st: State, n: nat): nat
    requires st.Fits(v) && n <= |v.files|
  {
    if n == 0 then 0 else Left(v, st, n - 1) + (|Output(v, n - 1)| - st.done[n - 1])
  }

  lemma {:induction false} StepLeavesLess(v: Volume, st: State, k: nat, n: nat)
    requires st.Fits(v) && n <= |v.files| && k < |v.files| && st.done[k] < |Output(v, k)|
    ensures Left(v, Step(v, st, k), n) == Left(v, st, n) - (if k < n then 1 else 0)
    decreases n
  {
    hide Output, Volume.Valid, StoreAt, Perm.Apply, Perm.Size, Start;
    if n > 0 { StepLeavesLess(v, st, k, n - 1); }
  }

  /** However the tasks have been interleaved so far, they can finish. */
  lemma EveryScheduleCanFinish(v: Volume, memory: Bytes, schedule: seq<nat>) returns (full: seq<nat>)
    requires v.Valid() && |memory| == v.global.Size()
    ensures schedule <= full && Execute(v, Initial(v, memory), full).Complete(v)
    decreases Left(v, Execute(v, Initial(v, memory), schedule), |v.files|)
  {
    hide Output, Volume.Valid, Step, Perm.Size, Initial;
    var st := Execute(v, Initial(v, memory), schedule);
    if st.Complete(v) {
      full := schedule;
    } else {
      var k: nat :| k < |st.done| && st.done[k] != |Output(v, k)|;
      var next := schedule + [k];
      assert next[..|next| - 1] == schedule;
      StepLeavesLess(v, st, k, |v.files|);
      full := EveryScheduleCanFinish(v, memory, next);
    }
  }
}
