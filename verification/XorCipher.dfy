/** The multi-threaded XOR cipher of kernel/my_encrypt.c and kernel/my_decrypt.c (both run the same
    algorithm): the main thread cuts the buffer into one range per worker, starts the workers, waits
    for their completions in order and writes the buffer out. */
module XorCipher {
  import opened Errno

  type Bytes = seq<bv8>

  /** One sequential pass over the whole buffer: what the result is meant to be. */
  function XorAll(data: Bytes, key: Bytes): Bytes
    requires |key| > 0
  {
    seq(|data|, i requires 0 <= i < |data| => data[i] ^ key[i % |key|])
  }

  // ---------------------------------------------------------------- the ranges

  /** First index of worker w's range. */
  function Start(size: nat, n: nat, w: nat): nat
    requires n > 0
  {
    w * (size / n)
  }

  /** One past worker w's range: the last worker also takes the remainder. */
  function End(size: nat, n: nat, w: nat): nat
    requires n > 0
  {
    if w == n - 1 then (w + 1) * (size / n) + size % n else (w + 1) * (size / n)
  }

  lemma RangesAdjoin(size: nat, n: nat, w: nat)
    requires w < n
    ensures Start(size, n, 0) == 0 && End(size, n, n - 1) == size
    ensures Start(size, n, w) <= End(size, n, w)
    ensures w + 1 < n ==> End(size, n, w) == Start(size, n, w + 1)
  {
    assert (w + 1) * (size / n) == w * (size / n) + size / n;
    assert n * (size / n) + size % n == size;
  }

  lemma {:induction false} RangesOrdered(size: nat, n: nat, v: nat, w: nat)
    requires v < w < n
    ensures End(size, n, v) <= Start(size, n, w)
    decreases w
  {
    RangesAdjoin(size, n, v);
    if v + 1 < w {
      RangesOrdered(size, n, v, w - 1);
      RangesAdjoin(size, n, w - 1);
    }
  }

  lemma {:induction false} RangeInside(size: nat, n: nat, w: nat)
    requires w < n
    ensures Start(size, n, w) <= End(size, n, w) <= size
  {
    RangesAdjoin(size, n, w);
    if w < n - 1 {
      RangesOrdered(size, n, w, n - 1);
      RangesAdjoin(size, n, n - 1);
    }
  }

  /** Every index is in the range of some worker among the first m, when it lies below range m. */
  lemma {:induction false} FindOwner(size: nat, n: nat, m: nat, i: nat) returns (w: nat)
    requires 0 < m <= n && i < End(size, n, m - 1)
    ensures w < m && Start(size, n, w) <= i < End(size, n, w)
  {
    if Start(size, n, m - 1) <= i {
      w := m - 1;
    } else {
      RangesAdjoin(size, n, m - 1);
      RangesAdjoin(size, n, m - 2);
      w := FindOwner(size, n, m - 1, i);
    }
  }

  /** The ranges are a partition: every index has exactly one owner, more threads than bytes or not. */
  lemma {:induction false} RangesPartition(size: nat, n: nat, i: nat)
    requires n > 0 && i < size
    ensures exists w :: 0 <= w < n && Start(size, n, w) <= i < End(size, n, w)
    ensures forall v, w | 0 <= v < n && 0 <= w < n
              && Start(size, n, v) <= i < End(size, n, v) && Start(size, n, w) <= i < End(size, n, w) :: v == w
  {
    RangesAdjoin(size, n, n - 1);
    var owner := FindOwner(size, n, n, i);
    forall v, w | 0 <= v < n && 0 <= w < n
      && Start(size, n, v) <= i < End(size, n, v) && Start(size, n, w) <= i < End(size, n, w)
      ensures v == w
    {
      if v < w { RangesOrdered(size, n, v, w); }
      if w < v { RangesOrdered(size, n, w, v); }
    }
  }

  // ---------------------------------------------------------------- the machine

  /** What one call works on; the key and the original bytes never change during it. */
  datatype Job = Job(data: Bytes, key: Bytes, n: nat) {
    ghost predicate Valid() { |key| > 0 && n > 0 }
    function Lo(w: nat): nat requires n > 0 { Start(|data|, n, w) }
    function Hi(w: nat): nat requires n > 0 { End(|data|, n, w) }
  }

  /** A worker before its kthread_run, inside its loop at index `at` (with the byte it has loaded but
      not yet stored, if any), or after complete(). */
  datatype Worker = Unborn | Running(at: nat, loaded: Option<bv8>) | Completed

  /** Fault stands for an access outside the buffer. */
  datatype Main = Spawning(next: nat) | Waiting(next: nat) | Wrote(output: Bytes) | Fault

  datatype State = State(buffer: Bytes, workers: seq<Worker>, main: Main)

  /** `buffer[i] ^= key[..]` is a load and a store, and other threads may run between the two. */
  datatype Action = Spawn | Load(w: nat) | Store(w: nat) | Complete(w: nat) | Wait | Write

  function Initial(j: Job): State {
    State(j.data, seq(j.n, i => Unborn), Spawning(0))
  }

  predicate IsRunning(s: State, w: nat) {
    w < |s.workers| && s.workers[w].Running? && !s.main.Fault?
  }

  predicate Enabled(j: Job, s: State, a: Action)
    requires j.Valid()
  {
    match a
    case Spawn => s.main.Spawning? && s.main.next < |s.workers|
    case Load(w) => IsRunning(s, w) && s.workers[w].loaded.None? && s.workers[w].at < j.Hi(w)
    case Store(w) => IsRunning(s, w) && s.workers[w].loaded.Some?
    case Complete(w) => IsRunning(s, w) && s.workers[w].loaded.None? && s.workers[w].at >= j.Hi(w)
    case Wait => s.main.Waiting? && s.main.next < |s.workers| && s.workers[s.main.next].Completed?
    case Write => s.main.Waiting? && s.main.next == |s.workers|
  }

  /** One step; an action that is not enabled does nothing. */
  function Step(j: Job, s: State, a: Action): State
    requires j.Valid()
  {
    if !Enabled(j, s, a) then s else
    match a
    case Spawn =>
      var k := s.main.next;
      s.(workers := s.workers[k := Running(j.Lo(k), None)],
         main := if k + 1 < |s.workers| then Spawning(k + 1) else Waiting(0))
    case Load(w) =>
      var at := s.workers[w].at;
      if at >= |s.buffer| then s.(main := Fault)
      else s.(workers := s.workers[w := Running(at, Some(s.buffer[at]))])
    case Store(w) =>
      var Running(at, loaded) := s.workers[w];
      if at >= |s.buffer| then s.(main := Fault)
      else s.(buffer := s.buffer[at := loaded.value ^ j.key[at % |j.key|]],
              workers := s.workers[w := Running(at + 1, None)])
    case Complete(w) => s.(workers := s.workers[w := Completed])
    case Wait => s.(main := Waiting(s.main.next + 1))
    case Write => s.(main := Wrote(s.buffer))
  }

  function Run(j: Job, s: State, schedule: seq<Action>): State
    requires j.Valid()
    decreases |schedule|
  {
    if schedule == [] then s
    else Step(j, Run(j, s, schedule[..|schedule| - 1]), schedule[|schedule| - 1])
  }

  // ---------------------------------------------------------------- the invariant

  /** Byte i, in the range of a worker in state wk: encrypted iff the worker is past it. */
  ghost predicate ByteOk(j: Job, b: bv8, wk: Worker, i: nat)
    requires j.Valid() && i < |j.data|
  {
    b == if wk.Completed? || (wk.Running? && i < wk.at) then XorAll(j.data, j.key)[i] else j.data[i]
  }

  ghost predicate WorkerOk(j: Job, wk: Worker, w: nat)
    requires j.Valid()
  {
    wk.Running? ==>
      && j.Lo(w) <= wk.at <= j.Hi(w)
      && (wk.loaded.Some? ==> wk.at < j.Hi(w) && wk.at < |j.data| && wk.loaded.value == j.data[wk.at])
  }

  ghost predicate MainOk(j: Job, s: State)
    requires j.Valid() && |s.workers| == j.n
  {
    match s.main
    case Spawning(k) => k < j.n && forall w | 0 <= w < j.n :: s.workers[w].Unborn? <==> w >= k
    case Waiting(k) =>
      k <= j.n && forall w | 0 <= w < j.n :: !s.workers[w].Unborn? && (w < k ==> s.workers[w].Completed?)
    case Wrote(output) => output == s.buffer && forall w | 0 <= w < j.n :: s.workers[w].Completed?
    case Fault => false
  }

  ghost predicate Inv(j: Job, s: State)
    requires j.Valid()
  {
    && |s.buffer| == |j.data| && |s.workers| == j.n
    && MainOk(j, s)
    && (forall w | 0 <= w < j.n :: WorkerOk(j, s.workers[w], w))
    && (forall w, i | 0 <= w < j.n && j.Lo(w) <= i < j.Hi(w) && i < |j.data| ::
          ByteOk(j, s.buffer[i], s.workers[w], i))
  }

  lemma InitialInv(j: Job)
    requires j.Valid()
    ensures Inv(j, Initial(j))
  {
  }

  lemma {:induction false} StoreKeepsInv(j: Job, s: State, w: nat)
    requires j.Valid() && Inv(j, s) && Enabled(j, s, Store(w))
    ensures Inv(j, Step(j, s, Store(w)))
  {
    var s' := Step(j, s, Store(w));
    var at := s.workers[w].at;
    assert WorkerOk(j, s.workers[w], w);
    forall v, i | 0 <= v < j.n && j.Lo(v) <= i < j.Hi(v) && i < |j.data|
      ensures ByteOk(j, s'.buffer[i], s'.workers[v], i)
    {
      assert ByteOk(j, s.buffer[i], s.workers[v], i);
      if v < w { RangesOrdered(|j.data|, j.n, v, w); }
      if w < v { RangesOrdered(|j.data|, j.n, w, v); }
    }
  }

  /** Started at the beginning, loaded a byte, or completed at the end: the same bytes are done. */
  ghost predicate SameProgress(j: Job, wk: Worker, wk': Worker, w: nat)
    requires j.Valid()
  {
    || (wk.Unborn? && wk' == Running(j.Lo(w), None))
    || (wk.Running? && wk'.Running? && wk'.at == wk.at)
    || (wk.Running? && wk'.Completed? && wk.at >= j.Hi(w))
  }

  /** A step that leaves the buffer alone keeps the bytes right if it keeps each worker's progress. */
  lemma {:induction false} BytesStayOk(j: Job, s: State, s': State)
    requires j.Valid() && Inv(j, s) && s'.buffer == s.buffer && |s'.workers| == j.n
    requires forall w | 0 <= w < j.n :: s'.workers[w] == s.workers[w] || SameProgress(j, s.workers[w], s'.workers[w], w)
    ensures forall v, i | 0 <= v < j.n && j.Lo(v) <= i < j.Hi(v) && i < |j.data| ::
              ByteOk(j, s'.buffer[i], s'.workers[v], i)
  {
    forall v, i | 0 <= v < j.n && j.Lo(v) <= i < j.Hi(v) && i < |j.data|
      ensures ByteOk(j, s'.buffer[i], s'.workers[v], i)
    {
      assert ByteOk(j, s.buffer[i], s.workers[v], i);
    }
  }

  lemma {:induction false} LoadKeepsInv(j: Job, s: State, w: nat)
    requires j.Valid() && Inv(j, s) && Enabled(j, s, Load(w))
    ensures Inv(j, Step(j, s, Load(w)))
  {
    var at := s.workers[w].at;
    RangeInside(|j.data|, j.n, w);
    assert WorkerOk(j, s.workers[w], w);
    assert ByteOk(j, s.buffer[at], s.workers[w], at);
    BytesStayOk(j, s, Step(j, s, Load(w)));
  }

  lemma {:induction false} StepKeepsInv(j: Job, s: State, a: Action)
    requires j.Valid() && Inv(j, s)
    ensures Inv(j, Step(j, s, a))
  {
    if Enabled(j, s, a) {
      match a
      case Spawn =>
        RangeInside(|j.data|, j.n, s.main.next);
        BytesStayOk(j, s, Step(j, s, a));
      case Load(w) => LoadKeepsInv(j, s, w);
      case Store(w) => StoreKeepsInv(j, s, w);
      case Complete(w) => BytesStayOk(j, s, Step(j, s, a));
      case Wait =>
      case Write =>
    }
  }

  lemma {:induction false} RunKeepsInv(j: Job, schedule: seq<Action>)
    requires j.Valid()
    ensures Inv(j, Run(j, Initial(j), schedule))
    decreases |schedule|
  {
    if schedule == [] {
      InitialInv(j);
    } else {
      RunKeepsInv(j, schedule[..|schedule| - 1]);
      StepKeepsInv(j, Run(j, Initial(j), schedule[..|schedule| - 1]), schedule[|schedule| - 1]);
    }
  }

  /** No update is lost: whatever ran between a load and its store, the store leaves the byte it finds there,
      xored with its key byte, and no other byte changed. */
  lemma {:induction false} StoreXorsItsByte(j: Job, schedule: seq<Action>, w: nat)
    requires j.Valid()
    requires var s := Run(j, Initial(j), schedule);
             w < |s.workers| && s.workers[w].Running? && s.workers[w].loaded.Some?
    ensures var s := Run(j, Initial(j), schedule);
            var at := s.workers[w].at;
            && at < |s.buffer|
            && Step(j, s, Store(w)).buffer == s.buffer[at := s.buffer[at] ^ j.key[at % |j.key|]]
  {
    RunKeepsInv(j, schedule);
    var s := Run(j, Initial(j), schedule);
    assert WorkerOk(j, s.workers[w], w);
    assert ByteOk(j, s.buffer[s.workers[w].at], s.workers[w], s.workers[w].at);
  }

  // ---------------------------------------------------------------- main results

  /** Every schedule refines the sequential pass: what reaches kernel_write is the input, byte for byte, with the
      key repeated over it. */
  lemma EveryScheduleRefinesSequentialPass(j: Job, schedule: seq<Action>)
    requires j.Valid() && Run(j, Initial(j), schedule).main.Wrote?
    ensures Run(j, Initial(j), schedule).main.output == XorAll(j.data, j.key)
    ensures var output := Run(j, Initial(j), schedule).main.output;
            && |output| == |j.data|
            && forall i | 0 <= i < |j.data| :: output[i] == j.data[i] ^ j.key[i % |j.key|]
  {
    RunKeepsInv(j, schedule);
    var s := Run(j, Initial(j), schedule);
    forall i | 0 <= i < |j.data|
      ensures s.buffer[i] == XorAll(j.data, j.key)[i]
    {
      RangesPartition(|j.data|, j.n, i);
      var w :| 0 <= w < j.n && Start(|j.data|, j.n, w) <= i < End(|j.data|, j.n, w);
      assert j.Lo(w) <= i < j.Hi(w);
      assert ByteOk(j, s.buffer[i], s.workers[w], i);
    }
  }

  /** The index a worker reads or writes next, if it is inside its loop. */
  ghost function Touches(j: Job, s: State, w: nat): Option<nat>
    requires j.Valid()
  {
    if IsRunning(s, w) && s.workers[w].at < j.Hi(w) then Some(s.workers[w].at) else None
  }

  /** Index i is inside the buffer and in the range of worker w. */
  ghost predicate InRange(j: Job, w: nat, i: nat)
    requires j.Valid()
  {
    w < j.n && j.Lo(w) <= i < j.Hi(w) && i < |j.data|
  }

  lemma RangesDisjoint(j: Job, v: nat, w: nat, i: nat)
    requires j.Valid() && v != w && InRange(j, v, i)
    ensures !InRange(j, w, i)
  {
    if w < v {
      RangesOrdered(|j.data|, j.n, w, v);
    } else if w < j.n {
      RangesOrdered(|j.data|, j.n, v, w);
    }
  }

  /** No schedule lets a worker leave its range (or the buffer), lets two workers be at the same index, or lets
      the main thread read the buffer while a worker can still touch it. */
  lemma {:induction false} NoScheduleRaces(j: Job, schedule: seq<Action>)
    requires j.Valid()
    ensures var s := Run(j, Initial(j), schedule);
            && !s.main.Fault?
            && (forall w: nat :: Touches(j, s, w).Some? ==> InRange(j, w, Touches(j, s, w).value))
            && (forall v: nat, w: nat | v != w && Touches(j, s, v).Some? :: Touches(j, s, v) != Touches(j, s, w))
            && (Enabled(j, s, Write) || s.main.Wrote? ==> forall w: nat :: Touches(j, s, w).None?)
  {
    RunKeepsInv(j, schedule);
    var s := Run(j, Initial(j), schedule);
    forall w: nat | Touches(j, s, w).Some?
      ensures InRange(j, w, Touches(j, s, w).value)
    {
      assert WorkerOk(j, s.workers[w], w);
      RangeInside(|j.data|, j.n, w);
    }
    forall v: nat, w: nat | v != w && Touches(j, s, v).Some?
      ensures Touches(j, s, v) != Touches(j, s, w)
    {
      if Touches(j, s, w).Some? { RangesDisjoint(j, v, w, Touches(j, s, v).value); }
    }
  }

  /** An index that one worker ever touches, under some schedule, no other worker ever touches, at any time and
      under any schedule: so no byte is shared between two workers, not even at different moments. */
  lemma {:induction false} NoByteIsShared(j: Job, a: seq<Action>, b: seq<Action>, v: nat, w: nat)
    requires j.Valid() && v != w
    requires Touches(j, Run(j, Initial(j), a), v).Some?
    ensures Touches(j, Run(j, Initial(j), a), v) != Touches(j, Run(j, Initial(j), b), w)
  {
    NoScheduleRaces(j, a);
    NoScheduleRaces(j, b);
    RangesDisjoint(j, v, w, Touches(j, Run(j, Initial(j), a), v).value);
  }

  lemma XorTwice(x: bv8, k: bv8)
    ensures (x ^ k) ^ k == x
  {
  }

  /** Decrypting undoes encrypting, for any two thread counts and any schedule of each. */
  lemma DecryptUndoesEncrypt(data: Bytes, key: Bytes, n: nat, m: nat, encrypting: seq<Action>, decrypting: seq<Action>)
    requires |key| > 0 && n > 0 && m > 0
    requires Run(Job(data, key, n), Initial(Job(data, key, n)), encrypting).main.Wrote?
    requires var secret := Run(Job(data, key, n), Initial(Job(data, key, n)), encrypting).main.output;
             Run(Job(secret, key, m), Initial(Job(secret, key, m)), decrypting).main.Wrote?
    ensures var secret := Run(Job(data, key, n), Initial(Job(data, key, n)), encrypting).main.output;
            Run(Job(secret, key, m), Initial(Job(secret, key, m)), decrypting).main.output == data
  {
    EveryScheduleRefinesSequentialPass(Job(data, key, n), encrypting);
    var secret := Run(Job(data, key, n), Initial(Job(data, key, n)), encrypting).main.output;
    EveryScheduleRefinesSequentialPass(Job(secret, key, m), decrypting);
    forall i | 0 <= i < |data|
      ensures XorAll(secret, key)[i] == data[i]
    {
      XorTwice(data[i], key[i % |key|]);
    }
  }

  // ---------------------------------------------------------------- every schedule finishes

  function WorkLeft(j: Job, wk: Worker, w: nat): int
    requires j.Valid()
  {
    match wk
    case Unborn => 2 * (j.Hi(w) - j.Lo(w)) + 2
    case Running(at, None) => 2 * (j.Hi(w) - at) + 1
    case Running(at, Some(_)) => 2 * (j.Hi(w) - at)
    case Completed => 0
  }

  function Total(j: Job, ws: seq<Worker>, k: nat): int
    requires j.Valid() && k <= |ws|
  {
    if k == 0 then 0 else Total(j, ws, k - 1) + WorkLeft(j, ws[k - 1], k - 1)
  }

  /** Steps left: exactly one fewer after every enabled action. */
  function StepsLeft(j: Job, s: State): int
    requires j.Valid()
  {
    Total(j, s.workers, |s.workers|) +
    match s.main
    case Spawning(_) => j.n + 1
    case Waiting(k) => j.n - k + 1
    case Wrote(_) => 0
    case Fault => 0
  }

  lemma {:induction false} TotalUpdate(j: Job, ws: seq<Worker>, k: nat, w: nat, wk: Worker)
    requires j.Valid() && k <= |ws| && w < |ws|
    ensures Total(j, ws[w := wk], k)
         == Total(j, ws, k) + if w < k then WorkLeft(j, wk, w) - WorkLeft(j, ws[w], w) else 0
  {
    if k > 0 { TotalUpdate(j, ws, k - 1, w, wk); }
  }

  lemma {:induction false} TotalAtStart(j: Job, k: nat)
    requires j.Valid() && k <= j.n
    ensures Total(j, Initial(j).workers, k) == 2 * (if k == 0 then 0 else j.Hi(k - 1)) + 2 * k
  {
    if k > 0 {
      TotalAtStart(j, k - 1);
      RangesAdjoin(|j.data|, j.n, k - 1);
      if k > 1 { RangesAdjoin(|j.data|, j.n, k - 2); }
    }
  }

  lemma {:induction false} TotalNonNegative(j: Job, s: State, k: nat)
    requires j.Valid() && Inv(j, s) && k <= j.n
    ensures Total(j, s.workers, k) >= 0
    ensures (forall w | 0 <= w < k :: s.workers[w].Completed?) ==> Total(j, s.workers, k) == 0
  {
    if k > 0 {
      TotalNonNegative(j, s, k - 1);
      RangeInside(|j.data|, j.n, k - 1);
      assert WorkerOk(j, s.workers[k - 1], k - 1);
    }
  }

  lemma StepCountsDown(j: Job, s: State, a: Action)
    requires j.Valid() && Inv(j, s) && Enabled(j, s, a)
    ensures StepsLeft(j, Step(j, s, a)) == StepsLeft(j, s) - 1
  {
    StepKeepsInv(j, s, a);
    match a
    case Spawn => TotalUpdate(j, s.workers, j.n, s.main.next, Running(j.Lo(s.main.next), None));
    case Load(w) => TotalUpdate(j, s.workers, j.n, w, Step(j, s, a).workers[w]);
    case Store(w) => TotalUpdate(j, s.workers, j.n, w, Step(j, s, a).workers[w]);
    case Complete(w) =>
      assert WorkerOk(j, s.workers[w], w);
      TotalUpdate(j, s.workers, j.n, w, Completed);
    case Wait =>
    case Write => TotalNonNegative(j, s, j.n);
  }

  lemma NeverStuck(j: Job, s: State)
    requires j.Valid() && Inv(j, s) && !s.main.Wrote?
    ensures exists a :: Enabled(j, s, a)
  {
    match s.main
    case Spawning(_) => assert Enabled(j, s, Spawn);
    case Waiting(k) =>
      if k == j.n {
        assert Enabled(j, s, Write);
      } else if s.workers[k].Completed? {
        assert Enabled(j, s, Wait);
      } else {
        assert Enabled(j, s, Load(k)) || Enabled(j, s, Store(k)) || Enabled(j, s, Complete(k));
      }
  }

  /** Each action of the schedule is enabled when its turn comes. */
  ghost predicate Effective(j: Job, schedule: seq<Action>)
    requires j.Valid()
  {
    forall k | 0 <= k < |schedule| :: Enabled(j, Run(j, Initial(j), schedule[..k]), schedule[k])
  }

  lemma {:induction false} EffectiveCountsDown(j: Job, schedule: seq<Action>)
    requires j.Valid() && Effective(j, schedule)
    ensures StepsLeft(j, Run(j, Initial(j), schedule)) == 2 * |j.data| + 3 * j.n + 1 - |schedule|
    decreases |schedule|
  {
    if schedule == [] {
      TotalAtStart(j, j.n);
      RangesAdjoin(|j.data|, j.n, j.n - 1);
    } else {
      var k := |schedule| - 1;
      var before := schedule[..k];
      forall i | 0 <= i < k
        ensures Enabled(j, Run(j, Initial(j), before[..i]), before[i])
      {
        assert before[..i] == schedule[..i];
      }
      EffectiveCountsDown(j, before);
      RunKeepsInv(j, before);
      StepCountsDown(j, Run(j, Initial(j), before), schedule[k]);
    }
  }

  /** No deadlock and no livelock: a schedule of enabled actions can always be extended until the write,
      and it has reached the write exactly when it has 2*size + 3*threads + 1 actions. */
  lemma {:induction false} EveryScheduleFinishes(j: Job, schedule: seq<Action>)
    requires j.Valid() && Effective(j, schedule)
    ensures var s := Run(j, Initial(j), schedule);
            && |schedule| <= 2 * |j.data| + 3 * j.n + 1
            && (s.main.Wrote? <==> |schedule| == 2 * |j.data| + 3 * j.n + 1)
            && (!s.main.Wrote? ==> exists a :: Enabled(j, s, a))
  {
    EffectiveCountsDown(j, schedule);
    RunKeepsInv(j, schedule);
    var s := Run(j, Initial(j), schedule);
    TotalNonNegative(j, s, j.n);
    if !s.main.Wrote? { NeverStuck(j, s); }
  }

  // ---------------------------------------------------------------- the code, in place

  /** A worker's loop over its own range, run without interruption. */
  method XorWorker(buffer: array<bv8>, key: array<bv8>, start: nat, end: nat)
    requires buffer != key && key.Length > 0 && start <= end <= buffer.Length
    modifies buffer
    ensures forall i | 0 <= i < buffer.Length ::
              buffer[i] == if start <= i < end then old(buffer[i]) ^ key[i % key.Length] else old(buffer[i])
  {
    var i := start;
    while i < end
      invariant start <= i <= end
      invariant forall k | 0 <= k < buffer.Length ::
                  buffer[k] == if start <= k < i then old(buffer[k]) ^ key[k % key.Length] else old(buffer[k])
    {
      buffer[i] := buffer[i] ^ key[i % key.Length];
      i := i + 1;
    }
  }

  /** The driver over the shared buffer: every method is one atomic step of one thread, and takes the
      machine above one step further (or does nothing when the thread cannot move). */
  class Driver {
    const buffer: array<bv8>
    const key: array<bv8>
    const threadCount: nat
    ghost const job: Job
    var starts: seq<nat>
    var ends: seq<nat>
    var workers: seq<Worker>
    var main: Main

    ghost function View(): State
      reads this, buffer
    {
      State(buffer[..], workers, main)
    }

    ghost predicate Valid()
      reads this, buffer, key
    {
      && buffer != key && job.Valid() && job.key == key[..] && job.n == threadCount && |job.data| == buffer.Length
      && Inv(job, View())
      && |starts| == |ends| == threadCount
      && forall w | 0 <= w < threadCount :: !workers[w].Unborn? ==> starts[w] == job.Lo(w) && ends[w] == job.Hi(w)
    }

    constructor (buffer: array<bv8>, key: array<bv8>, threadCount: nat)
      requires buffer != key && key.Length > 0 && threadCount > 0
      ensures Valid() && this.buffer == buffer && this.key == key
      ensures job == Job(buffer[..], key[..], threadCount) && View() == Initial(job)
    {
      this.buffer, this.key, this.threadCount := buffer, key, threadCount;
      this.job := Job(buffer[..], key[..], threadCount);
      this.starts, this.ends := seq(threadCount, i => 0), seq(threadCount, i => 0);
      this.workers := seq(threadCount, i => Unborn);
      this.main := Spawning(0);
      new;
      InitialInv(job);
    }

    /** One round of the spawning loop: fill in the fragment, start the worker. */
    method SpawnNext()
      requires Valid()
      modifies this`starts, this`ends, this`workers, this`main
      ensures Valid() && View() == Step(job, old(View()), Spawn)
      ensures old(main).Spawning? ==>
                var i := old(main).next;
                && i < threadCount && starts[i] == i * (buffer.Length / threadCount)
                && ends[i] == (if i == threadCount - 1 then buffer.Length else (i + 1) * (buffer.Length / threadCount))
                && workers == old(workers)[i := Running(starts[i], None)]
    {
      StepKeepsInv(job, View(), Spawn);
      if main.Spawning? {
        var fragmentSize, extraBytes := buffer.Length / threadCount, buffer.Length % threadCount;
        var i := main.next;
        ghost var was := View();
        starts := starts[i := i * fragmentSize];
        ends := ends[i := if i == threadCount - 1 then (i + 1) * fragmentSize + extraBytes else (i + 1) * fragmentSize];
        workers := workers[i := Running(starts[i], None)];
        main := if i + 1 < threadCount then Spawning(i + 1) else Waiting(0);
        assert starts[i] == job.Lo(i) && ends[i] == job.Hi(i);
        RangesAdjoin(buffer.Length, threadCount, threadCount - 1);
        assert View() == Step(job, was, Spawn);
      }
    }

    method LoadByte(w: nat)
      requires Valid()
      modifies this`workers
      ensures Valid() && View() == Step(job, old(View()), Load(w))
      ensures w < threadCount && workers[w] != old(workers)[w] ==>
                && old(workers)[w].Running? && old(workers)[w].at < buffer.Length
                && workers[w] == Running(old(workers)[w].at, Some(buffer[old(workers)[w].at]))
    {
      StepKeepsInv(job, View(), Load(w));
      if w < threadCount && workers[w].Running? && workers[w].loaded.None? && workers[w].at < ends[w] {
        RangeInside(buffer.Length, threadCount, w);
        workers := workers[w := Running(workers[w].at, Some(buffer[workers[w].at]))];
      }
    }

    /** The store itself: the loaded byte, encrypted, goes back to where it came from. */
    method PutByte(w: nat)
      requires buffer != key && key.Length > 0 && w < |workers| && workers[w].Running? && workers[w].loaded.Some?
      requires workers[w].at < buffer.Length
      modifies this`workers, buffer
      ensures var Running(at, loaded) := old(workers)[w];
              && buffer[..] == old(buffer[..])[at := loaded.value ^ key[at % key.Length]]
              && workers == old(workers)[w := Running(at + 1, None)]
    {
      var at := workers[w].at;
      buffer[at] := workers[w].loaded.value ^ key[at % key.Length];
      workers := workers[w := Running(at + 1, None)];
    }

    method StoreByte(w: nat)
      requires Valid()
      modifies this`workers, buffer
      ensures Valid() && View() == Step(job, old(View()), Store(w))
    {
      StepKeepsInv(job, View(), Store(w));
      if w < threadCount && workers[w].Running? && workers[w].loaded.Some? {
        assert WorkerOk(job, workers[w], w);
        PutByte(w);
      }
    }

    method SignalCompletion(w: nat)
      requires Valid()
      modifies this`workers
      ensures Valid() && View() == Step(job, old(View()), Complete(w))
    {
      StepKeepsInv(job, View(), Complete(w));
      if w < threadCount && workers[w].Running? && workers[w].loaded.None? && workers[w].at >= ends[w] {
        workers := workers[w := Completed];
      }
    }

    method WaitForNext()
      requires Valid()
      modifies this`main
      ensures Valid() && View() == Step(job, old(View()), Wait)
    {
      StepKeepsInv(job, View(), Wait);
      if main.Waiting? && main.next < threadCount && workers[main.next].Completed? {
        main := Waiting(main.next + 1);
      }
    }

    method KernelWrite()
      requires Valid()
      modifies this`main
      ensures Valid() && View() == Step(job, old(View()), Write)
    {
      StepKeepsInv(job, View(), Write);
      if main.Waiting? && main.next == threadCount {
        main := Wrote(buffer[..]);
      }
    }
  }

  /** The partition, spawn, wait and write part of the driver, under any schedule. */
  method HandleFile(buffer: array<bv8>, key: array<bv8>, threadCount: nat, schedule: seq<Action>)
    returns (written: Option<Bytes>)
    requires buffer != key && key.Length > 0 && threadCount > 0
    modifies buffer
    ensures written.Some? ==> written.value == XorAll(old(buffer[..]), key[..]) && buffer[..] == written.value
    ensures written.Some? ==>
              && |written.value| == buffer.Length
              && forall i | 0 <= i < buffer.Length :: written.value[i] == old(buffer[i]) ^ key[i % key.Length]
    ensures var j := Job(old(buffer[..]), key[..], threadCount);
            written.Some? <==> Run(j, Initial(j), schedule).main.Wrote?
  {
    var d := new Driver(buffer, key, threadCount);
    for round := 0 to |schedule|
      invariant d.Valid() && fresh(d) && d.buffer == buffer && d.key == key
      invariant d.job == Job(old(buffer[..]), key[..], threadCount)
      invariant d.View() == Run(d.job, Initial(d.job), schedule[..round])
    {
      assert schedule[..round + 1][..round] == schedule[..round];
      match schedule[round] {
        case Spawn => d.SpawnNext();
        case Load(w) => d.LoadByte(w);
        case Store(w) => d.StoreByte(w);
        case Complete(w) => d.SignalCompletion(w);
        case Wait => d.WaitForNext();
        case Write => d.KernelWrite();
      }
    }
    assert schedule[..|schedule|] == schedule;
    match d.main {
      case Wrote(output) =>
        EveryScheduleRefinesSequentialPass(d.job, schedule);
        return Some(output);
      case _ => return None;
    }
  }
}
