/** A single-producer, single-consumer ring buffer without locks, for a 32-bit `size_t`.

    The two threads are interleaved one shared access at a time. A push is a fullness check,
    a store into the slot and an increment of the pushed count; a pop is an emptiness check,
    a load from the slot and an increment of the popped count. A store need not be atomic: any
    number of `PushScribbles` steps may leave arbitrary junk in the slot before it completes.
    Both counters are 32 bits wide, wrap around and are never reset.
 */
module LockFreeQueue {
  import opened Division
  import opened Options
  import opened Powers

  const WORD: nat := 0x1_0000_0000

  type Atomic32 = n: nat | n < WORD

  datatype Producer<T> = Idle | Storing(value: T) | Stored(value: T)

  datatype Consumer<T> = Resting | Loading | Loaded(value: T)

  /** `accepted` and `delivered` record the values whose push and pop completed, oldest first. */
  datatype State<T> = State(
    data: seq<T>,
    pushedCount: Atomic32,
    poppedCount: Atomic32,
    producer: Producer<T>,
    consumer: Consumer<T>,
    accepted: seq<T>,
    delivered: seq<T>)
  {
    function Capacity(): nat { |data| }

    predicate IsFull() { pushedCount == (poppedCount + |data|) % WORD }

    predicate IsEmpty() { pushedCount == poppedCount }

    function Size(): nat { (pushedCount - poppedCount) % WORD }

    function PushSlot(): nat
      requires |data| > 0
    {
      pushedCount % |data|
    }

    function PopSlot(): nat
      requires |data| > 0
    {
      poppedCount % |data|
    }
  }

  datatype Step<T> =
    | PushFails
    | PushChecks(value: T)
    | PushScribbles(junk: T)
    | PushStores
    | PushPublishes
    | PopFails
    | PopChecks
    | PopLoads
    | PopReleases
    | PeekReturns

  function Init<T>(data: seq<T>): State<T> {
    State(data, 0, 0, Idle, Resting, [], [])
  }

  predicate Enabled<T>(s: State<T>, step: Step<T>) {
    match step
    case PushFails => s.producer.Idle? && (s.Capacity() == 0 || s.IsFull())
    case PushChecks(_) => s.producer.Idle? && s.Capacity() > 0 && !s.IsFull()
    case PushScribbles(_) => s.producer.Storing? && s.Capacity() > 0
    case PushStores => s.producer.Storing? && s.Capacity() > 0
    case PushPublishes => s.producer.Stored?
    case PopFails => s.consumer.Resting? && (s.Capacity() == 0 || s.IsEmpty())
    case PopChecks => s.consumer.Resting? && s.Capacity() > 0 && !s.IsEmpty()
    case PopLoads => s.consumer.Loading? && s.Capacity() > 0
    case PopReleases => s.consumer.Loaded?
    case PeekReturns => s.consumer.Loaded?
  }

  function Apply<T>(s: State<T>, step: Step<T>): State<T>
    requires Enabled(s, step)
  {
    match step
    case PushFails => s
    case PushChecks(v) => s.(producer := Storing(v))
    case PushScribbles(junk) => s.(data := s.data[s.PushSlot() := junk])
    case PushStores =>
      s.(data := s.data[s.PushSlot() := s.producer.value], producer := Stored(s.producer.value))
    case PushPublishes =>
      s.(pushedCount := (s.pushedCount + 1) % WORD,
         producer := Idle,
         accepted := s.accepted + [s.producer.value])
    case PopFails => s
    case PopChecks => s.(consumer := Loading)
    case PopLoads => s.(consumer := Loaded(s.data[s.PopSlot()]))
    case PopReleases =>
      s.(poppedCount := (s.poppedCount + 1) % WORD,
         consumer := Resting,
         delivered := s.delivered + [s.consumer.value])
    case PeekReturns => s.(consumer := Resting)
  }

  /** A run is any list of steps, of either thread in any order, each enabled when it is taken. */
  predicate ValidRun<T>(s: State<T>, steps: seq<Step<T>>)
    decreases |steps|
  {
    steps == [] || (Enabled(s, steps[0]) && ValidRun(Apply(s, steps[0]), steps[1..]))
  }

  function After<T>(s: State<T>, steps: seq<Step<T>>): State<T>
    requires ValidRun(s, steps)
    decreases |steps|
  {
    if steps == [] then s else After(Apply(s, steps[0]), steps[1..])
  }

  // ---------------------------------------------------------------- invariants

  /** The wrapped counters stand for true totals at most one capacity apart. */
  ghost predicate CountInv<T>(s: State<T>) {
    && |s.data| < WORD
    && s.pushedCount == |s.accepted| % WORD
    && s.poppedCount == |s.delivered| % WORD
    && |s.delivered| <= |s.accepted| <= |s.delivered| + |s.data|
    && (!s.producer.Idle? ==> |s.accepted| < |s.delivered| + |s.data|)
    && (!s.consumer.Resting? ==> |s.delivered| < |s.accepted|)
  }

  /** Every value still queued sits in the slot of its true sequence number. */
  ghost predicate DataInv<T>(s: State<T>) {
    && s.delivered <= s.accepted
    && (|s.data| > 0 ==>
          forall k :: |s.delivered| <= k < |s.accepted| ==> s.data[k % |s.data|] == s.accepted[k])
    && (s.producer.Stored? && |s.data| > 0 ==>
          s.data[|s.accepted| % |s.data|] == s.producer.value)
    && (s.consumer.Loaded? && |s.delivered| < |s.accepted| ==>
          s.consumer.value == s.accepted[|s.delivered|])
  }

  /** The sequence numbers given out so far, counting a push that is under way. */
  ghost function Claimed<T>(s: State<T>): nat {
    |s.accepted| + if s.producer.Idle? then 0 else 1
  }

  /** Reducing a wrapped counter modulo the capacity loses nothing: either the capacity divides
      the word size (it is a power of two), or the pushed count has not wrapped yet. */
  ghost predicate SlotsExact<T>(s: State<T>) {
    |s.data| == 0 || WORD % |s.data| == 0 || Claimed(s) <= WORD
  }

  // ---------------------------------------------------------------- arithmetic

  /** Two numbers less than one modulus apart are congruent only when equal. */
  lemma DistinctMod(i: nat, j: nat, m: nat)
    requires m > 0 && i <= j < i + m
    ensures i % m == j % m <==> i == j
  {
    if i % m == j % m && i < j {
      assert j - i == (j / m - i / m) * m;
      ModUnique(j - i, 0, m);
      ModUnique(j - i, j / m - i / m, m);
      assert false;
    }
  }

  lemma WrapExact(k: nat, m: nat)
    requires m > 0 && (WORD % m == 0 || k < WORD)
    ensures (k % WORD) % m == k % m
  {
    if k >= WORD {
      var w, q := WORD / m, k / WORD;
      assert WORD == w * m;
      assert k == q * WORD + k % WORD;
      var r := k % WORD;
      assert q * WORD == (q * w) * m by { assert q * (w * m) == (q * w) * m; }
      ModUnique(k, q * w + r / m, m) by {
        assert (q * w + r / m) * m == (q * w) * m + (r / m) * m;
        assert r == (r / m) * m + r % m;
      }
      assert (q * w + r / m) * m == (q * w) * m + (r / m) * m;
    }
  }

  /** Full, empty and the size are read off the wrapped counters correctly, for every capacity
      and any number of pushes. */
  lemma CountersTellTheTruth<T>(s: State<T>)
    requires CountInv(s)
    ensures s.IsFull() <==> |s.accepted| == |s.delivered| + s.Capacity()
    ensures s.IsEmpty() <==> |s.accepted| == |s.delivered|
    ensures s.Size() == |s.accepted| - |s.delivered| <= s.Capacity()
  {
    var p, q, n := |s.accepted|, |s.delivered|, s.Capacity();
    assert s.Size() == p - q by {
      var d := p / WORD - q / WORD;
      assert p % WORD - q % WORD == (p - q) - d * WORD;
      ModUnique(p % WORD - q % WORD, -d, WORD);
    }
    assert (q % WORD + n) % WORD == (q + n) % WORD by {
      var r := q % WORD + n;
      assert q + n == r + (q / WORD) * WORD;
      ModUnique(q + n, q / WORD + r / WORD, WORD);
    }
    DistinctMod(p, q + n, WORD);
    DistinctMod(q, p, WORD);
  }

  // ---------------------------------------------------------------- every step of every run

  lemma StepKeepsCounts<T>(s: State<T>, step: Step<T>)
    requires CountInv(s) && Enabled(s, step)
    ensures CountInv(Apply(s, step))
    ensures Claimed(s) <= Claimed(Apply(s, step))
  {
    CountersTellTheTruth(s);
    match step
    case PushPublishes => WrapSuccessor(|s.accepted|);
    case PopReleases => WrapSuccessor(|s.delivered|);
    case _ =>
  }

  lemma WrapSuccessor(n: nat)
    ensures (n % WORD + 1) % WORD == (n + 1) % WORD
  {
  }

  /** No step ever writes the slot that the other thread is about to read, or has just filled:
      a store lands outside every queued value, so none is lost, duplicated or torn. */
  lemma StoreMissesQueued<T>(s: State<T>, k: nat)
    requires CountInv(s) && SlotsExact(s) && !s.producer.Idle? && |s.data| > 0
    requires |s.delivered| <= k < |s.accepted|
    ensures s.PushSlot() == |s.accepted| % |s.data|
    ensures s.PushSlot() != k % |s.data|
  {
    WrapExact(|s.accepted|, |s.data|);
    DistinctMod(k, |s.accepted|, |s.data|);
  }

  lemma LoadHitsOldest<T>(s: State<T>)
    requires CountInv(s) && SlotsExact(s) && |s.data| > 0 && |s.delivered| < |s.accepted|
    ensures s.PopSlot() == |s.delivered| % |s.data|
  {
    WrapExact(|s.delivered|, |s.data|);
  }

  lemma StepKeepsData<T>(s: State<T>, step: Step<T>)
    requires CountInv(s) && DataInv(s) && SlotsExact(s) && Enabled(s, step)
    ensures DataInv(Apply(s, step))
  {
    var t := Apply(s, step);
    match step
    case PushScribbles(_) =>
      forall k | |t.delivered| <= k < |t.accepted|
        ensures t.data[k % |t.data|] == t.accepted[k]
      {
        StoreMissesQueued(s, k);
      }
    case PushStores =>
      WrapExact(|s.accepted|, |s.data|);
      forall k | |t.delivered| <= k < |t.accepted|
        ensures t.data[k % |t.data|] == t.accepted[k]
      {
        StoreMissesQueued(s, k);
      }
    case PopLoads => LoadHitsOldest(s);
    case PopReleases =>
      assert t.delivered == s.accepted[..|s.delivered| + 1];
    case _ =>
  }

  lemma {:induction false} RunKeepsCounts<T>(s: State<T>, steps: seq<Step<T>>)
    requires CountInv(s) && ValidRun(s, steps)
    ensures CountInv(After(s, steps))
    ensures Claimed(s) <= Claimed(After(s, steps)) && |s.delivered| <= |After(s, steps).delivered|
    ensures After(s, steps).Capacity() == s.Capacity()
    decreases |steps|
  {
    if steps != [] {
      StepKeepsCounts(s, steps[0]);
      RunKeepsCounts(Apply(s, steps[0]), steps[1..]);
    }
  }

  lemma {:induction false} RunKeepsData<T>(s: State<T>, steps: seq<Step<T>>)
    requires CountInv(s) && DataInv(s) && ValidRun(s, steps)
    requires SlotsExact(After(s, steps))
    ensures DataInv(After(s, steps))
    decreases |steps|
  {
    RunKeepsCounts(s, steps);
    if steps != [] {
      StepKeepsCounts(s, steps[0]);
      RunKeepsCounts(Apply(s, steps[0]), steps[1..]);
      StepKeepsData(s, steps[0]);
      RunKeepsData(Apply(s, steps[0]), steps[1..]);
    }
  }

  /** In every interleaving the popped values are a prefix of the pushed ones, in order, and the
      next value to be popped is the one a peek sees. */
  lemma FifoInEveryRun<T>(data: seq<T>, steps: seq<Step<T>>)
    requires |data| < WORD && ValidRun(Init(data), steps)
    requires SlotsExact(After(Init(data), steps))
    ensures var s := After(Init(data), steps);
      && s.delivered <= s.accepted
      && |s.accepted| <= |s.delivered| + |data|
      && (s.consumer.Loaded? ==>
            |s.delivered| < |s.accepted| && s.consumer.value == s.accepted[|s.delivered|])
  {
    RunKeepsCounts(Init(data), steps);
    RunKeepsData(Init(data), steps);
  }

  /** While both threads are inside their operations they are at different slots. */
  lemma RaceFreeInEveryRun<T>(data: seq<T>, steps: seq<Step<T>>)
    requires |data| < WORD && ValidRun(Init(data), steps)
    requires SlotsExact(After(Init(data), steps))
    ensures var s := After(Init(data), steps);
      !s.producer.Idle? && !s.consumer.Resting? ==> |s.data| > 0 && s.PushSlot() != s.PopSlot()
  {
    var s := After(Init(data), steps);
    RunKeepsCounts(Init(data), steps);
    if !s.producer.Idle? && !s.consumer.Resting? {
      LoadHitsOldest(s);
      StoreMissesQueued(s, |s.delivered|);
    }
  }

  /** In every run, for every capacity and past any number of wraps, the tests for full and empty
      are right and `Size()` is the number of queued values, at most the capacity. */
  lemma CountersInEveryRun<T>(data: seq<T>, steps: seq<Step<T>>)
    requires |data| < WORD && ValidRun(Init(data), steps)
    ensures var s := After(Init(data), steps);
      && s.Size() == |s.accepted| - |s.delivered| <= |data|
      && (s.IsFull() <==> s.Size() == |data|)
      && (s.IsEmpty() <==> s.Size() == 0)
  {
    RunKeepsCounts(Init(data), steps);
    CountersTellTheTruth(After(Init(data), steps));
  }

  /** `Size()` reads the two counters one after the other, in an order the compiler chooses. With
      `steps` happening in between, reading the pushed count first is in range exactly when the pops
      have not passed the pushes seen by then (short of popping another 2^32 - capacity values). */
  lemma SizeReadInTwoSteps<T>(s: State<T>, steps: seq<Step<T>>)
    requires CountInv(s) && ValidRun(s, steps)
    requires |After(s, steps).delivered| < |s.accepted| + WORD - s.Capacity()
    ensures (s.pushedCount - After(s, steps).poppedCount) % WORD <= s.Capacity()
            <==> |After(s, steps).delivered| <= |s.accepted|
  {
    RunKeepsCounts(s, steps);
    WrappedDifference(|s.accepted|, |After(s, steps).delivered|);
  }

  /** Reading the popped count first is in range exactly when the pushes have not run ahead of it by
      more than the capacity (short of 2^32 of them). */
  lemma SizeReadPoppedFirst<T>(s: State<T>, steps: seq<Step<T>>)
    requires CountInv(s) && ValidRun(s, steps)
    requires |After(s, steps).accepted| < |s.delivered| + WORD
    ensures (After(s, steps).pushedCount - s.poppedCount) % WORD <= s.Capacity()
            <==> |After(s, steps).accepted| <= |s.delivered| + s.Capacity()
  {
    RunKeepsCounts(s, steps);
    RunGrows(s, steps);
    WrappedDifference(|After(s, steps).accepted|, |s.delivered|);
  }

  lemma WrappedDifference(p: nat, q: nat)
    requires p < q + WORD && q <= p + WORD
    ensures (p % WORD - q % WORD) % WORD == if q <= p then p - q else p - q + WORD
  {
    var d := p / WORD - q / WORD;
    assert p % WORD - q % WORD == (p - q) - d * WORD;
    ModUnique(p % WORD - q % WORD, if q <= p then -d else -d - 1, WORD);
  }

  lemma {:induction false} RunGrows<T>(s: State<T>, steps: seq<Step<T>>)
    requires ValidRun(s, steps)
    ensures |s.accepted| <= |After(s, steps).accepted| && |s.delivered| <= |After(s, steps).delivered|
    ensures (forall step :: step in steps ==> !step.PushPublishes?) ==> After(s, steps).accepted == s.accepted
    ensures (forall step :: step in steps ==> !step.PopReleases?) ==> After(s, steps).delivered == s.delivered
    decreases |steps|
  {
    if steps != [] {
      assert steps[0] in steps;
      RunGrows(Apply(s, steps[0]), steps[1..]);
    }
  }

  /** While the producer asks for the size nothing is pushed, so whichever count it reads first, the
      size it gets is the true one at the moment it reads the popped count, at most the capacity. */
  lemma SizeReadByProducer<T>(s: State<T>, steps: seq<Step<T>>)
    requires CountInv(s) && ValidRun(s, steps)
    requires forall step :: step in steps ==> !step.PushPublishes?
    ensures var t := After(s, steps);
      && (s.pushedCount - t.poppedCount) % WORD == |t.accepted| - |t.delivered| <= s.Capacity()
      && (t.pushedCount - s.poppedCount) % WORD == |s.accepted| - |s.delivered| <= s.Capacity()
  {
    RunKeepsCounts(s, steps);
    RunGrows(s, steps);
    WrappedDifference(|s.accepted|, |After(s, steps).delivered|);
    WrappedDifference(|s.accepted|, |s.delivered|);
  }

  /** While the consumer asks nothing is popped, so the size it gets is the true one at the moment it
      reads the pushed count, at most the capacity. */
  lemma SizeReadByConsumer<T>(s: State<T>, steps: seq<Step<T>>)
    requires CountInv(s) && ValidRun(s, steps)
    requires forall step :: step in steps ==> !step.PopReleases?
    ensures var t := After(s, steps);
      && (s.pushedCount - t.poppedCount) % WORD == |s.accepted| - |s.delivered| <= s.Capacity()
      && (t.pushedCount - s.poppedCount) % WORD == |t.accepted| - |t.delivered| <= s.Capacity()
  {
    RunKeepsCounts(s, steps);
    RunGrows(s, steps);
    WrappedDifference(|s.accepted|, |s.delivered|);
    WrappedDifference(|After(s, steps).accepted|, |s.delivered|);
  }

  // ---------------------------------------------------------------- when the wrap breaks it

  lemma {:induction false} RunConcat<T>(s: State<T>, first: seq<Step<T>>, second: seq<Step<T>>)
    requires ValidRun(s, first) && ValidRun(After(s, first), second)
    ensures ValidRun(s, first + second)
    ensures After(s, first + second) == After(After(s, first), second)
    decreases |first|
  {
    if first == [] {
      assert first + second == second;
    } else {
      assert (first + second)[1..] == first[1..] + second;
      RunConcat(Apply(s, first[0]), first[1..], second);
    }
  }

  function PushRun<T>(value: T): seq<Step<T>> { [PushChecks(value), PushStores, PushPublishes] }

  function PopRun<T>(): seq<Step<T>> { [PopChecks, PopLoads, PopReleases] }

  ghost predicate Quiet<T>(s: State<T>) {
    CountInv(s) && s.producer.Idle? && s.consumer.Resting?
  }

  function Pushed<T>(s: State<T>, value: T): State<T>
    requires s.Capacity() > 0
  {
    s.(data := s.data[s.PushSlot() := value],
       pushedCount := (s.pushedCount + 1) % WORD,
       accepted := s.accepted + [value])
  }

  function Popped<T>(s: State<T>): State<T>
    requires s.Capacity() > 0
  {
    s.(poppedCount := (s.poppedCount + 1) % WORD,
       delivered := s.delivered + [s.data[s.PopSlot()]])
  }

  lemma PushRunEffect<T>(s: State<T>, value: T)
    requires Quiet(s) && |s.accepted| < |s.delivered| + s.Capacity()
    ensures ValidRun(s, PushRun(value))
    ensures After(s, PushRun(value)) == Pushed(s, value)
    ensures Quiet(Pushed(s, value))
  {
    CountersTellTheTruth(s);
    RunUnfolds3(s, PushChecks(value), PushStores, PushPublishes);
    RunKeepsCounts(s, PushRun(value));
  }

  lemma PopRunEffect<T>(s: State<T>)
    requires Quiet(s) && |s.delivered| < |s.accepted|
    ensures ValidRun(s, PopRun())
    ensures After(s, PopRun()) == Popped(s)
    ensures Quiet(Popped(s))
  {
    CountersTellTheTruth(s);
    RunUnfolds3(s, PopChecks, PopLoads, PopReleases);
    RunKeepsCounts(s, PopRun());
  }

  /** `n` rounds of pushing `a` and popping it again. */
  lemma {:induction false} RoundsOf<T>(data: seq<T>, a: T, n: nat) returns (steps: seq<Step<T>>)
    requires 0 < |data| < WORD
    ensures ValidRun(Init(data), steps)
    ensures var s := After(Init(data), steps);
      Quiet(s) && s.Capacity() == |data| && |s.accepted| == |s.delivered| == n
  {
    if n == 0 {
      steps := [];
    } else {
      var before := RoundsOf(data, a, n - 1);
      var s := After(Init(data), before);
      PushRunEffect(s, a);
      var t := Pushed(s, a);
      PopRunEffect(t);
      RunConcat(Init(data), before, PushRun(a));
      RunConcat(Init(data), before + PushRun(a), PopRun());
      steps := before + PushRun(a) + PopRun();
    }
  }

  /** A third thread can get a size out of range, in either order of its reads: a value pushed and
      popped in between makes it wrap, and one more than the capacity pushed in between makes it too
      large. */
  lemma ThirdThreadMisreads<T>(data: seq<T>, a: T) returns (one: seq<Step<T>>, many: seq<Step<T>>)
    requires 0 < |data| < WORD - 1
    ensures ValidRun(Init(data), one) && ValidRun(Init(data), many)
    ensures (Init(data).pushedCount - After(Init(data), one).poppedCount) % WORD > |data|
    ensures (After(Init(data), many).pushedCount - Init(data).poppedCount) % WORD > |data|
  {
    one := RoundsOf(data, a, 1);
    many := RoundsOf(data, a, |data| + 1);
  }

  /** Whether a size whose counts are read with `steps` in between is in range, in either order. */
  ghost predicate ReadInRange<T>(s: State<T>, steps: seq<Step<T>>)
    requires ValidRun(s, steps)
  {
    && (s.pushedCount - After(s, steps).poppedCount) % WORD <= s.Capacity()
    && (After(s, steps).pushedCount - s.poppedCount) % WORD <= s.Capacity()
  }

  lemma {:induction false} NothingMovesWithoutSlots<T>(s: State<T>, steps: seq<Step<T>>)
    requires CountInv(s) && s.Capacity() == 0 && ValidRun(s, steps)
    ensures After(s, steps).pushedCount == s.pushedCount && After(s, steps).poppedCount == s.poppedCount
    decreases |steps|
  {
    if steps != [] {
      StepKeepsCounts(s, steps[0]);
      NothingMovesWithoutSlots(Apply(s, steps[0]), steps[1..]);
    }
  }

  /** Whether any thread that reads the size after `before`, with `steps` in between, gets it in range. */
  ghost predicate AlwaysInRange<T(!new)>(data: seq<T>) {
    forall before: seq<Step<T>>, steps: seq<Step<T>> ::
      ValidRun(Init(data), before) && ValidRun(After(Init(data), before), steps) ==>
        ReadInRange(After(Init(data), before), steps)
  }

  lemma OutOfRangeOnce<T(!new)>(data: seq<T>, before: seq<Step<T>>, steps: seq<Step<T>>)
    requires before == [] && ValidRun(Init(data), steps) && !ReadInRange(Init(data), steps)
    ensures !AlwaysInRange(data)
  {
    assert ValidRun(Init(data), before) && After(Init(data), before) == Init(data);
    assert !ReadInRange(After(Init(data), before), steps);
  }

  /** The promised range of the size holds for every thread only of a queue without slots or with
      as many as the counters can count. */
  lemma SizeInRangeForAllExactly<T(!new)>(data: seq<T>, a: T)
    requires |data| < WORD
    ensures AlwaysInRange(data) <==> |data| == 0 || |data| == 0xFFFF_FFFF
  {
    if 0 < |data| < WORD - 1 {
      var one, many := ThirdThreadMisreads(data, a);
      OutOfRangeOnce(data, [], one);
    } else {
      forall before: seq<Step<T>>, steps: seq<Step<T>>
        | ValidRun(Init(data), before) && ValidRun(After(Init(data), before), steps)
        ensures ReadInRange(After(Init(data), before), steps)
      {
        RunKeepsCounts(Init(data), before);
        RunKeepsCounts(After(Init(data), before), steps);
        if |data| == 0 {
          NothingMovesWithoutSlots(Init(data), before);
          NothingMovesWithoutSlots(After(Init(data), before), steps);
        }
      }
    }
  }

  lemma OffsetSlot(base: nat, k: nat, m: nat)
    requires m > 0 && base % m == 0 && k < m
    ensures (base + k) % m == k
  {
    assert base == (base / m) * m;
    ModUnique(base + k, base / m, m);
  }

  /** `n` values queued since an aligned sequence number `base`, the first of them `a` in slot 0. */
  ghost predicate FilledTo<T>(s: State<T>, capacity: nat, base: nat, a: T, n: nat) {
    && Quiet(s) && s.Capacity() == capacity
    && |s.delivered| == base && |s.accepted| == base + n
    && (n > 0 ==> s.data[0] == a && s.accepted[base] == a)
  }

  lemma PushIntoNextSlot<T>(s: State<T>, capacity: nat, base: nat, a: T, n: nat)
    requires FilledTo(s, capacity, base, a, n) && n < capacity
    requires s.PushSlot() == n && Quiet(Pushed(s, a))
    ensures FilledTo(Pushed(s, a), capacity, base, a, n + 1)
  {
  }

  lemma NextSlot<T>(s: State<T>, capacity: nat, base: nat, a: T, n: nat)
    requires FilledTo(s, capacity, base, a, n)
    requires n < capacity && base % capacity == 0 && base + n < WORD
    ensures s.PushSlot() == n
  {
    OffsetSlot(base, n, capacity);
  }

  lemma FillOneMore<T>(s: State<T>, capacity: nat, base: nat, a: T, n: nat)
    requires FilledTo(s, capacity, base, a, n)
    requires n < capacity && base % capacity == 0 && base + n < WORD
    ensures ValidRun(s, PushRun(a)) && FilledTo(After(s, PushRun(a)), capacity, base, a, n + 1)
  {
    NextSlot(s, capacity, base, a, n);
    PushRunEffect(s, a);
    PushIntoNextSlot(s, capacity, base, a, n);
  }

  lemma {:induction false} FillUp<T>(data: seq<T>, start: seq<Step<T>>, base: nat, a: T, n: nat)
    returns (steps: seq<Step<T>>)
    requires ValidRun(Init(data), start) && FilledTo(After(Init(data), start), |data|, base, a, 0)
    requires n < |data| && base % |data| == 0 && base + n <= WORD
    ensures ValidRun(Init(data), steps) && FilledTo(After(Init(data), steps), |data|, base, a, n)
  {
    if n == 0 {
      steps := start;
    } else {
      var before := FillUp(data, start, base, a, n - 1);
      FillOneMore(After(Init(data), before), |data|, base, a, n - 1);
      RunConcat(Init(data), before, PushRun(a));
      steps := before + PushRun(a);
    }
  }

  /** A capacity that does not divide 2^32 loses a value at the wrap: the push that takes sequence
      number 2^32 lands in slot 0, which still holds an older queued value. */
  lemma WrapOverwrites<T>(data: seq<T>, a: T, b: T) returns (steps: seq<Step<T>>)
    requires 0 < |data| < WORD && WORD % |data| != 0
    ensures ValidRun(Init(data), steps)
    ensures var s := After(Init(data), steps);
      exists k :: 0 <= k < |s.delivered| <= |s.accepted| && s.accepted[k] == a && s.delivered[k] == b
  {
    var n := WORD % |data|;
    var balanced := RoundsOf(data, a, WORD - n);
    assert (WORD - n) % |data| == 0 by {
      assert WORD - n == (WORD / |data|) * |data|;
      ModUnique(WORD - n, WORD / |data|, |data|);
    }
    var filled := FillUp(data, balanced, WORD - n, a, n);
    var s := After(Init(data), filled);
    PushRunEffect(s, b);
    RunConcat(Init(data), filled, PushRun(b));
    var t := Pushed(s, b);
    assert s.PushSlot() == 0;
    PopRunEffect(t);
    RunConcat(Init(data), filled + PushRun(b), PopRun());
    steps := filled + PushRun(b) + PopRun();
    var u := Popped(t);
    assert t.PopSlot() == 0;
    assert u.accepted[WORD - n] == a && u.delivered[WORD - n] == b;
  }

  predicate PowerOfTwo(n: nat) { n == 1 || (n > 0 && n % 2 == 0 && PowerOfTwo(n / 2)) }

  lemma HalfRemainder(a: nat, b: nat)
    requires b > 0
    ensures (2 * a) % (2 * b) == 2 * (a % b)
  {
    var q := a / b;
    assert a == q * b + a % b;
    assert q * (2 * b) == 2 * (q * b);
    ModUnique(2 * a, q, 2 * b);
  }

  lemma TimesOdd(q: nat, h: nat)
    ensures q * (2 * h + 1) == 2 * (q * h) + q && (2 * q) * h == 2 * (q * h)
  {
  }

  lemma ExactQuotient(a: nat, n: nat) returns (q: nat)
    requires n > 0 && a % n == 0
    ensures a == q * n
  {
    q := a / n;
  }

  lemma OddQuotient(h: nat, half: nat, q: nat)
    requires 2 * half == q * (2 * h + 1)
    ensures half == (q / 2) * (2 * h + 1)
  {
    TimesOdd(q, h);
    TimesOdd(q / 2, h);
    assert q == 2 * (q / 2);
  }

  /** An odd number that divides an even one divides its half. */
  lemma OddDividesHalf(h: nat, half: nat)
    requires (2 * half) % (2 * h + 1) == 0
    ensures half % (2 * h + 1) == 0
  {
    var q := ExactQuotient(2 * half, 2 * h + 1);
    OddQuotient(h, half, q);
    ModUnique(half, q / 2, 2 * h + 1);
  }

  lemma {:induction false} DividesPower(n: nat, k: nat)
    requires n > 0
    ensures Pow2(k) % n == 0 <==> PowerOfTwo(n) && n <= Pow2(k)
    decreases k
  {
    if k > 0 && n > 1 {
      if n % 2 == 0 {
        DividesPower(n / 2, k - 1);
        HalfRemainder(Pow2(k - 1), n / 2);
      } else {
        DividesPower(n, k - 1);
        if Pow2(k) % n == 0 {
          OddDividesHalf(n / 2, Pow2(k - 1));
        }
      }
    }
  }

  /** The exact condition on the capacity: the queue is first-in first-out in every run precisely
      when the capacity is a power of two, and so divides 2^32. */
  lemma FifoExactlyForPowersOfTwo<T(!new)>(data: seq<T>, a: T, b: T)
    requires 0 < |data| < WORD && a != b
    ensures (forall steps: seq<Step<T>> :: ValidRun(Init(data), steps) ==>
               After(Init(data), steps).delivered <= After(Init(data), steps).accepted)
            <==> PowerOfTwo(|data|)
  {
    Pow2Of32();
    DividesPower(|data|, 32);
    if WORD % |data| == 0 {
      forall steps: seq<Step<T>> | ValidRun(Init(data), steps)
        ensures After(Init(data), steps).delivered <= After(Init(data), steps).accepted
      {
        RunKeepsCounts(Init(data), steps);
        FifoInEveryRun(data, steps);
      }
    } else {
      var bad := WrapOverwrites(data, a, b);
    }
  }

  // ---------------------------------------------------------------- the class

  lemma RunUnfolds3<T>(s: State<T>, a: Step<T>, b: Step<T>, c: Step<T>)
    requires Enabled(s, a) && Enabled(Apply(s, a), b) && Enabled(Apply(Apply(s, a), b), c)
    ensures ValidRun(s, [a, b, c])
    ensures After(s, [a, b, c]) == Apply(Apply(Apply(s, a), b), c)
  {
    var s1 := Apply(s, a);
    var s2 := Apply(s1, b);
    var s3 := Apply(s2, c);
    assert [a, b, c][1..] == [b, c] && [b, c][1..] == [c];
    assert ValidRun(s3, []) && After(s3, []) == s3;
    assert ValidRun(s2, [c]) && After(s2, [c]) == s3;
    assert ValidRun(s1, [b, c]) && After(s1, [b, c]) == s3;
  }

  lemma RunKeepsInvariant<T>(s: State<T>, steps: seq<Step<T>>)
    requires CountInv(s) && (SlotsExact(s) ==> DataInv(s)) && ValidRun(s, steps)
    ensures CountInv(After(s, steps))
    ensures SlotsExact(After(s, steps)) ==> DataInv(After(s, steps))
  {
    RunKeepsCounts(s, steps);
    if SlotsExact(After(s, steps)) {
      RunKeepsData(s, steps);
    }
  }

  /** The queue itself. The ghost fields record where each thread is and what has gone through;
      `View` is the state of the machine above, and each operation, left undisturbed, takes
      exactly the steps listed in its contract. */
  class FixedSizeLockFreeQueue<T(0)> {
    var pushedCount: Atomic32
    var poppedCount: Atomic32
    var capacity: nat
    var data: array<T>
    ghost var producer: Producer<T>
    ghost var consumer: Consumer<T>
    ghost var accepted: seq<T>
    ghost var delivered: seq<T>

    ghost function View(): State<T>
      reads this, data
    {
      State(data[..], pushedCount, poppedCount, producer, consumer, accepted, delivered)
    }

    ghost predicate Valid()
      reads this, data
    {
      capacity == data.Length && CountInv(View()) && (SlotsExact(View()) ==> DataInv(View()))
    }

    constructor (capacity: nat)
      requires capacity < WORD
      ensures Valid() && fresh(data) && this.capacity == capacity
      ensures View() == Init(data[..])
    {
      pushedCount, poppedCount, this.capacity := 0, 0, capacity;
      data := new T[capacity];
      producer, consumer, accepted, delivered := Idle, Resting, [], [];
    }

    predicate IsFull()
      reads this
    {
      pushedCount == (poppedCount + capacity) % WORD
    }

    predicate IsEmpty()
      reads this
    {
      pushedCount == poppedCount
    }

    function Size(): (size: nat)
      requires Valid()
      reads this, data
      ensures size == |accepted| - |delivered| <= capacity
    {
      CountersTellTheTruth(View());
      (pushedCount - poppedCount) % WORD
    }

    method PushBack(value: T) returns (ok: bool)
      requires Valid() && producer.Idle?
      modifies this, data
      ensures Valid() && data == old(data) && producer.Idle?
      ensures ok <==> old(|accepted| - |delivered| < capacity)
      ensures !ok ==> Enabled(old(View()), PushFails) && View() == Apply(old(View()), PushFails)
      ensures ok ==> ValidRun(old(View()), PushRun(value)) && View() == After(old(View()), PushRun(value))
    {
      ghost var s := View();
      CountersTellTheTruth(s);
      if capacity == 0 {
        return false;
      }
      if IsFull() {
        return false;
      }
      producer := Storing(value);
      data[pushedCount % capacity] := value;
      producer := Stored(value);
      assert View() == Apply(Apply(s, PushChecks(value)), PushStores);
      pushedCount := (pushedCount + 1) % WORD;
      producer, accepted := Idle, accepted + [value];
      RunUnfolds3(s, PushChecks(value), PushStores, PushPublishes);
      RunKeepsInvariant(s, PushRun(value));
      ok := true;
    }

    method PeekFront() returns (value: Option<T>)
      requires Valid() && consumer.Resting?
      ensures value.Some? <==> |delivered| < |accepted|
      ensures value.Some? && SlotsExact(View()) ==> value.value == accepted[|delivered|]
      ensures value.Some? ==> capacity > 0 && value.value == data[poppedCount % capacity]
    {
      CountersTellTheTruth(View());
      if capacity == 0 {
        return None;
      }
      if IsEmpty() {
        return None;
      }
      if SlotsExact(View()) {
        LoadHitsOldest(View());
      }
      value := Some(data[poppedCount % capacity]);
    }

    method PopFront() returns (value: Option<T>)
      requires Valid() && consumer.Resting?
      modifies this
      ensures Valid() && data == old(data) && consumer.Resting?
      ensures value.Some? <==> old(|delivered| < |accepted|)
      ensures value.None? ==> Enabled(old(View()), PopFails) && View() == Apply(old(View()), PopFails)
      ensures value.Some? ==> ValidRun(old(View()), PopRun()) && View() == After(old(View()), PopRun())
      ensures value.Some? ==> delivered == old(delivered) + [value.value]
    {
      ghost var s := View();
      CountersTellTheTruth(s);
      value := PeekFront();
      if value.Some? {
        consumer := Loaded(value.value);
        assert View() == Apply(Apply(s, PopChecks), PopLoads);
        poppedCount := (poppedCount + 1) % WORD;
        consumer, delivered := Resting, delivered + [value.value];
        RunUnfolds3(s, PopChecks, PopLoads, PopReleases);
        RunKeepsInvariant(s, PopRun());
      }
    }
  }
}
