/** Leaky buckets: counters of faults that run down with time and raise an alarm above a threshold. */
module LeakyBucket {
  import opened Words

  // --- Values -------------------------------------------------------------------------------------

  /** The countdown is the 32-bit uptime at which it was started, and its length. */
  datatype Counter = Counter(count: word, threshold: word, startTime: word, timeout: word)

  function Started(c: Counter, now: nat): Counter { c.(startTime := now % WORD) }

  predicate TimedOut(c: Counter, now: nat) { (now % WORD - c.startTime) % WORD >= c.timeout }

  function Increment(c: Counter, amount: word, now: nat): Counter {
    var d := if c.count == 0 then Started(c, now) else c;
    d.(count := (c.count + amount) % WORD)
  }

  /** Over the threshold, the counter starts again. */
  function AboveThreshold(c: Counter): (Counter, bool) {
    if c.count > c.threshold then (c.(count := 0), true) else (c, false)
  }

  function IncrementAndCheck(c: Counter, amount: word, now: nat): (Counter, bool) {
    AboveThreshold(Increment(c, amount, now))
  }

  function CheckForDecrement(c: Counter, now: nat): (Counter, bool) {
    if !TimedOut(c, now) then (c, false)
    else if c.count > 0 then (Started(c, now).(count := c.count - 1), true)
    else (Started(c, now), false)
  }

  function Clear(c: Counter): Counter { c.(count := 0) }

  // --- What a counter's value means -----------------------------------------------------------------

  datatype Tick = Up(amount: nat) | Down

  /** Up counts minus down counts. */
  function Net(h: seq<Tick>): int {
    if h == [] then 0
    else Net(h[..|h| - 1]) + (match h[|h| - 1] case Up(n) => n case Down => -1)
  }

  /** A bucket that never goes below empty. */
  function Level(h: seq<Tick>): nat {
    if h == [] then 0
    else
      var before := Level(h[..|h| - 1]);
      match h[|h| - 1]
      case Up(n) => before + n
      case Down => if before == 0 then 0 else before - 1
  }

  lemma NetAppend(h: seq<Tick>, t: Tick, k: nat)
    requires k <= |h|
    ensures (h + [t])[k..] == h[k..] + [t]
    ensures Net((h + [t])[k..]) == Net(h[k..]) + (match t case Up(n) => n case Down => -1)
  {
    assert (h[k..] + [t])[..|h| - k] == h[k..];
  }

  /** The level is the greatest excess of ups over downs that any end of the history has. */
  lemma {:induction false} LevelIsWorstSuffix(h: seq<Tick>)
    ensures forall k :: 0 <= k <= |h| ==> Net(h[k..]) <= Level(h)
    ensures exists k :: 0 <= k <= |h| && Net(h[k..]) == Level(h)
  {
    if h == [] {
      assert Net(h[0..]) == 0;
    } else {
      var m := |h| - 1;
      var before, t := h[..m], h[m];
      assert h == before + [t];
      LevelIsWorstSuffix(before);
      forall k | 0 <= k <= |h| ensures Net(h[k..]) <= Level(h) {
        if k == |h| { assert h[k..] == []; } else { NetAppend(before, t, k); }
      }
      var k :| 0 <= k <= m && Net(before[k..]) == Level(before);
      NetAppend(before, t, k);
      if Level(h) != Net(h[k..]) {
        assert h[|h|..] == [];
        assert Net(h[|h|..]) == Level(h);
      }
    }
  }

  // --- Runs of one counter --------------------------------------------------------------------------

  datatype Op = Fault(amount: word, now: nat) | Check(now: nat) | Cleared

  function Do(c: Counter, op: Op): (Counter, bool) {
    match op
    case Fault(amount, now) => IncrementAndCheck(c, amount, now)
    case Check(now) => (CheckForDecrement(c, now).0, false)
    case Cleared => (Clear(c), false)
  }

  /** What has happened since the last alarm or clear. */
  function Remember(h: seq<Tick>, c: Counter, op: Op): seq<Tick> {
    match op
    case Fault(amount, now) => if Do(c, op).1 then [] else h + [Up(amount)]
    case Check(now) => if TimedOut(c, now) then h + [Down] else h
    case Cleared => []
  }

  datatype Past = Past(counter: Counter, since: seq<Tick>, alarm: bool)

  function Next(p: Past, op: Op): Past {
    var r := Do(p.counter, op);
    Past(r.0, Remember(p.since, p.counter, op), r.1)
  }

  function RunAll(p: Past, ops: seq<Op>): Past
    decreases |ops|
  {
    if ops == [] then p else RunAll(Next(p, ops[0]), ops[1..])
  }

  /** The counter holds the level of its history, and stays below its threshold. */
  predicate Faithful(c: Counter, h: seq<Tick>) { c.count == Level(h) <= c.threshold }

  /** The 32-bit sum of a fault does not wrap around. */
  predicate Holds(c: Counter, op: Op) { op.Fault? ==> c.count + op.amount < WORD }

  lemma StepFaithful(c: Counter, h: seq<Tick>, op: Op)
    requires Faithful(c, h)
    ensures Faithful(Do(c, op).0, Remember(h, c, op)) <==> Holds(c, op)
    ensures Do(c, op).0.threshold == c.threshold
  {
    if op.Fault? { assert (h + [Up(op.amount)])[..|h|] == h; }
    assert (h + [Down])[..|h|] == h;
  }

  /** A fault raises the alarm exactly over the threshold, if and only if the 32-bit sum does not wrap around. */
  lemma AlarmRightIff(c: Counter, h: seq<Tick>, amount: word, now: nat)
    requires Faithful(c, h)
    ensures (IncrementAndCheck(c, amount, now).1 <==> Level(h + [Up(amount)]) > c.threshold)
       <==> c.count + amount < WORD
    ensures c.count + amount >= WORD ==> !IncrementAndCheck(c, amount, now).1 && Level(h + [Up(amount)]) > c.threshold
  {
    assert (h + [Up(amount)])[..|h|] == h;
  }

  /** Hence an alarm means that some end of the history exceeds the threshold, and only a sum that wraps misses one. */
  lemma AlarmIff(c: Counter, h: seq<Tick>, amount: word, now: nat)
    requires Faithful(c, h)
    ensures var all := h + [Up(amount)];
            IncrementAndCheck(c, amount, now).1
            <==> c.count + amount < WORD && exists k :: 0 <= k <= |all| && Net(all[k..]) > c.threshold
  {
    AlarmRightIff(c, h, amount, now);
    LevelIsWorstSuffix(h + [Up(amount)]);
  }

  // --- Runs -----------------------------------------------------------------------------------------

  /** No fault of the run makes the sum wrap around. */
  predicate NeverWraps(p: Past, ops: seq<Op>)
    decreases |ops|
  {
    ops == [] || (Holds(p.counter, ops[0]) && NeverWraps(Next(p, ops[0]), ops[1..]))
  }

  /** After every operation the counter holds the level of its history. */
  predicate AlwaysFaithful(p: Past, ops: seq<Op>)
    decreases |ops|
  {
    Faithful(p.counter, p.since) && (ops == [] || AlwaysFaithful(Next(p, ops[0]), ops[1..]))
  }

  lemma {:induction false} FaithfulIff(p: Past, ops: seq<Op>)
    requires Faithful(p.counter, p.since)
    ensures AlwaysFaithful(p, ops) <==> NeverWraps(p, ops)
    decreases |ops|
  {
    if ops != [] {
      StepFaithful(p.counter, p.since, ops[0]);
      if Holds(p.counter, ops[0]) { FaithfulIff(Next(p, ops[0]), ops[1..]); }
    }
  }

  /**
   Over every run whose sums do not wrap: the count is the worst suffix of the history since the last
   alarm or clear.
   */
  lemma {:induction false} CountIsWorstSuffix(p: Past, ops: seq<Op>)
    requires Faithful(p.counter, p.since) && NeverWraps(p, ops)
    ensures var q := RunAll(p, ops);
            && Faithful(q.counter, q.since)
            && (forall k :: 0 <= k <= |q.since| ==> Net(q.since[k..]) <= q.counter.count)
            && (exists k :: 0 <= k <= |q.since| && Net(q.since[k..]) == q.counter.count)
    decreases |ops|
  {
    if ops == [] {
      LevelIsWorstSuffix(p.since);
    } else {
      StepFaithful(p.counter, p.since, ops[0]);
      CountIsWorstSuffix(Next(p, ops[0]), ops[1..]);
    }
  }

  /** Faults counted one by one, below the largest threshold, never wrap. */
  lemma {:induction false} SingleFaultsNeverWrap(p: Past, ops: seq<Op>)
    requires Faithful(p.counter, p.since) && p.counter.threshold < WORD - 1
    requires forall i :: 0 <= i < |ops| && ops[i].Fault? ==> ops[i].amount == 1
    ensures NeverWraps(p, ops)
    decreases |ops|
  {
    if ops != [] {
      StepFaithful(p.counter, p.since, ops[0]);
      SingleFaultsNeverWrap(Next(p, ops[0]), ops[1..]);
    }
  }

  /** At the largest threshold there is no alarm at all: a sum that does not wrap is not above it. */
  lemma LargestThresholdNeverAlarms(c: Counter, amount: word, now: nat)
    requires c.threshold == WORD - 1
    ensures !IncrementAndCheck(c, amount, now).1
    ensures c.count + amount >= WORD ==> IncrementAndCheck(c, amount, now).0.count < c.count
  {
  }

  /** A sum that wraps: ninety-five faults over the threshold raise no alarm. */
  lemma WrapExample()
    ensures var c := Counter(WORD - 10, WORD - 5, 0, 0);
            var h := [Up(WORD - 10)];
            Faithful(c, h) && !IncrementAndCheck(c, 100, 0).1 && Level(h + [Up(100)]) == c.threshold + 95
  {
    var h := [Up(WORD - 10)];
    assert h[..0] == [] && (h + [Up(100)])[..1] == h;
  }
}

/** The counter as the object it is. */
module FaultCounter {
  import opened Words
  import opened LeakyBucket

  class FaultCounter {
    var faultCount: word
    var failureThreshold: word
    var startTime: word
    var timeout: word

    ghost function View(): Counter
      reads this
    {
      Counter(faultCount, failureThreshold, startTime, timeout)
    }

    constructor (failureThreshold: word, decrementAfterMs: word, now: nat)
      ensures View() == Started(Counter(0, failureThreshold, 0, decrementAfterMs), now)
    {
      faultCount := 0;
      this.failureThreshold := failureThreshold;
      startTime := now % WORD;
      timeout := decrementAfterMs;
    }

    method ResetTimer(now: nat)
      modifies this`startTime
      ensures View() == Started(old(View()), now)
    {
      startTime := now % WORD;
    }

    method Increment(amount: word, now: nat)
      modifies this`faultCount, this`startTime
      ensures View() == LeakyBucket.Increment(old(View()), amount, now)
    {
      if faultCount == 0 { ResetTimer(now); }
      faultCount := (faultCount + amount) % WORD;
    }

    method CheckForDecrement(now: nat) returns (r: bool)
      modifies this`faultCount, this`startTime
      ensures (View(), r) == LeakyBucket.CheckForDecrement(old(View()), now)
    {
      if (now % WORD - startTime) % WORD >= timeout {
        ResetTimer(now);
        if faultCount > 0 {
          faultCount := faultCount - 1;
          return true;
        }
      }
      return false;
    }

    method IncrementAndCheck(amount: word, now: nat) returns (r: bool)
      modifies this`faultCount, this`startTime
      ensures (View(), r) == LeakyBucket.IncrementAndCheck(old(View()), amount, now)
    {
      Increment(amount, now);
      r := AboveThreshold();
    }

    method AboveThreshold() returns (r: bool)
      modifies this`faultCount
      ensures (View(), r) == LeakyBucket.AboveThreshold(old(View()))
    {
      if faultCount > failureThreshold {
        faultCount := 0;
        return true;
      }
      return false;
    }

    method Clear()
      modifies this`faultCount
      ensures View() == LeakyBucket.Clear(old(View()))
    {
      faultCount := 0;
    }
  }
}
