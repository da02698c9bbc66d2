/** The step scheduling of one training epoch (`train_one_epoch`), with the
    model, the optimiser and the loss reduced to two facts per batch: whether
    the loss is finite and whether the loss scaler returned a gradient norm.
    Python's floor division and modulo are written out; a zero divisor is a
    `ZeroDivision` failure, as in the program. */
module TrainSchedule {
  import opened Wrappers

  // ---------------------------------------------------------------------------
  // Python integer division

  /** Python `a // b`: the quotient rounded towards minus infinity. */
  function FloorDiv(a: int, b: int): (q: int)
    requires b != 0
    ensures b > 0 ==> 0 <= a - b * q < b
    ensures b < 0 ==> b < a - b * q <= 0
  {
    if b > 0 then a / b else (-a) / (-b)
  }

  /** Python `a % b`: the remainder takes the sign of the divisor. */
  function FloorMod(a: int, b: int): (r: int)
    requires b != 0
    ensures b > 0 ==> 0 <= r < b
    ensures b < 0 ==> b < r <= 0
    ensures a == b * FloorDiv(a, b) + r
  {
    a - b * FloorDiv(a, b)
  }

  lemma MulNonneg(x: int, y: int)
    requires x >= 0 && y >= 0
    ensures x * y >= 0
  {
  }

  /** A nonzero multiple of a positive `b` is at least `b` away from zero. */
  lemma MulAwayFromZero(b: int, k: int)
    requires b > 0
    ensures k >= 1 ==> b * k >= b
    ensures k <= -1 ==> b * k <= -b
  {
    if k >= 1 {
      MulNonneg(b, k - 1);
      assert b * k == b * (k - 1) + b;
    } else if k <= -1 {
      MulNonneg(b, -k - 1);
      assert b * k == -(b * (-k - 1) + b);
    }
  }

  lemma SmallMultipleIsZero(b: int, k: int)
    requires b > 0 && -b < b * k < b
    ensures k == 0
  {
    MulAwayFromZero(b, k);
  }

  /** The remainder bounds determine the quotient. */
  lemma FloorDivUnique(a: int, b: int, q: int)
    requires b != 0
    requires b > 0 ==> 0 <= a - b * q < b
    requires b < 0 ==> b < a - b * q <= 0
    ensures q == FloorDiv(a, b)
  {
    var p := FloorDiv(a, b);
    assert b * (p - q) == (a - b * q) - (a - b * p);
    if b > 0 {
      SmallMultipleIsZero(b, p - q);
    } else {
      assert (-b) * (q - p) == b * (p - q);
      SmallMultipleIsZero(-b, q - p);
    }
  }

  /** With a positive divisor Python's operators agree with Dafny's. */
  lemma FloorPositive(a: int, b: int)
    ensures b > 0 ==> FloorDiv(a, b) == a / b && FloorMod(a, b) == a % b
  {
  }

  // ---------------------------------------------------------------------------
  // Configuration, batches and the per-step events

  datatype TrainArgs = TrainArgs(
    accumIter: int,
    logSteps: int,
    saveIterationInterval: int,
    hasLogWriter: bool)

  /** What the scheduling sees of a batch. */
  datatype Batch = Batch(lossFinite: bool, gradNormPresent: bool)

  /** What happens at one step. `lrEpoch` is the fractional epoch handed to the
      learning-rate schedule when it is adjusted; `logAt` the global step the
      metrics are written at. */
  datatype StepEvents = StepEvents(
    step: int,
    lrEpoch: Option<real>,
    updateGrad: bool,
    zeroGrad: bool,
    logAt: Option<int>,
    save: bool)

  datatype Failure =
    | ZeroDivision     // a modulo or division by zero
    | GradNormMissing  // the assertion on the gradient norm of an update step
    | Exit(code: int)  // the process exits: a non-finite loss

  /** The optimizer steps after the micro-batch that closes a window. */
  predicate UpdateDue(s: int, a: int): (due: bool)
    requires a != 0
    ensures a > 0 ==> (due <==> (s + 1) % a == 0)
  {
    FloorPositive(s + 1, a);
    FloorMod(s + 1, a) == 0
  }

  /** The learning rate is set on the micro-batch that opens a window. */
  predicate AdjustDue(s: int, a: int): (due: bool)
    requires a != 0
    ensures a > 0 ==> (due <==> s % a == 0)
  {
    FloorPositive(s, a);
    FloorMod(s, a) == 0
  }

  /** Metrics are reduced after every `logSteps`-th micro-batch. */
  predicate LogDue(s: int, logSteps: int): (due: bool)
    requires logSteps != 0
    ensures logSteps > 0 ==> (due <==> (s + 1) % logSteps == 0)
  {
    FloorPositive(s + 1, logSteps);
    FloorMod(s + 1, logSteps) == 0
  }

  /** The save test of an update step, `n` being the number of updates per save. */
  predicate SaveDue(s: int, a: int, n: int): (due: bool)
    requires a != 0 && n != 0
    ensures a > 0 && n > 0 ==> (due <==> ((s + 1) / a) % n == 0)
  {
    FloorPositive(s + 1, a);
    FloorPositive(FloorDiv(s + 1, a), n);
    FloorMod(FloorDiv(s + 1, a), n) == 0
  }

  /** The global step metrics are written at. */
  function GlobalStep(s: int, loaderLen: int, epoch: int): int {
    s + loaderLen * epoch
  }

  /** The events of a step that ran to the end, as the schedule prescribes. */
  predicate Scheduled(args: TrainArgs, loaderLen: int, epoch: int, ev: StepEvents) {
    && args.accumIter != 0 && args.logSteps != 0
    && (ev.updateGrad <==> UpdateDue(ev.step, args.accumIter))
    && (ev.lrEpoch.Some? <==> AdjustDue(ev.step, args.accumIter))
    && (ev.lrEpoch.Some? ==> loaderLen != 0 && ev.lrEpoch.value == ev.step as real / loaderLen as real + epoch as real)
    && (ev.zeroGrad <==> ev.updateGrad)
    && (ev.logAt.Some? <==> args.hasLogWriter && LogDue(ev.step, args.logSteps))
    && (ev.logAt.Some? ==> ev.logAt.value == GlobalStep(ev.step, loaderLen, epoch))
    && (ev.save ==> ev.updateGrad)
    && (ev.updateGrad ==> FloorDiv(args.saveIterationInterval, args.accumIter) != 0)
    && (ev.save <==> ev.updateGrad && SaveDue(ev.step, args.accumIter, FloorDiv(args.saveIterationInterval, args.accumIter)))
  }

  /** A step that did nothing (yet). */
  function Idle(s: int): StepEvents {
    StepEvents(s, None, false, false, None, false)
  }

  /** The step gets past the learning-rate adjustment: neither the
      `data_iter_step % accum_iter` test nor, when it adjusts, the
      `data_iter_step / len(data_loader)` epoch divides by zero. */
  predicate PastLr(args: TrainArgs, loaderLen: int, s: int) {
    args.accumIter != 0 && !(AdjustDue(s, args.accumIter) && loaderLen == 0)
  }

  /** The step gets past the loss check, the optimizer call and the assertion
      on the gradient norm. */
  predicate PastUpdate(args: TrainArgs, loaderLen: int, s: int, b: Batch) {
    PastLr(args, loaderLen, s) && b.lossFinite && !(UpdateDue(s, args.accumIter) && !b.gradNormPresent)
  }

  /** What one iteration did, and the exception that ended it, if one did:
      the effects of the lines before the failing one are kept. */
  datatype Outcome = Outcome(done: StepEvents, raised: Option<Failure>)

  /** One iteration of the loop at step `s`, in the program's order: the
      learning-rate check, the loss check, the optimizer call and its
      assertion, the `zero_grad`, the logging check and the save check. */
  function Attempt(args: TrainArgs, loaderLen: int, epoch: int, s: int, b: Batch): (o: Outcome)
    ensures o.done.step == s
    ensures o.raised.None? ==> Scheduled(args, loaderLen, epoch, o.done) && b.lossFinite && (o.done.updateGrad ==> b.gradNormPresent)
    ensures o.raised.None? <==>
      PastUpdate(args, loaderLen, s, b) && args.logSteps != 0
      && !(UpdateDue(s, args.accumIter) && FloorDiv(args.saveIterationInterval, args.accumIter) == 0)
    // what was carried out, whether or not the step completed
    ensures o.done.lrEpoch.Some? <==> PastLr(args, loaderLen, s) && AdjustDue(s, args.accumIter)
    ensures o.done.lrEpoch.Some? ==> o.done.lrEpoch.value == s as real / loaderLen as real + epoch as real
    ensures o.done.updateGrad ==> PastLr(args, loaderLen, s) && b.lossFinite && UpdateDue(s, args.accumIter)
    ensures o.done.zeroGrad ==> o.done.updateGrad && b.gradNormPresent
    ensures o.done.logAt.Some? ==>
      PastUpdate(args, loaderLen, s, b) && args.logSteps != 0 && args.hasLogWriter && LogDue(s, args.logSteps)
      && o.done.logAt.value == GlobalStep(s, loaderLen, epoch)
    ensures o.done.save ==> o.raised.None?
    // the failures, line by line
    ensures !PastLr(args, loaderLen, s) ==> o == Outcome(Idle(s), Some(ZeroDivision))
    ensures PastLr(args, loaderLen, s) && !b.lossFinite ==> o.raised == Some(Exit(1)) && !o.done.updateGrad && o.done.logAt.None?
    ensures PastLr(args, loaderLen, s) && b.lossFinite && UpdateDue(s, args.accumIter) && !b.gradNormPresent ==>
      o.raised == Some(GradNormMissing) && o.done.updateGrad && !o.done.zeroGrad && o.done.logAt.None?
    ensures PastUpdate(args, loaderLen, s, b) ==>
      (o.done.updateGrad <==> UpdateDue(s, args.accumIter)) && (o.done.zeroGrad <==> o.done.updateGrad)
    ensures PastUpdate(args, loaderLen, s, b) && args.logSteps == 0 ==> o.raised == Some(ZeroDivision) && o.done.logAt.None?
    ensures PastUpdate(args, loaderLen, s, b) && args.logSteps != 0 ==>
      (o.done.logAt.Some? <==> args.hasLogWriter && LogDue(s, args.logSteps))
    ensures PastUpdate(args, loaderLen, s, b) && args.logSteps != 0 && o.raised.Some? ==> o.raised == Some(ZeroDivision)
  {
    var a := args.accumIter;
    if !PastLr(args, loaderLen, s) then Outcome(Idle(s), Some(ZeroDivision))
    else
      var lrEpoch := if AdjustDue(s, a) then Some(s as real / loaderLen as real + epoch as real) else None;
      var adjusted := Idle(s).(lrEpoch := lrEpoch);
      if !b.lossFinite then Outcome(adjusted, Some(Exit(1)))
      else
        var update := UpdateDue(s, a);
        if update && !b.gradNormPresent then Outcome(adjusted.(updateGrad := true), Some(GradNormMissing))
        else
          var stepped := adjusted.(updateGrad := update, zeroGrad := update);
          if args.logSteps == 0 then Outcome(stepped, Some(ZeroDivision))
          else
            var logAt := if LogDue(s, args.logSteps) && args.hasLogWriter then Some(GlobalStep(s, loaderLen, epoch)) else None;
            var logged := stepped.(logAt := logAt);
            var n := FloorDiv(args.saveIterationInterval, a);
            if update && n == 0 then Outcome(logged, Some(ZeroDivision))
            else Outcome(logged.(save := update && SaveDue(s, a, n)), None)
  }

  /** The step as the loop sees it: its events, or the exception it raised. */
  function Step(args: TrainArgs, loaderLen: int, epoch: int, s: int, b: Batch): (r: Result<StepEvents, Failure>)
    ensures r.Ok? ==> r.value.step == s && Scheduled(args, loaderLen, epoch, r.value)
    ensures r.Ok? ==> b.lossFinite && (r.value.updateGrad ==> b.gradNormPresent)
    ensures args.accumIter == 0 ==> r == Err(ZeroDivision)
    ensures r == Err(GradNormMissing) ==> !b.gradNormPresent
    ensures r == Err(GradNormMissing) ==> args.accumIter != 0 && UpdateDue(s, args.accumIter)
    ensures r.Err? && r.error.Exit? ==> r.error.code == 1 && !b.lossFinite
    ensures args.accumIter != 0 && !(AdjustDue(s, args.accumIter) && loaderLen == 0) && !b.lossFinite ==> r == Err(Exit(1))
  {
    var o := Attempt(args, loaderLen, epoch, s, b);
    if o.raised.Some? then Err(o.raised.value) else Ok(o.done)
  }

  // ---------------------------------------------------------------------------
  // The epoch

  /** A halted epoch keeps what the failing step did before it raised. */
  datatype EpochEnd = Completed | Halted(failure: Failure, partial: StepEvents)

  /** The steps that ran to the end, and how the epoch ended. */
  datatype Trace = Trace(events: seq<StepEvents>, end: EpochEnd)

  /** The loop from step `s` over the remaining batches. */
  function RunFrom(args: TrainArgs, loaderLen: int, epoch: int, s: int, batches: seq<Batch>): (t: Trace)
    ensures |t.events| <= |batches|
    ensures t.end.Completed? <==> |t.events| == |batches|
    ensures forall i :: 0 <= i < |t.events| ==> t.events[i].step == s + i && Scheduled(args, loaderLen, epoch, t.events[i])
    ensures forall i :: 0 <= i < |t.events| ==> batches[i].lossFinite
    ensures t.end.Halted? ==> Step(args, loaderLen, epoch, s + |t.events|, batches[|t.events|]) == Err(t.end.failure)
    ensures t.end.Halted? ==>
      Attempt(args, loaderLen, epoch, s + |t.events|, batches[|t.events|]) == Outcome(t.end.partial, Some(t.end.failure))
    decreases |batches|
  {
    if |batches| == 0 then Trace([], Completed)
    else
      var o := Attempt(args, loaderLen, epoch, s, batches[0]);
      if o.raised.Some? then Trace([], Halted(o.raised.value, o.done))
      else
        var t := RunFrom(args, loaderLen, epoch, s + 1, batches[1..]);
        Trace([o.done] + t.events, t.end)
  }

  /** `train_one_epoch`: steps are numbered from `startIter`. */
  function TrainOneEpoch(args: TrainArgs, loaderLen: int, epoch: int, startIter: int, batches: seq<Batch>): (t: Trace)
    ensures forall i :: 0 <= i < |t.events| ==> t.events[i].step == startIter + i
  {
    RunFrom(args, loaderLen, epoch, startIter, batches)
  }

  /** Gradients are zeroed once before the loop and then at every step that
      zeroes them, the failing step included. */
  function ZeroGradCalls(t: Trace): nat {
    1 + CountZeroGrads(t.events) + (if t.end.Halted? && t.end.partial.zeroGrad then 1 else 0)
  }

  /** The optimizer calls that updated the weights, the failing step included. */
  function UpdateCalls(t: Trace): nat {
    CountUpdates(t.events) + (if t.end.Halted? && t.end.partial.updateGrad then 1 else 0)
  }

  function CountZeroGrads(evs: seq<StepEvents>): nat {
    if |evs| == 0 then 0 else (if evs[0].zeroGrad then 1 else 0) + CountZeroGrads(evs[1..])
  }

  function CountUpdates(evs: seq<StepEvents>): nat {
    if |evs| == 0 then 0 else (if evs[0].updateGrad then 1 else 0) + CountUpdates(evs[1..])
  }

  // ---------------------------------------------------------------------------
  // Properties

  /** One more `zero_grad` than weight updates, counting the one before the
      loop, except when the assertion on the gradient norm fails: that update
      is never followed by its `zero_grad`. */
  lemma {:induction false} ZeroGradsFollowUpdates(args: TrainArgs, loaderLen: int, epoch: int, startIter: int, batches: seq<Batch>)
    ensures var t := TrainOneEpoch(args, loaderLen, epoch, startIter, batches);
      ZeroGradCalls(t) == 1 + UpdateCalls(t) - (if t.end.Halted? && t.end.failure == GradNormMissing then 1 else 0)
  {
    var t := TrainOneEpoch(args, loaderLen, epoch, startIter, batches);
    ZeroGradsMatch(args, loaderLen, epoch, t.events);
  }

  lemma {:induction false} ZeroGradsMatch(args: TrainArgs, loaderLen: int, epoch: int, evs: seq<StepEvents>)
    requires forall i :: 0 <= i < |evs| ==> Scheduled(args, loaderLen, epoch, evs[i])
    ensures CountZeroGrads(evs) == CountUpdates(evs)
    decreases |evs|
  {
    if |evs| > 0 {
      assert Scheduled(args, loaderLen, epoch, evs[0]);
      ZeroGradsMatch(args, loaderLen, epoch, evs[1..]);
    }
  }

  /** Number of steps `k .. k+n-1` after which `(s+1) % d == 0`. */
  function CountDue(k: int, n: nat, d: int): nat
    requires d != 0
  {
    if n == 0 then 0 else CountDue(k, n - 1, d) + (if FloorMod(k + n, d) == 0 then 1 else 0)
  }

  /** Moving the step on by one moves the quotient on exactly at multiples. */
  lemma FloorDivStep(x: int, d: int)
    requires d > 0
    ensures FloorDiv(x + 1, d) == FloorDiv(x, d) + (if FloorMod(x + 1, d) == 0 then 1 else 0)
  {
    var q := FloorDiv(x, d);
    var r := x - d * q;
    assert d * (q + 1) == d * q + d;
    if r + 1 < d {
      FloorDivUnique(x + 1, d, q);
    } else {
      FloorDivUnique(x + 1, d, q + 1);
    }
  }

  /** Among the steps `k .. k+n-1`, the number that end a window of `d` is the
      number of multiples of `d` in `k+1 .. k+n`. */
  lemma {:induction false} CountDueWindow(k: int, n: nat, d: int)
    requires d > 0
    ensures CountDue(k, n, d) == FloorDiv(k + n, d) - FloorDiv(k, d)
  {
    if n > 0 {
      CountDueWindow(k, n - 1, d);
      FloorDivStep(k + n - 1, d);
    }
  }

  /** Any `d` consecutive steps hold exactly one window end. */
  lemma OnceEveryWindow(k: int, d: int)
    requires d > 0
    ensures CountDue(k, d, d) == 1
  {
    CountDueWindow(k, d, d);
    FloorDivUnique(k + d, d, FloorDiv(k, d) + 1);
  }

  /** Along a trace, updates happen exactly at the window ends: the steps in
      any stretch of the trace hold as many updates as the window count says. */
  lemma {:induction false} UpdatesCounted(args: TrainArgs, loaderLen: int, epoch: int, s: int, evs: seq<StepEvents>)
    requires args.accumIter != 0
    requires forall i :: 0 <= i < |evs| ==> evs[i].step == s + i && Scheduled(args, loaderLen, epoch, evs[i])
    ensures CountUpdates(evs) == CountDue(s, |evs|, args.accumIter)
    decreases |evs|
  {
    if |evs| > 0 {
      var last := evs[|evs| - 1];
      var init := evs[..|evs| - 1];
      UpdatesCounted(args, loaderLen, epoch, s, init);
      CountUpdatesSnoc(init, last);
      assert evs == init + [last];
      assert last.step == s + |evs| - 1;
    }
  }

  lemma {:induction false} CountUpdatesSnoc(evs: seq<StepEvents>, e: StepEvents)
    ensures CountUpdates(evs + [e]) == CountUpdates(evs) + (if e.updateGrad then 1 else 0)
    decreases |evs|
  {
    if |evs| == 0 {
      assert evs + [e] == [e];
    } else {
      assert (evs + [e])[1..] == evs[1..] + [e];
      CountUpdatesSnoc(evs[1..], e);
    }
  }

  /** The learning rate is adjusted on the step right after an update. */
  lemma AdjustAfterUpdate(args: TrainArgs, loaderLen: int, epoch: int, t: Trace, i: nat)
    requires i + 1 < |t.events|
    requires forall j :: 0 <= j < |t.events| ==> Scheduled(args, loaderLen, epoch, t.events[j])
    requires t.events[i + 1].step == t.events[i].step + 1
    ensures t.events[i].updateGrad <==> t.events[i + 1].lrEpoch.Some?
  {
    assert Scheduled(args, loaderLen, epoch, t.events[i]);
    assert Scheduled(args, loaderLen, epoch, t.events[i + 1]);
  }

  /** A configuration under which no step divides by zero. */
  predicate Sound(args: TrainArgs, loaderLen: int) {
    && args.accumIter != 0 && args.logSteps != 0 && loaderLen != 0
    && FloorDiv(args.saveIterationInterval, args.accumIter) != 0
  }

  predicate Clean(b: Batch) {
    b.lossFinite && b.gradNormPresent
  }

  /** With a sound configuration, the first non-finite loss ends the epoch
      with exit code 1, after exactly the steps before it. */
  lemma {:induction false} NonFiniteLossExits(args: TrainArgs, loaderLen: int, epoch: int, s: int, batches: seq<Batch>, k: nat)
    requires Sound(args, loaderLen)
    requires k < |batches| && !batches[k].lossFinite
    requires forall i :: 0 <= i < k ==> Clean(batches[i])
    ensures var t := RunFrom(args, loaderLen, epoch, s, batches);
      && t.events == RunFrom(args, loaderLen, epoch, s, batches[..k]).events
      && t.end.Halted? && t.end.failure == Exit(1)
      && !t.end.partial.updateGrad && t.end.partial.logAt.None? && !t.end.partial.save
    ensures |RunFrom(args, loaderLen, epoch, s, batches).events| == k
    decreases k
  {
    if k == 0 {
      assert Attempt(args, loaderLen, epoch, s, batches[0]).raised == Some(Exit(1));
    } else {
      assert Attempt(args, loaderLen, epoch, s, batches[0]).raised.None?;
      assert batches[1..][..k - 1] == batches[..k][1..];
      NonFiniteLossExits(args, loaderLen, epoch, s + 1, batches[1..], k - 1);
    }
  }

  /** With a sound configuration and clean batches the epoch runs every batch. */
  lemma {:induction false} CleanEpochCompletes(args: TrainArgs, loaderLen: int, epoch: int, s: int, batches: seq<Batch>)
    requires Sound(args, loaderLen)
    requires forall i :: 0 <= i < |batches| ==> Clean(batches[i])
    ensures RunFrom(args, loaderLen, epoch, s, batches).end == Completed
    decreases |batches|
  {
    if |batches| > 0 {
      assert Attempt(args, loaderLen, epoch, s, batches[0]).raised.None?;
      CleanEpochCompletes(args, loaderLen, epoch, s + 1, batches[1..]);
    }
  }

  /** When the save interval is a positive multiple-of-`a` rounding `a * n` of
      the configured interval, saves fall exactly every `a * n` steps. */
  lemma SaveEvery(s: int, a: int, interval: int)
    requires a > 0 && FloorDiv(interval, a) > 0
    ensures var n := FloorDiv(interval, a);
      (UpdateDue(s, a) && SaveDue(s, a, n)) <==> FloorMod(s + 1, a * n) == 0
  {
    NestedWindows(s + 1, a, FloorDiv(interval, a));
  }

  /** `x` ends a window of `a * n` exactly when it ends a window of `a` and
      the count of those windows ends a window of `n`. */
  lemma NestedWindows(x: int, a: int, n: int)
    requires a > 0 && n > 0
    ensures (FloorMod(x, a) == 0 && FloorMod(FloorDiv(x, a), n) == 0) <==> FloorMod(x, a * n) == 0
  {
    MulAwayFromZero(a, n);
    if FloorMod(x, a) == 0 && FloorMod(FloorDiv(x, a), n) == 0 {
      InnerWindowsNest(x, a, n);
    }
    if FloorMod(x, a * n) == 0 {
      OuterWindowSplits(x, a, n);
    }
  }

  lemma MulAssoc(a: int, n: int, m: int)
    ensures a * (n * m) == (a * n) * m
  {
  }

  lemma InnerWindowsNest(x: int, a: int, n: int)
    requires a > 0 && n > 0
    requires FloorMod(x, a) == 0 && FloorMod(FloorDiv(x, a), n) == 0
    ensures FloorMod(x, a * n) == 0
  {
    var q := FloorDiv(x, a);
    var m := FloorDiv(q, n);
    assert x == a * q;
    assert q == n * m;
    MulAssoc(a, n, m);
    MulAwayFromZero(a, n);
    FloorDivUnique(x, a * n, m);
  }

  lemma OuterWindowSplits(x: int, a: int, n: int)
    requires a > 0 && n > 0
    requires FloorMod(x, a * n) == 0
    ensures FloorMod(x, a) == 0 && FloorMod(FloorDiv(x, a), n) == 0
  {
    MulAwayFromZero(a, n);
    var m := FloorDiv(x, a * n);
    assert x == (a * n) * m;
    MulAssoc(a, n, m);
    FloorDivUnique(x, a, n * m);
    FloorDivUnique(n * m, n, m);
  }

  /** When the save interval is non-negative and below `accum_iter`, every
      update step divides by zero, after it has updated the weights,
      zeroed the gradients and logged, but before any checkpoint. */
  lemma ShortIntervalFailsAtUpdate(args: TrainArgs, loaderLen: int, epoch: int, s: int, b: Batch)
    requires args.accumIter > 0 && 0 <= args.saveIterationInterval < args.accumIter
    requires args.logSteps != 0 && loaderLen != 0 && Clean(b)
    ensures Step(args, loaderLen, epoch, s, b).Err? <==> UpdateDue(s, args.accumIter)
    ensures UpdateDue(s, args.accumIter) ==> Step(args, loaderLen, epoch, s, b) == Err(ZeroDivision)
    ensures var o := Attempt(args, loaderLen, epoch, s, b);
      UpdateDue(s, args.accumIter) ==>
        && o.done.updateGrad && o.done.zeroGrad && !o.done.save
        && (o.done.logAt.Some? <==> args.hasLogWriter && LogDue(s, args.logSteps))
  {
    FloorDivUnique(args.saveIterationInterval, args.accumIter, 0);
  }

  /** The first step at or after `s` that closes a window comes within `a` steps. */
  lemma NextWindowEnd(s: int, a: int) returns (j: int)
    requires a > 0
    ensures 0 <= j < a && UpdateDue(s + j, a)
  {
    j := FloorMod(-(s + 1), a);
    var q := FloorDiv(-(s + 1), a);
    assert s + 1 + j == a * (-q);
    FloorDivUnique(s + 1 + j, a, -q);
  }

  /** Hence such a run with at least one full window of batches halts inside
      its first window. */
  lemma ShortIntervalHalts(args: TrainArgs, loaderLen: int, epoch: int, s: int, batches: seq<Batch>)
    requires args.accumIter > 0 && 0 <= args.saveIterationInterval < args.accumIter
    requires |batches| >= args.accumIter
    ensures var t := RunFrom(args, loaderLen, epoch, s, batches);
      t.end.Halted? && |t.events| < args.accumIter
  {
    var a := args.accumIter;
    var t := RunFrom(args, loaderLen, epoch, s, batches);
    FloorDivUnique(args.saveIterationInterval, a, 0);
    var j := NextWindowEnd(s, a);
    StopsByWindowEnd(args, loaderLen, epoch, s, batches, j);
  }

  /** With no updates per save, the run cannot get past a window end. */
  lemma {:induction false} StopsByWindowEnd(args: TrainArgs, loaderLen: int, epoch: int, s: int, batches: seq<Batch>, j: nat)
    requires args.accumIter > 0 && FloorDiv(args.saveIterationInterval, args.accumIter) == 0
    requires UpdateDue(s + j, args.accumIter)
    ensures |RunFrom(args, loaderLen, epoch, s, batches).events| <= j
    decreases j
  {
    if |batches| > 0 && j > 0 {
      StopsByWindowEnd(args, loaderLen, epoch, s + 1, batches[1..], j - 1);
    }
  }

  /** Within an epoch (steps below the loader length) global steps of
      different epochs or steps never coincide. */
  lemma GlobalStepInjective(s1: int, e1: int, s2: int, e2: int, loaderLen: int)
    requires loaderLen > 0
    requires 0 <= s1 < loaderLen && 0 <= s2 < loaderLen
    ensures GlobalStep(s1, loaderLen, e1) == GlobalStep(s2, loaderLen, e2) <==> s1 == s2 && e1 == e2
  {
    assert loaderLen * (e2 - e1) == loaderLen * e2 - loaderLen * e1;
    if GlobalStep(s1, loaderLen, e1) == GlobalStep(s2, loaderLen, e2) {
      SmallMultipleIsZero(loaderLen, e2 - e1);
    }
  }
}
