/** Automatic HNSW reindexing: the divergence test that recommends a
    rebuild when the optimal `M` for the dataset has outgrown the current
    one, the benchmark test that decides between keeping the new index and
    rolling back, and the lifecycle state machine Idle → Building →
    Validating → Idle with its cooldown. The state lives in an atomic `u8`;
    the clock is a parameter counting nanoseconds, and the sizing rule
    `HnswParams::for_dataset_size` is a function parameter. */
module AutoReindex {
  import opened Wrappers
  import opened Seqs

  datatype ReindexState = Idle | Building | Validating | Swapping

  /** The `#[repr(u8)]` discriminant. */
  function ToU8(s: ReindexState): (r: Byte)
    ensures r <= 3
  {
    match s
    case Idle => 0
    case Building => 1
    case Validating => 2
    case Swapping => 3
  }

  /** `From<u8>`: 1, 2 and 3 name their states; every other byte reads as
      Idle. */
  function FromU8(v: Byte): (r: ReindexState)
    ensures r == Idle <==> v == 0 || v > 3
  {
    match v
    case 1 => Building
    case 2 => Validating
    case 3 => Swapping
    case _ => Idle
  }

  /** Storing a state and loading it back gives the same state, and no
      two states share a byte. */
  lemma StateRoundTrip(s: ReindexState, t: ReindexState)
    ensures FromU8(ToU8(s)) == s
    ensures ToU8(s) == ToU8(t) ==> s == t
  {
  }

  /** `HnswParams`. */
  datatype HnswParams = HnswParams(maxConnections: nat, efConstruction: nat, maxElements: nat)

  /** `HnswParams::default`, which is `auto(768)`. */
  const DEFAULT_PARAMS := HnswParams(16, 200, 100_000)

  /** `AutoReindexConfig`; the thresholds are `f64` values, modelled as
      finite reals. */
  datatype Config = Config(
    enabled: bool,
    paramDivergenceThreshold: real,
    minSizeForReindex: nat,
    maxLatencyRegressionPercent: real,
    maxRecallRegressionPercent: real,
    cooldown: Duration)

  const DEFAULT_CONFIG := Config(true, 1.5, 10_000, 10.0, 2.0, 3600 * NANOS_PER_SECOND)

  /** The preset constructors: each starts from the default. */
  function Disabled(): (c: Config)
    ensures c == DEFAULT_CONFIG.(enabled := false)
  {
    DEFAULT_CONFIG.(enabled := false)
  }

  function WithThreshold(threshold: real): (c: Config)
    ensures c == DEFAULT_CONFIG.(paramDivergenceThreshold := threshold)
  {
    DEFAULT_CONFIG.(paramDivergenceThreshold := threshold)
  }

  const SENSITIVE_CONFIG := DEFAULT_CONFIG.(paramDivergenceThreshold := 1.25, minSizeForReindex := 5_000)
  const CONSERVATIVE_CONFIG := DEFAULT_CONFIG.(paramDivergenceThreshold := 2.0, minSizeForReindex := 50_000)

  /** `optimal_m / current_m` as an `f64`: infinite when the current `M`
      is 0. */
  datatype Ratio = Finite(value: real) | Infinite

  predicate AtLeast(r: Ratio, threshold: real) {
    r.Infinite? || r.value >= threshold
  }

  datatype ReindexReason =
    | ParamDivergence(currentM: nat, optimalM: nat, ratio: Ratio)
    | Manual
    | Scheduled

  datatype DivergenceCheck = DivergenceCheck(
    shouldReindex: bool, currentM: nat, optimalM: nat, ratio: Ratio, reason: Option<ReindexReason>)

  /** `check_divergence`. Below the minimum size the check declines with
      ratio 1 and the current `M` as optimal; otherwise it compares the
      optimal `M` for the size against the current one. */
  function CheckDivergence(config: Config, current: HnswParams, size: nat, dimension: nat,
                           forDatasetSize: (nat, nat) -> HnswParams): (r: DivergenceCheck)
    ensures r.currentM == current.maxConnections
    ensures size < config.minSizeForReindex ==>
      !r.shouldReindex && r.ratio == Finite(1.0) && r.optimalM == r.currentM && r.reason == None
    ensures size >= config.minSizeForReindex ==> r.optimalM == forDatasetSize(dimension, size).maxConnections
    ensures size >= config.minSizeForReindex && r.currentM > 0 ==>
      r.ratio.Finite? && r.ratio.value * (r.currentM as real) == r.optimalM as real
    ensures size >= config.minSizeForReindex && r.currentM == 0 ==> r.ratio == Infinite
    ensures r.reason.Some? <==> r.shouldReindex
    ensures r.shouldReindex ==> r.reason == Some(ParamDivergence(r.currentM, r.optimalM, r.ratio))
  {
    if size < config.minSizeForReindex then
      DivergenceCheck(false, current.maxConnections, current.maxConnections, Finite(1.0), None)
    else
      var currentM := current.maxConnections;
      var optimalM := forDatasetSize(dimension, size).maxConnections;
      var ratio := if currentM > 0 then Finite((optimalM as real) / (currentM as real)) else Infinite;
      var should := config.enabled && AtLeast(ratio, config.paramDivergenceThreshold);
      DivergenceCheck(should, currentM, optimalM, ratio,
                      if should then Some(ParamDivergence(currentM, optimalM, ratio)) else None)
  }

  /** Without the division: a reindex is recommended exactly when the
      manager is enabled, the dataset has reached the minimum size, and
      the optimal `M` is at least the threshold times the current `M` (any
      optimal `M` will do when the current one is 0). */
  lemma DivergenceSpec(config: Config, current: HnswParams, size: nat, dimension: nat,
                       forDatasetSize: (nat, nat) -> HnswParams)
    ensures CheckDivergence(config, current, size, dimension, forDatasetSize).shouldReindex
      <==> && config.enabled
           && size >= config.minSizeForReindex
           && (|| current.maxConnections == 0
               || forDatasetSize(dimension, size).maxConnections as real
                  >= config.paramDivergenceThreshold * current.maxConnections as real)
  {
    var r := CheckDivergence(config, current, size, dimension, forDatasetSize);
    if size >= config.minSizeForReindex && current.maxConnections > 0 {
      var c := current.maxConnections as real;
      var t := config.paramDivergenceThreshold;
      assert r.ratio.value * c == r.optimalM as real;
      assert r.ratio.value >= t <==> r.ratio.value * c >= t * c;
    }
  }

  /** `BenchmarkResult`. */
  datatype Benchmark = Benchmark(latencyP99Us: nat, recallEstimate: real, queryCount: nat)

  /** Why a new index is rejected: the measured change and the configured
      maximum, both in percent. */
  datatype Regression =
    | LatencyRegression(change: real, maxAllowed: real)
    | RecallRegression(change: real, maxAllowed: real)

  /** The new p99 latency exceeds the old one by more than the allowed
      percentage of the old (only judged when the old latency is
      positive). */
  predicate LatencyRegressed(config: Config, before: Benchmark, after: Benchmark) {
    before.latencyP99Us > 0
    && (after.latencyP99Us as real - before.latencyP99Us as real) * 100.0
       > config.maxLatencyRegressionPercent * before.latencyP99Us as real
  }

  /** The recall estimate dropped by more than the allowed number of
      percentage points (only judged when the old estimate is positive). */
  predicate RecallRegressed(config: Config, before: Benchmark, after: Benchmark) {
    before.recallEstimate > 0.0
    && (before.recallEstimate - after.recallEstimate) * 100.0 > config.maxRecallRegressionPercent
  }

  /** `validate_benchmark`: latency is judged first, then recall; the new
      index is accepted only when neither regressed. */
  function ValidateBenchmark(config: Config, before: Benchmark, after: Benchmark): (r: Result<(), Regression>)
    ensures r.Failure? && r.error.LatencyRegression? <==> LatencyRegressed(config, before, after)
    ensures r.Failure? && r.error.RecallRegression? <==>
      !LatencyRegressed(config, before, after) && RecallRegressed(config, before, after)
    ensures r.Success? <==> !LatencyRegressed(config, before, after) && !RecallRegressed(config, before, after)
    ensures r.Failure? ==>
      (r.error.maxAllowed == if r.error.LatencyRegression? then config.maxLatencyRegressionPercent
                             else config.maxRecallRegressionPercent)
  {
    var latencyRegressed :=
      if before.latencyP99Us > 0 then
        var o := before.latencyP99Us as real;
        var change := (after.latencyP99Us as real - o) / o * 100.0;
        LatencyChangeSpec(o, after.latencyP99Us as real, config.maxLatencyRegressionPercent);
        if change > config.maxLatencyRegressionPercent then Some(change) else None
      else None;
    if latencyRegressed.Some? then
      Failure(LatencyRegression(latencyRegressed.value, config.maxLatencyRegressionPercent))
    else if before.recallEstimate > 0.0 then
      var change := (before.recallEstimate - after.recallEstimate) * 100.0;
      if change > config.maxRecallRegressionPercent then
        Failure(RecallRegression(change, config.maxRecallRegressionPercent))
      else Success(())
    else Success(())
  }

  /** The percentage change exceeds a bound exactly when the difference,
      scaled by 100, exceeds the bound times the old value. */
  lemma LatencyChangeSpec(o: real, n: real, bound: real)
    requires o > 0.0
    ensures (n - o) / o * 100.0 > bound <==> (n - o) * 100.0 > bound * o
  {
    var q := (n - o) / o;
    assert q * o == n - o;
    assert q * 100.0 > bound <==> q * 100.0 * o > bound * o;
  }

  /** `ReindexEvent`. */
  datatype ReindexEvent =
    | Started(reason: ReindexReason, oldParams: HnswParams, newParams: HnswParams)
    | Progress(percent: Byte)
    | ValidatingEvent(oldLatencyP99Us: nat, newLatencyP99Us: nat)
    | Completed(duration: Duration)
    | RolledBack(message: string)

  /** `AutoReindexManager`: the configuration, the state byte, and the
      time of the last completed reindex. */
  datatype Manager = Manager(config: Config, stateByte: Byte, lastReindex: Option<nat>)

  function State(m: Manager): ReindexState {
    FromU8(m.stateByte)
  }

  function NewManager(config: Config): (m: Manager)
    ensures State(m) == Idle && m.lastReindex == None && m.config == config
  {
    Manager(config, ToU8(Idle), None)
  }

  /** Whether the last reindex completed less than the cooldown ago;
      `Instant::elapsed` saturates at zero. */
  predicate InCooldown(m: Manager, now: nat) {
    m.lastReindex.Some? && SaturatingSub(now, m.lastReindex.value) < m.config.cooldown
  }

  /** `should_reindex`: never during the cooldown or while a reindex is
      under way; otherwise the divergence check decides. */
  function ShouldReindex(m: Manager, now: nat, current: HnswParams, size: nat, dimension: nat,
                         forDatasetSize: (nat, nat) -> HnswParams): (r: bool)
    ensures r ==> !InCooldown(m, now) && State(m) == Idle
    ensures r ==> m.config.enabled && size >= m.config.minSizeForReindex
  {
    if InCooldown(m, now) then false
    else if State(m) != Idle then false
    else CheckDivergence(m.config, current, size, dimension, forDatasetSize).shouldReindex
  }

  /** The full condition, with the division cleared. */
  lemma ShouldReindexSpec(m: Manager, now: nat, current: HnswParams, size: nat, dimension: nat,
                          forDatasetSize: (nat, nat) -> HnswParams)
    ensures ShouldReindex(m, now, current, size, dimension, forDatasetSize)
      <==> && !InCooldown(m, now)
           && State(m) == Idle
           && m.config.enabled
           && size >= m.config.minSizeForReindex
           && (|| current.maxConnections == 0
               || forDatasetSize(dimension, size).maxConnections as real
                  >= m.config.paramDivergenceThreshold * current.maxConnections as real)
  {
    DivergenceSpec(m.config, current, size, dimension, forDatasetSize);
  }

  /** The outcome of a lifecycle call: the new manager, whether the call
      took effect, and the event it emitted. */
  datatype Step = Step(manager: Manager, ok: bool, event: Option<ReindexEvent>)

  /** `transition_to`: the compare-exchange against the state just loaded
      always succeeds when calls are sequential. */
  function TransitionTo(m: Manager, s: ReindexState): (r: Manager)
    ensures State(r) == s && r.config == m.config && r.lastReindex == m.lastReindex
  {
    m.(stateByte := ToU8(s))
  }

  /** `start_reindex`: only an idle manager starts, moving to Building and
      announcing the reason and parameters. */
  function StartReindex(m: Manager, reason: ReindexReason, oldParams: HnswParams, newParams: HnswParams): (r: Step)
    ensures r.ok <==> State(m) == Idle
    ensures r.ok ==> State(r.manager) == Building && r.manager == m.(stateByte := r.manager.stateByte)
    ensures r.ok ==> r.event == Some(Started(reason, oldParams, newParams))
    ensures !r.ok ==> r.manager == m && r.event == None
  {
    if State(m) != Idle then Step(m, false, None)
    else Step(TransitionTo(m, Building), true, Some(Started(reason, oldParams, newParams)))
  }

  /** `trigger_manual_reindex`: a start with the manual reason and default
      parameters on both sides. */
  function TriggerManualReindex(m: Manager): (r: Step)
    ensures r.ok <==> State(m) == Idle
    ensures r.ok ==> State(r.manager) == Building
    ensures r.ok ==> r.event == Some(Started(Manual, DEFAULT_PARAMS, DEFAULT_PARAMS))
    ensures !r.ok ==> r.manager == m && r.event == None
  {
    StartReindex(m, Manual, DEFAULT_PARAMS, DEFAULT_PARAMS)
  }

  /** `report_progress`: only a building manager reports, capped at 100;
      the state never changes. */
  function ReportProgress(m: Manager, percent: Byte): (r: Option<ReindexEvent>)
    ensures r.Some? <==> State(m) == Building
    ensures r.Some? ==> r.value.Progress? && r.value.percent <= 100
    ensures r.Some? && percent <= 100 ==> r.value.percent == percent
  {
    if State(m) == Building then Some(Progress(Min(percent, 100))) else None
  }

  /** `start_validation`: only Building moves to Validating. */
  function StartValidation(m: Manager, oldLatency: nat, newLatency: nat): (r: Step)
    ensures r.ok <==> State(m) == Building
    ensures r.ok ==> State(r.manager) == Validating && r.manager == m.(stateByte := r.manager.stateByte)
    ensures r.ok ==> r.event == Some(ValidatingEvent(oldLatency, newLatency))
    ensures !r.ok ==> r.manager == m && r.event == None
  {
    if State(m) != Building then Step(m, false, None)
    else Step(TransitionTo(m, Validating), true, Some(ValidatingEvent(oldLatency, newLatency)))
  }

  /** `complete_reindex`: only Validating or Swapping completes, going back
      to Idle and starting the cooldown at `now`. */
  function CompleteReindex(m: Manager, duration: Duration, now: nat): (r: Step)
    ensures r.ok <==> State(m) == Validating || State(m) == Swapping
    ensures r.ok ==> State(r.manager) == Idle && r.manager.lastReindex == Some(now)
    ensures r.ok ==> r.manager.config == m.config && r.event == Some(Completed(duration))
    ensures !r.ok ==> r.manager == m && r.event == None
  {
    if State(m) != Validating && State(m) != Swapping then Step(m, false, None)
    else Step(m.(stateByte := ToU8(Idle), lastReindex := Some(now)), true, Some(Completed(duration)))
  }

  /** `rollback`: any state but Idle goes back to Idle, without touching
      the cooldown. */
  function Rollback(m: Manager, message: string): (r: Step)
    ensures r.ok <==> State(m) != Idle
    ensures State(r.manager) == Idle
    ensures r.manager == m.(stateByte := r.manager.stateByte)
    ensures r.ok ==> r.event == Some(RolledBack(message))
    ensures !r.ok ==> r.manager == m && r.event == None
  {
    if State(m) == Idle then Step(m, false, None)
    else Step(TransitionTo(m, Idle), true, Some(RolledBack(message)))
  }

  /** `reset`: straight back to Idle, silently. */
  function Reset(m: Manager): (r: Manager)
    ensures State(r) == Idle && r == m.(stateByte := r.stateByte)
  {
    TransitionTo(m, Idle)
  }

  /** Right after a reindex completes, no reindex is recommended until
      the cooldown has passed, whatever the parameters. */
  lemma CooldownAfterComplete(m: Manager, duration: Duration, t: nat, now: nat, current: HnswParams,
                              size: nat, dimension: nat, forDatasetSize: (nat, nat) -> HnswParams)
    requires CompleteReindex(m, duration, t).ok
    requires t <= now < t + m.config.cooldown
    ensures !ShouldReindex(CompleteReindex(m, duration, t).manager, now, current, size, dimension, forDatasetSize)
  {
    assert InCooldown(CompleteReindex(m, duration, t).manager, now);
  }

  /** The lifecycle calls of the manager. */
  datatype Call =
    | Start(reason: ReindexReason, oldParams: HnswParams, newParams: HnswParams)
    | TriggerManual
    | ReportProgressCall(percent: Byte)
    | Validate(oldLatency: nat, newLatency: nat)
    | Complete(duration: Duration, now: nat)
    | RollbackCall(message: string)
    | ResetCall
    | SetEnabled(enabled: bool)

  /** The manager and the events emitted after a sequence of calls. */
  datatype Trace = Trace(manager: Manager, events: seq<ReindexEvent>)

  function Emit(events: seq<ReindexEvent>, e: Option<ReindexEvent>): seq<ReindexEvent> {
    if e.Some? then events + [e.value] else events
  }

  function ApplyCall(t: Trace, c: Call): Trace {
    match c
    case Start(reason, o, n) =>
      var s := StartReindex(t.manager, reason, o, n); Trace(s.manager, Emit(t.events, s.event))
    case TriggerManual =>
      var s := TriggerManualReindex(t.manager); Trace(s.manager, Emit(t.events, s.event))
    case ReportProgressCall(p) => Trace(t.manager, Emit(t.events, ReportProgress(t.manager, p)))
    case Validate(o, n) =>
      var s := StartValidation(t.manager, o, n); Trace(s.manager, Emit(t.events, s.event))
    case Complete(d, now) =>
      var s := CompleteReindex(t.manager, d, now); Trace(s.manager, Emit(t.events, s.event))
    case RollbackCall(msg) =>
      var s := Rollback(t.manager, msg); Trace(s.manager, Emit(t.events, s.event))
    case ResetCall => Trace(Reset(t.manager), t.events)
    case SetEnabled(b) => Trace(t.manager.(config := t.manager.config.(enabled := b)), t.events)
  }

  function Run(config: Config, calls: seq<Call>): Trace {
    if |calls| == 0 then Trace(NewManager(config), [])
    else ApplyCall(Run(config, calls[..|calls| - 1]), calls[|calls| - 1])
  }

  predicate IsStarted(e: ReindexEvent) { e.Started? }
  predicate Finishes(e: ReindexEvent) { e.Completed? || e.RolledBack? }

  /** Whether a state is one the calls can leave the manager in. */
  predicate Reachable(s: ReindexState) { s != Swapping }

  /** No call ever stores Swapping, so from a new manager the state is
      never Swapping. */
  lemma {:induction false} RunNeverSwaps(config: Config, calls: seq<Call>)
    ensures Reachable(State(Run(config, calls).manager))
  {
    if |calls| > 0 {
      RunNeverSwaps(config, calls[..|calls| - 1]);
    }
  }

  /** Appending an emitted event raises a count exactly when the event
      is of the counted kind. */
  lemma EmitCount(events: seq<ReindexEvent>, e: Option<ReindexEvent>, p: ReindexEvent -> bool)
    ensures Count(Emit(events, e), p) == Count(events, p) + (if e.Some? && p(e.value) then 1 else 0)
  {
    if e.Some? {
      assert (events + [e.value])[..|events|] == events;
    }
  }

  /** Starts not yet matched by a finish, less the reindex under way. */
  function Unmatched(t: Trace): int {
    Count(t.events, IsStarted) - Count(t.events, Finishes) - (if State(t.manager) != Idle then 1 else 0)
  }

  /** A call that moves to `m` and emits `e` keeps the unmatched starts
      when its event accounts for its state change. */
  lemma EmitStep(t: Trace, m: Manager, e: Option<ReindexEvent>)
    requires (if State(m) != Idle then 1 else 0) - (if State(t.manager) != Idle then 1 else 0)
      == (if e.Some? && IsStarted(e.value) then 1 else 0) - (if e.Some? && Finishes(e.value) then 1 else 0)
    ensures Unmatched(Trace(m, Emit(t.events, e))) == Unmatched(t)
  {
    EmitCount(t.events, e, IsStarted);
    EmitCount(t.events, e, Finishes);
  }

  /** A call other than a reset keeps the unmatched starts; a reset can
      only add to them, by abandoning the reindex under way. */
  lemma UnmatchedStep(t: Trace, c: Call)
    ensures Unmatched(ApplyCall(t, c)) >= Unmatched(t)
    ensures !c.ResetCall? ==> Unmatched(ApplyCall(t, c)) == Unmatched(t)
  {
    match c {
      case Start(reason, o, n) =>
        var s := StartReindex(t.manager, reason, o, n);
        EmitStep(t, s.manager, s.event);
      case TriggerManual =>
        var s := TriggerManualReindex(t.manager);
        EmitStep(t, s.manager, s.event);
      case ReportProgressCall(pc) =>
        EmitStep(t, t.manager, ReportProgress(t.manager, pc));
      case Validate(o, n) =>
        var s := StartValidation(t.manager, o, n);
        EmitStep(t, s.manager, s.event);
      case Complete(d, now) =>
        var s := CompleteReindex(t.manager, d, now);
        EmitStep(t, s.manager, s.event);
      case RollbackCall(msg) =>
        var s := Rollback(t.manager, msg);
        EmitStep(t, s.manager, s.event);
      case ResetCall =>
      case SetEnabled(b) =>
        assert State(ApplyCall(t, c).manager) == State(t.manager);
    }
  }

  /** Every started reindex is finished (completed or rolled back), or
      abandoned by a reset, or is the one under way: the starts are at
      least the finishes plus one while busy, and exactly that when no
      reset was called. */
  lemma {:induction false} RunLifecycle(config: Config, calls: seq<Call>)
    ensures Unmatched(Run(config, calls)) >= 0
    ensures (forall i | 0 <= i < |calls| :: !calls[i].ResetCall?) ==> Unmatched(Run(config, calls)) == 0
  {
    if |calls| > 0 {
      var front := calls[..|calls| - 1];
      RunLifecycle(config, front);
      UnmatchedStep(Run(config, front), calls[|calls| - 1]);
      assert forall i | 0 <= i < |front| :: front[i] == calls[i];
    }
  }
}
