/**
 * `LanternTaskBuilder`: accumulates the settings of a scheduled task and
 * turns them into a `ScheduledTask` on submit. The builder is a value; each
 * setter returns the updated builder, and `submit` returns the task and
 * leaves the builder as it was. The scheduler's generated name and the tick
 * length are parameters.
 */
module TaskBuilder {
  import opened Wrappers
  import opened Bytes

  type ConsumerId = nat
  type PluginId = nat

  datatype Synchronicity = Synchronous | Asynchronous

  datatype TimeUnit = Nanoseconds | Microseconds | Milliseconds | Seconds | Minutes | Hours | Days

  datatype TaskError = IllegalArgument(message: string) | IllegalState(message: string)

  datatype Builder = Builder(
    consumer: Option<ConsumerId>,
    syncType: Synchronicity,
    name: Option<string>,
    delay: int,
    interval: int,
    delayIsTicks: bool,
    intervalIsTicks: bool)

  datatype ScheduledTask = ScheduledTask(
    syncType: Synchronicity,
    consumer: ConsumerId,
    name: string,
    delay: int,
    delayIsTicks: bool,
    interval: int,
    intervalIsTicks: bool,
    plugin: PluginId)

  const LONG_MAX: int := 0x7FFF_FFFF_FFFF_FFFF

  /** Delay and interval are non-negative Java longs. */
  predicate Valid(b: Builder) {
    0 <= b.delay <= LONG_MAX && 0 <= b.interval <= LONG_MAX
  }

  /** `TimeUnit.toMillis` for a non-negative duration: truncating, saturating at `Long.MAX_VALUE`. */
  function ToMillis(unit: TimeUnit, d: nat): (ms: nat)
    ensures ms <= LONG_MAX
    ensures unit == Milliseconds && d <= LONG_MAX ==> ms == d
  {
    var exact := match unit
      case Nanoseconds => d / 1_000_000
      case Microseconds => d / 1_000
      case Milliseconds => d
      case Seconds => d * 1_000
      case Minutes => d * 60_000
      case Hours => d * 3_600_000
      case Days => d * 86_400_000;
    if exact > LONG_MAX then LONG_MAX else exact
  }

  /** `reset`: clears name and consumer, synchronous, no delay or interval; the tick flags stay. */
  function Reset(b: Builder): (r: Builder)
    ensures r.name.None? && r.consumer.None? && r.syncType == Synchronous
    ensures r.delay == 0 && r.interval == 0
    ensures r.delayIsTicks == b.delayIsTicks && r.intervalIsTicks == b.intervalIsTicks
    ensures Valid(r)
  {
    Builder(None, Synchronous, None, 0, 0, b.delayIsTicks, b.intervalIsTicks)
  }

  /** The constructor: Java's field defaults (both flags false), then `reset`. */
  function New(): (r: Builder)
    ensures r == Reset(r) && !r.delayIsTicks && !r.intervalIsTicks
  {
    Reset(Builder(None, Synchronous, None, 0, 0, false, false))
  }

  /** `async()`: the task will run off the tick loop; nothing else changes. */
  function Async(b: Builder): (r: Builder)
    ensures r.syncType == Asynchronous
    ensures r.consumer == b.consumer && r.name == b.name
    ensures r.delay == b.delay && r.interval == b.interval
    ensures r.delayIsTicks == b.delayIsTicks && r.intervalIsTicks == b.intervalIsTicks
    ensures Valid(b) ==> Valid(r)
  {
    b.(syncType := Asynchronous)
  }

  /** `execute(consumer)`: sets what the task runs; nothing else changes. */
  function Execute(b: Builder, consumer: ConsumerId): (r: Builder)
    ensures r.consumer == Some(consumer)
    ensures r.syncType == b.syncType && r.name == b.name
    ensures r.delay == b.delay && r.interval == b.interval
    ensures r.delayIsTicks == b.delayIsTicks && r.intervalIsTicks == b.intervalIsTicks
    ensures Valid(b) ==> Valid(r)
  {
    b.(consumer := Some(consumer))
  }

  /** `delay(delay, unit)`: non-negative only; stored in milliseconds, no longer in ticks. */
  function Delay(b: Builder, delay: int, unit: TimeUnit): (r: Result<Builder, TaskError>)
    ensures r.Ok? <==> delay >= 0
    ensures r.Err? ==> r.error == IllegalArgument("delay cannot be negative")
    ensures r.Ok? ==> r.value == b.(delay := ToMillis(unit, delay), delayIsTicks := false)
    ensures r.Ok? && Valid(b) ==> Valid(r.value)
  {
    if delay < 0 then Err(IllegalArgument("delay cannot be negative"))
    else Ok(b.(delay := ToMillis(unit, delay), delayIsTicks := false))
  }

  /** `delayTicks(delay)`: non-negative only; stored as given, in ticks. */
  function DelayTicks(b: Builder, delay: int): (r: Result<Builder, TaskError>)
    ensures r.Ok? <==> delay >= 0
    ensures r.Err? ==> r.error == IllegalArgument("delay cannot be negative")
    ensures r.Ok? ==> r.value == b.(delay := delay, delayIsTicks := true)
    ensures r.Ok? && Valid(b) && delay <= LONG_MAX ==> Valid(r.value)
  {
    if delay < 0 then Err(IllegalArgument("delay cannot be negative"))
    else Ok(b.(delay := delay, delayIsTicks := true))
  }

  /** `interval(interval, unit)`: non-negative only; stored in milliseconds, no longer in ticks. */
  function Interval(b: Builder, interval: int, unit: TimeUnit): (r: Result<Builder, TaskError>)
    ensures r.Ok? <==> interval >= 0
    ensures r.Err? ==> r.error == IllegalArgument("interval cannot be negative")
    ensures r.Ok? ==> r.value == b.(interval := ToMillis(unit, interval), intervalIsTicks := false)
    ensures r.Ok? && Valid(b) ==> Valid(r.value)
  {
    if interval < 0 then Err(IllegalArgument("interval cannot be negative"))
    else Ok(b.(interval := ToMillis(unit, interval), intervalIsTicks := false))
  }

  /** `intervalTicks(interval)`: non-negative only; stored as given, in ticks. */
  function IntervalTicks(b: Builder, interval: int): (r: Result<Builder, TaskError>)
    ensures r.Ok? <==> interval >= 0
    ensures r.Err? ==> r.error == IllegalArgument("interval cannot be negative")
    ensures r.Ok? ==> r.value == b.(interval := interval, intervalIsTicks := true)
    ensures r.Ok? && Valid(b) && interval <= LONG_MAX ==> Valid(r.value)
  {
    if interval < 0 then Err(IllegalArgument("interval cannot be negative"))
    else Ok(b.(interval := interval, intervalIsTicks := true))
  }

  /** `name(name)`: a null or empty name is refused. */
  function Name(b: Builder, name: Option<string>): (r: Result<Builder, TaskError>)
    ensures r.Ok? <==> name.Some? && |name.value| > 0
    ensures r.Ok? ==> r.value == b.(name := name)
  {
    if name.None? || |name.value| == 0 then Err(IllegalArgument("name"))
    else Ok(b.(name := name))
  }

  /**
   * A tick count as milliseconds, with `long` multiplication: the exact
   * product when it fits in a long, otherwise the product wrapped modulo 2^64.
   */
  function TicksToMillis(ticks: int, tickDuration: int): (ms: int)
    ensures Int64.Contains(ms)
    ensures (ms - ticks * tickDuration) % Int64.Modulus() == 0
    ensures Int64.Contains(ticks * tickDuration) ==> ms == ticks * tickDuration
  {
    Wrap(Int64, ticks * tickDuration)
  }

  /**
   * `submit(plugin)`: needs a plugin and a consumer; an unset name falls
   * back to the scheduler's generated name. An asynchronous task is not run
   * by the tick loop, so its tick values are converted to milliseconds and
   * both flags cleared; a synchronous task takes the values as they are.
   */
  function Submit(b: Builder, plugin: Option<PluginId>, generatedName: (PluginId, Synchronicity) -> string,
                  tickDuration: int): (r: Result<ScheduledTask, TaskError>)
    ensures r.Ok? <==> plugin.Some? && b.consumer.Some?
    ensures plugin.Some? && b.consumer.None? ==> r == Err(IllegalState("consumer not set"))
    ensures r.Ok? ==> r.value.consumer == b.consumer.value && r.value.plugin == plugin.value && r.value.syncType == b.syncType
    ensures r.Ok? ==> r.value.name == if b.name.Some? then b.name.value else generatedName(plugin.value, b.syncType)
    ensures r.Ok? && b.syncType == Synchronous ==>
      && r.value.delay == b.delay && r.value.delayIsTicks == b.delayIsTicks
      && r.value.interval == b.interval && r.value.intervalIsTicks == b.intervalIsTicks
    ensures r.Ok? && b.syncType == Asynchronous ==>
      && !r.value.delayIsTicks && !r.value.intervalIsTicks
      && r.value.delay == (if b.delayIsTicks then TicksToMillis(b.delay, tickDuration) else b.delay)
      && r.value.interval == (if b.intervalIsTicks then TicksToMillis(b.interval, tickDuration) else b.interval)
  {
    if plugin.None? then Err(IllegalArgument("plugin"))
    else if b.consumer.None? then Err(IllegalState("consumer not set"))
    else
      var name := if b.name.None? then generatedName(plugin.value, b.syncType) else b.name.value;
      var async := b.syncType == Asynchronous;
      var delay := if async && b.delayIsTicks then TicksToMillis(b.delay, tickDuration) else b.delay;
      var interval := if async && b.intervalIsTicks then TicksToMillis(b.interval, tickDuration) else b.interval;
      Ok(ScheduledTask(b.syncType, b.consumer.value, name, delay, !async && b.delayIsTicks,
                       interval, !async && b.intervalIsTicks, plugin.value))
  }

  /**
   * A built task: `execute` is what makes `submit` succeed (given a
   * plugin), and the task runs that consumer; after `async` it is
   * asynchronous and counts both delay and interval in milliseconds.
   */
  lemma ExecuteThenSubmit(b: Builder, consumer: ConsumerId, plugin: PluginId,
                          generatedName: (PluginId, Synchronicity) -> string, tickDuration: int)
    ensures var r := Submit(Execute(b, consumer), Some(plugin), generatedName, tickDuration);
      r.Ok? && r.value.consumer == consumer && r.value.plugin == plugin
    ensures var r := Submit(Async(Execute(b, consumer)), Some(plugin), generatedName, tickDuration);
      r.Ok? && r.value.syncType == Asynchronous && !r.value.delayIsTicks && !r.value.intervalIsTicks
  {
  }

  /** The tick flag records which setter ran last, whatever happened before. */
  lemma LastSetterWins(b: Builder, d: nat, unit: TimeUnit)
    ensures DelayTicks(Delay(b, d, unit).value, d).value.delayIsTicks
    ensures !Delay(DelayTicks(b, d).value, d, unit).value.delayIsTicks
    ensures Delay(DelayTicks(b, d).value, d, unit).value.delay == ToMillis(unit, d)
  {
  }

  /** A reset zeroes the delay but keeps the flag saying it is counted in ticks. */
  lemma ResetKeepsTickFlags(b: Builder, d: nat)
    ensures Reset(DelayTicks(b, d).value).delayIsTicks
    ensures Reset(DelayTicks(b, d).value).delay == 0
  {
  }
}
