/** The TEST_MODE source of charge_level: one static integer, the level,
    walks a sawtooth. Each query first advances the level (by 5 up to 100,
    then back to -100) and then reports it: a negative level is a
    discharging battery at the level's magnitude. */
module Synthetic {
  import opened BatteryTypes

  /** The value of the static level before the first query. */
  const InitialLevel := 0

  /** The minutes every synthetic reading reports. */
  const FixedMinutes := 30

  /** The number of queries after which the sawtooth repeats. */
  const Period := 41

  /** Levels the sawtooth can reach: multiples of 5 between -100 and 100. */
  predicate ValidLevel(level: int) {
    -100 <= level <= 100 && level % 5 == 0
  }

  /** The level after one more query: five higher while below 100, and
      from 100 (or above) back to -100. On valid levels this is one step
      along the 41-phase cycle (NextPhase). */
  function Next(level: int): (n: int)
    ensures level < 100 ==> n - level == 5
    ensures level >= 100 ==> n == -100
    ensures ValidLevel(level) ==> ValidLevel(n)
  {
    if level < 100 then level + 5 else -100
  }

  /** The reading reported for a level that has just been reached. */
  function ReadingOf(level: int): (r: Reading)
    ensures r.capacity == (if level < 0 then -level else level)
    ensures r.minutes == FixedMinutes
    ensures r.status != Unknown
    ensures r.status == Discharging <==> level < 0
    ensures r.status == ExtPower <==> level == 100
    ensures r.status == Charging <==> 0 <= level != 100
  {
    if level < 0 then Reading(-level, Discharging, FixedMinutes)
    else if level == 100 then Reading(level, ExtPower, FixedMinutes)
    else Reading(level, Charging, FixedMinutes)
  }

  /** The result of one synthetic query: the new level and its reading. */
  datatype SynthResult = SynthResult(level: int, reading: Reading)

  /** One synthetic query: advance, then report. Valid levels stay valid,
      so the capacity is always between 0 and 100. */
  function Query(level: int): (q: SynthResult)
    ensures q.reading == ReadingOf(q.level)
    ensures ValidLevel(level) ==> ValidLevel(q.level) && 0 <= q.reading.capacity <= 100
    ensures q.level > level <==> level < 100
    ensures ValidLevel(level) ==> Phase(q.level) == (Phase(level) + 1) % Period
  {
    SynthResult(Next(level), ReadingOf(Next(level)))
  }

  /** The level after n queries. */
  function Iterate(level: int, n: nat): int
  {
    if n == 0 then level else Next(Iterate(level, n - 1))
  }

  /** Where a valid level sits in the cycle 0, 5, ..., 100, -100, ..., -5. */
  function Phase(level: int): (p: int)
    requires ValidLevel(level)
    ensures 0 <= p < Period
  {
    if level >= 0 then level / 5 else Period + level / 5
  }

  /** The level at a phase of the cycle: the inverse of Phase. */
  function LevelAt(p: int): (level: int)
    requires 0 <= p < Period
    ensures ValidLevel(level) && Phase(level) == p
  {
    if p <= 20 then 5 * p else 5 * p - 5 * Period
  }

  /** Phase identifies a valid level. */
  lemma PhaseInjective(a: int, b: int)
    requires ValidLevel(a) && ValidLevel(b)
    ensures Phase(a) == Phase(b) <==> a == b
  {
  }

  /** One query moves one phase along the cycle. */
  lemma NextPhase(level: int)
    requires ValidLevel(level)
    ensures ValidLevel(Next(level))
    ensures Phase(Next(level)) == (Phase(level) + 1) % Period
  {
  }

  /** n queries move n phases along the cycle. */
  lemma {:induction false} IteratePhase(level: int, n: nat)
    requires ValidLevel(level)
    ensures ValidLevel(Iterate(level, n))
    ensures Phase(Iterate(level, n)) == (Phase(level) + n) % Period
    decreases n
  {
    if n > 0 {
      var m := Iterate(level, n - 1);
      IteratePhase(level, n - 1);
      NextPhase(m);
      StepAround(Phase(level) + n - 1);
    }
  }

  /** Stepping once around the cycle commutes with reducing modulo 41. */
  lemma StepAround(x: nat)
    ensures (x % Period + 1) % Period == (x + 1) % Period
  {
  }

  /** From any valid level, the sawtooth returns to it after exactly the
      multiples of 41 queries: its period is 41. */
  lemma Periodic(level: int, n: nat)
    requires ValidLevel(level)
    ensures Iterate(level, n) == level <==> n % Period == 0
  {
    var m := Iterate(level, n);
    IteratePhase(level, n);
    PhaseInjective(m, level);
    ShiftReturns(Phase(level), n);
  }

  /** Moving n places around the cycle returns to the start exactly when n
      is a multiple of the period. */
  lemma ShiftReturns(p: int, n: nat)
    requires 0 <= p < Period
    ensures (p + n) % Period == p <==> n % Period == 0
  {
    var r := n % Period;
    assert n == (n / Period) * Period + r;
    assert (p + n) % Period == (p + r) % Period;
  }

  /** The level after n queries from the initial level, in closed form:
      20 steps up to 100, a jump to -100, 20 steps back up to 0. */
  lemma LevelFromStart(n: nat)
    ensures Iterate(InitialLevel, n) == LevelAt(n % Period)
  {
    IteratePhase(InitialLevel, n);
    PhaseInjective(Iterate(InitialLevel, n), LevelAt(n % Period));
  }

  /** The readings from the start: the k-th query of each period (k from 1)
      reports charging at 5k below 100, external power at 100 (k = 20),
      then discharging from 100 down to 5, and charging at 0 to close the
      period. */
  lemma ReadingsFromStart(n: nat)
    ensures var k := n % Period;
            var r := ReadingOf(Iterate(InitialLevel, n));
            && r.minutes == FixedMinutes
            && (k < 20 ==> r == Reading(5 * k, Charging, FixedMinutes))
            && (k == 20 ==> r == Reading(100, ExtPower, FixedMinutes))
            && (k > 20 ==> r == Reading(5 * (Period - k), Discharging, FixedMinutes))
  {
    LevelFromStart(n);
  }
}
