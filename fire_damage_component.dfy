/**
 * The fire-damage component of an entity controller. While the entity burns
 * (`fireTicks > 0`) the scheduler runs the component once per tick: a
 * non-flammable entity burns out four ticks at a time and takes no damage; a
 * flammable one burns out one tick at a time and takes 1 point of fire-contact
 * damage whenever the counter is a multiple of 20. The two fields are saved to
 * and restored from the controller's data map around (un)registration.
 */
module FireDamage {
  import opened JavaTypes

  const NonFlammableBurnRate: int := 4
  const FlammableBurnRate: int := 1
  const DamageInterval: int := 20
  const FireDamageAmount: int := 1

  datatype DamageCause = FireContact

  /** One call of the parent's `getHealth().damage(amount, cause)`. */
  datatype DamageEvent = DamageEvent(amount: int, cause: DamageCause)

  /** The ticks one `run()` takes off the counter. */
  function BurnRate(flammable: bool): int {
    if flammable then FlammableBurnRate else NonFlammableBurnRate
  }

  /** The counter after one `run()`: decremented by the burn rate and clamped at zero. */
  function NextFireTicks(ticks: int, flammable: bool): (next: int)
    ensures next >= 0
    ensures ticks > 0 ==> next < ticks
    ensures ticks - BurnRate(flammable) >= 0 ==> next == ticks - BurnRate(flammable)
    ensures ticks - BurnRate(flammable) < 0 ==> next == 0
  {
    var t := ticks - BurnRate(flammable);
    if t < 0 then 0 else t
  }

  /** Whether one `run()` from `ticks` deals damage. */
  predicate DamagedThisTick(ticks: int, flammable: bool) {
    // Java's `%` truncates and Dafny's is Euclidean; both are zero exactly on multiples of 20.
    flammable && ticks % DamageInterval == 0
  }

  /** The damage one `run()` from `ticks` appends to the parent's health log. */
  function TickDamage(ticks: int, flammable: bool): (d: seq<DamageEvent>)
    ensures |d| <= 1
    ensures |d| == 1 <==> flammable && ticks % DamageInterval == 0
    ensures forall e | e in d :: e == DamageEvent(FireDamageAmount, FireContact)
  {
    if DamagedThisTick(ticks, flammable) then [DamageEvent(FireDamageAmount, FireContact)] else []
  }

  /** `fireTicks` after `k` runs, ungated. */
  function TicksAfter(ticks: int, flammable: bool, k: nat): int
    decreases k
  {
    if k == 0 then ticks else TicksAfter(NextFireTicks(ticks, flammable), flammable, k - 1)
  }

  /** The number of runs a scheduler performs while `shouldRun` holds. */
  function RunsUntilOut(ticks: int, flammable: bool): nat
    decreases if ticks > 0 then ticks else 0
  {
    if ticks <= 0 then 0 else 1 + RunsUntilOut(NextFireTicks(ticks, flammable), flammable)
  }

  /** The number of damage events dealt during those runs. */
  function DamageUntilOut(ticks: int, flammable: bool): nat
    decreases if ticks > 0 then ticks else 0
  {
    if ticks <= 0 then 0
    else (if DamagedThisTick(ticks, flammable) then 1 else 0)
         + DamageUntilOut(NextFireTicks(ticks, flammable), flammable)
  }

  /** After `k` runs a counter that started at `ticks >= 0` is `max(ticks - k * rate, 0)`. */
  lemma {:induction false} TicksAfterRuns(ticks: int, flammable: bool, k: nat)
    requires ticks >= 0
    ensures var left := ticks - k * BurnRate(flammable);
            TicksAfter(ticks, flammable, k) == if left < 0 then 0 else left
  {
    if k > 0 {
      var next := NextFireTicks(ticks, flammable);
      TicksAfterRuns(next, flammable, k - 1);
      if ticks - BurnRate(flammable) < 0 {
        assert next == 0;
      }
    }
  }

  /** Whatever the flag, a counter `n >= 0` reaches zero within `n` runs and stays there. */
  lemma BurnsOutWithin(ticks: int, flammable: bool, k: nat)
    requires ticks >= 0 && k >= ticks
    ensures TicksAfter(ticks, flammable, k) == 0
  {
    TicksAfterRuns(ticks, flammable, k);
  }

  /** A flammable entity at `n > 0` burns for exactly `n` runs, a non-flammable one for `ceil(n / 4)`. */
  lemma {:induction false} RunsUntilOutCount(ticks: int, flammable: bool)
    ensures ticks <= 0 ==> RunsUntilOut(ticks, flammable) == 0
    ensures ticks > 0 && flammable ==> RunsUntilOut(ticks, flammable) == ticks
    ensures ticks > 0 && !flammable ==> RunsUntilOut(ticks, flammable) == (ticks + 3) / 4
    decreases if ticks > 0 then ticks else 0
  {
    if ticks > 0 {
      RunsUntilOutCount(NextFireTicks(ticks, flammable), flammable);
    }
  }

  /** A flammable entity at `n >= 0` takes `n / 20` damage before it stops burning; a non-flammable one none. */
  lemma {:induction false} DamageUntilOutCount(ticks: int, flammable: bool)
    ensures ticks <= 0 ==> DamageUntilOut(ticks, flammable) == 0
    ensures ticks > 0 && flammable ==> DamageUntilOut(ticks, flammable) == ticks / DamageInterval
    ensures !flammable ==> DamageUntilOut(ticks, flammable) == 0
    decreases if ticks > 0 then ticks else 0
  {
    if ticks > 0 {
      var next := NextFireTicks(ticks, flammable);
      DamageUntilOutCount(next, flammable);
      if flammable {
        assert next == ticks - 1;
        assert ticks / 20 == (ticks - 1) / 20 + (if ticks % 20 == 0 then 1 else 0);
      }
    }
  }

  /** The parent entity controller: the component's two data-map entries and its health log. */
  class EntityController {
    /** The `VanillaData.FIRE_TICKS` entry of `data()`. */
    var storedFireTicks: Int32
    /** The `VanillaData.FLAMMABLE` entry of `data()`. */
    var storedFlammable: bool
    /** Every `getHealth().damage(...)` call so far, oldest first. */
    var damageTaken: seq<DamageEvent>

    constructor (storedFireTicks: Int32, storedFlammable: bool)
      ensures this.storedFireTicks == storedFireTicks && this.storedFlammable == storedFlammable
      ensures damageTaken == []
    {
      this.storedFireTicks := storedFireTicks;
      this.storedFlammable := storedFlammable;
      damageTaken := [];
    }

    /** `getHealth().damage(amount, cause)`. */
    method Damage(amount: int, cause: DamageCause)
      modifies this`damageTaken
      ensures damageTaken == old(damageTaken) + [DamageEvent(amount, cause)]
    {
      damageTaken := damageTaken + [DamageEvent(amount, cause)];
    }
  }

  class FireDamageComponent {
    var fireTicks: Int32
    var isFlammable: bool
    const parent: EntityController

    /** A fresh component is not burning and is flammable. */
    constructor (parent: EntityController)
      ensures this.parent == parent
      ensures fireTicks == 0 && isFlammable
    {
      this.parent := parent;
      fireTicks := 0;
      isFlammable := true;
    }

    /** `onRegistration`: restore both fields from the parent's data map. */
    method OnRegistration()
      modifies this`fireTicks, this`isFlammable
      ensures fireTicks == parent.storedFireTicks && isFlammable == parent.storedFlammable
    {
      fireTicks := parent.storedFireTicks;
      isFlammable := parent.storedFlammable;
    }

    /** `onUnregistration`: save both fields into the parent's data map. */
    method OnUnregistration()
      modifies parent`storedFireTicks, parent`storedFlammable
      ensures parent.storedFireTicks == fireTicks && parent.storedFlammable == isFlammable
    {
      parent.storedFireTicks := fireTicks;
      parent.storedFlammable := isFlammable;
    }

    method IsFlammable() returns (flammable: bool)
      ensures flammable == isFlammable
    {
      flammable := isFlammable;
    }

    /** `setFlammable`: changes the flag and nothing else. */
    method SetFlammable(flammable: bool)
      modifies this`isFlammable
      ensures isFlammable == flammable
    {
      isFlammable := flammable;
    }

    method GetFireTicks() returns (ticks: Int32)
      ensures ticks == fireTicks
    {
      ticks := fireTicks;
    }

    /**
     * `setFireTicks`: a positive duration is first offered to the combust
     * listener, which answers the duration actually stored; zero and negative
     * durations are stored as given, without consulting it.
     */
    method SetFireTicks(ticks: Int32, combust: Int32 -> Int32)
      modifies this`fireTicks
      ensures ticks > 0 ==> fireTicks == combust(ticks)
      ensures ticks <= 0 ==> fireTicks == ticks
    {
      var duration := ticks;
      if duration > 0 {
        duration := combust(duration);
      }
      fireTicks := duration;
    }

    /**
     * `run`: one tick of burning. The requires excludes the 32-bit wrap-around
     * of the decrement, which only a counter near the smallest int can reach.
     */
    method Run()
      requires fireTicks as int - BurnRate(isFlammable) >= -0x8000_0000
      modifies this`fireTicks, parent`damageTaken
      ensures fireTicks as int == NextFireTicks(old(fireTicks) as int, isFlammable)
      ensures parent.damageTaken == old(parent.damageTaken) + TickDamage(old(fireTicks) as int, isFlammable)
    {
      if !isFlammable {
        fireTicks := fireTicks - 4;
        if fireTicks < 0 {
          fireTicks := 0;
        }
        return;
      }

      if fireTicks % 20 == 0 {
        parent.Damage(1, FireContact);
      }

      fireTicks := fireTicks - 1;
      if fireTicks < 0 {
        fireTicks := 0;
      }
    }

    /** `shouldRun(dt)`: the component ticks exactly while it burns; `dt` plays no part. */
    method ShouldRun(dt: real) returns (run: bool)
      ensures run <==> fireTicks > 0
    {
      run := fireTicks > 0;
    }
  }

  /**
   * The scheduler's view of one burning session: run the component while it
   * asks to be run. It runs `RunsUntilOut` times (the ghost `runs`); a
   * burning entity's fire goes out and the parent takes
   * exactly the `DamageUntilOut` fire-contact hits, appended to its log; a
   * counter that is zero or negative is never run and stays as it is.
   */
  method BurnOut(c: FireDamageComponent) returns (ghost runs: nat)
    modifies c`fireTicks, c.parent`damageTaken
    ensures runs == RunsUntilOut(old(c.fireTicks) as int, c.isFlammable)
    ensures old(c.fireTicks) > 0 ==> c.fireTicks == 0
    ensures old(c.fireTicks) <= 0 ==> c.fireTicks == old(c.fireTicks)
    ensures |c.parent.damageTaken| == |old(c.parent.damageTaken)| + DamageUntilOut(old(c.fireTicks) as int, c.isFlammable)
    ensures c.parent.damageTaken[..|old(c.parent.damageTaken)|] == old(c.parent.damageTaken)
    ensures forall i | |old(c.parent.damageTaken)| <= i < |c.parent.damageTaken| ::
              c.parent.damageTaken[i] == DamageEvent(FireDamageAmount, FireContact)
  {
    var go := c.ShouldRun(0.0);
    runs := 0;
    while go
      invariant go <==> c.fireTicks > 0
      invariant old(c.fireTicks) > 0 ==> c.fireTicks >= 0
      invariant old(c.fireTicks) <= 0 ==> c.fireTicks == old(c.fireTicks)
      invariant |c.parent.damageTaken| + DamageUntilOut(c.fireTicks as int, c.isFlammable)
                == |old(c.parent.damageTaken)| + DamageUntilOut(old(c.fireTicks) as int, c.isFlammable)
      invariant runs + RunsUntilOut(c.fireTicks as int, c.isFlammable) == RunsUntilOut(old(c.fireTicks) as int, c.isFlammable)
      invariant |old(c.parent.damageTaken)| <= |c.parent.damageTaken|
      invariant c.parent.damageTaken[..|old(c.parent.damageTaken)|] == old(c.parent.damageTaken)
      invariant forall i | |old(c.parent.damageTaken)| <= i < |c.parent.damageTaken| ::
                  c.parent.damageTaken[i] == DamageEvent(FireDamageAmount, FireContact)
      decreases c.fireTicks
    {
      c.Run();
      runs := runs + 1;
      go := c.ShouldRun(0.0);
    }
  }

  /** A fresh component does not ask to be run. */
  method FreshComponentIdle(parent: EntityController) returns (run: bool)
    ensures !run
  {
    var c := new FireDamageComponent(parent);
    run := c.ShouldRun(0.0);
  }

  /** Unregistering and registering again restores both fields and changes nothing else in the component. */
  method Reregister(c: FireDamageComponent)
    modifies c.parent`storedFireTicks, c.parent`storedFlammable, c`fireTicks, c`isFlammable
    ensures c.fireTicks == old(c.fireTicks) && c.isFlammable == old(c.isFlammable)
    ensures c.parent.storedFireTicks == c.fireTicks && c.parent.storedFlammable == c.isFlammable
    ensures c.parent.damageTaken == old(c.parent.damageTaken)
  {
    c.OnUnregistration();
    c.OnRegistration();
  }
}
