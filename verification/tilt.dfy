/** Tilt detection of root/js/main.js (`handleMotion`, `triggerAction`):
    a z-acceleration spike becomes Skip or Correct, gated by the presence of a
    game and by a 1000 ms cooldown. Time is an integer number of milliseconds. */
module Tilt {
  import opened Wrappers

  /** Spike magnitude, in m/s², that registers a tilt. */
  const AccelThreshold: real := 4.0
  /** Milliseconds after an accepted tilt before the next one can register. */
  const TiltCooldownMs: int := 1000

  datatype Action = Correct | Skip

  /** `tiltCooldown` together with its pending single-shot timer: while `Cooling`,
      the flag is set and the timer clears it at `releaseAt`. */
  datatype Cooldown = Ready | Cooling(releaseAt: int)

  /** The z component of a sample: `(event.acceleration || {}).z ?? 0`. */
  function AxisZ(z: Option<real>): (r: real)
    ensures z.None? ==> r == 0.0
    ensures z.Some? ==> r == z.value
  {
    z.GetOr(0.0)
  }

  /** Forward nod is a positive spike (skip), looking up a negative one (correct);
      the comparisons are strict. */
  function Classify(z: real): (r: Option<Action>)
    ensures r == Some(Skip) <==> z > AccelThreshold
    ensures r == Some(Correct) <==> z < -AccelThreshold
    ensures r == None <==> -AccelThreshold <= z <= AccelThreshold
  {
    if z > AccelThreshold then Some(Skip)
    else if z < -AccelThreshold then Some(Correct)
    else None
  }

  /** Reversing the spike swaps the verdict. */
  lemma ClassifyMirror(z: real)
    ensures Classify(z) == Some(Skip) <==> Classify(-z) == Some(Correct)
    ensures Classify(z) == None <==> Classify(-z) == None
  {
  }

  /** Whether `tiltCooldown` is still set at time `now`: the timer fires at `releaseAt`. */
  predicate Active(c: Cooldown, now: int) {
    c.Cooling? && now < c.releaseAt
  }

  /** The flag as seen at time `now`, with the timer applied if it has fired. */
  function Settle(c: Cooldown, now: int): (r: Cooldown)
    ensures Active(r, now) <==> Active(c, now)
    ensures r.Cooling? ==> r == c
    ensures !Active(c, now) ==> r == Ready
  {
    if Active(c, now) then c else Ready
  }

  datatype Reaction = Reaction(cooldown: Cooldown, action: Option<Action>)

  /** One motion sample at time `now`. `sessionPresent` is `gameState != null`. */
  function HandleMotion(c: Cooldown, sessionPresent: bool, now: int, z: Option<real>): (r: Reaction)
    ensures r.action.Some? <==> sessionPresent && !Active(c, now) && Classify(AxisZ(z)).Some?
    ensures r.action.Some? ==> r.action == Classify(AxisZ(z)) && r.cooldown == Cooling(now + TiltCooldownMs)
    ensures r.action.None? ==> r.cooldown == Settle(c, now)
  {
    var c' := Settle(c, now);
    if !sessionPresent || Active(c', now) then Reaction(c', None)
    else
      match Classify(AxisZ(z))
      case None => Reaction(c', None)
      case Some(a) => Reaction(Cooling(now + TiltCooldownMs), Some(a))
  }

  /** Only the timer clears the cooldown: while it is set, samples change nothing. */
  lemma CooldownBlocksUntilRelease(c: Cooldown, present: bool, now: int, z: Option<real>)
    requires Active(c, now)
    ensures HandleMotion(c, present, now, z) == Reaction(c, None)
  {
  }

  /** A sample with no acceleration data never registers. */
  lemma MissingAccelerationIgnored(c: Cooldown, present: bool, now: int)
    ensures HandleMotion(c, present, now, None).action == None
  {
  }

  /** Two spikes less than the cooldown apart register exactly once; a spike at or
      after the cooldown registers again as its own sign says. */
  lemma TwoSpikes(c: Cooldown, t1: int, z1: Option<real>, t2: int, z2: Option<real>)
    requires HandleMotion(c, true, t1, z1).action.Some?
    requires t1 <= t2
    ensures t2 < t1 + TiltCooldownMs ==>
      HandleMotion(HandleMotion(c, true, t1, z1).cooldown, true, t2, z2).action == None
    ensures t2 >= t1 + TiltCooldownMs ==>
      HandleMotion(HandleMotion(c, true, t1, z1).cooldown, true, t2, z2).action == Classify(AxisZ(z2))
  {
  }
}
