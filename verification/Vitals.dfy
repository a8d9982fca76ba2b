/**
  Health of a player: hits (Object/GameObject.cpp:25-42), regeneration
  (Object/Player.cpp:49-70) and the refill on respawn (Session/Room.cpp:147),
  on unsigned 32-bit health and a 64-bit millisecond clock.
 */
module VitalSigns {
  import opened Wire

  const MAX_HP: nat := 100
  const REGEN: nat := 10
  const REGEN_PERIOD: nat := 5000
  const HIT_PAUSE: nat := 3000

  datatype Hp = Hp(hp: U32, lastHit: U64, lastRegen: U64)

  // m_hp -= amount on unsigned numbers.
  function Hit(s: Hp, amount: I32, now: U64): Hp {
    Hp((s.hp - amount) % TWO_32, now, s.lastRegen)
  }

  predicate Regenerates(s: Hp, now: U64) {
    now >= (s.lastHit + HIT_PAUSE) % TWO_64 && now >= (s.lastRegen + REGEN_PERIOD) % TWO_64
  }

  function Min(a: nat, b: nat): nat {
    if a <= b then a else b
  }

  function Ticked(s: Hp, now: U64): Hp {
    if Regenerates(s, now) then Hp(Min((s.hp + REGEN) % TWO_32, MAX_HP), s.lastHit, now) else s
  }

  function Refilled(s: Hp): Hp {
    s.(hp := MAX_HP)
  }

  class Vitals {
    var hp: U32
    var lastHitTime: U64
    var lastRegenTime: U64
    const maxHp: U32 := MAX_HP

    constructor ()
      ensures State() == Hp(0, 0, 0)
    {
      hp, lastHitTime, lastRegenTime := 0, 0, 0;
    }

    ghost function State(): Hp
      reads this
    {
      Hp(hp, lastHitTime, lastRegenTime)
    }

    method SetHp(value: U32)
      modifies this
      ensures State() == old(State()).(hp := value)
    {
      hp := value;
    }

    // Tells whether the object has died of it.
    method TakeDamage(amount: I32, now: U64) returns (died: bool)
      modifies this
      ensures State() == Hit(old(State()), amount, now)
      ensures died <==> Hit(old(State()), amount, now).hp == 0
    {
      hp := (hp - amount) % TWO_32;
      lastHitTime := now;
      died := false;
      if hp <= 0 {
        hp := 0;
        died := true;
      }
    }

    // Tells whether there is a new value to announce.
    method Tick(now: U64) returns (changed: bool)
      modifies this
      ensures State() == Ticked(old(State()), now)
      ensures changed <==> Regenerates(old(State()), now)
    {
      if now < (lastHitTime + HIT_PAUSE) % TWO_64 {
        return false;
      }
      changed := false;
      if now >= (lastRegenTime + REGEN_PERIOD) % TWO_64 {
        lastRegenTime := now;
        var value := (hp + REGEN) % TWO_32;
        SetHp(if value <= maxHp then value else maxHp);
        changed := true;
      }
    }
  }

  // ------------------------------------------------------------- single hits

  // A hit takes away exactly its amount iff the result is a 32-bit number.
  lemma {:induction false} HitExact(s: Hp, amount: I32, now: U64)
    ensures Hit(s, amount, now).hp == s.hp - amount <==> 0 <= s.hp - amount < TWO_32
  {
  }

  // What any hit makes of a healthy player.  One larger than the health neither
  // kills nor leaves a value in range, and the next regeneration turns that
  // value into full health, or into what the sum wraps to; one of a negative
  // amount heals, also beyond the maximum.
  lemma {:induction false} HitOutcome(s: Hp, amount: I32, now: U64, later: U64)
    requires s.hp <= 100
    ensures var w := Hit(s, amount, now);
            && (w.hp <= 100 <==> 0 <= s.hp - amount <= 100)
            && (w.hp == 0 <==> amount == s.hp)
            && (Regenerates(w, later) ==>
                  Ticked(w, later).hp ==
                  if amount > s.hp + 10 || s.hp + 10 - amount > 100 then 100 else s.hp + 10 - amount)
  {
    var w := Hit(s, amount, now);
    assert w.hp == if amount > s.hp then s.hp - amount + TWO_32 else s.hp - amount;
    if Regenerates(w, later) {
      assert amount > s.hp ==> (w.hp + REGEN) % TWO_32 == if amount > s.hp + 10 then w.hp + 10 else s.hp + 10 - amount;
    }
  }

  lemma {:induction false} OverkillExample(now: U64, later: U64)
    requires now < TWO_64 - 3000 && later >= now + 5000
    ensures Hit(Hp(10, 0, 0), 50, now).hp == 4294967256
    ensures Ticked(Hit(Hp(10, 0, 0), 50, now), later).hp == 100
  {
  }

  // A request's damage of 0xFFFFFFFF is the amount -1.
  lemma {:induction false} OverhealExample(now: U64)
    ensures Hit(Hp(100, 0, 0), TruncateToI32(0xFFFF_FFFF), now).hp == 101
  {
  }

  // Full health regenerates too, so a new player does after five seconds.
  lemma {:induction false} NewPlayerTicks(now: U64)
    ensures Regenerates(Hp(100, 0, 0), now) <==> now >= 5000
    ensures Ticked(Hp(100, 0, 0), now).hp == 100
  {
  }

  // -------------------------------------------------------------------- runs

  datatype Event = HitAt(amount: I32, time: U64) | TickAt(time: U64) | RefillAt(time: U64)

  function Step(s: Hp, e: Event): Hp {
    match e
    case HitAt(amount, now) => Hit(s, amount, now)
    case TickAt(now) => Ticked(s, now)
    case RefillAt(_) => Refilled(s)
  }

  function Run(s: Hp, es: seq<Event>): Hp
    decreases |es|
  {
    if es == [] then s else Run(Step(s, es[0]), es[1..])
  }

  // Every hit leaves the health it meets between 0 and 100.
  predicate Fair(s: Hp, es: seq<Event>)
    decreases |es|
  {
    es == [] || ((es[0].HitAt? ==> 0 <= s.hp - es[0].amount <= 100) && Fair(Step(s, es[0]), es[1..]))
  }

  function Damage(es: seq<Event>): int {
    if es == [] then 0 else (if es[0].HitAt? then es[0].amount else 0) + Damage(es[1..])
  }

  // Health added by ticks, and by refills.
  function Gains(s: Hp, es: seq<Event>): int
    decreases |es|
  {
    if es == [] then 0
    else (if es[0].TickAt? then Step(s, es[0]).hp - s.hp else 0) + Gains(Step(s, es[0]), es[1..])
  }

  function Refills(s: Hp, es: seq<Event>): int
    decreases |es|
  {
    if es == [] then 0
    else (if es[0].RefillAt? then 100 - s.hp else 0) + Refills(Step(s, es[0]), es[1..])
  }

  // How often the subtraction wraps below 0, less how often above 32 bits.
  function Wraps(s: Hp, es: seq<Event>): int
    decreases |es|
  {
    if es == [] then 0
    else
      var left := if es[0].HitAt? then s.hp - es[0].amount else s.hp;
      (if left < 0 then 1 else if left >= TWO_32 then -1 else 0) + Wraps(Step(s, es[0]), es[1..])
  }

  // Over any run the health stays in range at every point exactly when every
  // hit left it there, judged by its amount alone.
  lemma {:induction false} RangeExactly(s: Hp, es: seq<Event>)
    ensures (forall k :: 0 <= k <= |es| ==> Run(s, es[..k]).hp <= 100) <==> s.hp <= 100 && Fair(s, es)
    decreases |es|
  {
    assert Run(s, es[..0]) == s;
    if es != [] && s.hp <= MAX_HP {
      var w, tail := Step(s, es[0]), es[1..];
      assert es[..1][1..] == [];
      assert Run(s, es[..1]) == w;
      if w.hp <= MAX_HP {
        RangeExactly(w, tail);
        forall k | 0 <= k <= |tail| ensures Run(s, es[..k + 1]) == Run(w, tail[..k]) {
          assert es[..k + 1][1..] == tail[..k];
        }
        if Fair(s, es) {
          forall k | 0 <= k <= |es| ensures Run(s, es[..k]).hp <= MAX_HP {
            if k > 0 {
              assert Run(s, es[..k - 1 + 1]) == Run(w, tail[..k - 1]);
            }
          }
        }
      }
    }
  }

  // After any run the health is that at the start, less the damage, plus gains
  // and refills, and 2^32 for every wrap; fair runs have none.
  lemma {:induction false} HealthAccount(s: Hp, es: seq<Event>)
    ensures Run(s, es).hp == s.hp - Damage(es) + Gains(s, es) + Refills(s, es) + TWO_32 * Wraps(s, es)
    ensures Fair(s, es) ==> Wraps(s, es) == 0
    decreases |es|
  {
    if es != [] {
      HealthAccount(Step(s, es[0]), es[1..]);
    }
  }

  // ---------------------------------------------------------- gains over time

  // Times never go back and lie in [from, to]; the clock is far from its end.
  predicate Within(es: seq<Event>, from: nat, to: nat) {
    if es == [] then from <= to else from <= es[0].time <= to && Within(es[1..], es[0].time, to)
  }

  predicate Past(s: Hp, now: nat) {
    s.lastHit <= now && s.lastRegen <= now
  }

  function Regenerations(s: Hp, es: seq<Event>): nat
    decreases |es|
  {
    if es == [] then 0
    else (if es[0].TickAt? && Regenerates(s, es[0].time) then 1 else 0) + Regenerations(Step(s, es[0]), es[1..])
  }

  // Regenerations are at least 5000 milliseconds apart.
  lemma {:induction false} RegenerationBound(s: Hp, es: seq<Event>, from: nat, to: nat)
    requires Within(es, from, to) && Past(s, from) && to < TWO_64 - 5000
    ensures var next := if s.lastRegen + 5000 > from then s.lastRegen + 5000 else from;
            Regenerations(s, es) <= if next > to then 0 else (to - next) / 5000 + 1
    decreases |es|
  {
    if es != [] {
      RegenerationBound(Step(s, es[0]), es[1..], es[0].time, to);
    }
  }

  lemma {:induction false} GainsOfRegenerations(s: Hp, es: seq<Event>)
    ensures Gains(s, es) <= 10 * Regenerations(s, es)
    ensures s.hp <= 100 && Fair(s, es) ==> Gains(s, es) >= 0
    decreases |es|
  {
    if es != [] {
      GainsOfRegenerations(Step(s, es[0]), es[1..]);
    }
  }

  // In any window of T milliseconds the ticks give at most 10 * (T/5000 + 1),
  // whatever hits there are; in a fair run they never take any away.
  lemma {:induction false} GainsInWindow(s: Hp, es: seq<Event>, from: nat, to: nat)
    requires Past(s, from) && Within(es, from, to) && from <= to < TWO_64 - 5000
    ensures Gains(s, es) <= 10 * ((to - from) / 5000 + 1)
    ensures s.hp <= 100 && Fair(s, es) ==> Gains(s, es) >= 0
  {
    RegenerationBound(s, es, from, to);
    GainsOfRegenerations(s, es);
  }

  lemma {:induction false} NoGainSoon(s: Hp, es: seq<Event>, from: nat, to: nat)
    requires Within(es, from, to) && s.lastHit <= from && to < s.lastHit + 3000 && to < TWO_64 - 3000
    ensures Regenerations(s, es) == 0 && Gains(s, es) == 0
    decreases |es|
  {
    if es != [] {
      NoGainSoon(Step(s, es[0]), es[1..], es[0].time, to);
    }
  }

  lemma {:induction false} RunAppend(s: Hp, es: seq<Event>, more: seq<Event>)
    ensures Run(s, es + more) == Run(Run(s, es), more)
    decreases |es|
  {
    if es == [] {
      assert es + more == more;
    } else {
      assert (es + more)[1..] == es[1..] + more;
      RunAppend(Step(s, es[0]), es[1..], more);
    }
  }

  // After a hit, whatever happened before it, no health comes back within 3000
  // milliseconds, whatever else happens in them.
  lemma {:induction false} NoGainAfterHit(s: Hp, before: seq<Event>, amount: I32, t: U64, after: seq<Event>, to: nat)
    requires Within(after, t, to) && to < t + 3000 && to < TWO_64 - 3000
    ensures var w := Run(s, before + [HitAt(amount, t)]);
            && Gains(w, after) == 0 && Regenerations(w, after) == 0
            && ((forall e | e in after :: e.TickAt?) ==> Run(w, after).hp == (Run(s, before).hp - amount) % 4294967296)
  {
    var hit := HitAt(amount, t);
    RunAppend(s, before, [hit]);
    assert [hit][1..] == [];
    var w := Run(s, before + [hit]);
    assert w == Step(Run(s, before), hit);
    NoGainSoon(w, after, t, to);
    if forall e | e in after :: e.TickAt? {
      TicksOnly(w, after);
    }
  }

  // Ticks change the health by what they gain.
  lemma {:induction false} TicksOnly(s: Hp, es: seq<Event>)
    requires forall e | e in es :: e.TickAt?
    ensures Run(s, es).hp == s.hp + Gains(s, es)
    decreases |es|
  {
    if es != [] {
      assert es[0] in es && forall e | e in es[1..] :: e in es;
      TicksOnly(Step(s, es[0]), es[1..]);
    }
  }

  // The time of the last hit in a run, and of the last tick that came 3000
  // milliseconds after a hit and 5000 after such a tick.
  function LastHit(s: Hp, es: seq<Event>): U64 {
    if es == [] then s.lastHit
    else if es[|es| - 1].HitAt? then es[|es| - 1].time
    else LastHit(s, es[..|es| - 1])
  }

  function LastGain(s: Hp, es: seq<Event>): U64
    decreases |es|, 0
  {
    if es == [] then s.lastRegen
    else if es[|es| - 1].TickAt? && Due(s, es[..|es| - 1], es[|es| - 1].time) then es[|es| - 1].time
    else LastGain(s, es[..|es| - 1])
  }

  predicate Due(s: Hp, es: seq<Event>, now: U64)
    decreases |es|, 1
  {
    now >= LastHit(s, es) + 3000 && now >= LastGain(s, es) + 5000
  }

  // The clock is far from its end.
  predicate Early(s: Hp, es: seq<Event>) {
    s.lastHit < TWO_64 - 5000 && s.lastRegen < TWO_64 - 5000 && forall e | e in es :: e.time < TWO_64 - 5000
  }

  lemma {:induction false} History(s: Hp, es: seq<Event>)
    requires Early(s, es)
    ensures Run(s, es).lastHit == LastHit(s, es) < TWO_64 - 5000
    ensures Run(s, es).lastRegen == LastGain(s, es) < TWO_64 - 5000
  {
    if es != [] {
      var init, e := es[..|es| - 1], es[|es| - 1];
      assert es == init + [e] && e in es && forall d | d in init :: d in es;
      History(s, init);
      RunAppend(s, init, [e]);
      assert [e][1..] == [];
    }
  }

  // What a tick, a hit and a refill do after any run, told from its events: a
  // tick that is due brings ten points back, up to 100.
  lemma {:induction false} EventAfterRun(s: Hp, es: seq<Event>, e: Event)
    requires Early(s, es)
    ensures var hp := Run(s, es).hp;
            Run(s, es + [e]).hp ==
            match e
            case HitAt(amount, _) => (hp - amount) % 4294967296
            case TickAt(now) =>
              if !Due(s, es, now) then hp
              else if (hp + 10) % 4294967296 <= 100 then (hp + 10) % 4294967296 else 100
            case RefillAt(_) => 100
    ensures forall now: U64 :: Regenerates(Run(s, es), now) <==> Due(s, es, now)
  {
    History(s, es);
    RunAppend(s, es, [e]);
    assert [e][1..] == [];
  }

  // The bound is reached: ticks every 5000 milliseconds from empty health.
  function Ticks(k: nat, start: nat): (es: seq<Event>)
    requires start + k * 5000 < TWO_64
  {
    if k == 0 then [] else [TickAt(start)] + Ticks(k - 1, start + 5000)
  }

  lemma {:induction false} DueTick(s: Hp, now: U64)
    requires s.hp <= 90 && s.lastHit + 3000 <= now < TWO_64 && s.lastRegen + 5000 <= now
    ensures Ticked(s, now) == Hp(s.hp + 10, s.lastHit, now)
  {
  }

  lemma {:induction false} BoundIsReached(s: Hp, k: nat, start: nat)
    requires start + k * 5000 < TWO_64 - 5000 && Past(s, start)
    requires s.hp + k * 10 <= 100
    requires start >= s.lastHit + 3000 && start >= s.lastRegen + 5000
    ensures Gains(s, Ticks(k, start)) == 10 * k
    ensures k > 0 ==> Within(Ticks(k, start), start, start + (k - 1) * 5000)
    decreases k
  {
    hide Hit, Ticked, Refilled;
    if k > 0 {
      DueTick(s, start);
      assert Ticks(k, start)[1..] == Ticks(k - 1, start + 5000);
      BoundIsReached(Step(s, TickAt(start)), k - 1, start + 5000);
    }
  }
}
