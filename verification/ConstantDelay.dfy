/** Schedules of a constant delay. */
module ConstantDelay {
  import opened CronLoop
  import opened Texts

  const SECOND := 1_000_000_000

  /** Durations and instants are in nanoseconds. A delay is at least a second, and whole seconds. */
  function Every(duration: int): (delay: int)
    ensures delay >= 1_000_000_000 && delay % 1_000_000_000 == 0
    ensures if duration < 1_000_000_000 then delay == 1_000_000_000 else duration - 1_000_000_000 < delay <= duration
  {
    var d := if duration < SECOND then SECOND else duration;
    d - d % SECOND
  }

  function Next(delay: int, t: Instant): Instant {
    t + (delay - t % SECOND)
  }

  /** The k-th activation after `t`, each computed from the one before. */
  function Activation(delay: int, t: Instant, k: nat): Instant {
    if k == 0 then t else Next(delay, Activation(delay, t, k - 1))
  }

  lemma WholeSeconds(a: int, b: int)
    requires a % SECOND == 0 && b % SECOND == 0
    ensures (a + b) % SECOND == 0
  {
  }

  /** Activations are strictly later, on the second, and within one delay. */
  lemma NextIsOnTheSecond(duration: int, t: Instant)
    ensures var delay, r := Every(duration), Next(Every(duration), t);
      t < r <= t + delay && t + delay - SECOND < r && r % SECOND == 0
  {
    var delay := Every(duration);
    WholeSeconds(t - t % SECOND, delay);
  }

  /** After the first one, activations follow each other at exactly the delay. */
  lemma {:induction false} ActivationsAreRegular(duration: int, t: Instant, k: nat)
    ensures Activation(Every(duration), t, k + 1) == Next(Every(duration), t) + k * Every(duration)
    ensures Activation(Every(duration), t, k + 1) % SECOND == 0
  {
    var delay := Every(duration);
    if k == 0 {
      assert Activation(delay, t, 1) == Next(delay, Activation(delay, t, 0));
      NextIsOnTheSecond(duration, t);
    } else {
      ActivationsAreRegular(duration, t, k - 1);
      NextIsOnTheSecond(duration, Activation(delay, t, k));
      assert k * delay == (k - 1) * delay + delay;
    }
  }

  /** Such a schedule keeps the promise the run loop relies on. */
  lemma EveryIsLawful(duration: int)
    ensures Lawful(t => Some(Next(Every(duration), t)))
  {
    forall t: Instant
      ensures t < Next(Every(duration), t)
    {
      NextIsOnTheSecond(duration, t);
    }
  }
}
