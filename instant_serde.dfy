/** How a cache entry's `Instant` is written to disk and read back. A monotonic
    instant has no meaning outside the process, so it is stored as the Unix
    second at which it lay, in whole seconds, and turned back into an instant
    of the loading process by the age that second has at load time.

    `now` is the monotonic clock and `wall` the wall clock (nanoseconds since
    the epoch) at the moment of the call. */
module InstantSerde {
  import opened Clock

  /** `serialize_instant::serialize`: the current Unix second less the whole
      seconds elapsed since the instant. The subtraction is on u64, so the
      elapsed seconds must not exceed the Unix seconds. */
  function Serialize(instant: int, now: int, wall: nat): (stamp: nat)
    requires AsSecs(Elapsed(instant, now)) <= AsSecs(wall)
    ensures stamp <= AsSecs(wall)
    ensures AsSecs(wall) - stamp == AsSecs(Elapsed(instant, now))
  {
    AsSecs(wall) - AsSecs(Elapsed(instant, now))
  }

  /** `serialize_instant::deserialize`: the instant that lies as many whole
      seconds before now as the stored second lies before the current Unix
      second. The u64 subtraction needs the stored second not to be later. */
  function Deserialize(stamp: nat, now: int, wall: nat): (instant: int)
    requires stamp <= AsSecs(wall)
    ensures instant <= now
    ensures Elapsed(instant, now) == (AsSecs(wall) - stamp) * NANOS_PER_SEC
  {
    now - (AsSecs(wall) - stamp) * NANOS_PER_SEC
  }

  /** Written at one moment and read at a later one, an instant's age in whole
      seconds is its age when written plus the whole seconds the wall clock
      moved on in between. */
  lemma AgeAfterRoundTrip(instant: int, now1: int, wall1: nat, now2: int, wall2: nat)
    requires AsSecs(Elapsed(instant, now1)) <= AsSecs(wall1)
    requires wall1 <= wall2
    ensures Serialize(instant, now1, wall1) <= AsSecs(wall2)
    ensures var restored := Deserialize(Serialize(instant, now1, wall1), now2, wall2);
            AsSecs(Elapsed(restored, now2))
              == AsSecs(Elapsed(instant, now1)) + (AsSecs(wall2) - AsSecs(wall1))
  {
    var stamp := Serialize(instant, now1, wall1);
    assert AsSecs(wall1) <= AsSecs(wall2);
    var k := AsSecs(wall2) - stamp;
    assert Elapsed(Deserialize(stamp, now2, wall2), now2) == k * NANOS_PER_SEC;
    assert (k * NANOS_PER_SEC) / NANOS_PER_SEC == k;
  }

  /** When both clocks move on by the same span between writing and reading,
      and the instant is not in the future, the restored instant lies less than
      a second before the original and less than two seconds after it: each of
      the two truncations to whole seconds loses less than one second. */
  lemma RoundTripWithinSeconds(instant: int, now: int, wall: nat, d: nat)
    requires instant <= now
    requires AsSecs(Elapsed(instant, now)) <= AsSecs(wall)
    ensures Serialize(instant, now, wall) <= AsSecs(wall + d)
    ensures var restored := Deserialize(Serialize(instant, now, wall), now + d, wall + d);
            instant - NANOS_PER_SEC < restored < instant + 2 * NANOS_PER_SEC
  {
    var n := NANOS_PER_SEC;
    var e := now - instant;
    var es := e / n;
    var w1 := wall / n;
    var w2 := (wall + d) / n;
    assert w1 <= w2;
    var stamp := Serialize(instant, now, wall);
    assert stamp == w1 - es;
    var restored := Deserialize(stamp, now + d, wall + d);
    assert restored == instant + (e - n * es) + (d - n * (w2 - w1));
    assert 0 <= e - n * es < n;
    assert n * w1 <= wall < n * w1 + n;
    assert n * w2 <= wall + d < n * w2 + n;
  }

  /** The entry of `api/src/cache/test.rs`: an instant a whole number of seconds
      old, written, then read after both clocks moved on together. The restored
      instant is less than a second after the original, so the whole seconds
      from the one to the other are zero. */
  lemma WholeSecondAgeRoundTrip(instant: int, now: int, wall: nat, d: nat)
    requires instant <= now && (now - instant) % NANOS_PER_SEC == 0
    requires AsSecs(Elapsed(instant, now)) <= AsSecs(wall)
    ensures Serialize(instant, now, wall) <= AsSecs(wall + d)
    ensures AsSecs(Elapsed(instant, Deserialize(Serialize(instant, now, wall), now + d, wall + d))) == 0
  {
    var n := NANOS_PER_SEC;
    var e := now - instant;
    var w1 := wall / n;
    var w2 := (wall + d) / n;
    assert w1 <= w2;
    var stamp := Serialize(instant, now, wall);
    var restored := Deserialize(stamp, now + d, wall + d);
    assert e == n * (e / n);
    assert restored == instant + (d - n * (w2 - w1));
    assert n * w1 <= wall < n * w1 + n;
    assert n * w2 <= wall + d < n * w2 + n;
  }
}
