/** Saving a back-off entry and restoring it later (base/backoff_entry_serializer.cc). */
module BackoffSerializers {
  import opened Basics
  import opened Backoffs

  const FORMAT_VERSION: int := 1
  const MICROS_PER_SECOND: real := 1000000.0

  /** base::Value; a string is either the decimal form of an integer or something else. */
  datatype Value =
    | Integer(i: int)
    | Double(d: real)
    | Decimal(n: int)
    | OtherString(text: string)
    | List(items: seq<Value>)
    | OtherValue

  /** What a serialized entry says: failures, the delay left when it was written, wall-clock release time. */
  datatype Saved = Saved(failureCount: nat, original: int, absolute: int)

  function SerializeToValue(failureCount: nat, release: int, ticks: Clock, wall: Clock): Value {
    var duration := release - ticks;
    List([Integer(FORMAT_VERSION), Integer(failureCount), Double(duration as real / MICROS_PER_SECOND),
          Decimal(Min(duration + wall, INT64_MAX))])
  }

  /** TimeDelta::FromSecondsD */
  function FromSeconds(seconds: real): int {
    Max(INT64_MIN, Min(INT64_MAX, Truncate(seconds * MICROS_PER_SECOND)))
  }

  /** GetDouble: an integer will do for a double. */
  function GetDouble(v: Value): Option<real> {
    match v
    case Double(d) => Some(d)
    case Integer(i) => Some(i as real)
    case _ => None
  }

  /** The checks of DeserializeFromValue, in order. */
  function Decode(v: Value): Option<Saved> {
    if !v.List? || |v.items| != 4 then None
    else if !v.items[0].Integer? || v.items[0].i != FORMAT_VERSION then None
    else if !v.items[1].Integer? || v.items[1].i < 0 then None
    else if GetDouble(v.items[2]).None? then None
    else if !v.items[3].Decimal? || !(0 <= v.items[3].n <= INT64_MAX) then None
    else Some(Saved(v.items[1].i, FromSeconds(GetDouble(v.items[2]).value), v.items[3].n))
  }

  /** The delay that is left: by the wall clock, but never more than when the entry was written. */
  function Remaining(saved: Saved, wall: Clock): int {
    Min(saved.absolute - wall, saved.original)
  }

  /** What was written is read back; only a release time before the epoch of the wall clock is refused. */
  lemma DecodeInvertsSerialize(failureCount: nat, release: int, ticks: Clock, wall: Clock)
    requires INT64_MIN <= release - ticks && release <= INT64_MAX
    ensures Decode(SerializeToValue(failureCount, release, ticks, wall)) ==
      if release - ticks + wall < 0 then None
      else Some(Saved(failureCount, release - ticks, Min(release - ticks + wall, INT64_MAX)))
  {
  }

  /** A new entry is made from exactly the well-formed values; failures are replayed, then the release time is set. */
  method DeserializeFromValue(v: Value, policy: Policy, ticks: Clock, wall: Clock) returns (entry: BackoffEntry?)
    ensures entry == null <==> Decode(v).None?
    ensures entry != null ==> fresh(entry) && entry.Valid() && entry.policy == policy
    ensures entry != null ==> entry.failureCount == Decode(v).value.failureCount
    ensures entry != null ==> INT64_MIN <= Remaining(Decode(v).value, wall) <= INT64_MAX
    ensures entry != null ==>
      entry.releaseTime == BackoffDurationToReleaseTime(policy, Remaining(Decode(v).value, wall), ticks)
  {
    if Decode(v).None? {
      return null;
    }
    var saved := Decode(v).value;
    entry := new BackoffEntry(policy);
    for n := 0 to saved.failureCount
      invariant fresh(entry) && entry.Valid() && entry.policy == policy && entry.failureCount == n
    {
      var draw: real := *;
      entry.InformOfRequest(false, ticks, draw);
    }
    entry.SetCustomReleaseTime(BackoffDurationToReleaseTime(policy, Remaining(saved, wall), ticks));
  }

  /** Saved at one moment and restored at another: the release time of the restored entry. */
  ghost function Restored(policy: Policy, v: Value, ticks: Clock, wall: Clock): int
    requires Decode(v).Some?
  {
    BackoffDurationToReleaseTime(policy, Remaining(Decode(v).value, wall), ticks)
  }

  /** Whatever the clocks show when it is restored, the entry does not have to wait longer than before. */
  lemma NeverLengthens(policy: Policy, failureCount: nat, release: int, ticks: Clock, wall: Clock, ticks': Clock,
                       wall': Clock)
    requires INT64_MIN <= release - ticks && release <= INT64_MAX && release - ticks + wall >= 0
    ensures Decode(SerializeToValue(failureCount, release, ticks, wall)).Some?
    ensures Restored(policy, SerializeToValue(failureCount, release, ticks, wall), ticks', wall') - ticks' <=
      release - ticks
  {
  }

  /** When both clocks have advanced equally, the release time comes back if the policy allows the delay left. */
  lemma RestoredIff(policy: Policy, failureCount: nat, release: int, ticks: Clock, wall: Clock, ticks': Clock,
                    wall': Clock)
    requires INT64_MIN <= release - ticks && release <= INT64_MAX && 0 <= release - ticks + wall <= INT64_MAX
    requires ticks' - ticks == wall' - wall >= 0
    ensures Decode(SerializeToValue(failureCount, release, ticks, wall)).Some?
    ensures Restored(policy, SerializeToValue(failureCount, release, ticks, wall), ticks', wall') == release <==>
      policy.maximumBackoffMs < 0 || release - ticks' <= policy.maximumBackoffMs * MICROS_PER_MILLI
  {
  }
}
