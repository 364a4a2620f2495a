/** The provider's time offsets (a protobuf Duration: whole seconds plus
    nanoseconds) and their conversion to seconds. */
module TimeOffsets {

  const NanosPerSecond: int := 1_000_000_000

  datatype TimeOffset = TimeOffset(seconds: int, nanos: int)

  /** Total length of an offset in nanoseconds: the integer view of an offset. */
  function TotalNanos(t: TimeOffset): int {
    t.seconds * NanosPerSecond + t.nanos
  }

  /** `seconds + nanos / 1e9`, computed exactly. A normalised offset
      (0 <= nanos < 10^9) converts to a value in [seconds, seconds + 1). */
  function Seconds(t: TimeOffset): (r: real)
    ensures 0 <= t.nanos < NanosPerSecond ==> t.seconds as real <= r < t.seconds as real + 1.0
    ensures t.nanos == 0 ==> r == t.seconds as real
  {
    t.seconds as real + t.nanos as real / NanosPerSecond as real
  }

  /** The conversion is the nanosecond count scaled by 10^-9. */
  lemma SecondsIsScaledNanos(t: TimeOffset)
    ensures Seconds(t) * NanosPerSecond as real == TotalNanos(t) as real
  {
  }

  /** Converting to seconds preserves and reflects the order of offsets. */
  lemma SecondsMonotonic(a: TimeOffset, b: TimeOffset)
    ensures Seconds(a) <= Seconds(b) <==> TotalNanos(a) <= TotalNanos(b)
    ensures Seconds(a) == Seconds(b) <==> TotalNanos(a) == TotalNanos(b)
  {
    SecondsIsScaledNanos(a);
    SecondsIsScaledNanos(b);
  }
}
