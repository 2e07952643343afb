/** Python `datetime` values as the feed code handles them, and
    `ensure_timezone` (main.py:236-241). Time is counted in microseconds,
    the resolution of Python's `datetime`. */
module Times {
  import opened Wrappers

  const MicrosPerSecond: int := 1_000_000
  const MicrosPerDay: int := 86_400 * MicrosPerSecond

  /** A Python `datetime`: `wall` is its wall-clock reading in microseconds
      after 1970-01-01T00:00:00 on its own clock, `offset` its UTC offset in
      microseconds when it is aware and None when it is naive. */
  datatype DateTime = DateTime(wall: int, offset: Option<int>) {
    predicate IsAware() {
      offset.Some?
    }
  }

  /** The UTC instant of an aware datetime: what Python compares when it
      orders two aware datetimes. */
  function Instant(d: DateTime): int
    requires d.IsAware()
  {
    d.wall - d.offset.value
  }

  /** `d.replace(tzinfo=timezone.utc)`: the same wall clock, read as UTC. */
  function WithUtc(d: DateTime): (r: DateTime)
    ensures r.IsAware() && r.wall == d.wall
    ensures Instant(r) == d.wall
  {
    d.(offset := Some(0))
  }

  /** `datetime(1970, 1, 1, tzinfo=timezone.utc)`, the stand-in for a missing date. */
  const Epoch: DateTime := DateTime(0, Some(0))

  /** `ensure_timezone`: a missing value becomes the epoch, a naive one is
      read as UTC, an aware one is kept. */
  function EnsureTimezone(v: Option<DateTime>): (r: DateTime)
    ensures r.IsAware()
    ensures v.None? ==> r.wall == 0 && r.offset == Some(0)
    ensures v.Some? ==> r.wall == v.value.wall
    ensures v.Some? && v.value.IsAware() ==> r == v.value
    ensures v.Some? && !v.value.IsAware() ==> Instant(r) == v.value.wall
  {
    match v
    case None => Epoch
    case Some(d) => if d.IsAware() then d else WithUtc(d)
  }
}
