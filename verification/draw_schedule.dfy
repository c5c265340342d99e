/** The draw timer of the lottery front end (`useDrawTimer`'s query
    function): from the last draw's on-chain timestamp, the configured
    draw interval in hours and the current wall-clock time it derives the
    next draw's timestamp and a countdown that never goes negative. The
    chain read and the clock are inputs here. */
module DrawSchedule {
  import opened Results

  const SecondsPerHour: nat := 3600

  /** What the draw-timer query returns: three fields and nothing else. */
  datatype DrawTimer = DrawTimer(
    lastDrawTimestamp: nat,
    nextDrawTimestamp: nat,
    timeUntilDrawSeconds: nat)

  /** `Math.floor(Date.now() / 1000)`: the clock reading in whole seconds.
      Dafny's `/` by a positive divisor rounds toward negative infinity, as `Math.floor` does. */
  function UnixSeconds(nowMillis: int): (s: int)
    ensures s * 1000 <= nowMillis < s * 1000 + 1000
  {
    nowMillis / 1000
  }

  /** `Math.max(0, next - now)`. */
  function SecondsUntil(next: int, now: int): (d: nat)
    ensures d == 0 <==> now >= next
    ensures d > 0 ==> now + d == next
  {
    if next - now > 0 then next - now else 0
  }

  /** The draw timer for the last draw `lastDraw` (unix seconds, as read from the
      pool), a draw interval of `intervalHours` hours and the clock reading `nowMillis`. */
  function ComputeDrawTimer(lastDraw: nat, intervalHours: nat, nowMillis: int): (t: DrawTimer)
    ensures t.lastDrawTimestamp == lastDraw
    ensures t.nextDrawTimestamp - t.lastDrawTimestamp == intervalHours * SecondsPerHour
    ensures t.timeUntilDrawSeconds == 0 <==> UnixSeconds(nowMillis) >= t.nextDrawTimestamp
    ensures t.timeUntilDrawSeconds > 0 ==>
      UnixSeconds(nowMillis) + t.timeUntilDrawSeconds == t.nextDrawTimestamp
  {
    var next := lastDraw + intervalHours * SecondsPerHour;
    DrawTimer(lastDraw, next, SecondsUntil(next, UnixSeconds(nowMillis)))
  }

  /** The draw-timer query function with the pool read of the last draw's time
      given as its outcome: a failed read rejects the query with that read's
      error, and a successful one yields the timer for the timestamp read. */
  function DrawTimerQuery<E>(lastDrawRead: Result<nat, E>, intervalHours: nat, nowMillis: int): (r: Result<DrawTimer, E>)
    ensures r.Ok? <==> lastDrawRead.Ok?
    ensures r.Err? ==> r.error == lastDrawRead.error
    ensures r.Ok? ==> r.value == ComputeDrawTimer(lastDrawRead.value, intervalHours, nowMillis)
  {
    var lastDraw :- lastDrawRead;
    Ok(ComputeDrawTimer(lastDraw, intervalHours, nowMillis))
  }

  /** Once the clock has reached the last draw the countdown never exceeds one
      interval; a clock behind the last draw adds at most its lag. */
  lemma CountdownAtMostInterval(lastDraw: nat, intervalHours: nat, nowMillis: int)
    ensures ComputeDrawTimer(lastDraw, intervalHours, nowMillis).timeUntilDrawSeconds
      <= intervalHours * SecondsPerHour + (if UnixSeconds(nowMillis) < lastDraw then lastDraw - UnixSeconds(nowMillis) else 0)
    ensures UnixSeconds(nowMillis) >= lastDraw ==>
      ComputeDrawTimer(lastDraw, intervalHours, nowMillis).timeUntilDrawSeconds <= intervalHours * SecondsPerHour
  {
  }

  /** A later clock reading never shows a longer countdown. */
  lemma CountdownNonIncreasing(lastDraw: nat, intervalHours: nat, earlierMillis: int, laterMillis: int)
    requires earlierMillis <= laterMillis
    ensures ComputeDrawTimer(lastDraw, intervalHours, laterMillis).timeUntilDrawSeconds
      <= ComputeDrawTimer(lastDraw, intervalHours, earlierMillis).timeUntilDrawSeconds
  {
    assert UnixSeconds(earlierMillis) <= UnixSeconds(laterMillis);
  }

  /** Before the draw is due, waiting `d` whole seconds takes exactly `d` off the countdown. */
  lemma CountdownTicksDown(lastDraw: nat, intervalHours: nat, nowMillis: int, d: nat)
    requires d <= ComputeDrawTimer(lastDraw, intervalHours, nowMillis).timeUntilDrawSeconds
    ensures ComputeDrawTimer(lastDraw, intervalHours, nowMillis + 1000 * d).timeUntilDrawSeconds
      == ComputeDrawTimer(lastDraw, intervalHours, nowMillis).timeUntilDrawSeconds - d
  {
    assert UnixSeconds(nowMillis + 1000 * d) == UnixSeconds(nowMillis) + d;
  }

  /** Half an hour after the last draw, with an hourly draw, 1800 seconds remain. */
  lemma HalfHourScenario(nowSeconds: nat)
    requires nowSeconds >= 1800
    ensures ComputeDrawTimer(nowSeconds - 1800, 1, nowSeconds * 1000) ==
      DrawTimer(nowSeconds - 1800, nowSeconds + 1800, 1800)
  {
    assert UnixSeconds(nowSeconds * 1000) == nowSeconds;
  }
}
