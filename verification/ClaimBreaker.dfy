/**
 The per-context claim breaker: failures pause one auth context until a given time. Expired pauses are
 deleted lazily, when they are asked about, and a shorter pause never replaces a longer one.
 */
module ClaimBreaker {
  import opened Options
  import opened Strings

  const HOUR_MS: int := 60 * 60 * 1000
  const DAY_MS: int := 24 * 60 * 60 * 1000
  const MIN_PAUSE_MS: int := 5 * 60 * 1000

  // ---------------------------------------------------------------- the breaker

  type Pauses = map<string, int>

  function PauseUntil(paused: Pauses, ctx: string, untilMs: int): Pauses
  {
    if ctx in paused && paused[ctx] >= untilMs then paused else paused[ctx := untilMs]
  }

  /** What a question leaves behind: an expired pause is forgotten. */
  function AfterCheck(paused: Pauses, ctx: string, now: int): Pauses
  {
    if ctx in paused && paused[ctx] != 0 && now >= paused[ctx] then paused - {ctx} else paused
  }

  function Reported(paused: Pauses, ctx: string, now: int): bool
  {
    ctx in paused && paused[ctx] != 0 && now < paused[ctx]
  }

  class ContextBreaker {
    var paused: Pauses

    constructor ()
      ensures paused == map[]
    {
      paused := map[];
    }

    method IsPaused(ctx: string, now: int) returns (r: bool)
      modifies this
      ensures r == Reported(old(paused), ctx, now)
      ensures paused == AfterCheck(old(paused), ctx, now)
    {
      if ctx !in paused || paused[ctx] == 0 {
        return false;
      }
      if now >= paused[ctx] {
        paused := paused - {ctx};
        return false;
      }
      return true;
    }

    method Pause(ctx: string, untilMs: int)
      modifies this
      ensures paused == PauseUntil(old(paused), ctx, untilMs)
      ensures ctx in old(paused) ==> ctx in paused && old(paused)[ctx] <= paused[ctx]
    {
      if ctx in paused && paused[ctx] >= untilMs {
        return;
      }
      paused := paused[ctx := untilMs];
    }

    method Clear(ctx: string)
      modifies this
      ensures paused == old(paused) - {ctx}
    {
      paused := paused - {ctx};
    }
  }

  // ---------------------------------------------------------------- whole histories

  datatype Op = Pause(ctx: string, untilMs: int) | Check(ctx: string, now: int) | Clear(ctx: string)

  /** The breaker's map after a history. */
  ghost function After(ops: seq<Op>): Pauses
  {
    if ops == [] then map[]
    else
      var before := After(ops[..|ops| - 1]);
      match ops[|ops| - 1]
      case Pause(ctx, untilMs) => PauseUntil(before, ctx, untilMs)
      case Check(ctx, now) => AfterCheck(before, ctx, now)
      case Clear(ctx) => before - {ctx}
  }

  /** The op makes the breaker forget a pause of ctx until u: a clear, or a question asked at u or later. */
  ghost predicate Forgets(op: Op, ctx: string, u: int)
  {
    op == Clear(ctx) || (op.Check? && op.ctx == ctx && op.now >= u)
  }

  /** The i-th op pauses ctx until u, and nothing after it forgets that. */
  ghost predicate HeldFrom(ops: seq<Op>, ctx: string, u: int, i: nat)
  {
    i < |ops| && ops[i] == Pause(ctx, u) && forall j :: i < j < |ops| ==> !Forgets(ops[j], ctx, u)
  }

  ghost predicate Held(ops: seq<Op>, ctx: string, u: int)
  {
    exists i: nat :: HeldFrom(ops, ctx, u, i)
  }

  /** One more op: a pause is held if it is this one, or was held and is not forgotten now. */
  lemma HeldSnoc(ops: seq<Op>, ctx: string, u: int)
    requires ops != []
    ensures var n := |ops| - 1;
            Held(ops, ctx, u) <==> ops[n] == Pause(ctx, u) || (Held(ops[..n], ctx, u) && !Forgets(ops[n], ctx, u))
  {
    var n := |ops| - 1;
    if Held(ops, ctx, u) {
      var i: nat :| HeldFrom(ops, ctx, u, i);
      if i < n { assert HeldFrom(ops[..n], ctx, u, i); }
    }
    if ops[n] == Pause(ctx, u) {
      assert HeldFrom(ops, ctx, u, n);
    } else if Held(ops[..n], ctx, u) && !Forgets(ops[n], ctx, u) {
      var i: nat :| HeldFrom(ops[..n], ctx, u, i);
      assert HeldFrom(ops, ctx, u, i);
    }
  }

  /** The stored moment is that of a pause still held, at least while it is not zero. */
  lemma {:induction false} StoredIsHeld(ops: seq<Op>, ctx: string)
    requires ctx in After(ops) && After(ops)[ctx] != 0
    ensures Held(ops, ctx, After(ops)[ctx])
  {
    var n := |ops| - 1;
    var before := After(ops[..n]);
    HeldSnoc(ops, ctx, After(ops)[ctx]);
    if ctx in before && before[ctx] == After(ops)[ctx] { StoredIsHeld(ops[..n], ctx); }
  }

  /** No pause that is held ends after the stored moment. */
  lemma {:induction false} HeldIsStored(ops: seq<Op>, ctx: string, u: int)
    requires Held(ops, ctx, u) && u > 0
    ensures ctx in After(ops) && After(ops)[ctx] >= u
  {
    var n := |ops| - 1;
    HeldSnoc(ops, ctx, u);
    if ops[n] != Pause(ctx, u) { HeldIsStored(ops[..n], ctx, u); }
  }

  ghost predicate HeldPast(ops: seq<Op>, ctx: string, t: int)
  {
    exists u :: u > t && Held(ops, ctx, u)
  }

  /**
   Over every history, whatever the clock does: a context is reported paused exactly when some pause of it
   ends after now and since then it was neither cleared nor asked about at a moment when that pause was over.
   */
  lemma {:induction false} ReportedHeldExactly(ops: seq<Op>, ctx: string, t: int)
    requires 0 <= t
    ensures Reported(After(ops), ctx, t) <==> HeldPast(ops, ctx, t)
  {
    if Reported(After(ops), ctx, t) { StoredIsHeld(ops, ctx); }
    if u :| u > t && Held(ops, ctx, u) { HeldIsStored(ops, ctx, u); }
  }

  /** Some pause of ctx since its last clear ends after t, with no regard to what was forgotten. */
  ghost predicate PausedPast(ops: seq<Op>, ctx: string, t: int)
  {
    exists i :: 0 <= i < |ops| && ops[i].Pause? && ops[i].ctx == ctx && ops[i].untilMs > t &&
                forall j :: i < j < |ops| ==> ops[j] != Clear(ctx)
  }

  /** No question of the history was asked later than t. */
  ghost predicate NotBefore(ops: seq<Op>, t: int)
  {
    forall i :: 0 <= i < |ops| && ops[i].Check? ==> ops[i].now <= t
  }

  /** Forgetting expired pauses changes no answer to a question that is asked no earlier than those before it. */
  lemma {:induction false} ReportedExactly(ops: seq<Op>, ctx: string, t: int)
    requires 0 <= t && NotBefore(ops, t)
    ensures Reported(After(ops), ctx, t) <==> PausedPast(ops, ctx, t)
  {
    ReportedHeldExactly(ops, ctx, t);
    if HeldPast(ops, ctx, t) {
      var u :| u > t && Held(ops, ctx, u);
      var i: nat :| HeldFrom(ops, ctx, u, i);
      assert forall j :: i < j < |ops| ==> !Forgets(ops[j], ctx, u);
      assert PausedPast(ops, ctx, t);
    }
    if PausedPast(ops, ctx, t) {
      var i :| 0 <= i < |ops| && ops[i].Pause? && ops[i].ctx == ctx && ops[i].untilMs > t &&
               forall j :: i < j < |ops| ==> ops[j] != Clear(ctx);
      var u := ops[i].untilMs;
      forall j | i < j < |ops| ensures !Forgets(ops[j], ctx, u) {
        assert ops[j].Check? ==> ops[j].now <= t;
      }
      assert HeldFrom(ops, ctx, u, i);
      assert Held(ops, ctx, u);
    }
  }

  /** The clock matters: asked late and then early, the breaker has forgotten a pause still to come. */
  lemma ClockGoingBackForgets(ctx: string)
    ensures var ops := [Pause(ctx, 10), Check(ctx, 10)];
            !Reported(After(ops), ctx, 5) && PausedPast(ops, ctx, 5) && !HeldPast(ops, ctx, 5)
  {
    var ops := [Pause(ctx, 10), Check(ctx, 10)];
    assert ops[..1] == [Pause(ctx, 10)] && [Pause(ctx, 10)][..0] == [];
    assert After([Pause(ctx, 10)]) == map[ctx := 10];
    assert ops[0].Pause? && ops[1] != Clear(ctx);
    ReportedHeldExactly(ops, ctx, 5);
  }

  // ---------------------------------------------------------------- reset times

  /** The hour of a reset time such as 5pm, 12am or 17; None when the text is not one. */
  function ParseHour(timeStr: string): Option<nat>
  {
    var digits := if |timeStr| >= 2 && IsDigit(timeStr[0]) && IsDigit(timeStr[1]) then 2
                  else if timeStr != "" && IsDigit(timeStr[0]) then 1 else 0;
    if digits == 0 then None
    else
      var ampm := Lower(timeStr[digits..]);
      var hour := if digits == 1 then timeStr[0] as int - '0' as int
                  else 10 * (timeStr[0] as int - '0' as int) + (timeStr[1] as int - '0' as int);
      if ampm == "" then Some(hour)
      else if ampm == "pm" then Some(if hour < 12 then hour + 12 else hour)
      else if ampm == "am" then Some(if hour == 12 then 0 else hour)
      else None
  }

  /** One or two digits, and behind them nothing, or am or pm in any case. */
  ghost predicate Reads(timeStr: string, digits: string, suffix: string)
  {
    && timeStr == digits + suffix && 1 <= |digits| <= 2 && (forall k :: 0 <= k < |digits| ==> IsDigit(digits[k]))
    && Lower(suffix) in {"", "am", "pm"}
  }

  ghost function Number(digits: string): int
  {
    if digits == "" then 0
    else 10 * Number(digits[..|digits| - 1]) + (digits[|digits| - 1] as int - '0' as int)
  }

  lemma NumberOfFew(digits: string)
    requires 1 <= |digits| <= 2
    ensures Number(digits) == if |digits| == 1 then digits[0] as int - '0' as int
                              else 10 * (digits[0] as int - '0' as int) + (digits[1] as int - '0' as int)
  {
    assert digits[..|digits| - 1] == if |digits| == 1 then "" else [digits[0]];
    assert [digits[0]][..0] == "" && Number("") == 0;
    assert Number([digits[0]]) == digits[0] as int - '0' as int;
  }

  /** The hour of a time: 12am is midnight, the hours from 1pm on count from twelve, any other number stands for itself. */
  lemma ParsedHour(timeStr: string, digits: string, suffix: string)
    requires Reads(timeStr, digits, suffix)
    ensures ParseHour(timeStr).Some?
    ensures var n, hour := Number(digits), ParseHour(timeStr).value;
            && (Lower(suffix) == "am" && n == 12 ==> hour == 0)
            && (Lower(suffix) == "pm" && n < 12 ==> hour == n + 12)
            && (!(Lower(suffix) == "am" && n == 12) && !(Lower(suffix) == "pm" && n < 12) ==> hour == n)
  {
    assert timeStr[|digits|..] == suffix;
    NumberOfFew(digits);
    if |digits| == 1 && suffix != "" {
      assert Lower(suffix)[0] == LowerChar(suffix[0]);
    }
  }

  /** Any other text is no time of day, and the wait is an hour. */
  lemma ParsedExactly(timeStr: string, now: int)
    ensures ParseHour(timeStr).Some? <==> exists digits, suffix :: Reads(timeStr, digits, suffix)
    ensures ParseHour(timeStr).None? ==> ParseResetDelay(timeStr, now) == 60 * 60 * 1000
  {
    if ParseHour(timeStr).Some? {
      var n := if |timeStr| >= 2 && IsDigit(timeStr[0]) && IsDigit(timeStr[1]) then 2 else 1;
      assert timeStr == timeStr[..n] + timeStr[n..];
      assert Reads(timeStr, timeStr[..n], timeStr[n..]);
    }
    if digits, suffix :| Reads(timeStr, digits, suffix) { ParsedHour(timeStr, digits, suffix); }
  }

  /** The wait until an hour of the UTC day of now, or of the next day when that has passed. */
  function UntilHour(hour: nat, now: int): int
  {
    var target := now - now % DAY_MS + hour * HOUR_MS;
    (if target <= now then target + DAY_MS else target) - now
  }

  function Clamped(ms: int): int
  {
    var capped := if ms < DAY_MS then ms else DAY_MS;
    if capped > MIN_PAUSE_MS then capped else MIN_PAUSE_MS
  }

  function ParseResetDelay(timeStr: string, now: int): int
  {
    match ParseHour(timeStr)
    case None => HOUR_MS
    case Some(hour) => Clamped(UntilHour(hour, now))
  }

  /** Whatever the text, a pause lasts between five minutes and a day. */
  lemma DelayIsBounded(timeStr: string, now: int)
    ensures 5 * 60 * 1000 <= ParseResetDelay(timeStr, now) <= 24 * 60 * 60 * 1000
  {
  }

  /** A moment at which the UTC clock shows the full hour. */
  ghost predicate Shows(t: int, hour: nat)
  {
    t % (24 * 60 * 60 * 1000) == hour * 60 * 60 * 1000
  }

  lemma TimeOfDay(day: int, x: int)
    requires 0 <= x < DAY_MS
    ensures (day * DAY_MS + x) % DAY_MS == x
  {
  }

  lemma DayAndTime(t: int) returns (day: int)
    ensures t == day * DAY_MS + t % DAY_MS && 0 <= t % DAY_MS < DAY_MS
  {
    day := t / DAY_MS;
  }

  lemma UntilHourShows(hour: nat, now: int)
    requires hour < 24
    ensures 0 < UntilHour(hour, now) <= DAY_MS && Shows(now + UntilHour(hour, now), hour)
  {
    var day := DayAndTime(now);
    TimeOfDay(day, hour * HOUR_MS);
    TimeOfDay(day + 1, hour * HOUR_MS);
  }

  /** No moment between now and the computed one shows the hour. */
  lemma UntilHourIsNext(hour: nat, now: int, e: int)
    requires hour < 24 && 0 < e && Shows(now + e, hour)
    ensures UntilHour(hour, now) <= e
  {
    var day := DayAndTime(now);
    var other := DayAndTime(now + e);
  }

  /**
   For an hour of the clock the wait ends at the first moment after now that shows that hour, or five
   minutes from now if that moment is nearer.
   */
  lemma DelayReachesTheHour(timeStr: string, now: int, next: int)
    requires ParseHour(timeStr).Some? && ParseHour(timeStr).value < 24
    requires now < next && Shows(next, ParseHour(timeStr).value)
    requires forall t :: now < t < next ==> !Shows(t, ParseHour(timeStr).value)
    ensures ParseResetDelay(timeStr, now) == if next - now > 5 * 60 * 1000 then next - now else 5 * 60 * 1000
  {
    var hour := ParseHour(timeStr).value;
    UntilHourShows(hour, now);
    UntilHourIsNext(hour, now, next - now);
  }

  /** Hours from 24 to 99 are accepted too: they count from the last midnight, and a wait of a day is the longest. */
  lemma LateHours(timeStr: string, now: int)
    requires ParseHour(timeStr).Some? && ParseHour(timeStr).value >= 24
    ensures var wait := ParseHour(timeStr).value * HOUR_MS - now % DAY_MS;
            && (wait >= DAY_MS ==> ParseResetDelay(timeStr, now) == DAY_MS)
            && (wait < DAY_MS ==> ParseResetDelay(timeStr, now) == if wait > MIN_PAUSE_MS then wait else MIN_PAUSE_MS)
  {
  }
}
