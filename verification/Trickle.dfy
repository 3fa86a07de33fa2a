/**
 os/lib/trickle-timer.c: Trickle timers (RFC 6206) over a clock that wraps. The true time, which does not wrap, is
 kept beside it for the statements; random numbers and the lateness of callbacks are arbitrary.
 */
module Trickle {
  import opened Arith
  import opened Bits
  import opened TrickleConfig

  datatype Option<T> = None | Some(value: T)

  datatype Job = Fire | Double

  /** The ctimer inside a trickle timer: what it will call, and in how many ticks after it was set. */
  datatype CTimer = Off | Armed(job: Job, interval: nat)

  /** A call of the protocol's callback: the number of the interval, the flag, the consistencies heard before. */
  datatype Call = Call(interval: nat, ok: bool, heard: nat)

  function Min(a: nat, b: nat): nat
  {
    if a < b then a else b
  }

  function Max(a: nat, b: nat): nat
  {
    if a < b then b else a
  }

  /** What a clock shows that starts again at zero after M - 1. */
  function OnClock(time: nat, M: nat): (c: nat)
    requires M > 0
    ensures c < M
    decreases time
  {
    if time < M then time else OnClock(time - M, M)
  }

  lemma {:induction false} OnClockIs(time: nat, M: nat)
    requires M > 0
    ensures OnClock(time, M) == time % M
    decreases time
  {
    if time < M {
      SmallMod(time, M);
    } else {
      OnClockIs(time - M, M);
      AddMultiples(time - M, 1, M);
    }
  }

  /** The difference of two times on the wrapping clock is that of the true times. */
  lemma WrappedDifference(a: nat, b: nat, x: nat, M: nat)
    requires M > 0
    ensures (OnClock(a, M) + x - OnClock(b, M)) % M == (a + x - b) % M
  {
    OnClockIs(a, M);
    OnClockIs(b, M);
    ModDifference(a, b, x, M);
  }

  lemma ModDifference(a: nat, b: nat, x: nat, M: nat)
    requires M > 0
    ensures (a % M + x - b % M) % M == (a + x - b) % M
  {
    var d := a / M - b / M;
    assert a + x - b == (a % M + x - b % M) + d * M;
    AddMultiples(a % M + x - b % M, d, M);
  }

  lemma {:induction false} AddMultiples(y: int, d: int, M: nat)
    requires M > 0
    ensures (y + d * M) % M == y % M
  {
    var q, r := y / M, y % M;
    assert y + d * M == (q + d) * M + r;
    ModUniqueInt(y + d * M, M, q + d, r);
  }

  lemma ModUniqueInt(x: int, M: nat, q: int, r: nat)
    requires M > 0 && x == q * M + r && r < M
    ensures x % M == r
  {
    var q', r' := x / M, x % M;
    assert (q - q') * M == r' - r;
    MulSign(q - q', M);
  }

  /** A time that is less than half the range away, ahead or behind, is told apart correctly. */
  lemma AheadOrPast(d: int, half: nat)
    requires half > 0 && 0 - half <= d < half
    ensures d % (2 * half) == if d >= 0 then d else d + 2 * half
    ensures d % (2 * half) > half - 1 <==> d < 0
  {
    if d >= 0 {
      ModUniqueInt(d, 2 * half, 0, d);
    } else {
      ModUniqueInt(d, 2 * half, -1, d + 2 * half);
    }
  }

  /** Every call is in a later interval than the one before it, and its flag says whether k consistencies were heard. */
  ghost predicate LogOk(log: seq<Call>, k: nat, count: nat)
  {
    && (forall i: nat, j: nat {:trigger log[i], log[j]} :: i < j < |log| ==> log[i].interval < log[j].interval)
    && (forall i: nat {:trigger log[i]} :: i < |log| ==> log[i].interval <= count && (log[i].ok <==> log[i].heard < k))
  }

  /** The search for a smaller Imax goes wrong: the pair does not fit, and the first mask overlooks the bits of Imin. */
  predicate Misjudged(w: nat, imin: nat, imax: nat)
    requires w > 0 && imin > 0
  {
    Doubled(imin, imax) > Pow2(w - 1) && Overlooked(w, imin - 1)
  }

  /** Such a pair: the search makes Imax 62 for it, and not 14. */
  lemma MisjudgedExample(w: nat, imin: nat, imax: nat)
    requires w == 64 && imin == 0x1_0000_0000_0001 && imax == 16
    ensures 2 <= imin < Pow2(w - 1) && Misjudged(w, imin, imax) && LargestImax(w, imin, 14)
  {
    DoubledIs(imin, imax);
    Powers(imax);
    Powers(w - 1);
    Powers(imax - 1);
    assert Pow2(imax - 1) == 2 * Pow2(imax - 2);
  }

  /** The check of Imin and Imax in trickle_timer_config. */
  method FittingImax(w: nat, imin: nat, imax: nat, half: nat) returns (m: nat)
    requires (w == 16 || w == 32 || w == 64) && half == Pow2(w - 1) && 2 <= imin < half && imax + 1 < w
    ensures Misjudged(w, imin, imax) <==> Doubled(imin, m) > half
    ensures !Misjudged(w, imin, imax) ==> m <= imax && (m == imax <==> Doubled(imin, imax) <= half)
    ensures !Misjudged(w, imin, imax) && m < imax ==> LargestImax(w, imin, m)
  {
    m := imax;
    PairIsBad(w, imin, imax);
    Pow2Grows(w - 1, w);
    if (2 * half - 1) / Pow2(imax + 1) < imin - 1 {
      m := MaxImax(w, imin);
      DoubledIs(imin, m);
      if !Overlooked(w, imin - 1) {
        LargestIsLargest(w, imin, m, imax);
        LargestIsLargest(w, imin, m, m);
      }
    }
  }

  lemma HalfRange(w: nat, half: nat)
    requires (w == 16 || w == 32 || w == 64) && half == Pow2(w - 1)
    ensures half >= 0x8000
  {
    Powers(w - 1);
  }

  /** A time in the second half of an interval, for a random number. */
  function TimeIn(i: nat, rand: nat): (t: nat)
    requires i >= 2
    ensures i / 2 <= t < i
  {
    i / 2 + rand % (i / 2)
  }

  /** When the interval under way began and when in it the callback is due; the consistencies heard in it; its number;
      the size after the last reset or set and the doublings since; when the ctimer was set; the callbacks made. */
  datatype History = History(start: nat, t: nat, heard: nat, count: nat, base: nat, doublings: nat, armedAt: nat,
      log: seq<Call>)

  class TrickleTimer {
    /** The width of the clock, and half its range. */
    const w: nat
    const half: nat
    var iMin: nat
    var iMax: nat
    var iMaxAbs: nat
    var k: nat
    var iCur: nat
    var iStart: nat
    var c: nat
    var hasCallback: bool
    var ct: CTimer

    /** What happened so far, in true time. */
    ghost var h: History

    ghost predicate Configured()
      reads this
    {
      2 <= iMin && iMaxAbs == Doubled(iMin, iMax) && iMin <= iMaxAbs <= half && 0 < k < 256 && half >= 0x8000
    }

    /** The interval under way. */
    ghost predicate InInterval()
      reads this
    {
      && half > 0 && iMin <= iCur <= iMaxAbs && hasCallback
      && iStart == OnClock(h.start, 2 * half) && iCur / 2 <= h.t < iCur
      && c == Min(h.heard, 255)
      && iMin <= h.base <= iMaxAbs && iCur == Min(Doubled(h.base, h.doublings), iMaxAbs)
    }

    /** The ctimer is set for time t, or for the end if the callback was called. */
    ghost predicate TimerOk()
      reads this
    {
      && ct.Armed?
      && (ct.job.Fire? ==>
            && h.armedAt + ct.interval == Max(h.armedAt, h.start + h.t)
            && forall i {:trigger h.log[i]} :: 0 <= i < |h.log| ==> h.log[i].interval < h.count)
      && (ct.job.Double? ==> h.armedAt + ct.interval == Max(h.armedAt, h.start + iCur))
    }

    ghost predicate Valid()
      reads this
    {
      && Configured() && LogOk(h.log, k, h.count)
      && (iCur == 0 ==> ct.Off?)
      && (iCur != 0 ==> InInterval() && TimerOk())
    }

    constructor (width: nat)
      requires width == 16 || width == 32 || width == 64
      ensures w == width && half == Pow2(width - 1) && ct == Off && h.log == [] && h.count == 0
    {
      w := width;
      half := Pow2(width - 1);
      iMin, iMax, iMaxAbs, k, iCur, iStart, c, hasCallback, ct := 0, 0, 0, 0, 0, 0, 0, false, Off;
      h := History(0, 0, 0, 0, 0, 0, 0, []);
    }

    /** trickle_timer_config: Imax is lowered only if the pair does not fit. The timer is in order afterwards iff its
        ctimer was off and the search for Imax, if one was needed, overlooked nothing. */
    method Config(imin: nat, imax: nat, redundancy: nat) returns (ok: bool)
      requires (w == 16 || w == 32 || w == 64) && half == Pow2(w - 1) && imax + 1 < w && redundancy < 256
      modifies this`iMin, this`iMax, this`iMaxAbs, this`k, this`iCur, this`hasCallback, this`h
      ensures ok <==> 2 <= imin < half && imax != 0 && redundancy != 0
      ensures !ok ==> unchanged(this)
      ensures ok ==> iCur == 0 && iMin == imin && k == redundancy && h.log == []
      ensures ok ==> (Valid() <==> ct == Off && !Misjudged(w, imin, imax))
      ensures ok && !Misjudged(w, imin, imax) ==> iMax <= imax && (iMax == imax <==> Doubled(imin, imax) <= half)
      ensures ok && !Misjudged(w, imin, imax) && iMax < imax ==> LargestImax(w, imin, iMax)
    {
      if imin < 2 || imin > (2 * half - 1) / 2 || imax == 0 || redundancy == 0 {
        return false;
      }
      var m := FittingImax(w, imin, imax, half);
      SetBounds(imin, m, redundancy);
      ok := true;
    }

    method SetBounds(imin: nat, m: nat, redundancy: nat)
      requires (w == 16 || w == 32 || w == 64) && half == Pow2(w - 1) && 2 <= imin && 0 < redundancy < 256
      modifies this`iMin, this`iMax, this`iMaxAbs, this`k, this`iCur, this`hasCallback, this`h
      ensures iCur == 0 && iMin == imin && iMax == m && k == redundancy && h.log == []
      ensures Valid() <==> ct == Off && Doubled(imin, m) <= half
    {
      HalfRange(w, half);
      iMin, iMax, k := imin, m, redundancy;
      iMaxAbs := Doubled(imin, m) % (2 * half);
      if Doubled(imin, m) <= half {
        SmallMod(Doubled(imin, m), 2 * half);
      }
      iCur, hasCallback := 0, false;
      h := h.(count := 0, log := []);
    }

    /** get_t: a time in the second half of the interval. */
    method GetT(i: nat, rand: nat) returns (r: nat)
      requires i >= 2
      ensures r == TimeIn(i, rand)
    {
      var lower := i / 2;
      r := lower + rand % lower;
    }

    /** new_interval. */
    method NewInterval(clock: nat, rand: nat, ghost now: nat)
      requires Configured() && LogOk(h.log, k, h.count) && iMin <= iCur <= iMaxAbs && hasCallback &&
               clock == OnClock(now, 2 * half)
      requires h.base == iCur && h.doublings == 0
      modifies this`c, this`ct, this`iStart, this`h
      ensures Valid() && ct == Armed(Fire, TimeIn(iCur, rand))
      ensures h == old(h).(start := now, t := TimeIn(iCur, rand), heard := 0, count := old(h).count + 1, armedAt := now)
    {
      var locClock := GetT(iCur, rand);
      c := 0;
      ct := Armed(Fire, locClock);
      iStart := clock;
      h := h.(start := now, t := locClock, heard := 0, count := h.count + 1, armedAt := now);
    }

    /** The size of the first interval. */
    ghost function FirstSize(rand: nat): (i: nat)
      requires Configured()
      reads this
      ensures iMin <= i <= iMaxAbs
    {
      iMin + rand % (iMaxAbs - iMin + 1)
    }

    /** trickle_timer_set: a random interval between Imin and Imax. */
    method Set(clock: nat, rand1: nat, rand2: nat, ghost now: nat)
      requires Valid() && clock == OnClock(now, 2 * half)
      modifies this`hasCallback, this`iCur, this`c, this`ct, this`iStart, this`h
      ensures Valid() && iCur == FirstSize(rand1) && ct == Armed(Fire, TimeIn(iCur, rand2))
      ensures h == History(now, TimeIn(iCur, rand2), 0, old(h).count + 1, iCur, 0, now, old(h).log)
    {
      hasCallback := true;
      iCur := iMin + rand1 % (iMaxAbs - iMin + 1);
      h := h.(base := iCur, doublings := 0);
      NewInterval(clock, rand2, now);
    }

    /** trickle_timer_stop. */
    method Stop()
      requires Valid()
      modifies this`ct, this`iCur
      ensures Valid() && iCur == 0 && ct == Off
    {
      ct := Off;
      iCur := 0;
    }

    /** trickle_timer_consistency. */
    method Consistency()
      requires Valid()
      modifies this`c, this`h
      ensures Valid() && h == if iCur != 0 then old(h).(heard := old(h).heard + 1) else old(h)
    {
      if iCur == 0 {
        return;
      }
      if c < 0xFF {
        c := c + 1;
      }
      h := h.(heard := h.heard + 1);
    }

    /** trickle_timer_inconsistency: a reset to Imin, unless the interval is Imin already. */
    method Inconsistency(clock: nat, rand: nat, ghost now: nat)
      requires Valid() && clock == OnClock(now, 2 * half)
      modifies this`iCur, this`c, this`ct, this`iStart, this`h
      ensures Valid()
      ensures old(iCur) == 0 || old(iCur) == iMin ==> iCur == old(iCur) && ct == old(ct) && h == old(h)
      ensures old(iCur) != 0 && old(iCur) != iMin ==>
                && iCur == iMin >= 2 && ct == Armed(Fire, TimeIn(iMin, rand))
                && h == History(now, TimeIn(iMin, rand), 0, old(h).count + 1, iMin, 0, now, old(h).log)
    {
      if iCur == 0 {
        return;
      }
      if iCur != iMin {
        iCur := iMin;
        h := h.(base := iMin, doublings := 0);
        NewInterval(clock, rand, now);
      }
    }

    // ------------------------------------------------------------ the ctimer's calls

    /** schedule_for_end: at the end of the interval, or at once if that has passed. */
    method ScheduleForEnd(clock: nat, ghost now: nat)
      requires Configured() && InInterval() && clock == OnClock(now, 2 * half)
      requires h.start + iCur / 2 <= now <= h.start + iCur + half
      modifies this`ct, this`h
      ensures h == old(h).(armedAt := now)
      ensures ct.Armed? && ct.job == Double && now + ct.interval == Max(now, h.start + iCur)
    {
      WrappedDifference(h.start, now, iCur, 2 * half);
      AheadOrPast(h.start + iCur - now, half);
      var locClock := (iStart + iCur - clock) % (2 * half);
      if locClock > half - 1 {
        locClock := 0;
      }
      ct := Armed(Double, locClock);
      h := h.(armedAt := now);
    }

    /** fire: the protocol's callback is called, once in this interval, with the flag that says whether fewer than k
        consistencies were heard in it; then the end is waited for. */
    method FireNow(clock: nat, ghost now: nat) returns (ok: bool)
      requires Valid() && ct.Armed? && ct.job == Fire && clock == OnClock(now, 2 * half)
      requires h.armedAt + ct.interval <= now <= h.start + iCur + half
      modifies this`ct, this`h
      ensures Valid() && ct.Armed? && ct.job == Double && now + ct.interval == Max(now, h.start + iCur)
      ensures ok <==> h.heard < k
      ensures h == old(h).(armedAt := now, log := old(h).log + [Call(old(h).count, ok, old(h).heard)])
    {
      ok := c < k;
      ScheduleForEnd(clock, now);
      h := h.(log := h.log + [Call(h.count, ok, h.heard)]);
    }

    /** Where the next interval's callback is scheduled: t ticks after the end of the last, or at once. */
    method DriftFree(lastEnd: nat, loc: nat, clock: nat, ghost end: nat, ghost now: nat) returns (wait: nat)
      requires half > 0 && lastEnd == OnClock(end, 2 * half) && clock == OnClock(now, 2 * half) && loc < half &&
               end <= now <= end + half
      ensures now + wait == Max(now, end + loc)
    {
      WrappedDifference(end, now, loc, 2 * half);
      AheadOrPast(end + loc - now, half);
      wait := (lastEnd + loc - clock) % (2 * half);
      if wait > half - 1 {
        wait := 0;
      }
    }

    /** double_interval: the next interval is twice as long, or Imax, and begins exactly when the last one ended. */
    method DoubleInterval(clock: nat, rand: nat, ghost now: nat)
      requires Valid() && ct.Armed? && ct.job == Double && clock == OnClock(now, 2 * half)
      requires h.armedAt + ct.interval <= now <= h.start + iCur + half
      modifies this`iCur, this`c, this`ct, this`iStart, this`h
      ensures Valid() && 2 <= iCur == Min(2 * old(iCur), iMaxAbs)
      ensures h == History(old(h).start + old(iCur), TimeIn(iCur, rand), 0, old(h).count + 1, old(h).base,
                           old(h).doublings + 1, now, old(h).log)
      ensures ct.Armed? && ct.job == Fire && now + ct.interval == Max(now, h.start + h.t)
    {
      c := 0;
      var lastEnd := EndOnClock();
      ghost var end := h.start + iCur;
      Grow();
      var tt := GetT(iCur, rand);
      var locClock := DriftFree(lastEnd, tt, clock, end, now);
      GoOn(locClock, lastEnd, tt, end, now);
    }

    /** The next interval begins, with the ctimer set. */
    method GoOn(locClock: nat, lastEnd: nat, ghost tt: nat, ghost end: nat, ghost now: nat)
      requires Configured() && LogOk(h.log, k, h.count) && hasCallback && c == 0
      requires half > 0 && lastEnd == OnClock(end, 2 * half) && iCur / 2 <= tt < iCur && iMin <= iCur <= iMaxAbs
      requires iMin <= h.base <= iMaxAbs && iCur == Min(Doubled(h.base, h.doublings + 1), iMaxAbs)
      requires now + locClock == Max(now, end + tt)
      modifies this`ct, this`iStart, this`h
      ensures Valid() && ct == Armed(Fire, locClock)
      ensures h == History(end, tt, 0, old(h).count + 1, old(h).base, old(h).doublings + 1, now, old(h).log)
    {
      ct := Armed(Fire, locClock);
      iStart := lastEnd;
      h := h.(start := end, t := tt, heard := 0, count := h.count + 1, doublings := h.doublings + 1, armedAt := now);
    }

    /** TRICKLE_TIMER_INTERVAL_END. */
    method EndOnClock() returns (end: nat)
      requires half > 0 && iStart == OnClock(h.start, 2 * half)
      ensures end == OnClock(h.start + iCur, 2 * half)
    {
      WrappedEnd(h.start, iCur, half);
      end := (iStart + iCur) % (2 * half);
    }

    /** The interval's size is doubled, up to Imax. */
    method Grow()
      modifies this`iCur
      ensures iCur == Min(2 * old(iCur), iMaxAbs)
    {
      if iCur <= iMaxAbs / 2 {
        iCur := 2 * iCur;
      } else {
        iCur := iMaxAbs;
      }
    }

    // ------------------------------------------------------------------ whole runs

    /** The ctimer has expired, and less than half the clock's range has passed since the end of the interval. */
    predicate Due(watch: Watch, now: nat)
      reads this
    {
      ct.Armed? && watch.armedAt + ct.interval <= now <= watch.start + iCur + half
    }

    /** What an observer with a clock that does not wrap would have noted. */
    ghost predicate SeenBy(watch: Watch)
      reads this
    {
      iCur != 0 ==> watch == Watch(h.start, h.armedAt)
    }

    /** The timer in true time. */
    ghost function Seen(): Timing
      reads this
    {
      Timing(h, iCur, ct)
    }

    ghost function Limits(): Bounds
      reads this
    {
      Bounds(iMin, iMaxAbs, k, half)
    }

    /** One event at time now; the ctimer's call when it is due. */
    method Handle(e: Event, clock: nat, ghost now: nat, ghost watch: Watch) returns (flags: seq<bool>)
      requires Valid() && SeenBy(watch) && clock == OnClock(now, 2 * half) && (e.Expired? ==> Due(watch, now))
      modifies this`hasCallback, this`iCur, this`c, this`ct, this`iStart, this`h
      ensures Valid() && Extends(h.log, old(h).log, flags)
      ensures Limits() == old(Limits()) && Seen() == Next(Limits(), old(Seen()), e, now)
      ensures SeenBy(watch.After(e, old(iCur), iMin, old(ct), now))
    {
      flags := Serve(e, clock, now);
      WatchFollows(Limits(), old(Seen()), e, now, watch);
    }

    method Serve(e: Event, clock: nat, ghost now: nat) returns (flags: seq<bool>)
      requires Valid() && clock == OnClock(now, 2 * half) && (e.Expired? ==> Due(Watch(h.start, h.armedAt), now))
      modifies this`hasCallback, this`iCur, this`c, this`ct, this`iStart, this`h
      ensures Valid() && Extends(h.log, old(h).log, flags)
      ensures Limits() == old(Limits()) && Seen() == Next(Limits(), old(Seen()), e, now)
    {
      flags := [];
      match e {
        case Start(rand1, rand2) => Set(clock, rand1, rand2, now);
        case Stopped => Stop();
        case Consistent => Consistency();
        case Inconsistent(rand) => Inconsistency(clock, rand, now);
        case Expired(rand) => flags := CallBack(clock, rand, now);
      }
    }

    /** The ctimer's call. */
    method CallBack(clock: nat, rand: nat, ghost now: nat) returns (flags: seq<bool>)
      requires Valid() && clock == OnClock(now, 2 * half) && Due(Watch(h.start, h.armedAt), now)
      modifies this`iCur, this`c, this`ct, this`iStart, this`h
      ensures Valid() && Extends(h.log, old(h).log, flags)
      ensures Seen() == Expires(Limits(), old(Seen()), rand, now)
    {
      flags := [];
      if ct.job == Fire {
        var ok := FireNow(clock, now);
        flags := [ok];
      } else {
        DoubleInterval(clock, rand, now);
      }
    }

    /** In every run the timer does in true time what the events ask for, on whatever its wrapping clock shows; it stays
        in order, and its callback is called at most once in an interval, with the flag that says whether fewer than k
        consistencies were heard in it. An expiry that is not due at its time does not happen. */
    method Run(es: seq<Event>, times: seq<nat>, first: Watch) returns (flags: seq<bool>)
      requires Valid() && SeenBy(first) && half > 0 && |times| == |es|
      modifies this`hasCallback, this`iCur, this`c, this`ct, this`iStart, this`h
      ensures Valid() && Extends(h.log, old(h).log, flags) && LogOk(h.log, k, h.count)
      ensures Seen() == AfterAll(Limits(), old(Seen()), es, times, |es|)
    {
      flags := [];
      var watch := first;
      ghost var log0, limits, s0 := h.log, Limits(), Seen();
      for i := 0 to |es|
        invariant Valid() && SeenBy(watch) && Extends(h.log, log0, flags)
        invariant Limits() == limits && Seen() == AfterAll(limits, s0, es, times, i)
      {
        ghost var log1, flags1 := h.log, flags;
        var more;
        more, watch := RunOne(es[i], times[i], watch);
        flags := flags + more;
        ExtendsOn(h.log, log1, log0, more, flags1);
      }
    }

    /** One event, if it happens. */
    method RunOne(e: Event, now: nat, watch: Watch) returns (flags: seq<bool>, watch': Watch)
      requires Valid() && SeenBy(watch) && half > 0
      modifies this`hasCallback, this`iCur, this`c, this`ct, this`iStart, this`h
      ensures Valid() && SeenBy(watch') && Extends(h.log, old(h).log, flags) && Limits() == old(Limits())
      ensures var s := old(Seen()); Seen() == if Happens(Limits(), s, e, now) then Next(Limits(), s, e, now) else s
    {
      flags, watch' := [], watch;
      if !e.Expired? || Due(watch, now) {
        watch' := watch.After(e, iCur, iMin, ct, now);
        flags := Handle(e, OnClock(now, 2 * half), now, watch);
      }
    }
  }

  // ------------------------------------------------------ the timer in true time

  /** Imin, Imax, k, and the lateness that is put up with. */
  datatype Bounds = Bounds(iMin: nat, iMax: nat, k: nat, late: nat)
  {
    ghost predicate Ok()
    {
      2 <= iMin <= iMax
    }
  }

  /** What happened so far, the size of the interval, zero if the timer is stopped, and the ctimer. */
  datatype Timing = Timing(h: History, size: nat, ct: CTimer)

  /** An interval of a new size begins. */
  ghost function Begins(s: Timing, size: nat, rand: nat, now: nat): Timing
    requires size >= 2
  {
    var t := TimeIn(size, rand);
    Timing(History(now, t, 0, s.h.count + 1, size, 0, now, s.h.log), size, Armed(Fire, t))
  }

  /** From now until a time, or nothing if that has passed. */
  ghost function Until(time: nat, now: nat): nat
  {
    if time > now then time - now else 0
  }

  ghost function Expires(p: Bounds, s: Timing, rand: nat, now: nat): Timing
  {
    if s.ct == Off || !p.Ok() || s.size < 2 then s
    else if s.ct.job == Fire then
      Timing(s.h.(armedAt := now, log := s.h.log + [Call(s.h.count, s.h.heard < p.k, s.h.heard)]), s.size,
             Armed(Double, Until(s.h.start + s.size, now)))
    else
      var size, start := Min(2 * s.size, p.iMax), s.h.start + s.size;
      var t := TimeIn(size, rand);
      Timing(History(start, t, 0, s.h.count + 1, s.h.base, s.h.doublings + 1, now, s.h.log), size,
             Armed(Fire, Until(start + t, now)))
  }

  ghost function Next(p: Bounds, s: Timing, e: Event, now: nat): Timing
  {
    match e
    case Start(rand1, rand2) => if p.Ok() then Begins(s, p.iMin + rand1 % (p.iMax - p.iMin + 1), rand2, now) else s
    case Stopped => Timing(s.h, 0, Off)
    case Consistent => if s.size == 0 then s else s.(h := s.h.(heard := s.h.heard + 1))
    case Inconsistent(rand) => if s.size == 0 || s.size == p.iMin || p.iMin < 2 then s else Begins(s, p.iMin, rand, now)
    case Expired(rand) => Expires(p, s, rand, now)
  }

  /** An observer's notes stay right. */
  lemma WatchFollows(p: Bounds, s: Timing, e: Event, now: nat, watch: Watch)
    requires p.Ok() && (s.size != 0 ==> s.size >= 2 && watch == Watch(s.h.start, s.h.armedAt))
    requires e.Expired? ==> s.size != 0 && s.ct != Off
    ensures var u := Next(p, s, e, now);
            u.size != 0 ==> watch.After(e, s.size, p.iMin, s.ct, now) == Watch(u.h.start, u.h.armedAt)
  {
  }

  /** The event happens at time now. */
  ghost predicate Happens(p: Bounds, s: Timing, e: Event, now: nat)
  {
    e.Expired? ==> s.ct.Armed? && s.h.armedAt + s.ct.interval <= now <= s.h.start + s.size + p.late
  }

  ghost function AfterAll(p: Bounds, s: Timing, es: seq<Event>, times: seq<nat>, n: nat): Timing
    requires n <= |es| == |times|
  {
    if n == 0 then s
    else
      var u := AfterAll(p, s, es, times, n - 1);
      if Happens(p, u, es[n - 1], times[n - 1]) then Next(p, u, es[n - 1], times[n - 1]) else u
  }

  /** The consistencies among the first n events. */
  function Consistencies(es: seq<Event>, n: nat): nat
    requires n <= |es|
  {
    if n == 0 then 0 else Consistencies(es, n - 1) + if es[n - 1] == Consistent then 1 else 0
  }

  /** While no new interval begins and the timer runs, what was heard is what was heard before and the consistencies
      since. */
  lemma {:induction false} HeardIs(p: Bounds, s: Timing, es: seq<Event>, times: seq<nat>, n: nat)
    requires n <= |es| == |times| && s.size != 0
    requires AfterAll(p, s, es, times, n).h.count == s.h.count
    requires forall i: nat {:trigger es[i]} :: i < n ==> es[i] != Stopped
    ensures AfterAll(p, s, es, times, n).h.heard == s.h.heard + Consistencies(es, n)
    ensures AfterAll(p, s, es, times, n).size == s.size
  {
    if n > 0 {
      CountGrows(p, s, es, times, n - 1);
      HeardIs(p, s, es, times, n - 1);
    }
  }

  lemma {:induction false} CountGrows(p: Bounds, s: Timing, es: seq<Event>, times: seq<nat>, n: nat)
    requires n < |es| == |times|
    ensures s.h.count <= AfterAll(p, s, es, times, n).h.count <= AfterAll(p, s, es, times, n + 1).h.count
  {
    if n > 0 {
      CountGrows(p, s, es, times, n - 1);
    }
  }

  /** In true time, when the interval under way began and when the ctimer was set. */
  datatype Watch = Watch(start: nat, armedAt: nat) {
    /** The same after an event at time now, in an interval of size i. */
    function After(e: Event, i: nat, iMin: nat, ct: CTimer, now: nat): Watch
    {
      match e
      case Start(_, _) => Watch(now, now)
      case Stopped => this
      case Consistent => this
      case Inconsistent(_) => if i == 0 || i == iMin then this else Watch(now, now)
      case Expired(_) => if ct == Off || ct.job == Fire then this.(armedAt := now) else Watch(start + i, now)
    }
  }

  /** What happens to a trickle timer. */
  datatype Event = Start(rand1: nat, rand2: nat) | Stopped | Consistent | Inconsistent(rand: nat) | Expired(rand: nat)

  /** The log got longer by calls with these flags. */
  ghost predicate Extends(log: seq<Call>, log0: seq<Call>, flags: seq<bool>)
  {
    && log0 <= log && |log| == |log0| + |flags|
    && forall i {:trigger flags[i]} :: 0 <= i < |flags| ==> flags[i] == log[|log0| + i].ok
  }

  lemma ExtendsOn(log: seq<Call>, log1: seq<Call>, log0: seq<Call>, more: seq<bool>, flags: seq<bool>)
    requires Extends(log, log1, more) && Extends(log1, log0, flags)
    ensures Extends(log, log0, flags + more)
  {
  }

  /** After a reset to Imin and j doublings, the interval is Imin doubled j times, but at most Imax times. */
  lemma AfterReset(x: nat, j: nat, m: nat)
    ensures Min(Doubled(x, j), Doubled(x, m)) == Doubled(x, Min(j, m))
  {
    if j <= m { DoubledGrows(x, j, m); } else { DoubledGrows(x, m, j); }
  }

  lemma WrappedEnd(start: nat, i: nat, half: nat)
    requires half > 0
    ensures (OnClock(start, 2 * half) + i) % (2 * half) == OnClock(start + i, 2 * half)
  {
    WrappedDifference(start, 0, i, 2 * half);
    OnClockIs(start + i, 2 * half);
  }
}
