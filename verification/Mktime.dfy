/** gl/mktime.c: inverting a conversion from `time_t` to broken-down time that is known only
    through calls to it. The conversion is a parameter here, as it is in the source. */
module Mktime {
  import opened MachineInts
  import opened Calendar

  const TIME_T_MIN: int := -0x8000_0000_0000_0000
  const TIME_T_MAX: int := 0x7FFF_FFFF_FFFF_FFFF

  /** TIME_T_MIDPOINT */
  const TIME_T_MIDPOINT: int := (TIME_T_MIN + TIME_T_MAX) / 2 + 1

  /** struct tm */
  datatype Tm = Tm(sec: Int32, min: Int32, hour: Int32, mday: Int32, mon: Int32, year: Int32,
                   wday: Int32, yday: Int32, isdst: Int32)

  /** localtime_r and the like: no result for a time whose year is out of range. */
  type Convert = Int64 -> Option<Tm>

  // ----- Overflow-free arithmetic -----

  /** `time_t_avg` */
  function TimeAvg(a: Int64, b: Int64): (r: Int64)
    ensures r == (a + b) / 2
  {
    a / 2 + b / 2 + (if a % 2 == 1 && b % 2 == 1 then 1 else 0)
  }

  /** `time_t_add_ok` for a signed type, both where signed overflow wraps around and where it does not. */
  predicate TimeAddOk(wrapv: bool, a: Int64, b: Int64)
    ensures TimeAddOk(wrapv, a, b) <==> TIME_T_MIN <= a + b <= TIME_T_MAX
  {
    if wrapv then
      var sum := Wrap64(a + b);
      (sum < a) == (b < 0)
    else
      var avg := TimeAvg(a, b);
      CDiv(TIME_T_MIN, 2) <= avg && avg <= CDiv(TIME_T_MAX, 2)
  }

  /** `time_t_int_add_ok` */
  predicate TimeIntAddOk(wrapv: bool, a: Int64, b: Int32)
    ensures TimeIntAddOk(wrapv, a, b) <==> TIME_T_MIN <= a + b <= TIME_T_MAX
  {
    if wrapv then
      var sum := Wrap64(a + b);
      (sum < a) == (b < 0)
    else
      var avg := a / 2 + (b / 2 + (if a % 2 == 1 && b % 2 == 1 then 1 else 0));
      CDiv(TIME_T_MIN, 2) <= avg && avg <= CDiv(TIME_T_MAX, 2)
  }

  /** The time that `guess_time_tm` falls back on: as far as possible in the right direction, but never `t` itself. */
  function FarTime(t: Int64): (r: Int64)
    ensures r != t
  {
    if t < TIME_T_MIDPOINT then (if t <= TIME_T_MIN + 1 then t + 1 else TIME_T_MIN)
    else (if TIME_T_MAX - 1 <= t then t - 1 else TIME_T_MAX)
  }

  /** `guess_time_tm` */
  function GuessTime(wrapv: bool, year: Int64, yday: Int64, hour: Int32, min: Int32, sec: Int32,
                     t: Int64, tp: Option<Tm>): Int64
  {
    if tp.Some? then
      var tm := tp.value;
      var d := YdhmsDiff(year, yday, hour, min, sec, tm.year, tm.yday, tm.hour, tm.min, tm.sec);
      if TimeAddOk(wrapv, t, d) then t + d else FarTime(t)
    else
      FarTime(t)
  }

  /** Where the sum overflows, the fallback is the nearest time in range, unless t is beside the end of the range. */
  lemma FarTimeIsNearest(t: Int64, d: Int64)
    requires TIME_T_MIN + 1 < t < TIME_T_MAX - 1
    ensures t + d > TIME_T_MAX ==> FarTime(t) == TIME_T_MAX
    ensures t + d < TIME_T_MIN ==> FarTime(t) == TIME_T_MIN
  {
  }

  // ----- Converting the nearest time in range -----

  /** The convertible times are exactly the interval lo .. hi, which contains 0. */
  ghost predicate ConvertsExactly(convert: Convert, lo: Int64, hi: Int64) {
    lo <= 0 <= hi && forall t: Int64 :: convert(t).Some? <==> lo <= t <= hi
  }

  function Clamp(t: Int64, lo: Int64, hi: Int64): Int64
    requires lo <= hi
  {
    if t < lo then lo else if t > hi then hi else t
  }

  /** `ranged_convert`: returns the converted time, the time it belongs to, and how often `convert` was called.
      If the convertible times are an interval, the result is for the nearest time in it, unless that time is
      0 and was not the one asked for: then there is no result. */
  method RangedConvert(convert: Convert, t: Int64, ghost lo: Int64, ghost hi: Int64)
      returns (r: Option<Tm>, t': Int64, calls: nat)
    ensures r == convert(t')
    ensures convert(t).Some? ==> t' == t && r == convert(t) && calls == 1
    ensures ConvertsExactly(convert, lo, hi) ==>
              (r.Some? <==> t == Clamp(t, lo, hi) || Clamp(t, lo, hi) != 0)
    ensures ConvertsExactly(convert, lo, hi) && r.Some? ==> t' == Clamp(t, lo, hi)
  {
    r, t', calls := convert(t), t, 1;
    if r.None? && t != 0 {
      var bad, ok := t, 0;
      while bad != ok + (if bad < 0 then -1 else 1)
        invariant t' == if r.Some? then ok else bad
        invariant if t < 0 then t <= bad < ok <= 0 else 0 <= ok < bad <= t
        invariant ok != 0 ==> convert(ok).Some?
        invariant convert(bad).None? && r == convert(t')
        invariant r.Some? ==> ok != 0
        decreases if bad < ok then ok - bad else bad - ok
      {
        var mid := TimeAvg(ok, bad);
        t' := mid;
        r := convert(t');
        calls := calls + 1;
        if r.Some? {
          ok := mid;
        } else {
          bad := mid;
        }
      }
      if r.None? && ok != 0 {
        t' := ok;
        r := convert(t');
        calls := calls + 1;
      }
    }
  }

  // ----- Time zones with a fixed offset -----

  datatype Zone = Zone(utcOffset: Int32, lo: Int64, hi: Int64)

  /** All fields are in their usual ranges and the two ways of naming the day agree. */
  ghost predicate Normal(tm: Tm) {
    && 0 <= tm.sec < 60 && 0 <= tm.min < 60 && 0 <= tm.hour < 24
    && 0 <= tm.mon < 12 && 1 <= tm.mday <= MonthLength(12 * tm.year + tm.mon)
    && 0 <= tm.yday < YearLength(tm.year)
    && MonthStart(12 * tm.year + tm.mon) + tm.mday - 1 == DayNumber(tm.year) + tm.yday
  }

  /** Seconds from the start of 1970 to tm, read as UTC. */
  ghost function TmTime(tm: Tm): int {
    LinearTime(tm.year, tm.yday, tm.hour, tm.min, tm.sec)
  }

  /** `convert` belongs to a zone without leap seconds or daylight-saving time. */
  ghost predicate FixedOffset(convert: Convert, zone: Zone) {
    && zone.lo < 0 < zone.hi
    && ConvertsExactly(convert, zone.lo, zone.hi)
    && forall t: Int64 :: zone.lo <= t <= zone.hi ==>
         var tm := convert(t).value;
         tm.isdst == 0 && Normal(tm) && TmTime(tm) == t + zone.utcOffset
  }

  ghost predicate InZone(zone: Zone, t: int) {
    zone.lo <= t <= zone.hi
  }

  /** The fields asked for, as seconds from the start of 1970; `sec` replaces the seconds field. */
  ghost function TmRequest(tp: Tm, sec: int): int {
    RequestedTime(tp.year, tp.mon, tp.mday, tp.hour, tp.min, sec)
  }

  function ClipSec(sec: Int32): (r: Int32)
    ensures 0 <= r <= 59
  {
    if sec < 0 then 0 else if 59 < sec then 59 else sec
  }

  /** The request can be met: its time is convertible, and so is the time with its seconds cut to 0 .. 59. */
  ghost predicate Feasible(tp: Tm, zone: Zone) {
    && InZone(zone, TmRequest(tp, tp.sec) - zone.utcOffset)
    && InZone(zone, TmRequest(tp, ClipSec(tp.sec)) - zone.utcOffset)
  }

  /** The time that the search looks at first. */
  ghost function FirstProbe(tp: Tm, offset: Int64): int {
    TmRequest(tp, ClipSec(tp.sec)) - Wrap32(-(offset as int))
  }

  /** This remembered offset puts the first guess on the right time. */
  predicate OffsetRight(offset: Int64, zone: Zone) {
    Wrap32(-(offset as int)) == zone.utcOffset
  }

  // ----- The search -----

  /** `isdst_differ`: one is zero and the other positive. */
  predicate IsdstDiffer(a: Int32, b: Int32)
    ensures IsdstDiffer(a, b) <==> a == 0 < b || b == 0 < a
  {
    (a == 0) != (b == 0) && 0 <= a && 0 <= b
  }

  /** The year and day of year that the search starts from. */
  function NormalYear(tp: Tm): Int64 {
    var monRemainder := CMod(tp.mon, 12);
    var negative := if monRemainder < 0 then 1 else 0;
    tp.year + CDiv(tp.mon, 12) - negative
  }

  function NormalYday(tp: Tm): Int64 {
    var monRemainder := CMod(tp.mon, 12);
    var negative := if monRemainder < 0 then 1 else 0;
    var row := if LeapYear(NormalYear(tp)) then 1 else 0;
    MON_YDAY[row][monRemainder + 12 * negative] - 1 + tp.mday
  }

  // ----- What the search relies on in a zone with a fixed offset -----

  /** Splitting off whole years from the month, as the code does it, does not move the requested time. */
  lemma RequestIsLinear(tp: Tm, sec: int)
    ensures TmRequest(tp, sec) == LinearTime(NormalYear(tp), NormalYday(tp), tp.hour, tp.min, sec)
  {
    var rem := CMod(tp.mon, 12);
    var m := if rem < 0 then rem + 12 else rem;
    assert 0 <= m < 12;
    assert 12 * tp.year + tp.mon == 12 * NormalYear(tp) + m;
    MonthTableCorrect(NormalYear(tp), m);
  }

  lemma ZoneTimesBounded(convert: Convert, zone: Zone, t: Int64)
    requires FixedOffset(convert, zone) && InZone(zone, t)
    ensures -0x200_0000_0000_0000 <= t + zone.utcOffset <= 0x200_0000_0000_0000
  {
    var tm := convert(t).value;
    DayNumberBound(tm.year);
    assert TmTime(tm) == t + zone.utcOffset;
  }

  /** 32-bit fields cannot name a time that comes near the ends of a 64-bit time_t. */
  lemma RequestBounded(tp: Tm, sec: Int32)
    ensures -0x400_0000_0000_0000 <= TmRequest(tp, sec) <= 0x400_0000_0000_0000
    ensures YearAllowed(NormalYear(tp))
  {
    RequestIsLinear(tp, sec);
    DayNumberBound(NormalYear(tp));
    assert -0xC000_0000 <= NormalYear(tp) <= 0xC000_0000;
    assert -0x8000_0002 <= NormalYday(tp) <= 0x8000_0200;
  }

  lemma ZoneConverts(convert: Convert, zone: Zone)
    requires FixedOffset(convert, zone)
    ensures zone.lo < 0 < zone.hi && ConvertsExactly(convert, zone.lo, zone.hi)
    ensures forall t: Int64 :: convert(t).Some? ==> convert(t).value.isdst == 0
  {
  }

  lemma FeasibleInZone(tp: Tm, zone: Zone)
    ensures Feasible(tp, zone) <==>
              && InZone(zone, TmRequest(tp, tp.sec) - zone.utcOffset)
              && InZone(zone, TmRequest(tp, ClipSec(tp.sec)) - zone.utcOffset)
  {
  }

  lemma FirstGuess(tp: Tm, offset: Int64)
    ensures YdhmsDiff(NormalYear(tp), NormalYday(tp), tp.hour, tp.min, ClipSec(tp.sec),
                      70, 0, 0, 0, Wrap32(-(offset as int)))
         == TmRequest(tp, ClipSec(tp.sec)) - Wrap32(-(offset as int))
  {
    hide YdhmsDiff, NormalYear, NormalYday, RequestedTime;
    var sec := ClipSec(tp.sec);
    RequestIsLinear(tp, sec);
    RequestBounded(tp, sec);
    YdhmsDiffIsElapsed(NormalYear(tp), NormalYday(tp), tp.hour, tp.min, sec, 70, 0, 0, 0, Wrap32(-(offset as int)));
    assert LinearTime(70, 0, 0, 0, Wrap32(-(offset as int))) == Wrap32(-(offset as int));
  }

  /** From any convertible time the next guess is the time requested, whether that is convertible or not. */
  lemma GuessHitsTarget(wrapv: bool, tp: Tm, convert: Convert, zone: Zone, t: Int64)
    requires FixedOffset(convert, zone) && InZone(zone, t)
    ensures GuessTime(wrapv, NormalYear(tp), NormalYday(tp), tp.hour, tp.min, ClipSec(tp.sec), t, convert(t))
         == TmRequest(tp, ClipSec(tp.sec)) - zone.utcOffset
  {
    var sec := ClipSec(tp.sec);
    var tm := convert(t).value;
    RequestIsLinear(tp, sec);
    RequestBounded(tp, sec);
    ZoneTimesBounded(convert, zone, t);
    assert TmTime(tm) == t + zone.utcOffset;
    GuessIsExact(wrapv, NormalYear(tp), NormalYday(tp), tp.hour, tp.min, sec, t, tm);
  }

  lemma GuessIsExact(wrapv: bool, year: Int64, yday: Int64, hour: Int32, min: Int32, sec: Int32, t: Int64, tm: Tm)
    requires YearAllowed(year)
    requires TIME_T_MIN <= LinearTime(year, yday, hour, min, sec) - TmTime(tm) <= TIME_T_MAX
    requires TIME_T_MIN <= t + LinearTime(year, yday, hour, min, sec) - TmTime(tm) <= TIME_T_MAX
    ensures GuessTime(wrapv, year, yday, hour, min, sec, t, Some(tm))
         == t + LinearTime(year, yday, hour, min, sec) - TmTime(tm)
  {
    hide YdhmsDiff, LinearTime;
    YdhmsDiffIsElapsed(year, yday, hour, min, sec, tm.year, tm.yday, tm.hour, tm.min, tm.sec);
  }

  /** The remembered offset stays a multiple of 2^32 away from the right one, which its use as an `int` hides. */
  lemma OffsetLearned(tp: Tm, zone: Zone, offset: Int64, t: Int64, t0: Int64)
    requires t == TmRequest(tp, ClipSec(tp.sec)) - zone.utcOffset
    requires t0 == TmRequest(tp, ClipSec(tp.sec)) - Wrap32(-(offset as int))
    ensures OffsetRight(Wrap64(offset + t - t0), zone)
  {
    var offset' := Wrap64(offset + t - t0);
    var k := (offset + t - t0 + TWO_63) / TWO_64;
    var j := (-(offset as int) + TWO_31) / TWO_32;
    assert -offset' == zone.utcOffset + TWO_32 * (j + 0x1_0000_0000 * k);
    DivUnique(-offset' + TWO_31, TWO_32, j + 0x1_0000_0000 * k, zone.utcOffset + TWO_31);
  }

  /** Whatever the zone, the time found has the clipped seconds of the request in its seconds field. */
  lemma ClipKeepsMinute(tp: Tm, convert: Convert, zone: Zone, t: Int64)
    requires FixedOffset(convert, zone) && InZone(zone, t)
    requires t == TmRequest(tp, ClipSec(tp.sec)) - zone.utcOffset
    ensures convert(t).value.sec == ClipSec(tp.sec)
    ensures t + tp.sec - ClipSec(tp.sec) == TmRequest(tp, tp.sec) - zone.utcOffset
    ensures -0x300_0000_0000_0000 <= t <= 0x300_0000_0000_0000
  {
    hide LinearTime, RequestedTime;
    var tm := convert(t).value;
    var sec := ClipSec(tp.sec);
    ZoneTimesBounded(convert, zone, t);
    assert TmTime(tm) == TmRequest(tp, sec);
    SecondsOfLinear(tm.year, tm.yday, tm.hour, tm.min, tm.sec);
    SecondsOfRequested(tp.year, tp.mon, tp.mday, tp.hour, tp.min, sec);
    SecondsApart(tp.year, tp.mon, tp.mday, tp.hour, tp.min, tp.sec, sec);
  }

  lemma SecondsOfLinear(year: int, yday: int, hour: int, min: int, sec: int)
    requires 0 <= sec < 60
    ensures LinearTime(year, yday, hour, min, sec) % 60 == sec
  {
    hide DayNumber;
    DivUnique(LinearTime(year, yday, hour, min, sec), 60, 1440 * (DayNumber(year) + yday) + 60 * hour + min, sec);
  }

  lemma SecondsOfRequested(year: int, mon: int, mday: int, hour: int, min: int, sec: int)
    requires 0 <= sec < 60
    ensures RequestedTime(year, mon, mday, hour, min, sec) % 60 == sec
  {
    hide MonthStart;
    DivUnique(RequestedTime(year, mon, mday, hour, min, sec), 60,
              1440 * (MonthStart(12 * year + mon) + mday - 1) + 60 * hour + min, sec);
  }

  lemma SecondsApart(year: int, mon: int, mday: int, hour: int, min: int, sec: int, sec': int)
    ensures RequestedTime(year, mon, mday, hour, min, sec) - RequestedTime(year, mon, mday, hour, min, sec')
         == sec - sec'
  {
    hide MonthStart;
  }

  // ----- What the search finds, whatever the zone -----

  /** The guess after looking at t. */
  function Guess(wrapv: bool, tp: Tm, convert: Convert, t: Int64): Int64 {
    GuessTime(wrapv, NormalYear(tp), NormalYday(tp), tp.hour, tp.min, ClipSec(tp.sec), t, convert(t))
  }

  /** The fields of t are those requested, as far as they name a time. */
  ghost predicate Meets(tp: Tm, convert: Convert, t: Int64) {
    convert(t).Some? && TmTime(convert(t).value) == TmRequest(tp, ClipSec(tp.sec))
  }

  lemma TmTimeBounded(tm: Tm)
    ensures -0x400_0000_0000_0000 <= TmTime(tm) <= 0x400_0000_0000_0000
  {
    DayNumberBound(tm.year);
  }

  /** A guess that stays where it is means that the time has been found. */
  lemma GuessStays(wrapv: bool, tp: Tm, convert: Convert, t: Int64)
    ensures Guess(wrapv, tp, convert, t) == t <==> Meets(tp, convert, t)
  {
    hide YdhmsDiff, LinearTime, TmRequest, NormalYear, NormalYday, ClipSec, FarTime;
    if convert(t).Some? {
      var tm, sec := convert(t).value, ClipSec(tp.sec);
      TmTimeBounded(tm);
      RequestBounded(tp, sec);
      RequestIsLinear(tp, sec);
      YdhmsDiffIsElapsed(NormalYear(tp), NormalYday(tp), tp.hour, tp.min, sec,
                         tm.year, tm.yday, tm.hour, tm.min, tm.sec);
    }
  }

  /** And away from the ends of the range a guess moves by what is missing. */
  lemma GuessMoves(wrapv: bool, tp: Tm, convert: Convert, t: Int64)
    requires convert(t).Some? && -0x4000_0000_0000_0000 <= t <= 0x4000_0000_0000_0000
    ensures Guess(wrapv, tp, convert, t) == t + TmRequest(tp, ClipSec(tp.sec)) - TmTime(convert(t).value)
  {
    hide LinearTime, TmRequest, NormalYear, NormalYday, ClipSec, GuessTime;
    var tm, sec := convert(t).value, ClipSec(tp.sec);
    TmTimeBounded(tm);
    RequestBounded(tp, sec);
    RequestIsLinear(tp, sec);
    GuessIsExact(wrapv, NormalYear(tp), NormalYday(tp), tp.hour, tp.min, sec, t, tm);
  }

  /** Of the two times around a gap this one is preferred: isdst not as requested, or else daylight-saving time. */
  predicate Preferred(isdst: Int32, tm: Tm, other: Tm) {
    tm.isdst < 0 || if isdst < 0 then tm.isdst != 0 || other.isdst == 0 else (isdst == 0) == (tm.isdst != 0)
  }

  /** The guesses have come back to a time that was left before, and this is the one to take. */
  ghost predicate GapAt(tp: Tm, convert: Convert, path: seq<Int64>, i: nat)
    requires i < |path|
  {
    && i >= 2 && path[i] == path[i - 2] != path[i - 1]
    && convert(path[i]).Some? && convert(path[i - 1]).Some?
    && Preferred(tp.isdst, convert(path[i]).value, convert(path[i - 1]).value)
  }

  /** The times looked at, one guess after the other; where a time cannot be converted, another one takes its place. */
  ghost predicate IsPath(wrapv: bool, tp: Tm, convert: Convert, t0: Int64, path: seq<Int64>) {
    && 1 <= |path| <= 6
    && (convert(t0).Some? ==> path[0] == t0)
    && (forall i :: 0 <= i < |path| - 1 ==> Leads(wrapv, tp, convert, path, i))
  }

  /** From a time that does not meet the request, and where no gap shows, the next guess leads on. */
  ghost predicate Leads(wrapv: bool, tp: Tm, convert: Convert, path: seq<Int64>, i: nat)
    requires i < |path| - 1
  {
    var gt := Guess(wrapv, tp, convert, path[i]);
    !Meets(tp, convert, path[i]) && !GapAt(tp, convert, path, i) && (convert(gt).Some? ==> path[i + 1] == gt)
  }

  lemma PathStarts(wrapv: bool, tp: Tm, convert: Convert, t0: Int64, t: Int64)
    requires convert(t0).Some? ==> t == t0
    ensures IsPath(wrapv, tp, convert, t0, [t])
  {
  }

  lemma PathGoesOn(wrapv: bool, tp: Tm, convert: Convert, t0: Int64, path: seq<Int64>, t: Int64)
    requires IsPath(wrapv, tp, convert, t0, path) && |path| < 6
    requires var last := |path| - 1;
             !Meets(tp, convert, path[last]) && !GapAt(tp, convert, path, last)
    requires var gt := Guess(wrapv, tp, convert, path[|path| - 1]); convert(gt).Some? ==> t == gt
    ensures IsPath(wrapv, tp, convert, t0, path + [t])
  {
    hide Guess, Meets, Preferred;
    var more := path + [t];
    forall i | 0 <= i < |more| - 1
      ensures Leads(wrapv, tp, convert, more, i)
    {
      if i < |path| - 1 {
        assert Leads(wrapv, tp, convert, path, i);
      }
    }
  }

  /** Around a gap the guesses go to and fro for ever between two times that miss the request on either side of it. */
  lemma GapOscillates(wrapv: bool, tp: Tm, convert: Convert, t0: Int64, path: seq<Int64>)
    requires IsPath(wrapv, tp, convert, t0, path) && GapAt(tp, convert, path, |path| - 1)
    requires var t, other := path[|path| - 1], path[|path| - 2];
             convert(Guess(wrapv, tp, convert, t)).Some? && convert(Guess(wrapv, tp, convert, other)).Some?
    ensures var t, other := path[|path| - 1], path[|path| - 2];
            && Guess(wrapv, tp, convert, t) == other && Guess(wrapv, tp, convert, other) == t
            && !Meets(tp, convert, t) && !Meets(tp, convert, other)
  {
    hide Guess, Meets, Preferred;
    var n := |path|;
    assert Leads(wrapv, tp, convert, path, n - 3) && Leads(wrapv, tp, convert, path, n - 2);
  }

  // ----- The search for another isdst -----

  /** The times around t that are looked at, in this order. */
  function Candidate(t: Int64, n: nat): int {
    if n % 2 == 0 then t - 601200 * (n / 2 + 1) else t + 601200 * (n / 2 + 1)
  }

  /** As many as there are strides below half the longest period of daylight-saving time, to either side. */
  const CANDIDATES: nat := 894

  ghost predicate InTimeT(t: int) { TIME_T_MIN <= t <= TIME_T_MAX }

  ghost predicate Suits(tp: Tm, convert: Convert, t: int) {
    InTimeT(t) && convert(t).Some? && !IsdstDiffer(tp.isdst, convert(t).value.isdst)
  }

  /** All these times can be converted, as far as there are such times. */
  ghost predicate SurroundingsConvert(convert: Convert, t: Int64) {
    forall n: nat :: n < CANDIDATES && InTimeT(Candidate(t, n)) ==> convert(Candidate(t, n)).Some?
  }

  /** The first of them that suits, if there is one, and the time extrapolated from it. */
  ghost predicate FoundNearby(wrapv: bool, tp: Tm, convert: Convert, t: Int64, tm: Tm, n: nat, t': Int64, tm': Tm) {
    && n <= CANDIDATES
    && (forall m: nat :: m < n ==> !Suits(tp, convert, Candidate(t, m)))
    && (n == CANDIDATES ==> t' == t && tm' == tm)
    && (n < CANDIDATES ==>
          && Suits(tp, convert, Candidate(t, n))
          && var gt := Guess(wrapv, tp, convert, Candidate(t, n));
             convert(gt).Some? ==> t' == gt && convert(gt) == Some(tm'))
  }

  /** If the offset from UTC is the same at both, the time extrapolated has the fields requested. */
  lemma ExtrapolatedMeets(wrapv: bool, tp: Tm, convert: Convert, t: Int64, t': Int64)
    requires convert(t).Some? && -0x4000_0000_0000_0000 <= t <= 0x4000_0000_0000_0000
    requires t' == Guess(wrapv, tp, convert, t) && convert(t').Some?
    requires TmTime(convert(t').value) - t' == TmTime(convert(t).value) - t
    ensures Meets(tp, convert, t')
  {
    hide Guess, TmRequest, TmTime, ClipSec;
    GuessMoves(wrapv, tp, convert, t);
  }

  /** The search for a neighbouring time with the requested isdst. */
  method FindDst(wrapv: bool, tp: Tm, year: Int64, yday: Int64, sec: Int32,
                 convert: Convert, t: Int64, tm: Tm, ghost zone: Zone) returns (t': Int64, tm': Tm, ghost n: nat)
    requires IsdstDiffer(tp.isdst, tm.isdst)
    requires year == NormalYear(tp) && yday == NormalYday(tp) && sec == ClipSec(tp.sec)
    ensures SurroundingsConvert(convert, t) ==> FoundNearby(wrapv, tp, convert, t, tm, n, t', tm')
    ensures FixedOffset(convert, zone) && tm.isdst == 0 ==> t' == t && tm' == tm
  {
    hide GuessTime, NormalYear, NormalYday, ClipSec, TimeIntAddOk;
    t', tm' := t, tm;
    var stride := 601200;
    var durationMax := 536454000;
    var deltaBound := durationMax / 2 + stride;
    var delta, otm := stride, tm;
    ghost var all := SurroundingsConvert(convert, t);
    n := 0;
    while delta < deltaBound
      invariant FixedOffset(convert, zone) && tm.isdst == 0 ==> otm.isdst == 0
      invariant 0 < delta <= deltaBound + stride && n % 2 == 0 && delta == stride * (n / 2 + 1)
      invariant all ==> forall m: nat :: m < n ==> !Suits(tp, convert, Candidate(t, m))
    {
      var direction := -1;
      while direction <= 1
        invariant direction in {-1, 1, 3} && (direction == 1) == (n % 2 == 1)
        invariant delta == stride * ((if direction == 3 then n / 2 - 1 else n / 2) + 1)
        invariant FixedOffset(convert, zone) && tm.isdst == 0 ==> otm.isdst == 0
        invariant all ==> forall m: nat :: m < n ==> !Suits(tp, convert, Candidate(t, m))
        decreases 1 - direction
      {
        assert n < CANDIDATES && t + delta * direction == Candidate(t, n);
        if TimeIntAddOk(wrapv, t, delta * direction) {
          var ot: Int64 := t + delta * direction;
          var r, calls;
          r, ot, calls := RangedConvert(convert, ot, zone.lo, zone.hi);
          if r.Some? { otm := r.value; }
          if !IsdstDiffer(tp.isdst, otm.isdst) {
            t' := GuessTime(wrapv, year, yday, tp.hour, tp.min, sec, ot, Some(otm));
            r, t', calls := RangedConvert(convert, t', zone.lo, zone.hi);
            if r.Some? { tm' := r.value; }
            return;
          }
        }
        direction := direction + 2;
        n := n + 1;
      }
      delta := delta + stride;
    }
    assert n == CANDIDATES;
  }

  // ----- The search itself -----

  /** The probe loop of `__mktime_internal`, from the first guess t0. `matched` is false when the probes run
      out; `gap` is set when the guesses oscillate between two times. `guesses` counts rounds of the loop and
      `probes` calls to `convert`. In any zone it follows the guesses to the first time that meets the request or at
      which a gap shows, if that is among the first six; in a zone with a fixed offset it takes two. */
  method Probe(wrapv: bool, tp: Tm, sec: Int32, convert: Convert, t0: Int64, ghost zone: Zone)
      returns (matched: bool, gap: bool, t: Int64, tm: Tm, guesses: nat, probes: nat, ghost path: seq<Int64>)
    requires sec == ClipSec(tp.sec)
    ensures IsPath(wrapv, tp, convert, t0, path) && guesses == |path| && t == path[guesses - 1]
    ensures convert(t).Some? ==> convert(t) == Some(tm)
    ensures matched && !gap ==> Meets(tp, convert, t)
    ensures matched && gap ==> guesses >= 2 && !Meets(tp, convert, t)
    ensures matched && gap && convert(t).Some? && convert(path[guesses - 2]).Some? ==>
              GapAt(tp, convert, path, guesses - 1)
    ensures !matched ==> guesses == 6 && !Meets(tp, convert, t) && !GapAt(tp, convert, path, 5)
    ensures FixedOffset(convert, zone) && InZone(zone, TmRequest(tp, sec) - zone.utcOffset) ==>
              && matched && !gap && t == TmRequest(tp, sec) - zone.utcOffset && convert(t) == Some(tm)
              && guesses <= 2 && (t == t0 ==> guesses == 1)
              && (InZone(zone, t0) ==> probes == guesses)
    ensures FixedOffset(convert, zone) && !InZone(zone, TmRequest(tp, sec) - zone.utcOffset) ==> !matched
  {
    hide YdhmsDiff, NormalYear, NormalYday, GuessTime, FixedOffset, TmRequest, ClipSec, Meets, IsPath;
    var remainingProbes := 6;
    var hour, min, isdst := tp.hour, tp.min, tp.isdst;
    var year, yday := NormalYear(tp), NormalYday(tp);
    ghost var fixed := FixedOffset(convert, zone);
    ghost var target := TmRequest(tp, sec) - zone.utcOffset;
    if fixed {
      ZoneConverts(convert, zone);
    }
    t := t0;
    var t1: Int64, t2: Int64, dst2: int := t0, t0, 0;
    tm := tp;
    var r, gt, calls;
    r, t, calls := RangedConvert(convert, t, zone.lo, zone.hi);
    guesses, probes, path := 1, calls, [t];
    if r.Some? { tm := r.value; }
    gt := GuessTime(wrapv, year, yday, hour, min, sec, t, r);
    PathStarts(wrapv, tp, convert, t0, t);
    GuessStays(wrapv, tp, convert, t);
    if fixed {
      GuessHitsTarget(wrapv, tp, convert, zone, t);
    }
    gap := false;
    while t != gt && !gap
      invariant remainingProbes == 7 - guesses > 0 && guesses >= 1
      invariant guesses == |path| && t == path[guesses - 1] && IsPath(wrapv, tp, convert, t0, path)
      invariant r == convert(t) && (r.Some? ==> r == Some(tm)) && gt == Guess(wrapv, tp, convert, t)
      invariant gt == t <==> Meets(tp, convert, t)
      invariant guesses == 1 ==> t1 == t2 == t0 && (convert(t0).Some? ==> t == t0)
      invariant guesses == 2 ==> t1 == t0 && (convert(t0).Some? ==> t2 == t0)
      invariant guesses >= 2 ==> t2 == path[guesses - 2]
      invariant guesses >= 2 && convert(t2).Some? ==> dst2 == if convert(t2).value.isdst != 0 then 1 else 0
      invariant guesses >= 3 ==> t1 == path[guesses - 3]
      invariant gap ==> guesses >= 2 && gt != t
      invariant gap && r.Some? && convert(t2).Some? ==> GapAt(tp, convert, path, guesses - 1)
      invariant fixed ==> r.Some? && gt == target && !gap && InZone(zone, t)
      invariant fixed && guesses == 1 ==> t == Clamp(t0, zone.lo, zone.hi)
      invariant fixed && guesses == 2 ==> t2 == Clamp(t0, zone.lo, zone.hi)
      invariant fixed && guesses >= 2 ==> t == Clamp(gt, zone.lo, zone.hi)
      invariant fixed && guesses >= 3 ==> t2 == t != gt
      invariant fixed && InZone(zone, target) && t0 == target ==> t == gt && guesses == 1
      invariant fixed && InZone(zone, target) && InZone(zone, t0) ==> probes == guesses
      decreases remainingProbes, !gap
    {
      if t == t1 && t != t2
         && (tm.isdst < 0
             || (if isdst < 0 then dst2 <= (if tm.isdst != 0 then 1 else 0)
                 else (isdst != 0) != (tm.isdst != 0)))
      {
        gap := true;
      } else {
        remainingProbes := remainingProbes - 1;
        if remainingProbes == 0 {
          matched := false;
          return;
        }
        t1, t2, t, dst2 := t2, t, gt, if tm.isdst != 0 then 1 else 0;
        r, t, calls := RangedConvert(convert, t, zone.lo, zone.hi);
        PathGoesOn(wrapv, tp, convert, t0, path, t);
        path := path + [t];
        guesses, probes := guesses + 1, probes + calls;
        if r.Some? { tm := r.value; }
        gt := GuessTime(wrapv, year, yday, hour, min, sec, t, r);
        GuessStays(wrapv, tp, convert, t);
        if fixed {
          GuessHitsTarget(wrapv, tp, convert, zone, t);
        }
      }
    }
    matched := true;
  }

  /** The time with the seconds put back that were clipped off; behind a leap second, one more. */
  function WithSeconds(tp: Tm, t: Int64, tm: Tm): int {
    t + tp.sec + (if ClipSec(tp.sec) == 0 && tm.sec == 60 then 1 else 0) - ClipSec(tp.sec)
  }

  /** What the end of `__mktime_internal` makes of the time found: None if the seconds cannot be put back. */
  ghost predicate Restored(tp: Tm, convert: Convert, t: Int64, tm: Tm, r: Option<(Int64, Tm)>) {
    var t2 := WithSeconds(tp, t, tm);
    if tp.sec == tm.sec then r == Some((t, tm))
    else if InTimeT(t + tp.sec) && InTimeT(t2) && convert(t2).Some? then r == Some((t2, convert(t2).value))
    else r == None
  }

  /** The end of `__mktime_internal`: put back the seconds that were clipped off. The outcome None stands for -1. */
  method RestoreSeconds(wrapv: bool, tp: Tm, sec: Int32, convert: Convert, t: Int64, tm: Tm)
      returns (r: Option<(Int64, Tm)>)
    requires sec == ClipSec(tp.sec)
    ensures Restored(tp, convert, t, tm, r)
  {
    hide TimeIntAddOk, Wrap32, ClipSec;
    if tp.sec == tm.sec {
      return Some((t, tm));
    }
    Wrap32Fits((if sec == 0 && tm.sec == 60 then 1 else 0) - sec);
    var secAdjustment := Wrap32((if sec == 0 && tm.sec == 60 then 1 else 0) - sec);
    if !TimeIntAddOk(wrapv, t, tp.sec) {
      return None;
    }
    var t1: Int64 := t + tp.sec;
    if !TimeIntAddOk(wrapv, t1, secAdjustment) {
      return None;
    }
    var t2: Int64 := t1 + secAdjustment;
    match convert(t2)
    case None => r := None;
    case Some(tm') => r := Some((t2, tm'));
  }

  /** If the seconds requested are ordinary, and those of a time that meets the request, they are the same. */
  lemma OrdinarySeconds(tp: Tm, convert: Convert, t: Int64)
    requires Meets(tp, convert, t) && 0 <= tp.sec < 60 && 0 <= convert(t).value.sec < 60
    ensures convert(t).value.sec == tp.sec && TmTime(convert(t).value) == TmRequest(tp, tp.sec)
  {
    hide LinearTime, RequestedTime;
    var tm := convert(t).value;
    SecondsOfLinear(tm.year, tm.yday, tm.hour, tm.min, tm.sec);
    SecondsOfRequested(tp.year, tp.mon, tp.mday, tp.hour, tp.min, tp.sec);
  }

  lemma DayNumberIncreases(lo: int, hi: int)
    requires lo < hi
    ensures DayNumber(lo) + YearLength(lo) <= DayNumber(hi)
    decreases hi - lo
  {
    DayNumberStep(hi - 1);
    if lo < hi - 1 {
      DayNumberIncreases(lo, hi - 1);
    }
  }

  lemma MonthStartIncreases(lo: int, hi: int)
    requires lo < hi
    ensures MonthStart(lo) + MonthLength(lo) <= MonthStart(hi)
    decreases hi - lo
  {
    MonthStep(hi - 1);
    if lo < hi - 1 {
      MonthStartIncreases(lo, hi - 1);
    }
  }

  /** Two broken-down times in the usual ranges that name the same time have the same fields. */
  lemma SameTimeSameFields(a: Tm, b: Tm)
    requires Normal(a) && Normal(b) && TmTime(a) == TmTime(b)
    ensures a.sec == b.sec && a.min == b.min && a.hour == b.hour
    ensures a.mday == b.mday && a.mon == b.mon && a.year == b.year && a.yday == b.yday
  {
    hide DayNumber, MonthStart, MonthLength, YearLength;
    var da, db := DayNumber(a.year) + a.yday, DayNumber(b.year) + b.yday;
    SameDayAndSecond(da, 3600 * a.hour + 60 * a.min + a.sec, db, 3600 * b.hour + 60 * b.min + b.sec);
    SameYear(a.year, a.yday, b.year, b.yday);
    SameMonth(12 * a.year + a.mon, a.mday, 12 * b.year + b.mon, b.mday);
  }

  lemma SameYear(y: int, d: int, y': int, d': int)
    requires 0 <= d < YearLength(y) && 0 <= d' < YearLength(y') && DayNumber(y) + d == DayNumber(y') + d'
    ensures y == y' && d == d'
  {
    hide DayNumber, YearLength;
    if y < y' {
      DayNumberIncreases(y, y');
    } else if y' < y {
      DayNumberIncreases(y', y);
    }
  }

  lemma SameMonth(m: int, d: int, m': int, d': int)
    requires 1 <= d <= MonthLength(m) && 1 <= d' <= MonthLength(m') && MonthStart(m) + d == MonthStart(m') + d'
    ensures m == m' && d == d'
  {
    hide MonthStart, MonthLength;
    if m < m' {
      MonthStartIncreases(m, m');
    } else if m' < m {
      MonthStartIncreases(m', m);
    }
  }

  lemma SameDayAndSecond(d: int, s: int, d': int, s': int)
    requires 0 <= s < 86400 && 0 <= s' < 86400 && 86400 * d + s == 86400 * d' + s'
    ensures d == d' && s == s'
  {
  }

  /** So a request in the usual ranges, when it is met, is met field by field. */
  lemma MetExactly(tp: Tm, convert: Convert, t: Int64)
    requires Meets(tp, convert, t) && Normal(tp) && Normal(convert(t).value)
    ensures var tm := convert(t).value;
            tm.sec == tp.sec && tm.min == tp.min && tm.hour == tp.hour && tm.mday == tp.mday && tm.mon == tp.mon
            && tm.year == tp.year
  {
    hide DayNumber, MonthStart, MonthLength, YearLength;
    OrdinarySeconds(tp, convert, t);
    SameTimeSameFields(tp, convert(t).value);
  }

  /** How the time was found, before its seconds were put back. */
  datatype Search = Matched | Oscillated | Nearby | ProbesRunOut

  /** What the search found in this way, at time t with fields tm. */
  ghost predicate Found(how: Search, wrapv: bool, tp: Tm, convert: Convert, t0: Int64,
                        path: seq<Int64>, t: Int64, tm: Tm) {
    && IsPath(wrapv, tp, convert, t0, path)
    && var last := path[|path| - 1];
       match how {
         case Matched =>
           t == last && Meets(tp, convert, t) && convert(t) == Some(tm) && !IsdstDiffer(tp.isdst, tm.isdst)
         case Nearby =>
           && Meets(tp, convert, last) && IsdstDiffer(tp.isdst, convert(last).value.isdst)
           && (SurroundingsConvert(convert, last) ==>
                 exists n: nat :: FoundNearby(wrapv, tp, convert, last, convert(last).value, n, t, tm))
         case Oscillated =>
           && t == last && !Meets(tp, convert, t) && |path| >= 2 && (convert(t).Some? ==> convert(t) == Some(tm))
           && (convert(t).Some? && convert(path[|path| - 2]).Some? ==> GapAt(tp, convert, path, |path| - 1))
         case ProbesRunOut =>
           |path| == 6 && t == last && !Meets(tp, convert, t) && !GapAt(tp, convert, path, 5)
       }
  }

  /** `__mktime_internal`. In any zone: how the time t with fields tm was found, and what becomes of it; and if it was
      matched, and all seconds are ordinary, the fields of the result are those requested. In a zone with a fixed
      offset: the requested time itself. */
  method MktimeInternal(wrapv: bool, tp: Tm, convert: Convert, offset: Int64, ghost zone: Zone)
      returns (result: Int64, tp': Tm, offset': Int64, guesses: nat, probes: nat,
               ghost how: Search, ghost path: seq<Int64>, ghost t: Int64, ghost tm: Tm)
    ensures FirstProbe(tp, offset) == Wrap64(FirstProbe(tp, offset))
    ensures Found(how, wrapv, tp, convert, FirstProbe(tp, offset), path, t, tm) && guesses == |path|
    ensures how.ProbesRunOut? ==> result == -1 && tp' == tp && offset' == offset
    ensures !how.ProbesRunOut? ==>
              && offset' == Wrap64(offset + t - FirstProbe(tp, offset))
              && (Restored(tp, convert, t, tm, Some((result, tp')))
                  || (Restored(tp, convert, t, tm, None) && result == -1 && tp' == tp))
    ensures how.Matched? && 0 <= tp.sec < 60 && 0 <= tm.sec < 60 ==>
              result == t && convert(result) == Some(tp') && TmTime(tp') == TmRequest(tp, tp.sec)
    ensures FixedOffset(convert, zone) && Feasible(tp, zone) ==>
              && result == TmRequest(tp, tp.sec) - zone.utcOffset
              && Some(tp') == convert(result)
              && OffsetRight(offset', zone)
              && guesses <= 2
              && (OffsetRight(offset, zone) ==> guesses == probes == 1)
              && (InZone(zone, FirstProbe(tp, offset)) ==> probes <= 2)
    ensures FixedOffset(convert, zone) && !Feasible(tp, zone) ==> result == -1 && tp' == tp
  {
    hide YdhmsDiff, NormalYear, NormalYday, FixedOffset, Feasible, TmRequest, ClipSec, Wrap32, Wrap64, TmTime;
    hide CANDIDATES;
    hide Meets, IsPath, GapAt, FoundNearby, SurroundingsConvert;
    tp', offset' := tp, offset;
    var sec := ClipSec(tp.sec);
    var t0 := YdhmsDiff(NormalYear(tp), NormalYday(tp), tp.hour, tp.min, sec, 70, 0, 0, 0, Wrap32(-(offset as int)));

    ghost var fixed := FixedOffset(convert, zone);
    FirstGuess(tp, offset);
    Wrap64Fits(t0);
    FeasibleInZone(tp, zone);
    if fixed {
      ZoneConverts(convert, zone);
    }

    var matched, gap, found, fields;
    matched, gap, found, fields, guesses, probes, path := Probe(wrapv, tp, sec, convert, t0, zone);
    t, tm := found, fields;
    if !matched {
      how := ProbesRunOut;
      return -1, tp', offset', guesses, probes, how, path, t, tm;
    }
    how := if gap then Oscillated else Matched;
    if !gap {
      MeetsConverts(tp, convert, found);
    }
    if !gap && IsdstDiffer(tp.isdst, fields.isdst) {
      ghost var n;
      found, fields, n := FindDst(wrapv, tp, NormalYear(tp), NormalYday(tp), sec, convert, found, fields, zone);
      t, tm, how := found, fields, Nearby;
    }

    offset' := Wrap64(offset + found - t0);
    if fixed {
      OffsetLearned(tp, zone, offset, t, t0);
      ClipKeepsMinute(tp, convert, zone, t);
    }
    if how.Matched? && 0 <= tp.sec < 60 && 0 <= tm.sec < 60 {
      OrdinarySeconds(tp, convert, t);
    }
    var restored := RestoreSeconds(wrapv, tp, sec, convert, found, fields);
    match restored
    case None => result := -1;
    case Some(pair) => result, tp' := pair.0, pair.1;
  }

  lemma Wrap64Fits(x: Int64)
    ensures Wrap64(x) == x
  {
  }

  lemma MeetsConverts(tp: Tm, convert: Convert, t: Int64)
    requires Meets(tp, convert, t)
    ensures convert(t).Some?
  {
  }

  /** Two calls in a row: the second one is on target at once, whatever offset the first one started from. */
  method MktimeTwice(wrapv: bool, first: Tm, second: Tm, convert: Convert, offset: Int64, ghost zone: Zone)
      returns (t1: Int64, t2: Int64, probes2: nat)
    ensures FixedOffset(convert, zone) && Feasible(first, zone) && Feasible(second, zone) ==>
              && t1 == TmRequest(first, first.sec) - zone.utcOffset
              && t2 == TmRequest(second, second.sec) - zone.utcOffset
              && probes2 == 1
  {
    hide FixedOffset, Feasible, TmRequest, OffsetRight, Found, Restored;
    var tm, offset', guesses, probes;
    ghost var how, path, t, fields;
    t1, tm, offset', guesses, probes, how, path, t, fields := MktimeInternal(wrapv, first, convert, offset, zone);
    t2, tm, offset', guesses, probes2, how, path, t, fields := MktimeInternal(wrapv, second, convert, offset', zone);
  }

  /** Broken-down times that the zone itself produces can always be converted back, and name the time they came from. */
  lemma ConvertedIsFeasible(convert: Convert, zone: Zone, t: Int64)
    requires FixedOffset(convert, zone) && InZone(zone, t)
    ensures Feasible(convert(t).value, zone)
    ensures TmRequest(convert(t).value, convert(t).value.sec) - zone.utcOffset == t
  {
    var tm := convert(t).value;
    assert Normal(tm) && TmTime(tm) == t + zone.utcOffset;
  }

  /** mktime inverts localtime: the time comes back, and so do its fields. */
  method MktimeOfLocaltime(wrapv: bool, t: Int64, convert: Convert, offset: Int64, ghost zone: Zone)
      returns (t': Int64, tm: Tm)
    requires convert(t).Some?
    ensures FixedOffset(convert, zone) ==> t' == t && Some(tm) == convert(t)
  {
    hide Feasible, TmRequest, OffsetRight, Found, Restored;
    ghost var good := FixedOffset(convert, zone);
    if good {
      ConvertedIsFeasible(convert, zone, t);
    }
    var offset', guesses, probes;
    ghost var how, path, found, fields;
    t', tm, offset', guesses, probes, how, path, found, fields :=
      MktimeInternal(wrapv, convert(t).value, convert, offset, zone);
  }

  // ----- Such zones exist -----

  /** The month that day d (counted from the start of 1970) falls in, searching from month k. */
  function MonthOfDay(d: int, k: int): (m: int)
    ensures MonthStart(m) <= d < MonthStart(m + 1)
    decreases if d < MonthStart(k) then MonthStart(k) - d else if d >= MonthStart(k + 1) then d - MonthStart(k) else 0
  {
    if d < MonthStart(k) then MonthStep(k - 1); MonthOfDay(d, k - 1)
    else if d >= MonthStart(k + 1) then MonthStep(k); MonthStep(k + 1); MonthOfDay(d, k + 1)
    else k
  }

  lemma {:induction false} MonthStartBound(k: int)
    ensures k >= 840 ==> 28 * (k - 840) <= MonthStart(k) <= 31 * (k - 840)
    ensures k <= 840 ==> 31 * (k - 840) <= MonthStart(k) <= 28 * (k - 840)
    decreases if k >= 840 then k - 840 else 840 - k
  {
    if k > 840 {
      MonthStartBound(k - 1);
    } else if k < 840 {
      MonthStartBound(k + 1);
    }
  }

  /** The proleptic Gregorian calendar, with a constant offset from UTC. */
  function CalendarTime(t: int, utcOffset: Int32): Tm
    requires -0x40_0000_0000_0000 <= t <= 0x40_0000_0000_0000
  {
    var local := t + utcOffset;
    var d, s := local / 86400, local % 86400;
    var k := MonthOfDay(d, 840);
    MonthStartBound(k);
    MonthStartBound(k + 1);
    MonthStep(k);
    DayOfYearBound(k, d);
    Tm(s % 60, s / 60 % 60, s / 3600, d - MonthStart(k) + 1, k % 12, k / 12, (d + 4) % 7, d - DayNumber(k / 12), 0)
  }

  lemma DayOfYearBound(k: int, d: int)
    requires MonthStart(k) <= d < MonthStart(k + 1)
    ensures 0 <= d - DayNumber(k / 12) < YearLength(k / 12)
  {
    var year, m := k / 12, k % 12;
    assert k == 12 * year + m;
    MonthTableCorrect(year, m);
    MonthYdayStep(year, m);
    MonthYdayStep(year, 0);
    MonthStep(k);
    DayNumberStep(year);
  }

  lemma CalendarTimeCorrect(t: int, utcOffset: Int32)
    requires -0x40_0000_0000_0000 <= t <= 0x40_0000_0000_0000
    ensures Normal(CalendarTime(t, utcOffset)) && TmTime(CalendarTime(t, utcOffset)) == t + utcOffset
  {
    var local := t + utcOffset;
    var d, s := local / 86400, local % 86400;
    var k := MonthOfDay(d, 840);
    MonthStep(k);
    DayOfYearBound(k, d);
    SecondsSplit(s);
  }

  lemma SecondsSplit(s: int)
    requires 0 <= s < 86400
    ensures s == 3600 * (s / 3600) + 60 * (s / 60 % 60) + s % 60 && s / 3600 < 24
  {
  }

  /** A conversion that the results above apply to, for any offset and range. */
  lemma CalendarZone(zone: Zone, convert: Convert)
    requires -0x40_0000_0000_0000 <= zone.lo < 0 < zone.hi <= 0x40_0000_0000_0000
    requires forall t: Int64 ::
               convert(t) == if zone.lo <= t <= zone.hi then Some(CalendarTime(t, zone.utcOffset)) else None
    ensures FixedOffset(convert, zone)
  {
    hide CalendarTime, Normal, TmTime;
    forall t: Int64 | zone.lo <= t <= zone.hi
      ensures var tm := convert(t).value; tm.isdst == 0 && Normal(tm) && TmTime(tm) == t + zone.utcOffset
    {
      CalendarTimeCorrect(t, zone.utcOffset);
      CalendarTimeIsdst(t, zone.utcOffset);
    }
  }

  lemma CalendarTimeIsdst(t: int, utcOffset: Int32)
    requires -0x40_0000_0000_0000 <= t <= 0x40_0000_0000_0000
    ensures CalendarTime(t, utcOffset).isdst == 0
  {
  }
}
