/** The timetable logic of the `MRTTimetable` page class: `HH:MM` to
    minutes, the non-negative difference between two times, the selection
    of the next trains (today's later departures, padded with tomorrow's
    first ones), the status label of each listed train, the weekday display
    and the first/last train of each direction.
    JavaScript's `Number` is modelled on the texts a timetable holds: a run
    of decimal digits (the empty text is 0); any other text is NaN, which is
    `None` here, and NaN compares false with everything. */
module Timetable {
  import opened Common

  // ---------------------------------------------------------------------
  // Times

  predicate IsDigit(c: char) { '0' <= c <= '9' }

  predicate AllDigits(s: string) {
    forall k | 0 <= k < |s| :: IsDigit(s[k])
  }

  /** The decimal value of a digit string. */
  function DigitsValue(s: string): nat
    requires AllDigits(s)
  {
    if |s| == 0 then 0
    else DigitsValue(s[..|s| - 1]) * 10 + (s[|s| - 1] as int - '0' as int)
  }

  /** `Number(text)`. */
  function ToNumber(s: string): (n: Option<int>)
    ensures n.Some? <==> AllDigits(s)
    ensures n.Some? ==> n.value >= 0
  {
    if AllDigits(s) then Some(DigitsValue(s)) else None
  }

  /** `s.split(sep)`: the pieces between separators, at least one. */
  function Split(s: string, sep: char): (parts: seq<string>)
    ensures |parts| >= 1
    decreases |s|
  {
    if |s| == 0 then [""]
    else if s[0] == sep then [""] + Split(s[1..], sep)
    else
      var rest := Split(s[1..], sep);
      [[s[0]] + rest[0]] + rest[1..]
  }

  lemma {:induction false} SplitWithoutSeparator(s: string, sep: char)
    requires sep !in s
    ensures Split(s, sep) == [s]
    decreases |s|
  {
    if |s| > 0 {
      assert sep !in s[1..];
      SplitWithoutSeparator(s[1..], sep);
      assert [s[0]] + s[1..] == s;
    }
  }

  lemma {:induction false} SplitAtFirstSeparator(a: string, sep: char, b: string)
    requires sep !in a
    ensures Split(a + [sep] + b, sep) == [a] + Split(b, sep)
    decreases |a|
  {
    var s := a + [sep] + b;
    if |a| == 0 {
      assert s == [sep] + b;
      assert s[1..] == b;
    } else {
      assert s[1..] == a[1..] + [sep] + b;
      assert sep !in a[1..];
      SplitAtFirstSeparator(a[1..], sep, b);
      assert [a[0]] + a[1..] == a;
    }
  }

  /** `timeToMinutes`: `const [hours, minutes] = t.split(':').map(Number)`,
      then `hours * 60 + minutes`; a missing minutes part is NaN. */
  function TimeToMinutes(t: string): (m: Option<int>)
    ensures m.Some? ==> m.value >= 0
  {
    ClockMinutes(Split(t, ':'))
  }

  /** Hours and minutes of the split text; a missing part is NaN. */
  function ClockMinutes(parts: seq<string>): (m: Option<int>)
    requires |parts| >= 1
    ensures m.Some? ==> m.value >= 0
  {
    var hours := ToNumber(parts[0]);
    var minutes := if |parts| > 1 then ToNumber(parts[1]) else None;
    if hours.Some? && minutes.Some? then Some(hours.value * 60 + minutes.value) else None
  }

  /** `"H:M"` with digit strings `H` and `M` is `H * 60 + M` minutes. */
  lemma DigitsHaveNoColon(s: string)
    requires AllDigits(s)
    ensures ':' !in s
  {
  }

  /** The minutes of a split `"H:M"`. */
  lemma {:induction false} SplitClock(hours: string, minutes: string)
    requires AllDigits(hours) && AllDigits(minutes)
    ensures Split(hours + ":" + minutes, ':') == [hours, minutes]
  {
    DigitsHaveNoColon(hours);
    DigitsHaveNoColon(minutes);
    assert hours + ":" + minutes == hours + [':'] + minutes;
    SplitAtFirstSeparator(hours, ':', minutes);
    SplitWithoutSeparator(minutes, ':');
  }

  lemma ClockMinutesOfDigits(hours: string, minutes: string)
    requires AllDigits(hours) && AllDigits(minutes)
    ensures ClockMinutes([hours, minutes]) == Some(DigitsValue(hours) * 60 + DigitsValue(minutes))
  {
  }

  lemma TimeToMinutesOfClock(hours: string, minutes: string)
    requires AllDigits(hours) && AllDigits(minutes)
    ensures TimeToMinutes(hours + ":" + minutes) == Some(DigitsValue(hours) * 60 + DigitsValue(minutes))
  {
    SplitClock(hours, minutes);
    ClockMinutesOfDigits(hours, minutes);
  }

  /** Minutes from `current` to `train`, never negative (`Math.max(0, d)`);
      NaN when either time is not a clock time. */
  function GetTimeDifference(currentTime: string, trainTime: string): (d: Option<int>)
    ensures d.Some? <==> TimeToMinutes(currentTime).Some? && TimeToMinutes(trainTime).Some?
    ensures d.Some? ==> d.value >= 0
    ensures d.Some? && TimeToMinutes(trainTime).value >= TimeToMinutes(currentTime).value ==>
      d.value == TimeToMinutes(trainTime).value - TimeToMinutes(currentTime).value
    ensures d.Some? && TimeToMinutes(trainTime).value < TimeToMinutes(currentTime).value ==> d.value == 0
  {
    var current := TimeToMinutes(currentTime);
    var train := TimeToMinutes(trainTime);
    if current.Some? && train.Some? then Some(Max(0, train.value - current.value)) else None
  }

  // ---------------------------------------------------------------------
  // Next trains

  /** `trainTime >= current`, false when either side is NaN. */
  predicate NotEarlier(time: string, current: Option<int>) {
    TimeToMinutes(time).Some? && current.Some? && TimeToMinutes(time).value >= current.value
  }

  /** Reference: the departures of `times` not earlier than `current`, in
      timetable order. */
  function Later(times: seq<string>, current: Option<int>): (r: seq<string>)
    ensures |r| <= |times|
    ensures forall k | 0 <= k < |r| :: NotEarlier(r[k], current)
  {
    if |times| == 0 then []
    else
      var init := Later(times[..|times| - 1], current);
      var last := times[|times| - 1];
      init + (if NotEarlier(last, current) then [last] else [])
  }

  lemma {:induction false} LaterOfPrefix(times: seq<string>, i: nat, current: Option<int>)
    requires i <= |times|
    ensures |Later(times[..i], current)| <= |Later(times, current)|
    ensures Later(times[..i], current) == Later(times, current)[..|Later(times[..i], current)|]
    decreases |times| - i
  {
    if i < |times| {
      LaterOfPrefix(times[..|times| - 1], i, current);
      assert times[..|times| - 1][..i] == times[..i];
    } else {
      assert times[..i] == times;
    }
  }

  /** How many of today's departures are listed: `count`, but at least one,
      because a departure is pushed before the length is compared. */
  function TodayLimit(count: int): nat {
    Max(count, 1)
  }

  const NextDaySuffix := " (next day)"

  /** Tomorrow's entries: the given departures, each marked `(next day)`. */
  function NextDay(times: seq<string>): (r: seq<string>)
    ensures |r| == |times|
    ensures forall k | 0 <= k < |r| :: r[k] == times[k] + NextDaySuffix
  {
    if |times| == 0 then [] else [times[0] + NextDaySuffix] + NextDay(times[1..])
  }

  /** Reference definition of `getNextTrains`. */
  function NextTrains(times: seq<string>, currentTime: string, count: int): seq<string> {
    var today := Take(Later(times, TimeToMinutes(currentTime)), TodayLimit(count));
    if |today| < count then today + NextDay(Take(times, count - |today|)) else today
  }

  lemma LaterSnoc(times: seq<string>, i: nat, current: Option<int>)
    requires i < |times|
    ensures Later(times[..i + 1], current) ==
      Later(times[..i], current) + (if NotEarlier(times[i], current) then [times[i]] else [])
  {
    assert times[..i + 1][..i] == times[..i];
  }

  /** Once the list reaches the limit it holds the first `TodayLimit`
      later departures. */
  lemma StopAtLimit(times: seq<string>, i: nat, current: Option<int>, count: int)
    requires i <= |times|
    requires |Later(times[..i], current)| == TodayLimit(count)
    ensures Later(times[..i], current) == Take(Later(times, current), TodayLimit(count))
  {
    LaterOfPrefix(times, i, current);
  }

  /** The scan over today's departures: stops as soon as `count` have been
      collected, having always collected at least one when it stops. */
  method TodayTrains(times: seq<string>, current: Option<int>, count: int) returns (today: seq<string>)
    ensures today == Take(Later(times, current), TodayLimit(count))
  {
    today := [];
    var i := 0;
    while i < |times|
      invariant 0 <= i <= |times|
      invariant today == Later(times[..i], current)
      invariant |today| < TodayLimit(count)
    {
      LaterSnoc(times, i, current);
      if NotEarlier(times[i], current) {
        today := today + [times[i]];
        if |today| >= count {
          assert |today| == TodayLimit(count);
          StopAtLimit(times, i + 1, current, count);
          return;
        }
      }
      i := i + 1;
    }
    assert times[..i] == times;
    assert Take(today, TodayLimit(count)) == today;
  }

  lemma NextDaySnoc(times: seq<string>, j: nat)
    requires j < |times|
    ensures NextDay(times[..j + 1]) == NextDay(times[..j]) + [times[j] + NextDaySuffix]
  {
    assert times[..j + 1] == times[..j] + [times[j]];
  }

  /** `getNextTrains`: today's departures not earlier than `currentTime`,
      stopping once `count` are found, then — when fewer were found — the
      first `count - found` departures of the timetable marked `(next day)`. */
  method GetNextTrains(times: seq<string>, currentTime: string, count: int) returns (next: seq<string>)
    ensures next == NextTrains(times, currentTime, count)
  {
    var today := TodayTrains(times, TimeToMinutes(currentTime), count);
    next := today;
    if |next| < count {
      var remaining := count - |next|;
      var j := 0;
      while j < remaining && j < |times|
        invariant 0 <= j <= |times|
        invariant j <= remaining
        invariant next == today + NextDay(times[..j])
      {
        NextDaySnoc(times, j);
        next := next + [times[j] + NextDaySuffix];
        j := j + 1;
      }
      assert times[..j] == Take(times, remaining);
    }
  }

  /** The shape of the list: today's later departures in timetable order,
      then next-day entries taken from the start of the timetable; at most
      `count` entries for a positive `count`, exactly `count` when the
      timetable has that many departures. */
  lemma NextTrainsShape(times: seq<string>, currentTime: string, count: int)
    ensures var r := NextTrains(times, currentTime, count);
            var found := |Take(Later(times, TimeToMinutes(currentTime)), TodayLimit(count))|;
      && found <= |r|
      && (forall k | 0 <= k < found :: NotEarlier(r[k], TimeToMinutes(currentTime)))
      && (forall k | found <= k < |r| :: r[k] == times[k - found] + NextDaySuffix)
      && (count >= 1 ==> |r| <= count)
      && (count >= 1 && |times| >= count ==> |r| == count)
      && (count <= 0 ==> |r| <= 1)
  {
  }

  /** Before the first departure, the first train listed is the first
      train of the day. */
  lemma FirstListedBeforeService(times: seq<string>, currentTime: string, count: int)
    requires |times| > 0 && count >= 1
    requires NotEarlier(times[0], TimeToMinutes(currentTime))
    ensures NextTrains(times, currentTime, count)[0] == times[0]
  {
    var current := TimeToMinutes(currentTime);
    var l := Later(times, current);
    LaterOfPrefix(times, 1, current);
    assert times[..1][..0] == [];
    assert Later(times[..1], current) == [times[0]];
    assert l[0] == times[0];
    var today := Take(l, TodayLimit(count));
    assert today[0] == times[0];
  }

  /** After the last departure, only tomorrow's first trains are listed. */
  lemma AfterServiceOnlyNextDay(times: seq<string>, currentTime: string, count: int)
    requires count >= 1
    requires forall k | 0 <= k < |times| :: !NotEarlier(times[k], TimeToMinutes(currentTime))
    ensures NextTrains(times, currentTime, count) == NextDay(Take(times, count))
  {
    NothingLater(times, TimeToMinutes(currentTime));
    assert Take(Later(times, TimeToMinutes(currentTime)), TodayLimit(count)) == [];
  }

  lemma {:induction false} NothingLater(times: seq<string>, current: Option<int>)
    requires forall k | 0 <= k < |times| :: !NotEarlier(times[k], current)
    ensures Later(times, current) == []
    decreases |times|
  {
    if |times| > 0 {
      NothingLater(times[..|times| - 1], current);
    }
  }

  // ---------------------------------------------------------------------
  // Status labels

  /** The status shown beside a listed train. */
  datatype TrainStatus = NextTrain | InMinutes(minutes: Option<int>)

  /** The status as the page computes it: the first entry is the next
      train, every other entry shows `getTimeDifference` of the entry text. */
  function StatusAsWritten(index: nat, currentTime: string, entry: string): TrainStatus {
    if index == 0 then NextTrain else InMinutes(GetTimeDifference(currentTime, entry))
  }

  /** A next-day entry's minutes part is `MM (next day)`, which `Number`
      reads as NaN: the page shows "in NaN min" for it. */
  lemma NextDayEntryShowsNaN(currentTime: string, hours: string, minutes: string, index: nat)
    requires AllDigits(hours) && AllDigits(minutes) && index > 0
    ensures StatusAsWritten(index, currentTime, hours + ":" + minutes + NextDaySuffix) == InMinutes(None)
  {
    var tail := minutes + NextDaySuffix;
    assert hours + ":" + minutes + NextDaySuffix == hours + [':'] + tail;
    DigitsHaveNoColon(hours);
    SplitAtFirstSeparator(hours, ':', tail);
    assert ':' !in tail by {
      DigitsHaveNoColon(minutes);
      assert ':' !in NextDaySuffix;
    }
    SplitWithoutSeparator(tail, ':');
    assert !IsDigit(tail[|minutes|]);
  }

  /** Minutes until a listed entry: a next-day entry is the departure
      tomorrow, 24 hours after the same clock time today. */
  function MinutesUntil(currentTime: string, entry: string): (d: Option<int>)
    ensures d.Some? ==> d.value >= 0
  {
    var n := |NextDaySuffix|;
    if |entry| >= n && entry[|entry| - n..] == NextDaySuffix then
      var train := TimeToMinutes(entry[..|entry| - n]);
      var current := TimeToMinutes(currentTime);
      if train.Some? && current.Some? then Some(Max(0, train.value + 24 * 60 - current.value)) else None
    else GetTimeDifference(currentTime, entry)
  }

  /** The status with next-day entries measured to tomorrow's departure. */
  function StatusLabel(index: nat, currentTime: string, entry: string): TrainStatus {
    if index == 0 then NextTrain else InMinutes(MinutesUntil(currentTime, entry))
  }

  /** The correction changes nothing for an entry of today. */
  lemma StatusOfTodayEntry(index: nat, currentTime: string, entry: string)
    requires !(|entry| >= |NextDaySuffix| && entry[|entry| - |NextDaySuffix|..] == NextDaySuffix)
    ensures StatusLabel(index, currentTime, entry) == StatusAsWritten(index, currentTime, entry)
  {
  }

  /** With the correction a next-day entry shows the minutes until that
      departure tomorrow. */
  lemma StatusOfNextDayEntry(currentTime: string, time: string, index: nat)
    requires index > 0
    requires TimeToMinutes(time).Some? && TimeToMinutes(currentTime).Some?
    requires TimeToMinutes(currentTime).value < 24 * 60
    ensures StatusLabel(index, currentTime, time + NextDaySuffix) ==
      InMinutes(Some(TimeToMinutes(time).value + 24 * 60 - TimeToMinutes(currentTime).value))
  {
    var entry := time + NextDaySuffix;
    assert entry[|entry| - |NextDaySuffix|..] == NextDaySuffix;
    assert entry[..|entry| - |NextDaySuffix|] == time;
  }

  // ---------------------------------------------------------------------
  // Day display and first/last trains

  const DaysOfWeek := ["Sunday", "Monday", "Tuesday", "Wednesday", "Thursday", "Friday", "Saturday"]

  /** `updateDayDisplay`: the weekday's name and whether the holiday style
      is on; Friday is the weekly holiday. `day` is `Date.getDay()`. */
  function DayDisplay(day: int): (r: (string, bool))
    requires 0 <= day < 7
    ensures r.0 == DaysOfWeek[day]
    ensures r.1 <==> day == 5
    ensures r.1 <==> r.0 == "Friday"
  {
    (DaysOfWeek[day], day == 5)
  }

  /** A station's timetable: for each direction, its departures in order. */
  type StationData = seq<(string, seq<string>)>

  /** What the first/last train buttons show. */
  datatype Selection =
    | NoStationSelected
    | NoTimetable
    | PerDirection(trains: seq<(string, Option<string>)>)

  /** `times[0]`, `undefined` for an empty list. */
  function FirstOf(times: seq<string>): Option<string> {
    if |times| > 0 then Some(times[0]) else None
  }

  /** `times[times.length - 1]`, `undefined` for an empty list. */
  function LastOf(times: seq<string>): Option<string> {
    if |times| > 0 then Some(times[|times| - 1]) else None
  }

  function PickEach(data: StationData, last: bool): (r: seq<(string, Option<string>)>)
    ensures |r| == |data|
    ensures forall k | 0 <= k < |r| ::
      r[k] == (data[k].0, if last then LastOf(data[k].1) else FirstOf(data[k].1))
  {
    if |data| == 0 then []
    else [(data[0].0, if last then LastOf(data[0].1) else FirstOf(data[0].1))] + PickEach(data[1..], last)
  }

  /** `showFirstTrain` (`last` false) and `showLastTrain` (`last` true): an
      alert when no station is selected or it has no timetable, otherwise
      one entry per direction. */
  function ShowTerminalTrains(station: string, timetable: map<string, StationData>, last: bool): (s: Selection)
    ensures station == "" <==> s == NoStationSelected
    ensures s == NoTimetable <==> station != "" && station !in timetable
    ensures s.PerDirection? ==>
      && |s.trains| == |timetable[station]|
      && forall k | 0 <= k < |s.trains| ::
        && s.trains[k].0 == timetable[station][k].0
        && (|timetable[station][k].1| > 0 <==> s.trains[k].1.Some?)
        && (s.trains[k].1.Some? ==>
              s.trains[k].1.value == if last then timetable[station][k].1[|timetable[station][k].1| - 1] else timetable[station][k].1[0])
  {
    if station == "" then NoStationSelected
    else if station !in timetable then NoTimetable
    else PerDirection(PickEach(timetable[station], last))
  }
}
