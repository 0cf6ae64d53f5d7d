/**
 * Dates as day numbers, and the date computations of the pages: the two
 * rules that name the weekly backup tab (`calculate_backup_sheet_name`) and
 * the dashboard's default Monday-to-Sunday period.
 *
 * "Today" is a parameter. A day number counts days from 1970-01-01 (day 0,
 * a Thursday); weekdays are numbered as Python's `date.weekday()` does,
 * Monday = 0 ... Sunday = 6.
 */
module Calendar {
  import opened Text

  const MONDAY := 0
  const TUESDAY := 1
  const WEDNESDAY := 2
  const THURSDAY := 3
  const FRIDAY := 4
  const SATURDAY := 5
  const SUNDAY := 6

  /** `date.weekday()` */
  function Weekday(day: int): (w: int)
    ensures 0 <= w < 7
  {
    (day + 3) % 7
  }

  /** Going back `k` days moves the weekday back by `k`, modulo 7. */
  lemma WeekdayBack(day: int, k: int)
    ensures Weekday(day - k) == (Weekday(day) - k) % 7
  {
    var q := (day + 3) / 7;
    assert day - k + 3 == 7 * q + (Weekday(day) - k);
    ModShift(Weekday(day) - k, q);
  }

  lemma ModShift(x: int, q: int)
    ensures (7 * q + x) % 7 == x % 7
  {
  }

  // ---------------------------------------------------------------------
  // Day numbers to calendar dates
  // ---------------------------------------------------------------------

  datatype Date = Date(year: int, month: int, day: int)

  predicate IsLeapYear(y: int) {
    y % 4 == 0 && (y % 100 != 0 || y % 400 == 0)
  }

  function DaysInMonth(y: int, m: int): (n: int)
    ensures 28 <= n <= 31
  {
    if m == 2 then (if IsLeapYear(y) then 29 else 28)
    else if m == 4 || m == 6 || m == 9 || m == 11 then 30
    else 31
  }

  predicate ValidDate(d: Date) {
    1 <= d.month <= 12 && 1 <= d.day <= DaysInMonth(d.year, d.month)
  }

  function NextDay(d: Date): Date {
    if d.day < DaysInMonth(d.year, d.month) then Date(d.year, d.month, d.day + 1)
    else if d.month < 12 then Date(d.year, d.month + 1, 1)
    else Date(d.year + 1, 1, 1)
  }

  function PrevDay(d: Date): Date {
    if d.day > 1 then Date(d.year, d.month, d.day - 1)
    else if d.month > 1 then Date(d.year, d.month - 1, DaysInMonth(d.year, d.month - 1))
    else Date(d.year - 1, 12, 31)
  }

  lemma NextPrevInverse(d: Date)
    requires ValidDate(d)
    ensures ValidDate(NextDay(d)) && ValidDate(PrevDay(d))
    ensures PrevDay(NextDay(d)) == d && NextDay(PrevDay(d)) == d
  {
  }

  const EPOCH := Date(1970, 1, 1)

  /** The calendar date of a day number (what `date` stores). */
  function DateOf(n: int): Date
    decreases if n < 0 then -n else n
  {
    if n == 0 then EPOCH
    else if n > 0 then NextDay(DateOf(n - 1))
    else PrevDay(DateOf(n + 1))
  }

  lemma {:induction false} DateOfValid(n: int)
    ensures ValidDate(DateOf(n))
    decreases if n < 0 then -n else n
  {
    if n > 0 {
      DateOfValid(n - 1);
      NextPrevInverse(DateOf(n - 1));
    } else if n < 0 {
      DateOfValid(n + 1);
      NextPrevInverse(DateOf(n + 1));
    }
  }

  /** Consecutive day numbers are consecutive calendar days, on both sides of the epoch. */
  lemma DateOfSuccessor(n: int)
    ensures DateOf(n + 1) == NextDay(DateOf(n))
    ensures DateOf(n - 1) == PrevDay(DateOf(n))
  {
    if n < 0 {
      DateOfValid(n + 1);
      NextPrevInverse(DateOf(n + 1));
    }
    if n > 0 {
      DateOfValid(n - 1);
      NextPrevInverse(DateOf(n - 1));
    }
  }

  // ---------------------------------------------------------------------
  // strftime('%d.%m'), strftime('%d/%m')
  // ---------------------------------------------------------------------

  /** A number below 100 written with two digits (`%d`, `%m`). */
  function Pad2(k: int): (s: string)
    requires 0 <= k < 100
    ensures |s| == 2 && AllDigits(s) && DigitsValue(s) == k
  {
    var s := ['0' + (k / 10) as char, '0' + (k % 10) as char];
    assert s[..1] == [s[0]] && s[..1][..0] == [];
    assert DigitsValue(s[..1]) == k / 10;
    s
  }

  /** `date.strftime('%d' + sep + '%m')` */
  function DayMonth(n: int, sep: char): (s: string)
    ensures |s| == 5 && s[2] == sep
    ensures AllDigits(s[..2]) && DigitsValue(s[..2]) == DateOf(n).day
    ensures AllDigits(s[3..]) && DigitsValue(s[3..]) == DateOf(n).month
  {
    DateOfValid(n);
    var d := DateOf(n);
    var s := Pad2(d.day) + [sep] + Pad2(d.month);
    assert s[..2] == Pad2(d.day) && s[3..] == Pad2(d.month);
    s
  }

  // ---------------------------------------------------------------------
  // The backup window
  // ---------------------------------------------------------------------

  /** A Monday-to-Friday window, as day numbers. */
  datatype Window = Window(start: int, end: int)

  /** `f"{start:%d.%m} a {end:%d.%m}"` */
  function WindowLabel(w: Window): (s: string)
    ensures |s| == 13 && s[5..8] == " a "
  {
    DayMonth(w.start, '.') + " a " + DayMonth(w.end, '.')
  }

  /** Reading a label back gives the start and end day and month. */
  lemma WindowLabelDecodes(w: Window)
    ensures var s := WindowLabel(w);
      s[2] == '.' && s[10] == '.' &&
      AllDigits(s[0..2]) && DigitsValue(s[0..2]) == DateOf(w.start).day &&
      AllDigits(s[3..5]) && DigitsValue(s[3..5]) == DateOf(w.start).month &&
      AllDigits(s[8..10]) && DigitsValue(s[8..10]) == DateOf(w.end).day &&
      AllDigits(s[11..13]) && DigitsValue(s[11..13]) == DateOf(w.end).month
  {
    var a := DayMonth(w.start, '.');
    var b := DayMonth(w.end, '.');
    var s := WindowLabel(w);
    assert s == a + " a " + b;
    assert s[0..2] == a[..2] && s[3..5] == a[3..];
    assert s[8..10] == b[..2] && s[11..13] == b[3..];
  }

  /** `(today.weekday() - calendar.FRIDAY + 7) % 7` */
  function DaysSinceLastFriday(today: int): (d: int)
    ensures 0 <= d < 7 && Weekday(today - d) == FRIDAY
  {
    var d := (Weekday(today) - FRIDAY + 7) % 7;
    WeekdayBack(today, d);
    d
  }

  /**
   * The variant of BUSCAR.py and pages/3_BACKLOG.py: on a Monday, the Friday
   * three days back; otherwise a Friday one or two weeks before the most
   * recent one.
   */
  function BackupEndA(today: int): (end: int)
    ensures Weekday(end) == FRIDAY && end < today
  {
    var w := Weekday(today);
    if w == MONDAY then today - 3
    else
      var sinceFriday := DaysSinceLastFriday(today);
      var lastFridayPassada :=
        if w == SATURDAY || w == SUNDAY then today - sinceFriday
        else today - (sinceFriday + 7);
      lastFridayPassada - 7
  }

  /** `calculate_backup_sheet_name` of BUSCAR.py and pages/3_BACKLOG.py, as days. */
  function BackupWindowA(today: int): (w: Window)
    ensures Weekday(w.start) == MONDAY && Weekday(w.end) == FRIDAY
    ensures w.end - w.start == 4 && w.end < today
  {
    var end := BackupEndA(today);
    Window(end - 4, end)
  }

  /** The tab name: a Monday and the Friday four days later, a week that ended before today. */
  function BackupSheetNameA(today: int): (s: string)
    ensures exists monday ::
      Weekday(monday) == MONDAY && monday + 4 < today && s == WindowLabel(Window(monday, monday + 4))
  {
    var w := BackupWindowA(today);
    assert w == Window(w.start, w.start + 4);
    WindowLabel(w)
  }

  /** How far back the window of the first variant ends, weekday by weekday. */
  lemma BackupEndAOffsets(today: int)
    ensures var back := today - BackupEndA(today);
      match Weekday(today)
      case 0 => back == 3
      case 1 => back == 18
      case 2 => back == 19
      case 3 => back == 20
      case 4 => back == 14
      case 5 => back == 8
      case _ => back == 9
  {
  }

  /**
   * The same offsets in calendar weeks (Monday-based): on Monday, Saturday and
   * Sunday the window is the previous calendar week; on Friday the one before
   * that; from Tuesday to Thursday the one three weeks back.
   */
  lemma BackupWindowAWeeks(today: int)
    ensures var monday := today - Weekday(today);
      var start := BackupWindowA(today).start;
      var w := Weekday(today);
      (w == MONDAY || w == SATURDAY || w == SUNDAY ==> start == monday - 7) &&
      (w == FRIDAY ==> start == monday - 14) &&
      (TUESDAY <= w <= THURSDAY ==> start == monday - 21)
  {
    BackupEndAOffsets(today);
  }

  /** On a Saturday the code finds the last Friday 1 day back (not 0). */
  lemma SaturdaySinceFriday(today: int)
    requires Weekday(today) == SATURDAY
    ensures DaysSinceLastFriday(today) == 1
  {
  }

  /** The Monday of the calendar week that contains `day`. */
  function MondayOf(day: int): (m: int)
    ensures Weekday(m) == MONDAY && m <= day < m + 7
  {
    day - Weekday(day)
  }

  /**
   * `calculate_backup_sheet_name` of pages/BACKLOG.py: the Monday of the
   * previous calendar week, through the Friday four days later.
   */
  function BackupWindowB(today: int): (w: Window)
    ensures Weekday(w.start) == MONDAY && w.end == w.start + 4
    ensures w.start == MondayOf(today) - 7
  {
    var mondayLastWeek := today - (Weekday(today) + 7);
    Window(mondayLastWeek, mondayLastWeek + 4)
  }

  /** The tab name: the Monday and the Friday of the calendar week before this one. */
  function BackupSheetNameB(today: int): (s: string)
    ensures s == WindowLabel(Window(MondayOf(today) - 7, MondayOf(today) - 3))
  {
    WindowLabel(BackupWindowB(today))
  }

  /** Every day of one calendar week names the same backup tab under the second variant. */
  lemma BackupSheetNameBWeekly(a: int, b: int)
    requires MondayOf(a) == MondayOf(b)
    ensures BackupSheetNameB(a) == BackupSheetNameB(b)
  {
  }

  /** The second variant's window ends on the Friday before the current week's Monday. */
  lemma BackupWindowBEndsLastWeek(today: int)
    ensures var w := BackupWindowB(today);
      Weekday(w.end) == FRIDAY && w.end == MondayOf(today) - 3 && w.end < today
  {
  }

  /** The two variants agree exactly on Mondays, Saturdays and Sundays. */
  lemma BackupVariantsAgree(today: int)
    ensures BackupWindowA(today) == BackupWindowB(today) <==>
      Weekday(today) in {MONDAY, SATURDAY, SUNDAY}
  {
    BackupWindowAWeeks(today);
  }

  // ---------------------------------------------------------------------
  // The dashboard's default period
  // ---------------------------------------------------------------------

  /** `hoje - timedelta(days=hoje.weekday())` and six days later. */
  function DefaultWeek(today: int): (w: Window)
    ensures Weekday(w.start) == MONDAY && Weekday(w.end) == SUNDAY
    ensures w.start <= today <= w.end && w.end - w.start == 6
  {
    var start := today - Weekday(today);
    Window(start, start + 6)
  }
}
