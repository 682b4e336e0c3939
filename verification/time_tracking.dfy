/**
  The browser's time helpers: the HH:MM:SS rendering of a duration in
  seconds, the sum of durations, and the selection of entries that started in
  the current day, week or month.
 */
module TimeTracking {

  import opened Common
  import opened Text
  import opened Entities
  import opened Ordering
  import opened Calendar

  /** The colours offered to new projects in the browser, assigned in turn. */
  const ProjectColors: seq<string> := [
    "#8ecae6", "#219ebc", "#023047", "#ffb703",
    "#fb8500", "#06b6d4", "#10b981", "#6b7280"]

  /** `x.toString().padStart(2, '0')`. */
  function Two(x: int): string
  {
    PadStart(IntToString(x), 2, '0')
  }

  /** Three fields joined by colons, each padded to two characters. */
  function ClockText(h: int, m: int, s: int): string
  {
    Two(h) + ":" + Two(m) + ":" + Two(s)
  }

  /**
    `formatDuration`: hours from `Math.floor`, minutes and seconds from the
    truncating `%`. Negative inputs carry their signs into the fields.
   */
  function FormatDuration(seconds: int): (r: string)
    ensures seconds >= 0 ==> ClockShaped(r)
  {
    ClockColons(seconds);
    ClockText(seconds / 3600, JsRem(seconds, 3600) / 60, JsRem(seconds, 60))
  }

  /** `formatDurationShort` has the same body as `formatDuration`. */
  function FormatDurationShort(seconds: int): (r: string)
    ensures seconds >= 0 ==> ClockShaped(r)
  {
    ClockColons(seconds);
    ClockText(seconds / 3600, JsRem(seconds, 3600) / 60, JsRem(seconds, 60))
  }

  /** "H…H:MM:SS" in outline: at least eight characters, colons before the last two pairs. */
  predicate ClockShaped(t: string)
  {
    |t| >= 8 && t[|t| - 3] == ':' && t[|t| - 6] == ':'
  }

  /** The clock text of a non-negative duration ends in ":MM:SS" after at least two hour digits. */
  lemma ClockColons(n: int)
    ensures n >= 0 ==> ClockShaped(ClockText(n / 3600, JsRem(n, 3600) / 60, JsRem(n, 60)))
  {
    if n >= 0 {
      var h, m, s := n / 3600, JsRem(n, 3600) / 60, JsRem(n, 60);
      ClockParts(n);
      ClockTextShape(h, m, s);
      JoinSlices(Two(h), Two(m), Two(s));
    }
  }

  /** The short form is not shorter: both helpers render every input alike. */
  lemma FormatDurationShortIsFormatDuration(seconds: int)
    ensures FormatDurationShort(seconds) == FormatDuration(seconds)
  {
  }

  /** Splits "H…H:MM:SS" into its three numbers; None when the text has another shape. */
  function ParseClock(s: string): (r: Option<(nat, nat, nat)>)
    ensures r.Some? ==> |s| >= 8 && s[|s| - 3] == ':' && s[|s| - 6] == ':'
  {
    if |s| < 8 || s[|s| - 3] != ':' || s[|s| - 6] != ':' then None
    else
      var hs := s[..|s| - 6];
      var ms := s[|s| - 5..|s| - 3];
      var ss := s[|s| - 2..];
      if AllDigits(hs, 10) && AllDigits(ms, 10) && AllDigits(ss, 10) then
        Some((ReadDigits(hs, 10), ReadDigits(ms, 10), ReadDigits(ss, 10)))
      else None
  }

  /** The seconds a clock text stands for. */
  function ClockValue(s: string): Option<int>
  {
    match ParseClock(s)
    case None => None
    case Some((h, m, sec)) => Some(h * 3600 + m * 60 + sec)
  }

  /** A two-wide field of a non-negative number reads back as that number. */
  lemma TwoOfNat(x: nat)
    ensures |Two(x)| == Max(|Digits(x, 10)|, 2)
    ensures |Two(x)| == 2 <==> x < 100
    ensures AllDigits(Two(x), 10)
    ensures ReadDigits(Two(x), 10) == x
  {
    DecimalAtMostTwo(x);
    ReadDigitsOfDigits(x, 10);
    TwoIsPadded(x);
  }

  /** The field is the decimal digits, with one '0' in front when there is a single digit. */
  lemma TwoIsPadded(x: nat)
    ensures |Digits(x, 10)| >= 2 ==> Two(x) == Digits(x, 10)
    ensures |Digits(x, 10)| < 2 ==> Two(x) == "0" + Digits(x, 10)
    ensures AllDigits(Two(x), 10) && ReadDigits(Two(x), 10) == ReadDigits(Digits(x, 10), 10)
  {
    var d := Digits(x, 10);
    var r := Two(x);
    if |d| >= 2 {
      assert r == r[|r| - |d|..];
    } else {
      assert r == "0" + d;
      ReadDigitsLeadingZero(d, 10);
    }
  }

  /** For n >= 0 the hours, minutes and seconds fields recombine to n. */
  lemma ClockParts(n: nat)
    ensures var h := n / 3600; var m := JsRem(n, 3600) / 60; var s := JsRem(n, 60);
      && h >= 0 && 0 <= m < 60 && 0 <= s < 60
      && h * 3600 + m * 60 + s == n
  {
    var q := n / 3600;
    var r := n % 3600;
    SplitSixty(r);
    SixtyOfSum(n, 60 * q + r / 60, r % 60);
  }

  /** r splits into r / 60 minutes and r % 60 seconds. */
  lemma SplitSixty(r: int)
    ensures r == 60 * (r / 60) + r % 60 && 0 <= r % 60 < 60
  {
  }

  lemma SixtyOfSum(n: int, a: int, s: int)
    requires n == 60 * a + s && 0 <= s < 60
    ensures n % 60 == s
  {
  }

  /** Minutes and seconds below 60 are exactly two digits wide; hours at least two. */
  lemma ClockTextShape(h: nat, m: nat, s: nat)
    requires m < 60 && s < 60
    ensures |Two(m)| == 2 && |Two(s)| == 2 && |Two(h)| >= 2
    ensures |ClockText(h, m, s)| == |Two(h)| + 6
  {
    TwoOfNat(h);
    TwoOfNat(m);
    TwoOfNat(s);
  }

  lemma JoinSlices(A: string, B: string, C: string)
    requires |B| == 2 && |C| == 2
    ensures var str := A + ":" + B + ":" + C;
      && |str| == |A| + 6 && str[|str| - 3] == ':' && str[|str| - 6] == ':'
      && str[..|str| - 6] == A && str[|str| - 5..|str| - 3] == B && str[|str| - 2..] == C
  {
    var str := A + ":" + B + ":" + C;
    assert str[..|str| - 6] == A;
    assert str[|str| - 5..|str| - 3] == B;
    assert str[|str| - 2..] == C;
  }

  /** Parsing splits a joined clock text back into its three fields. */
  lemma ParseClockJoin(A: string, B: string, C: string)
    requires |A| >= 2 && |B| == 2 && |C| == 2
    requires AllDigits(A, 10) && AllDigits(B, 10) && AllDigits(C, 10)
    ensures ParseClock(A + ":" + B + ":" + C) == Some((ReadDigits(A, 10), ReadDigits(B, 10), ReadDigits(C, 10)))
  {
    JoinSlices(A, B, C);
  }

  lemma ParseClockText(h: nat, m: nat, s: nat)
    requires m < 60 && s < 60
    ensures ParseClock(ClockText(h, m, s)) == Some((h, m, s))
  {
    TwoOfNat(h);
    TwoOfNat(m);
    TwoOfNat(s);
    ParseClockJoin(Two(h), Two(m), Two(s));
  }

  /** Reading the rendering of a non-negative duration gives the duration back. */
  lemma ParseFormatDuration(n: nat)
    ensures ClockValue(FormatDuration(n)) == Some(n)
  {
    ClockParts(n);
    var h, m, s := n / 3600, JsRem(n, 3600) / 60, JsRem(n, 60);
    FormatDurationIsClock(n);
    ParseClockText(h, m, s);
    ClockValueOfFields(FormatDuration(n), h, m, s, n);
  }

  lemma FormatDurationIsClock(n: int)
    ensures FormatDuration(n) == ClockText(n / 3600, JsRem(n, 3600) / 60, JsRem(n, 60))
  {
  }

  lemma ClockValueOfFields(t: string, h: nat, m: nat, s: nat, n: int)
    requires ParseClock(t) == Some((h, m, s))
    requires h * 3600 + m * 60 + s == n
    ensures ClockValue(t) == Some(n)
  {
  }

  /** Different non-negative durations never render alike. */
  lemma FormatDurationInjective(a: nat, b: nat)
    requires FormatDuration(a) == FormatDuration(b)
    ensures a == b
  {
    ParseFormatDuration(a);
    ParseFormatDuration(b);
  }

  /** The rendering is exactly eight characters for durations under 100 hours. */
  lemma FormatDurationEightWide(n: nat)
    ensures |FormatDuration(n)| == 8 <==> n < 360000
  {
    ClockParts(n);
    var h := n / 3600;
    ClockTextShape(h, JsRem(n, 3600) / 60, JsRem(n, 60));
    TwoOfNat(h);
  }

  /** A single-digit negative field keeps its sign and is not padded. */
  lemma TwoOfNegativeDigit(x: int)
    requires -10 < x < 0
    ensures Two(x) == ['-', DigitChar(-x)]
  {
    assert IntToString(x) == "-" + Digits(-x, 10);
  }

  /** A negative duration shows a minus sign in every non-zero field. */
  lemma NegativeDurationRendering()
    ensures FormatDuration(-5) == "-1:-1:-5"
  {
    NegativeFieldsRendering();
    assert JsRem(-5, 3600) / 60 == -1 by {
      assert JsRem(-5, 3600) == -5;
    }
    assert JsRem(-5, 60) == -5;
    FormatDurationIsClock(-5);
  }

  lemma NegativeFieldsRendering()
    ensures ClockText(-1, -1, -5) == "-1:-1:-5"
  {
    TwoOfNegativeDigit(-1);
    TwoOfNegativeDigit(-5);
  }

  /** `calculateTotalDuration`: the durations added up from the left. */
  function TotalDuration(entries: seq<TimeEntry>): (r: int)
    ensures entries == [] ==> r == 0
    ensures |entries| == 1 ==> r == entries[0].duration
    ensures (forall i :: 0 <= i < |entries| ==> entries[i].duration >= 0) ==> r >= 0
  {
    if entries == [] then 0
    else TotalDuration(entries[..|entries| - 1]) + entries[|entries| - 1].duration
  }

  /** The total of a concatenation is the sum of the totals. */
  lemma {:induction false} TotalDurationConcat(a: seq<TimeEntry>, b: seq<TimeEntry>)
    ensures TotalDuration(a + b) == TotalDuration(a) + TotalDuration(b)
    decreases |b|
  {
    if b == [] {
      assert a + b == a;
    } else {
      assert (a + b)[..|a + b| - 1] == a + b[..|b| - 1];
      TotalDurationConcat(a, b[..|b| - 1]);
    }
  }

  /** The total split around one position. */
  lemma TotalDurationAround(b: seq<TimeEntry>, i: nat)
    requires i < |b|
    ensures TotalDuration(b) == TotalDuration(b[..i] + b[i + 1..]) + b[i].duration
  {
    var pre, post := b[..i], b[i + 1..];
    calc {
      TotalDuration(b);
      { SplitAt(b, i); }
      TotalDuration((pre + [b[i]]) + post);
      { TotalDurationConcat(pre + [b[i]], post); }
      TotalDuration(pre + [b[i]]) + TotalDuration(post);
      { TotalDurationConcat(pre, [b[i]]); TotalDurationSingle(b[i]); }
      TotalDuration(pre) + b[i].duration + TotalDuration(post);
      { TotalDurationConcat(pre, post); }
      TotalDuration(pre + post) + b[i].duration;
    }
  }

  lemma SplitAt<T>(b: seq<T>, i: nat)
    requires i < |b|
    ensures b == (b[..i] + [b[i]]) + b[i + 1..]
  {
  }

  lemma TotalDurationSingle(e: TimeEntry)
    ensures TotalDuration([e]) == e.duration
  {
    assert [e][..0] == [];
  }

  lemma MultisetWithout<T>(b: seq<T>, i: nat)
    requires i < |b|
    ensures multiset(b[..i] + b[i + 1..]) == multiset(b) - multiset{b[i]}
  {
    SplitAt(b, i);
  }

  lemma IndexIn<T>(b: seq<T>, x: T) returns (i: nat)
    requires x in multiset(b)
    ensures i < |b| && b[i] == x
  {
    assert x in b;
    i :| i < |b| && b[i] == x;
  }

  /** The total does not depend on the order of the entries. */
  lemma {:induction false} TotalDurationPermutation(a: seq<TimeEntry>, b: seq<TimeEntry>)
    requires multiset(a) == multiset(b)
    ensures TotalDuration(a) == TotalDuration(b)
    decreases |a|
  {
    if a == [] {
      assert |multiset(b)| == 0;
    } else {
      var rest := PermutationStep(a, b);
      TotalDurationPermutation(a[1..], rest);
    }
  }

  /** Take the first entry of a out of both sides: what is left is still a permutation, and each total loses the same duration. */
  lemma PermutationStep(a: seq<TimeEntry>, b: seq<TimeEntry>) returns (rest: seq<TimeEntry>)
    requires multiset(a) == multiset(b) && a != []
    ensures multiset(a[1..]) == multiset(rest)
    ensures TotalDuration(a) == TotalDuration(a[1..]) + a[0].duration
    ensures TotalDuration(b) == TotalDuration(rest) + a[0].duration
  {
    var i := IndexIn(b, a[0]);
    rest := b[..i] + b[i + 1..];
    RemoveMatching(a, b, i);
    TotalDurationAround(a, 0);
    TotalDurationAround(b, i);
  }

  /** Taking a matching element out of two permutations of each other leaves permutations. */
  lemma RemoveMatching<T>(a: seq<T>, b: seq<T>, i: nat)
    requires multiset(a) == multiset(b) && a != [] && i < |b| && b[i] == a[0]
    ensures multiset(a[1..]) == multiset(b[..i] + b[i + 1..])
    ensures a[..0] + a[1..] == a[1..]
  {
    MultisetWithout(a, 0);
    MultisetWithout(b, i);
    assert a[..0] + a[1..] == a[1..];
  }

  predicate NonNegativeDurations(entries: seq<TimeEntry>)
  {
    forall i :: 0 <= i < |entries| ==> entries[i].duration >= 0
  }

  /** With non-negative durations the total is non-negative and bounds each entry. */
  lemma {:induction false} TotalDurationBounds(entries: seq<TimeEntry>)
    requires NonNegativeDurations(entries)
    ensures TotalDuration(entries) >= 0
    ensures forall i :: 0 <= i < |entries| ==> entries[i].duration <= TotalDuration(entries)
    decreases |entries|
  {
    if entries != [] {
      var init := entries[..|entries| - 1];
      TotalDurationBounds(init);
      forall i | 0 <= i < |entries| ensures entries[i].duration <= TotalDuration(entries) {
        if i < |entries| - 1 {
          assert entries[i] == init[i];
        }
      }
    }
  }

  /**
    The start of the current period as the browser computes it: midnight
    today, midnight of the day `getDate() - day + shift` (the Monday of the
    week), or midnight of the first of the month.
   */
  function ClientPeriodStart(p: Period, today: Today): Millis
  {
    match p
    case Day => today.midnightDaysAgo(0)
    case Week =>
      BrowserWeekShiftAgrees(today.weekday);
      today.midnightDaysAgo(today.weekday - BrowserWeekShift(today.weekday))
    case Month => today.monthStart
  }

  /** The browser and the server start every period at the same instant. */
  lemma ClientServerPeriodStartAgree(p: Period, today: Today)
    ensures ClientPeriodStart(p, today) == PeriodStart(p, today)
  {
    BrowserWeekShiftAgrees(today.weekday);
  }

  /** `getEntriesByPeriod`: the entries that started at or after the period start, in their order. */
  function EntriesByPeriod(entries: seq<TimeEntry>, p: Period, today: Today): (r: seq<TimeEntry>)
    ensures forall e :: e in r <==> e in entries && e.startTime >= PeriodStart(p, today)
    ensures multiset(r) <= multiset(entries)
  {
    var start := ClientPeriodStart(p, today);
    ClientServerPeriodStartAgree(p, today);
    var r := Filter(entries, (e: TimeEntry) => e.startTime >= start);
    assert forall e :: e in r <==> e in entries && e.startTime >= start by {
      forall e ensures e in r <==> e in entries && e.startTime >= start {
        FilterMember(entries, (e: TimeEntry) => e.startTime >= start, e);
      }
    }
    r
  }

  /** Selecting over two lists at once selects over each and keeps the order. */
  lemma EntriesByPeriodConcat(a: seq<TimeEntry>, b: seq<TimeEntry>, p: Period, today: Today)
    ensures EntriesByPeriod(a + b, p, today) == EntriesByPeriod(a, p, today) + EntriesByPeriod(b, p, today)
  {
    FilterConcat(a, b, (e: TimeEntry) => e.startTime >= ClientPeriodStart(p, today));
  }

  /** The period's total never exceeds the total of all entries (durations non-negative). */
  lemma {:induction false} PeriodTotalAtMostTotal(entries: seq<TimeEntry>, p: Period, today: Today)
    requires NonNegativeDurations(entries)
    ensures TotalDuration(EntriesByPeriod(entries, p, today)) <= TotalDuration(entries)
    decreases |entries|
  {
    if entries != [] {
      var init := entries[..|entries| - 1];
      var last := entries[|entries| - 1];
      assert forall i :: 0 <= i < |init| ==> init[i] == entries[i];
      calc {
        TotalDuration(EntriesByPeriod(entries, p, today));
        { SplitLast(entries); EntriesByPeriodConcat(init, [last], p, today); }
        TotalDuration(EntriesByPeriod(init, p, today) + EntriesByPeriod([last], p, today));
        { TotalDurationConcat(EntriesByPeriod(init, p, today), EntriesByPeriod([last], p, today)); }
        TotalDuration(EntriesByPeriod(init, p, today)) + TotalDuration(EntriesByPeriod([last], p, today));
      <= { PeriodTotalAtMostTotal(init, p, today); SingleSelection(last, p, today); }
        TotalDuration(init) + last.duration;
      }
    }
  }

  lemma SplitLast<T>(s: seq<T>)
    requires s != []
    ensures s == s[..|s| - 1] + [s[|s| - 1]]
  {
  }

  /** Selecting from one entry keeps it or drops it. */
  lemma SingleSelection(e: TimeEntry, p: Period, today: Today)
    requires e.duration >= 0
    ensures 0 <= TotalDuration(EntriesByPeriod([e], p, today)) <= e.duration
  {
    var r := EntriesByPeriod([e], p, today);
    assert r == [] || r == [e] by {
      assert [e][1..] == [];
    }
    TotalDurationSingle(e);
  }
}
