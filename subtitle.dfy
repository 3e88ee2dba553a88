/** The event subtitle the site prints under each event name, of the form
    `DD/MM/YYYY - <weekday> - HH:MM <neighbourhood>`, and the two ways the
    project reads it:

    - the scraper (web_scraping.py, `fetch_event_page`) splits it on " - ",
      reads the date, keeps the first word of the third part as the time and
      takes as neighbourhood the text after the last " - " (the regular
      expression ` - ([^-\n]+)$`), which still carries the time;
    - the repair command (fill_neighborhood.py) takes as neighbourhood what
      follows the `HH:MM` (the regular expression
      `\d{2}/\d{2}/\d{4} - .*? - \d{2}:\d{2}\s*(.*)`). */
module Subtitle {
  import opened Wrappers
  import opened Text
  import opened Dates

  const Separator: string := " - "

  predicate Lacks(s: string, c: char) {
    forall i :: 0 <= i < |s| ==> s[i] != c
  }

  /** `HH:MM` as `\d{2}:\d{2}` matches it. */
  predicate IsClock(t: string) {
    |t| == 5 && IsDigit(t[0]) && IsDigit(t[1]) && t[2] == ':' && IsDigit(t[3]) && IsDigit(t[4])
  }

  /** An occurrence of the separator has its dash in the middle. */
  lemma SeparatorDash(s: string, j: int)
    ensures OccursAt(s, Separator, j) ==> s[j] == ' ' && s[j + 1] == '-' && s[j + 2] == ' '
  {
    if OccursAt(s, Separator, j) {
      assert s[j..j + 3][1] == s[j + 1];
      assert s[j..j + 3][0] == s[j] && s[j..j + 3][2] == s[j + 2];
    }
  }

  /** A string without a dash is one piece of a split on the separator. */
  lemma {:induction false} NoSeparator(t: string)
    requires Lacks(t, '-')
    ensures Split(t, Separator) == [t]
  {
    forall j | 0 <= j ensures !OccursAt(t, Separator, j) {
      SeparatorDash(t, j);
    }
    assert IndexOf(t, Separator).None?;
  }

  /** Splitting on the separator when the first piece has no dash. */
  lemma {:induction false} SeparatorFirstAfter(x: string, y: string)
    requires Lacks(x, '-')
    ensures Split(x + Separator + y, Separator) == [x] + Split(y, Separator)
  {
    var s := x + Separator + y;
    forall j | 0 <= j < |x| ensures !OccursAt(s, Separator, j) {
      SeparatorDash(s, j);
      assert j + 1 < |x| ==> s[j + 1] == x[j + 1];
      assert j + 1 == |x| ==> s[j + 1] == ' ';
    }
    SplitAtFirst(x, Separator, y);
  }

  // ------------------------------------------------------- the scraper

  /** `subtitle.split(" - ")` unpacked into three names: None where the
      unpacking raises `ValueError` (any other number of pieces). The first
      two pieces end at the leftmost separators, so a piece may end in
      " -" and the last one may start with "- ". */
  function SplitSubtitle(s: string): (r: Option<(string, string, string)>)
    ensures r.Some? <==> |Split(s, Separator)| == 3
    ensures r.Some? ==> s == r.value.0 + Separator + r.value.1 + Separator + r.value.2
    ensures r.Some? ==> !Contains(r.value.0, Separator) && !Contains(r.value.1, Separator)
                        && !Contains(r.value.2, Separator)
    ensures r.Some? ==> forall j :: 0 <= j < |r.value.0| ==> !OccursAt(s, Separator, j)
    ensures r.Some? ==> forall j :: |r.value.0| + 3 <= j < |r.value.0| + 3 + |r.value.1| ==>
                          !OccursAt(s, Separator, j)
  {
    var parts := Split(s, Separator);
    if |parts| == 3 then
      SplitIntoThree(s, Separator);
      SplitFirstIsLeftmost(s, Separator);
      SplitSecondIsLeftmost(s, Separator);
      Some((parts[0], parts[1], parts[2]))
    else None
  }

  /** The converse: a subtitle written as three separator-free pieces, the
      first two ending at the leftmost separators, is split back into them. */
  lemma SplitSubtitleOf(a: string, b: string, c: string)
    requires forall j :: 0 <= j < |a| ==> !OccursAt(a + Separator + b + Separator + c, Separator, j)
    requires forall j :: |a| + 3 <= j < |a| + 3 + |b| ==> !OccursAt(a + Separator + b + Separator + c, Separator, j)
    requires !Contains(c, Separator)
    ensures SplitSubtitle(a + Separator + b + Separator + c) == Some((a, b, c))
  {
    var s := a + Separator + b + Separator + c;
    var rest := b + Separator + c;
    assert s == a + Separator + rest;
    SplitAtFirst(a, Separator, rest);
    assert s[|a| + 3..] == rest;
    forall j | 0 <= j < |b| ensures !OccursAt(rest, Separator, j) {
      OccursInSuffix(s, Separator, |a| + 3, j);
    }
    SplitAtFirst(b, Separator, c);
    assert Split(c, Separator) == [c];
    assert Split(s, Separator) == [a, b, c];
  }

  /** `w` is what `t.split(" ")[0]` gives: the text before the first space. */
  predicate IsFirstWord(w: string, t: string) {
    ' ' !in w && (t == w || (|w| < |t| && t[..|w|] == w && t[|w|] == ' '))
  }

  /** `tail.split(" ")[0]` */
  function FirstWord(t: string): (w: string)
    ensures IsFirstWord(w, t)
  {
    var pieces := Split(t, " ");
    match IndexOf(t, " ")
    case None =>
      assert pieces == [t];
      forall k | 0 <= k < |t| ensures t[k] != ' ' {
        assert !OccursAt(t, " ", k);
        assert t[k..k + 1] == [t[k]];
      }
      pieces[0]
    case Some(i) =>
      assert pieces[0] == t[..i];
      forall k | 0 <= k < i ensures t[k] != ' ' {
        assert !OccursAt(t, " ", k);
        assert t[k..k + 1] == [t[k]];
      }
      assert t[i..i + 1] == " ";
      pieces[0]
  }

  /** Number of characters from `i` on matched by `[^-\n]*`. */
  function RunLength(s: string, i: nat): (n: nat)
    requires i <= |s|
    decreases |s| - i
    ensures i + n <= |s|
    ensures forall k :: i <= k < i + n ==> s[k] != '-' && s[k] != '\n'
    ensures i + n == |s| || s[i + n] == '-' || s[i + n] == '\n'
  {
    if i == |s| || s[i] == '-' || s[i] == '\n' then 0 else 1 + RunLength(s, i + 1)
  }

  /** ` - ([^-\n]+)$` matches at `i`: the separator, then at least one
      character that is neither a dash nor a line break up to the end of the
      text or to a line break that ends it. */
  predicate TailMatchAt(s: string, i: nat) {
    OccursAt(s, Separator, i) &&
    var n := RunLength(s, i + 3);
    n >= 1 && (i + 3 + n == |s| || (i + 3 + n == |s| - 1 && s[|s| - 1] == '\n'))
  }

  /** The dash of a tail match is the last dash of the text, so no match
      starts further right. */
  lemma TailMatchIsLast(s: string, i: nat)
    requires TailMatchAt(s, i)
    ensures forall j: nat :: i < j ==> !TailMatchAt(s, j)
  {
    SeparatorDash(s, i);
    forall j: nat | i < j ensures !TailMatchAt(s, j) {
      SeparatorDash(s, j);
    }
  }

  /** The run `[^-\n]*` holds neither a dash nor a line break. */
  lemma RunWithout(s: string, i: nat)
    requires i <= |s|
    ensures var g := s[i..i + RunLength(s, i)]; '-' !in g && '\n' !in g
  {
    var g := s[i..i + RunLength(s, i)];
    assert forall k :: 0 <= k < |g| ==> g[k] == s[i + k];
  }

  /** The group `([^-\n]+)` of a tail match at `i`. */
  function TailGroup(s: string, i: nat): (g: string)
    requires i + 3 <= |s|
    ensures '-' !in g && '\n' !in g
  {
    RunWithout(s, i + 3);
    s[i + 3..i + 3 + RunLength(s, i + 3)]
  }

  /** `re.search`: the leftmost position at or after `i` where the tail
      expression matches. */
  function TailSearch(s: string, i: nat): (r: Option<nat>)
    requires i <= |s|
    decreases |s| - i
    ensures r.Some? ==> i <= r.value && TailMatchAt(s, r.value)
    ensures r.None? ==> forall j: nat :: i <= j ==> !TailMatchAt(s, j)
  {
    if TailMatchAt(s, i) then Some(i)
    else if i == |s| then None
    else TailSearch(s, i + 1)
  }

  /** The scraper's neighbourhood: the group of the tail expression's only
      match, stripped of white space; None where nothing matches and reading
      the group raises `AttributeError`. */
  function ScraperNeighborhood(s: string): (r: Option<string>)
    ensures r.Some? <==> exists i: nat :: TailMatchAt(s, i)
    ensures r.Some? ==> forall i: nat :: TailMatchAt(s, i) ==> i + 3 <= |s| && r.value == Strip(TailGroup(s, i))
    ensures r.Some? ==> '-' !in r.value && '\n' !in r.value
  {
    match TailSearch(s, 0)
    case None => None
    case Some(i) =>
      TailMatchIsLast(s, i);
      assert forall j: nat :: TailMatchAt(s, j) ==> j == i by {
        forall j: nat | TailMatchAt(s, j) ensures j == i {
          if j < i { TailMatchIsLast(s, j); }
        }
      }
      var g := TailGroup(s, i);
      StripWithout(g, '-');
      StripWithout(g, '\n');
      Some(Strip(g))
  }

  /** The fields `fetch_event_page` fills in from a subtitle. */
  datatype EventSubtitle = EventSubtitle(eventDate: Date, eventDay: string, eventTime: string, neighborhood: string)

  /** Lines 175-185 of `fetch_event_page`: None where one of them raises,
      which makes the whole page be skipped. */
  function ParseEventSubtitle(s: string): (r: Option<EventSubtitle>)
    ensures r.Some? <==> SplitSubtitle(s).Some? && ParseDayMonthYear(SplitSubtitle(s).value.0).Some?
                         && ScraperNeighborhood(s).Some?
    ensures r.Some? ==> Some(r.value.eventDate) == ParseDayMonthYear(SplitSubtitle(s).value.0)
                        && r.value.eventDay == SplitSubtitle(s).value.1
    ensures r.Some? ==> ValidDate(r.value.eventDate) && SplitSubtitle(s).Some?
    ensures r.Some? ==> s == DisplayText(r.value.eventDate) + Separator + r.value.eventDay + Separator + SplitSubtitle(s).value.2
    ensures r.Some? ==> IsFirstWord(r.value.eventTime, SplitSubtitle(s).value.2)
    ensures r.Some? ==> ScraperNeighborhood(s) == Some(r.value.neighborhood)
  {
    match SplitSubtitle(s)
    case None => None
    case Some((dateText, weekday, tail)) =>
      match ParseDayMonthYear(dateText)
      case None => None
      case Some(d) =>
        DisplayTextCanonical(dateText);
        match ScraperNeighborhood(s)
        case None => None
        case Some(n) => Some(EventSubtitle(d, weekday, FirstWord(tail), n))
  }

  // ------------------------------------------------ the repair command

  /** `\d{2}/\d{2}/\d{4} - ` matches at `i`. */
  predicate DatePatternAt(s: string, i: nat) {
    i + 13 <= |s| && DayMonthYearShape(s[i..i + 10]) && OccursAt(s, Separator, i + 10)
  }

  /** ` - \d{2}:\d{2}` matches at `j`. */
  predicate ClockPatternAt(s: string, j: nat) {
    OccursAt(s, Separator, j) && j + 8 <= |s| && IsClock(s[j + 3..j + 8])
  }

  /** No line break between `j` and `m`. */
  predicate LineFree(s: string, j: nat, m: nat) {
    forall q :: j <= q < m ==> q < |s| && s[q] != '\n'
  }

  /** `.*? - \d{2}:\d{2}` from `j`: the nearest clock pattern that can be
      reached without crossing a line break. */
  function LazyClockFrom(s: string, j: nat): (r: Option<nat>)
    requires j <= |s|
    decreases |s| - j
    ensures r.Some? ==> j <= r.value && ClockPatternAt(s, r.value) && LineFree(s, j, r.value)
    ensures r.Some? ==> forall m: nat :: j <= m < r.value ==> !ClockPatternAt(s, m)
    ensures r.None? ==> forall m: nat :: j <= m && LineFree(s, j, m) ==> !ClockPatternAt(s, m)
  {
    if ClockPatternAt(s, j) then Some(j)
    else if j == |s| || s[j] == '\n' then None
    else
      LazyClockFrom(s, j + 1)
  }

  /** `\s*` from `k` */
  function SkipSpaces(s: string, k: nat): (r: nat)
    requires k <= |s|
    decreases |s| - k
    ensures k <= r <= |s|
    ensures forall q :: k <= q < r ==> IsSpace(s[q])
    ensures r == |s| || !IsSpace(s[r])
  {
    if k < |s| && IsSpace(s[k]) then SkipSpaces(s, k + 1) else k
  }

  /** `.*` from `k`: up to the next line break or the end. */
  function LineEnd(s: string, k: nat): (r: nat)
    requires k <= |s|
    decreases |s| - k
    ensures k <= r <= |s|
    ensures forall q :: k <= q < r ==> s[q] != '\n'
    ensures r == |s| || s[r] == '\n'
  {
    if k < |s| && s[k] != '\n' then LineEnd(s, k + 1) else k
  }

  predicate RepairMatchAt(s: string, i: nat)
    requires i <= |s|
  {
    DatePatternAt(s, i) && LazyClockFrom(s, i + 13).Some?
  }

  /** `re.search` for the repair expression: its leftmost match. */
  function RepairSearch(s: string, i: nat): (r: Option<nat>)
    requires i <= |s|
    decreases |s| - i
    ensures r.Some? ==> i <= r.value <= |s| && RepairMatchAt(s, r.value)
    ensures r.Some? ==> forall m: nat :: i <= m < r.value ==> !RepairMatchAt(s, m)
    ensures r.None? ==> forall m: nat :: i <= m <= |s| ==> !RepairMatchAt(s, m)
  {
    if RepairMatchAt(s, i) then Some(i)
    else if i == |s| then None
    else RepairSearch(s, i + 1)
  }

  /** `match.group(1)` of a repair match at `i`. */
  function RepairGroup(s: string, i: nat): (g: string)
    requires i <= |s| && RepairMatchAt(s, i)
    ensures '\n' !in g
  {
    var a := SkipSpaces(s, LazyClockFrom(s, i + 13).value + 8);
    var g := s[a..LineEnd(s, a)];
    assert forall k :: 0 <= k < |g| ==> g[k] != '\n';
    g
  }

  /** The repair command's neighbourhood: the group of the leftmost match of
      the repair expression (the rest of the line after the first reachable
      clock), stripped of white space; None where nothing matches. */
  function RepairNeighborhood(s: string): (r: Option<string>)
    ensures r.Some? <==> exists i: nat :: i <= |s| && RepairMatchAt(s, i)
    ensures r.Some? ==> exists i: nat :: i <= |s| && RepairMatchAt(s, i)
                          && (forall m: nat :: m < i ==> !RepairMatchAt(s, m))
                          && r.value == Strip(RepairGroup(s, i))
    ensures r.Some? ==> '\n' !in r.value
  {
    match RepairSearch(s, 0)
    case None => None
    case Some(i) =>
      var g := RepairGroup(s, i);
      StripWithout(g, '\n');
      Some(Strip(g))
  }

  /** White space skipped by `\s*` is what `lstrip` removes. */
  lemma {:induction false} SkipSpacesIsTrimStart(s: string, k: nat)
    requires k <= |s|
    ensures s[SkipSpaces(s, k)..] == TrimStart(s[k..])
    decreases |s| - k
  {
    if k < |s| && IsSpace(s[k]) {
      assert s[k..][1..] == s[k + 1..];
      SkipSpacesIsTrimStart(s, k + 1);
    }
  }

  // ------------------------------------------- well-formed subtitles

  /** The subtitle of an event on `d`, on weekday `day`, at `time`, in `place`. */
  function Compose(d: Date, day: string, time: string, place: string): string
    requires ValidDate(d)
  {
    DisplayText(d) + Separator + day + Separator + (time + " " + place)
  }

  predicate WellFormedParts(day: string, time: string, place: string) {
    Lacks(day, '-') && Lacks(day, '\n') && IsClock(time) && Lacks(place, '-') && Lacks(place, '\n')
  }

  lemma DisplayTextLacksDash(d: Date)
    requires ValidDate(d)
    ensures |DisplayText(d)| == 10 && Lacks(DisplayText(d), '-') && Lacks(DisplayText(d), '\n')
    ensures DayMonthYearShape(DisplayText(d))
  {
    DisplayTextRoundTrip(d);
    var t := DisplayText(d);
    forall k | 0 <= k < 10 ensures t[k] != '-' && t[k] != '\n' {
      if k < 2 {
        assert t[k] == t[..2][k];
      } else if 2 < k < 5 {
        assert t[k] == t[3..5][k - 3];
      } else if 5 < k {
        assert t[k] == t[6..][k - 6];
      }
    }
  }

  /** The scraper splits a well-formed subtitle into its date, weekday and
      `time place` parts. */
  lemma SplitWellFormed(d: Date, day: string, time: string, place: string)
    requires ValidDate(d) && WellFormedParts(day, time, place)
    ensures SplitSubtitle(Compose(d, day, time, place)) == Some((DisplayText(d), day, time + " " + place))
  {
    var dt, tail := DisplayText(d), time + " " + place;
    DisplayTextLacksDash(d);
    assert Lacks(tail, '-') by {
      forall k | 0 <= k < |tail| ensures tail[k] != '-' {
        assert k < 5 ==> tail[k] == time[k];
        assert k > 5 ==> tail[k] == place[k - 6];
      }
    }
    assert Compose(d, day, time, place) == dt + Separator + (day + Separator + tail);
    SeparatorFirstAfter(dt, day + Separator + tail);
    SeparatorFirstAfter(day, tail);
    NoSeparator(tail);
  }

  /** The third part of a well-formed subtitle: no dash, no line break, the
      time as its first word. */
  lemma TailFacts(time: string, place: string)
    requires IsClock(time) && Lacks(place, '-') && Lacks(place, '\n')
    ensures var tail := time + " " + place;
            Lacks(tail, '-') && Lacks(tail, '\n') && |tail| >= 6 && tail[5] == ' '
            && tail[..5] == time && !IsSpace(tail[0]) && !IsSpace(tail[4])
            && FirstWord(tail) == time
  {
    var tail := time + " " + place;
    forall k | 0 <= k < |tail| ensures tail[k] != '-' && tail[k] != '\n' {
      assert k < 5 ==> tail[k] == time[k];
      assert k > 5 ==> tail[k] == place[k - 6];
    }
    var w := FirstWord(tail);
    assert forall k :: 0 <= k < 5 ==> tail[k] != ' ';
    assert w != tail by {
      assert tail[5] in tail;
    }
    assert w == tail[..|w|] && tail[|w|] == ' ';
    assert forall k :: 0 <= k < |w| ==> w[k] == tail[k] && w[k] != ' ';
  }

  /** The scraper's neighbourhood, when the last separator is followed by a
      text without dashes or line breaks, is that text stripped. */
  lemma {:induction false} ScraperTail(s: string, i0: nat)
    requires OccursAt(s, Separator, i0) && i0 + 3 < |s|
    requires forall k :: i0 + 3 <= k < |s| ==> s[k] != '-' && s[k] != '\n'
    ensures ScraperNeighborhood(s) == Some(Strip(s[i0 + 3..]))
  {
    TailMatchToEnd(s, i0);
    ScraperWholeTail(s, i0);
  }

  lemma ScraperWholeTail(s: string, i0: nat)
    requires i0 + 3 < |s| && TailMatchAt(s, i0) && RunLength(s, i0 + 3) == |s| - i0 - 3
    ensures ScraperNeighborhood(s) == Some(Strip(s[i0 + 3..]))
  {
    TailSearchFinds(s, i0);
    ScraperNeighborhoodAt(s, i0);
    assert TailGroup(s, i0) == s[i0 + 3..];
  }

  /** The search finds the only tail match there is. */
  lemma TailSearchFinds(s: string, i0: nat)
    requires TailMatchAt(s, i0)
    ensures TailSearch(s, 0) == Some(i0)
  {
    TailMatchIsLast(s, i0);
    var found := TailSearch(s, 0);
    assert found.Some?;
    TailMatchIsLast(s, found.value);
  }

  lemma ScraperNeighborhoodAt(s: string, i: nat)
    requires TailSearch(s, 0) == Some(i)
    ensures ScraperNeighborhood(s) == Some(Strip(TailGroup(s, i)))
  {
  }

  lemma TailMatchToEnd(s: string, i0: nat)
    requires OccursAt(s, Separator, i0) && i0 + 3 < |s|
    requires forall k :: i0 + 3 <= k < |s| ==> s[k] != '-' && s[k] != '\n'
    ensures RunLength(s, i0 + 3) == |s| - i0 - 3 && TailMatchAt(s, i0)
  {
  }

  /** On a well-formed subtitle the scraper reads back every part; its
      neighbourhood is the whole third part, time included. */
  lemma ScraperWellFormed(d: Date, day: string, time: string, place: string)
    requires ValidDate(d) && WellFormedParts(day, time, place)
    ensures ParseEventSubtitle(Compose(d, day, time, place))
         == Some(EventSubtitle(d, day, time, Strip(time + " " + place)))
  {
    var s, tail := Compose(d, day, time, place), time + " " + place;
    SplitWellFormed(d, day, time, place);
    DisplayTextRoundTrip(d);
    TailFacts(time, place);
    var i0 := 13 + |day|;
    assert s[i0..i0 + 3] == Separator;
    assert s[i0 + 3..] == tail;
    forall k | i0 + 3 <= k < |s| ensures s[k] != '-' && s[k] != '\n' {
      assert s[k] == tail[k - i0 - 3];
    }
    ScraperTail(s, i0);
  }

  /** `.*? - \d{2}:\d{2}` after the date of a well-formed subtitle stops at
      the separator before the time. */
  lemma {:induction false} ClockAfterWeekday(s: string, p: string, day: string, time: string, rest: string)
    requires s == p + day + Separator + time + rest && |p| == 13
    requires Lacks(day, '-') && Lacks(day, '\n') && IsClock(time)
    ensures LazyClockFrom(s, 13) == Some(13 + |day|)
  {
    var k0 := 13 + |day|;
    assert s[k0..k0 + 3] == Separator;
    assert s[k0 + 3..k0 + 8] == time;
    assert ClockPatternAt(s, k0);
    forall q | 13 <= q < k0 ensures q < |s| && s[q] != '\n' {
      assert s[q] == day[q - 13];
    }
    assert LineFree(s, 13, k0);
    forall m: nat | 13 <= m < k0 ensures !ClockPatternAt(s, m) {
      SeparatorDash(s, m);
      assert m + 1 < k0 ==> s[m + 1] == day[m - 12];
      assert m + 1 == k0 ==> s[m + 1] == ' ';
    }
  }

  /** What follows `HH:MM` on the last line, less leading white space. */
  lemma GroupAfterClock(s: string, k: nat, tail: string)
    requires k <= |s| && s[k..] == tail && Lacks(tail, '\n')
    ensures s[SkipSpaces(s, k)..LineEnd(s, SkipSpaces(s, k))] == TrimStart(tail)
  {
    var a := SkipSpaces(s, k);
    SkipSpacesIsTrimStart(s, k);
    NoBreakAfter(s, k, tail);
    LineEndAtEnd(s, a);
    SliceToEnd(s, a, TrimStart(tail));
  }

  lemma SliceToEnd(s: string, a: nat, t: string)
    requires a <= |s| && s[a..] == t
    ensures s[a..|s|] == t
  {
  }

  lemma NoBreakAfter(s: string, k: nat, tail: string)
    requires k <= |s| && s[k..] == tail && Lacks(tail, '\n')
    ensures forall q :: k <= q < |s| ==> s[q] != '\n'
  {
    forall q | k <= q < |s| ensures s[q] != '\n' {
      assert s[q] == tail[q - k];
    }
  }

  lemma LineEndAtEnd(s: string, a: nat)
    requires a <= |s| && forall q :: a <= q < |s| ==> s[q] != '\n'
    ensures LineEnd(s, a) == |s|
  {
  }

  lemma LacksAfterSpace(place: string)
    requires Lacks(place, '\n')
    ensures Lacks(" " + place, '\n')
  {
    forall i | 0 < i < |" " + place| ensures (" " + place)[i] != '\n' {
      assert (" " + place)[i] == place[i - 1];
    }
  }

  /** On a well-formed subtitle the repair command finds the neighbourhood
      without the time. */
  lemma RepairWellFormed(d: Date, day: string, time: string, place: string)
    requires ValidDate(d) && WellFormedParts(day, time, place)
    ensures RepairNeighborhood(Compose(d, day, time, place)) == Some(Strip(place))
  {
    var s := Compose(d, day, time, place);
    var dt := DisplayText(d);
    DisplayTextLacksDash(d);
    assert s[0..10] == dt;
    assert s[10..13] == Separator;
    assert s == (dt + Separator) + day + Separator + time + (" " + place);
    ClockAfterWeekday(s, dt + Separator, day, time, " " + place);
    var k := 13 + |day| + 8;
    assert s[k..] == " " + place;
    RepairAtStart(s, k, place);
  }

  /** A repair match at the very start of the subtitle whose clock ends at
      `k`, followed by one space and the neighbourhood. */
  lemma {:induction false} RepairAtStart(s: string, k: nat, place: string)
    requires DatePatternAt(s, 0) && LazyClockFrom(s, 13) == Some(k - 8)
    requires k <= |s| && s[k..] == " " + place && Lacks(place, '\n')
    ensures RepairNeighborhood(s) == Some(Strip(place))
  {
    assert RepairMatchAt(s, 0);
    RepairGroupAtStart(s, k, place);
    RepairFromGroup(s, place);
  }

  lemma RepairGroupAtStart(s: string, k: nat, place: string)
    requires |s| > 0 && RepairMatchAt(s, 0) && LazyClockFrom(s, 13) == Some(k - 8)
    requires k <= |s| && s[k..] == " " + place && Lacks(place, '\n')
    ensures RepairGroup(s, 0) == TrimStart(" " + place)
  {
    LacksAfterSpace(place);
    GroupAfterClock(s, k, " " + place);
  }

  lemma RepairFromGroup(s: string, place: string)
    requires |s| > 0 && RepairMatchAt(s, 0) && RepairGroup(s, 0) == TrimStart(" " + place)
    ensures RepairNeighborhood(s) == Some(Strip(place))
  {
    assert RepairSearch(s, 0) == Some(0);
    RepairNeighborhoodAt(s, 0);
    StripAfterTrimStart(" " + place);
    StripLeadingSpace(place);
  }

  lemma RepairNeighborhoodAt(s: string, i: nat)
    requires i <= |s| && RepairSearch(s, 0) == Some(i)
    ensures RepairNeighborhood(s) == Some(Strip(RepairGroup(s, i)))
  {
  }

  lemma StripLeadingSpace(t: string)
    ensures Strip(" " + t) == Strip(t)
  {
    assert (" " + t)[1..] == t;
  }

  /** On a well-formed subtitle the scraper's neighbourhood begins with the
      time, which is the defect the repair command corrects. */
  lemma ScraperKeepsTime(d: Date, day: string, time: string, place: string)
    requires ValidDate(d) && WellFormedParts(day, time, place)
    ensures ParseEventSubtitle(Compose(d, day, time, place)).Some?
    ensures var n := ParseEventSubtitle(Compose(d, day, time, place)).value.neighborhood;
            |n| >= 5 && n[..5] == time
  {
    ScraperWellFormed(d, day, time, place);
    var tail := time + " " + place;
    TailFacts(time, place);
    assert TrimStart(tail) == tail;
  }

  /** A subtitle whose third part has a dash after its first character is
      dropped by the scraper: the tail expression cannot match. */
  lemma DashInThirdPartDropped(s: string, k: nat)
    requires SplitSubtitle(s).Some?
    requires 1 <= k < |SplitSubtitle(s).value.2| && SplitSubtitle(s).value.2[k] == '-'
    ensures ScraperNeighborhood(s).None? && ParseEventSubtitle(s).None?
  {
    var c := SplitSubtitle(s).value.2;
    var p := |s| - |c|;
    assert s[p..] == c;
    assert s[p + k] == '-';
    DashBlocksTail(s, p + k);
    forall i: nat | p + k < i + 3 ensures !OccursAt(s, Separator, i) {
      if p <= i {
        if i + 3 <= |s| {
          assert s[i..i + 3] == c[i - p..i - p + 3];
          assert !OccursAt(c, Separator, i - p);
        }
      } else {
        SeparatorDash(s, i);
      }
    }
  }

  /** No tail match starts three or more characters before a dash. */
  lemma DashBlocksTail(s: string, j: nat)
    requires j < |s| && s[j] == '-'
    ensures forall i: nat :: i + 3 <= j ==> !TailMatchAt(s, i)
  {
    forall i: nat | i + 3 <= j ensures !TailMatchAt(s, i) {
      var n := RunLength(s, i + 3);
      assert i + 3 + n <= j;
    }
  }
}
