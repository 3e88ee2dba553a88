/** The Python string operations the scraper relies on: `strip`, `split`
    with an explicit separator, `in` on strings, `replace`, `title`,
    decimal formatting and the ordering `sorted` uses on strings. */
module Text {
  import opened Wrappers

  /** The characters for which Python's `str.isspace()` holds (this is also
      what `\s` matches in a `str` regular expression). */
  predicate IsSpace(c: char) {
    || ('\U{9}' <= c <= '\U{D}')
    || ('\U{1C}' <= c <= '\U{20}')
    || c == '\U{85}' || c == '\U{A0}' || c == '\U{1680}'
    || ('\U{2000}' <= c <= '\U{200A}')
    || c == '\U{2028}' || c == '\U{2029}' || c == '\U{202F}' || c == '\U{205F}' || c == '\U{3000}'
  }

  predicate IsDigit(c: char) { '0' <= c <= '9' }

  predicate AllDigits(s: string) { forall i :: 0 <= i < |s| ==> IsDigit(s[i]) }

  // ---------------------------------------------------------------- strip

  /** `s.lstrip()` */
  function TrimStart(s: string): (r: string)
    ensures |r| <= |s| && r == s[|s| - |r|..]
    ensures r == [] || !IsSpace(r[0])
    ensures forall i :: 0 <= i < |s| - |r| ==> IsSpace(s[i])
  {
    if s != [] && IsSpace(s[0]) then TrimStart(s[1..]) else s
  }

  /** `s.rstrip()` */
  function TrimEnd(s: string): (r: string)
    ensures |r| <= |s| && r == s[..|r|]
    ensures r == [] || !IsSpace(r[|r| - 1])
    ensures forall i :: |r| <= i < |s| ==> IsSpace(s[i])
  {
    if s != [] && IsSpace(s[|s| - 1]) then TrimEnd(s[..|s| - 1]) else s
  }

  /** `s.strip()`: the longest slice of `s` that neither starts nor ends with
      white space, everything cut off being white space. */
  function Strip(s: string): (r: string)
    ensures r == [] || (!IsSpace(r[0]) && !IsSpace(r[|r| - 1]))
    ensures |r| <= |s|
    ensures exists a: nat, b: nat :: a <= b <= |s| && r == s[a..b]
              && (forall k :: 0 <= k < a ==> IsSpace(s[k]))
              && (forall k :: b <= k < |s| ==> IsSpace(s[k]))
  {
    var t := TrimStart(s);
    var r := TrimEnd(t);
    var a := |s| - |t|;
    assert r == s[a..a + |r|];
    assert forall k :: a + |r| <= k < |s| ==> s[k] == t[k - a];
    r
  }

  /** A character the string lacks, its stripped form lacks too. */
  lemma StripWithout(s: string, c: char)
    requires c !in s
    ensures c !in Strip(s)
  {
    var t := TrimStart(s);
    assert forall x :: x in t ==> x in s;
    assert forall x :: x in Strip(s) ==> x in t;
  }

  /** Leading white space does not change what `strip` returns. */
  lemma StripAfterTrimStart(s: string)
    ensures Strip(TrimStart(s)) == Strip(s)
  {
    var t := TrimStart(s);
    assert TrimStart(t) == t;
  }

  // ------------------------------------------------------- substring search

  predicate OccursAt(s: string, t: string, i: int) {
    0 <= i && i + |t| <= |s| && s[i..i + |t|] == t
  }

  /** Leftmost occurrence of `t` in `s` at or after `i`. */
  function IndexFrom(s: string, t: string, i: nat): (r: Option<nat>)
    requires i <= |s|
    decreases |s| - i
    ensures r.Some? ==> i <= r.value && OccursAt(s, t, r.value)
    ensures r.Some? ==> forall j :: i <= j < r.value ==> !OccursAt(s, t, j)
    ensures r.None? ==> forall j :: i <= j ==> !OccursAt(s, t, j)
  {
    if OccursAt(s, t, i) then Some(i)
    else if i == |s| then None
    else IndexFrom(s, t, i + 1)
  }

  /** `s.find(t)`, with None for -1. */
  function IndexOf(s: string, t: string): (r: Option<nat>)
    ensures r.Some? ==> OccursAt(s, t, r.value) && forall j :: 0 <= j < r.value ==> !OccursAt(s, t, j)
    ensures r.None? ==> forall j :: !OccursAt(s, t, j)
  {
    IndexFrom(s, t, 0)
  }

  /** Python's `t in s` for strings. */
  predicate Contains(s: string, t: string) {
    IndexOf(s, t).Some?
  }

  lemma ContainsAt(s: string, t: string, i: int)
    requires OccursAt(s, t, i)
    ensures Contains(s, t)
  {
  }

  /** `t in s` holds of every string that has `s` as a slice. */
  lemma ContainsInLonger(a: string, s: string, b: string, t: string)
    requires Contains(s, t)
    ensures Contains(a + s + b, t)
  {
    var i := IndexOf(s, t).value;
    assert (a + s + b)[|a| + i..|a| + i + |t|] == s[i..i + |t|];
    ContainsAt(a + s + b, t, |a| + i);
  }

  // ------------------------------------------------------------------ split

  /** `s.split(sep)` for a non-empty separator: the pieces between the
      leftmost non-overlapping occurrences of `sep`. */
  function Split(s: string, sep: string): (parts: seq<string>)
    requires sep != []
    ensures |parts| >= 1
    decreases |s|
  {
    match IndexOf(s, sep)
    case None => [s]
    case Some(i) => [s[..i]] + Split(s[i + |sep|..], sep)
  }

  /** `sep.join(parts)` */
  function Join(parts: seq<string>, sep: string): string
  {
    if parts == [] then ""
    else if |parts| == 1 then parts[0]
    else parts[0] + sep + Join(parts[1..], sep)
  }

  /** Three pieces joined. */
  lemma JoinThree(parts: seq<string>, sep: string)
    requires |parts| == 3
    ensures Join(parts, sep) == parts[0] + sep + parts[1] + sep + parts[2]
  {
    assert parts[1..][1..] == [parts[2]];
    assert Join(parts[1..], sep) == parts[1] + sep + parts[2];
  }

  /** A split into three pieces: the string is the pieces joined, and no
      piece holds the separator. */
  lemma SplitIntoThree(s: string, sep: string)
    requires sep != [] && |Split(s, sep)| == 3
    ensures var parts := Split(s, sep);
            s == parts[0] + sep + parts[1] + sep + parts[2]
            && !Contains(parts[0], sep) && !Contains(parts[1], sep) && !Contains(parts[2], sep)
  {
    var parts := Split(s, sep);
    SplitJoin(s, sep);
    JoinThree(parts, sep);
    SplitPiecesFree(s, sep);
    assert parts[0] in parts && parts[1] in parts && parts[2] in parts;
  }

  /** Joining the pieces back with the separator gives the string again. */
  lemma {:induction false} SplitJoin(s: string, sep: string)
    requires sep != []
    ensures Join(Split(s, sep), sep) == s
    decreases |s|
  {
    var found := IndexOf(s, sep);
    if found.Some? {
      var i := found.value;
      var rest := s[i + |sep|..];
      var tail := Split(rest, sep);
      assert Split(s, sep) == [s[..i]] + tail;
      assert Join(Split(s, sep), sep) == s[..i] + sep + Join(tail, sep);
      SplitJoin(rest, sep);
      assert s == s[..i] + sep + rest;
    } else {
      assert Split(s, sep) == [s];
    }
  }

  /** No piece contains the separator. */
  lemma {:induction false} SplitPiecesFree(s: string, sep: string)
    requires sep != []
    ensures forall p :: p in Split(s, sep) ==> !Contains(p, sep)
    decreases |s|
  {
    var found := IndexOf(s, sep);
    if found.Some? {
      var i := found.value;
      SplitPiecesFree(s[i + |sep|..], sep);
      PrefixBeforeFirstFree(s, sep, i);
      assert Split(s, sep) == [s[..i]] + Split(s[i + |sep|..], sep);
    }
  }

  /** The text before the first occurrence does not contain it. */
  lemma PrefixBeforeFirstFree(s: string, t: string, i: nat)
    requires t != [] && IndexOf(s, t) == Some(i)
    ensures !Contains(s[..i], t)
  {
    var head := s[..i];
    forall j | 0 <= j ensures !OccursAt(head, t, j) {
      if j + |t| <= |head| {
        assert !OccursAt(s, t, j);
        assert head[j..j + |t|] == s[j..j + |t|];
      }
    }
  }

  /** What a slice contains, the whole string contains. */
  lemma SliceContained(s: string, a: nat, b: nat, t: string)
    requires a <= b <= |s| && Contains(s[a..b], t)
    ensures Contains(s, t)
  {
    assert s == s[..a] + s[a..b] + s[b..];
    ContainsInLonger(s[..a], s[a..b], s[b..], t);
  }

  /** Where a piece sits in the pieces joined. */
  lemma {:induction false} JoinPieceOffset(parts: seq<string>, sep: string, k: nat) returns (a: nat)
    requires k < |parts|
    ensures a + |parts[k]| <= |Join(parts, sep)| && Join(parts, sep)[a..a + |parts[k]|] == parts[k]
  {
    var joined := Join(parts, sep);
    if |parts| == 1 {
      a := 0;
      assert joined == parts[0];
      assert joined[0..|joined|] == joined;
    } else {
      var tail := Join(parts[1..], sep);
      assert joined == parts[0] + sep + tail;
      if k == 0 {
        a := 0;
        assert joined[0..|parts[0]|] == parts[0];
      } else {
        var b := JoinPieceOffset(parts[1..], sep, k - 1);
        assert parts[1..][k - 1] == parts[k];
        a := |parts[0]| + |sep| + b;
        assert joined[a..a + |parts[k]|] == tail[b..b + |parts[k]|];
      }
    }
  }

  /** Where a piece of a split sits in the string. */
  lemma SplitPieceOffset(s: string, sep: string, k: nat) returns (a: nat)
    requires sep != [] && k < |Split(s, sep)|
    ensures a + |Split(s, sep)[k]| <= |s| && s[a..a + |Split(s, sep)[k]|] == Split(s, sep)[k]
  {
    SplitJoin(s, sep);
    a := JoinPieceOffset(Split(s, sep), sep, k);
  }

  /** What a piece contains, the whole string contains. */
  lemma SplitPieceContained(s: string, sep: string, k: nat, t: string)
    requires sep != [] && k < |Split(s, sep)| && Contains(Split(s, sep)[k], t)
    ensures Contains(s, t)
  {
    var a := SplitPieceOffset(s, sep, k);
    SliceContained(s, a, a + |Split(s, sep)[k]|, t);
  }

  /** The first piece of a split into several ends at the leftmost
      occurrence of the separator, and the other pieces are the split of
      what follows that occurrence. */
  lemma SplitFirstIsLeftmost(s: string, sep: string)
    requires sep != [] && |Split(s, sep)| >= 2
    ensures OccursAt(s, sep, |Split(s, sep)[0]|)
    ensures forall j :: 0 <= j < |Split(s, sep)[0]| ==> !OccursAt(s, sep, j)
    ensures Split(s, sep)[1..] == Split(s[|Split(s, sep)[0]| + |sep|..], sep)
  {
    var i := IndexOf(s, sep).value;
    assert Split(s, sep) == [s[..i]] + Split(s[i + |sep|..], sep);
  }

  /** Likewise the second piece ends at the leftmost occurrence after the
      first one. */
  lemma SplitSecondIsLeftmost(s: string, sep: string)
    requires sep != [] && |Split(s, sep)| >= 3
    ensures forall j :: |Split(s, sep)[0]| + |sep| <= j < |Split(s, sep)[0]| + |sep| + |Split(s, sep)[1]| ==>
              !OccursAt(s, sep, j)
  {
    var parts := Split(s, sep);
    SplitFirstIsLeftmost(s, sep);
    var k := |parts[0]| + |sep|;
    var rest := s[k..];
    assert Split(rest, sep)[0] == parts[1];
    SplitFirstIsLeftmost(rest, sep);
    forall j | k <= j < k + |parts[1]| ensures !OccursAt(s, sep, j) {
      assert !OccursAt(rest, sep, j - k);
      OccursInSuffix(s, sep, k, j - k);
    }
  }

  /** An occurrence in a suffix is an occurrence in the whole string. */
  lemma OccursInSuffix(s: string, t: string, k: nat, j: int)
    requires k <= |s|
    ensures OccursAt(s[k..], t, j) <==> 0 <= j && OccursAt(s, t, k + j)
  {
    if 0 <= j && j + |t| <= |s| - k {
      assert s[k..][j..j + |t|] == s[k + j..k + j + |t|];
    }
  }

  /** Splitting where the first occurrence of `sep` is the one after `x`. */
  lemma SplitAtFirst(x: string, sep: string, y: string)
    requires sep != []
    requires forall j :: 0 <= j < |x| ==> !OccursAt(x + sep + y, sep, j)
    ensures Split(x + sep + y, sep) == [x] + Split(y, sep)
  {
    var s := x + sep + y;
    assert s[|x|..|x| + |sep|] == sep;
    assert OccursAt(s, sep, |x|);
    var i := IndexOf(s, sep).value;
    assert i == |x|;
    assert s[..i] == x;
    assert s[i + |sep|..] == y;
  }

  /** With a one-character separator the pieces of a concatenation are the
      pieces of its two sides. */
  lemma {:induction false} SplitCharConcat(a: string, c: char, b: string)
    ensures Split(a + [c] + b, [c]) == Split(a, [c]) + Split(b, [c])
    decreases |a|
  {
    var s := a + [c] + b;
    match IndexOf(a, [c])
    case None =>
      forall j | 0 <= j < |a| ensures !OccursAt(s, [c], j) {
        assert !OccursAt(a, [c], j);
        assert s[j..j + 1] == a[j..j + 1];
      }
      SplitAtFirst(a, [c], b);
    case Some(i) =>
      var a2 := a[i + 1..];
      forall j | 0 <= j < i ensures !OccursAt(s, [c], j) {
        assert !OccursAt(a, [c], j);
        assert s[j..j + 1] == a[j..j + 1];
      }
      assert a == a[..i] + [c] + a2;
      assert s == a[..i] + [c] + (a2 + [c] + b);
      SplitAtFirst(a[..i], [c], a2 + [c] + b);
      SplitCharConcat(a2, c, b);
  }

  /** A string free of a one-character separator is a single piece. */
  lemma SplitCharFree(s: string, c: char)
    requires forall i :: 0 <= i < |s| ==> s[i] != c
    ensures Split(s, [c]) == [s]
  {
    forall j | 0 <= j ensures !OccursAt(s, [c], j) {
      if j < |s| {
        assert s[j..j + 1] == [s[j]];
      }
    }
  }

  /** `s.replace(target, replacement)` for a non-empty `target`. */
  function Replace(s: string, target: string, replacement: string): string
    requires target != []
  {
    Join(Split(s, target), replacement)
  }

  /** `s.replace(a, b)` for one character by another. */
  function ReplaceChar(s: string, a: char, b: char): (r: string)
    ensures |r| == |s|
    ensures forall i :: 0 <= i < |s| ==> r[i] == (if s[i] == a then b else s[i])
  {
    seq(|s|, i requires 0 <= i < |s| => if s[i] == a then b else s[i])
  }

  // -------------------------------------------------------- decimal numbers

  function DigitChar(n: nat): (c: char)
    requires n < 10
    ensures IsDigit(c)
  {
    ('0' as int + n) as char
  }

  function DigitValue(c: char): nat
    requires IsDigit(c)
  {
    c as int - '0' as int
  }

  /** The value of a string of decimal digits (Python's `int(s)`). */
  function DigitsValue(s: string): nat
    requires AllDigits(s)
  {
    if s == [] then 0 else DigitsValue(s[..|s| - 1]) * 10 + DigitValue(s[|s| - 1])
  }

  function Pow10(n: nat): nat {
    if n == 0 then 1 else 10 * Pow10(n - 1)
  }

  /** `n` written with exactly `width` digits, zero-padded (`%02d`, `%04d`). */
  function PadDigits(n: nat, width: nat): (r: string)
    ensures |r| == width && AllDigits(r)
  {
    if width == 0 then [] else PadDigits(n / 10, width - 1) + [DigitChar(n % 10)]
  }

  lemma {:induction false} PadDigitsValue(n: nat, width: nat)
    requires n < Pow10(width)
    ensures DigitsValue(PadDigits(n, width)) == n
  {
    if width > 0 {
      PadDigitsValue(n / 10, width - 1);
      var r := PadDigits(n, width);
      assert r[..|r| - 1] == PadDigits(n / 10, width - 1);
    }
  }

  lemma {:induction false} PadDigitsOfValue(s: string)
    requires AllDigits(s)
    ensures PadDigits(DigitsValue(s), |s|) == s
  {
    if s != [] {
      var init := s[..|s| - 1];
      PadDigitsOfValue(init);
      var v := DigitsValue(s);
      assert v / 10 == DigitsValue(init);
      assert v % 10 == DigitValue(s[|s| - 1]);
      assert s == init + [s[|s| - 1]];
    }
  }

  /** Python's `str(n)` for a natural number. */
  function Decimal(n: nat): (r: string)
    ensures |r| >= 1 && AllDigits(r)
    ensures DigitsValue(r) == n
    ensures |r| > 1 ==> r[0] != '0'
  {
    if n < 10 then [DigitChar(n)]
    else
      var r := Decimal(n / 10) + [DigitChar(n % 10)];
      assert r[..|r| - 1] == Decimal(n / 10);
      r
  }

  // ------------------------------------------------------------------ title

  predicate IsUpper(c: char) { 'A' <= c <= 'Z' }
  predicate IsLower(c: char) { 'a' <= c <= 'z' }
  predicate IsLetter(c: char) { IsUpper(c) || IsLower(c) }

  function ToUpper(c: char): (d: char)
    ensures IsLower(c) ==> IsUpper(d) && d as int == c as int - 32
    ensures !IsLower(c) ==> d == c
  {
    if IsLower(c) then (c as int - 32) as char else c
  }

  function ToLower(c: char): (d: char)
    ensures IsUpper(c) ==> IsLower(d) && d as int == c as int + 32
    ensures !IsUpper(c) ==> d == c
  {
    if IsUpper(c) then (c as int + 32) as char else c
  }

  /** Python's `str.title()` restricted to ASCII letters, continuing after a
      character that was (`afterLetter`) or was not a letter. */
  function TitleFrom(s: string, afterLetter: bool): (r: string)
    ensures |r| == |s|
    ensures forall i :: 0 <= i < |s| && !IsLetter(s[i]) ==> r[i] == s[i]
    ensures forall i :: 0 <= i < |s| && IsLetter(s[i]) ==>
      ToLower(r[i]) == ToLower(s[i]) &&
      (IsUpper(r[i]) <==> !(if i == 0 then afterLetter else IsLetter(s[i - 1]))) &&
      (IsLower(r[i]) <==> (if i == 0 then afterLetter else IsLetter(s[i - 1])))
  {
    if s == [] then []
    else
      var c := s[0];
      var d := if !IsLetter(c) then c else if afterLetter then ToLower(c) else ToUpper(c);
      [d] + TitleFrom(s[1..], IsLetter(c))
  }

  /** `s.title()`: every letter that starts a run of letters in upper case,
      every other letter in lower case, everything else unchanged. */
  function Title(s: string): string {
    TitleFrom(s, false)
  }

  // --------------------------------------------------------------- ordering

  /** Python's `<` on strings: lexicographic by code point. */
  predicate StrLess(a: string, b: string)
    decreases |a|
  {
    if a == [] then b != []
    else if b == [] then false
    else if a[0] != b[0] then a[0] < b[0]
    else StrLess(a[1..], b[1..])
  }

  lemma {:induction false} StrLessIrreflexive(a: string)
    ensures !StrLess(a, a)
    decreases |a|
  {
    if a != [] { StrLessIrreflexive(a[1..]); }
  }

  lemma {:induction false} StrLessTransitive(a: string, b: string, c: string)
    requires StrLess(a, b) && StrLess(b, c)
    ensures StrLess(a, c)
    decreases |a|
  {
    if a != [] && b != [] && c != [] && a[0] == b[0] && b[0] == c[0] {
      StrLessTransitive(a[1..], b[1..], c[1..]);
    }
  }

  lemma {:induction false} StrLessTotal(a: string, b: string)
    ensures a == b || StrLess(a, b) || StrLess(b, a)
    decreases |a|
  {
    if a != [] && b != [] && a[0] == b[0] {
      StrLessTotal(a[1..], b[1..]);
      if a[1..] == b[1..] {
        assert a == [a[0]] + a[1..] && b == [b[0]] + b[1..];
      }
    }
  }
}
