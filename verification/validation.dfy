/**
 * The four input checks of the tracker: email format, due-date format,
 * task status, and the "only finished tasks may be removed" gate.
 */
module Validation {
  import opened Wrappers
  import opened Seqs
  import Models

  // ----- Character classes -----

  predicate IsAsciiLetter(c: char)
  {
    'a' <= c <= 'z' || 'A' <= c <= 'Z'
  }

  predicate IsAsciiDigit(c: char)
  {
    '0' <= c <= '9'
  }

  /** `[a-zA-Z0-9._%+-]`, the characters of the part before the `@`. */
  predicate IsLocalChar(c: char)
  {
    IsAsciiLetter(c) || IsAsciiDigit(c) || c == '.' || c == '_' || c == '%' || c == '+' || c == '-'
  }

  /** `[a-zA-Z0-9.-]`, the characters of the domain. */
  predicate IsDomainChar(c: char)
  {
    IsAsciiLetter(c) || IsAsciiDigit(c) || c == '.' || c == '-'
  }

  predicate IsAt(c: char)
  {
    c == '@'
  }

  predicate IsDot(c: char)
  {
    c == '.'
  }

  predicate IsDash(c: char)
  {
    c == '-'
  }

  predicate AllLocal(s: string)
  {
    forall i :: 0 <= i < |s| ==> IsLocalChar(s[i])
  }

  predicate AllDomain(s: string)
  {
    forall i :: 0 <= i < |s| ==> IsDomainChar(s[i])
  }

  predicate AllLetters(s: string)
  {
    forall i :: 0 <= i < |s| ==> IsAsciiLetter(s[i])
  }

  predicate AllDigits(s: string)
  {
    forall i :: 0 <= i < |s| ==> IsAsciiDigit(s[i])
  }

  // ----- validate_email -----

  /**
   * `s` splits at `at` and `dot` as the pattern
   * `[a-zA-Z0-9._%+-]+@[a-zA-Z0-9.-]+\.[a-zA-Z]{2,}` requires: a non-empty
   * local part, `@`, a non-empty domain, `.`, and two or more letters to the end.
   */
  ghost predicate EmailSplit(s: string, at: int, dot: int)
  {
    && 0 < at && at + 1 < dot && dot + 2 < |s|
    && s[at] == '@'
    && s[dot] == '.'
    && AllLocal(s[..at])
    && AllDomain(s[at + 1..dot])
    && AllLetters(s[dot + 1..])
  }

  /** The pattern body matches the whole of `s`. */
  ghost predicate MatchesEmailBody(s: string)
  {
    exists at, dot :: EmailSplit(s, at, dot)
  }

  /**
   * `re.match('^' + body + '$', s)`: anchored at the start, and `$` matches at
   * the very end or just before one final newline.
   */
  ghost predicate MatchesEmailPattern(s: string)
  {
    || MatchesEmailBody(s)
    || (|s| > 0 && s[|s| - 1] == '\n' && MatchesEmailBody(s[..|s| - 1]))
  }

  /** The text after the `@`: domain characters only, a last `.` that is not first, then two or more letters. */
  predicate DomainPart(d: string)
  {
    && AllDomain(d)
    && match LastIndex(d, IsDot)
       case None => false
       case Some(dot) => 0 < dot && dot + 2 < |d| && AllLetters(d[dot + 1..])
  }

  /** A non-empty run of local characters up to the first `@`, then a domain part. */
  predicate EmailBody(s: string)
  {
    match FirstIndex(s, IsAt)
    case None => false
    case Some(at) => 0 < at && AllLocal(s[..at]) && DomainPart(s[at + 1..])
  }

  /** What the scan accepts splits as the pattern says. */
  lemma ScanGivesSplit(s: string)
    requires EmailBody(s)
    ensures MatchesEmailBody(s)
  {
    var at := FirstIndex(s, IsAt).value;
    var d := s[at + 1..];
    var k := LastIndex(d, IsDot).value;
    var dot := at + 1 + k;
    assert s[at + 1..dot] == d[..k];
    assert s[dot + 1..] == d[k + 1..];
    assert EmailSplit(s, at, dot);
  }

  /** The `@` of a split is the first one in the text. */
  lemma SplitAtIsFirst(s: string, at: int, dot: int)
    requires EmailSplit(s, at, dot)
    ensures FirstIndex(s, IsAt) == Some(at)
  {
    assert forall j :: 0 <= j < at ==> s[j] == s[..at][j];
  }

  /** The `.` of a split is the last one after the `@`. */
  lemma SplitDotIsLast(s: string, at: int, dot: int)
    requires EmailSplit(s, at, dot)
    ensures AllDomain(s[at + 1..])
    ensures LastIndex(s[at + 1..], IsDot) == Some(dot - at - 1)
    ensures DomainPart(s[at + 1..])
  {
    var d := s[at + 1..];
    var k := dot - at - 1;
    forall i | 0 <= i < |d|
      ensures IsDomainChar(d[i])
    {
      if i < k {
        assert d[i] == s[at + 1..dot][i];
      } else if i > k {
        assert d[i] == s[dot + 1..][i - k - 1];
      }
    }
    assert IsDot(d[k]);
    assert forall j :: k < j < |d| ==> d[j] == s[dot + 1..][j - k - 1];
    assert d[k + 1..] == s[dot + 1..];
  }

  /** What the pattern matches, the scan accepts. */
  lemma SplitGivesScan(s: string)
    requires MatchesEmailBody(s)
    ensures EmailBody(s)
  {
    var at, dot :| EmailSplit(s, at, dot);
    SplitAtIsFirst(s, at, dot);
    SplitDotIsLast(s, at, dot);
  }

  /** Scanning the text decides the pattern body exactly. */
  lemma EmailBodyMatches(s: string)
    ensures EmailBody(s) <==> MatchesEmailBody(s)
  {
    if EmailBody(s) {
      ScanGivesSplit(s);
    }
    if MatchesEmailBody(s) {
      SplitGivesScan(s);
    }
  }

  /** `validate_email`: the email pattern, with Python's end-of-text rule for `$`. */
  function ValidEmail(s: string): (ok: bool)
    ensures ok <==> MatchesEmailPattern(s)
  {
    var t := if |s| > 0 then s[..|s| - 1] else s;
    EmailBodyMatches(s);
    EmailBodyMatches(t);
    EmailBody(s) || (|s| > 0 && s[|s| - 1] == '\n' && EmailBody(t))
  }

  /** A split cuts its text into the local part, `@`, the domain, `.` and the letters. */
  lemma PartsOfSplit(b: string, at: int, dot: int)
    requires EmailSplit(b, at, dot)
    ensures b == b[..at] + "@" + b[at + 1..dot] + "." + b[dot + 1..]
  {
    assert b == b[..at] + [b[at]] + b[at + 1..dot] + [b[dot]] + b[dot + 1..];
  }

  /** The text a match covers: the whole address, or the address without its final newline. */
  ghost function MatchedBody(s: string): (b: string)
    requires MatchesEmailPattern(s)
    ensures MatchesEmailBody(b)
    ensures |b| <= |s| <= |b| + 1 && b == s[..|b|]
    ensures |s| == |b| + 1 ==> s[|b|] == '\n'
  {
    if MatchesEmailBody(s) then s else s[..|s| - 1]
  }

  /** Inside a split, the `@` is the only one and the first character is a local one. */
  lemma SplitHasOneAt(b: string, at: int, dot: int)
    requires EmailSplit(b, at, dot)
    ensures IsLocalChar(b[0])
    ensures forall j :: 0 <= j < |b| && j != at ==> b[j] != '@'
  {
    assert b[0] == b[..at][0];
    forall j | 0 <= j < |b| && j != at
      ensures b[j] != '@'
    {
      if j < at {
        assert b[j] == b[..at][j];
      } else if j < dot {
        assert b[j] == b[at + 1..dot][j - at - 1];
      } else if dot < j {
        assert b[j] == b[dot + 1..][j - dot - 1];
      }
    }
  }

  /**
   * An accepted address has exactly one `@`, preceded by a non-empty run of
   * local characters; after it come domain characters, a `.`, and two or
   * more letters (and at most one final newline).
   */
  lemma AcceptedEmailShape(s: string)
    requires ValidEmail(s)
    ensures exists local, domain, tld ::
      && |local| > 0 && AllLocal(local)
      && |domain| > 0 && AllDomain(domain)
      && |tld| >= 2 && AllLetters(tld)
      && (s == local + "@" + domain + "." + tld || s == local + "@" + domain + "." + tld + "\n")
    ensures exists at :: && 0 < at < |s| && s[at] == '@' && AllLocal(s[..at])
                         && forall j :: 0 <= j < |s| && j != at ==> s[j] != '@'
  {
    PatternShape(s);
  }

  lemma PatternShape(s: string)
    requires MatchesEmailPattern(s)
    ensures exists local, domain, tld ::
      && |local| > 0 && AllLocal(local)
      && |domain| > 0 && AllDomain(domain)
      && |tld| >= 2 && AllLetters(tld)
      && (s == local + "@" + domain + "." + tld || s == local + "@" + domain + "." + tld + "\n")
    ensures exists at :: && 0 < at < |s| && s[at] == '@' && AllLocal(s[..at])
                         && forall j :: 0 <= j < |s| && j != at ==> s[j] != '@'
  {
    var b := MatchedBody(s);
    var at, dot :| EmailSplit(b, at, dot);
    SplitHasOneAt(b, at, dot);
    PartsOfSplit(b, at, dot);
    assert s == b || s == b + "\n";
    assert s[..at] == b[..at];
    assert forall j :: 0 <= j < |b| ==> s[j] == b[j];
  }

  /** The match is anchored at the start: a first character outside the local class is never accepted. */
  lemma EmailAnchoredAtStart(s: string)
    requires |s| > 0 && !IsLocalChar(s[0])
    ensures !ValidEmail(s)
  {
    if MatchesEmailPattern(s) {
      var b := MatchedBody(s);
      var at, dot :| EmailSplit(b, at, dot);
      SplitHasOneAt(b, at, dot);
    }
  }

  /** Text without an `@` is never an address. */
  lemma NoAtRejected(s: string)
    requires forall i :: 0 <= i < |s| ==> s[i] != '@'
    ensures !ValidEmail(s)
  {
    if MatchesEmailPattern(s) {
      var b := MatchedBody(s);
    }
  }

  /** Gluing a local part, `@`, a domain, `.` and letters gives a split at the glue points. */
  lemma SplitOfParts(local: string, domain: string, tld: string)
    requires |local| > 0 && AllLocal(local)
    requires |domain| > 0 && AllDomain(domain)
    requires |tld| >= 2 && AllLetters(tld)
    ensures EmailSplit(local + "@" + domain + "." + tld, |local|, |local| + 1 + |domain|)
  {
    var s := local + "@" + domain + "." + tld;
    var at, dot := |local|, |local| + 1 + |domain|;
    assert s[..at] == local;
    assert s[at + 1..dot] == domain;
    assert s[dot + 1..] == tld;
  }

  /** The address used by the tracker's own tests is accepted, with or without a final newline. */
  lemma SampleEmailAccepted()
    ensures ValidEmail("testuser@example.com")
    ensures ValidEmail("testuser@example.com\n")
  {
    var good := "testuser@example.com";
    SplitOfParts("testuser", "example", "com");
    assert "testuser" + "@" + "example" + "." + "com" == good;
    assert MatchesEmailPattern(good);
    var withNewline := "testuser@example.com\n";
    assert withNewline[..|withNewline| - 1] == good;
    assert MatchesEmailPattern(withNewline);
  }

  /** Text without `@` is rejected. */
  lemma NotAnEmailRejected()
    ensures !ValidEmail("not-an-email")
  {
    var noAt := "not-an-email";
    assert forall i :: 0 <= i < |noAt| ==> noAt[i] != '@';
    NoAtRejected(noAt);
  }

  /** Text starting with `@` is rejected. */
  lemma LeadingAtRejected()
    ensures !ValidEmail("@example.com")
  {
    var atFirst := "@example.com";
    assert atFirst[0] == '@';
    EmailAnchoredAtStart(atFirst);
  }

  // ----- validate_date -----

  datatype Date = Date(year: int, month: int, day: int)

  /** Leap years of the proleptic Gregorian calendar. */
  predicate IsLeapYear(year: int)
  {
    year % 4 == 0 && (year % 100 != 0 || year % 400 == 0)
  }

  function DaysInMonth(year: int, month: int): (n: int)
    requires 1 <= month <= 12
    ensures 28 <= n <= 31
    ensures n == 29 <==> month == 2 && IsLeapYear(year)
    ensures n == 30 <==> month == 4 || month == 6 || month == 9 || month == 11
    ensures n == 31 <==> month == 1 || month == 3 || month == 5 || month == 7 || month == 8 || month == 10 || month == 12
  {
    if month == 2 then (if IsLeapYear(year) then 29 else 28)
    else if month == 4 || month == 6 || month == 9 || month == 11 then 30
    else 31
  }

  /** A day that exists, in the years a Python date can hold (1 to 9999). */
  predicate IsCalendarDate(d: Date)
  {
    1 <= d.year <= 9999 && 1 <= d.month <= 12 && 1 <= d.day <= DaysInMonth(d.year, d.month)
  }

  function DigitValue(c: char): int
    requires IsAsciiDigit(c)
  {
    c as int - '0' as int
  }

  /** `%Y`: exactly four digits. */
  function YearField(t: string): (r: Option<int>)
    ensures r.Some? ==> |t| == 4 && AllDigits(t) && 0 <= r.value <= 9999
    ensures |t| == 4 && AllDigits(t) ==> r.Some?
  {
    if |t| == 4 && AllDigits(t) then
      Some(1000 * DigitValue(t[0]) + 100 * DigitValue(t[1]) + 10 * DigitValue(t[2]) + DigitValue(t[3]))
    else None
  }

  /** The texts `%m` reads as month `m`: two digits, or one digit for months below 10. */
  predicate IsMonthSpelling(t: string, m: int)
  {
    1 <= m <= 12 && (t == Pad2(m) || (m <= 9 && t == [DigitChar(m)]))
  }

  /** The texts `%d` reads as day `d`: two digits, or for days below 10 one digit, alone or after a space. */
  predicate IsDaySpelling(t: string, d: int)
  {
    1 <= d <= 31 && (t == Pad2(d) || (d <= 9 && (t == [DigitChar(d)] || t == [' ', DigitChar(d)])))
  }

  /** `%m`: one of the alternatives `1[0-2]`, `0[1-9]`, `[1-9]`. */
  function MonthField(t: string): (r: Option<int>)
    ensures r.Some? ==> 1 <= r.value <= 12 && 1 <= |t| <= 2
    ensures r.Some? ==> IsMonthSpelling(t, r.value)
    ensures forall m :: IsMonthSpelling(t, m) ==> r == Some(m)
  {
    if |t| == 1 && '1' <= t[0] <= '9' then Some(DigitValue(t[0]))
    else if |t| == 2 && t[0] == '1' && '0' <= t[1] <= '2' then Some(10 + DigitValue(t[1]))
    else if |t| == 2 && t[0] == '0' && '1' <= t[1] <= '9' then Some(DigitValue(t[1]))
    else None
  }

  /** `%d`: one of the alternatives `3[01]`, `[12][0-9]`, `0[1-9]`, `[1-9]`, ` [1-9]`. */
  function DayField(t: string): (r: Option<int>)
    ensures r.Some? ==> 1 <= r.value <= 31 && 1 <= |t| <= 2
    ensures r.Some? ==> IsDaySpelling(t, r.value)
    ensures forall d :: IsDaySpelling(t, d) ==> r == Some(d)
  {
    if |t| == 1 && '1' <= t[0] <= '9' then Some(DigitValue(t[0]))
    else if |t| == 2 && t[0] == '3' && (t[1] == '0' || t[1] == '1') then Some(30 + DigitValue(t[1]))
    else if |t| == 2 && (t[0] == '1' || t[0] == '2') && IsAsciiDigit(t[1]) then
      Some(10 * DigitValue(t[0]) + DigitValue(t[1]))
    else if |t| == 2 && (t[0] == '0' || t[0] == ' ') && '1' <= t[1] <= '9' then Some(DigitValue(t[1]))
    else None
  }

  /**
   * `datetime.strptime(s, "%Y-%m-%d")`: four digits, `-`, a month field, `-`,
   * a day field and nothing after it; then the day must exist in that month
   * of that year. Every failure is a ValueError, which becomes None.
   */
  function ParseDate(s: string): (r: Option<Date>)
    ensures r.Some? ==> IsCalendarDate(r.value)
    ensures r.Some? ==> 8 <= |s| <= 10 && s[4] == '-' && AllDigits(s[..4])
  {
    if |s| < 5 || s[4] != '-' then None
    else
      var rest := s[5..];
      match (YearField(s[..4]), FirstIndex(rest, IsDash))
      case (Some(y), Some(j)) =>
        var m := MonthField(rest[..j]);
        var d := DayField(rest[j + 1..]);
        if m.Some? && d.Some? && 1 <= y && d.value <= DaysInMonth(y, m.value) then
          Some(Date(y, m.value, d.value))
        else None
      case _ => None
  }


  function DigitChar(n: int): (c: char)
    requires 0 <= n <= 9
    ensures IsAsciiDigit(c) && DigitValue(c) == n
  {
    ('0' as int + n) as char
  }

  /** `n` written with two digits, zero-padded. */
  function Pad2(n: int): (t: string)
    requires 0 <= n <= 99
    ensures |t| == 2 && AllDigits(t)
  {
    [DigitChar(n / 10), DigitChar(n % 10)]
  }

  /** `n` written with four digits, zero-padded. */
  function Pad4(n: int): (t: string)
    requires 0 <= n <= 9999
    ensures |t| == 4 && AllDigits(t)
  {
    var tens := n / 10;
    var hundreds := tens / 10;
    var thousands := hundreds / 10;
    [DigitChar(thousands), DigitChar(hundreds % 10), DigitChar(tens % 10), DigitChar(n % 10)]
  }

  /** The zero-padded `YYYY-MM-DD` spelling of a date. */
  function FormatDate(d: Date): (s: string)
    requires IsCalendarDate(d)
    ensures |s| == 10
  {
    Pad4(d.year) + "-" + Pad2(d.month) + "-" + Pad2(d.day)
  }

  lemma YearFieldOfPad4(y: int)
    requires 0 <= y <= 9999
    ensures YearField(Pad4(y)) == Some(y)
  {
    var tens := y / 10;
    var hundreds := tens / 10;
    assert y == 10 * tens + y % 10;
    assert tens == 10 * hundreds + tens % 10;
    assert hundreds == 10 * (hundreds / 10) + hundreds % 10;
  }

  lemma MonthFieldOfPad2(m: int)
    requires 1 <= m <= 12
    ensures MonthField(Pad2(m)) == Some(m)
  {
  }

  lemma DayFieldOfPad2(d: int)
    requires 1 <= d <= 31
    ensures DayField(Pad2(d)) == Some(d)
  {
  }

  /** Every calendar date written as `YYYY-MM-DD` is accepted and denotes that same date. */
  lemma FormatThenParse(d: Date)
    requires IsCalendarDate(d)
    ensures ParseDate(FormatDate(d)) == Some(d)
  {
    var s := FormatDate(d);
    var month, day := Pad2(d.month), Pad2(d.day);
    var rest := s[5..];
    assert s[..4] == Pad4(d.year);
    assert s[4] == '-';
    assert rest == month + "-" + day;
    assert !IsDash(rest[0]) && !IsDash(rest[1]) && IsDash(rest[2]);
    assert FirstIndex(rest, IsDash) == Some(2);
    assert rest[..2] == month;
    assert rest[3..] == day;
    YearFieldOfPad4(d.year);
    MonthFieldOfPad2(d.month);
    DayFieldOfPad2(d.day);
  }

  /** Four digits read by `%Y` are the zero-padded spelling of the year they denote. */
  lemma YearFieldIsPad4(t: string)
    requires YearField(t).Some?
    ensures t == Pad4(YearField(t).value)
  {
    var a, b, c, e := DigitValue(t[0]), DigitValue(t[1]), DigitValue(t[2]), DigitValue(t[3]);
    var y := 1000 * a + 100 * b + 10 * c + e;
    assert y / 10 == 100 * a + 10 * b + c;
    assert y / 10 / 10 == 10 * a + b;
    assert y / 10 / 10 / 10 == a;
    assert t == [DigitChar(a), DigitChar(b), DigitChar(c), DigitChar(e)];
  }

  /**
   * `s` spells `d` in `%Y-%m-%d`: the four-digit year, `-`, a spelling of the
   * month, `-`, and a spelling of the day, with nothing after it.
   */
  ghost predicate SpellsDate(s: string, d: Date)
  {
    && 0 <= d.year <= 9999
    && exists mt, dt :: IsMonthSpelling(mt, d.month) && IsDaySpelling(dt, d.day) && s == Pad4(d.year) + "-" + mt + "-" + dt
  }

  /** A text with `-` at 4 and at `5 + j` is the year text, `-`, the middle, `-` and the tail. */
  lemma SplitAtDashes(s: string, j: nat)
    requires |s| >= 5 && s[4] == '-'
    requires 5 + j < |s| && s[5 + j] == '-'
    ensures s == s[..4] + "-" + s[5..][..j] + "-" + s[5..][j + 1..]
  {
    var rest := s[5..];
    assert rest == rest[..j] + [rest[j]] + rest[j + 1..];
    assert s == s[..4] + [s[4]] + rest;
  }

  /** The parts of `p + "-" + mt + "-" + dt` can be read back where they were put. */
  lemma JoinedParts(p: string, mt: string, dt: string)
    ensures var s := p + "-" + mt + "-" + dt;
      && s[..|p|] == p && s[|p|] == '-' && s[|p| + 1..] == mt + "-" + dt
    ensures var r := mt + "-" + dt;
      && r[..|mt|] == mt && r[|mt|] == '-' && r[|mt| + 1..] == dt
  {
    var s := p + "-" + mt + "-" + dt;
    assert s == p + ("-" + mt + "-" + dt);
    assert "-" + mt + "-" + dt == "-" + (mt + "-" + dt);
  }

  /** What the parser accepts spells the date it returns. */
  lemma ParsedDateIsSpelled(s: string)
    requires ParseDate(s).Some?
    ensures SpellsDate(s, ParseDate(s).value)
  {
    var d := ParseDate(s).value;
    var j := FirstIndex(s[5..], IsDash).value;
    var mt, dt := s[5..][..j], s[5..][j + 1..];
    YearFieldIsPad4(s[..4]);
    SplitAtDashes(s, j);
    assert IsMonthSpelling(mt, d.month) && IsDaySpelling(dt, d.day);
  }

  /** Every spelling of a calendar date is accepted and denotes that date. */
  lemma SpelledDateParses(s: string, d: Date, mt: string, dt: string)
    requires IsCalendarDate(d) && IsMonthSpelling(mt, d.month) && IsDaySpelling(dt, d.day)
    requires s == Pad4(d.year) + "-" + mt + "-" + dt
    ensures ParseDate(s) == Some(d)
  {
    JoinedParts(Pad4(d.year), mt, dt);
    var rest := s[5..];
    assert AllDigits(mt);
    FirstIndexIs(rest, IsDash, |mt|);
    YearFieldOfPad4(d.year);
  }

  /** The parser returns `d` exactly when `d` is a calendar date and `s` spells it. */
  lemma ParseDateExact(s: string, d: Date)
    ensures ParseDate(s) == Some(d) <==> IsCalendarDate(d) && SpellsDate(s, d)
  {
    if ParseDate(s) == Some(d) {
      ParsedDateIsSpelled(s);
    }
    if IsCalendarDate(d) && SpellsDate(s, d) {
      var mt, dt :| IsMonthSpelling(mt, d.month) && IsDaySpelling(dt, d.day) && s == Pad4(d.year) + "-" + mt + "-" + dt;
      SpelledDateParses(s, d, mt, dt);
    }
  }

  /** `validate_date`: True exactly when the text spells a calendar date; it answers for every text and never fails. */
  predicate ValidDate(s: string): (ok: bool)
    ensures ok <==> exists d :: IsCalendarDate(d) && SpellsDate(s, d)
  {
    if ParseDate(s).Some? then
      ParseDateExact(s, ParseDate(s).value);
      true
    else
      assert forall d :: !(IsCalendarDate(d) && SpellsDate(s, d)) by {
        forall d | IsCalendarDate(d) && SpellsDate(s, d)
          ensures false
        {
          ParseDateExact(s, d);
        }
      }
      false
  }

  /** The due date used by the tracker's own tests is valid. */
  lemma SampleDueDateAccepted()
    ensures ParseDate("2024-12-31") == Some(Date(2024, 12, 31))
  {
    var s := "2024-12-31";
    assert s[..4] == "2024";
    assert YearField(s[..4]) == Some(2024);
    assert s[5..] == "12-31";
    FirstIndexIs(s[5..], IsDash, 2);
    assert s[5..][..2] == "12" && s[5..][3..] == "31";
  }

  /** February 29 of a leap year is valid. */
  lemma LeapDayAccepted()
    ensures ParseDate("2024-02-29") == Some(Date(2024, 2, 29))
  {
    var s := "2024-02-29";
    assert s[..4] == "2024";
    assert YearField(s[..4]) == Some(2024);
    assert s[5..] == "02-29";
    FirstIndexIs(s[5..], IsDash, 2);
    assert s[5..][..2] == "02" && s[5..][3..] == "29";
  }

  /** April has 30 days: its 31st is rejected. */
  lemma AprilThirtyFirstRejected()
    ensures !ValidDate("2024-04-31")
  {
    var s := "2024-04-31";
    assert s[..4] == "2024";
    assert YearField(s[..4]) == Some(2024);
    assert s[5..] == "04-31";
    FirstIndexIs(s[5..], IsDash, 2);
    assert s[5..][..2] == "04" && s[5..][3..] == "31";
  }

  /** Months and days need not be zero-padded. */
  lemma UnpaddedDateAccepted()
    ensures ParseDate("2024-1-5") == Some(Date(2024, 1, 5))
  {
    var s := "2024-1-5";
    assert s[..4] == "2024";
    assert YearField(s[..4]) == Some(2024);
    assert s[5..] == "1-5";
    assert FirstIndex(s[5..], IsDash) == Some(1);
    assert s[5..][..1] == "1" && s[5..][2..] == "5";
  }

  /** A month past 12 is rejected. */
  lemma MonthThirteenRejected(year: string, day: string)
    ensures !ValidDate(year + "-13-" + day)
  {
    var s := year + "-13-" + day;
    if |year| == 4 {
      assert s[4] == '-';
      assert s[5..] == "13-" + day;
      FirstIndexIs(s[5..], IsDash, 2);
      assert s[5..][..2] == "13";
    }
  }

  /** February 29 of a common year is rejected. */
  lemma CommonYearLeapDayRejected()
    ensures !ValidDate("2023-02-29")
  {
    var feb := "2023-02-29";
    assert feb[..4] == "2023";
    assert YearField(feb[..4]) == Some(2023);
    assert feb[5..] == "02-29";
    FirstIndexIs(feb[5..], IsDash, 2);
    assert feb[5..][..2] == "02" && feb[5..][3..] == "29";
  }

  /** Every accepted date text ends with a digit of the day. */
  lemma AcceptedEndsWithDigit(s: string)
    requires ValidDate(s)
    ensures |s| > 0 && IsAsciiDigit(s[|s| - 1])
  {
    var d :| IsCalendarDate(d) && SpellsDate(s, d);
    var mt, dt :| IsMonthSpelling(mt, d.month) && IsDaySpelling(dt, d.day) && s == Pad4(d.year) + "-" + mt + "-" + dt;
    assert s[|s| - 1] == dt[|dt| - 1];
  }

  /**
   * Anything after the day that is not a digit, a newline included, is
   * rejected: the whole text must be consumed.
   */
  lemma TrailingTextRejected(s: string, c: char)
    requires !IsAsciiDigit(c)
    ensures !ValidDate(s + [c])
  {
    if ValidDate(s + [c]) {
      AcceptedEndsWithDigit(s + [c]);
    }
  }

  // ----- validate_status and validate_complete_task -----

  /** `validate_status`: one of the three statuses, spelled exactly. */
  predicate ValidStatus(status: string): (ok: bool)
    ensures ok <==> status == "todo" || status == "in-progress" || status == "done"
  {
    status in {"todo", "in-progress", "done"}
  }

  lemma StatusExamples()
    ensures ValidStatus("todo") && ValidStatus("in-progress") && ValidStatus("done")
    ensures !ValidStatus("completed") && !ValidStatus("in_progress") && !ValidStatus("Done") && !ValidStatus("")
  {
  }

  /** `validate_complete_task`: the task is marked done, which is one of the valid statuses. */
  predicate IsCompleteTask(t: Models.Task): (ok: bool)
    ensures ok ==> ValidStatus(t.status)
  {
    t.status == "done"
  }
}
