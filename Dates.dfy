/**
  `standardiseDateToISO_secure`: a date written day/month/year, month/day/year or
  year-month-day is rewritten as year-month-day with a two-digit month and day; input it
  cannot read comes back unchanged. The fields are read with `std::stoi`, modelled here
  with its leading blanks, optional sign, trailing junk and 32-bit range.
*/
module Dates {
  import opened Wrappers
  import opened Streams
  import opened Cells
  import opened Tokeniser

  // ---------------------------------------------------------------------------
  // std::stoi
  // ---------------------------------------------------------------------------

  const IntMin := -0x8000_0000
  const IntMax := 0x7FFF_FFFF
  const NoConversion := "stoi: no conversion"
  const OutOfRange := "stoi: out of range"

  /** `isspace` in the C locale: space, tab, newline, vertical tab, form feed, carriage return. */
  predicate IsSpace(c: char)
  {
    c == ' ' || 9 <= c as int <= 13
  }

  function SpacePrefix(s: string): (n: nat)
    ensures n <= |s|
  {
    if s == [] || !IsSpace(s[0]) then 0 else 1 + SpacePrefix(s[1..])
  }

  function DigitPrefix(s: string): (n: nat)
    ensures n <= |s|
  {
    if s == [] || !IsDigit(s[0]) then 0 else 1 + DigitPrefix(s[1..])
  }

  /**
    `std::stoi`: blanks are skipped, a '+' or '-' is read, then the longest run of digits;
    anything after it is ignored. No digit at all, or a value outside the 32-bit range,
    throws.
  */
  function Stoi(s: string): (r: Result<int>)
    ensures r.Success? ==> IntMin <= r.value <= IntMax
  {
    var t := s[SpacePrefix(s)..];
    var body := t[SignLength(t)..];
    var n := DigitPrefix(body);
    if n == 0 then Failure(NoConversion)
    else
      var magnitude: int := DigitsValue(body[..n]);
      var v := if t[0] == '-' then -magnitude else magnitude;
      if v < IntMin || IntMax < v then Failure(OutOfRange) else Success(v)
  }

  lemma {:induction false} DigitsValueLeadingZero(p: string)
    ensures DigitsValue("0" + p) == DigitsValue(p)
    decreases |p|
  {
    if p != [] {
      DigitsValueLeadingZero(p[..|p| - 1]);
      assert ("0" + p)[..|"0" + p| - 1] == "0" + p[..|p| - 1];
    } else {
      assert "0" + p == "0";
      assert "0"[..0] == [];
    }
  }

  /** A leading '0' in front of a digit changes nothing that `stoi` reads. */
  lemma StoiLeadingZero(x: string)
    requires x != [] && IsDigit(x[0])
    ensures Stoi("0" + x) == Stoi(x)
  {
    var z := "0" + x;
    assert SpacePrefix(z) == 0 && SpacePrefix(x) == 0;
    assert z[0..] == z && x[0..] == x;
    assert SignLength(z) == 0 && SignLength(x) == 0;
    var n := DigitPrefix(x);
    assert z[1..] == x;
    assert DigitPrefix(z) == 1 + n;
    assert z[..1 + n] == "0" + x[..n];
    DigitsValueLeadingZero(x[..n]);
  }

  /** What a field `stoi` accepts in a single character is one digit. */
  lemma StoiSingle(x: string)
    requires |x| == 1 && Stoi(x).Success?
    ensures IsDigit(x[0])
  {
  }

  // ---------------------------------------------------------------------------
  // The rewrite
  // ---------------------------------------------------------------------------

  /** The separator the date is split on: '-' when present, else '.' when present, else '/'. */
  function DateSeparator(s: string): char
  {
    if '-' in s then '-' else if '.' in s then '.' else '/'
  }

  /** A one-character field gets a leading '0'. */
  function Pad(field: string): (r: string)
    ensures |field| == 1 ==> r == "0" + field
    ensures |field| != 1 ==> r == field
  {
    if |field| == 1 then "0" + field else field
  }

  /**
    The `try` block and the assembly: all three fields must convert, the day must lie in
    1..31 and the month in 1..12; otherwise the input `s` comes back.
  */
  function Assemble(s: string, year: string, month: string, day: string): string
  {
    var d, m, y := Stoi(day), Stoi(month), Stoi(year);
    if d.Failure? || m.Failure? || y.Failure? then s
    else if d.value < 1 || d.value > 31 || m.value < 1 || m.value > 12 then s
    else year + "-" + Pad(month) + "-" + Pad(day)
  }

  /**
    `standardiseDateToISO_secure`. With a 4-character first field the order is year,
    month, day. With a 4-character last field the first field is read by `stoi`: above 12
    it is the day; otherwise the second field is read, and above 12 it is the day;
    otherwise the first field is the day. These two reads sit outside the `try`, so a
    field they cannot convert makes the call throw.
  */
  function DateToISO(s: string): Result<string>
  {
    if |s| < 6 then Success(s)
    else
      var parts := Getlines(s, DateSeparator(s));
      if |parts| != 3 then Success(s)
      else if |parts[0]| == 4 then Success(Assemble(s, parts[0], parts[1], parts[2]))
      else if |parts[2]| == 4 then
        match Stoi(parts[0])
        case Failure(e) => Failure(e)
        case Success(first) =>
          if first > 12 then Success(Assemble(s, parts[2], parts[1], parts[0]))
          else
            match Stoi(parts[1])
            case Failure(e) => Failure(e)
            case Success(second) =>
              if second > 12 then Success(Assemble(s, parts[2], parts[0], parts[1]))
              else Success(Assemble(s, parts[2], parts[1], parts[0]))
      else Success(s)
  }

  /** `standardiseDateToISO_secure`: choose the separator, collect the parts with getline, order and check the fields. */
  method StandardiseDateToISO(str: string) returns (r: Result<string>)
    ensures r == DateToISO(str)
  {
    if |str| < 6 {
      return Success(str);
    }
    var sep := '/';
    IndexOfSpec(str, '-');
    IndexOfSpec(str, '.');
    if IndexOf(str, '-') < |str| {
      sep := '-';
    } else if IndexOf(str, '.') < |str| {
      sep := '.';
    }
    assert sep == DateSeparator(str);
    var parts := SplitParts(str, sep);
    if |parts| != 3 {
      return Success(str);
    }
    var year, month, day;
    if |parts[0]| == 4 {
      year, month, day := parts[0], parts[1], parts[2];
    } else if |parts[2]| == 4 {
      var first := Stoi(parts[0]);
      if first.Failure? {
        return Failure(first.message);
      }
      if first.value > 12 {
        day, month, year := parts[0], parts[1], parts[2];
      } else {
        var second := Stoi(parts[1]);
        if second.Failure? {
          return Failure(second.message);
        }
        if second.value > 12 {
          month, day, year := parts[0], parts[1], parts[2];
        } else {
          day, month, year := parts[0], parts[1], parts[2];
        }
      }
    } else {
      return Success(str);
    }
    var out := AssembleFields(str, year, month, day);
    return Success(out);
  }

  /** The getline loop that pushes each part. */
  method SplitParts(str: string, sep: char) returns (parts: seq<string>)
    ensures parts == Getlines(str, sep)
  {
    parts := [];
    var pos := 0;
    assert str[pos..] == str;
    while pos < |str|
      invariant 0 <= pos <= |str|
      invariant parts + Getlines(str[pos..], sep) == Getlines(str, sep)
      decreases |str| - pos
    {
      var part, next := Getline(str, pos, sep);
      parts := parts + [part];
      pos := next;
    }
    assert str[pos..] == [];
  }

  /** The `try` block, the range check and the zero padding. */
  method AssembleFields(str: string, year: string, month: string, day: string) returns (out: string)
    ensures out == Assemble(str, year, month, day)
  {
    var dayInt, monthInt, yearInt := Stoi(day), Stoi(month), Stoi(year);
    if dayInt.Failure? || monthInt.Failure? || yearInt.Failure? {
      return str;
    }
    if dayInt.value < 1 || dayInt.value > 31 || monthInt.value < 1 || monthInt.value > 12 {
      return str;
    }
    var m, d := month, day;
    if |m| == 1 {
      m := "0" + m;
    }
    if |d| == 1 {
      d := "0" + d;
    }
    return year + "-" + m + "-" + d;
  }

  // ---------------------------------------------------------------------------
  // Properties
  // ---------------------------------------------------------------------------

  /**
    `o` is `year-month-day` with a 4-character year, a month and a day of at least two
    characters, none holding '-', and fields that convert with the month in 1..12 and the
    day in 1..31.
  */
  ghost predicate IsoFields(o: string, year: string, month: string, day: string)
  {
    && o == year + "-" + month + "-" + day
    && |year| == 4 && |month| >= 2 && |day| >= 2
    && '-' !in year && '-' !in month && '-' !in day
    && Stoi(year).Success?
    && Stoi(month).Success? && 1 <= Stoi(month).value <= 12
    && Stoi(day).Success? && 1 <= Stoi(day).value <= 31
  }

  ghost predicate IsoDate(o: string)
  {
    exists year, month, day :: IsoFields(o, year, month, day)
  }

  /** Padding keeps the value `stoi` reads from a field it accepts. */
  lemma PadKeepsValue(field: string)
    requires Stoi(field).Success?
    ensures Stoi(Pad(field)) == Stoi(field)
    ensures |Pad(field)| >= 2 || |field| >= 2
    ensures |Pad(field)| >= 2
  {
    if |field| == 1 {
      StoiSingle(field);
      StoiLeadingZero(field);
    }
  }

  /** A field that does not convert, or a month or day out of range, gives the input back. */
  lemma AssembleFails(s: string, year: string, month: string, day: string)
    requires !(Stoi(day).Success? && Stoi(month).Success? && Stoi(year).Success?
               && 1 <= Stoi(day).value <= 31 && 1 <= Stoi(month).value <= 12)
    ensures Assemble(s, year, month, day) == s
  {
  }

  /** The assembly returns its input or an ISO-shaped date. */
  lemma AssembleShape(s: string, year: string, month: string, day: string)
    requires |year| == 4 && '-' !in year && '-' !in month && '-' !in day
    ensures Assemble(s, year, month, day) == s || IsoFields(Assemble(s, year, month, day), year, Pad(month), Pad(day))
  {
    var d, m, y := Stoi(day), Stoi(month), Stoi(year);
    if d.Success? && m.Success? && y.Success? && 1 <= d.value <= 31 && 1 <= m.value <= 12 {
      AssembleConverted(s, year, month, day, y.value, m.value, d.value);
      PadKeepsValue(month);
      PadKeepsValue(day);
      assert '-' !in Pad(month) && '-' !in Pad(day);
    } else {
      AssembleFails(s, year, month, day);
    }
  }

  /** The parts hold neither the separator nor, when the separator is another character, any '-'. */
  lemma PartsFree(s: string)
    ensures Free(Getlines(s, DateSeparator(s)), '-')
  {
    var sep := DateSeparator(s);
    if sep == '-' {
      GetlinesFree(s, '-');
    } else {
      GetlinesKeepsOut(s, sep, '-');
    }
  }

  /** Every result is the input, a thrown exception, or an ISO-shaped date. */
  lemma DateResultShape(s: string)
    ensures DateToISO(s).Success? ==> DateToISO(s).value == s || IsoDate(DateToISO(s).value)
  {
    if |s| >= 6 {
      var parts := Getlines(s, DateSeparator(s));
      if |parts| == 3 {
        PartsFree(s);
        assert parts[0] in parts && parts[1] in parts && parts[2] in parts;
        if |parts[0]| == 4 {
          AssembleShape(s, parts[0], parts[1], parts[2]);
        } else if |parts[2]| == 4 {
          AssembleShape(s, parts[2], parts[1], parts[0]);
          AssembleShape(s, parts[2], parts[0], parts[1]);
        }
      }
    }
  }

  /** An ISO-shaped date splits on '-' into its three fields. */
  lemma IsoParts(o: string, year: string, month: string, day: string)
    requires o == year + "-" + month + "-" + day
    requires |year| == 4 && |month| >= 2 && |day| >= 2
    requires '-' !in year && '-' !in month && '-' !in day
    ensures DateSeparator(o) == '-' && |o| >= 6
    ensures Getlines(o, '-') == [year, month, day]
  {
    assert o[4] == '-';
    assert o == year + ['-'] + month + ['-'] + day;
    ThreeParts(year, month, day, '-');
  }

  /** An ISO-shaped date is read as year, month, day and comes back unchanged. */
  lemma IsoFixed(o: string, year: string, month: string, day: string)
    requires IsoFields(o, year, month, day)
    ensures DateToISO(o) == Success(o)
  {
    IsoParts(o, year, month, day);
    assert Assemble(o, year, month, day) == o;
  }

  /** The rewrite is idempotent: rewriting its result changes nothing. */
  lemma DateIdempotent(s: string)
    requires DateToISO(s).Success?
    ensures DateToISO(DateToISO(s).value) == DateToISO(s)
  {
    DateResultShape(s);
    var o := DateToISO(s).value;
    if o != s {
      var year, month, day :| IsoFields(o, year, month, day);
      IsoFixed(o, year, month, day);
    }
  }

  /** Three fields `a`, `b`, `c` joined by `sep` are the parts. */
  lemma ThreeParts(a: string, b: string, c: string, sep: char)
    requires sep !in a && sep !in b && sep !in c && c != ""
    ensures Getlines(a + [sep] + b + [sep] + c, sep) == [a, b, c]
  {
    IndexOfFree(c, sep);
    GetlinesStep(b, sep, c);
    GetlinesStep(a, sep, b + [sep] + c);
    assert a + [sep] + b + [sep] + c == a + [sep] + (b + [sep] + c);
  }

  /** A text that starts with a digit: `stoi` reads the value of its leading run of digits. */
  lemma StoiUnsigned(x: string, n: nat, v: int)
    requires x != [] && IsDigit(x[0]) && n == DigitPrefix(x) && v == DigitsValue(x[..n]) && v <= IntMax
    ensures Stoi(x) == Success(v)
  {
    assert SpacePrefix(x) == 0 && SignLength(x) == 0;
    assert x[0..] == x;
  }

  /** Nine digits or fewer stay below 10^9, inside the 32-bit range. */
  lemma NineDigitsBound(x: string)
    requires |x| <= 9
    ensures DigitsValue(x) < 1000000000
  {
    DigitsValueBelow(x);
    Pow10Monotone(|x|, 9);
    assert Pow10(9) == 1000000000;
  }

  /** Up to nine digits read as their value. */
  lemma StoiDigits(x: string)
    requires 1 <= |x| <= 9 && AllDigits(x)
    ensures Stoi(x) == Success(DigitsValue(x))
  {
    DigitRunLength(x);
    assert x[..|x|] == x;
    NineDigitsBound(x);
    StoiUnsigned(x, |x|, DigitsValue(x));
  }

  lemma {:induction false} DigitRunLength(x: string)
    requires AllDigits(x)
    ensures DigitPrefix(x) == |x|
    decreases |x|
  {
    if x != [] {
      DigitRunLength(x[1..]);
    }
  }

  // ---------------------------------------------------------------------------
  // The three field orders
  // ---------------------------------------------------------------------------

  /** Three digit fields joined by one separator split back into those fields on that separator. */
  lemma SplitDate(first: string, second: string, third: string, sep: char)
    requires AllDigits(first) && AllDigits(second) && AllDigits(third)
    requires first != "" && second != "" && third != "" && |first| + |second| + |third| >= 4
    requires sep == '/' || sep == '-' || sep == '.'
    ensures |first + [sep] + second + [sep] + third| >= 6
    ensures DateSeparator(first + [sep] + second + [sep] + third) == sep
    ensures Getlines(first + [sep] + second + [sep] + third, sep) == [first, second, third]
  {
    var s := first + [sep] + second + [sep] + third;
    forall c | c in s && c != sep
      ensures IsDigit(c)
    {
      var i :| 0 <= i < |s| && s[i] == c;
      if i < |first| {
        assert s[i] == first[i];
      } else if i == |first| {
      } else if i < |first| + 1 + |second| {
        assert s[i] == second[i - |first| - 1];
      } else if i == |first| + 1 + |second| {
      } else {
        assert s[i] == third[i - |first| - |second| - 2];
      }
    }
    assert s[|first|] == sep;
    assert sep !in first && sep !in second && sep !in third by {
      assert forall x :: AllDigits(x) ==> sep !in x;
    }
    ThreeParts(first, second, third, sep);
  }

  /** Digit fields in range assemble into year-month-day with the month and day padded. */
  lemma AssembleDigits(s: string, year: string, month: string, day: string)
    requires AllDigits(year) && AllDigits(month) && AllDigits(day)
    requires 1 <= |year| <= 9 && 1 <= |month| <= 9 && 1 <= |day| <= 9
    requires 1 <= DigitsValue(month) <= 12 && 1 <= DigitsValue(day) <= 31
    ensures Assemble(s, year, month, day) == year + "-" + Pad(month) + "-" + Pad(day)
  {
    StoiDigits(year);
    StoiDigits(month);
    StoiDigits(day);
    AssembleConverted(s, year, month, day, DigitsValue(year), DigitsValue(month), DigitsValue(day));
  }

  lemma AssembleConverted(s: string, year: string, month: string, day: string, y: int, m: int, d: int)
    requires Stoi(year) == Success(y) && Stoi(month) == Success(m) && Stoi(day) == Success(d)
    requires 1 <= m <= 12 && 1 <= d <= 31
    ensures Assemble(s, year, month, day) == year + "-" + Pad(month) + "-" + Pad(day)
  {
  }

  /** The branch for a 4-character first field. */
  lemma YearFirstBranch(s: string, a: string, b: string, c: string)
    requires |s| >= 6 && Getlines(s, DateSeparator(s)) == [a, b, c] && |a| == 4
    ensures DateToISO(s) == Success(Assemble(s, a, b, c))
  {
  }

  /** A 4-character last field and a first field above 12: the first field is the day. */
  lemma DayFirstBranch(s: string, a: string, b: string, c: string, first: int)
    requires |s| >= 6 && Getlines(s, DateSeparator(s)) == [a, b, c] && |a| != 4 && |c| == 4
    requires Stoi(a) == Success(first) && first > 12
    ensures DateToISO(s) == Success(Assemble(s, c, b, a))
  {
  }

  /** A 4-character last field, a first field of at most 12 and a second above 12: month first. */
  lemma MonthFirstBranch(s: string, a: string, b: string, c: string, first: int, second: int)
    requires |s| >= 6 && Getlines(s, DateSeparator(s)) == [a, b, c] && |a| != 4 && |c| == 4
    requires Stoi(a) == Success(first) && first <= 12 && Stoi(b) == Success(second) && second > 12
    ensures DateToISO(s) == Success(Assemble(s, c, a, b))
  {
  }

  /** A 4-character last field and both leading fields at most 12: day first. */
  lemma AmbiguousBranch(s: string, a: string, b: string, c: string, first: int, second: int)
    requires |s| >= 6 && Getlines(s, DateSeparator(s)) == [a, b, c] && |a| != 4 && |c| == 4
    requires Stoi(a) == Success(first) && first <= 12 && Stoi(b) == Success(second) && second <= 12
    ensures DateToISO(s) == Success(Assemble(s, c, b, a))
  {
  }

  /** Year first: `year-month-day` (any one separator) with the month and day padded to two digits. */
  lemma YearFirstRule(year: string, month: string, day: string, sep: char)
    requires AllDigits(year) && AllDigits(month) && AllDigits(day)
    requires |year| == 4 && 1 <= |month| <= 2 && 1 <= |day| <= 2
    requires sep == '/' || sep == '-' || sep == '.'
    requires 1 <= DigitsValue(month) <= 12 && 1 <= DigitsValue(day) <= 31
    ensures DateToISO(year + [sep] + month + [sep] + day) == Success(year + "-" + Pad(month) + "-" + Pad(day))
  {
    var s := year + [sep] + month + [sep] + day;
    SplitDate(year, month, day, sep);
    YearFirstBranch(s, year, month, day);
    AssembleDigits(s, year, month, day);
  }

  /** Year last with a first field above 12: that field is the day. */
  lemma DayFirstRule(day: string, month: string, year: string, sep: char)
    requires AllDigits(day) && AllDigits(month) && AllDigits(year)
    requires 1 <= |day| <= 2 && 1 <= |month| <= 2 && |year| == 4
    requires sep == '/' || sep == '-' || sep == '.'
    requires 13 <= DigitsValue(day) <= 31 && 1 <= DigitsValue(month) <= 12
    ensures DateToISO(day + [sep] + month + [sep] + year) == Success(year + "-" + Pad(month) + "-" + Pad(day))
  {
    var s := day + [sep] + month + [sep] + year;
    SplitDate(day, month, year, sep);
    StoiDigits(day);
    DayFirstBranch(s, day, month, year, DigitsValue(day));
    AssembleDigits(s, year, month, day);
  }

  /** Year last, first field at most 12 and second above 12: month first. */
  lemma MonthFirstRule(month: string, day: string, year: string, sep: char)
    requires AllDigits(day) && AllDigits(month) && AllDigits(year)
    requires 1 <= |month| <= 2 && 1 <= |day| <= 2 && |year| == 4
    requires sep == '/' || sep == '-' || sep == '.'
    requires 1 <= DigitsValue(month) <= 12 && 13 <= DigitsValue(day) <= 31
    ensures DateToISO(month + [sep] + day + [sep] + year) == Success(year + "-" + Pad(month) + "-" + Pad(day))
  {
    var s := month + [sep] + day + [sep] + year;
    SplitDate(month, day, year, sep);
    StoiDigits(month);
    StoiDigits(day);
    MonthFirstBranch(s, month, day, year, DigitsValue(month), DigitsValue(day));
    AssembleDigits(s, year, month, day);
  }

  /** Year last and both leading fields at most 12: read as day first. */
  lemma AmbiguousRule(first: string, second: string, year: string, sep: char)
    requires AllDigits(first) && AllDigits(second) && AllDigits(year)
    requires 1 <= |first| <= 2 && 1 <= |second| <= 2 && |year| == 4
    requires sep == '/' || sep == '-' || sep == '.'
    requires 1 <= DigitsValue(first) <= 12 && 1 <= DigitsValue(second) <= 12
    ensures DateToISO(first + [sep] + second + [sep] + year) == Success(year + "-" + Pad(second) + "-" + Pad(first))
  {
    var s := first + [sep] + second + [sep] + year;
    SplitDate(first, second, year, sep);
    StoiDigits(first);
    StoiDigits(second);
    AmbiguousBranch(s, first, second, year, DigitsValue(first), DigitsValue(second));
    AssembleDigits(s, year, second, first);
  }

  /** Year last and a first field that starts with a letter: the `stoi` outside the `try` throws. */
  lemma ThrowRule(first: string, second: string, year: string)
    requires first != "" && 'a' <= first[0] <= 'z' && '/' !in first && '-' !in first && '.' !in first
    requires |first| != 4
    requires AllDigits(second) && AllDigits(year) && second != "" && |year| == 4
    ensures DateToISO(first + "/" + second + "/" + year) == Failure(NoConversion)
  {
    var s := first + "/" + second + "/" + year;
    assert s == first + ['/'] + second + ['/'] + year;
    assert '-' !in s && '.' !in s by {
      assert forall x :: AllDigits(x) ==> '-' !in x && '.' !in x;
    }
    assert '/' !in second && '/' !in year by {
      assert forall x :: AllDigits(x) ==> '/' !in x;
    }
    ThreeParts(first, second, year, '/');
    assert SpacePrefix(first) == 0 && SignLength(first) == 0 && first[0..] == first;
  }

  // ---------------------------------------------------------------------------
  // The reads outside the `try`
  // ---------------------------------------------------------------------------

  /**
    The rewrite with every `stoi` inside the `try`: a text whose leading fields cannot be
    read comes back unchanged, as it does when the later reads fail.
  */
  function CaughtDateToISO(s: string): (r: string)
  {
    match DateToISO(s)
    case Success(o) => o
    case Failure(_) => s
  }

  /** The caught rewrite never throws, agrees with the rewrite wherever that returns, and is idempotent. */
  lemma CaughtDateSpec(s: string)
    ensures DateToISO(s).Success? ==> CaughtDateToISO(s) == DateToISO(s).value
    ensures DateToISO(s).Failure? ==> CaughtDateToISO(s) == s
    ensures CaughtDateToISO(s) == s || IsoDate(CaughtDateToISO(s))
    ensures CaughtDateToISO(CaughtDateToISO(s)) == CaughtDateToISO(s)
  {
    DateResultShape(s);
    if DateToISO(s).Success? {
      DateIdempotent(s);
    }
  }

  /** Where the rewrite throws, the caught rewrite returns the text as it was. */
  lemma CaughtThrowRule(first: string, second: string, year: string)
    requires first != "" && 'a' <= first[0] <= 'z' && '/' !in first && '-' !in first && '.' !in first
    requires |first| != 4
    requires AllDigits(second) && AllDigits(year) && second != "" && |year| == 4
    ensures CaughtDateToISO(first + "/" + second + "/" + year) == first + "/" + second + "/" + year
  {
    ThrowRule(first, second, year);
  }
}
