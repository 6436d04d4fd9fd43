/**
  `standardiseNumberSecure`: the decimal separator is ',' when commas outnumber periods and
  '.' otherwise; the output keeps the digits, writes the first decimal separator as '.',
  and keeps a '-' only while nothing has been written yet. Text that yields nothing comes
  back unchanged.
*/
module Numbers {
  import opened Cells

  /** The decimal separator: ',' when there are more commas than periods. */
  function DecimalSeparator(s: string): (sep: char)
    ensures sep == ',' || sep == '.'
  {
    if CountChar(s, ',') > CountChar(s, '.') then ',' else '.'
  }

  /** The result built so far and the `hasDecimal` flag, after the characters of `s`. */
  function Scan(s: string, sep: char): (string, bool)
  {
    if s == [] then ("", false)
    else
      var prev := Scan(s[..|s| - 1], sep);
      var result, hasDecimal := prev.0, prev.1;
      var c := s[|s| - 1];
      if IsDigit(c) then (result + [c], hasDecimal)
      else if (c == '.' || c == ',') && !hasDecimal then
        if c == sep then (result + ['.'], true) else (result, hasDecimal)
      else if c == '-' && result == [] then (result + [c], hasDecimal)
      else (result, hasDecimal)
  }

  /** What `standardiseNumberSecure` returns. */
  function StandardiseNumber(s: string): string
  {
    if s == [] then s
    else
      var result := Scan(s, DecimalSeparator(s)).0;
      if result == [] then s else result
  }

  /** `standardiseNumberSecure`: count the separators, then build the result character by character. */
  method StandardiseNumberSecure(str: string) returns (out: string)
    ensures out == StandardiseNumber(str)
  {
    if |str| == 0 {
      return str;
    }
    var result := "";
    var hasDecimal := false;
    var commaCount, periodCount := 0, 0;
    for i := 0 to |str|
      invariant commaCount == CountChar(str[..i], ',') && periodCount == CountChar(str[..i], '.')
    {
      assert str[..i + 1][..i] == str[..i];
      if str[i] == ',' {
        commaCount := commaCount + 1;
      } else if str[i] == '.' {
        periodCount := periodCount + 1;
      }
    }
    assert str[..|str|] == str;
    var decimalSep := '.';
    if commaCount > periodCount {
      decimalSep := ',';
    }
    for i := 0 to |str|
      invariant (result, hasDecimal) == Scan(str[..i], decimalSep)
    {
      assert str[..i + 1][..i] == str[..i];
      var c := str[i];
      if '0' <= c <= '9' {
        result := result + [c];
      } else if (c == '.' || c == ',') && !hasDecimal {
        if c == decimalSep {
          result := result + ['.'];
          hasDecimal := true;
        }
      } else if c == '-' && result == [] {
        result := result + [c];
      }
    }
    assert str[..|str|] == str;
    return if result == [] then str else result;
  }

  // ---------------------------------------------------------------------------
  // Properties
  // ---------------------------------------------------------------------------

  /** A plain number: digits, at most one '.', and a '-' only at the front. */
  predicate Plain(r: string)
  {
    && (forall i :: 0 <= i < |r| ==> IsDigit(r[i]) || r[i] == '.' || (r[i] == '-' && i == 0))
    && CountChar(r, '.') <= 1
  }

  /** The digits of `s`, in order. */
  function Digits(s: string): (d: string)
    ensures |d| <= |s|
  {
    if s == [] then [] else Digits(s[..|s| - 1]) + (if IsDigit(s[|s| - 1]) then [s[|s| - 1]] else [])
  }

  /** Appending one character: how the counts and the digits change. */
  lemma Snoc(r: string, c: char)
    ensures (r + [c])[..|r|] == r
    ensures CountChar(r + [c], '.') == CountChar(r, '.') + (if c == '.' then 1 else 0)
    ensures Digits(r + [c]) == Digits(r) + (if IsDigit(c) then [c] else [])
  {
    assert (r + [c])[..|r|] == r;
  }

  /** A plain number stays plain when a digit, a first '.', or a leading '-' is appended. */
  lemma PlainSnoc(r: string, c: char)
    requires Plain(r)
    requires IsDigit(c) || (c == '.' && '.' !in r) || (c == '-' && r == [])
    ensures Plain(r + [c])
  {
    Snoc(r, c);
    CountCharZero(r, '.');
  }

  /**
    What the scan keeps: a plain number with the same digits as the input, whose flag
    says that a '.' was written, which happens exactly when the separator occurs.
  */
  lemma {:induction false} ScanSpec(s: string, sep: char)
    requires sep == ',' || sep == '.'
    ensures Plain(Scan(s, sep).0)
    ensures Scan(s, sep).1 <==> '.' in Scan(s, sep).0
    ensures Scan(s, sep).1 <==> sep in s
    ensures Digits(Scan(s, sep).0) == Digits(s)
    decreases |s|
  {
    if s != [] {
      var init := s[..|s| - 1];
      var c := s[|s| - 1];
      ScanSpec(init, sep);
      var (r, h) := Scan(init, sep);
      assert s == init + [c];
      Snoc(init, c);
      assert sep in s <==> sep in init || c == sep;
      if IsDigit(c) {
        PlainSnoc(r, c);
        Snoc(r, c);
      } else if (c == '.' || c == ',') && !h {
        if c == sep {
          PlainSnoc(r, '.');
          Snoc(r, '.');
        }
      } else if c == '-' && r == [] {
        PlainSnoc(r, c);
        Snoc(r, c);
      }
    }
  }

  /** When the output differs from the input it is a plain number: no ',', at most one '.', a '-' only at index 0. */
  lemma NumberShape(s: string)
    ensures StandardiseNumber(s) != s ==> Plain(StandardiseNumber(s)) && ',' !in StandardiseNumber(s)
    ensures Digits(StandardiseNumber(s)) == Digits(s)
  {
    if s != [] {
      ScanSpec(s, DecimalSeparator(s));
    }
  }

  /** The decimal point is written exactly when the input holds its decimal separator. */
  lemma DecimalPointRule(s: string)
    requires Scan(s, DecimalSeparator(s)).0 != []
    ensures '.' in StandardiseNumber(s) <==> DecimalSeparator(s) in s
    ensures DecimalSeparator(s) == ',' <==> CountChar(s, ',') > CountChar(s, '.')
  {
    ScanSpec(s, DecimalSeparator(s));
  }

  /** A plain number scans to itself with '.' as separator. */
  lemma {:induction false} ScanPlain(r: string)
    requires Plain(r)
    ensures Scan(r, '.').0 == r
    decreases |r|
  {
    if r != [] {
      var init, c := r[..|r| - 1], r[|r| - 1];
      assert r == init + [c];
      assert Plain(init) by {
        CountCharPrefix(r, '.', |r| - 1);
      }
      ScanPlain(init);
      assert Scan(init, '.').1 <==> '.' in init by {
        ScanSpec(init, '.');
      }
      if c == '.' {
        assert '.' !in init by {
          Snoc(init, c);
          CountCharZero(init, '.');
        }
      } else if c == '-' {
        assert |r| == 1;
      }
    }
  }

  /** The rewrite is idempotent. */
  lemma NumberIdempotent(s: string)
    ensures StandardiseNumber(StandardiseNumber(s)) == StandardiseNumber(s)
  {
    var out := StandardiseNumber(s);
    if out != s {
      NumberShape(s);
      CountCharZero(out, ',');
      assert DecimalSeparator(out) == '.';
      ScanPlain(out);
    }
  }

  lemma {:induction false} CountCharConcat(a: string, b: string, c: char)
    ensures CountChar(a + b, c) == CountChar(a, c) + CountChar(b, c)
    decreases |b|
  {
    if b != [] {
      var b' := b[..|b| - 1];
      assert (a + b)[..|a + b| - 1] == a + b';
      CountCharConcat(a, b', c);
    } else {
      assert a + b == a;
    }
  }

  /** Digits are copied through whatever was scanned before them. */
  lemma {:induction false} ScanDigits(p: string, d: string, sep: char)
    requires AllDigits(d)
    ensures Scan(p + d, sep) == (Scan(p, sep).0 + d, Scan(p, sep).1)
    decreases |d|
  {
    if d == [] {
      assert p + d == p;
      assert Scan(p, sep).0 + d == Scan(p, sep).0;
    } else {
      var d' := d[..|d| - 1];
      assert (p + d)[..|p + d| - 1] == p + d';
      ScanDigits(p, d', sep);
      assert Scan(p, sep).0 + d' + [d[|d| - 1]] == Scan(p, sep).0 + d;
    }
  }

  /**
    A run of digits, one separator and a run of digits: the separator becomes '.',
    whether it is ',' or '.', since it is the only one and so the majority.
  */
  lemma DecimalRule(a: string, b: string, sep: char)
    requires AllDigits(a) && AllDigits(b)
    requires sep == ',' || sep == '.'
    ensures StandardiseNumber(a + [sep] + b) == a + "." + b
  {
    var s := a + [sep] + b;
    CountCharZero(a, ','); CountCharZero(a, '.');
    CountCharZero(b, ','); CountCharZero(b, '.');
    CountCharConcat(a + [sep], b, ','); CountCharConcat(a + [sep], b, '.');
    Snoc(a, sep);
    assert CountChar(a + [sep], ',') == CountChar(a, ',') + (if sep == ',' then 1 else 0) by {
      assert (a + [sep])[..|a|] == a;
    }
    assert DecimalSeparator(s) == sep;
    ScanDigits([], a, sep);
    assert [] + a == a;
    assert (a + [sep])[..|a + [sep]| - 1] == a;
    assert Scan(a + [sep], sep) == (a + ".", true);
    ScanDigits(a + [sep], b, sep);
  }

  /** With one '.' and one ',' the counts tie, so '.' is the mark and the later ',' is dropped: `a.b,c` becomes `a.bc`. */
  lemma MixedMarksRule(a: string, b: string, c: string)
    requires AllDigits(a) && AllDigits(b) && AllDigits(c)
    ensures StandardiseNumber(a + ['.'] + b + [','] + c) == a + "." + b + c
  {
    var p1 := a + ['.'];
    var p2 := p1 + b;
    var p3 := p2 + [','];
    var s := p3 + c;
    CountCharZero(a, ','); CountCharZero(a, '.');
    CountCharZero(b, ','); CountCharZero(b, '.');
    CountCharZero(c, ','); CountCharZero(c, '.');
    MarkCounts(a, '.');
    CountCharConcat(p1, b, ','); CountCharConcat(p1, b, '.');
    MarkCounts(p2, ',');
    CountCharConcat(p3, c, ','); CountCharConcat(p3, c, '.');
    assert DecimalSeparator(s) == '.';
    ScanDigits([], a, '.');
    assert [] + a == a;
    assert p1[..|p1| - 1] == a;
    assert Scan(p1, '.') == (a + ".", true);
    ScanDigits(p1, b, '.');
    assert p3[..|p3| - 1] == p2;
    assert Scan(p3, '.') == (a + "." + b, true);
    ScanDigits(p3, c, '.');
  }

  /** Appending one mark adds one to its count and none to the other mark's. */
  lemma MarkCounts(r: string, m: char)
    requires m == '.' || m == ','
    ensures CountChar(r + [m], m) == CountChar(r, m) + 1
    ensures CountChar(r + [m], if m == '.' then ',' else '.') == CountChar(r, if m == '.' then ',' else '.')
  {
    assert (r + [m])[..|r|] == r;
  }

  lemma LeadingMinus(m: string, sep: char)
    requires |m| == 1 && m[0] == '-'
    ensures Scan(m, sep) == (m, false)
  {
    assert m[..|m| - 1] == [];
    assert Scan([], sep).0 + [m[0]] == m;
  }

  /** A '-' ahead of a number is kept, a '-' anywhere later is dropped. */
  lemma MinusRule(a: string, b: string)
    requires AllDigits(a) && AllDigits(b) && a != []
    ensures StandardiseNumber("-" + a + "-" + b) == "-" + a + b
  {
    var s := "-" + a + "-" + b;
    CountCharZero(a, ','); CountCharZero(a, '.');
    CountCharZero(b, ','); CountCharZero(b, '.');
    CountCharZero(s, ','); CountCharZero(s, '.');
    assert DecimalSeparator(s) == '.';
    var sep := '.';
    LeadingMinus("-", sep);
    ScanDigits("-", a, sep);
    assert ("-" + a + "-")[..|"-" + a + "-"| - 1] == "-" + a;
    assert Scan("-" + a + "-", sep) == ("-" + a, false);
    ScanDigits("-" + a + "-", b, sep);
  }
}
