/** The JavaScript string and array operations the cron builder relies on:
    `Array.prototype.join` and `String.prototype.split` with a one-character
    separator, and the two string-to-number conversions (`parseInt` and the
    `ToNumber` coercion used by `<` and `>` between a string and a number). */
module Strings {
  import opened Outcomes

  /** `parts.join(sep)`: the parts with one separator between neighbours. */
  function Join(parts: seq<string>, sep: char): string
  {
    if |parts| == 0 then ""
    else if |parts| == 1 then parts[0]
    else parts[0] + [sep] + Join(parts[1..], sep)
  }

  /** No string of a list contains the character `c`. */
  predicate FreeOf(list: seq<string>, c: char)
  {
    forall i :: 0 <= i < |list| ==> c !in list[i]
  }

  /** `s.split(sep)`: the maximal separator-free pieces, in order. */
  function Split(s: string, sep: char): (parts: seq<string>)
    ensures |parts| >= 1
    ensures sep in s <==> |parts| >= 2
    decreases |s|
  {
    if |s| == 0 then [""]
    else
      var rest := Split(s[1..], sep);
      assert s == [s[0]] + s[1..];
      if s[0] == sep then [""] + rest
      else [[s[0]] + rest[0]] + rest[1..]
  }

  /** Split's result is characterised completely by two facts: the pieces
      contain no separator, and joining them gives `s` back. */
  lemma SplitSound(s: string, sep: char)
    ensures forall i :: 0 <= i < |Split(s, sep)| ==> sep !in Split(s, sep)[i]
    ensures Join(Split(s, sep), sep) == s
  {
    SplitPiecesFree(s, sep);
    SplitJoinsBack(s, sep);
  }

  lemma {:induction false} SplitPiecesFree(s: string, sep: char)
    ensures forall i :: 0 <= i < |Split(s, sep)| ==> sep !in Split(s, sep)[i]
    decreases |s|
  {
    if |s| > 0 {
      SplitPiecesFree(s[1..], sep);
      SplitUnfold(s, sep);
    }
  }

  lemma {:induction false} SplitJoinsBack(s: string, sep: char)
    ensures Join(Split(s, sep), sep) == s
    decreases |s|
  {
    if |s| > 0 {
      SplitJoinsBack(s[1..], sep);
      if s[0] == sep {
        JoinBackAtSeparator(s, sep);
      } else {
        JoinBackAtOther(s, sep);
      }
    }
  }

  /** The join-back step when the string starts with the separator. */
  lemma {:induction false} JoinBackAtSeparator(s: string, sep: char)
    requires |s| > 0 && s[0] == sep
    requires Join(Split(s[1..], sep), sep) == s[1..]
    ensures Join(Split(s, sep), sep) == s
  {
    SplitUnfold(s, sep);
    assert Join(Split(s, sep), sep) == "" + [sep] + Join(Split(s[1..], sep), sep);
    assert s == [s[0]] + s[1..];
  }

  /** The join-back step when the string starts with another character. */
  lemma {:induction false} JoinBackAtOther(s: string, sep: char)
    requires |s| > 0 && s[0] != sep
    requires Join(Split(s[1..], sep), sep) == s[1..]
    ensures Join(Split(s, sep), sep) == s
  {
    SplitUnfold(s, sep);
    var rest := Split(s[1..], sep);
    assert s == [s[0]] + s[1..];
    if |rest| == 1 {
      assert Split(s, sep) == [[s[0]] + rest[0]];
    } else {
      assert Join(rest, sep) == rest[0] + [sep] + Join(rest[1..], sep);
      assert Split(s, sep)[1..] == rest[1..];
    }
  }

  /** Split of a non-empty string, in terms of the split of its tail. */
  lemma SplitUnfold(s: string, sep: char)
    requires |s| > 0
    ensures s[0] == sep ==> Split(s, sep) == [""] + Split(s[1..], sep)
    ensures s[0] != sep ==> Split(s, sep) == [[s[0]] + Split(s[1..], sep)[0]] + Split(s[1..], sep)[1..]
  {
  }

  /** A separator-free prefix followed by a separator is the first piece. */
  lemma {:induction false} SplitAfterFreePrefix(x: string, y: string, sep: char)
    requires sep !in x
    ensures Split(x + [sep] + y, sep) == [x] + Split(y, sep)
    decreases |x|
  {
    var s := x + [sep] + y;
    SplitUnfold(s, sep);
    if |x| == 0 {
      assert s[1..] == y;
    } else {
      assert s[1..] == x[1..] + [sep] + y;
      SplitAfterFreePrefix(x[1..], y, sep);
      assert x == [x[0]] + x[1..];
    }
  }

  /** Two adjacent separators leave an empty piece after the first piece. */
  lemma {:induction false} AdjacentSeparators(s: string, k: nat, sep: char)
    requires k + 1 < |s| && s[k] == sep && s[k + 1] == sep
    ensures exists j :: 1 <= j < |Split(s, sep)| && Split(s, sep)[j] == ""
    decreases k
  {
    SplitUnfold(s, sep);
    var rest := Split(s[1..], sep);
    if k == 0 {
      SplitUnfold(s[1..], sep);
      assert rest[0] == "";
      assert Split(s, sep)[1] == "";
    } else {
      AdjacentSeparators(s[1..], k - 1, sep);
      var j :| 1 <= j < |rest| && rest[j] == "";
      if s[0] == sep {
        assert Split(s, sep)[j + 1] == "";
      } else {
        assert Split(s, sep)[j] == rest[1..][j - 1];
      }
    }
  }

  /** Splitting the join of separator-free pieces gives the pieces back. */
  lemma {:induction false} SplitJoin(parts: seq<string>, sep: char)
    requires |parts| >= 1
    requires forall i :: 0 <= i < |parts| ==> sep !in parts[i]
    ensures Split(Join(parts, sep), sep) == parts
    decreases |parts|
  {
    if |parts| == 1 {
      SplitOfFree(parts[0], sep);
    } else {
      SplitJoin(parts[1..], sep);
      SplitAfterFreePrefix(parts[0], Join(parts[1..], sep), sep);
      assert parts == [parts[0]] + parts[1..];
    }
  }

  /** A separator-free string splits into itself alone. */
  lemma SplitOfFree(s: string, sep: char)
    requires sep !in s
    ensures Split(s, sep) == [s]
  {
    SplitSound(s, sep);
  }

  /** Joining pieces free of a character with a different separator leaves
      the result free of that character. */
  lemma {:induction false} JoinAvoids(parts: seq<string>, sep: char, c: char)
    requires c != sep
    requires forall i :: 0 <= i < |parts| ==> c !in parts[i]
    ensures c !in Join(parts, sep)
    decreases |parts|
  {
    if |parts| > 1 {
      JoinAvoids(parts[1..], sep, c);
    }
  }

  /** A non-empty join starts with the first piece. */
  lemma JoinStartsWithFirst(parts: seq<string>, sep: char)
    requires |parts| >= 1
    ensures parts[0] <= Join(parts, sep)
  {
  }

  predicate IsDigit(c: char)
  {
    '0' <= c <= '9'
  }

  predicate AllDigits(s: string)
  {
    forall i :: 0 <= i < |s| ==> IsDigit(s[i])
  }

  /** Decimal value of a string of digits. */
  function DigitsValue(d: string): nat
    requires AllDigits(d)
    decreases |d|
  {
    if |d| == 0 then 0
    else DigitsValue(d[..|d| - 1]) * 10 + ((d[|d| - 1] as int) - ('0' as int))
  }

  /** Canonical decimal spelling of a natural number (no leading zeros). */
  function Decimal(n: nat): (d: string)
    ensures |d| >= 1 && AllDigits(d)
    decreases n
  {
    if n < 10 then [(('0' as int) + n) as char]
    else Decimal(n / 10) + [(('0' as int) + n % 10) as char]
  }

  /** Reading back a decimal spelling gives the number. */
  lemma {:induction false} DecimalValue(n: nat)
    ensures DigitsValue(Decimal(n)) == n
    decreases n
  {
    if n >= 10 {
      var d := Decimal(n);
      assert d[..|d| - 1] == Decimal(n / 10);
      DecimalValue(n / 10);
    }
  }

  /** The longest prefix of `s` made of digits. */
  function LeadingDigits(s: string): (d: string)
    ensures d <= s && AllDigits(d)
    ensures |d| < |s| ==> !IsDigit(s[|d|])
    decreases |s|
  {
    if |s| > 0 && IsDigit(s[0]) then [s[0]] + LeadingDigits(s[1..]) else ""
  }

  /** `parseInt(s)` over the alphabet 0-9 * - , : an optional leading minus
      sign and then the value of the digit run that follows, or None (NaN)
      when no digit follows the optional sign. "-0" reads as 0, which
      compares like JavaScript's -0. */
  function ParseInt(s: string): (r: Option<int>)
    ensures r.Some? <==> (|s| > 0 && IsDigit(s[0])) || (|s| > 1 && s[0] == '-' && IsDigit(s[1]))
    ensures r.Some? && |s| > 0 && s[0] == '-' ==> r.value <= 0
    ensures r.Some? && |s| > 0 && s[0] != '-' ==> r.value >= 0
  {
    if |s| > 0 && s[0] == '-' then
      var d := LeadingDigits(s[1..]);
      if d == "" then None else Some(-(DigitsValue(d) as int))
    else
      var d := LeadingDigits(s);
      if d == "" then None else Some(DigitsValue(d))
  }

  /** parseInt of a decimal spelling, with or without a minus sign, followed
      by anything that does not start with a digit, is that number. */
  lemma ParseIntOfDecimal(n: nat, t: string)
    requires |t| == 0 || !IsDigit(t[0])
    ensures ParseInt(Decimal(n) + t) == Some(n)
    ensures ParseInt("-" + Decimal(n) + t) == Some(-(n as int))
  {
    var d := Decimal(n);
    ParseIntStopsAtNonDigit(d, t);
    DecimalValue(n);
    assert (d + t)[0] == d[0];
    assert ("-" + d + t)[1..] == d + t;
  }

  /** parseInt of a non-empty prefix followed by text that does not start
      with a digit is parseInt of the prefix. */
  lemma ParseIntOfPrefix(x: string, y: string)
    requires |x| > 0
    requires |y| == 0 || !IsDigit(y[0])
    ensures ParseInt(x + y) == ParseInt(x)
  {
    assert (x + y)[0] == x[0];
    if x[0] == '-' {
      assert (x + y)[1..] == x[1..] + y;
      LeadingDigitsOfPrefix(x[1..], y);
    } else {
      LeadingDigitsOfPrefix(x, y);
    }
  }

  /** The leading digit run of `x + y` is that of `x` when `y` does not
      start with a digit. */
  lemma {:induction false} LeadingDigitsOfPrefix(x: string, y: string)
    requires |y| == 0 || !IsDigit(y[0])
    ensures LeadingDigits(x + y) == LeadingDigits(x)
    decreases |x|
  {
    if |x| > 0 {
      assert (x + y)[1..] == x[1..] + y;
      LeadingDigitsOfPrefix(x[1..], y);
    }
  }

  /** `Number(s)` over the same alphabet, for the sides of a range (which
      hold no minus sign): the decimal value when `s` is all digits (the
      empty string converts to 0), otherwise None (NaN). On a non-empty
      digit string it agrees with parseInt. */
  function ToNumber(s: string): (r: Option<nat>)
    ensures r.Some? <==> forall i :: 0 <= i < |s| ==> '0' <= s[i] <= '9'
    ensures |s| == 0 ==> r == Some(0)
    ensures |s| > 0 && r.Some? ==> r == ParseInt(s)
  {
    if AllDigits(s) then
      ParseIntStopsAtNonDigit(s, "");
      assert s + "" == s;
      Some(DigitsValue(s))
    else None
  }

  /** parseInt reads only the leading digit run: whatever follows the first
      non-digit does not matter. */
  lemma {:induction false} ParseIntStopsAtNonDigit(d: string, t: string)
    requires AllDigits(d)
    requires |t| == 0 || !IsDigit(t[0])
    ensures LeadingDigits(d + t) == d
    decreases |d|
  {
    if |d| > 0 {
      assert (d + t)[1..] == d[1..] + t;
      ParseIntStopsAtNonDigit(d[1..], t);
    }
  }
}
