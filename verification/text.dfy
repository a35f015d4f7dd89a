/** Decimal integers and single-character splitting, as Python's `str(int)`,
    `int(str)`, `str.split(sep)` and `sep.join(parts)` treat them. */
module Text {
  import opened Wrappers

  predicate IsDigit(c: char)
  {
    '0' <= c <= '9'
  }

  predicate AllDigits(s: string)
  {
    forall i :: 0 <= i < |s| ==> IsDigit(s[i])
  }

  function DigitChar(d: nat): (c: char)
    requires d < 10
    ensures IsDigit(c)
  {
    ('0' as int + d) as char
  }

  function DigitValue(c: char): (d: nat)
    requires IsDigit(c)
    ensures d < 10
  {
    c as int - '0' as int
  }

  /** `str(n)` for a non-negative integer: no sign, no leading zeros. */
  function NatToString(n: nat): (s: string)
    ensures 0 < |s| && AllDigits(s)
    ensures |s| > 1 ==> s[0] != '0'
    decreases n
  {
    if n < 10 then [DigitChar(n)] else NatToString(n / 10) + [DigitChar(n % 10)]
  }

  /** `str(i)`: a minus sign followed by the digits of |i| for negative i. */
  function IntToString(i: int): string
  {
    if i < 0 then "-" + NatToString(-i) else NatToString(i)
  }

  /** The value of a non-empty string of decimal digits, most significant first. */
  function DigitsValue(s: string): nat
    requires AllDigits(s)
    decreases |s|
  {
    if |s| == 0 then 0 else DigitsValue(s[..|s| - 1]) * 10 + DigitValue(s[|s| - 1])
  }

  /** `int(s)` for an optional sign followed by at least one digit; every
      other string is the ValueError that Python raises. */
  function ParseInt(s: string): (r: Option<int>)
    ensures r.Some? <==> (0 < |s| && (
                             || (AllDigits(s))
                             || ((s[0] == '-' || s[0] == '+') && 1 < |s| && AllDigits(s[1..]))))
  {
    if 0 < |s| && AllDigits(s) then Some(DigitsValue(s))
    else if 1 < |s| && s[0] == '-' && AllDigits(s[1..]) then Some(0 - DigitsValue(s[1..]) as int)
    else if 1 < |s| && s[0] == '+' && AllDigits(s[1..]) then Some(DigitsValue(s[1..]))
    else None
  }

  lemma {:induction false} DigitsOfNat(n: nat)
    ensures DigitsValue(NatToString(n)) == n
    decreases n
  {
    var s := NatToString(n);
    if n >= 10 {
      DigitsOfNat(n / 10);
      assert s[..|s| - 1] == NatToString(n / 10);
    }
  }

  /** Reading back what `str` wrote gives the same integer. */
  lemma ParseIntToString(i: int)
    ensures ParseInt(IntToString(i)) == Some(i)
  {
    if i < 0 {
      var d := NatToString(-i);
      assert ("-" + d)[1..] == d;
      assert !AllDigits("-" + d) by { assert !IsDigit(("-" + d)[0]); }
      DigitsOfNat(-i);
    } else {
      DigitsOfNat(i);
    }
  }

  /** `[str(i) for i in ids]`. */
  function IntStrings(ids: seq<int>): (r: seq<string>)
    ensures |r| == |ids| && forall i :: 0 <= i < |ids| ==> r[i] == IntToString(ids[i])
  {
    seq(|ids|, i requires 0 <= i < |ids| => IntToString(ids[i]))
  }

  lemma IntToStringHasNoSeparator(i: int, sep: char)
    requires sep != '-' && !IsDigit(sep)
    ensures sep !in IntToString(i)
  {
  }

  /** Python's `s.split(sep)`: always at least one part, empty parts kept. */
  function Split(s: string, sep: char): (parts: seq<string>)
    ensures 0 < |parts|
    decreases |s|
  {
    if |s| == 0 then [""]
    else if s[0] == sep then [""] + Split(s[1..], sep)
    else
      var rest := Split(s[1..], sep);
      [[s[0]] + rest[0]] + rest[1..]
  }

  /** Python's `sep.join(parts)`, for a separator of any length and also
      for no parts. */
  function JoinWith(parts: seq<string>, sep: string): string
    decreases |parts|
  {
    if |parts| == 0 then ""
    else if |parts| == 1 then parts[0]
    else parts[0] + sep + JoinWith(parts[1..], sep)
  }

  /** `sep.join(parts)` with a one-character separator. */
  function Join(parts: seq<string>, sep: char): string
  {
    JoinWith(parts, [sep])
  }

  /** Joining one more part appends the separator and that part. */
  lemma {:induction false} JoinWithSnoc(parts: seq<string>, c: string, sep: string)
    requires 0 < |parts|
    ensures JoinWith(parts + [c], sep) == JoinWith(parts, sep) + sep + c
    decreases |parts|
  {
    var longer := parts + [c];
    assert longer[0] == parts[0];
    if |parts| == 1 {
      assert longer[1..] == [c];
    } else {
      JoinWithSnoc(parts[1..], c, sep);
      assert longer[1..] == parts[1..] + [c];
    }
  }

  /** Python's `s.split(sep)[-1]`: what follows the last separator. */
  function LastPart(s: string, sep: char): (r: string)
    ensures sep !in r
    ensures |r| <= |s| && r == s[|s| - |r|..]
  {
    SplitPartsAvoidSeparator(s, sep);
    SplitLastIsSuffix(s, sep);
    var parts := Split(s, sep);
    parts[|parts| - 1]
  }

  /** The last part is the whole string when there is no separator, and
      otherwise starts right after the last separator: it is the longest
      separator-free suffix. */
  lemma LastPartAfterLastSeparator(s: string, sep: char)
    ensures sep !in s ==> LastPart(s, sep) == s
    ensures sep in s ==> var r := LastPart(s, sep);
                         |r| < |s| && s[|s| - |r| - 1] == sep
  {
    if sep in s {
      SplitLastAfterSeparator(s, sep);
    } else {
      SplitNoSeparator(s, sep);
    }
  }

  /** With a separator present, the last part starts right after the last
      separator. */
  lemma {:induction false} SplitLastAfterSeparator(s: string, sep: char)
    requires sep in s
    ensures var parts := Split(s, sep);
            var last := parts[|parts| - 1];
            |last| < |s| && s[|s| - |last| - 1] == sep
    decreases |s|
  {
    var rest := Split(s[1..], sep);
    var last := rest[|rest| - 1];
    if sep in s[1..] {
      SplitLastAfterSeparator(s[1..], sep);
      SplitAtSeparator(s[1..], sep);
      assert Split(s, sep)[|Split(s, sep)| - 1] == last;
      assert s[1..][|s| - 1 - |last| - 1] == s[|s| - |last| - 1];
    } else {
      assert s[0] == sep by {
        assert forall j :: 1 <= j < |s| ==> s[1..][j - 1] == s[j] != sep;
      }
      SplitNoSeparator(s[1..], sep);
      assert Split(s, sep) == [""] + [s[1..]];
    }
  }

  lemma {:induction false} SplitPartsAvoidSeparator(s: string, sep: char)
    ensures forall k :: 0 <= k < |Split(s, sep)| ==> sep !in Split(s, sep)[k]
    decreases |s|
  {
    if |s| > 0 {
      SplitPartsAvoidSeparator(s[1..], sep);
    }
  }

  lemma {:induction false} SplitLastIsSuffix(s: string, sep: char)
    ensures var parts := Split(s, sep);
            var last := parts[|parts| - 1];
            |last| <= |s| && last == s[|s| - |last|..]
    decreases |s|
  {
    var parts := Split(s, sep);
    if |s| == 0 {
      assert parts == [""];
    } else {
      SplitLastIsSuffix(s[1..], sep);
      var rest := Split(s[1..], sep);
      var last := rest[|rest| - 1];
      if s[0] == sep || |rest| > 1 {
        assert parts[|parts| - 1] == last;
        assert s[1..][|s| - 1 - |last|..] == s[|s| - |last|..];
      } else {
        SplitWithoutSeparator(s[1..], sep);
        assert parts == [[s[0]] + s[1..]];
        assert [s[0]] + s[1..] == s[0..];
      }
    }
  }

  lemma {:induction false} SplitWithoutSeparator(s: string, sep: char)
    requires |Split(s, sep)| == 1
    ensures Split(s, sep) == [s]
    decreases |s|
  {
    if |s| > 0 {
      assert s[0] != sep;
      SplitWithoutSeparator(s[1..], sep);
      assert [s[0]] + s[1..] == s;
    }
  }

  lemma {:induction false} SplitAtSeparator(s: string, sep: char)
    requires sep in s
    ensures 1 < |Split(s, sep)|
    decreases |s|
  {
    if s[0] != sep {
      SplitAtSeparator(s[1..], sep);
    }
  }

  lemma {:induction false} SplitNoSeparator(s: string, sep: char)
    requires sep !in s
    ensures Split(s, sep) == [s]
    decreases |s|
  {
    if |s| > 0 {
      SplitNoSeparator(s[1..], sep);
      assert [s[0]] + s[1..] == s;
    }
  }

  lemma {:induction false} SplitAfterPart(p: string, r: string, sep: char)
    requires sep !in p
    ensures Split(p + [sep] + r, sep) == [p] + Split(r, sep)
    decreases |p|
  {
    var s := p + [sep] + r;
    if |p| == 0 {
      assert s[0] == sep && s[1..] == r;
    } else {
      assert s[0] == p[0] && s[1..] == p[1..] + [sep] + r;
      SplitAfterPart(p[1..], r, sep);
      assert [p[0]] + p[1..] == p;
    }
  }

  /** Splitting what `Join` produced gives the parts back, provided no part
      contains the separator. */
  lemma {:induction false} SplitJoin(parts: seq<string>, sep: char)
    requires 0 < |parts|
    requires forall k :: 0 <= k < |parts| ==> sep !in parts[k]
    ensures Split(Join(parts, sep), sep) == parts
    decreases |parts|
  {
    if |parts| == 1 {
      SplitNoSeparator(parts[0], sep);
    } else {
      SplitJoin(parts[1..], sep);
      SplitAfterPart(parts[0], Join(parts[1..], sep), sep);
      assert [parts[0]] + parts[1..] == parts;
    }
  }
}
