/** The parts of Go's `strings` and `strconv` packages that the importer and
    the handlers rely on, over ASCII text: `strings.ReplaceAll(s, " ", "")`,
    `strings.Split` on a one-character separator, `strings.ToLower`,
    `strconv.Atoi`, and `strconv.Itoa` as the partner of `Atoi`. */
module GoStrings {
  import opened Types

  // ---------------------------------------------------------------------
  // strings.ReplaceAll(s, " ", "")
  // ---------------------------------------------------------------------

  /** Deletes every space character (and only that character) from `s`. */
  function RemoveSpaces(s: string): (r: string)
    ensures ' ' !in r
    ensures |r| <= |s|
    decreases |s|
  {
    if s == [] then []
    else if s[0] == ' ' then RemoveSpaces(s[1..])
    else [s[0]] + RemoveSpaces(s[1..])
  }

  /** Removing spaces works piecewise, so a space may be inserted anywhere. */
  lemma {:induction false} RemoveSpacesConcat(a: string, b: string)
    ensures RemoveSpaces(a + b) == RemoveSpaces(a) + RemoveSpaces(b)
    decreases |a|
  {
    if a == [] {
      assert a + b == b;
    } else {
      assert (a + b)[0] == a[0];
      assert (a + b)[1..] == a[1..] + b;
      RemoveSpacesConcat(a[1..], b);
    }
  }

  /** Text without spaces is left as it is; in particular removing spaces is
      idempotent. */
  lemma {:induction false} RemoveSpacesNoSpace(s: string)
    requires ' ' !in s
    ensures RemoveSpaces(s) == s
    decreases |s|
  {
    if s != [] {
      assert s == [s[0]] + s[1..];
      assert ' ' !in s[1..] by {
        forall k | 0 <= k < |s[1..]| ensures s[1..][k] != ' ' {
          assert s[1..][k] == s[k + 1];
        }
      }
      RemoveSpacesNoSpace(s[1..]);
    }
  }

  lemma RemoveSpacesIdempotent(s: string)
    ensures RemoveSpaces(RemoveSpaces(s)) == RemoveSpaces(s)
  {
    RemoveSpacesNoSpace(RemoveSpaces(s));
  }

  /** Exactly the all-space texts (the empty one included) become empty. */
  lemma {:induction false} RemoveSpacesBlank(s: string)
    ensures RemoveSpaces(s) == "" <==> forall k | 0 <= k < |s| :: s[k] == ' '
    decreases |s|
  {
    if s != [] {
      RemoveSpacesBlank(s[1..]);
      if s[0] == ' ' {
        if forall k | 0 <= k < |s[1..]| :: s[1..][k] == ' ' {
          forall k | 0 <= k < |s| ensures s[k] == ' ' {
            if k > 0 { assert s[k] == s[1..][k - 1]; }
          }
        } else {
          var k :| 0 <= k < |s[1..]| && s[1..][k] != ' ';
          assert s[k + 1] != ' ';
        }
      }
    }
  }

  // ---------------------------------------------------------------------
  // strings.Split(s, string(sep))
  // ---------------------------------------------------------------------

  /** Position of the first occurrence of `c` in `s`. */
  function IndexOf(s: string, c: char): (i: nat)
    requires c in s
    ensures i < |s| && s[i] == c && c !in s[..i]
    decreases |s|
  {
    if s[0] == c then 0
    else
      assert s == [s[0]] + s[1..];
      var j := IndexOf(s[1..], c);
      assert s[..j + 1] == [s[0]] + s[1..][..j];
      j + 1
  }

  /** The pieces of `s` between occurrences of `sep`, as Go's `strings.Split`
      with a non-empty separator: always at least one piece, and an empty
      piece before a leading, after a trailing and between two adjacent
      separators. */
  function Split(s: string, sep: char): (parts: seq<string>)
    ensures |parts| >= 1
    ensures forall k | 0 <= k < |parts| :: sep !in parts[k]
    decreases |s|
  {
    if sep !in s then [s]
    else
      var i := IndexOf(s, sep);
      [s[..i]] + Split(s[i + 1..], sep)
  }

  /** `strings.Join`, the inverse of `Split`. */
  function Join(parts: seq<string>, sep: char): string
    requires |parts| >= 1
    decreases |parts|
  {
    if |parts| == 1 then parts[0] else parts[0] + [sep] + Join(parts[1..], sep)
  }

  /** The first separator after a separator-free prefix sits right after it. */
  lemma {:induction false} IndexOfAfter(a: string, sep: char, rest: string)
    requires sep !in a
    ensures sep in a + [sep] + rest && IndexOf(a + [sep] + rest, sep) == |a|
    decreases |a|
  {
    var s := a + [sep] + rest;
    assert s[|a|] == sep;
    if a != [] {
      assert s[0] == a[0];
      assert a == [a[0]] + a[1..];
      assert s[1..] == a[1..] + [sep] + rest;
      IndexOfAfter(a[1..], sep, rest);
    }
  }

  /** The first piece is everything before the first separator. */
  lemma SplitCons(a: string, sep: char, rest: string)
    requires sep !in a
    ensures Split(a + [sep] + rest, sep) == [a] + Split(rest, sep)
  {
    var s := a + [sep] + rest;
    IndexOfAfter(a, sep, rest);
    assert s[..|a|] == a;
    assert s[|a| + 1..] == rest;
  }

  lemma SplitSingle(s: string, sep: char)
    requires sep !in s
    ensures Split(s, sep) == [s]
  {
  }

  /** Joining the pieces gives the text back. */
  lemma {:induction false} JoinSplit(s: string, sep: char)
    ensures Join(Split(s, sep), sep) == s
    decreases |s|
  {
    if sep in s {
      var i := IndexOf(s, sep);
      var rest := s[i + 1..];
      JoinSplit(rest, sep);
      var parts := Split(s, sep);
      assert parts == [s[..i]] + Split(rest, sep);
      assert parts[1..] == Split(rest, sep);
      assert Join(parts, sep) == s[..i] + [sep] + Join(Split(rest, sep), sep);
      assert s == s[..i] + [sep] + rest;
    } else {
      assert Split(s, sep) == [s];
    }
  }

  /** Splitting joined separator-free pieces gives the pieces back. */
  lemma {:induction false} SplitJoin(parts: seq<string>, sep: char)
    requires |parts| >= 1
    requires forall k | 0 <= k < |parts| :: sep !in parts[k]
    ensures Split(Join(parts, sep), sep) == parts
    decreases |parts|
  {
    if |parts| > 1 {
      var tail := parts[1..];
      forall k | 0 <= k < |tail| ensures sep !in tail[k] {
        assert tail[k] == parts[k + 1];
      }
      SplitJoin(tail, sep);
      assert Join(parts, sep) == parts[0] + [sep] + Join(tail, sep);
      SplitCons(parts[0], sep, Join(tail, sep));
      assert parts == [parts[0]] + tail;
    } else {
      assert sep !in parts[0];
    }
  }

  // ---------------------------------------------------------------------
  // strings.ToLower, on ASCII letters
  // ---------------------------------------------------------------------

  predicate IsUpper(c: char) { 'A' <= c <= 'Z' }

  function LowerChar(c: char): char
  {
    if IsUpper(c) then (c as int - 'A' as int + 'a' as int) as char else c
  }

  /** Lower-cases every ASCII capital and keeps every other character. */
  function ToLower(s: string): (r: string)
    ensures |r| == |s|
    ensures forall k | 0 <= k < |s| :: r[k] == LowerChar(s[k])
    decreases |s|
  {
    if s == [] then [] else [LowerChar(s[0])] + ToLower(s[1..])
  }

  lemma ToLowerIdempotent(s: string)
    ensures ToLower(ToLower(s)) == ToLower(s)
  {
  }

  /** Text without capitals is already lower case. */
  lemma ToLowerNoUpper(s: string)
    requires forall k | 0 <= k < |s| :: !IsUpper(s[k])
    ensures ToLower(s) == s
  {
  }

  // ---------------------------------------------------------------------
  // strconv.Atoi and strconv.Itoa
  // ---------------------------------------------------------------------

  predicate IsDigit(c: char) { '0' <= c <= '9' }

  /** One or more decimal digits. */
  predicate IsDigits(s: string)
  {
    |s| > 0 && forall k | 0 <= k < |s| :: IsDigit(s[k])
  }

  /** What `strconv.Atoi` accepts: an optional sign followed by one or more
      decimal digits, and nothing else. */
  predicate IsInteger(s: string)
  {
    IsDigits(s) || (|s| > 1 && (s[0] == '+' || s[0] == '-') && IsDigits(s[1..]))
  }

  /** Digits without leading zeros, as `strconv.Itoa` writes them. */
  predicate IsCanonical(s: string)
  {
    IsDigits(s) && (s[0] != '0' || |s| == 1)
  }

  function DigitValue(c: char): nat
    requires IsDigit(c)
  {
    c as int - '0' as int
  }

  /** The number the digits denote, read from the right. */
  function DigitsValue(s: string): nat
    requires forall k | 0 <= k < |s| :: IsDigit(s[k])
    decreases |s|
  {
    if s == [] then 0 else DigitsValue(s[..|s| - 1]) * 10 + DigitValue(s[|s| - 1])
  }

  /** The Go pair `(int, error)`: on failure `value` is 0, as `Atoi` returns. */
  datatype IntResult = IntResult(value: int, err: Option<NumError>)

  /** `strconv.Atoi` without 64-bit overflow: a syntax error gives 0 and a
      `NumError` naming the input. */
  function Atoi(s: string): (r: IntResult)
    ensures r.err.None? <==> IsInteger(s)
    ensures r.err.Some? ==> r == IntResult(0, Some(NumError("Atoi", s)))
  {
    if IsDigits(s) then IntResult(DigitsValue(s), None)
    else if IsInteger(s) then
      if s[0] == '-' then IntResult(-(DigitsValue(s[1..]) as int), None)
      else IntResult(DigitsValue(s[1..]), None)
    else IntResult(0, Some(NumError("Atoi", s)))
  }

  function DigitChar(d: nat): (c: char)
    requires d < 10
    ensures IsDigit(c) && DigitValue(c) == d
  {
    ('0' as int + d) as char
  }

  /** `strconv.Itoa` for natural numbers. */
  function FormatNat(n: nat): (s: string)
    ensures IsCanonical(s)
    decreases n
  {
    if n < 10 then [DigitChar(n)] else FormatNat(n / 10) + [DigitChar(n % 10)]
  }

  /** `strconv.Itoa`. */
  function FormatInt(n: int): string
  {
    if n < 0 then "-" + FormatNat(-n) else FormatNat(n)
  }

  lemma {:induction false} DigitsValueFormatNat(n: nat)
    ensures DigitsValue(FormatNat(n)) == n
    decreases n
  {
    if n >= 10 {
      var s := FormatNat(n);
      assert s[..|s| - 1] == FormatNat(n / 10);
      DigitsValueFormatNat(n / 10);
    }
  }

  /** A leading digit other than 0 makes the value positive. */
  lemma {:induction false} DigitsValuePositive(s: string)
    requires IsDigits(s) && s[0] != '0'
    ensures DigitsValue(s) >= 1
    decreases |s|
  {
    if |s| > 1 {
      DigitsValuePositive(s[..|s| - 1]);
    }
  }

  /** Formatting the value of canonical digits gives the digits back. */
  lemma {:induction false} FormatNatDigitsValue(s: string)
    requires IsCanonical(s)
    ensures FormatNat(DigitsValue(s)) == s
    decreases |s|
  {
    if |s| > 1 {
      var p := s[..|s| - 1];
      assert IsCanonical(p);
      DigitsValuePositive(p);
      FormatNatDigitsValue(p);
      assert s == p + [s[|s| - 1]];
    }
  }

  /** `Atoi` reads back what `Itoa` writes. */
  lemma AtoiFormatInt(n: int)
    ensures Atoi(FormatInt(n)) == IntResult(n, None)
  {
    if n < 0 {
      var s := FormatInt(n);
      assert s[1..] == FormatNat(-n);
      assert !IsDigit(s[0]);
      DigitsValueFormatNat(-n);
    } else {
      DigitsValueFormatNat(n);
    }
  }

  /** `Itoa` writes back what `Atoi` reads from canonical digits. */
  lemma FormatIntAtoi(s: string)
    requires IsCanonical(s)
    ensures Atoi(s).err.None? && FormatInt(Atoi(s).value) == s
  {
    FormatNatDigitsValue(s);
  }

  /** Lower-casing changes no digit and no sign, so it neither makes nor
      breaks an integer, and it leaves every integer as it is. */
  lemma IntegerToLower(s: string)
    ensures IsInteger(ToLower(s)) <==> IsInteger(s)
    ensures IsInteger(s) ==> ToLower(s) == s
  {
    var t := ToLower(s);
    if IsInteger(t) {
      forall k | 0 <= k < |s| ensures s[k] == t[k] {
        assert t[k] == LowerChar(s[k]);
        if IsDigits(t) {
          assert IsDigit(t[k]);
        } else if k == 0 {
          assert t[0] == '+' || t[0] == '-';
        } else {
          assert t[k] == t[1..][k - 1];
          assert IsDigit(t[k]);
        }
      }
      assert s == t;
    }
    if IsInteger(s) {
      ToLowerNoUpper(s);
    }
  }
}
