/** C-string vocabulary shared by the three daemons: the NUL terminator,
    the text a NUL-terminated buffer holds, decimal printing (`%i`) and
    `atoi`. */
module CStrings {

  const NUL: char := 0 as char

  /** The exit statuses of `exit()`. */
  const EXIT_SUCCESS: int := 0
  const EXIT_FAILURE: int := 1

  /** The C string held by a buffer: everything before the first NUL. */
  function CStr(s: string): (r: string)
    ensures r <= s
    ensures NUL !in r
    ensures |r| < |s| ==> s[|r|] == NUL
  {
    if s == [] || s[0] == NUL then [] else [s[0]] + CStr(s[1..])
  }

  /** The character read at index k of a C string: past its end lies its NUL. */
  function CharAt(s: string, k: nat): char
  {
    if k < |s| then s[k] else NUL
  }

  /** `strncmp(s, t, n) == 0` for C strings s and t (a literal may hold an
      explicit NUL): the first n characters agree, or they agree up to and
      including a NUL. */
  predicate StrNEq(s: string, t: string, n: nat)
    decreases n
  {
    n == 0 || (CharAt(s, 0) == CharAt(t, 0) && (CharAt(s, 0) == NUL || StrNEq(Rest(s), Rest(t), n - 1)))
  }

  function Rest(s: string): string { if s == [] then [] else s[1..] }

  /** Comparing n characters against a NUL-free literal of length n tests
      for a prefix. */
  lemma {:induction false} StrNEqPrefix(s: string, lit: string)
    requires NUL !in lit
    ensures StrNEq(s, lit, |lit|) <==> lit <= s
    decreases |lit|
  {
    if lit != [] {
      assert lit[0] != NUL;
      assert NUL !in lit[1..] by {
        forall i | 0 <= i < |lit[1..]| ensures lit[1..][i] != NUL { assert lit[1..][i] == lit[i + 1]; }
      }
      StrNEqPrefix(Rest(s), lit[1..]);
      if s != [] {
        assert lit <= s <==> lit[0] == s[0] && lit[1..] <= s[1..];
      }
    }
  }

  /** Comparing |lit| + 1 characters against a literal with its NUL spelt
      out (`"/status\0"`) tests a NUL-free string for equality. */
  lemma {:induction false} StrNEqExact(s: string, lit: string)
    requires NUL !in lit && NUL !in s
    ensures StrNEq(s, lit + [NUL], |lit| + 1) <==> s == lit
    decreases |lit|
  {
    if lit == [] {
      assert s == [] || s[0] != NUL;
    } else {
      assert lit[0] != NUL && (lit + [NUL])[0] == lit[0];
      assert Rest(lit + [NUL]) == lit[1..] + [NUL];
      assert NUL !in lit[1..] by {
        forall i | 0 <= i < |lit[1..]| ensures lit[1..][i] != NUL { assert lit[1..][i] == lit[i + 1]; }
      }
      assert NUL !in Rest(s) by {
        forall i | 0 <= i < |Rest(s)| ensures Rest(s)[i] != NUL { assert Rest(s)[i] == s[i + 1]; }
      }
      StrNEqExact(Rest(s), lit[1..]);
      if s != [] {
        assert s == lit <==> s[0] == lit[0] && s[1..] == lit[1..];
      }
    }
  }

  /** A buffer without NUL is its own C string. */
  lemma {:induction false} CStrOfNulFree(s: string)
    requires NUL !in s
    ensures CStr(s) == s
  {
    if s != [] {
      assert s[0] != NUL;
      assert NUL !in s[1..] by {
        forall i | 0 <= i < |s[1..]| ensures s[1..][i] != NUL { assert s[1..][i] == s[i + 1]; }
      }
      CStrOfNulFree(s[1..]);
    }
  }

  predicate IsDigit(c: char) { '0' <= c <= '9' }

  function DigitChar(d: nat): (c: char)
    requires d < 10
    ensures IsDigit(c) && c as int - '0' as int == d
  {
    ('0' as int + d) as char
  }

  /** `snprintf(buf, size, "%i", n)` for a non-negative n, without the size limit. */
  function Decimal(n: nat): (r: string)
    ensures |r| >= 1
    ensures forall i :: 0 <= i < |r| ==> IsDigit(r[i])
  {
    if n < 10 then [DigitChar(n)] else Decimal(n / 10) + [DigitChar(n % 10)]
  }

  /** The number of digits `%i` prints for n. */
  lemma {:induction false} DecimalLength(n: nat, k: nat)
    requires k >= 1
    ensures |Decimal(n)| <= k <==> n < Pow10(k)
  {
    assert Pow10(k) == 10 * Pow10(k - 1);
    if n >= 10 && k > 1 {
      DecimalLength(n / 10, k - 1);
    }
  }

  function Pow10(k: nat): (r: nat)
    ensures r >= 1
  {
    if k == 0 then 1 else 10 * Pow10(k - 1)
  }

  /** The value of a run of decimal digits. */
  function DigitsValue(d: string): nat
    requires forall i :: 0 <= i < |d| ==> IsDigit(d[i])
  {
    if d == [] then 0
    else
      assert IsDigit(d[|d| - 1]);
      10 * DigitsValue(d[..|d| - 1]) + (d[|d| - 1] as int - '0' as int)
  }

  /** The longest prefix of s made of decimal digits. */
  function LeadingDigits(s: string): (r: string)
    ensures r <= s
    ensures forall i :: 0 <= i < |r| ==> IsDigit(r[i])
    ensures |r| < |s| ==> !IsDigit(s[|r|])
  {
    if s != [] && IsDigit(s[0]) then [s[0]] + LeadingDigits(s[1..]) else []
  }

  /** The characters `isspace` accepts in the C locale. */
  predicate IsSpace(c: char) { c == ' ' || c == '\t' || c == '\n' || c == '\r' || c == 11 as char || c == 12 as char }

  function SkipSpace(s: string): (r: string)
    ensures r == [] || !IsSpace(r[0])
    decreases |s|
  {
    if s != [] && IsSpace(s[0]) then SkipSpace(s[1..]) else s
  }

  /** `atoi`: leading white space, an optional sign, then the longest run of
      digits; no digits gives 0. (Overflow is undefined in C and not modelled.) */
  function Atoi(s: string): int
  {
    var t := SkipSpace(CStr(s));
    if t != [] && t[0] == '-' then -(DigitsValue(LeadingDigits(t[1..])) as int)
    else if t != [] && t[0] == '+' then DigitsValue(LeadingDigits(t[1..]))
    else DigitsValue(LeadingDigits(t))
  }

  lemma {:induction false} DigitsValueOfDecimal(n: nat)
    ensures DigitsValue(Decimal(n)) == n
  {
    if n >= 10 {
      var d := Decimal(n);
      assert d[..|d| - 1] == Decimal(n / 10);
      DigitsValueOfDecimal(n / 10);
    }
  }

  lemma {:induction false} LeadingDigitsOfDigits(d: string)
    requires forall i :: 0 <= i < |d| ==> IsDigit(d[i])
    ensures LeadingDigits(d) == d
  {
    if d != [] {
      LeadingDigitsOfDigits(d[1..]);
    }
  }

  /** Printing a non-negative number with `%i` and reading it back with
      `atoi` gives the number. */
  lemma AtoiDecimal(n: nat)
    ensures Atoi(Decimal(n)) == n
  {
    var d := Decimal(n);
    assert NUL !in d by {
      forall i | 0 <= i < |d| ensures d[i] != NUL { assert IsDigit(d[i]); }
    }
    CStrOfNulFree(d);
    assert SkipSpace(d) == d;
    LeadingDigitsOfDigits(d);
    DigitsValueOfDecimal(n);
  }

  /** Index of the first occurrence of c in s, |s| if there is none. */
  function FirstIndex(s: string, c: char): (k: nat)
    ensures k <= |s|
    ensures forall i :: 0 <= i < k ==> s[i] != c
    ensures k < |s| ==> s[k] == c
  {
    if s == [] || s[0] == c then 0 else 1 + FirstIndex(s[1..], c)
  }

  /** The C string held in s ends at its first NUL. */
  lemma {:induction false} CStrFirstNul(s: string)
    ensures CStr(s) == s[..FirstIndex(s, NUL)]
  {
    if s != [] && s[0] != NUL {
      CStrFirstNul(s[1..]);
      assert s[..FirstIndex(s, NUL)] == [s[0]] + s[1..][..FirstIndex(s[1..], NUL)];
    }
  }

  /** Cutting k characters off the front of a buffer cuts them off its C
      string, as long as they lie before the terminator. */
  lemma {:induction false} CStrSuffix(s: string, k: nat)
    requires k <= |CStr(s)|
    ensures CStr(s[k..]) == CStr(s)[k..]
  {
    if k > 0 {
      assert s != [] && s[0] != NUL;
      CStrSuffix(s[1..], k - 1);
      assert s[1..][k - 1..] == s[k..];
    }
  }

  /** A NUL written at index n of a buffer whose C string is longer than n
      ends the C string there. */
  lemma CStrCut(s: string, n: nat)
    requires n < |CStr(s)|
    ensures CStr(s[n := NUL]) == CStr(s)[..n]
  {
    var t := s[n := NUL];
    CStrFirstNul(s);
    CStrFirstNul(t);
    var k := FirstIndex(t, NUL);
    assert t[n] == NUL;
    assert k == n;
    assert t[..n] == s[..n];
  }
}
