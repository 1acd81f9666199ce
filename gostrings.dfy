/** The parts of Go's `strconv` and `strings` packages that the listing relies on:
    `strconv.Atoi`, `strconv.FormatInt(_, 10)`, `strings.Split` on a one-character
    separator and `strings.Join`. */
module GoStrings {
  import opened Wrappers
  import opened GoInt

  predicate IsDigit(c: char) { '0' <= c <= '9' }

  predicate AllDigits(s: string) { forall i :: 0 <= i < |s| ==> IsDigit(s[i]) }

  function DigitValue(c: char): (d: nat)
    requires IsDigit(c)
    ensures d < 10
  {
    c as int - '0' as int
  }

  function DigitChar(d: int): (c: char)
    requires 0 <= d < 10
    ensures IsDigit(c) && DigitValue(c) == d
  {
    ('0' as int + d) as char
  }

  /** The digit loop of `strconv.Atoi`: `n = n*10 + digit` over the whole text, failing
      (None) on any byte that is not a decimal digit. */
  function ScanDigits(s: string): (r: Option<nat>)
    decreases |s|
  {
    if s == [] then Some(0)
    else
      match ScanDigits(s[..|s| - 1])
      case None => None
      case Some(n) =>
        if IsDigit(s[|s| - 1]) then Some(n * 10 + DigitValue(s[|s| - 1])) else None
  }

  /** The scan succeeds exactly on all-digit texts. */
  lemma {:induction false} ScanDigitsSucceeds(s: string)
    ensures ScanDigits(s).Some? <==> AllDigits(s)
    decreases |s|
  {
    if s != [] {
      var front := s[..|s| - 1];
      ScanDigitsSucceeds(front);
      assert AllDigits(s) ==> AllDigits(front) by {
        if AllDigits(s) {
          forall i | 0 <= i < |front| ensures IsDigit(front[i]) { assert front[i] == s[i]; }
        }
      }
    }
  }

  /** 10 to the power k. */
  function Pow10(k: nat): (p: nat)
    ensures p >= 1
  {
    if k == 0 then 1 else 10 * Pow10(k - 1)
  }

  /** The value of decimal digits, most significant first: each digit weighted by the power
      of ten of its distance from the last one. */
  function DecimalValue(digits: string): nat
    requires AllDigits(digits)
    decreases |digits|
  {
    if digits == [] then 0
    else DigitValue(digits[0]) * Pow10(|digits| - 1) + DecimalValue(digits[1..])
  }

  /** Appending a digit multiplies the value by ten and adds the digit. */
  lemma {:induction false} DecimalValueSnoc(s: string, c: char)
    requires AllDigits(s) && IsDigit(c)
    ensures AllDigits(s + [c])
    ensures DecimalValue(s + [c]) == DecimalValue(s) * 10 + DigitValue(c)
    decreases |s|
  {
    var t := s + [c];
    assert forall i :: 0 <= i < |t| ==> t[i] == if i < |s| then s[i] else c;
    if s == [] {
      assert t == [c] && t[1..] == [];
    } else {
      assert t[0] == s[0] && t[1..] == s[1..] + [c];
      assert AllDigits(s[1..]) by { forall i | 0 <= i < |s[1..]| ensures IsDigit(s[1..][i]) { assert s[1..][i] == s[i + 1]; } }
      DecimalValueSnoc(s[1..], c);
      var d, p := DigitValue(s[0]), Pow10(|s| - 1);
      assert Pow10(|t| - 1) == 10 * p;
      ScaleByTen(d, p);
    }
  }

  lemma ScaleByTen(d: int, p: int)
    ensures d * (10 * p) == (d * p) * 10
  {
  }

  /** On an all-digit text the scan yields the text's decimal value. */
  lemma {:induction false} ScanDigitsValue(s: string)
    requires AllDigits(s)
    ensures ScanDigits(s) == Some(DecimalValue(s))
    decreases |s|
  {
    if s != [] {
      var front := s[..|s| - 1];
      assert AllDigits(front) by { forall i | 0 <= i < |front| ensures IsDigit(front[i]) { assert front[i] == s[i]; } }
      ScanDigitsValue(front);
      DecimalValueSnoc(front, s[|s| - 1]);
      assert front + [s[|s| - 1]] == s;
    }
  }

  /** The text after an optional leading `+` or `-`. */
  function Unsigned(s: string): (u: string)
    ensures |u| <= |s|
  {
    if s != [] && (s[0] == '-' || s[0] == '+') then s[1..] else s
  }

  /** The value a sign and digits denote: the decimal value, negated after a `-`. */
  function SignedValue(s: string): int
    requires AllDigits(Unsigned(s))
  {
    if s != [] && s[0] == '-' then 0 - DecimalValue(Unsigned(s)) else DecimalValue(Unsigned(s))
  }

  /** `strconv.Atoi` on a 64-bit platform: an optional `+` or `-`, then one or more
      decimal digits, whose value must fit in an `int`; anything else is an error (None). */
  function Atoi(s: string): (r: Option<int>)
    ensures r.Some? <==> Unsigned(s) != [] && AllDigits(Unsigned(s)) && IsInt64(SignedValue(s))
    ensures r.Some? ==> AllDigits(Unsigned(s)) && r.value == SignedValue(s)
    ensures r.Some? ==> IsInt64(r.value)
  {
    if s == [] then None
    else if s[0] == '-' || s[0] == '+' then SignedDigits(s[0] == '-', s[1..])
    else SignedDigits(false, s)
  }

  /** The digits after the optional sign: at least one, all decimal, and the signed value
      in the 64-bit range. */
  function SignedDigits(negative: bool, digits: string): (r: Option<int>)
    ensures r.Some? <==>
      (digits != [] && AllDigits(digits) &&
       IsInt64(if negative then 0 - DecimalValue(digits) else DecimalValue(digits)))
    ensures r.Some? ==> AllDigits(digits) && r.value == if negative then 0 - DecimalValue(digits) else DecimalValue(digits)
  {
    ScanDigitsSucceeds(digits);
    if digits == [] then None
    else
      match ScanDigits(digits)
      case None => None
      case Some(magnitude) =>
        ScanDigitsValue(digits);
        var v: int := if negative then 0 - magnitude else magnitude;
        if IsInt64(v) then Some(v) else None
  }

  /** An optional `+` or `-` and then one or more decimal digits. */
  predicate IntegerText(s: string)
  {
    s != [] && (IsDigit(s[0]) || ((s[0] == '+' || s[0] == '-') && |s| >= 2)) && AllDigits(s[1..])
  }

  /** Atoi accepts exactly the integer texts whose value fits in 64 bits, and yields that value. */
  lemma AtoiAccepts(s: string)
    ensures Atoi(s).Some? ==> IntegerText(s)
    ensures IntegerText(s) ==>
      (AllDigits(Unsigned(s)) &&
       Atoi(s) == if IsInt64(SignedValue(s)) then Some(SignedValue(s)) else None)
  {
    if s != [] {
      var u := Unsigned(s);
      if u == s {
        if AllDigits(s) {
          forall i | 0 <= i < |s[1..]| ensures IsDigit(s[1..][i]) { assert s[1..][i] == s[i + 1]; }
        }
        if IntegerText(s) {
          forall i | 0 <= i < |s| ensures IsDigit(s[i]) { if i > 0 { assert s[i] == s[1..][i - 1]; } }
        }
      }
    }
  }

  /** Canonical decimal text of a natural number: digits only, no leading zero. */
  function FormatNat(n: nat): (s: string)
    ensures s != [] && AllDigits(s)
    ensures ScanDigits(s) == Some(n)
    ensures s[0] == '0' ==> n == 0
    ensures n == 0 ==> s == "0"
    decreases n
  {
    if n < 10 then
      var s := [DigitChar(n)];
      assert s[..0] == [];
      s
    else
      var front := FormatNat(n / 10);
      var s := front + [DigitChar(n % 10)];
      assert s[..|s| - 1] == front;
      s
  }

  /** `strconv.FormatInt(n, 10)`: a leading `-` exactly for negative numbers, then the
      canonical digits of the magnitude. */
  function FormatInt(n: int): (s: string)
    ensures s != []
    ensures s[0] == '-' <==> n < 0
    ensures IsDigit(s[0]) <==> n >= 0
    ensures AllDigits(s[1..])
    ensures n >= 0 && |s| > 1 ==> s[0] != '0'
    ensures n < 0 ==> |s| > 1 && s[1] != '0'
  {
    if n < 0 then "-" + FormatNat(-n) else FormatNat(n)
  }

  /** Reading back what FormatInt writes gives the number again. */
  lemma AtoiFormatInt(n: int)
    requires IsInt64(n)
    ensures Atoi(FormatInt(n)) == Some(n)
  {
    if n < 0 {
      assert FormatInt(n)[1..] == FormatNat(-n);
    }
  }

  /** `strings.Split(s, string(c))`: the pieces between occurrences of `c`; there is
      always one more piece than there are occurrences. */
  function Split(s: string, c: char): (r: seq<string>)
    ensures |r| >= 1
    ensures forall i :: 0 <= i < |r| ==> c !in r[i]
    decreases |s|
  {
    if s == [] then [[]]
    else
      var rest := Split(s[1..], c);
      if s[0] == c then [[]] + rest else [[s[0]] + rest[0]] + rest[1..]
  }

  /** `strings.Join(parts, sep)`. */
  function Join(parts: seq<string>, sep: string): string
    decreases |parts|
  {
    if parts == [] then []
    else if |parts| == 1 then parts[0]
    else parts[0] + sep + Join(parts[1..], sep)
  }

  /** Joining the pieces of a split with the separator restores the text. */
  lemma {:induction false} JoinSplit(s: string, c: char)
    ensures Join(Split(s, c), [c]) == s
    decreases |s|
  {
    if s != [] {
      var rest := Split(s[1..], c);
      JoinSplit(s[1..], c);
      if s[0] == c {
        assert Split(s, c) == [[]] + rest;
      } else {
        var parts := Split(s, c);
        assert parts == [[s[0]] + rest[0]] + rest[1..];
        if |rest| == 1 {
          assert parts == [[s[0]] + rest[0]];
          assert rest[0] == s[1..];
        } else {
          assert parts[1..] == rest[1..];
          assert Join(rest, [c]) == rest[0] + [c] + Join(rest[1..], [c]);
          assert Join(parts, [c]) == [s[0]] + rest[0] + [c] + Join(rest[1..], [c]);
        }
      }
    }
  }

  /** Splitting a join recovers the parts when no part contains the separator. */
  lemma {:induction false} SplitJoin(parts: seq<string>, c: char)
    requires parts != []
    requires forall i :: 0 <= i < |parts| ==> c !in parts[i]
    ensures Split(Join(parts, [c]), c) == parts
    decreases |parts|, |parts[0]|
  {
    var p := parts[0];
    if p == [] {
      if |parts| > 1 {
        SplitJoin(parts[1..], c);
        var s := Join(parts, [c]);
        assert s == [c] + Join(parts[1..], [c]);
        assert s[1..] == Join(parts[1..], [c]);
      }
    } else {
      var parts' := [p[1..]] + parts[1..];
      assert c !in parts'[0] by { assert forall x :: x in p[1..] ==> x in p; }
      SplitJoin(parts', c);
      var s := Join(parts, [c]);
      assert s == [p[0]] + Join(parts', [c]) by {
        if |parts| > 1 {
          assert parts'[1..] == parts[1..];
        }
      }
      assert s[1..] == Join(parts', [c]);
      var rest := Split(s[1..], c);
      assert rest == parts';
      assert p[0] != c;
      assert Split(s, c) == [[p[0]] + p[1..]] + parts[1..];
      assert [p[0]] + p[1..] == p;
      assert [p] + parts[1..] == parts;
    }
  }

  /** `strings.Split(s, "%")[0]`: the text up to the first `%`, or all of it. */
  function BeforePercent(s: string): (r: string)
    ensures |r| <= |s|
    decreases |s|
  {
    if s == [] || s[0] == '%' then [] else [s[0]] + BeforePercent(s[1..])
  }

  /** BeforePercent is the first piece of `strings.Split(s, "%")`: the longest prefix of
      `s` without a `%`, followed in `s` by a `%` when it is shorter than `s`. */
  lemma {:induction false} BeforePercentIsFirstPiece(s: string)
    ensures BeforePercent(s) == Split(s, '%')[0]
    ensures var r := BeforePercent(s); r == s[..|r|] && '%' !in r && (|r| < |s| ==> s[|r|] == '%')
    decreases |s|
  {
    if s != [] && s[0] != '%' {
      BeforePercentIsFirstPiece(s[1..]);
    }
  }
}
