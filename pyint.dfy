/** Python's integer text conversions used by the host tools: `int(s, 0)`, `int(s, 16)`,
  * and the `'{:0Nx}'` / `'{:d}'` formats. */
module PyInt {
  import opened Errors

  /** Python's `str.isspace`: the whitespace `str.strip()` and `int()` remove, and the
    * class `\\s` stands for in a `str` pattern. */
  predicate IsSpace(c: char)
  {
    var n := c as int;
    (9 <= n <= 13) || (0x1c <= n <= 0x20) || n == 0x85 || n == 0xa0 || n == 0x1680 ||
    (0x2000 <= n <= 0x200a) || n == 0x2028 || n == 0x2029 || n == 0x202f || n == 0x205f || n == 0x3000
  }

  function StripLeft(s: string): (r: string)
    ensures |r| <= |s| && (|r| > 0 ==> !IsSpace(r[0]))
    ensures r == s[|s| - |r|..]
  {
    if |s| > 0 && IsSpace(s[0]) then StripLeft(s[1..]) else s
  }

  function StripRight(s: string): (r: string)
    ensures |r| <= |s| && (|r| > 0 ==> !IsSpace(r[|r| - 1]))
    ensures r == s[..|r|]
  {
    if |s| > 0 && IsSpace(s[|s| - 1]) then StripRight(s[..|s| - 1]) else s
  }

  /** `s.strip()`. */
  function Strip(s: string): (r: string)
    ensures |r| == 0 || (!IsSpace(r[0]) && !IsSpace(r[|r| - 1]))
  {
    StripRight(StripLeft(s))
  }

  /** A string with no surrounding whitespace strips to itself. */
  lemma StripNoSpace(s: string)
    requires |s| == 0 || (!IsSpace(s[0]) && !IsSpace(s[|s| - 1]))
    ensures Strip(s) == s
  {
  }

  /** `str.strip()` of text that starts with a non-space keeps every character up to a
    * non-space at `i`. */
  lemma StripKeeps(s: string, i: nat)
    requires i < |s| && !IsSpace(s[0]) && !IsSpace(s[i])
    ensures |Strip(s)| > i && Strip(s) == s[..|Strip(s)|]
  {
    assert StripLeft(s) == s;
    StripRightKeeps(s, i);
  }

  lemma {:induction false} StripRightKeeps(s: string, i: nat)
    requires i < |s| && !IsSpace(s[i])
    ensures |StripRight(s)| > i
    decreases |s|
  {
    if IsSpace(s[|s| - 1]) {
      StripRightKeeps(s[..|s| - 1], i);
    }
  }

  /** The value of a digit character in bases up to 36. */
  function DigitVal(c: char): (r: Option<nat>)
    ensures r.Some? ==> r.value < 36
    ensures ('0' <= c <= '9') ==> r == Some(c as nat - '0' as nat)
  {
    if '0' <= c <= '9' then Some(c as nat - '0' as nat)
    else if 'a' <= c <= 'z' then Some(c as nat - 'a' as nat + 10)
    else if 'A' <= c <= 'Z' then Some(c as nat - 'A' as nat + 10)
    else None
  }

  predicate IsDigit(c: char, base: nat)
  {
    DigitVal(c).Some? && DigitVal(c).value < base
  }

  /** Every character of `s` is a digit in `base`. */
  predicate AllDigits(s: string, base: nat)
  {
    forall i :: 0 <= i < |s| ==> IsDigit(s[i], base)
  }

  lemma AllDigitsPrefix(s: string, base: nat)
    requires |s| > 0 && AllDigits(s, base)
    ensures AllDigits(s[..|s| - 1], base) && IsDigit(s[|s| - 1], base)
  {
  }

  /** Every character of `s` is a digit in `base` or an underscore. */
  predicate DigitsOrMarks(s: string, base: nat)
  {
    forall i :: 0 <= i < |s| ==> IsDigit(s[i], base) || s[i] == '_'
  }

  /** Digits in `base` in groups joined by single underscores, as `int()` accepts them:
    * a digit first and last, and no underscore right after another. */
  predicate Grouped(s: string, base: nat)
  {
    |s| > 0 && IsDigit(s[0], base) && IsDigit(s[|s| - 1], base) && DigitsOrMarks(s, base) &&
    NoDoubleMark(s)
  }

  /** No underscore right after another. */
  predicate NoDoubleMark(s: string)
  {
    |s| < 2 || (!(s[0] == '_' && s[1] == '_') && NoDoubleMark(s[1..]))
  }

  /** A plain run of digits is grouped. */
  lemma {:induction false} DigitsGrouped(s: string, base: nat)
    requires |s| > 0 && AllDigits(s, base)
    ensures Grouped(s, base)
    decreases |s|
  {
    if |s| >= 2 {
      DigitsGrouped(s[1..], base);
    }
  }

  /** The value of a digit string in `base` (most significant first); underscores are
    * skipped. */
  function Value(s: string, base: nat): nat
    requires DigitsOrMarks(s, base)
  {
    if |s| == 0 then 0
    else
      assert DigitsOrMarks(s[..|s| - 1], base);
      if s[|s| - 1] == '_' then Value(s[..|s| - 1], base)
      else Value(s[..|s| - 1], base) * base + DigitVal(s[|s| - 1]).value
  }

  /** An underscore between digits does not change the value: `int("1_000")` is
    * `int("1000")`. */
  lemma {:induction false} MarkKeepsValue(x: string, y: string, base: nat)
    requires DigitsOrMarks(x, base) && DigitsOrMarks(y, base)
    ensures DigitsOrMarks(x + "_" + y, base) && DigitsOrMarks(x + y, base)
    ensures Value(x + "_" + y, base) == Value(x + y, base)
    decreases |y|
  {
    var m := x + "_" + y;
    var p := x + y;
    if |y| == 0 {
      assert m[..|m| - 1] == x && p == x;
    } else {
      var y0 := y[..|y| - 1];
      assert DigitsOrMarks(y0, base);
      MarkKeepsValue(x, y0, base);
      assert m[..|m| - 1] == x + "_" + y0 && m[|m| - 1] == y[|y| - 1];
      assert p[..|p| - 1] == x + y0 && p[|p| - 1] == y[|y| - 1];
    }
  }

  /** The digits of an unsigned number in `base`, or ValueError when they are not
    * grouped as above. */
  function Unsigned(s: string, base: nat): (r: Result<nat>)
    ensures r.Ok? <==> Grouped(s, base)
    ensures r.Ok? ==> r.value == Value(s, base)
    ensures |s| > 0 && AllDigits(s, base) ==> r == Ok(Value(s, base))
    ensures r.Err? ==> r.error == ValueError
  {
    if |s| > 0 && AllDigits(s, base) then DigitsGrouped(s, base); Ok(Value(s, base))
    else if Grouped(s, base) then Ok(Value(s, base)) else Err(ValueError)
  }

  /** The digits after a base prefix, where one underscore may come first. */
  function AfterPrefix(t: string, base: nat): (r: Result<nat>)
    ensures r == Unsigned(if |t| > 0 && t[0] == '_' then t[1..] else t, base)
  {
    if |t| > 0 && t[0] == '_' then Unsigned(t[1..], base) else Unsigned(t, base)
  }

  function Negate(r: Result<nat>, neg: bool): (q: Result<int>)
    ensures q.Ok? <==> r.Ok?
    ensures q.Ok? ==> q.value == (if neg then -(r.value as int) else r.value as int)
    ensures q.Err? ==> q.error == r.error
  {
    match r
    case Err(e) => Err(e)
    case Ok(v) =>
      var x: int := if neg then -(v as int) else v as int;
      Ok(x)
  }

  /** An optional leading sign: whether it was `-`, and what follows it. */
  function SplitSign(t: string): (r: (bool, string))
    ensures r.0 <==> |t| > 0 && t[0] == '-'
    ensures r.1 == if |t| > 0 && (t[0] == '-' || t[0] == '+') then t[1..] else t
  {
    if |t| > 0 && (t[0] == '-' || t[0] == '+') then (t[0] == '-', t[1..]) else (false, t)
  }

  predicate AllZeros(s: string)
  {
    forall i :: 0 <= i < |s| ==> s[i] == '0'
  }

  /** Only zeros and underscores. */
  predicate ZerosAndMarks(s: string)
  {
    forall i :: 0 <= i < |s| ==> s[i] == '0' || s[i] == '_'
  }

  /** The unsigned part of `int(s, 0)`: a `0x`, `0o` or `0b` prefix (either case) selects
    * the base, and one underscore may follow it; a decimal may not start with 0 unless
    * it is all zeros. */
  function Base0Magnitude(u: string): (r: Result<nat>)
    ensures r.Err? ==> r.error == ValueError
    ensures |u| >= 1 && u[0] != '0' ==> r == Unsigned(u, 10)
    ensures |u| >= 2 && u[0] == '0' && (u[1] == 'x' || u[1] == 'X') ==> r == AfterPrefix(u[2..], 16)
  {
    if |u| >= 2 && u[0] == '0' && (u[1] == 'x' || u[1] == 'X') then AfterPrefix(u[2..], 16)
    else if |u| >= 2 && u[0] == '0' && (u[1] == 'o' || u[1] == 'O') then AfterPrefix(u[2..], 8)
    else if |u| >= 2 && u[0] == '0' && (u[1] == 'b' || u[1] == 'B') then AfterPrefix(u[2..], 2)
    else if |u| >= 2 && u[0] == '0' then (if Grouped(u, 10) && ZerosAndMarks(u) then Ok(0) else Err(ValueError))
    else Unsigned(u, 10)
  }

  /** `int(s, 0)`: surrounding whitespace, an optional sign, then the magnitude as above.
    * Anything else raises ValueError. */
  function IntBase0(s: string): (r: Result<int>)
    ensures r.Err? ==> r.error == ValueError
  {
    var su := SplitSign(Strip(s));
    var neg, u := su.0, su.1;
    Negate(Base0Magnitude(u), neg)
  }

  /** `int(s, 16)`: as above with base 16, where the `0x` prefix is optional. */
  function IntBase16(s: string): (r: Result<int>)
    ensures r.Err? ==> r.error == ValueError
  {
    var su := SplitSign(Strip(s));
    var neg, u := su.0, su.1;
    if |u| >= 2 && u[0] == '0' && (u[1] == 'x' || u[1] == 'X') then Negate(AfterPrefix(u[2..], 16), neg)
    else Negate(Unsigned(u, 16), neg)
  }

  /** The lower-case digit of `d`. */
  function DigitChar(d: nat): (c: char)
    requires d < 16
    ensures DigitVal(c) == Some(d)
  {
    if d < 10 then '0' + d as char else 'a' + (d - 10) as char
  }

  /** A hex digit is neither a space, a sign nor a prefix letter. */
  lemma HexDigitChar(c: char)
    requires IsDigit(c, 16)
    ensures !IsSpace(c) && c != '-' && c != '+' && c != 'x' && c != 'X'
  {
  }

  /** Euclidean division facts for a positive base. */
  lemma DivMod(n: nat, base: nat)
    requires 2 <= base
    ensures n == (n / base) * base + n % base && 0 <= n % base < base
    ensures n >= base ==> 0 < n / base < n
    ensures n < base ==> n / base == 0 && n % base == n
  {
  }

  /** The digits of `n` in `base` (2 to 16), most significant first, with no leading zero. */
  function Digits(n: nat, base: nat): (r: string)
    requires 2 <= base <= 16
    ensures |r| >= 1 && AllDigits(r, base)
    decreases n
  {
    DivMod(n, base);
    var last := DigitChar(n % base);
    if n < base then [last] else Digits(n / base, base) + [last]
  }

  /** The digits never start with a 0 unless the number is 0. */
  lemma {:induction false} DigitsLead(n: nat, base: nat)
    requires 2 <= base <= 16
    ensures (Digits(n, base)[0] == '0') <==> n == 0
    decreases n
  {
    DivMod(n, base);
    if n >= base {
      DigitsLead(n / base, base);
      assert Digits(n, base)[0] == Digits(n / base, base)[0];
    } else {
      assert Digits(n, base) == [DigitChar(n)];
      assert DigitVal(Digits(n, base)[0]) == Some(n);
    }
  }

  lemma {:induction false} DigitsValue(n: nat, base: nat)
    requires 2 <= base <= 16
    ensures Value(Digits(n, base), base) == n
    decreases n
  {
    DivMod(n, base);
    var d := Digits(n, base);
    AllDigitsPrefix(d, base);
    if n >= base {
      DigitsValue(n / base, base);
      assert d[..|d| - 1] == Digits(n / base, base);
    } else {
      assert d[..|d| - 1] == [];
    }
    assert Value(d, base) == Value(d[..|d| - 1], base) * base + DigitVal(d[|d| - 1]).value;
  }

  /** `'{:d}'.format(n)`. */
  function Decimal(n: int): (r: string)
    ensures |r| >= 1
  {
    if n < 0 then "-" + Digits(-n, 10) else Digits(n, 10)
  }

  /** `'{:0Nx}'.format(n)`: lower-case hex, zero-padded to at least `width` digits. */
  function Hex(n: nat, width: nat): (r: string)
    ensures |r| >= width && |r| >= 1
    ensures AllDigits(r, 16)
    ensures |Digits(n, 16)| >= width ==> r == Digits(n, 16)
  {
    var d := Digits(n, 16);
    if |d| >= width then d else Zeros(width - |d|) + d
  }

  /** `'{:0Nx}'.format(x)` for any integer: a negative value is a minus sign, which
    * counts towards the width, and the padded digits of its magnitude. */
  function SignedHex(x: int, width: nat): (r: string)
    ensures x >= 0 ==> r == Hex(x, width)
    ensures x < 0 ==> |r| >= 2 && r[0] == '-' && r[1..] == Hex(-x, if width >= 1 then width - 1 else 0)
  {
    if x < 0 then "-" + Hex(-x, if width >= 1 then width - 1 else 0) else Hex(x, width)
  }

  function Zeros(k: nat): (r: string)
    ensures |r| == k && AllZeros(r)
  {
    seq(k, _ => '0')
  }

  /** Leading zeros do not change a value. */
  lemma {:induction false} ZerosValue(k: nat, d: string, base: nat)
    requires 2 <= base && AllDigits(d, base)
    ensures AllDigits(Zeros(k) + d, base)
    ensures Value(Zeros(k) + d, base) == Value(d, base)
    decreases |d|
  {
    var z := Zeros(k);
    assert AllDigits(z + d, base) by {
      forall i | 0 <= i < |z + d|
        ensures IsDigit((z + d)[i], base)
      {
        if i < k {
          assert (z + d)[i] == '0';
        } else {
          assert (z + d)[i] == d[i - k];
        }
      }
    }
    if |d| == 0 {
      assert z + d == z;
      ZerosOnly(k, base);
    } else {
      AllDigitsPrefix(d, base);
      assert (z + d)[..|z + d| - 1] == z + d[..|d| - 1];
      ZerosValue(k, d[..|d| - 1], base);
    }
  }

  lemma {:induction false} ZerosOnly(k: nat, base: nat)
    requires 2 <= base
    ensures AllDigits(Zeros(k), base) && Value(Zeros(k), base) == 0
  {
    assert forall i :: 0 <= i < k ==> Zeros(k)[i] == '0';
    if k > 0 {
      assert Zeros(k)[..k - 1] == Zeros(k - 1);
      ZerosOnly(k - 1, base);
    }
  }

  /** The padded hex digits read back to the number. */
  lemma HexValue(n: nat, width: nat)
    ensures Value(Hex(n, width), 16) == n
  {
    DigitsValue(n, 16);
    var d := Digits(n, 16);
    if |d| < width {
      ZerosValue(width - |d|, d, 16);
    }
  }

  /** `int(s, 0)` of a decimal whose first digit is not 0. */
  lemma Base0Positive(d: string)
    requires |d| >= 1 && '1' <= d[0] <= '9' && AllDigits(d, 10) && !IsSpace(d[|d| - 1])
    ensures IntBase0(d) == Ok(Value(d, 10) as int)
  {
    Base0Signed(d);
    assert SplitSign(d) == (false, d);
  }

  /** `int(s, 0)` of a string with no surrounding space is its signed magnitude. */
  lemma Base0Signed(t: string)
    requires |t| >= 1 && !IsSpace(t[0]) && !IsSpace(t[|t| - 1])
    ensures IntBase0(t) == Negate(Base0Magnitude(SplitSign(t).1), SplitSign(t).0)
  {
    StripNoSpace(t);
  }

  /** `int(s, 0)` of `-` followed by a string that reads as `v` is `-v`. */
  lemma Base0Minus(t: string, d: string, v: nat)
    requires |t| >= 2 && t[0] == '-' && t[1..] == d && !IsSpace(d[|d| - 1])
    requires Base0Magnitude(d) == Ok(v)
    ensures IntBase0(t) == Ok(-(v as int))
  {
    assert t[|t| - 1] == d[|d| - 1];
    Base0Signed(t);
  }

  /** A decimal whose first digit is not 0 is read in base 10. */
  lemma DecimalMagnitude(d: string)
    requires |d| >= 1 && '1' <= d[0] <= '9' && AllDigits(d, 10)
    ensures Base0Magnitude(d) == Ok(Value(d, 10))
  {
  }

  /** `int(s, 0)` reads back what `'{:d}'` printed. */
  lemma DecimalRoundTrip(n: int)
    ensures IntBase0(Decimal(n)) == Ok(n)
  {
    if n < 0 {
      DecimalNegative(n);
    } else {
      DecimalNonNegative(n);
    }
  }

  lemma DecimalNonNegative(n: nat)
    ensures IntBase0(Digits(n, 10)) == Ok(n)
  {
    if n == 0 {
      DecimalZero();
    } else {
      DecimalPositive(n);
    }
  }

  lemma DecimalZero()
    ensures IntBase0(Digits(0, 10)) == Ok(0)
  {
    var d := Digits(0, 10);
    assert |d| == 1 && d[0] == '0';
    Base0Zero(d);
  }

  /** `int(s, 0)` of a single `0`. */
  lemma Base0Zero(t: string)
    requires |t| == 1 && t[0] == '0'
    ensures IntBase0(t) == Ok(0)
  {
    Base0Signed(t);
    assert SplitSign(t) == (false, t);
    assert t[..0] == [];
    assert Value(t, 10) == 0;
  }

  lemma DecimalPositive(n: nat)
    requires n > 0
    ensures IntBase0(Digits(n, 10)) == Ok(n)
  {
    PositiveDigits(n);
    Base0Positive(Digits(n, 10));
  }

  /** The decimal digits of a positive number start with `1` to `9`, end with no space
    * and read back as the number. */
  lemma PositiveDigits(n: nat)
    requires n > 0
    ensures var d := Digits(n, 10);
      |d| >= 1 && '1' <= d[0] <= '9' && AllDigits(d, 10) && !IsSpace(d[|d| - 1]) && Value(d, 10) == n
  {
    var d := Digits(n, 10);
    DigitsValue(n, 10);
    DigitsLead(n, 10);
    DecimalDigitChar(d[0]);
    DecimalDigitChar(d[|d| - 1]);
    LeadDigit(d[0]);
  }

  /** A decimal digit other than `0` is `1` to `9`. */
  lemma LeadDigit(c: char)
    requires '0' <= c <= '9' && c != '0'
    ensures '1' <= c <= '9'
  {
  }

  /** A decimal digit is `0` to `9`, and not a space. */
  lemma DecimalDigitChar(c: char)
    requires IsDigit(c, 10)
    ensures '0' <= c <= '9' && !IsSpace(c)
  {
  }

  lemma DecimalNegative(n: int)
    requires n < 0
    ensures IntBase0(Decimal(n)) == Ok(n)
  {
    PositiveDigits(-n);
    var d, t := Digits(-n, 10), Decimal(n);
    assert t[1..] == d;
    DecimalMagnitude(d);
    Base0Minus(t, d, -n);
  }

  /** `int(s, 0)` reads back `0x` followed by the hex digits, padded or not. */
  lemma HexRoundTrip(n: nat, width: nat)
    ensures IntBase0("0x" + Hex(n, width)) == Ok(n)
  {
    HexValue(n, width);
    var h := Hex(n, width);
    var t := "0x" + h;
    HexDigitChar(h[|h| - 1]);
    assert t[0] == '0' && t[1] == 'x' && t[|t| - 1] == h[|h| - 1];
    Base0Signed(t);
    assert SplitSign(t) == (false, t);
    assert t[2..] == h;
  }

  /** `int(s, 16)` of an unsigned string with no prefix and no surrounding space. */
  lemma Base16Plain(h: string)
    requires |h| >= 1 && !IsSpace(h[0]) && !IsSpace(h[|h| - 1]) && h[0] != '-' && h[0] != '+'
    requires !(|h| >= 2 && h[0] == '0' && (h[1] == 'x' || h[1] == 'X'))
    ensures IntBase16(h) == Negate(Unsigned(h, 16), false)
  {
    StripNoSpace(h);
  }

  /** `int(s, 16)` of a bare run of hex digits. */
  lemma Base16Digits(h: string)
    requires |h| >= 1 && AllDigits(h, 16)
    ensures IntBase16(h) == Ok(Value(h, 16) as int)
  {
    HexDigitChar(h[0]);
    HexDigitChar(h[|h| - 1]);
    if |h| >= 2 {
      HexDigitChar(h[1]);
    }
    Base16Plain(h);
  }

  /** `int("0x" + h, 16)` reads `h` as unsigned hex digits when it does not start with
    * the underscore the prefix allows, nor end with whitespace. */
  lemma PrefixedDigits(h: string)
    requires |h| >= 1 && h[0] != '_' && !IsSpace(h[|h| - 1])
    ensures IntBase16("0x" + h) == Negate(Unsigned(h, 16), false)
  {
    var t := "0x" + h;
    assert t[0] == '0' && t[1] == 'x' && t[|t| - 1] == h[|h| - 1];
    StripNoSpace(t);
    assert SplitSign(t) == (false, t);
    assert t[2..] == h;
  }

  /** A sign after the `0x` prefix is refused. */
  lemma SignAfterPrefix(t: string)
    requires |t| >= 3 && t[0] == '0' && t[1] == 'x' && (t[2] == '-' || t[2] == '+')
    ensures IntBase16(t) == Err(ValueError)
  {
    StripKeeps(t, 2);
    var u := Strip(t);
    assert u[0] == '0' && u[1] == 'x' && u[2] == t[2];
    assert SplitSign(u) == (false, u);
    assert !Grouped(u[2..], 16);
  }

  /** `int(s, 16)` reads back the bare hex digits. */
  lemma Hex16RoundTrip(n: nat, width: nat)
    ensures IntBase16(Hex(n, width)) == Ok(n)
  {
    HexValue(n, width);
    Base16Digits(Hex(n, width));
  }

  /** An empty or all-blank string is not a number. */
  lemma BlankIsError(s: string)
    requires forall i :: 0 <= i < |s| ==> IsSpace(s[i])
    ensures IntBase0(s) == Err(ValueError) && IntBase16(s) == Err(ValueError)
  {
  }

  /** A decimal with a leading zero is refused unless all its digits are zero. */
  lemma LeadingZeroIsError(s: string)
    requires |s| >= 2 && s[0] == '0' && '1' <= s[1] <= '9' && !IsSpace(s[|s| - 1])
    ensures IntBase0(s) == Err(ValueError)
  {
    Base0Signed(s);
    assert SplitSign(s) == (false, s);
    assert Base0Magnitude(s) == Err(ValueError) by {
      assert !AllZeros(s);
    }
  }
}
