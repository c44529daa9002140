// The payloads' string-to-unsigned conversions: an atoi-like parse with no overflow
// check, in 32-bit unsigned arithmetic.

module Str2Uint {

  import opened Errors

  /** 2^32: `unsigned int` arithmetic wraps modulo this. */
  const Word: nat := 0x1_0000_0000

  /** `strlen`: the length up to the first NUL (or the whole buffer when it has none). */
  function Strlen(s: seq<char>): (n: nat)
    ensures n <= |s|
    ensures forall i :: 0 <= i < n ==> s[i] != '\0'
    ensures n < |s| ==> s[n] == '\0'
  {
    if |s| == 0 || s[0] == '\0' then 0 else 1 + Strlen(s[1..])
  }

  /** The value of one digit character in base 16 (`hex`) or 10, if it is one. */
  function Digit(c: char, hex: bool): (r: Option<nat>)
    ensures r.Some? ==> r.value < (if hex then 16 else 10)
    ensures !hex ==> (r.Some? <==> '0' <= c <= '9')
    ensures hex ==> (r.Some? <==> ('0' <= c <= '9' || 'a' <= c <= 'f' || 'A' <= c <= 'F'))
  {
    if '0' <= c <= '9' then Some(c as nat - '0' as nat)
    else if hex && 'a' <= c <= 'f' then Some(c as nat - 'a' as nat + 10)
    else if hex && 'A' <= c <= 'F' then Some(c as nat - 'A' as nat + 10)
    else None
  }

  function Base(hex: bool): nat { if hex then 16 else 10 }

  /** One step of the loop: shift (or multiply) then add, each wrapping at 2^32. */
  function Step(v: nat, d: nat, hex: bool): nat
  {
    (Shift(v, hex) + d) % Word
  }

  /** `value <<= 4` (hex) or `value *= 10`, in 32 bits. */
  function Shift(v: nat, hex: bool): (r: nat)
    ensures r < Word
  {
    (v * Base(hex)) % Word
  }

  /** The value after the first `n` characters, or None once one is not a digit. */
  function Fold(s: seq<char>, n: nat, hex: bool): (r: Option<nat>)
    requires n <= |s|
    ensures r.Some? ==> r.value < Word
    ensures r.Some? <==> forall i :: 0 <= i < n ==> Digit(s[i], hex).Some?
  {
    if n == 0 then Some(0)
    else
      match Fold(s, n - 1, hex)
      case None => None
      case Some(v) =>
        match Digit(s[n - 1], hex)
        case None => None
        case Some(d) => Some(Step(v, d, hex))
  }

  /** What `str2uint_hex` / `str2uint_dec` return: the folded value, 0 on a bad character. */
  function Parse(s: seq<char>, hex: bool): (r: nat)
    ensures r < Word
    ensures (exists i :: 0 <= i < Strlen(s) && Digit(s[i], hex).None?) ==> r == 0
  {
    match Fold(s, Strlen(s), hex)
    case None => 0
    case Some(v) => v
  }

  /** The loop of `str2uint_hex` (hex) and `str2uint_dec`. */
  method ParseDigits(s: seq<char>, hex: bool) returns (value: nat)
    ensures value == Parse(s, hex)
    ensures value < Word
  {
    value := 0;
    var i := 0;
    while i < |s| && s[i] != '\0'
      invariant 0 <= i <= Strlen(s)
      invariant Fold(s, i, hex) == Some(value)
    {
      ghost var prev := value;
      value := Shift(value, hex);
      var c := s[i];
      var d: nat;
      if '0' <= c <= '9' {
        d := c as nat - '0' as nat;
      } else if hex && 'a' <= c <= 'f' {
        d := c as nat - 'a' as nat + 10;
      } else if hex && 'A' <= c <= 'F' {
        d := c as nat - 'A' as nat + 10;
      } else {
        return 0;
      }
      value := (value + d) % Word;
      assert Digit(c, hex) == Some(d) && value == Step(prev, d, hex);
      i := i + 1;
    }
  }

  /** `str2uint`: a "0x" prefix on a string longer than two selects hexadecimal. */
  method StrToUint(s: seq<char>) returns (value: nat)
    ensures Strlen(s) > 2 && s[0] == '0' && s[1] == 'x' ==> value == Parse(s[2..], true)
    ensures !(Strlen(s) > 2 && s[0] == '0' && s[1] == 'x') ==> value == Parse(s, false)
    ensures value < Word
  {
    if Strlen(s) > 2 && s[0] == '0' && s[1] == 'x' {
      value := ParseDigits(s[2..], true);
    } else {
      value := ParseDigits(s, false);
    }
  }

  /** The unbounded value of the first `n` characters, all digits. */
  function Number(s: seq<char>, n: nat, hex: bool): nat
    requires n <= |s|
    requires forall i :: 0 <= i < n ==> Digit(s[i], hex).Some?
  {
    if n == 0 then 0 else Number(s, n - 1, hex) * Base(hex) + Digit(s[n - 1], hex).value
  }

  lemma ModMul(a: nat, b: nat)
    ensures ((a % Word) * b) % Word == (a * b) % Word
  {
    var q, r := a / Word, a % Word;
    assert a * b == (q * b) * Word + r * b by {
      assert a == q * Word + r;
    }
    ModShift(q * b, r * b);
  }

  lemma ModShift(k: nat, x: nat)
    ensures (k * Word + x) % Word == x % Word
  {
  }

  lemma ModAdd(a: nat, d: nat)
    ensures (a % Word + d) % Word == (a + d) % Word
  {
    ModShift(a / Word, a % Word + d);
  }

  /** Wrapping at every step gives the true value reduced modulo 2^32: the overflow is
    * silent, never an error. */
  lemma {:induction false} FoldWraps(s: seq<char>, n: nat, hex: bool)
    requires n <= |s|
    requires forall i :: 0 <= i < n ==> Digit(s[i], hex).Some?
    ensures Fold(s, n, hex) == Some(Number(s, n, hex) % Word)
  {
    if n > 0 {
      FoldWraps(s, n - 1, hex);
      StepMod(Number(s, n - 1, hex), Digit(s[n - 1], hex).value, hex);
    }
  }

  lemma StepMod(a: nat, d: nat, hex: bool)
    ensures Step(a % Word, d, hex) == (a * Base(hex) + d) % Word
  {
    ModMul(a, Base(hex));
    ModAdd(a * Base(hex), d);
  }

  /** Any non-digit before the terminator makes the conversion return 0. */
  lemma BadCharIsZero(s: seq<char>, hex: bool, k: nat)
    requires k < Strlen(s) && Digit(s[k], hex).None?
    ensures Parse(s, hex) == 0
  {
  }

  /** "0x" alone has no digits after it: it is read as a decimal and fails on 'x'. */
  lemma BarePrefixIsZero()
    ensures Parse("0x", false) == 0
  {
    BadCharIsZero("0x", false, 1);
  }

  /** The decimal digits of n, most significant first. */
  function DecString(n: nat): (r: seq<char>)
    ensures |r| >= 1
    ensures forall i :: 0 <= i < |r| ==> '0' <= r[i] <= '9'
    decreases n
  {
    (if n < 10 then [] else DecString(n / 10)) + [DecChar(n % 10)]
  }

  /** The decimal digit for `d`. */
  function DecChar(d: nat): (c: char)
    requires d < 10
    ensures Digit(c, false) == Some(d) && '0' <= c <= '9'
  {
    '0' + d as char
  }

  /** The hexadecimal digits of n in lower case, most significant first. */
  function HexString(n: nat): (r: seq<char>)
    ensures |r| >= 1
    ensures forall i :: 0 <= i < |r| ==> '0' <= r[i] <= '9' || 'a' <= r[i] <= 'f'
    decreases n
  {
    (if n < 16 then [] else HexString(n / 16)) + [HexChar(n % 16)]
  }

  function HexChar(d: nat): (c: char)
    requires d < 16
    ensures Digit(c, true) == Some(d)
  {
    if d < 10 then '0' + d as char else 'a' + (d - 10) as char
  }

  lemma {:induction false} DecStringNumber(n: nat)
    ensures forall i :: 0 <= i < |DecString(n)| ==> Digit(DecString(n)[i], false).Some?
    ensures Number(DecString(n), |DecString(n)|, false) == n
    decreases n
  {
    var s := DecString(n);
    if n >= 10 {
      DecStringNumber(n / 10);
      var p := DecString(n / 10);
      var t := [DecChar(n % 10)];
      assert s == p + t;
      NumberPrefix(p, t, false);
      assert n == (n / 10) * 10 + n % 10;
    }
  }

  lemma {:induction false} HexStringNumber(n: nat)
    ensures forall i :: 0 <= i < |HexString(n)| ==> Digit(HexString(n)[i], true).Some?
    ensures Number(HexString(n), |HexString(n)|, true) == n
    decreases n
  {
    var s := HexString(n);
    if n >= 16 {
      HexStringNumber(n / 16);
      var p := HexString(n / 16);
      assert s == p + [HexChar(n % 16)];
      NumberPrefix(p, [HexChar(n % 16)], true);
    }
  }

  /** The number of a prefix does not depend on what follows it. */
  lemma {:induction false} NumberPrefix(p: seq<char>, t: seq<char>, hex: bool)
    requires |t| == 1
    requires forall i :: 0 <= i < |p| ==> Digit(p[i], hex).Some?
    requires Digit(t[0], hex).Some?
    requires forall i :: 0 <= i < |p + t| ==> Digit((p + t)[i], hex).Some?
    ensures Number(p + t, |p + t|, hex) == Number(p, |p|, hex) * Base(hex) + Digit(t[0], hex).value
  {
    NumberSame(p, p + t, |p|, hex);
  }

  lemma {:induction false} NumberSame(a: seq<char>, b: seq<char>, n: nat, hex: bool)
    requires n <= |a| && n <= |b| && a[..n] == b[..n]
    requires forall i :: 0 <= i < n ==> Digit(a[i], hex).Some?
    ensures forall i :: 0 <= i < n ==> Digit(b[i], hex).Some?
    ensures Number(a, n, hex) == Number(b, n, hex)
  {
    assert forall i :: 0 <= i < n ==> a[i] == a[..n][i] == b[..n][i] == b[i];
    if n > 0 {
      assert a[..n - 1] == a[..n][..n - 1];
      assert b[..n - 1] == b[..n][..n - 1];
      NumberSame(a, b, n - 1, hex);
    }
  }

  lemma StrlenNoNul(s: seq<char>)
    requires forall i :: 0 <= i < |s| ==> s[i] != '\0'
    ensures Strlen(s) == |s|
  {
  }

  /** Printing n in decimal and converting it back gives n modulo 2^32. */
  lemma DecRoundTrip(n: nat)
    ensures Parse(DecString(n), false) == n % Word
  {
    DecStringNumber(n);
    StrlenNoNul(DecString(n));
    FoldWraps(DecString(n), |DecString(n)|, false);
  }

  /** Printing n in hexadecimal after "0x" and converting it back gives n modulo 2^32. */
  lemma HexRoundTrip(n: nat)
    ensures Parse(HexString(n), true) == n % Word
    ensures Strlen("0x" + HexString(n)) > 2
    ensures ("0x" + HexString(n))[2..] == HexString(n)
  {
    HexStringNumber(n);
    StrlenNoNul(HexString(n));
    StrlenNoNul("0x" + HexString(n));
    FoldWraps(HexString(n), |HexString(n)|, true);
  }
}
