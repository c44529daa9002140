/** `depthcharge.string`: lengths with size suffixes, `key=value` argument lists, and the
  * `xxd -g1` style hex dump and its reverse. */
module StringUtil {
  import opened Errors
  import opened PyStr
  import PyInt
  import PyBytes

  type byte = PyBytes.byte

  // ---- length_to_int ----

  /** A length suffix and the factor it multiplies by. */
  datatype Suffix = Suffix(text: string, factor: nat)

  /** `_BYTE_LENGTH_SUFFIXES` as written, in dictionary order. Its last key has a
    * lower-case `i`, although the text it is compared with has been upper-cased. */
  const SUFFIXES_AS_WRITTEN: seq<Suffix> := [
    Suffix("KB", 1000), Suffix("K", 1024), Suffix("KIB", 1024),
    Suffix("MB", 1000000), Suffix("M", 1048576), Suffix("MIB", 1048576),
    Suffix("GB", 1000000000), Suffix("G", 1073741824), Suffix("GiB", 1073741824)]

  /** The table with every key upper-case, as its comment intends. */
  const SUFFIXES: seq<Suffix> := [
    Suffix("KB", 1000), Suffix("K", 1024), Suffix("KIB", 1024),
    Suffix("MB", 1000000), Suffix("M", 1048576), Suffix("MIB", 1048576),
    Suffix("GB", 1000000000), Suffix("G", 1073741824), Suffix("GIB", 1073741824)]

  /** `to_positive_int(string, desc, exit_on_fail)`: the value of `int(string, 0)` when
    * it is not negative. Otherwise the program exits (modelled as SystemExit), or, when
    * asked not to, the function falls off its end and returns None. */
  function ToPositiveInt(s: string, exitOnFail: bool): (r: Result<Option<nat>>)
    ensures r.Ok? && r.value.Some? <==> PyInt.IntBase0(s).Ok? && PyInt.IntBase0(s).value >= 0
    ensures r.Ok? && r.value.Some? ==> r.value.value == PyInt.IntBase0(s).value
    ensures r.Err? <==> exitOnFail && !(PyInt.IntBase0(s).Ok? && PyInt.IntBase0(s).value >= 0)
    ensures r.Err? ==> r.error == SystemExit
  {
    match PyInt.IntBase0(s)
    case Ok(v) =>
      if v >= 0 then Ok(Some(v as nat)) else if exitOnFail then Err(SystemExit) else Ok(None)
    case Err(_) => if exitOnFail then Err(SystemExit) else Ok(None)
  }

  /** The printed form of a natural number is a positive integer. */
  lemma ToPositiveIntDecimal(n: nat, exitOnFail: bool)
    ensures ToPositiveInt(PyInt.Decimal(n), exitOnFail) == Ok(Some(n))
  {
    PyInt.DecimalRoundTrip(n);
  }

  /** The printed form of a negative number is refused. */
  lemma ToPositiveIntNegative(n: int, exitOnFail: bool)
    requires n < 0
    ensures ToPositiveInt(PyInt.Decimal(n), exitOnFail) == if exitOnFail then Err(SystemExit) else Ok(None)
  {
    PyInt.DecimalRoundTrip(n);
  }

  /** The position of the first entry from `k` on whose key `u` ends with. */
  function FirstSuffix(table: seq<Suffix>, u: string, k: nat): (r: Option<nat>)
    requires k <= |table|
    ensures r.Some? ==> k <= r.value < |table| && EndsWith(u, table[r.value].text)
    ensures r.Some? ==> forall i :: k <= i < r.value ==> !EndsWith(u, table[i].text)
    ensures r.None? ==> forall i :: k <= i < |table| ==> !EndsWith(u, table[i].text)
    decreases |table| - k
  {
    if k == |table| then None
    else if EndsWith(u, table[k].text) then Some(k)
    else FirstSuffix(table, u, k + 1)
  }

  /** The text the suffixes are matched against: spaces removed, upper-cased. */
  function Folded(s: string): (r: string)
    ensures |r| <= |s|
  {
    Upper(Without(s, ' '))
  }

  /** What `length_to_int(len_str, desc, exit_on_fail)` returns with the given suffix
    * table: `int(len_str, 0)` when that parses; otherwise the number in front of the
    * first matching suffix times its factor. No suffix is ValueError; a number
    * `to_positive_int` refuses is SystemExit, or TypeError from `None * factor`. */
  function Length(table: seq<Suffix>, s: string, exitOnFail: bool): Result<int>
  {
    match PyInt.IntBase0(s)
    case Ok(v) => Ok(v)
    case Err(_) => Suffixed(table, Folded(s), exitOnFail)
  }

  /** The first suffix `u` ends with, applied; ValueError when there is none. */
  function Suffixed(table: seq<Suffix>, u: string, exitOnFail: bool): Result<int>
  {
    match FirstSuffix(table, u, 0)
    case None => Err(ValueError)
    case Some(j) => Scaled(table[j], u, exitOnFail)
  }

  /** The folded text `u` ends in the suffix: what is in front of it, times its factor. */
  function Scaled(x: Suffix, u: string, exitOnFail: bool): Result<int>
    requires |x.text| <= |u|
  {
    match ToPositiveInt(u[..|u| - |x.text|], exitOnFail)
    case Err(e) => Err(e)
    case Ok(None) => Err(TypeError)
    case Ok(Some(v)) => Ok(v * x.factor)
  }

  /** `length_to_int`: the plain integer first, then the suffixes in table order. The
    * table is a parameter; the source's is `SUFFIXES_AS_WRITTEN`. */
  method LengthToInt(table: seq<Suffix>, s: string, exitOnFail: bool) returns (r: Result<int>)
    ensures r == Length(table, s, exitOnFail)
  {
    var plain := PyInt.IntBase0(s);
    if plain.Ok? {
      return Ok(plain.value);
    }
    r := ScaleBySuffix(table, Folded(s), exitOnFail);
  }

  /** The loop over the suffixes of `length_to_int`: the first one the folded text ends
    * with decides the result. */
  method ScaleBySuffix(table: seq<Suffix>, u: string, exitOnFail: bool) returns (r: Result<int>)
    ensures r == Suffixed(table, u, exitOnFail)
  {
    for k := 0 to |table|
      invariant FirstSuffix(table, u, 0) == FirstSuffix(table, u, k)
    {
      if EndsWith(u, table[k].text) {
        return Scaled(table[k], u, exitOnFail);
      }
    }
    return Err(ValueError);
  }

  predicate IsUpperLetter(c: char)
  {
    'A' <= c <= 'Z'
  }

  /** Every key is upper-case letters and does not start with `X`, which after a `0`
    * would read as a hexadecimal prefix. */
  ghost predicate UpperKeys(table: seq<Suffix>)
  {
    forall j :: 0 <= j < |table| ==>
      |table[j].text| >= 1 && table[j].text[0] != 'X' &&
      forall i :: 0 <= i < |table[j].text| ==> IsUpperLetter(table[j].text[i])
  }

  /** No key before entry `j` is a suffix of its key, so it is entry `j` that matches. */
  ghost predicate Unshadowed(table: seq<Suffix>, j: nat)
    requires j < |table|
  {
    forall i :: 0 <= i < j ==> !EndsWith(table[j].text, table[i].text)
  }

  lemma SuffixesWellFormed()
    ensures UpperKeys(SUFFIXES)
    ensures forall j :: 0 <= j < |SUFFIXES| ==> Unshadowed(SUFFIXES, j)
  {
    SuffixesUpper();
    SuffixesUnshadowed();
  }

  lemma SuffixesUpper()
    ensures UpperKeys(SUFFIXES)
  {
    forall j | 0 <= j < |SUFFIXES|
      ensures |SUFFIXES[j].text| >= 1 && SUFFIXES[j].text[0] != 'X'
      ensures forall i :: 0 <= i < |SUFFIXES[j].text| ==> IsUpperLetter(SUFFIXES[j].text[i])
    {
    }
  }

  lemma SuffixesApart()
    ensures forall j, i :: 0 <= i < j < |SUFFIXES| ==> EndsApart(SUFFIXES[j].text, SUFFIXES[i].text)
  {
  }

  lemma SuffixesUnshadowed()
    ensures forall j :: 0 <= j < |SUFFIXES| ==> Unshadowed(SUFFIXES, j)
  {
    SuffixesApart();
    forall j, i | 0 <= i < j < |SUFFIXES|
      ensures !EndsWith(SUFFIXES[j].text, SUFFIXES[i].text)
    {
      EndsApartNotEnds(SUFFIXES[j].text, SUFFIXES[i].text);
    }
  }

  /** `b` is longer than `a`, or one of their last three characters differs. */
  predicate EndsApart(a: string, b: string)
  {
    |b| > |a| || ApartAt(a, b, 1) || ApartAt(a, b, 2) || ApartAt(a, b, 3)
  }

  /** The `k`-th characters from the end of `a` and `b` differ. */
  predicate ApartAt(a: string, b: string, k: nat)
  {
    1 <= k <= |b| <= |a| && a[|a| - k] != b[|b| - k]
  }

  lemma EndsApartNotEnds(a: string, b: string)
    requires EndsApart(a, b)
    ensures !EndsWith(a, b)
  {
    if |b| <= |a| {
      var k := if ApartAt(a, b, 1) then 1 else if ApartAt(a, b, 2) then 2 else 3;
      assert a[|a| - |b|..][|b| - k] == a[|a| - k];
    }
  }

  /** The first match is entry `j` when it matches and nothing before it does. */
  lemma {:induction false} FirstSuffixIs(table: seq<Suffix>, u: string, j: nat, k: nat)
    requires k <= j < |table| && EndsWith(u, table[j].text)
    requires forall i :: k <= i < j ==> !EndsWith(u, table[i].text)
    ensures FirstSuffix(table, u, k) == Some(j)
    decreases j - k
  {
    if k < j {
      FirstSuffixIs(table, u, j, k + 1);
    }
  }

  /** A key of letters that does not end `key` does not end a number followed by `key`. */
  lemma NotEndsAfterDigits(d: string, key: string, other: string)
    requires forall i :: 0 <= i < |d| ==> '0' <= d[i] <= '9'
    requires |other| >= 1 && forall i :: 0 <= i < |other| ==> IsLetter(other[i])
    requires !EndsWith(key, other)
    ensures !EndsWith(d + key, other)
  {
    var u := d + key;
    if |other| <= |key| {
      assert u[|u| - |other|..] == key[|key| - |other|..];
    } else if |other| <= |u| {
      assert u[|u| - |other|..][0] == u[|u| - |other|] == d[|u| - |other|];
    }
  }

  /** The printed form of a natural number is decimal digits. */
  lemma DecimalDigits(n: nat)
    ensures forall i :: 0 <= i < |PyInt.Decimal(n)| ==> '0' <= PyInt.Decimal(n)[i] <= '9'
  {
    var d := PyInt.Decimal(n);
    forall i | 0 <= i < |d|
      ensures '0' <= d[i] <= '9'
    {
      PyInt.DecimalDigitChar(d[i]);
    }
  }

  /** With a well-formed table, a number followed by a key (after the spaces go and the
    * letters are upper-cased) is that number times the key's factor. */
  lemma LengthSuffixed(table: seq<Suffix>, s: string, n: nat, j: nat, exitOnFail: bool)
    requires UpperKeys(table) && j < |table| && Unshadowed(table, j)
    requires PyInt.IntBase0(s).Err?
    requires Folded(s) == PyInt.Decimal(n) + table[j].text
    ensures Length(table, s, exitOnFail) == Ok(n * table[j].factor)
  {
    LengthNotPlain(table, s, exitOnFail);
    SuffixedNumber(table, n, j, exitOnFail);
  }

  /** A text that is not a plain integer goes to the suffixes. */
  lemma LengthNotPlain(table: seq<Suffix>, s: string, exitOnFail: bool)
    requires PyInt.IntBase0(s).Err?
    ensures Length(table, s, exitOnFail) == Suffixed(table, Folded(s), exitOnFail)
  {
  }

  /** A number followed by entry `j`'s key, when no earlier key matches it. */
  lemma SuffixedNumber(table: seq<Suffix>, n: nat, j: nat, exitOnFail: bool)
    requires UpperKeys(table) && j < |table| && Unshadowed(table, j)
    ensures Suffixed(table, PyInt.Decimal(n) + table[j].text, exitOnFail) == Ok(n * table[j].factor)
  {
    var d, key := PyInt.Decimal(n), table[j].text;
    var u := d + key;
    DecimalDigits(n);
    forall i | 0 <= i < j
      ensures !EndsWith(u, table[i].text)
    {
      NotEndsAfterDigits(d, key, table[i].text);
    }
    assert u[|u| - |key|..] == key;
    FirstSuffixIs(table, u, j, 0);
    assert u[..|u| - |key|] == d;
    ToPositiveIntDecimal(n, exitOnFail);
  }

  /** A number followed directly by a key is not a plain integer. */
  lemma SuffixedIsNotPlain(n: nat, key: string)
    requires |key| >= 1 && key[0] != 'X' && key[0] != 'x' && forall i :: 0 <= i < |key| ==> IsLetter(key[i])
    ensures PyInt.IntBase0(PyInt.Decimal(n) + key).Err?
  {
    var d := PyInt.Decimal(n);
    DecimalDigits(n);
    if d[0] == '0' {
      DigitsSingle(n);
    }
    DigitsLettersNotPlain(d, key);
  }

  /** Digits (no leading zero unless a lone `0`) followed by letters are not an integer
    * literal. */
  lemma DigitsLettersNotPlain(d: string, key: string)
    requires |d| >= 1 && forall i :: 0 <= i < |d| ==> '0' <= d[i] <= '9'
    requires d[0] == '0' ==> |d| == 1
    requires |key| >= 1 && key[0] != 'X' && key[0] != 'x' && forall i :: 0 <= i < |key| ==> IsLetter(key[i])
    ensures PyInt.IntBase0(d + key).Err?
  {
    var t := d + key;
    assert t[0] == d[0] && t[|t| - 1] == key[|key| - 1] && t[|d|] == key[0];
    CharClasses(d[0], key[|key| - 1]);
    PyInt.Base0Signed(t);
    assert PyInt.SplitSign(t) == (false, t);
    LetterNotDecimal(key[0]);
    if d[0] == '0' {
      assert t == "0" + key;
      ZeroThenLetters(key);
    }
  }

  lemma CharClasses(digit: char, letter: char)
    requires '0' <= digit <= '9' && IsLetter(letter)
    ensures !PyInt.IsSpace(digit) && digit != '-' && digit != '+' && !PyInt.IsSpace(letter)
  {
  }

  lemma LetterNotDecimal(c: char)
    requires IsLetter(c)
    ensures !PyInt.IsDigit(c, 10) && !PyInt.IsDigit(c, 8) && !PyInt.IsDigit(c, 2) && c != '0'
  {
  }

  /** `0` followed by letters (not starting with `x`) is not a magnitude. */
  lemma ZeroThenLetters(key: string)
    requires |key| >= 1 && key[0] != 'X' && key[0] != 'x' && forall i :: 0 <= i < |key| ==> IsLetter(key[i])
    ensures PyInt.Base0Magnitude("0" + key).Err?
  {
    var t := "0" + key;
    assert t[1] == key[0];
    LetterNotDecimal(key[0]);
    assert !PyInt.AllZeros(t);
    if |key| >= 2 {
      assert t[2..][0] == key[1];
      LetterNotDecimal(key[1]);
    } else {
      assert t[2..] == [];
    }
  }

  /** `0` prints as one digit. */
  lemma DigitsSingle(n: nat)
    requires PyInt.Digits(n, 10)[0] == '0'
    ensures |PyInt.Digits(n, 10)| == 1
  {
    PyInt.DigitsLead(n, 10);
    PyInt.DivMod(n, 10);
  }

  predicate IsLetter(c: char)
  {
    'A' <= c <= 'Z' || 'a' <= c <= 'z'
  }

  /** With a well-formed table, a number followed directly by a key that upper-cases to
    * entry `j`'s is the number times its factor. */
  lemma LengthNumberKey(table: seq<Suffix>, n: nat, key: string, j: nat, exitOnFail: bool)
    requires UpperKeys(table) && j < |table| && Unshadowed(table, j)
    requires forall i :: 0 <= i < |key| ==> IsLetter(key[i])
    requires Upper(key) == table[j].text
    ensures Length(table, PyInt.Decimal(n) + key, exitOnFail) == Ok(n * table[j].factor)
  {
    FirstNotX(key, table[j].text);
    LengthNumberLetters(table, n, key, exitOnFail);
    SuffixedNumber(table, n, j, exitOnFail);
  }

  /** A key that upper-cases to one not starting with `X` starts with neither `x` nor `X`. */
  lemma FirstNotX(key: string, up: string)
    requires Upper(key) == up && |up| >= 1 && up[0] != 'X'
    ensures key[0] != 'X' && key[0] != 'x'
  {
    assert UpperChar(key[0]) == up[0];
  }

  /** Digits then letters fold to the digits then the upper-cased letters. */
  lemma FoldedNumberKey(d: string, key: string)
    requires forall i :: 0 <= i < |d| ==> '0' <= d[i] <= '9'
    requires forall i :: 0 <= i < |key| ==> IsLetter(key[i])
    ensures Folded(d + key) == d + Upper(key)
  {
    assert ' ' !in d && ' ' !in key;
    WithoutAbsent(d + key, ' ');
    UpperConcat(d, key);
    UpperFixed(d);
  }

  /** For every key of the corrected table, in either case: a number followed by the key
    * is the number times the key's factor. */
  lemma LengthToIntKey(n: nat, key: string, j: nat, exitOnFail: bool)
    requires j < |SUFFIXES|
    requires forall i :: 0 <= i < |key| ==> IsLetter(key[i])
    requires Upper(key) == SUFFIXES[j].text
    ensures Length(SUFFIXES, PyInt.Decimal(n) + key, exitOnFail) == Ok(n * SUFFIXES[j].factor)
  {
    SuffixesWellFormed();
    LengthNumberKey(SUFFIXES, n, key, j, exitOnFail);
  }

  // ---- the `GiB` key ----

  /** The last key of the table as written can never match: the text it is compared
    * with has been upper-cased, and `GiB` holds a lower-case letter. */
  lemma AsWrittenGiBDead(s: string)
    ensures SUFFIXES_AS_WRITTEN[8].text == "GiB"
    ensures !EndsWith(Folded(s), "GiB")
  {
    var u := Folded(s);
    if EndsWith(u, "GiB") {
      assert u[|u| - 2] == "GiB"[1];
      UpperHasNoLower(Without(s, ' '), |u| - 2);
    }
  }

  /** The keys of the table as written are letters, and none of them ends `GIB`. */
  lemma AsWrittenApartFromGIB()
    ensures forall i :: 0 <= i < |SUFFIXES_AS_WRITTEN| ==>
      |SUFFIXES_AS_WRITTEN[i].text| >= 1 && EndsApart("GIB", SUFFIXES_AS_WRITTEN[i].text)
    ensures forall i, k :: 0 <= i < |SUFFIXES_AS_WRITTEN| && 0 <= k < |SUFFIXES_AS_WRITTEN[i].text| ==>
      IsLetter(SUFFIXES_AS_WRITTEN[i].text[k])
  {
  }

  /** As written, a number followed by `GiB` (in any case) is refused with ValueError. */
  lemma LengthGiBAsWritten(n: nat, key: string, exitOnFail: bool)
    requires forall i :: 0 <= i < |key| ==> IsLetter(key[i])
    requires Upper(key) == "GIB"
    ensures Length(SUFFIXES_AS_WRITTEN, PyInt.Decimal(n) + key, exitOnFail) == Err(ValueError)
  {
    FirstNotX(key, "GIB");
    DecimalDigits(n);
    NoSuffixAsWritten(PyInt.Decimal(n));
    LengthNoSuffix(SUFFIXES_AS_WRITTEN, n, key, exitOnFail);
  }

  /** A number followed by letters that no key matches is refused with ValueError. */
  lemma LengthNoSuffix(table: seq<Suffix>, n: nat, key: string, exitOnFail: bool)
    requires |key| >= 1 && key[0] != 'X' && key[0] != 'x' && forall i :: 0 <= i < |key| ==> IsLetter(key[i])
    requires FirstSuffix(table, PyInt.Decimal(n) + Upper(key), 0).None?
    ensures Length(table, PyInt.Decimal(n) + key, exitOnFail) == Err(ValueError)
  {
    LengthNumberLetters(table, n, key, exitOnFail);
  }

  /** A number followed by letters (not starting with `x`) goes to the suffixes, which
    * see the number and the upper-cased letters. */
  lemma LengthNumberLetters(table: seq<Suffix>, n: nat, key: string, exitOnFail: bool)
    requires |key| >= 1 && key[0] != 'X' && key[0] != 'x' && forall i :: 0 <= i < |key| ==> IsLetter(key[i])
    ensures Length(table, PyInt.Decimal(n) + key, exitOnFail) ==
      Suffixed(table, PyInt.Decimal(n) + Upper(key), exitOnFail)
  {
    var s := PyInt.Decimal(n) + key;
    assert Folded(s) == PyInt.Decimal(n) + Upper(key) by {
      DecimalDigits(n);
      FoldedNumberKey(PyInt.Decimal(n), key);
    }
    assert PyInt.IntBase0(s).Err? by {
      SuffixedIsNotPlain(n, key);
    }
    LengthNotPlain(table, s, exitOnFail);
  }

  /** No key of the table as written ends a number followed by `GIB`. */
  lemma NoSuffixAsWritten(d: string)
    requires forall i :: 0 <= i < |d| ==> '0' <= d[i] <= '9'
    ensures FirstSuffix(SUFFIXES_AS_WRITTEN, d + "GIB", 0).None?
  {
    AsWrittenApartFromGIB();
    forall i | 0 <= i < |SUFFIXES_AS_WRITTEN|
      ensures !EndsWith(d + "GIB", SUFFIXES_AS_WRITTEN[i].text)
    {
      EndsApartNotEnds("GIB", SUFFIXES_AS_WRITTEN[i].text);
      NotEndsAfterDigits(d, "GIB", SUFFIXES_AS_WRITTEN[i].text);
    }
  }

  /** The corrected table reads `1GiB` as 2^30 bytes. */
  lemma LengthGiB(n: nat, exitOnFail: bool)
    ensures Length(SUFFIXES, PyInt.Decimal(n) + "GiB", exitOnFail) == Ok(n * 1073741824)
  {
    assert Upper("GiB") == "GIB";
    LengthToIntKey(n, "GiB", 8, exitOnFail);
  }

  /** The two tables differ only in the last key, which as written never matches; so they
    * give the same result on every text whose folded form does not end in `GIB`. */
  lemma LengthTablesAgree(s: string, exitOnFail: bool)
    requires !EndsWith(Folded(s), "GIB")
    ensures Length(SUFFIXES_AS_WRITTEN, s, exitOnFail) == Length(SUFFIXES, s, exitOnFail)
  {
    var u := Folded(s);
    AsWrittenGiBDead(s);
    TablesShareAllButLast();
    FirstSuffixAgree(SUFFIXES_AS_WRITTEN, SUFFIXES, u, 0);
  }

  lemma TablesShareAllButLast()
    ensures |SUFFIXES_AS_WRITTEN| == |SUFFIXES| == 9
    ensures SUFFIXES[8].text == "GIB" && SUFFIXES_AS_WRITTEN[8].text == "GiB"
    ensures SUFFIXES[..8] == SUFFIXES_AS_WRITTEN[..8]
  {
  }

  /** Two tables that differ only in a last entry that does not match give the same
    * search result from any `k`, and it is not the last entry. */
  lemma {:induction false} FirstSuffixAgree(t1: seq<Suffix>, t2: seq<Suffix>, u: string, k: nat)
    requires |t1| == |t2| >= 1 && k <= |t1| && t1[..|t1| - 1] == t2[..|t2| - 1]
    requires !EndsWith(u, t1[|t1| - 1].text) && !EndsWith(u, t2[|t2| - 1].text)
    ensures FirstSuffix(t1, u, k) == FirstSuffix(t2, u, k)
    ensures FirstSuffix(t1, u, k).Some? ==> FirstSuffix(t1, u, k).value < |t1| - 1
    decreases |t1| - k
  {
    if k < |t1| {
      FirstSuffixAgree(t1, t2, u, k + 1);
      if k < |t1| - 1 {
        assert t1[k] == t1[..|t1| - 1][k] == t2[k];
      }
    }
  }

  // ---- keyval_list_to_dict and str_to_property_keyval ----

  /** A setting's value: True for a bare key, an integer when `int(value, 0)` reads
    * the text, otherwise the text. */
  datatype KeyvalValue = Flag | IntValue(i: int) | StrValue(s: string)

  /** A dictionary: its entries in insertion order. */
  type Dict = seq<(string, KeyvalValue)>

  function Keys(d: Dict): set<string>
  {
    if |d| == 0 then {} else {d[0].0} + Keys(d[1..])
  }

  /** Each key occurs once. */
  predicate DistinctKeys(d: Dict)
  {
    |d| == 0 || (d[0].0 !in Keys(d[1..]) && DistinctKeys(d[1..]))
  }

  /** `d.get(k)`. */
  function Lookup(d: Dict, k: string): (r: Option<KeyvalValue>)
    ensures r.Some? <==> k in Keys(d)
  {
    if |d| == 0 then None else if d[0].0 == k then Some(d[0].1) else Lookup(d[1..], k)
  }

  /** `d[k] = v`: an existing key keeps its place and takes the new value; a new key goes
    * at the end. */
  function Put(d: Dict, k: string, v: KeyvalValue): (r: Dict)
    ensures Keys(r) == Keys(d) + {k}
  {
    if |d| == 0 then [(k, v)]
    else if d[0].0 == k then [(k, v)] + d[1..]
    else [d[0]] + Put(d[1..], k, v)
  }

  /** After `d[k] = v`, `k` maps to `v`, every other key to what it did, and the keys
    * stay distinct. */
  lemma {:induction false} PutLookup(d: Dict, k: string, v: KeyvalValue, other: string)
    requires DistinctKeys(d)
    ensures DistinctKeys(Put(d, k, v))
    ensures Lookup(Put(d, k, v), k) == Some(v)
    ensures other != k ==> Lookup(Put(d, k, v), other) == Lookup(d, other)
  {
    if |d| > 0 {
      var r := Put(d, k, v);
      if d[0].0 == k {
        assert r[0].0 == k && r[1..] == d[1..];
      } else {
        PutLookup(d[1..], k, v, other);
        assert r[0] == d[0] && r[1..] == Put(d[1..], k, v);
      }
    }
  }

  /** `int(value, 0)` when that reads the text, the text otherwise. */
  function ValueOf(v: string): (r: KeyvalValue)
    ensures PyInt.IntBase0(v).Ok? ==> r == IntValue(PyInt.IntBase0(v).value)
    ensures PyInt.IntBase0(v).Err? ==> r == StrValue(v)
  {
    match PyInt.IntBase0(v)
    case Ok(i) => IntValue(i)
    case Err(_) => StrValue(v)
  }

  /** One `key` or `key=value` item: the stripped key with True, or with its stripped
    * value; more than one `=` is ValueError. */
  function ParseKeyval(kv: string): Result<(string, KeyvalValue)>
  {
    var fields := Split(kv, '=');
    if |fields| == 1 then Ok((PyInt.Strip(fields[0]), Flag))
    else if |fields| == 2 then Ok((PyInt.Strip(fields[0]), ValueOf(PyInt.Strip(fields[1]))))
    else Err(ValueError)
  }

  /** An item parses exactly when it holds at most one `=`. */
  lemma ParseKeyvalOk(kv: string)
    ensures ParseKeyval(kv).Ok? <==> Count(kv, '=') <= 1
  {
    SplitCount(kv, '=');
  }

  /** An item parses exactly when it holds at most one `=`; without one it is a flag,
    * with one the text around it is the key and the value. */
  lemma ParseKeyvalMeaning(kv: string)
    ensures ParseKeyval(kv).Ok? <==> Count(kv, '=') <= 1
    ensures ParseKeyval(kv).Err? ==> ParseKeyval(kv).error == ValueError
    ensures Count(kv, '=') == 0 ==> ParseKeyval(kv) == Ok((PyInt.Strip(kv), Flag))
    ensures Count(kv, '=') == 1 ==>
      var i := IndexOf(kv, '=');
      0 <= i && ParseKeyval(kv) == Ok((PyInt.Strip(kv[..i]), ValueOf(PyInt.Strip(kv[i + 1..]))))
  {
    SplitCount(kv, '=');
    var i := IndexOf(kv, '=');
    if i >= 0 {
      SplitTail(kv, '=');
      if Count(kv, '=') == 1 {
        assert |Split(kv[i + 1..], '=')| == 1;
        assert IndexOf(kv[i + 1..], '=') < 0;
      }
    }
  }

  /** The items of all the arguments, each argument split at its commas, in order. */
  function Pieces(args: seq<string>): seq<string>
  {
    if |args| == 0 then [] else Split(args[0], ',') + Pieces(args[1..])
  }

  /** The dictionary after storing the items in order, starting from `d`; the first
    * item that does not parse raises. */
  function PutAll(d: Dict, kvs: seq<string>): Result<Dict>
    decreases |kvs|
  {
    if |kvs| == 0 then Ok(d)
    else
      match ParseKeyval(kvs[0])
      case Err(e) => Err(e)
      case Ok(kv) => PutAll(Put(d, kv.0, kv.1), kvs[1..])
  }

  /** What `keyval_list_to_dict(arg_list)` returns. */
  function Keyvals(args: seq<string>): Result<Dict>
  {
    PutAll([], Pieces(args))
  }

  /** `keyval_list_to_dict`: every argument split at its commas, every item stored in
    * order, a later item overriding an earlier one with the same key. */
  method KeyvalListToDict(args: seq<string>) returns (r: Result<Dict>)
    ensures r == Keyvals(args)
  {
    var d: Dict := [];
    for i := 0 to |args|
      invariant Keyvals(args) == PutAll(d, Pieces(args[i..]))
    {
      assert args[i..][0] == args[i] && args[i..][1..] == args[i + 1..];
      PutAllConcat(d, Split(args[i], ','), Pieces(args[i + 1..]));
      var stored := PutItems(d, Split(args[i], ','));
      if stored.Err? {
        return Err(stored.error);
      }
      d := stored.value;
    }
    assert args[|args|..] == [];
    return Ok(d);
  }

  /** The inner loop of `keyval_list_to_dict`: the items of one argument stored in
    * order; the first that does not parse raises. */
  method PutItems(d0: Dict, keyvals: seq<string>) returns (r: Result<Dict>)
    ensures r == PutAll(d0, keyvals)
  {
    var d := d0;
    for j := 0 to |keyvals|
      invariant PutAll(d0, keyvals) == PutAll(d, keyvals[j..])
    {
      assert keyvals[j..][0] == keyvals[j] && keyvals[j..][1..] == keyvals[j + 1..];
      var kv := ParseKeyval(keyvals[j]);
      if kv.Err? {
        return Err(kv.error);
      }
      d := Put(d, kv.value.0, kv.value.1);
    }
    assert keyvals[|keyvals|..] == [];
    return Ok(d);
  }

  /** Storing two runs of items is storing the first, then the second. */
  lemma {:induction false} PutAllConcat(d: Dict, a: seq<string>, b: seq<string>)
    ensures PutAll(d, a + b) == match PutAll(d, a) case Err(e) => Err(e) case Ok(d1) => PutAll(d1, b)
    decreases |a|
  {
    if |a| == 0 {
      assert a + b == b;
    } else {
      assert (a + b)[0] == a[0] && (a + b)[1..] == a[1..] + b;
      var p := ParseKeyval(a[0]);
      if p.Ok? {
        PutAllConcat(Put(d, p.value.0, p.value.1), a[1..], b);
      }
    }
  }

  /** The value the items give `k`, the last one naming it winning; None when no item
    * names it. */
  function LastValue(kvs: seq<string>, k: string): Option<KeyvalValue>
  {
    if |kvs| == 0 then None
    else
      match LastValue(kvs[1..], k)
      case Some(v) => Some(v)
      case None =>
        match ParseKeyval(kvs[0])
        case Ok(kv) => if kv.0 == k then Some(kv.1) else None
        case Err(_) => None
  }

  /** After storing the items the keys are still distinct, and each key's value is that
    * of the last item naming it, or what it was before when none does. */
  lemma {:induction false} PutAllLookup(d: Dict, kvs: seq<string>, k: string)
    requires DistinctKeys(d) && PutAll(d, kvs).Ok?
    ensures DistinctKeys(PutAll(d, kvs).value)
    ensures Lookup(PutAll(d, kvs).value, k) == (if LastValue(kvs, k).Some? then LastValue(kvs, k) else Lookup(d, k))
    decreases |kvs|
  {
    if |kvs| > 0 {
      var p := ParseKeyval(kvs[0]);
      var d1 := Put(d, p.value.0, p.value.1);
      PutLookup(d, p.value.0, p.value.1, k);
      PutAllLookup(d1, kvs[1..], k);
    }
  }

  /** `keyval_list_to_dict` raises ValueError exactly when some item has more than one
    * `=`; otherwise each key named by an item maps to the value of the last item naming
    * it, and no other key is present. */
  lemma KeyvalsMeaning(args: seq<string>, k: string)
    ensures Keyvals(args).Ok? <==> AtMostOneEach(Pieces(args), '=')
    ensures Keyvals(args).Err? ==> Keyvals(args).error == ValueError
    ensures Keyvals(args).Ok? ==> DistinctKeys(Keyvals(args).value)
    ensures Keyvals(args).Ok? ==> Lookup(Keyvals(args).value, k) == LastValue(Pieces(args), k)
  {
    var kvs := Pieces(args);
    PutAllCount([], kvs);
    if PutAll([], kvs).Ok? {
      PutAllLookup([], kvs, k);
    }
    PutAllError([], kvs);
  }

  /** No item holds `c` more than once. */
  predicate AtMostOneEach(kvs: seq<string>, c: char)
  {
    forall i :: 0 <= i < |kvs| ==> Count(kvs[i], c) <= 1
  }

  /** Storing the items succeeds exactly when no item holds more than one `=`. */
  lemma {:induction false} PutAllCount(d: Dict, kvs: seq<string>)
    ensures PutAll(d, kvs).Ok? <==> AtMostOneEach(kvs, '=')
    decreases |kvs|
  {
    if |kvs| > 0 {
      assert forall i :: 1 <= i < |kvs| ==> kvs[i] == kvs[1..][i - 1];
      ParseKeyvalOk(kvs[0]);
      var p := ParseKeyval(kvs[0]);
      if p.Ok? {
        PutAllCount(Put(d, p.value.0, p.value.1), kvs[1..]);
      }
    }
  }

  /** The only error storing items raises is ValueError. */
  lemma {:induction false} PutAllError(d: Dict, kvs: seq<string>)
    ensures PutAll(d, kvs).Err? ==> PutAll(d, kvs).error == ValueError
    decreases |kvs|
  {
    if |kvs| > 0 {
      var p := ParseKeyval(kvs[0]);
      if p.Ok? {
        PutAllError(Put(d, p.value.0, p.value.1), kvs[1..]);
      }
    }
  }

  /** The property before the `:` paired with the settings after it; an error in the
    * settings is raised instead. */
  function WithProperty(prop: string, settings: Result<Dict>): Result<(string, Dict)>
  {
    match settings
    case Err(e) => Err(e)
    case Ok(d) => Ok((prop, d))
  }

  /** `str_to_property_keyval(arg)`: without a `:`, the argument and an empty dictionary;
    * otherwise the stripped text before the first `:`, and the settings after it. */
  function StrToPropertyKeyval(arg: string): Result<(string, Dict)>
  {
    var i := IndexOf(arg, ':');
    if i < 0 then Ok((arg, []))
    else WithProperty(PyInt.Strip(arg[..i]), Keyvals(Split(arg[i + 1..], ',')))
  }

  /** An argument without a `:` is the property, with no settings. */
  lemma PropertyKeyvalPlain(arg: string)
    requires ':' !in arg
    ensures StrToPropertyKeyval(arg) == Ok((arg, []))
  {
  }

  /** Splitting at commas before `keyval_list_to_dict` splits again changes nothing: the
    * settings are those of the text after the first `:` as a single argument. */
  lemma PropertyKeyvalMeaning(arg: string, i: nat)
    requires i < |arg| && arg[i] == ':' && ':' !in arg[..i]
    ensures StrToPropertyKeyval(arg) == WithProperty(PyInt.Strip(arg[..i]), Keyvals([arg[i + 1..]]))
  {
    assert IndexOf(arg, ':') == i;
    var rest := arg[i + 1..];
    assert StrToPropertyKeyval(arg) == WithProperty(PyInt.Strip(arg[..i]), Keyvals(Split(rest, ',')));
    KeyvalsResplitDict(rest);
  }

  /** The settings of an argument split at its commas beforehand are its own. */
  lemma KeyvalsResplitDict(x: string)
    ensures Keyvals(Split(x, ',')) == Keyvals([x])
  {
    KeyvalsResplit(x);
  }

  /** An argument split at its commas beforehand gives the same items. */
  lemma KeyvalsResplit(x: string)
    ensures Pieces(Split(x, ',')) == Pieces([x])
  {
    SplitPieces(x, ',');
    PiecesOfPieces(Split(x, ','));
    assert [x][1..] == [];
  }

  /** Items that hold no comma split into themselves. */
  lemma {:induction false} PiecesOfPieces(ps: seq<string>)
    requires forall k :: 0 <= k < |ps| ==> ',' !in ps[k]
    ensures Pieces(ps) == ps
  {
    if |ps| > 0 {
      assert Split(ps[0], ',') == [ps[0]];
      PiecesOfPieces(ps[1..]);
    }
  }
}
