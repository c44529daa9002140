/** `Architecture`: word size, alignment and endianness of a target, and the
  * conversions between target words and host integers built on them. */
module Arch {
  import opened Errors
  import opened PyBytes
  import opened PyStr
  import PyInt

  /** Extra information about a register: an alternate name, an identifier used in
    * payloads, and whether it holds U-Boot's global data pointer. */
  datatype RegInfo = RegInfo(alias: Option<string>, ident: Option<nat>, gd: bool)

  /** The class constants of one architecture definition. `regs` keeps the order of the
    * register dictionary. */
  datatype Architecture = Architecture(
    name: string,
    wordSize: nat,
    physSize: nat,
    alignment: nat,
    endianness: Endian,
    supports64: bool,
    regs: seq<(string, RegInfo)>)

  predicate PowerOfTwo(n: nat)
  {
    n == 1 || (n > 1 && n % 2 == 0 && PowerOfTwo(n / 2))
  }

  /** Every architecture of the program has a power-of-two word size and alignment. */
  predicate ValidArch(a: Architecture)
  {
    PowerOfTwo(a.wordSize) && PowerOfTwo(a.alignment)
  }

  function Pow2(n: nat): (r: nat)
    ensures r >= 1
  {
    if n == 0 then 1 else 2 * Pow2(n - 1)
  }

  /** Python's `x & y` for a non-negative `y`; `x` may be negative (two's complement,
    * sign extended without end). */
  function BitAnd(x: int, y: nat): (r: nat)
    ensures r <= y
    decreases y
  {
    if y == 0 then 0
    else 2 * BitAnd(x / 2, y / 2) + (if x % 2 == 1 && y % 2 == 1 then 1 else 0)
  }

  /** Splitting a remainder by an even modulus into its lowest bit and the rest. */
  lemma ModSplit2(x: int, p: nat)
    requires p > 0
    ensures x % (2 * p) == x % 2 + 2 * ((x / 2) % p)
  {
    var q := x / 2;
    var r := x % 2;
    assert x == 2 * q + r;
    assert q == p * (q / p) + q % p;
    var rest := 2 * (q % p) + r;
    assert x == (2 * p) * (q / p) + rest;
    DivModUnique(x, 2 * p, q / p, rest);
  }

  /** The division counterpart of ModSplit2. */
  lemma DivSplit2(x: int, p: nat)
    requires p > 0
    ensures x / (2 * p) == (x / 2) / p
  {
    var q := x / 2;
    var r := x % 2;
    assert x == 2 * q + r;
    assert q == p * (q / p) + q % p;
    var rest := 2 * (q % p) + r;
    assert x == (2 * p) * (q / p) + rest;
    DivModUnique(x, 2 * p, q / p, rest);
  }

  /** Masking with `n - 1` for a power of two `n` is reduction modulo `n`. */
  lemma {:induction false} BitAndLowMask(x: int, n: nat)
    requires PowerOfTwo(n)
    ensures BitAnd(x, n - 1) == x % n
    decreases n
  {
    if n > 1 {
      BitAndLowMask(x / 2, n / 2);
      assert (n - 1) / 2 == n / 2 - 1 && (n - 1) % 2 == 1;
      ModSplit2(x, n / 2);
    }
  }

  /** Masking with the single bit `2^j` keeps that bit of `x`. */
  lemma {:induction false} BitAndSingleBit(x: int, j: nat)
    ensures BitAnd(x, Pow2(j)) == Pow2(j) * ((x / Pow2(j)) % 2)
    decreases j
  {
    if j > 0 {
      var q := Pow2(j - 1);
      var p := Pow2(j);
      assert p == 2 * q;
      var b := (x / p) % 2;
      assert BitAnd(x, p) == 2 * BitAnd(x / 2, q) by {
        assert p / 2 == q && p % 2 == 0;
      }
      assert BitAnd(x / 2, q) == q * b by {
        BitAndSingleBit(x / 2, j - 1);
        DivSplit2(x, q);
      }
      assert 2 * (q * b) == p * b;
    }
  }

  lemma {:induction false} Pow2Add(m: nat, n: nat)
    ensures Pow2(m + n) == Pow2(m) * Pow2(n)
  {
    if m > 0 {
      Pow2Add(m - 1, n);
    }
  }

  lemma {:induction false} Pow256IsPow2(n: nat)
    ensures Pow256(n) == Pow2(8 * n)
  {
    if n > 0 {
      Pow256IsPow2(n - 1);
      Pow2Add(8, 8 * (n - 1));
      assert Pow2(8) == 256;
    }
  }

  lemma {:induction false} Pow256Mono(m: nat, n: nat)
    requires m <= n
    ensures Pow256(m) <= Pow256(n)
    decreases n
  {
    if m < n {
      Pow256Mono(m, n - 1);
    }
  }

  /** `is_word_aligned`: the address masked with `word_size - 1` is zero. */
  predicate IsWordAligned(a: Architecture, address: int)
  {
    a.wordSize >= 1 && BitAnd(address, a.wordSize - 1) == 0
  }

  /** For a valid architecture, word alignment is divisibility by the word size. */
  lemma IsWordAlignedMeaning(a: Architecture, address: int)
    requires ValidArch(a)
    ensures IsWordAligned(a, address) <==> address % a.wordSize == 0
  {
    BitAndLowMask(address, a.wordSize);
  }

  /** `is_allowed_access`: the address masked with `alignment - 1` is zero; the size
    * is not consulted by the base class. */
  predicate IsAllowedAccess(a: Architecture, address: int, size: int)
  {
    a.alignment >= 1 && BitAnd(address, a.alignment - 1) == 0
  }

  lemma IsAllowedAccessMeaning(a: Architecture, address: int, size: int)
    requires ValidArch(a)
    ensures IsAllowedAccess(a, address, size) <==> address % a.alignment == 0
  {
    BitAndLowMask(address, a.alignment);
  }

  /** `to_uint` (and `ptr_value`, which reads the same way): the first `word_size`
    * bytes of the data as an unsigned integer; shorter data gives a narrower value,
    * no data gives 0. */
  function ToUint(a: Architecture, data: seq<byte>): (r: nat)
    ensures r < Pow256(a.wordSize)
    ensures |data| >= a.wordSize ==> r == FromBytes(data[..a.wordSize], a.endianness)
    ensures |data| < a.wordSize ==> r == FromBytes(data, a.endianness)
  {
    if |data| >= a.wordSize then
      RoundTrip(data[..a.wordSize], a.endianness);
      FromBytes(data[..a.wordSize], a.endianness)
    else
      RoundTrip(data, a.endianness);
      Pow256Mono(|data|, a.wordSize);
      FromBytes(data, a.endianness)
  }

  function PtrValue(a: Architecture, data: seq<byte>): nat
  {
    ToUint(a, data)
  }

  /** The data after the first word: `data[word_size:]`. */
  function Advance(a: Architecture, data: seq<byte>): (r: seq<byte>)
    ensures |data| >= a.wordSize ==> data == data[..a.wordSize] + r
    ensures |data| < a.wordSize ==> r == []
  {
    if |data| >= a.wordSize then
      assert data == data[..a.wordSize] + data[a.wordSize..];
      data[a.wordSize..]
    else
      []
  }

  /** `ptr_value_adv` / `to_uint_adv`: the word's value and the data after it. */
  function PtrValueAdv(a: Architecture, data: seq<byte>): (r: (nat, seq<byte>))
  {
    (PtrValue(a, data), Advance(a, data))
  }

  /** `n` words read one after the other with `ptr_value_adv`. */
  function PtrValues(a: Architecture, data: seq<byte>, n: nat): (r: seq<nat>)
    ensures |r| == n
    decreases n
  {
    if n == 0 then [] else [PtrValue(a, data)] + PtrValues(a, Advance(a, data), n - 1)
  }

  /** The two's complement reading of a `w`-bit unsigned value, as `to_int` computes
    * it: when the sign bit is set, minus one more than the complement under the mask. */
  function Signed(val: int, w: nat): int
    requires w >= 1
  {
    var signBit := Pow2(w - 1);
    var mask := Pow2(w) - 1;
    if BitAnd(val, signBit) != 0 then -(BitAnd(-val - 1, mask) + 1) else val
  }

  /** `to_int`: the word read as a two's complement signed integer. */
  function ToInt(a: Architecture, data: seq<byte>): (r: int)
    requires a.wordSize >= 1
  {
    Signed(ToUint(a, data), 8 * a.wordSize)
  }

  function ToIntAdv(a: Architecture, data: seq<byte>): (r: (int, seq<byte>))
    requires a.wordSize >= 1
  {
    (ToInt(a, data), Advance(a, data))
  }

  lemma SignedHigh(val: int, w: nat)
    requires w >= 1 && Pow2(w - 1) <= val < Pow2(w)
    ensures Signed(val, w) == val - Pow2(w)
  {
    assert Pow2(w) == 2 * Pow2(w - 1);
    BitAndSingleBit(val, w - 1);
    DivModUnique(val, Pow2(w - 1), 1, val - Pow2(w - 1));
    Pow2IsPowerOfTwo(w);
    BitAndLowMask(-val - 1, Pow2(w));
    DivModUnique(-val - 1, Pow2(w), -1, Pow2(w) - val - 1);
  }

  lemma SignedLow(val: int, w: nat)
    requires w >= 1 && 0 <= val < Pow2(w - 1)
    ensures Signed(val, w) == val
  {
    BitAndSingleBit(val, w - 1);
    DivModUnique(val, Pow2(w - 1), 0, val);
  }

  /** Two's complement of a `w`-bit value: the result lies in the signed range and
    * differs from the value by a multiple of `2^w`; below the sign bit it is the value. */
  lemma SignedRange(val: int, w: nat)
    requires w >= 1 && 0 <= val < Pow2(w)
    ensures -(Pow2(w - 1) as int) <= Signed(val, w) < Pow2(w - 1)
    ensures (Signed(val, w) - val) % Pow2(w) == 0
    ensures val < Pow2(w - 1) ==> Signed(val, w) == val
  {
    assert Pow2(w) == 2 * Pow2(w - 1);
    if val >= Pow2(w - 1) {
      SignedHigh(val, w);
      DivModUnique(Signed(val, w) - val, Pow2(w), -1, 0);
    } else {
      SignedLow(val, w);
    }
  }

  /** `to_int` lies in the signed range of the word and differs from `to_uint` by a
    * multiple of `2^(8 * word_size)`; values below the sign bit are unchanged. */
  lemma ToIntTwosComplement(a: Architecture, data: seq<byte>)
    requires a.wordSize >= 1
    ensures -(Pow2(8 * a.wordSize - 1) as int) <= ToInt(a, data) < Pow2(8 * a.wordSize - 1)
    ensures (ToInt(a, data) - ToUint(a, data)) % Pow2(8 * a.wordSize) == 0
    ensures ToUint(a, data) < Pow2(8 * a.wordSize - 1) ==> ToInt(a, data) == ToUint(a, data)
  {
    Pow256IsPow2(a.wordSize);
    SignedRange(ToUint(a, data), 8 * a.wordSize);
  }

  lemma {:induction false} Pow2IsPowerOfTwo(n: nat)
    ensures PowerOfTwo(Pow2(n))
  {
    if n > 0 {
      Pow2IsPowerOfTwo(n - 1);
      assert Pow2(n) / 2 == Pow2(n - 1);
    }
  }

  /** `int_to_bytes`: the value as one word in the architecture's byte order;
    * OverflowError when it is negative or does not fit. */
  function IntToWord(a: Architecture, v: int): (r: Result<seq<byte>>)
    ensures r.Ok? <==> 0 <= v < Pow256(a.wordSize)
    ensures r.Err? ==> r.error == OverflowError
    ensures r.Ok? ==> |r.value| == a.wordSize
  {
    IntToBytes(v, a.wordSize, a.endianness)
  }

  /** Reading back a word written by `int_to_bytes` gives the value, and the word is
    * consumed exactly. */
  lemma PtrValueIntToWord(a: Architecture, v: int, rest: seq<byte>)
    requires 0 <= v < Pow256(a.wordSize)
    ensures PtrValue(a, IntToWord(a, v).value + rest) == v
    ensures Advance(a, IntToWord(a, v).value + rest) == rest
  {
    var w := IntToWord(a, v).value;
    assert (w + rest)[..a.wordSize] == w;
    assert (w + rest)[..a.wordSize] + rest == w + rest;
  }

  predicate StartsWith0x(s: string)
  {
    |s| >= 2 && s[..2] == "0x"
  }

  /** `hexint_to_bytes`: prefix `0x` when it is missing, parse with `int(_, 16)`, and
    * encode the value in `num_bytes` bytes of the architecture's byte order. */
  function HexintToBytes(a: Architecture, s: string, n: nat): (r: Result<seq<byte>>)
    ensures r.Err? ==> r.error == ValueError || r.error == OverflowError
  {
    var t := if StartsWith0x(s) then s else "0x" + s;
    match PyInt.IntBase16(t)
    case Err(e) => Err(e)
    case Ok(v) => IntToBytes(v, n, a.endianness)
  }

  /** The digits may be given with or without the `0x` prefix. */
  lemma HexintPrefixOptional(a: Architecture, s: string, n: nat)
    requires !StartsWith0x(s)
    ensures HexintToBytes(a, s, n) == HexintToBytes(a, "0x" + s, n)
  {
    var t := "0x" + s;
    assert t[..2] == "0x";
  }

  /** A sign is refused: it would come after the prefix. */
  lemma HexintSignRefused(a: Architecture, s: string, n: nat)
    requires |s| > 0 && (s[0] == '-' || s[0] == '+')
    ensures HexintToBytes(a, s, n) == Err(ValueError)
  {
    var t := "0x" + s;
    assert !StartsWith0x(s) && t[2] == s[0];
    PyInt.SignAfterPrefix(t);
  }

  /** Bare hex digits are encoded as their value, or raise OverflowError when it does
    * not fit. */
  lemma HexintDigits(a: Architecture, s: string, n: nat)
    requires |s| > 0 && PyInt.AllDigits(s, 16)
    ensures HexintToBytes(a, s, n) == IntToBytes(PyInt.Value(s, 16), n, a.endianness)
  {
    PyInt.HexDigitChar(s[|s| - 1]);
    PyInt.HexDigitChar(s[1 % |s|]);
    assert PyInt.IsDigit(s[0], 16);
    assert !StartsWith0x(s);
    PyInt.PrefixedDigits(s);
  }

  /** `word_sizes`: the access sizes U-Boot's memory commands accept, with their
    * suffixes; the quad word only with 64-bit data support. */
  function WordSizes(a: Architecture): (r: map<nat, char>)
    ensures 8 in r <==> a.supports64
    ensures forall k :: k in r <==> k in {1, 2, 4} || (a.supports64 && k == 8)
  {
    var base := map[1 := 'b', 2 := 'w', 4 := 'l'];
    if a.supports64 then base[8 := 'q'] else base
  }

  /** `multiple_of_word_size`: Python's `%`, whose result for a positive modulus is never
    * negative, like Dafny's. */
  function MultipleOfWordSize(a: Architecture, v: int): (r: bool)
    requires a.wordSize >= 1
  {
    v % a.wordSize == 0
  }

  /** A value is a multiple of the word size exactly when it is word aligned. */
  lemma MultipleOfWordSizeAligned(a: Architecture, v: int)
    requires ValidArch(a)
    ensures MultipleOfWordSize(a, v) <==> IsWordAligned(a, v)
  {
    IsWordAlignedMeaning(a, v);
  }

  /** The names `register` accepts for one register: its key, or its alias, exactly or
    * wholly upper or lower case. */
  predicate NameMatches(name: string, reg: string, info: RegInfo)
  {
    name == reg || name == Upper(reg) || name == Lower(reg) ||
    (info.alias.Some? && (name == info.alias.value || name == Upper(info.alias.value) || name == Lower(info.alias.value)))
  }

  /** `k` is the first register, from index `i` on, that `name` designates. */
  predicate FirstRegAt(regs: seq<(string, RegInfo)>, name: string, i: nat, k: int)
  {
    i <= k < |regs| && NameMatches(name, regs[k].0, regs[k].1) &&
    forall j :: i <= j < k ==> !NameMatches(name, regs[j].0, regs[j].1)
  }

  /** The search loop of `register` over the registers from index `i` on. */
  function RegisterFrom(regs: seq<(string, RegInfo)>, name: string, i: nat): Result<(string, RegInfo)>
    requires i <= |regs|
    decreases |regs| - i
  {
    if i == |regs| then Err(ValueError)
    else if NameMatches(name, regs[i].0, regs[i].1) then Ok(regs[i])
    else RegisterFrom(regs, name, i + 1)
  }

  /** The loop stops at the first register from `i` on that `name` designates, and fails
    * with ValueError exactly when there is none. */
  lemma {:induction false} RegisterFromFirst(regs: seq<(string, RegInfo)>, name: string, i: nat)
    requires i <= |regs|
    ensures RegisterFrom(regs, name, i).Ok? ==>
      exists k :: FirstRegAt(regs, name, i, k) && regs[k] == RegisterFrom(regs, name, i).value
    ensures RegisterFrom(regs, name, i).Err? ==> RegisterFrom(regs, name, i).error == ValueError
    ensures RegisterFrom(regs, name, i).Err? <==> forall j :: i <= j < |regs| ==> !NameMatches(name, regs[j].0, regs[j].1)
    decreases |regs| - i
  {
    if i < |regs| {
      if NameMatches(name, regs[i].0, regs[i].1) {
        assert FirstRegAt(regs, name, i, i);
      } else {
        RegisterFromFirst(regs, name, i + 1);
        var r := RegisterFrom(regs, name, i + 1);
        if r.Ok? {
          var k :| FirstRegAt(regs, name, i + 1, k) && regs[k] == r.value;
          assert FirstRegAt(regs, name, i, k);
        }
      }
    }
  }

  /** `register`: the first register whose name or alias matches, or ValueError. */
  function Register(a: Architecture, name: string): (r: Result<(string, RegInfo)>)
    ensures r.Ok? ==> exists k :: FirstRegAt(a.regs, name, 0, k) && a.regs[k] == r.value
    ensures r.Err? <==> forall j :: 0 <= j < |a.regs| ==> !NameMatches(name, a.regs[j].0, a.regs[j].1)
    ensures r.Err? ==> r.error == ValueError
  {
    RegisterFromFirst(a.regs, name, 0);
    RegisterFrom(a.regs, name, 0)
  }

  /** A definition in the class hierarchy and its direct subclasses. */
  datatype ArchNode = ArchNode(arch: Architecture, subs: seq<Architecture>)

  /** The order in which `get` visits definitions: each class, then its subclasses. */
  function Visit(nodes: seq<ArchNode>): seq<Architecture>
  {
    if |nodes| == 0 then [] else [nodes[0].arch] + nodes[0].subs + Visit(nodes[1..])
  }

  /** `k` is the first definition whose lower-cased name is `target`. */
  predicate FirstNamedAt(archs: seq<Architecture>, target: string, k: int)
  {
    0 <= k < |archs| && Lower(archs[k].name) == target &&
    forall j :: 0 <= j < k ==> Lower(archs[j].name) != target
  }

  /** Reference search: the first definition in `archs` whose lower-cased name is `target`. */
  function FirstNamed(archs: seq<Architecture>, target: string): Option<Architecture>
  {
    if |archs| == 0 then None
    else if Lower(archs[0].name) == target then Some(archs[0])
    else FirstNamed(archs[1..], target)
  }

  /** The reference search finds the first matching definition, and nothing exactly when
    * no definition matches. */
  lemma {:induction false} FirstNamedIsFirst(archs: seq<Architecture>, target: string)
    ensures FirstNamed(archs, target).Some? ==>
      exists k :: FirstNamedAt(archs, target, k) && archs[k] == FirstNamed(archs, target).value
    ensures FirstNamed(archs, target).None? <==> forall j :: 0 <= j < |archs| ==> Lower(archs[j].name) != target
  {
    if |archs| > 0 {
      if Lower(archs[0].name) == target {
        assert FirstNamedAt(archs, target, 0);
      } else {
        var tail := archs[1..];
        FirstNamedIsFirst(tail, target);
        assert forall j :: 1 <= j < |archs| ==> archs[j] == tail[j - 1];
        var r := FirstNamed(tail, target);
        if r.Some? {
          var k :| FirstNamedAt(tail, target, k) && tail[k] == r.value;
          assert FirstNamedAt(archs, target, k + 1);
        }
      }
    }
  }

  function SubNamed(subs: seq<Architecture>, target: string): Option<Architecture>
  {
    if |subs| == 0 then None
    else if Lower(subs[0].name) == target then Some(subs[0])
    else SubNamed(subs[1..], target)
  }

  /** `get`: the nested loop over the subclasses and their subclasses, looking for a
    * case-insensitive name match; KeyError when nothing matches. */
  function Get(nodes: seq<ArchNode>, archName: string): (r: Result<Architecture>)
    ensures r.Err? ==> r.error == KeyError
  {
    GetLower(nodes, Lower(archName))
  }

  function GetLower(nodes: seq<ArchNode>, target: string): (r: Result<Architecture>)
    ensures r.Err? ==> r.error == KeyError
  {
    if |nodes| == 0 then Err(KeyError)
    else if Lower(nodes[0].arch.name) == target then Ok(nodes[0].arch)
    else match SubNamed(nodes[0].subs, target)
      case Some(s) => Ok(s)
      case None => GetLower(nodes[1..], target)
  }

  lemma {:induction false} SubNamedFirst(subs: seq<Architecture>, rest: seq<Architecture>, target: string)
    ensures FirstNamed(subs + rest, target) ==
      (match SubNamed(subs, target) case Some(s) => Some(s) case None => FirstNamed(rest, target))
  {
    if |subs| > 0 {
      assert (subs + rest)[0] == subs[0];
      assert (subs + rest)[1..] == subs[1..] + rest;
      SubNamedFirst(subs[1..], rest, target);
    } else {
      assert subs + rest == rest;
    }
  }

  lemma {:induction false} GetLowerFirst(nodes: seq<ArchNode>, target: string)
    ensures GetLower(nodes, target).Ok? <==> FirstNamed(Visit(nodes), target).Some?
    ensures GetLower(nodes, target).Ok? ==>
      GetLower(nodes, target).value == FirstNamed(Visit(nodes), target).value
  {
    if |nodes| > 0 {
      var v := Visit(nodes);
      assert v == [nodes[0].arch] + (nodes[0].subs + Visit(nodes[1..]));
      assert v[0] == nodes[0].arch;
      assert v[1..] == nodes[0].subs + Visit(nodes[1..]);
      SubNamedFirst(nodes[0].subs, Visit(nodes[1..]), target);
      GetLowerFirst(nodes[1..], target);
    }
  }

  /** `get` returns the first definition, in visiting order, whose name matches the
    * requested one ignoring case, and fails exactly when there is none. */
  lemma GetFindsFirst(nodes: seq<ArchNode>, archName: string)
    ensures Get(nodes, archName).Ok? <==> FirstNamed(Visit(nodes), Lower(archName)).Some?
    ensures Get(nodes, archName).Ok? ==>
      Get(nodes, archName).value == FirstNamed(Visit(nodes), Lower(archName)).value
  {
    GetLowerFirst(nodes, Lower(archName));
  }
}
