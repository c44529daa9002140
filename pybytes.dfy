/** Python byte-string semantics used throughout the model: slices with negative
  * and out-of-range bounds, and `int.from_bytes` / `int.to_bytes`. */
module PyBytes {
  import opened Errors

  /** A Python byte: an integer in [0, 256). */
  type byte = x: int | 0 <= x < 256

  datatype Endian = Little | Big

  /** The position a Python slice bound `i` denotes in a sequence of length `n`:
    * negative bounds count from the end, and the result is clamped to [0, n]. */
  function SliceBound(i: int, n: nat): (r: nat)
    ensures r <= n
    ensures 0 <= i <= n ==> r == i
    ensures i > n ==> r == n
    ensures i < 0 ==> r == (if i + n < 0 then 0 else i + n)
  {
    if i < 0 then (if i + n < 0 then 0 else i + n) else if i > n then n else i
  }

  /** Python's `s[i:j]`. */
  function Slice<T>(s: seq<T>, i: int, j: int): (r: seq<T>)
    ensures |r| == (if SliceBound(i, |s|) < SliceBound(j, |s|) then SliceBound(j, |s|) - SliceBound(i, |s|) else 0)
    ensures forall k :: 0 <= k < |r| ==> r[k] == s[SliceBound(i, |s|) + k]
  {
    var a, b := SliceBound(i, |s|), SliceBound(j, |s|);
    if a < b then s[a..b] else []
  }

  /** A slice whose bounds lie inside the sequence is the ordinary subsequence. */
  lemma SliceInRange<T>(s: seq<T>, i: int, j: int)
    requires 0 <= i <= j <= |s|
    ensures Slice(s, i, j) == s[i..j]
  {
  }

  /** `t` occurs in `raw` at position `i`. */
  predicate OccursAt<T(==)>(raw: seq<T>, t: seq<T>, i: int)
  {
    0 <= i <= |raw| - |t| && raw[i..i + |t|] == t
  }

  /** Python's `t in raw` on byte strings (and on text strings). */
  predicate Contains<T(==)>(raw: seq<T>, t: seq<T>)
  {
    exists i :: 0 <= i <= |raw| - |t| && OccursAt(raw, t, i)
  }

  function Pow256(n: nat): (r: nat)
    ensures r > 0
  {
    if n == 0 then 1 else 256 * Pow256(n - 1)
  }

  /** `int.from_bytes(s, 'little')`. */
  function FromLE(s: seq<byte>): nat
  {
    if |s| == 0 then 0 else s[0] + 256 * FromLE(s[1..])
  }

  /** `int.from_bytes(s, 'big')`. */
  function FromBE(s: seq<byte>): nat
  {
    if |s| == 0 then 0 else FromBE(s[..|s| - 1]) * 256 + s[|s| - 1]
  }

  function FromBytes(s: seq<byte>, e: Endian): nat
  {
    if e == Little then FromLE(s) else FromBE(s)
  }

  /** The low `n` bytes of `x`, least significant first. */
  function ToLE(x: nat, n: nat): (r: seq<byte>)
    ensures |r| == n
  {
    if n == 0 then [] else [x % 256] + ToLE(x / 256, n - 1)
  }

  /** The low `n` bytes of `x`, most significant first. */
  function ToBE(x: nat, n: nat): (r: seq<byte>)
    ensures |r| == n
  {
    if n == 0 then [] else ToBE(x / 256, n - 1) + [x % 256]
  }

  function ToBytes(x: nat, n: nat, e: Endian): (r: seq<byte>)
    ensures |r| == n
  {
    if e == Little then ToLE(x, n) else ToBE(x, n)
  }

  /** `x.to_bytes(n, e)`: raises OverflowError for a negative value or one
    * that does not fit in `n` bytes. */
  function IntToBytes(x: int, n: nat, e: Endian): (r: Result<seq<byte>>)
    ensures r.Ok? <==> 0 <= x < Pow256(n)
    ensures r.Ok? ==> |r.value| == n && FromBytes(r.value, e) == x
    ensures r.Err? ==> r.error == OverflowError
  {
    if x < 0 || x >= Pow256(n) then Err(OverflowError)
    else
      FromToBytes(x, n, e);
      Ok(ToBytes(x, n, e))
  }

  /** `int.from_bytes(x.to_bytes(n, e), e) == x` for every `x` that fits in `n` bytes. */
  lemma FromToBytes(x: nat, n: nat, e: Endian)
    requires x < Pow256(n)
    ensures FromBytes(ToBytes(x, n, e), e) == x
  {
    DivModUnique(x, Pow256(n), 0, x);
    FromToLE(x, n);
    FromToBE(x, n);
  }

  lemma DivModUnique(x: int, m: int, q: int, r: int)
    requires m > 0 && 0 <= r < m && x == m * q + r
    ensures x / m == q && x % m == r
  {
    var d := q - x / m;
    assert m * d == x % m - r by {
      assert x == m * (x / m) + x % m;
      assert m * q - m * (x / m) == m * d;
    }
  }

  lemma ModSplit(x: nat, p: nat)
    requires p > 0
    ensures x % (256 * p) == x % 256 + 256 * ((x / 256) % p)
  {
    var q, r := x / 256, x % 256;
    var a, b := q / p, q % p;
    assert x == (256 * p) * a + (256 * b + r) by {
      assert q == p * a + b;
      assert x == 256 * q + r;
    }
    DivModUnique(x, 256 * p, a, 256 * b + r);
  }

  lemma {:induction false} FromLEBound(s: seq<byte>)
    ensures FromLE(s) < Pow256(|s|)
  {
    if |s| > 0 {
      FromLEBound(s[1..]);
    }
  }

  lemma {:induction false} FromBEBound(s: seq<byte>)
    ensures FromBE(s) < Pow256(|s|)
  {
    if |s| > 0 {
      FromBEBound(s[..|s| - 1]);
    }
  }

  /** Decoding what was encoded gives the value modulo 256^n. */
  lemma {:induction false} FromToLE(x: nat, n: nat)
    ensures FromLE(ToLE(x, n)) == x % Pow256(n)
  {
    if n > 0 {
      var p := Pow256(n - 1);
      var s := ToLE(x, n);
      var lo, hi := x % 256, (x / 256) % p;
      assert FromLE(s) == lo + 256 * hi by {
        assert s[1..] == ToLE(x / 256, n - 1);
        assert s[0] == lo;
        FromToLE(x / 256, n - 1);
      }
      assert x % Pow256(n) == lo + 256 * hi by {
        ModSplit(x, p);
      }
    }
  }

  lemma {:induction false} FromToBE(x: nat, n: nat)
    ensures FromBE(ToBE(x, n)) == x % Pow256(n)
  {
    if n > 0 {
      var p := Pow256(n - 1);
      var s := ToBE(x, n);
      var lo, hi := x % 256, (x / 256) % p;
      assert FromBE(s) == lo + 256 * hi by {
        assert s[..n - 1] == ToBE(x / 256, n - 1);
        assert s[n - 1] == lo;
        FromToBE(x / 256, n - 1);
      }
      assert x % Pow256(n) == lo + 256 * hi by {
        ModSplit(x, p);
      }
    }
  }

  /** Encoding what was decoded gives the bytes back. */
  lemma {:induction false} ToFromLE(s: seq<byte>)
    ensures ToLE(FromLE(s), |s|) == s
  {
    if |s| > 0 {
      var v := FromLE(s[1..]);
      DivModUnique(FromLE(s), 256, v, s[0]);
      ToFromLE(s[1..]);
    }
  }

  lemma {:induction false} ToFromBE(s: seq<byte>)
    ensures ToBE(FromBE(s), |s|) == s
  {
    if |s| > 0 {
      var v := FromBE(s[..|s| - 1]);
      DivModUnique(FromBE(s), 256, v, s[|s| - 1]);
      ToFromBE(s[..|s| - 1]);
    }
  }

  lemma RoundTrip(s: seq<byte>, e: Endian)
    ensures ToBytes(FromBytes(s, e), |s|, e) == s
    ensures FromBytes(s, e) < Pow256(|s|)
  {
    ToFromLE(s);
    ToFromBE(s);
    FromLEBound(s);
    FromBEBound(s);
  }
}
