/** `ItestMemoryReader` (depthcharge/memory/itest.py): U-Boot's `itest.b` compares the
  * byte at an address with a constant, and a binary search over such comparisons reads
  * the byte. The console round trip is a parameter: `check(addr, op, value)` is whether
  * the target reported that `*addr op value` holds. */
module Itest {
  import PyBytes

  type byte = PyBytes.byte

  /** The two comparisons the reader makes. */
  datatype Cmp = Eq | Lt

  /** One `_check_value` call. */
  datatype Probe = Probe(op: Cmp, value: int)

  type Oracle = (int, Cmp, int) -> bool

  /** The reader reads one byte per `_read_word` (the constructor sets the word size
    * to 1, and `_read_word` asserts `size == 1`). */
  const WordSize: nat := 1

  /** An oracle that answers as the target's memory byte `v` at `addr` does. */
  ghost predicate Truthful(check: Oracle, addr: int, v: byte)
  {
    forall x :: (check(addr, Eq, x) <==> v == x) && (check(addr, Lt, x) <==> v < x)
  }

  function Pow2(n: nat): (r: nat)
    ensures r >= 1
  {
    if n == 0 then 1 else 2 * Pow2(n - 1)
  }

  /** `_read_word(addr, 1)`: equality probes for 0x00 and 0xff, then a binary search
    * with `<` probes narrowing [min_val, max_val]. The result is always a byte, at most
    * eight `<` probes are made (ten probes in all), and with a truthful oracle the
    * result is the byte in memory. */
  method ReadWord(check: Oracle, addr: int, ghost v: byte) returns (r: byte, probes: seq<Probe>)
    ensures 1 <= |probes| <= 10
    ensures probes[0] == Probe(Eq, 0)
    ensures |probes| >= 2 ==> probes[1] == Probe(Eq, 0xff)
    ensures forall k :: 2 <= k < |probes| ==> probes[k].op == Lt && 1 <= probes[k].value <= 255
    ensures check(addr, Eq, 0) ==> r == 0 && |probes| == 1
    ensures Truthful(check, addr, v) ==> r == v
  {
    probes := [Probe(Eq, 0)];
    if check(addr, Eq, 0x00) {
      return 0, probes;
    }
    probes := probes + [Probe(Eq, 0xff)];
    if check(addr, Eq, 0xff) {
      return 0xff, probes;
    }
    var minVal := 0x00;
    var maxVal := 0xff;
    ghost var k: nat := 0;
    while maxVal != minVal
      invariant 0 <= minVal <= maxVal <= 255
      invariant Truthful(check, addr, v) ==> minVal <= v <= maxVal
      invariant k <= 8 && maxVal - minVal + 1 <= Pow2(8 - k)
      invariant |probes| == 2 + k
      invariant probes[0] == Probe(Eq, 0) && probes[1] == Probe(Eq, 0xff)
      invariant forall j :: 2 <= j < |probes| ==> probes[j].op == Lt && 1 <= probes[j].value <= 255
      decreases maxVal - minVal
    {
      var val := (minVal + maxVal + 1) / 2;
      Halve(minVal, maxVal, k);
      probes := probes + [Probe(Lt, val)];
      if check(addr, Lt, val) {
        maxVal := val - 1;
      } else {
        minVal := val;
      }
      k := k + 1;
    }
    r := maxVal;
  }

  /** Both halves of a range of two values or more that is no longer than `2^(8-k)` (so
    * `k < 8`), split at the midpoint the search probes, are no longer than
    * `2^(8-(k+1))`. */
  lemma Halve(lo: int, hi: int, k: nat)
    requires k <= 8 && lo < hi && hi - lo + 1 <= Pow2(8 - k)
    ensures k < 8
    ensures lo < (lo + hi + 1) / 2 <= hi
    ensures (lo + hi + 1) / 2 - lo <= Pow2(8 - (k + 1)) && hi - (lo + hi + 1) / 2 + 1 <= Pow2(8 - (k + 1))
  {
    var s := hi - lo + 1;
    assert (lo + hi + 1) / 2 == lo + s / 2;
  }
}
