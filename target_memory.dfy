/** The target's memory as the memory operations see it: one byte per address. It is
  * what U-Boot's console commands read and change, and what the readers and writers
  * are proved against. */
module TargetMemory {
  import PyBytes

  type byte = PyBytes.byte

  type Mem = int -> byte

  /** The `n` bytes at `addr`. */
  function Bytes(mem: Mem, addr: int, n: nat): (r: seq<byte>)
    ensures |r| == n
    ensures forall i :: 0 <= i < n ==> r[i] == mem(addr + i)
  {
    seq(n, i requires 0 <= i < n => mem(addr + i))
  }

  /** Memory with `data` stored at `addr`. */
  function Store(mem: Mem, addr: int, data: seq<byte>): Mem
  {
    x => if addr <= x < addr + |data| then data[x - addr] else mem(x)
  }

  /** Memory holds `data` at `addr`. */
  ghost predicate Holds(mem: Mem, addr: int, data: seq<byte>)
  {
    forall i :: 0 <= i < |data| ==> mem(addr + i) == data[i]
  }

  /** What is stored is read back, and nothing outside it changes. */
  lemma StoreRead(mem: Mem, addr: int, data: seq<byte>)
    ensures Bytes(Store(mem, addr, data), addr, |data|) == data
    ensures forall x :: !(addr <= x < addr + |data|) ==> Store(mem, addr, data)(x) == mem(x)
  {
  }

  /** Reading two adjacent runs is reading the run they make up. */
  lemma {:induction false} BytesSplit(mem: Mem, addr: int, m: nat, n: nat)
    ensures Bytes(mem, addr, m) + Bytes(mem, addr + m, n) == Bytes(mem, addr, m + n)
  {
    var a, b, c := Bytes(mem, addr, m), Bytes(mem, addr + m, n), Bytes(mem, addr, m + n);
    forall i | 0 <= i < m + n
      ensures (a + b)[i] == c[i]
    {
      if i >= m {
        assert b[i - m] == mem(addr + m + (i - m));
      }
    }
  }
}
