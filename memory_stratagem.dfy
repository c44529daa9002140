/** `StratagemMemoryWriter` (depthcharge/memory/stratagem.py): the base of the writers
  * that cannot store bytes directly but carry out a Stratagem instead. */
module StratagemWriter {
  import opened Errors
  import PyInt

  /** The checks `write` makes before handing the Stratagem to `_write_stratagem`: one
    * must be given (`stratagem` keyword argument), and it must have been built for
    * this writer, named `name`. Data passed alongside is ignored. */
  function CheckStratagem(name: string, stratagemOp: Option<string>): (r: Result<()>)
    ensures r.Ok? <==> stratagemOp == Some(name)
    ensures stratagemOp.None? ==> r == Err(StratagemRequired)
    ensures stratagemOp.Some? && stratagemOp.value != name ==> r == Err(ValueError)
  {
    match stratagemOp
    case None => Err(StratagemRequired)
    case Some(op) => if op != name then Err(ValueError) else Ok(())
  }

  /** Each Stratagem entry writes four bytes. */
  const OutputSize: nat := 4

  /** The part of `_describe_op`'s text before the byte count. */
  function DescribeHead(name: string): string
  {
    "(" + name + ") Writing "
  }

  /** `_describe_op(addr, stratagem)` for a Stratagem of `entries` entries: the writer's
    * name, the number of bytes the entries write in decimal, and the address in at
    * least eight hexadecimal digits. */
  function DescribeOp(name: string, addr: int, entries: nat): string
  {
    DescribeHead(name) + PyInt.Decimal(entries * OutputSize) + " bytes @ 0x" + PyInt.SignedHex(addr, 8)
  }

  /** The count in the description reads back as four bytes per entry. */
  lemma DescribeOpCount(name: string, addr: int, entries: nat)
    ensures var h, d := |DescribeHead(name)|, |PyInt.Decimal(entries * OutputSize)|;
      h + d <= |DescribeOp(name, addr, entries)| &&
      PyInt.IntBase0(DescribeOp(name, addr, entries)[h..h + d]) == Ok(entries * 4)
  {
    DescribeOpPieces(name, addr, entries);
    PyInt.DecimalRoundTrip(entries * OutputSize);
  }

  /** The description is the head, the count in decimal, then the text that leads to
    * the address. */
  lemma DescribeOpPieces(name: string, addr: int, entries: nat)
    ensures var h, d := |DescribeHead(name)|, |PyInt.Decimal(entries * OutputSize)|;
      |DescribeOp(name, addr, entries)| >= h + d + 11 &&
      DescribeOp(name, addr, entries)[h..h + d] == PyInt.Decimal(entries * OutputSize) &&
      DescribeOp(name, addr, entries)[h + d..h + d + 11] == " bytes @ 0x"
  {
    Pieces(DescribeHead(name), PyInt.Decimal(entries * OutputSize), " bytes @ 0x", PyInt.SignedHex(addr, 8));
  }

  /** Where the middle pieces of a four-part text sit. */
  lemma Pieces(w: string, x: string, y: string, z: string)
    ensures |w + x + y + z| == |w| + |x| + |y| + |z|
    ensures (w + x + y + z)[|w|..|w| + |x|] == x
    ensures (w + x + y + z)[|w| + |x|..|w| + |x| + |y|] == y
  {
    var r := w + x + y + z;
    assert r == w + (x + (y + z));
    assert r[|w|..] == x + (y + z);
    assert r[|w|..|w| + |x|] == r[|w|..][..|x|];
    assert r[|w| + |x|..] == y + z;
  }
}
