/** The hex-dump half of `depthcharge/string.py`: `xxd`, which formats bytes in the
  * style of `xxd -g1`, and `xxd_reverse`, which reads such a dump back into an address
  * and bytes. */
module StringXxd {
  import opened Errors
  import opened PyStr
  import PyInt
  import PyBytes

  type byte = PyBytes.byte

  predicate IsHex(c: char)
  {
    PyInt.IsDigit(c, 16)
  }

  // ---- the dump format ----

  /** The character column shows printable ASCII as itself and every other byte as `.`. */
  function AsciiChar(b: byte): char
  {
    if 0x20 <= b < 0x7f then b as char else '.'
  }

  function Ascii(bs: seq<byte>): (r: string)
    ensures |r| == |bs|
  {
    if |bs| == 0 then [] else Ascii(bs[..|bs| - 1]) + [AsciiChar(bs[|bs| - 1])]
  }

  /** The lower-case hex digit of `d`. */
  function HexChar(d: nat): char
    requires d < 16
  {
    PyInt.DigitChar(d)
  }

  /** `'{:x}'.format(n)`: the hex digits of `n`, most significant first. */
  function HexDigits(n: nat): string
    decreases n
  {
    if n < 16 then [HexChar(n)] else HexDigits(n / 16) + [HexChar(n % 16)]
  }

  /** Zeros in front of `d` up to `width` characters, as the `0N` of a format does. */
  function ZeroPad(d: string, width: nat): string
    decreases width - |d|
  {
    if |d| >= width then d else ZeroPad("0" + d, width)
  }

  /** `'{:08x}: '.format(addr)`: a negative address is a minus sign, which counts towards
    * the width, and the digits of its magnitude. */
  function Head(addr: int): string
  {
    (if addr < 0 then "-" + ZeroPad(HexDigits(-addr), 7) else ZeroPad(HexDigits(addr), 8)) + ": "
  }

  /** `'{:02x}'.format(b)`. */
  function Hex2(b: byte): string
  {
    [HexChar(b / 16), HexChar(b % 16)]
  }

  function Spaces(n: nat): (r: string)
    ensures |r| == n
  {
    if n == 0 then [] else [' '] + Spaces(n - 1)
  }

  /** The padding that brings the hex of `k` bytes to the width of sixteen. */
  function Pad(k: nat): string
  {
    if k >= 16 then [] else Spaces(3 * (16 - k))
  }

  /** Each byte in hex followed by a space. */
  function HexBytes(hex: byte -> string, bs: seq<byte>): string
  {
    if |bs| == 0 then [] else hex(bs[0]) + " " + HexBytes(hex, bs[1..])
  }

  /** How a line shows its address, a byte, its character column and the whole line. The
    * layout of the dump is stated once for any such choice; `Python` is the one `xxd`
    * makes. */
  datatype LineFormat = LineFormat(heads: int -> string, hex: byte -> string, column: seq<byte> -> string,
                                   line: (int, seq<byte>) -> string)

  /** One line for up to sixteen bytes at `addr`: the bytes in hex, padded to the width of
    * sixteen, a space, and the character column. */
  function Line(f: LineFormat, addr: int, chunk: seq<byte>): string
  {
    f.heads(addr) + HexBytes(f.hex, chunk) + Pad(|chunk|) + " " + f.column(chunk)
  }

  /** The whole line of a format is laid out from its parts. */
  ghost predicate Coherent(f: LineFormat)
  {
    forall addr: int, chunk: seq<byte> {:trigger Line(f, addr, chunk)} :: f.line(addr, chunk) == Line(f, addr, chunk)
  }

  /** A line as `xxd` writes it. */
  function PyLine(addr: int, chunk: seq<byte>): string
  {
    Head(addr) + HexBytes(Hex2, chunk) + Pad(|chunk|) + " " + Column(chunk)
  }

  /** The character column of a line. */
  function Column(bs: seq<byte>): string
  {
    Ascii(bs)
  }

  const Python := LineFormat(Head, Hex2, Column, PyLine)

  lemma PythonCoherent()
    ensures Coherent(Python)
  {
  }

  /** The lines of a dump: one per sixteen bytes, the last one possibly shorter. */
  function Lines(line: (int, seq<byte>) -> string, addr: int, data: seq<byte>): (r: seq<string>)
    ensures |r| == 0 <==> |data| == 0
    decreases |data|
  {
    if |data| == 0 then []
    else if |data| <= 16 then [line(addr, data)]
    else [line(addr, data[..16])] + Lines(line, addr + 16, data[16..])
  }

  /** What `xxd(address, data)` returns, the lines separated by `sep` (`os.linesep`):
    * empty exactly when there are no bytes, and otherwise starting with the line of the
    * first sixteen bytes. */
  function Dump(addr: int, data: seq<byte>, sep: string): (r: string)
    ensures |r| == 0 <==> |data| == 0
    ensures |data| > 0 ==> var first := PyLine(addr, data[..if |data| <= 16 then |data| else 16]);
      |first| <= |r| && r[..|first|] == first
  {
    var ps := Lines(PyLine, addr, data);
    var r := JoinWith(ps, sep);
    assert data[..|data|] == data;
    assert |ps| > 1 ==> r == ps[0] + (sep + JoinWith(ps[1..], sep));
    r
  }

  /** The text of the first `k` lines once they are complete: each line followed by the
    * separator when more bytes follow it. */
  function Closed(line: (int, seq<byte>) -> string, addr: int, data: seq<byte>, sep: string, k: nat): string
    requires 16 * k <= |data|
  {
    if k == 0 then []
    else
      var n := 16 * (k - 1);
      Closed(line, addr, data, sep, k - 1) + line(addr + n, data[n..n + 16]) +
      (if n + 16 < |data| then sep else [])
  }

  /** The address format is Python's `'{:08x}'`. */
  lemma HeadFormat(addr: int)
    ensures Head(addr) == PyInt.SignedHex(addr, 8) + ": "
  {
    if addr < 0 {
      PaddedFormat(-addr, 7);
    } else {
      PaddedFormat(addr, 8);
    }
  }

  lemma PaddedFormat(n: nat, width: nat)
    ensures ZeroPad(HexDigits(n), width) == PyInt.Hex(n, width)
  {
    HexDigitsFormat(n);
    var d := HexDigits(n);
    if |d| < width {
      ZeroPadZeros(d, width);
    }
  }

  lemma {:induction false} ZeroPadZeros(d: string, width: nat)
    requires |d| < width
    ensures ZeroPad(d, width) == PyInt.Zeros(width - |d|) + d
    decreases width - |d|
  {
    if |d| + 1 < width {
      ZeroPadZeros("0" + d, width);
      assert PyInt.Zeros(width - |d| - 1) + ("0" + d) == PyInt.Zeros(width - |d|) + d;
    } else {
      assert ZeroPad("0" + d, width) == "0" + d;
      assert PyInt.Zeros(1) == "0";
    }
  }

  lemma {:induction false} HexDigitsFormat(n: nat)
    ensures HexDigits(n) == PyInt.Digits(n, 16)
    decreases n
  {
    PyInt.DivMod(n, 16);
    HexCharDigit(n % 16);
    if n >= 16 {
      HexDigitsFormat(n / 16);
    }
  }

  /** The byte format is Python's `'{:02x}'`. */
  lemma Hex2Format(b: byte)
    ensures Hex2(b) == PyInt.Hex(b, 2)
  {
    PyInt.DivMod(b, 16);
    HexCharDigit(b / 16);
    HexCharDigit(b % 16);
    if b >= 16 {
      PyInt.DivMod(b / 16, 16);
      assert PyInt.Digits(b / 16, 16) == [HexChar(b / 16)];
    } else {
      assert PyInt.Digits(b, 16) == [HexChar(b)];
      assert PyInt.Zeros(1) == ['0'] == [HexChar(0)];
    }
  }

  lemma HexCharDigit(d: nat)
    requires d < 16
    ensures HexChar(d) == PyInt.DigitChar(d)
  {
  }

  // ---- xxd ----

  /** `xxd(address, data)`: a line is opened at every sixteenth byte, each byte is
    * appended in hex and kept in `linebuf`; a full line is closed with its character
    * column and, unless it holds the last byte, the line separator; a short last line is
    * padded before its column. */
  method Xxd(address: int, data: seq<byte>, sep: string) returns (ret: string)
    ensures ret == Dump(address, data, sep)
  {
    ret := [];
    var c := 0;
    var linebuf: seq<byte> := [];
    for i := 0 to |data|
      invariant XxdState(ret, c, linebuf) == Run(Python, address, data, sep, i)
    {
      ret, c, linebuf := XxdByte(address, data, sep, i, ret, c, linebuf);
    }
    RunCounter(Python, address, data, sep, |data|);
    ghost var last := XxdState(ret, c, linebuf);
    var nEmpty := 16 - |linebuf|;
    if nEmpty < 16 {
      ret := ret + Spaces(3 * nEmpty);
      ret := ret + " ";
      var column := AsciiColumn(linebuf);
      ret := ret + column;
    }
    assert ret == Finish(Python, last);
    assert Finish(Python, last) == Dump(address, data, sep) by {
      PythonCoherent();
      RunDump(Python, address, data, sep);
    }
  }

  /** The body of the loop of `xxd` for the byte at `i`. */
  method XxdByte(address: int, data: seq<byte>, sep: string, i: nat, ret0: string, c0: int, linebuf0: seq<byte>)
    returns (ret: string, c: int, linebuf: seq<byte>)
    requires i < |data|
    ensures XxdState(ret, c, linebuf) == Step(Python, XxdState(ret0, c0, linebuf0), address, data, sep, i)
  {
    ret, c, linebuf := ret0, c0, linebuf0;
    ghost var st := XxdState(ret, c, linebuf);
    if c == 0 {
      ret := ret + Head(address + i);
    }
    assert XxdState(ret, c, linebuf) == Open(Python, st, address, i);
    ret := ret + Hex2(data[i]) + " ";
    linebuf := linebuf + [data[i]];
    assert XxdState(ret, c, linebuf) == Put(Python, Open(Python, st, address, i), data[i]);
    ghost var put := XxdState(ret, c, linebuf);
    if c == 15 {
      var column := AsciiColumn(linebuf);
      ret := ret + " " + column;
      linebuf := [];
      if i != |data| - 1 {
        ret := ret + sep;
      }
    }
    assert XxdState(ret, c, linebuf) == Close(Python, put, data, sep, i);
    c := (c + 1) % 16;
  }

  /** The character column of one line, a character per byte. */
  method AsciiColumn(linebuf: seq<byte>) returns (s: string)
    ensures s == Column(linebuf)
  {
    s := [];
    for j := 0 to |linebuf|
      invariant s == Ascii(linebuf[..j])
    {
      assert linebuf[..j + 1][..j] == linebuf[..j];
      s := s + [AsciiChar(linebuf[j])];
    }
    assert linebuf[..|linebuf|] == linebuf;
  }

  /** The variables of `xxd` between two bytes. */
  datatype XxdState = XxdState(ret: string, c: int, linebuf: seq<byte>)

  /** The variables of `xxd` after the first `i` bytes. */
  function Run(f: LineFormat, address: int, data: seq<byte>, sep: string, i: nat): XxdState
    requires i <= |data|
  {
    if i == 0 then XxdState([], 0, [])
    else Step(f, Run(f, address, data, sep, i - 1), address, data, sep, i - 1)
  }

  /** One turn of the loop of `xxd`, for the byte at `i`: open, put, close, count. */
  function Step(f: LineFormat, st: XxdState, address: int, data: seq<byte>, sep: string, i: nat): XxdState
    requires i < |data|
  {
    var closed := Close(f, Put(f, Open(f, st, address, i), data[i]), data, sep, i);
    closed.(c := (st.c + 1) % 16)
  }

  /** The address at the first byte of a line. */
  function Open(f: LineFormat, st: XxdState, address: int, i: nat): XxdState
  {
    if st.c == 0 then st.(ret := st.ret + f.heads(address + i)) else st
  }

  /** The byte in hex, and kept for the character column. */
  function Put(f: LineFormat, st: XxdState, b: byte): XxdState
  {
    st.(ret := st.ret + f.hex(b) + " ", linebuf := st.linebuf + [b])
  }

  /** At the sixteenth byte: the column, and the separator unless it is the last byte. */
  function Close(f: LineFormat, st: XxdState, data: seq<byte>, sep: string, i: nat): XxdState
  {
    if st.c == 15 then
      if i != |data| - 1 then st.(ret := st.ret + " " + f.column(st.linebuf) + sep, linebuf := [])
      else st.(ret := st.ret + " " + f.column(st.linebuf), linebuf := [])
    else st
  }

  /** The column counter stays below sixteen and counts the bytes of the open line. */
  lemma {:induction false} RunCounter(f: LineFormat, address: int, data: seq<byte>, sep: string, i: nat)
    requires i <= |data|
    ensures 0 <= Run(f, address, data, sep, i).c < 16
    ensures |Run(f, address, data, sep, i).linebuf| == Run(f, address, data, sep, i).c
  {
    if i > 0 {
      RunCounter(f, address, data, sep, i - 1);
      StepCounter(f, address, data, sep, Run(f, address, data, sep, i - 1), Run(f, address, data, sep, i), i - 1);
    }
  }

  /** One turn of the loop keeps the counter in range. */
  lemma StepCounter(f: LineFormat, address: int, data: seq<byte>, sep: string, st: XxdState, next: XxdState, i: nat)
    requires i < |data| && next == Step(f, st, address, data, sep, i)
    requires 0 <= st.c < 16 && |st.linebuf| == st.c
    ensures 0 <= next.c < 16 && |next.linebuf| == next.c
  {
  }

  /** What `xxd` appends after the loop: the padding and column of a short last line. */
  function Finish(f: LineFormat, st: XxdState): string
  {
    if |st.linebuf| > 0 then st.ret + Pad(|st.linebuf|) + " " + f.column(st.linebuf) else st.ret
  }

  /** After `16 * full + st.c` bytes: `linebuf` holds the bytes of the open line, and the
    * text is the `full` closed lines followed by the open line so far. */
  predicate Shaped(f: LineFormat, address: int, data: seq<byte>, sep: string, full: nat, st: XxdState)
  {
    0 <= st.c < 16 && 16 * full + st.c <= |data| && st.linebuf == data[16 * full..16 * full + st.c] &&
    (st.c == 0 ==> st.ret == Closed(f.line, address, data, sep, full)) &&
    (st.c != 0 ==> st.ret == Closed(f.line, address, data, sep, full) + f.heads(address + 16 * full) + HexBytes(f.hex, st.linebuf))
  }

  lemma {:induction false} RunShape(f: LineFormat, address: int, data: seq<byte>, sep: string, i: nat)
    requires Coherent(f) && i <= |data|
    ensures ShapedAt(f, address, data, sep, i, Run(f, address, data, sep, i))
  {
    if i > 0 {
      RunShape(f, address, data, sep, i - 1);
      StepShape(f, address, data, sep, Run(f, address, data, sep, i - 1), Run(f, address, data, sep, i), i - 1);
    }
  }

  /** The shape after the first `i` bytes, `i / 16` lines of them complete. */
  predicate ShapedAt(f: LineFormat, address: int, data: seq<byte>, sep: string, i: nat, st: XxdState)
  {
    16 * (i / 16) + st.c == i && Shaped(f, address, data, sep, i / 16, st)
  }

  /** One turn of the loop keeps the shape, whichever part of a line the byte is. */
  lemma StepShape(f: LineFormat, address: int, data: seq<byte>, sep: string, st: XxdState, next: XxdState, i: nat)
    requires Coherent(f) && i < |data| && next == Step(f, st, address, data, sep, i)
    requires ShapedAt(f, address, data, sep, i, st)
    ensures ShapedAt(f, address, data, sep, i + 1, next)
  {
    var full := i / 16;
    if st.c == 0 {
      StepOpen(f, address, data, sep, full, st, i);
      Count16(full, 1, i + 1);
    } else if st.c < 15 {
      StepExtend(f, address, data, sep, full, st, i);
      Count16(full, st.c + 1, i + 1);
    } else {
      StepClose(f, address, data, sep, full, st, i);
      Count16(full + 1, 0, i + 1);
    }
  }

  /** The first byte of a line opens it. */
  lemma StepOpen(f: LineFormat, address: int, data: seq<byte>, sep: string, full: nat, st: XxdState, i: nat)
    requires Shaped(f, address, data, sep, full, st) && st.c == 0 && i == 16 * full < |data|
    ensures Step(f, st, address, data, sep, i).c == 1
    ensures Shaped(f, address, data, sep, full, Step(f, st, address, data, sep, i))
  {
    var b := data[i];
    HexBytesSnoc(f.hex, [], b);
    assert [] + [b] == [b];
    assert st.linebuf == [];
    assert data[i..i + 1] == [] + [b];
    OpenLine(st.ret, f.heads(address + i), f.hex(b), HexBytes(f.hex, [b]));
  }

  /** A byte in the middle of a line extends it. */
  lemma StepExtend(f: LineFormat, address: int, data: seq<byte>, sep: string, full: nat, st: XxdState, i: nat)
    requires Shaped(f, address, data, sep, full, st) && 0 < st.c < 15 && i == 16 * full + st.c < |data|
    ensures Step(f, st, address, data, sep, i).c == st.c + 1
    ensures Shaped(f, address, data, sep, full, Step(f, st, address, data, sep, i))
  {
    var n := 16 * full;
    var b := data[i];
    HexBytesSnoc(f.hex, st.linebuf, b);
    assert data[n..i + 1] == st.linebuf + [b];
    Extend(Closed(f.line, address, data, sep, full), f.heads(address + n), HexBytes(f.hex, st.linebuf), f.hex(b));
  }

  /** The sixteenth byte of a line closes it. */
  lemma StepClose(f: LineFormat, address: int, data: seq<byte>, sep: string, full: nat, st: XxdState, i: nat)
    requires Coherent(f)
    requires Shaped(f, address, data, sep, full, st) && st.c == 15 && i == 16 * full + 15 < |data|
    ensures Step(f, st, address, data, sep, i).c == 0
    ensures Shaped(f, address, data, sep, full + 1, Step(f, st, address, data, sep, i))
  {
    var n := 16 * full;
    var b := data[i];
    var buf := st.linebuf + [b];
    HexBytesSnoc(f.hex, st.linebuf, b);
    assert data[n..n + 16] == buf;
    Extend(Closed(f.line, address, data, sep, full), f.heads(address + n), HexBytes(f.hex, st.linebuf), f.hex(b));
    assert f.line(address + n, buf) == Line(f, address + n, buf);
    CloseLine(f, address, data, sep, full, st.ret + f.hex(b) + " ", buf);
    assert data[16 * (full + 1)..16 * (full + 1)] == [];
  }

  /** The line count of `16 * full + c` bytes. */
  lemma Count16(full: nat, c: nat, i: nat)
    requires c < 16 && i == 16 * full + c
    ensures i / 16 == full
  {
  }

  /** Opening a line with its first byte. */
  lemma OpenLine(closed: string, head: string, hex: string, hb: string)
    requires hb == hex + " "
    ensures closed + head + hex + " " == closed + head + hb
  {
  }

  /** One more byte in the open line. */
  lemma Extend(closed: string, head: string, hb: string, hex: string)
    ensures closed + head + hb + hex + " " == closed + head + (hb + hex + " ")
  {
  }

  /** Closing a full line: the text is the closed lines, this one included. */
  lemma CloseLine(f: LineFormat, address: int, data: seq<byte>, sep: string, full: nat, open: string, buf: seq<byte>)
    requires 16 * full + 16 <= |data| && buf == data[16 * full..16 * full + 16]
    requires f.line(address + 16 * full, buf) == Line(f, address + 16 * full, buf)
    requires open == Closed(f.line, address, data, sep, full) + f.heads(address + 16 * full) + HexBytes(f.hex, buf)
    ensures 16 * full + 16 < |data| ==> open + " " + f.column(buf) + sep == Closed(f.line, address, data, sep, full + 1)
    ensures 16 * full + 16 == |data| ==> open + " " + f.column(buf) == Closed(f.line, address, data, sep, full + 1)
  {
    var n := 16 * full;
    var closed := Closed(f.line, address, data, sep, full);
    NoPad(f.heads(address + n), HexBytes(f.hex, buf), f.column(buf));
    if n + 16 < |data| {
      Regroup(closed, f.heads(address + n), HexBytes(f.hex, buf), f.column(buf), sep);
    } else {
      RegroupLast(closed, f.heads(address + n), HexBytes(f.hex, buf), f.column(buf));
    }
  }

  /** The loop and its tail produce the lines joined by the separator. */
  lemma RunDump(f: LineFormat, address: int, data: seq<byte>, sep: string)
    requires Coherent(f)
    ensures Finish(f, Run(f, address, data, sep, |data|)) == JoinWith(Lines(f.line, address, data), sep)
  {
    var st := Run(f, address, data, sep, |data|);
    RunShape(f, address, data, sep, |data|);
    assert ShapedAt(f, address, data, sep, |data|, st);
    var full := |data| / 16;
    if st.c == 0 {
      DumpWhole(f, address, data, sep, full, st);
    } else {
      DumpShort(f, address, data, sep, full, st);
    }
  }

  /** Bytes that fill their last line: the loop has closed every line. */
  lemma DumpWhole(f: LineFormat, address: int, data: seq<byte>, sep: string, full: nat, st: XxdState)
    requires Shaped(f, address, data, sep, full, st) && st.c == 0 && 16 * full == |data|
    ensures Finish(f, st) == JoinWith(Lines(f.line, address, data), sep)
  {
    ClosedWhole(f.line, address, data, sep, full);
  }

  /** Bytes that end in a short line: the tail pads and closes it. */
  lemma DumpShort(f: LineFormat, address: int, data: seq<byte>, sep: string, full: nat, st: XxdState)
    requires Coherent(f)
    requires Shaped(f, address, data, sep, full, st) && st.c != 0 && 16 * full + st.c == |data|
    ensures Finish(f, st) == JoinWith(Lines(f.line, address, data), sep)
  {
    var n := 16 * full;
    var chunk := data[n..];
    assert chunk == st.linebuf;
    assert f.line(address + n, chunk) == Line(f, address + n, chunk);
    LastLines(f.line, address, data, sep, full);
    RegroupPadded(Closed(f.line, address, data, sep, full), f.heads(address + n), HexBytes(f.hex, chunk), Pad(|chunk|), f.column(chunk));
  }

  /** Appending a byte appends its hex and a space. */
  lemma {:induction false} HexBytesSnoc(hex: byte -> string, bs: seq<byte>, b: byte)
    ensures HexBytes(hex, bs + [b]) == HexBytes(hex, bs) + hex(b) + " "
  {
    if |bs| == 0 {
      assert [b][1..] == [];
    } else {
      assert (bs + [b])[0] == bs[0] && (bs + [b])[1..] == bs[1..] + [b];
      HexBytesSnoc(hex, bs[1..], b);
    }
  }

  /** The lines of the bytes are those of the bytes up to `n` followed by the last one. */
  lemma {:induction false} LinesSnoc(line: (int, seq<byte>) -> string, addr: int, data: seq<byte>, n: nat)
    requires n % 16 == 0 && n < |data| <= n + 16
    ensures Lines(line, addr, data) == Lines(line, addr, data[..n]) + [line(addr + n, data[n..])]
    decreases n
  {
    if n == 0 {
      assert data[..0] == [] && data[0..] == data;
    } else {
      var tail := data[16..];
      var first := line(addr, data[..16]);
      var last := line(addr + n, data[n..]);
      var middle := Lines(line, addr + 16, tail[..n - 16]);
      assert Lines(line, addr + 16, tail) == middle + [last] by {
        LinesSnoc(line, addr + 16, tail, n - 16);
        assert tail[n - 16..] == data[n..];
      }
      assert Lines(line, addr, data[..n]) == [first] + middle by {
        LinesFirst(line, addr, data[..n]);
        assert data[..n][..16] == data[..16] && data[..n][16..] == tail[..n - 16];
      }
      LinesFirst(line, addr, data);
      ConsSnoc(first, middle, last);
    }
  }

  /** A dump of more than sixteen bytes starts with the line of the first sixteen. */
  lemma LinesFirst(line: (int, seq<byte>) -> string, addr: int, data: seq<byte>)
    requires |data| >= 16
    ensures Lines(line, addr, data) == [line(addr, data[..16])] + Lines(line, addr + 16, data[16..])
  {
    if |data| == 16 {
      assert data[..16] == data && data[16..] == [];
    }
  }

  lemma ConsSnoc<T>(x: T, m: seq<T>, y: T)
    ensures [x] + (m + [y]) == [x] + m + [y]
  {
  }

  /** The complete lines, joined, and the separator when more bytes follow. */
  lemma {:induction false} ClosedLines(line: (int, seq<byte>) -> string, addr: int, data: seq<byte>, sep: string, k: nat)
    requires 16 * k <= |data|
    ensures Closed(line, addr, data, sep, k) ==
      JoinWith(Lines(line, addr, data[..16 * k]), sep) + (if 0 < 16 * k < |data| then sep else [])
  {
    if k == 0 {
      assert data[..0] == [];
    } else {
      var n := 16 * (k - 1);
      var d := data[..n + 16];
      var ps := Lines(line, addr, data[..n]);
      var x := line(addr + n, data[n..n + 16]);
      var tail := if n + 16 < |data| then sep else [];
      ClosedNext(line, addr, data, sep, k);
      ClosedLines(line, addr, data, sep, k - 1);
      assert Lines(line, addr, d) == ps + [x] by {
        Multiple(k - 1);
        LinesSnoc(line, addr, d, n);
        assert d[..n] == data[..n] && d[n..] == data[n..n + 16];
      }
      assert |ps| > 0 <==> n > 0;
      JoinAfter(ps, x, sep, Closed(line, addr, data, sep, k - 1), if 0 < n < |data| then sep else []);
      assert data[..16 * k] == d;
    }
  }

  /** The complete lines of `k` times sixteen bytes: those of one line fewer, the last
    * one, and the separator when more bytes follow. */
  lemma ClosedNext(line: (int, seq<byte>) -> string, addr: int, data: seq<byte>, sep: string, k: nat)
    requires 0 < k && 16 * k <= |data|
    ensures Closed(line, addr, data, sep, k) == Closed(line, addr, data, sep, k - 1) +
      line(addr + 16 * (k - 1), data[16 * (k - 1)..16 * k]) + (if 16 * k < |data| then sep else [])
  {
  }

  /** Joining one more piece onto text that is the joined pieces and a separator. */
  lemma JoinAfter(ps: seq<string>, x: string, sep: string, prefix: string, mid: string)
    requires prefix == JoinWith(ps, sep) + mid
    requires mid == if |ps| > 0 then sep else []
    ensures JoinWith(ps + [x], sep) == prefix + x
  {
    JoinWithSnoc(ps, x, sep);
  }

  /** When the bytes end with a complete line, the dump is the complete lines. */
  lemma ClosedWhole(line: (int, seq<byte>) -> string, addr: int, data: seq<byte>, sep: string, k: nat)
    requires 16 * k == |data|
    ensures Closed(line, addr, data, sep, k) == JoinWith(Lines(line, addr, data), sep)
  {
    ClosedLines(line, addr, data, sep, k);
    assert data[..16 * k] == data;
    Unit(JoinWith(Lines(line, addr, data), sep));
  }

  /** When the bytes end with a short line, the dump is the complete lines and that one. */
  lemma LastLines(line: (int, seq<byte>) -> string, addr: int, data: seq<byte>, sep: string, k: nat)
    requires 16 * k < |data| < 16 * k + 16
    ensures JoinWith(Lines(line, addr, data), sep) ==
      Closed(line, addr, data, sep, k) + line(addr + 16 * k, data[16 * k..])
  {
    var n := 16 * k;
    ClosedLines(line, addr, data, sep, k);
    Multiple(k);
    LinesSnoc(line, addr, data, n);
    JoinWithSnoc(Lines(line, addr, data[..n]), line(addr + n, data[n..]), sep);
  }

  lemma Multiple(k: nat)
    ensures (16 * k) % 16 == 0
  {
  }

  lemma Unit(s: string)
    ensures s + [] == s
  {
  }

  /** A full line has no padding. */
  lemma NoPad(head: string, hex: string, column: string)
    ensures head + hex + Pad(16) + " " + column == head + hex + " " + column
  {
    assert Pad(16) == [];
    Unit(head + hex);
  }

  /** Appending a line and a separator piece by piece. */
  lemma Regroup(prefix: string, head: string, hex: string, column: string, sep: string)
    ensures prefix + (head + hex + " " + column) + sep == prefix + head + hex + " " + column + sep
  {
  }

  /** Appending the last line piece by piece. */
  lemma RegroupLast(prefix: string, head: string, hex: string, column: string)
    ensures prefix + (head + hex + " " + column) == prefix + head + hex + " " + column
  {
  }

  /** Appending a padded last line piece by piece. */
  lemma RegroupPadded(prefix: string, head: string, hex: string, pad: string, column: string)
    ensures prefix + (head + hex + pad + " " + column) == prefix + head + hex + pad + " " + column
  {
  }

  // ---- reading a dump back ----

  /** The length of the run of hex digits that starts `s`. */
  function HexRun(s: string): (n: nat)
    ensures n <= |s| && (n < |s| ==> !IsHex(s[n]))
  {
    if |s| > 0 && IsHex(s[0]) then 1 + HexRun(s[1..]) else 0
  }

  /** The length of the run of whitespace that starts `s`. */
  function SpaceRun(s: string): (n: nat)
    ensures n <= |s| && (n < |s| ==> !PyInt.IsSpace(s[n]))
  {
    if |s| > 0 && PyInt.IsSpace(s[0]) then 1 + SpaceRun(s[1..]) else 0
  }

  /** The length of `([0-9a-fA-F]{2}\s?){0,left}` at the start of `s`, every repetition
    * taking its optional whitespace character when there is one. */
  function DataRun(s: string, left: nat): (n: nat)
    ensures n <= |s|
    decreases left
  {
    if left > 0 && |s| >= 2 && IsHex(s[0]) && IsHex(s[1]) then
      var k := if |s| > 2 && PyInt.IsSpace(s[2]) then 3 else 2;
      k + DataRun(s[k..], left - 1)
    else 0
  }

  /** The `addr` and `data` groups of a matched line. */
  datatype LineMatch = LineMatch(addr: string, data: string)

  /** `_XXD_REGEX.match(line)`: at least eight hex digits and a colon, whitespace, then
    * one to sixteen two-digit hex bytes, each followed by at most one whitespace
    * character. Each part of the pattern takes the longest run it can: a shorter address
    * run would leave a hex digit where the colon must be, a shorter whitespace run a
    * space where a hex digit must be, and nothing follows the data group. */
  function MatchLine(line: string): (r: Option<LineMatch>)
    ensures r.Some? ==> |r.value.addr| >= 8 && 2 <= |r.value.data| <= 48
  {
    var h := HexRun(line);
    if h < 8 || h == |line| || line[h] != ':' then None
    else
      var rest := line[h + 1..];
      var data := rest[SpaceRun(rest)..];
      var n := DataRun(data, 16);
      DataRunBound(data, 16);
      if n == 0 then None else Some(LineMatch(line[..h], data[..n]))
  }

  lemma {:induction false} DataRunBound(s: string, left: nat)
    ensures DataRun(s, left) <= 3 * left
    ensures DataRun(s, left) == 0 || DataRun(s, left) >= 2
    decreases left
  {
    if left > 0 && |s| >= 2 && IsHex(s[0]) && IsHex(s[1]) {
      var k := if |s| > 2 && PyInt.IsSpace(s[2]) then 3 else 2;
      DataRunBound(s[k..], left - 1);
    }
  }

  /** The byte two hex digits denote. */
  function PairValue(hi: char, lo: char): byte
    requires IsHex(hi) && IsHex(lo)
  {
    PyInt.DigitVal(hi).value * 16 + PyInt.DigitVal(lo).value
  }

  /** The ASCII whitespace `bytes.fromhex` skips. */
  predicate HexSpace(c: char)
  {
    c == ' ' || c == '\t' || c == '\n' || c == '\r' || c as int == 0x0b || c as int == 0x0c
  }

  /** `bytes.fromhex(s)`: ASCII whitespace before a byte is skipped, every byte is two hex
    * digits, anything else is ValueError. */
  function FromHex(s: string): (r: Result<seq<byte>>)
    ensures r.Err? ==> r.error == ValueError
    decreases |s|
  {
    if |s| == 0 then Ok([])
    else if HexSpace(s[0]) then FromHex(s[1..])
    else if |s| >= 2 && IsHex(s[0]) && IsHex(s[1]) then
      match FromHex(s[2..])
      case Err(e) => Err(e)
      case Ok(rest) => Ok([PairValue(s[0], s[1])] + rest)
    else Err(ValueError)
  }

  /** What `xxd_reverse` has gathered: the address of the first line, if any, and the
    * bytes. */
  datatype Undumped = Undumped(address: Option<int>, data: seq<byte>)

  /** One line of the dump: stripped, skipped when empty, ValueError when it does not
    * match; the first matching line gives the address, every one its bytes. */
  function ReadLine(st: Undumped, line: string): Result<Undumped>
  {
    var l := PyInt.Strip(line);
    if |l| == 0 then Ok(st)
    else
      match MatchLine(l)
      case None => Err(ValueError)
      case Some(m) =>
        match (if st.address.Some? then Ok(st.address.value) else PyInt.IntBase16(m.addr))
        case Err(e) => Err(e)
        case Ok(a) =>
          match FromHex(m.data)
          case Err(e) => Err(e)
          case Ok(b) => Ok(Undumped(Some(a), st.data + b))
  }

  function ReadLines(st: Undumped, lines: seq<string>): Result<Undumped>
    decreases |lines|
  {
    if |lines| == 0 then Ok(st)
    else
      match ReadLine(st, lines[0])
      case Err(e) => Err(e)
      case Ok(st1) => ReadLines(st1, lines[1..])
  }

  /** Once an address is read, it stays. */
  lemma {:induction false} ReadLinesKeepAddress(st: Undumped, lines: seq<string>)
    requires st.address.Some? && ReadLines(st, lines).Ok?
    ensures ReadLines(st, lines).value.address == st.address
    decreases |lines|
  {
    if |lines| > 0 {
      ReadLinesKeepAddress(ReadLine(st, lines[0]).value, lines[1..]);
    }
  }

  /** Without an address at the end, no line matched, so no bytes were added. */
  lemma {:induction false} ReadLinesNoAddress(st: Undumped, lines: seq<string>)
    requires ReadLines(st, lines).Ok? && ReadLines(st, lines).value.address.None?
    ensures ReadLines(st, lines).value.data == st.data
    decreases |lines|
  {
    if |lines| > 0 {
      var st1 := ReadLine(st, lines[0]).value;
      if st1.address.Some? {
        ReadLinesKeepAddress(st1, lines[1..]);
      } else {
        ReadLinesNoAddress(st1, lines[1..]);
      }
    }
  }

  /** What `xxd_reverse(hexdump)` returns: without an address (no line matched) it
    * returns no bytes. */
  function Undump(hexdump: string): (r: Result<Undumped>)
    ensures r.Ok? && r.value.address.None? ==> r.value.data == []
  {
    var r := ReadLines(Undumped(None, []), SplitLines(hexdump));
    if r.Ok? && r.value.address.None? then ReadLinesNoAddress(Undumped(None, []), SplitLines(hexdump)); r else r
  }

  /** `xxd_reverse(hexdump)`: the lines of the dump read one after the other. */
  method XxdReverse(hexdump: string) returns (r: Result<Undumped>)
    ensures r == Undump(hexdump)
  {
    var address: Option<int> := None;
    var data: seq<byte> := [];
    var lines := SplitLines(hexdump);
    for k := 0 to |lines|
      invariant Undump(hexdump) == ReadLines(Undumped(address, data), lines[k..])
    {
      assert lines[k..][0] == lines[k] && lines[k..][1..] == lines[k + 1..];
      var line := PyInt.Strip(lines[k]);
      if |line| == 0 {
        continue;
      }
      var m := MatchLine(line);
      if m.None? {
        return Err(ValueError);
      }
      if address.None? {
        var a := PyInt.IntBase16(m.value.addr);
        if a.Err? {
          return Err(a.error);
        }
        address := Some(a.value);
      }
      var b := FromHex(m.value.data);
      if b.Err? {
        return Err(b.error);
      }
      data := data + b.value;
    }
    return Ok(Undumped(address, data));
  }

  /** A malformed dump raises ValueError and nothing else. */
  lemma {:induction false} ReadLinesError(st: Undumped, lines: seq<string>)
    ensures ReadLines(st, lines).Err? ==> ReadLines(st, lines).error == ValueError
    decreases |lines|
  {
    if |lines| > 0 {
      var st1 := ReadLine(st, lines[0]);
      if st1.Ok? {
        ReadLinesError(st1.value, lines[1..]);
      }
    }
  }

  // ---- the round trip ----

  /** `xxd_reverse(xxd(address, data))` gives back the address and the bytes, for a
    * non-negative address and lines separated by `\n` or `\r\n`; a dump of no bytes reads
    * back as no address and no bytes. */
  lemma XxdRoundTrip(address: nat, data: seq<byte>, sep: string)
    requires sep == "\n" || sep == "\r\n"
    ensures Undump(Dump(address, data, sep)) == Ok(Undumped(if |data| == 0 then None else Some(address), data))
  {
    if |data| == 0 {
      assert Dump(address, data, sep) == [];
    } else {
      var ls := Lines(PyLine, address, data);
      LinesPrintable(address, data);
      assert forall k :: 0 <= k < |ls| ==> NoLineBreak(ls[k]) by {
        forall k | 0 <= k < |ls| {
          PrintableNoBreak(ls[k]);
        }
      }
      SplitLinesJoin(ls, sep);
      ReadDump(Undumped(None, []), address, data);
      assert [] + data == data;
    }
  }

  /** Reading the lines of a dump from `st`: the first address read is kept, and every
    * line gives back its bytes. */
  lemma {:induction false} ReadDump(st: Undumped, a: nat, d: seq<byte>)
    requires |d| > 0
    ensures ReadLines(st, Lines(PyLine, a, d)) ==
      Ok(Undumped(Some(if st.address.Some? then st.address.value else a), st.data + d))
    decreases |d|
  {
    if |d| <= 16 {
      ReadDumpOne(st, a, d);
    } else {
      var st1 := Undumped(Some(if st.address.Some? then st.address.value else a), st.data + d[..16]);
      ReadDump(st1, a + 16, d[16..]);
      ReadDumpCons(st, st1, a, d);
    }
  }

  lemma ReadDumpOne(st: Undumped, a: nat, d: seq<byte>)
    requires 1 <= |d| <= 16
    ensures ReadLines(st, Lines(PyLine, a, d)) ==
      Ok(Undumped(Some(if st.address.Some? then st.address.value else a), st.data + d))
  {
    var st1 := Undumped(Some(if st.address.Some? then st.address.value else a), st.data + d);
    ReadPyLine(st, a, d);
    assert [PyLine(a, d)] + [] == Lines(PyLine, a, d);
    ReadLinesCons(st, st1, PyLine(a, d), [], Lines(PyLine, a, d));
  }

  lemma ReadDumpCons(st: Undumped, st1: Undumped, a: nat, d: seq<byte>)
    requires |d| > 16
    requires st1 == Undumped(Some(if st.address.Some? then st.address.value else a), st.data + d[..16])
    requires ReadLines(st1, Lines(PyLine, a + 16, d[16..])) ==
      Ok(Undumped(Some(st1.address.value), st1.data + d[16..]))
    ensures ReadLines(st, Lines(PyLine, a, d)) ==
      Ok(Undumped(Some(if st.address.Some? then st.address.value else a), st.data + d))
  {
    ReadFirstLine(st, st1, a, d);
    SplitAt(st.data, d, 16);
  }

  /** Reading a dump of more than sixteen bytes: the first line, then the others. */
  lemma ReadFirstLine(st: Undumped, st1: Undumped, a: nat, d: seq<byte>)
    requires |d| > 16
    requires st1 == Undumped(Some(if st.address.Some? then st.address.value else a), st.data + d[..16])
    ensures ReadLines(st, Lines(PyLine, a, d)) == ReadLines(st1, Lines(PyLine, a + 16, d[16..]))
  {
    LinesFirst(PyLine, a, d);
    ReadPyLine(st, a, d[..16]);
    ReadLinesCons(st, st1, PyLine(a, d[..16]), Lines(PyLine, a + 16, d[16..]), Lines(PyLine, a, d));
  }

  lemma SplitAt(p: seq<byte>, d: seq<byte>, n: nat)
    requires n <= |d|
    ensures p + d[..n] + d[n..] == p + d
  {
    assert d[..n] + d[n..] == d;
  }

  /** Reading a line that succeeds, then the others from where it left off. */
  lemma ReadLinesCons(st: Undumped, st1: Undumped, x: string, rest: seq<string>, ls: seq<string>)
    requires ReadLine(st, x) == Ok(st1) && ls == [x] + rest
    ensures ReadLines(st, ls) == ReadLines(st1, rest)
  {
    assert ls[0] == x && ls[1..] == rest;
  }

  /** One line of the dump reads back as its bytes, and as its address when no address
    * was read before. */
  lemma ReadPyLine(st: Undumped, a: nat, chunk: seq<byte>)
    requires 1 <= |chunk| <= 16
    ensures ReadLine(st, PyLine(a, chunk)) ==
      Ok(Undumped(Some(if st.address.Some? then st.address.value else a), st.data + chunk))
  {
    var h := PyInt.Hex(a, 8);
    var hbt := DropLast(HexBytes(Hex2, chunk));
    var u := PyLineStrip(a, chunk);
    var tail := if |u| > 0 then " " else [];
    MatchParts(h, chunk, u);
    FromHexBytes(chunk, tail);
    PyInt.Hex16RoundTrip(a, 8);
    ReadMatched(st, PyLine(a, chunk), h + ": " + (hbt + u), LineMatch(h, hbt + tail), a, chunk);
  }

  /** A line whose stripped text matches the pattern, with an address and bytes that
    * read back, adds those bytes, and gives the address when no address was read before. */
  lemma ReadMatched(st: Undumped, line: string, l: string, m: LineMatch, a: int, b: seq<byte>)
    requires PyInt.Strip(line) == l && MatchLine(l) == Some(m)
    requires PyInt.IntBase16(m.addr) == Ok(a) && FromHex(m.data) == Ok(b)
    ensures ReadLine(st, line) == Ok(Undumped(Some(if st.address.Some? then st.address.value else a), st.data + b))
  {
  }

  /** Everything of text `s` but its last character. */
  function DropLast(s: string): (r: string)
    ensures |s| > 0 ==> |r| == |s| - 1
  {
    if |s| == 0 then s else s[..|s| - 1]
  }

  /** Text that ends with a space is what comes before it and the space. */
  lemma DropLastSpace(s: string)
    requires |s| > 0 && s[|s| - 1] == ' '
    ensures s == DropLast(s) + " "
  {
  }

  /** A line stripped: the address, the colon and space, the hex of its bytes up to the
    * last digit, and what the strip keeps of the rest, which starts with a space and,
    * on a short line, continues with the padding. */
  lemma PyLineStrip(a: nat, chunk: seq<byte>) returns (u: string)
    requires 1 <= |chunk| <= 16
    ensures PyInt.Strip(PyLine(a, chunk)) == PyInt.Hex(a, 8) + ": " + (DropLast(HexBytes(Hex2, chunk)) + u)
    ensures u == [] || u[0] == ' '
    ensures |chunk| == 16 || |u| <= 1 || u[1] == ' '
  {
    var h := PyInt.Hex(a, 8);
    var hbt := DropLast(HexBytes(Hex2, chunk));
    var t := Pad(|chunk|) + " " + Column(chunk);
    PyLineParts(a, chunk);
    u := StripAfter(h + ": " + hbt, " " + t);
    Assoc(h + ": ", hbt, u);
    if |chunk| < 16 {
      PadFirst(|chunk|, Column(chunk));
    }
    SpacedPrefix(u, t);
  }

  lemma Assoc(p: string, q: string, r: string)
    ensures p + q + r == p + (q + r)
  {
  }

  /** A prefix of a space and `t`: a space, then `t`'s first character. */
  lemma SpacedPrefix(u: string, t: string)
    requires |u| <= 1 + |t| && u == (" " + t)[..|u|]
    ensures u == [] || u[0] == ' '
    ensures |u| > 1 ==> u[1] == t[0]
  {
  }

  /** A short line's padding starts with a space. */
  lemma PadFirst(k: nat, column: string)
    requires k < 16
    ensures (Pad(k) + " " + column)[0] == ' '
  {
    assert Pad(k)[0] == ' ';
  }

  /** A line is its address, colon and space, the hex of its bytes up to the last digit
    * (text that neither starts nor ends with a space), then a space, the padding, a
    * space and the character column. */
  lemma PyLineParts(a: nat, chunk: seq<byte>)
    requires 1 <= |chunk| <= 16
    ensures var x := PyInt.Hex(a, 8) + ": " + DropLast(HexBytes(Hex2, chunk));
      PyLine(a, chunk) == x + (" " + (Pad(|chunk|) + " " + Column(chunk))) &&
      |x| > 0 && !PyInt.IsSpace(x[0]) && !PyInt.IsSpace(x[|x| - 1])
  {
    var k := |chunk|;
    var h := PyInt.Hex(a, 8);
    var hb := HexBytes(Hex2, chunk);
    HeadFormat(a);
    HexBytesShape(chunk);
    DropLastSpace(hb);
    LineRegroup(Head(a), h, hb, DropLast(hb), Pad(k), Column(chunk));
    LineEnds(h, DropLast(hb));
    PyInt.HexDigitChar(h[0]);
    PyInt.HexDigitChar(hb[3 * k - 2]);
  }

  lemma LineRegroup(head: string, h: string, hb: string, hbt: string, pad: string, column: string)
    requires head == h + ": " && hb == hbt + " "
    ensures head + hb + pad + " " + column == (h + ": " + hbt) + (" " + (pad + " " + column))
  {
  }

  lemma LineEnds(h: string, hbt: string)
    requires |h| > 0 && |hbt| > 0
    ensures var x := h + ": " + hbt; |x| > 0 && x[0] == h[0] && x[|x| - 1] == hbt[|hbt| - 1]
  {
  }

  /** Stripping text that starts and ends without a space keeps it, followed by a prefix
    * of whatever comes after it. */
  lemma StripAfter(x: string, y: string) returns (u: string)
    requires |x| > 0 && !PyInt.IsSpace(x[0]) && !PyInt.IsSpace(x[|x| - 1])
    ensures PyInt.Strip(x + y) == x + u && u == y[..|u|]
  {
    var s := x + y;
    assert s[0] == x[0] && s[|x| - 1] == x[|x| - 1];
    PyInt.StripKeeps(s, |x| - 1);
    var e := |PyInt.Strip(s)|;
    u := y[..e - |x|];
    assert s[..e] == x + u;
  }

  /** The pattern over a stripped line: the address digits, then the hex of the bytes
    * with the one space that follows them, if any. */
  lemma MatchParts(h: string, chunk: seq<byte>, u: string)
    requires |h| >= 8 && PyInt.AllDigits(h, 16) && 1 <= |chunk| <= 16
    requires u == [] || u[0] == ' '
    requires |chunk| == 16 || |u| <= 1 || u[1] == ' '
    ensures MatchLine(h + ": " + (DropLast(HexBytes(Hex2, chunk)) + u)) ==
      Some(LineMatch(h, DropLast(HexBytes(Hex2, chunk)) + (if |u| > 0 then " " else [])))
  {
    var hb := HexBytes(Hex2, chunk);
    var hbt := DropLast(hb);
    HexBytesShape(chunk);
    PyInt.HexDigitChar(hb[0]);
    DataRunHex(chunk, u, 16);
    var n := DataRun(hbt + u, 16);
    TakeSpace(hbt, u, n);
    LineLayout(h, hbt + u);
    MatchLineAt(h + ": " + (hbt + u), |h|, hbt + u, n);
  }

  /** The text before a space, or nothing, with that space. */
  lemma TakeSpace(hbt: string, u: string, n: nat)
    requires u == [] || u[0] == ' '
    requires n == |hbt| + (if |u| > 0 then 1 else 0)
    ensures (hbt + u)[..n] == hbt + (if |u| > 0 then " " else [])
  {
    if |u| > 0 {
      assert (hbt + u)[..n] == hbt + u[..1];
    } else {
      assert (hbt + u)[..n] == hbt;
    }
  }

  /** Address digits, a colon and a space, then text. */
  lemma LineLayout(h: string, data: string)
    requires PyInt.AllDigits(h, 16)
    ensures var l := h + ": " + data;
      |h| < |l| && HexRun(l) == |h| && l[|h|] == ':' && l[..|h|] == h && l[|h| + 1..] == " " + data
  {
    var l := h + ": " + data;
    HexRunBefore(h, ": " + data);
    assert l == h + (": " + data);
  }

  /** The pattern over a line whose address run of `hlen` digits ends with a colon, then a
    * space and text that starts with something other than a space, the data group taking
    * `n` characters of it. */
  lemma MatchLineAt(l: string, hlen: nat, data: string, n: nat)
    requires 8 <= hlen < |l| && HexRun(l) == hlen && l[hlen] == ':'
    requires l[hlen + 1..] == " " + data && |data| > 0 && !PyInt.IsSpace(data[0])
    requires 0 < n == DataRun(data, 16)
    ensures MatchLine(l) == Some(LineMatch(l[..hlen], data[..n]))
  {
    SkipOneSpace(l[hlen + 1..], data);
  }

  lemma SkipOneSpace(rest: string, data: string)
    requires rest == " " + data && |data| > 0 && !PyInt.IsSpace(data[0])
    ensures SpaceRun(rest) == 1 && rest[SpaceRun(rest)..] == data
  {
    assert rest[1..] == data;
  }

  /** The run of hex digits over digits followed by a non-digit. */
  lemma {:induction false} HexRunBefore(h: string, r: string)
    requires PyInt.AllDigits(h, 16) && |r| > 0 && !IsHex(r[0])
    ensures HexRun(h + r) == |h|
    decreases |h|
  {
    if |h| == 0 {
      assert h + r == r;
    } else {
      assert (h + r)[0] == h[0] && (h + r)[1..] == h[1..] + r;
      HexRunBefore(h[1..], r);
    }
  }

  /** The hex of `k` bytes is `3k` characters: each byte's two digits and a space. */
  lemma HexBytesShape(chunk: seq<byte>)
    requires |chunk| >= 1
    ensures |HexBytes(Hex2, chunk)| == 3 * |chunk|
    ensures IsHex(HexBytes(Hex2, chunk)[0])
    ensures IsHex(HexBytes(Hex2, chunk)[3 * |chunk| - 2]) && HexBytes(Hex2, chunk)[3 * |chunk| - 1] == ' '
  {
    var k := |chunk|;
    HexBytesLength(chunk);
    var b := chunk[k - 1];
    HexBytesSnoc(Hex2, chunk[..k - 1], b);
    assert chunk[..k - 1] + [b] == chunk;
    HexCharIsHex(chunk[0] / 16);
    HexCharIsHex(b % 16);
  }

  lemma {:induction false} HexBytesLength(chunk: seq<byte>)
    ensures |HexBytes(Hex2, chunk)| == 3 * |chunk|
  {
    if |chunk| > 0 {
      HexBytesLength(chunk[1..]);
    }
  }

  lemma HexCharIsHex(d: nat)
    requires d < 16
    ensures IsHex(HexChar(d))
  {
    HexCharDigit(d);
  }

  /** The digits of one byte, read back. */
  lemma PairHex2(b: byte)
    ensures IsHex(Hex2(b)[0]) && IsHex(Hex2(b)[1]) && PairValue(Hex2(b)[0], Hex2(b)[1]) == b
  {
    HexCharDigit(b / 16);
    HexCharDigit(b % 16);
  }

  /** The data group over the hex of `chunk` (its last space cut) followed by `u`, which
    * is empty or starts with a space, and, when the pattern may take more bytes, does
    * not continue with a hex digit: all of `chunk`'s digits and at most that one space. */
  lemma {:induction false} DataRunHex(chunk: seq<byte>, u: string, left: nat)
    requires 1 <= |chunk| <= left
    requires u == [] || u[0] == ' '
    requires |chunk| == left || |u| <= 1 || u[1] == ' '
    ensures DataRun(DropLast(HexBytes(Hex2, chunk)) + u, left) ==
      3 * |chunk| - 1 + (if |u| > 0 then 1 else 0)
    decreases left
  {
    if |chunk| == 1 {
      DataRunOne(chunk, u, left);
    } else {
      DataRunHex(chunk[1..], u, left - 1);
      DataRunCons(chunk, u, left);
    }
  }

  lemma DataRunOne(chunk: seq<byte>, u: string, left: nat)
    requires 1 == |chunk| <= left
    requires u == [] || u[0] == ' '
    requires left == 1 || |u| <= 1 || u[1] == ' '
    ensures DataRun(DropLast(HexBytes(Hex2, chunk)) + u, left) == 2 + (if |u| > 0 then 1 else 0)
  {
    DropLastCons(chunk);
    DataRunLast(chunk[0], u, left);
  }

  lemma DataRunCons(chunk: seq<byte>, u: string, left: nat)
    requires 1 < |chunk| <= left
    ensures DataRun(DropLast(HexBytes(Hex2, chunk)) + u, left) ==
      3 + DataRun(DropLast(HexBytes(Hex2, chunk[1..])) + u, left - 1)
  {
    var b := chunk[0];
    DropLastCons(chunk);
    var more := DropLast(HexBytes(Hex2, chunk[1..]));
    Assoc(Hex2(b) + " ", more, u);
    DataRunStep(b, more + u, left);
  }

  /** The hex of `chunk` without its last space: the first byte's digits, and, when more
    * bytes follow, a space and theirs. */
  lemma DropLastCons(chunk: seq<byte>)
    requires |chunk| >= 1
    ensures |chunk| == 1 ==> DropLast(HexBytes(Hex2, chunk)) == Hex2(chunk[0])
    ensures |chunk| > 1 ==>
      DropLast(HexBytes(Hex2, chunk)) == Hex2(chunk[0]) + " " + DropLast(HexBytes(Hex2, chunk[1..]))
  {
    var rest := HexBytes(Hex2, chunk[1..]);
    assert HexBytes(Hex2, chunk) == Hex2(chunk[0]) + " " + rest;
    HexBytesLength(chunk[1..]);
    if |chunk| == 1 {
      assert rest == [];
    }
  }

  /** One more byte of the data group: its two digits and the space after them. */
  lemma DataRunStep(b: byte, r: string, left: nat)
    requires left >= 1
    ensures DataRun(Hex2(b) + " " + r, left) == 3 + DataRun(r, left - 1)
  {
    var s := Hex2(b) + " " + r;
    PairHex2(b);
    assert s[0] == Hex2(b)[0] && s[1] == Hex2(b)[1] && s[2] == ' ';
    assert s[3..] == r;
  }

  /** The last byte of the data group, with the space after it when there is one. */
  lemma DataRunLast(b: byte, u: string, left: nat)
    requires left >= 1
    requires u == [] || u[0] == ' '
    requires left == 1 || |u| <= 1 || u[1] == ' '
    ensures DataRun(Hex2(b) + u, left) == 2 + (if |u| > 0 then 1 else 0)
  {
    var s := Hex2(b) + u;
    PairHex2(b);
    assert s[0] == Hex2(b)[0] && s[1] == Hex2(b)[1];
    if |u| == 0 {
      assert s[2..] == [];
    } else {
      assert s[2] == ' ' && s[3..] == u[1..];
      if left > 1 && |u| > 1 {
        assert !IsHex(s[3..][0]);
      }
    }
  }

  /** `bytes.fromhex` of the hex of `chunk`, with or without its last space. */
  lemma {:induction false} FromHexBytes(chunk: seq<byte>, tail: string)
    requires |chunk| >= 1 && (tail == [] || tail == " ")
    ensures FromHex(DropLast(HexBytes(Hex2, chunk)) + tail) == Ok(chunk)
    decreases |chunk|
  {
    if |chunk| == 1 {
      FromHexOne(chunk, tail);
    } else {
      FromHexBytes(chunk[1..], tail);
      FromHexCons(chunk, tail);
    }
  }

  lemma FromHexOne(chunk: seq<byte>, tail: string)
    requires |chunk| == 1 && (tail == [] || tail == " ")
    ensures FromHex(DropLast(HexBytes(Hex2, chunk)) + tail) == Ok(chunk)
  {
    DropLastCons(chunk);
    FromHexPair(chunk[0], tail);
    assert FromHex(tail) == Ok([]) by {
      if tail == " " {
        assert tail[1..] == [];
      }
    }
    assert [chunk[0]] + [] == chunk;
  }

  lemma FromHexCons(chunk: seq<byte>, tail: string)
    requires |chunk| > 1
    requires FromHex(DropLast(HexBytes(Hex2, chunk[1..])) + tail) == Ok(chunk[1..])
    ensures FromHex(DropLast(HexBytes(Hex2, chunk)) + tail) == Ok(chunk)
  {
    var b := chunk[0];
    DropLastCons(chunk);
    var more := DropLast(HexBytes(Hex2, chunk[1..]));
    SpacedAssoc(Hex2(b), more, tail);
    FromHexPair(b, " " + (more + tail));
    FromHexSpace(more + tail);
    assert [b] + chunk[1..] == chunk;
  }

  /** `bytes.fromhex` reads one byte's digits and goes on with what follows them. */
  lemma FromHexPair(b: byte, r: string)
    ensures FromHex(Hex2(b) + r) ==
      match FromHex(r) case Err(e) => Err(e) case Ok(rest) => Ok([b] + rest)
  {
    var s := Hex2(b) + r;
    PairHex2(b);
    PyInt.HexDigitChar(Hex2(b)[0]);
    assert s[0] == Hex2(b)[0] && s[1] == Hex2(b)[1] && s[2..] == r;
  }

  lemma SpacedAssoc(p: string, q: string, r: string)
    ensures p + " " + q + r == p + (" " + (q + r))
  {
  }

  /** `bytes.fromhex` skips a space. */
  lemma FromHexSpace(r: string)
    ensures FromHex(" " + r) == FromHex(r)
  {
    assert (" " + r)[1..] == r;
  }

  // ---- the characters of a dump ----

  /** Printable ASCII, which holds no line boundary. */
  ghost predicate Printable(s: string)
  {
    forall i :: 0 <= i < |s| ==> 0x20 <= s[i] as int < 0x7f
  }

  lemma PrintableNoBreak(s: string)
    requires Printable(s)
    ensures NoLineBreak(s)
  {
  }

  lemma PrintableConcat(s: string, t: string)
    requires Printable(s) && Printable(t)
    ensures Printable(s + t)
  {
    assert forall i :: 0 <= i < |s + t| ==> (s + t)[i] == if i < |s| then s[i] else t[i - |s|];
  }

  /** Every line of a dump at a non-negative address is non-empty printable text. */
  lemma {:induction false} LinesPrintable(a: nat, d: seq<byte>)
    ensures forall k :: 0 <= k < |Lines(PyLine, a, d)| ==>
      Printable(Lines(PyLine, a, d)[k]) && |Lines(PyLine, a, d)[k]| > 0
    decreases |d|
  {
    var ls := Lines(PyLine, a, d);
    if |d| == 0 {
    } else if |d| <= 16 {
      PyLinePrintable(a, d);
    } else {
      PyLinePrintable(a, d[..16]);
      LinesPrintable(a + 16, d[16..]);
      assert ls == [PyLine(a, d[..16])] + Lines(PyLine, a + 16, d[16..]);
    }
  }

  lemma PyLinePrintable(a: nat, chunk: seq<byte>)
    ensures Printable(PyLine(a, chunk)) && |PyLine(a, chunk)| > 0
  {
    var h := PyInt.Hex(a, 8);
    HeadFormat(a);
    forall i | 0 <= i < |h|
      ensures 0x20 <= h[i] as int < 0x7f
    {
      assert PyInt.IsDigit(h[i], 16);
    }
    PrintableConcat(h, ": ");
    HexBytesPrintable(chunk);
    SpacesPrintable(if |chunk| >= 16 then 0 else 3 * (16 - |chunk|));
    AsciiPrintable(chunk);
    var head := Head(a);
    var hb := HexBytes(Hex2, chunk);
    PrintableConcat(head, hb);
    PrintableConcat(head + hb, Pad(|chunk|));
    PrintableConcat(head + hb + Pad(|chunk|), " ");
    PrintableConcat(head + hb + Pad(|chunk|) + " ", Column(chunk));
  }

  lemma {:induction false} HexBytesPrintable(chunk: seq<byte>)
    ensures Printable(HexBytes(Hex2, chunk))
  {
    if |chunk| > 0 {
      HexBytesPrintable(chunk[1..]);
      HexCharDigit(chunk[0] / 16);
      HexCharDigit(chunk[0] % 16);
      PrintableConcat(Hex2(chunk[0]), " ");
      PrintableConcat(Hex2(chunk[0]) + " ", HexBytes(Hex2, chunk[1..]));
    }
  }

  lemma {:induction false} SpacesPrintable(n: nat)
    ensures Printable(Spaces(n))
  {
    if n > 0 {
      SpacesPrintable(n - 1);
      PrintableConcat([' '], Spaces(n - 1));
    }
  }

  lemma {:induction false} AsciiPrintable(bs: seq<byte>)
    ensures Printable(Ascii(bs))
  {
    if |bs| > 0 {
      AsciiPrintable(bs[..|bs| - 1]);
      PrintableConcat(Ascii(bs[..|bs| - 1]), [AsciiChar(bs[|bs| - 1])]);
    }
  }
}
