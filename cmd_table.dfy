/** `entry_to_bytes` (depthcharge/uboot/cmd_table.py): a U-Boot command table entry
  * (`struct cmd_tbl_s`) packed as consecutive target words, in the target's byte
  * order: name, maxargs, cmd_rep, cmd, usage, then longhelp and complete when the
  * entry has them. */
module CmdTable {
  import opened Errors
  import opened PyBytes
  import Arch

  /** The entry dictionary: each key present or not; the values are integers. */
  datatype CmdEntry = CmdEntry(name: Option<int>, maxargs: Option<int>, cmdRep: Option<int>,
                               cmd: Option<int>, usage: Option<int>,
                               longhelp: Option<int>, complete: Option<int>)

  /** The fields the entry is packed from, in order; the first five are looked up with
    * `entry[key]`, the last two only when present. */
  function Fields(e: CmdEntry): seq<Option<int>>
  {
    [e.name, e.maxargs, e.cmdRep, e.cmd, e.usage] + Optional(e)
  }

  function Optional(e: CmdEntry): seq<Option<int>>
  {
    (if e.longhelp.Some? then [e.longhelp] else []) +
    (if e.complete.Some? then [e.complete] else [])
  }

  /** One field as a word: KeyError for a missing key, OverflowError from
    * `int_to_bytes` for a value that is negative or does not fit. */
  function Word(a: Arch.Architecture, f: Option<int>): (r: Result<seq<byte>>)
    ensures f.None? ==> r == Err(KeyError)
    ensures f.Some? ==> r == Arch.IntToWord(a, f.value)
  {
    match f
    case None => Err(KeyError)
    case Some(v) => Arch.IntToWord(a, v)
  }

  /** Bytes followed by more bytes, the first error winning. */
  function Then(x: Result<seq<byte>>, y: Result<seq<byte>>): Result<seq<byte>>
  {
    match x
    case Err(e) => Err(e)
    case Ok(b) =>
      match y
      case Err(e) => Err(e)
      case Ok(c) => Ok(b + c)
  }

  lemma ThenAssoc(b: seq<byte>, w: seq<byte>, y: Result<seq<byte>>)
    ensures Then(Ok(b), Then(Ok(w), y)) == Then(Ok(b + w), y)
  {
    if y.Ok? {
      assert b + (w + y.value) == (b + w) + y.value;
    }
  }

  lemma ThenUnit(y: Result<seq<byte>>)
    ensures Then(Ok([]), y) == y
  {
    if y.Ok? {
      assert [] + y.value == y.value;
    }
  }

  /** The fields as words one after the other; the first failing field's error. */
  function Pack(a: Arch.Architecture, fs: seq<Option<int>>): (r: Result<seq<byte>>)
    ensures r.Err? ==> r.error == KeyError || r.error == OverflowError
    ensures r.Err? ==> exists k :: 0 <= k < |fs| && Word(a, fs[k]) == Err(r.error)
  {
    if |fs| == 0 then Ok([]) else Then(Word(a, fs[0]), Pack(a, fs[1..]))
  }

  /** Packing a field in front of others. */
  lemma PackCons(a: Arch.Architecture, f: Option<int>, rest: seq<Option<int>>)
    ensures Pack(a, [f] + rest) == Then(Word(a, f), Pack(a, rest))
  {
    assert ([f] + rest)[0] == f && ([f] + rest)[1..] == rest;
  }

  /** Packing succeeds exactly when every field is present and fits in a word. */
  lemma {:induction false} PackOk(a: Arch.Architecture, fs: seq<Option<int>>)
    ensures Pack(a, fs).Ok? <==>
      forall k :: 0 <= k < |fs| ==> fs[k].Some? && 0 <= fs[k].value < Pow256(a.wordSize)
  {
    if |fs| > 0 {
      PackOk(a, fs[1..]);
      assert forall k :: 1 <= k < |fs| ==> fs[k] == fs[1..][k - 1];
    }
  }

  /** A packed entry has one word per field. */
  lemma {:induction false} PackLength(a: Arch.Architecture, fs: seq<Option<int>>)
    requires Pack(a, fs).Ok?
    ensures |Pack(a, fs).value| == a.wordSize * |fs|
  {
    if |fs| > 0 {
      PackLength(a, fs[1..]);
      MulSucc(a.wordSize, |fs[1..]|);
    }
  }

  /** Reading the words of a packed entry back gives the fields' values, in order. */
  lemma {:induction false} PackDecode(a: Arch.Architecture, fs: seq<Option<int>>)
    requires Pack(a, fs).Ok?
    ensures var d := Arch.PtrValues(a, Pack(a, fs).value, |fs|);
      |d| == |fs| && forall k :: 0 <= k < |fs| ==> fs[k].Some? && d[k] == fs[k].value
  {
    if |fs| > 0 {
      var tail := fs[1..];
      PackDecode(a, tail);
      var w, rest := Word(a, fs[0]).value, Pack(a, tail).value;
      var r := Pack(a, fs).value;
      assert r == w + rest;
      Arch.PtrValueIntToWord(a, fs[0].value, rest);
      var d, dt := Arch.PtrValues(a, r, |fs|), Arch.PtrValues(a, rest, |tail|);
      assert d == [fs[0].value] + dt;
      forall k | 1 <= k < |fs|
        ensures fs[k].Some? && d[k] == fs[k].value
      {
        assert fs[k] == tail[k - 1] && d[k] == dt[k - 1];
      }
    }
  }

  lemma MulSucc(x: nat, n: nat)
    ensures x * (n + 1) == x + x * n
  {
  }

  /** The error of a failed packing: KeyError at the first missing required key, or
    * OverflowError at the first value that does not fit, whichever comes first. */
  lemma {:induction false} PackError(a: Arch.Architecture, fs: seq<Option<int>>, k: nat)
    requires k < |fs| && (fs[k].None? || !(0 <= fs[k].value < Pow256(a.wordSize)))
    requires forall j :: 0 <= j < k ==> fs[j].Some? && 0 <= fs[j].value < Pow256(a.wordSize)
    ensures Pack(a, fs) == Err(if fs[k].None? then KeyError else OverflowError)
  {
    if k > 0 {
      assert forall j :: 0 <= j < k - 1 ==> fs[1..][j] == fs[j + 1];
      PackError(a, fs[1..], k - 1);
    }
  }

  /** `entry_to_bytes(arch, entry)`: the words appended to `ret` one field at a time;
    * a missing required key or a value that does not fit raises. */
  method EntryToBytes(a: Arch.Architecture, e: CmdEntry) returns (r: Result<seq<byte>>)
    ensures r == Pack(a, Fields(e))
  {
    var ret: seq<byte> := [];
    // the fields still to append: Pack(a, Fields(e)) == Then(Ok(ret), Pack(a, rest))
    ghost var rest := Fields(e);
    ThenUnit(Pack(a, rest));
    var w := Word(a, e.name);
    PackCons(a, e.name, rest[1..]);
    assert rest == [e.name] + rest[1..];
    if w.Err? {
      return Err(w.error);
    }
    ThenAssoc(ret, w.value, Pack(a, rest[1..]));
    ret, rest := ret + w.value, rest[1..];
    assert Pack(a, Fields(e)) == Then(Ok(ret), Pack(a, rest));
    w := Word(a, e.maxargs);
    PackCons(a, e.maxargs, rest[1..]);
    assert rest == [e.maxargs] + rest[1..];
    if w.Err? {
      return Err(w.error);
    }
    ThenAssoc(ret, w.value, Pack(a, rest[1..]));
    ret, rest := ret + w.value, rest[1..];
    assert Pack(a, Fields(e)) == Then(Ok(ret), Pack(a, rest));
    w := Word(a, e.cmdRep);
    PackCons(a, e.cmdRep, rest[1..]);
    assert rest == [e.cmdRep] + rest[1..];
    if w.Err? {
      return Err(w.error);
    }
    ThenAssoc(ret, w.value, Pack(a, rest[1..]));
    ret, rest := ret + w.value, rest[1..];
    assert Pack(a, Fields(e)) == Then(Ok(ret), Pack(a, rest));
    w := Word(a, e.cmd);
    PackCons(a, e.cmd, rest[1..]);
    assert rest == [e.cmd] + rest[1..];
    if w.Err? {
      return Err(w.error);
    }
    ThenAssoc(ret, w.value, Pack(a, rest[1..]));
    ret, rest := ret + w.value, rest[1..];
    assert Pack(a, Fields(e)) == Then(Ok(ret), Pack(a, rest));
    w := Word(a, e.usage);
    PackCons(a, e.usage, rest[1..]);
    assert rest == [e.usage] + rest[1..];
    if w.Err? {
      return Err(w.error);
    }
    ThenAssoc(ret, w.value, Pack(a, rest[1..]));
    ret, rest := ret + w.value, rest[1..];
    assert Pack(a, Fields(e)) == Then(Ok(ret), Pack(a, rest));
    assert rest == Optional(e);
    if e.longhelp.Some? {
      w := Word(a, e.longhelp);
      PackCons(a, e.longhelp, rest[1..]);
      assert rest == [e.longhelp] + rest[1..];
      if w.Err? {
        return Err(w.error);
      }
      ThenAssoc(ret, w.value, Pack(a, rest[1..]));
    ret, rest := ret + w.value, rest[1..];
    assert Pack(a, Fields(e)) == Then(Ok(ret), Pack(a, rest));
    }
    if e.complete.Some? {
      w := Word(a, e.complete);
      PackCons(a, e.complete, rest[1..]);
      assert rest == [e.complete] + rest[1..];
      if w.Err? {
        return Err(w.error);
      }
      ThenAssoc(ret, w.value, Pack(a, rest[1..]));
    ret, rest := ret + w.value, rest[1..];
    assert Pack(a, Fields(e)) == Then(Ok(ret), Pack(a, rest));
    }
    assert rest == [] && ret + [] == ret;
    return Ok(ret);
  }

  /** The fields in the order of the structure: five required ones, then longhelp and
    * complete when present. */
  lemma FieldsLayout(e: CmdEntry)
    ensures |Fields(e)| == 5 + (if e.longhelp.Some? then 1 else 0) + (if e.complete.Some? then 1 else 0)
    ensures Fields(e)[..5] == [e.name, e.maxargs, e.cmdRep, e.cmd, e.usage]
    ensures e.longhelp.Some? ==> Fields(e)[5] == e.longhelp
    ensures e.complete.Some? ==> Fields(e)[|Fields(e)| - 1] == e.complete
  {
    assert Fields(e)[..5] == [e.name, e.maxargs, e.cmdRep, e.cmd, e.usage];
  }

  /** The packed entry has `5 + longhelp + complete` words. */
  lemma EntryLength(a: Arch.Architecture, e: CmdEntry)
    requires Pack(a, Fields(e)).Ok?
    ensures |Pack(a, Fields(e)).value| ==
      a.wordSize * (5 + (if e.longhelp.Some? then 1 else 0) + (if e.complete.Some? then 1 else 0))
  {
    FieldsLayout(e);
    PackLength(a, Fields(e));
  }

  /** The words of the packed entry read back, in order, as the structure's fields:
    * the five required ones, then longhelp and complete when present. */
  lemma EntryDecode(a: Arch.Architecture, e: CmdEntry)
    requires Pack(a, Fields(e)).Ok?
    ensures e.name.Some? && e.maxargs.Some? && e.cmdRep.Some? && e.cmd.Some? && e.usage.Some?
    ensures var d := Arch.PtrValues(a, Pack(a, Fields(e)).value, |Fields(e)|);
      |d| == |Fields(e)| &&
      d[0] == e.name.value && d[1] == e.maxargs.value && d[2] == e.cmdRep.value &&
      d[3] == e.cmd.value && d[4] == e.usage.value &&
      (e.longhelp.Some? ==> d[5] == e.longhelp.value) &&
      (e.complete.Some? ==> d[|d| - 1] == e.complete.value)
  {
    var fs := Fields(e);
    FieldsLayout(e);
    PackDecode(a, fs);
    assert fs[0] == e.name && fs[1] == e.maxargs && fs[2] == e.cmdRep && fs[3] == e.cmd && fs[4] == e.usage;
  }
}
