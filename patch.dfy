/** `MemoryPatch` and `MemoryPatchList` (depthcharge/memory/patch.py): a change to
  * apply to a contiguous memory region, optionally with the bytes expected there
  * beforehand, and an ordered list of such changes built from patches, tuples or
  * dictionaries. */
module Patch {
  import opened Errors
  import PyBytes
  import PyInt
  import Strat

  type byte = PyBytes.byte

  /** A patch: its address, the bytes to write, the bytes expected beforehand, and
    * its description text (None when created without one by `from_tuple` or
    * `from_dict`). */
  datatype MemoryPatch = MemoryPatch(addr: int, value: seq<byte>, expected: Option<seq<byte>>, desc: Option<string>)

  /** `MemoryPatch(addr, value, expected, desc)`: expected bytes, when given, must be
    * as long as the value. */
  function NewPatch(addr: int, value: seq<byte>, expected: Option<seq<byte>>, desc: Option<string>): (r: Result<MemoryPatch>)
    ensures r.Ok? <==> expected.None? || |expected.value| == |value|
    ensures r.Ok? ==> r.value == MemoryPatch(addr, value, expected, desc)
    ensures r.Err? ==> r.error == ValueError
  {
    if expected.Some? && |expected.value| != |value| then Err(ValueError)
    else Ok(MemoryPatch(addr, value, expected, desc))
  }

  /** `description`: the description, or "Patch" without one, then ` @ 0x` and the
    * address in at least eight hexadecimal digits. */
  function Description(p: MemoryPatch): (r: string)
    ensures var prefix := if p.desc.Some? then p.desc.value else "Patch";
      |r| == |prefix| + 5 + |PyInt.SignedHex(p.addr, 8)| &&
      r[..|prefix|] == prefix && r[|prefix|..|prefix| + 5] == " @ 0x" &&
      r[|prefix| + 5..] == PyInt.SignedHex(p.addr, 8)
  {
    var prefix := if p.desc.Some? then p.desc.value else "Patch";
    prefix + " @ 0x" + PyInt.SignedHex(p.addr, 8)
  }

  /** The description ends in the address: the hexadecimal digits after ` @ 0x` read
    * back as the address, or, for a negative address, a minus sign and its magnitude's
    * digits. */
  lemma DescriptionAddress(p: MemoryPatch)
    ensures var prefix := if p.desc.Some? then p.desc.value else "Patch";
      var tail := Description(p)[|prefix| + 5..];
      (p.addr >= 0 ==> PyInt.Value(tail, 16) == p.addr) &&
      (p.addr < 0 ==> tail[0] == '-' && PyInt.Value(tail[1..], 16) == -p.addr)
  {
    if p.addr >= 0 {
      PyInt.HexValue(p.addr, 8);
    } else {
      PyInt.HexValue(-p.addr, 7);
    }
  }

  /** The third element of a 3-tuple: bytes are the expected value, a string the
    * description; anything else (such as None) sets neither. */
  datatype Third = ThirdBytes(b: seq<byte>) | ThirdStr(s: string) | ThirdOther

  /** A tuple handed to `from_tuple`, by its length. */
  datatype PatchTuple =
    | T2(addr: int, value: seq<byte>)
    | T3(addr: int, value: seq<byte>, third: Third)
    | T4(addr: int, value: seq<byte>, exp: Option<seq<byte>>, desc: Option<string>)
    | TOther(len: nat)

  /** `MemoryPatch.from_tuple`. */
  function FromTuple(t: PatchTuple): (r: Result<MemoryPatch>)
    ensures t.TOther? ==> r == Err(ValueError)
    ensures t.T2? ==> r == Ok(MemoryPatch(t.addr, t.value, None, None))
    ensures t.T3? && t.third.ThirdBytes? ==> r == NewPatch(t.addr, t.value, Some(t.third.b), None)
    ensures t.T3? && t.third.ThirdStr? ==> r == Ok(MemoryPatch(t.addr, t.value, None, Some(t.third.s)))
    ensures t.T3? && t.third.ThirdOther? ==> r == Ok(MemoryPatch(t.addr, t.value, None, None))
    ensures t.T4? ==> r == NewPatch(t.addr, t.value, t.exp, t.desc)
  {
    match t
    case T2(addr, value) => NewPatch(addr, value, None, None)
    case T3(addr, value, third) =>
      var exp := if third.ThirdBytes? then Some(third.b) else None;
      var desc := if third.ThirdStr? then Some(third.s) else None;
      NewPatch(addr, value, exp, desc)
    case T4(addr, value, exp, desc) => NewPatch(addr, value, exp, desc)
    case TOther(_) => Err(ValueError)
  }

  /** A dictionary handed to `from_dict`: each key present or not (a key present with
    * the value None reads as absent for the two optional keys). */
  datatype PatchDict = PatchDict(address: Option<int>, value: Option<seq<byte>>,
                                 expected: Option<seq<byte>>, description: Option<string>)

  /** `MemoryPatch.from_dict`: `address` and `value` are required (KeyError), the
    * others optional. */
  function FromDict(d: PatchDict): (r: Result<MemoryPatch>)
    ensures d.address.None? || d.value.None? ==> r == Err(KeyError)
    ensures d.address.Some? && d.value.Some? ==>
      r == NewPatch(d.address.value, d.value.value, d.expected, d.description)
  {
    if d.address.None? || d.value.None? then Err(KeyError)
    else NewPatch(d.address.value, d.value.value, d.expected, d.description)
  }

  /** What `append` accepts: a patch, a tuple, a dictionary; or anything else. */
  datatype PatchArg = APatch(p: MemoryPatch) | ATuple(t: PatchTuple) | ADict(d: PatchDict) | AOther

  /** The patch `append` stores for an argument, or the error it raises. */
  function Convert(arg: PatchArg): (r: Result<MemoryPatch>)
    ensures arg.AOther? ==> r == Err(TypeError)
    ensures arg.APatch? ==> r == Ok(arg.p)
    ensures arg.ATuple? ==> r == FromTuple(arg.t)
    ensures arg.ADict? ==> r == FromDict(arg.d)
  {
    match arg
    case APatch(p) => Ok(p)
    case ATuple(t) => FromTuple(t)
    case ADict(d) => FromDict(d)
    case AOther => Err(TypeError)
  }

  /** Every patch built by the constructors has expected bytes as long as its value. */
  ghost predicate WellFormed(p: MemoryPatch)
  {
    p.expected.None? || |p.expected.value| == |p.value|
  }

  lemma ConvertWellFormed(arg: PatchArg)
    requires arg.APatch? ==> WellFormed(arg.p)
    ensures Convert(arg).Ok? ==> WellFormed(Convert(arg).value)
  {
  }

  /** `MemoryPatchList`: the patches, in the order they were appended. */
  class MemoryPatchList {
    var list: seq<MemoryPatch>

    constructor Empty()
      ensures list == []
    {
      list := [];
    }

    /** `append`: converts the argument and adds it at the end; a failed conversion
      * raises and leaves the list as it was. */
    method Append(arg: PatchArg) returns (r: Result<()>)
      modifies this
      ensures Convert(arg).Ok? ==> r.Ok? && list == old(list) + [Convert(arg).value]
      ensures Convert(arg).Err? ==> r == Err(Convert(arg).error) && list == old(list)
    {
      var p := Convert(arg);
      if p.Err? {
        return Err(p.error);
      }
      list := list + [p.value];
      return Ok(());
    }

    /** `__len__`. */
    function Len(): (n: nat)
      reads this
      ensures n == |list|
    {
      |list|
    }

    /** `__getitem__` with an integer index (negative counts from the end). */
    function Get(idx: int): (r: Result<MemoryPatch>)
      reads this
      ensures r.Ok? <==> -|list| <= idx < |list|
      ensures r.Ok? ==> r.value == list[if idx >= 0 then idx else idx + |list|]
      ensures r.Err? ==> r.error == IndexError
    {
      match Strat.Slot(idx, |list|)
      case Some(i) => Ok(list[i])
      case None => Err(IndexError)
    }
  }

  /** The patches the arguments convert to, in order, up to the first that fails. */
  function ConvertAll(args: seq<PatchArg>): (r: Result<seq<MemoryPatch>>)
  {
    if |args| == 0 then Ok([])
    else
      match ConvertAll(args[..|args| - 1])
      case Err(e) => Err(e)
      case Ok(ps) =>
        match Convert(args[|args| - 1])
        case Err(e) => Err(e)
        case Ok(p) => Ok(ps + [p])
  }

  /** All the arguments convert exactly when none fails; then each patch is its
    * argument's conversion. */
  lemma {:induction false} ConvertAllMeaning(args: seq<PatchArg>)
    ensures ConvertAll(args).Ok? <==> forall k :: 0 <= k < |args| ==> Convert(args[k]).Ok?
    ensures ConvertAll(args).Ok? ==>
      |ConvertAll(args).value| == |args| &&
      forall k :: 0 <= k < |args| ==> ConvertAll(args).value[k] == Convert(args[k]).value
    ensures ConvertAll(args).Err? ==>
      exists k :: 0 <= k < |args| && Convert(args[k]).Err? && ConvertAll(args).error == Convert(args[k]).error
  {
    if |args| > 0 {
      var init := args[..|args| - 1];
      ConvertAllMeaning(init);
      if ConvertAll(init).Err? {
        var k :| 0 <= k < |init| && Convert(init[k]).Err? && ConvertAll(init).error == Convert(init[k]).error;
        assert args[k] == init[k];
      }
    }
  }

  /** `MemoryPatchList(patch_list)`: each argument appended in order; the first that
    * fails to convert makes the constructor raise. */
  method NewList(args: seq<PatchArg>) returns (r: Result<MemoryPatchList>)
    ensures ConvertAll(args).Ok? <==> r.Ok?
    ensures r.Ok? ==> fresh(r.value) && r.value.list == ConvertAll(args).value
    ensures r.Err? ==> ConvertAll(args) == Err(r.error)
  {
    var l := new MemoryPatchList.Empty();
    for i := 0 to |args|
      invariant ConvertAll(args[..i]) == Ok(l.list)
      invariant fresh(l)
    {
      assert args[..i + 1][..i] == args[..i];
      var a := l.Append(args[i]);
      if a.Err? {
        assert ConvertAll(args[..i + 1]) == Err(a.error);
        ConvertErrPropagates(args, i + 1);
        return Err(a.error);
      }
    }
    assert args[..|args|] == args;
    return Ok(l);
  }

  /** A failure in a prefix is the failure of the whole. */
  lemma {:induction false} ConvertErrPropagates(args: seq<PatchArg>, n: nat)
    requires n <= |args| && ConvertAll(args[..n]).Err?
    ensures ConvertAll(args) == ConvertAll(args[..n])
    decreases |args| - n
  {
    if n < |args| {
      assert args[..n + 1][..n] == args[..n];
      ConvertErrPropagates(args, n + 1);
    } else {
      assert args[..n] == args;
    }
  }
}
