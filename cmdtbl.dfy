/** `CommandTableHunter`: searches the data for consecutive U-Boot `cmd_tbl_s` entries
  * (name, maxargs, cmd_rep, cmd, usage, and optionally help and complete words). */
module CmdTableHunter {
  import opened Errors
  import opened PyBytes
  import opened Hunter
  import opened Arch
  import StringHunter

  /** The value of the `arch` keyword: an architecture, its name, or nothing usable. */
  datatype ArchArg = ArchValue(a: Architecture) | ArchName(s: string) | NoArch

  /** The constructor's choice of architecture: the given one, the one `get` finds for
    * the name (KeyError from `get` otherwise), or ValueError. */
  function ChooseArch(arg: ArchArg, registry: seq<ArchNode>): (r: Result<Architecture>)
    ensures arg.ArchValue? ==> r == Ok(arg.a)
    ensures arg.ArchName? ==> r == Get(registry, arg.s)
    ensures arg.NoArch? ==> r == Err(ValueError)
  {
    match arg
    case ArchValue(a) => Ok(a)
    case ArchName(s) => Get(registry, s)
    case NoArch => Err(ValueError)
  }

  predicate IsDigitByte(b: byte) { 0x30 <= b <= 0x39 }
  predicate IsLowerByte(b: byte) { 0x61 <= b <= 0x7a }

  /** A byte of the class `[a-z0-9_-]`. */
  predicate NameByte(b: byte)
  {
    IsLowerByte(b) || IsDigitByte(b) || b == 0x5f || b == 0x2d
  }

  /** The body of the default command name pattern: `[a-z0-9_-]{2,}` or `?`. */
  predicate NameBody(s: seq<byte>)
  {
    (|s| >= 2 && forall i :: 0 <= i < |s| ==> NameByte(s[i])) || s == [0x3f]
  }

  /** `re.match` of `^(...)$`: `$` also matches just before a final newline. */
  predicate NameOk(s: seq<byte>)
  {
    NameBody(s) || (|s| >= 1 && s[|s| - 1] == 0x0a && NameBody(s[..|s| - 1]))
  }

  /** The known false positive: a name that starts with `unknown`. */
  predicate KnownFalsePositive(s: seq<byte>)
  {
    |s| >= 7 && s[..7] == [0x75, 0x6e, 0x6b, 0x6e, 0x6f, 0x77, 0x6e]
  }

  /** The first index at or after `j` that does not hold a decimal digit. */
  function DigitsEnd(s: seq<byte>, j: nat): (r: nat)
    requires j <= |s|
    ensures j <= r <= |s|
    ensures forall k :: j <= k < r ==> IsDigitByte(s[k])
    ensures r < |s| ==> !IsDigitByte(s[r])
    decreases |s| - j
  {
    if j == |s| || !IsDigitByte(s[j]) then j else DigitsEnd(s, j + 1)
  }

  /** A format directive `%[0-9]*[a-z]` starts at `i`. */
  predicate FormatAt(s: seq<byte>, i: int)
  {
    0 <= i < |s| && s[i] == 0x25 && DigitsEnd(s, i + 1) < |s| && IsLowerByte(s[DigitsEnd(s, i + 1)])
  }

  /** `_text_fp_regex.search`: the text holds a format directive somewhere. */
  predicate HasFormat(s: seq<byte>)
  {
    exists i :: 0 <= i < |s| && FormatAt(s, i)
  }

  /** A directive starts at `i` exactly when a `%` there is followed by some digits and
    * then a lower-case letter: greedy digit scanning loses no match. */
  lemma FormatAtMeaning(s: seq<byte>, i: int, j: int)
    requires 0 <= i < j < |s| && s[i] == 0x25
    requires forall k :: i < k < j ==> IsDigitByte(s[k])
    requires IsLowerByte(s[j])
    ensures FormatAt(s, i)
  {
    var d := DigitsEnd(s, i + 1);
    assert d == j;
  }

  /** `_is_valid_ptr`: with checking on, the null pointer when it is allowed, or an
    * address whose offset lies in [start_offset, end_offset]. */
  function IsValidPtr(h: Hunter, addr: int, enableCheck: bool, allowNull: bool): (r: bool)
  {
    if !enableCheck then true
    else if addr == 0 && allowNull then true
    else if addr < h.address then false
    else h.startOffset <= addr - h.address <= h.endOffset
  }

  /** The early `addr < address` test only shortcuts the offset range check. */
  lemma IsValidPtrMeaning(h: Hunter, addr: int, enableCheck: bool, allowNull: bool)
    requires Valid(h)
    ensures IsValidPtr(h, addr, enableCheck, allowNull) <==>
      !enableCheck || (addr == 0 && allowNull) ||
      h.address + h.startOffset <= addr <= h.address + h.endOffset
  {
  }

  /** One word read by `ptr_value_adv`. Reading past the end of the data leaves the
    * value short (zero for no data), as the code does, unless `strict` is set, in which
    * case it fails with IndexError, as the handler around the reads expects. */
  function Word(a: Architecture, data: seq<byte>, strict: bool): (r: Result<(nat, seq<byte>)>)
    ensures r.Err? <==> strict && |data| < a.wordSize
    ensures r.Ok? ==> r.value == PtrValueAdv(a, data)
  {
    if strict && |data| < a.wordSize then Err(IndexError) else Ok(PtrValueAdv(a, data))
  }

  /** One word read by `to_int_adv`, with the same choice for short data. */
  function SignedWord(a: Architecture, data: seq<byte>, strict: bool): (r: Result<(int, seq<byte>)>)
    requires a.wordSize >= 1
    ensures r.Err? <==> strict && |data| < a.wordSize
    ensures r.Ok? ==> r.value == ToIntAdv(a, data)
  {
    if strict && |data| < a.wordSize then Err(IndexError) else Ok(ToIntAdv(a, data))
  }

  /** A decoded `cmd_tbl_s`: `help` is present with CONFIG_SYS_LONGHELP, `complete`
    * with CONFIG_AUTO_COMPLETE. */
  datatype CmdEntry = CmdEntry(
    address: int,
    name: seq<byte>,
    maxargs: int,
    cmdRep: nat,
    cmd: nat,
    usage: seq<byte>,
    help: Option<seq<byte>>,
    complete: Option<nat>,
    subcmd: bool,
    size: nat)

  /** The words up to `usage`, and the data after them. */
  datatype Head = Head(name: seq<byte>, maxargs: int, cmdRep: nat, cmd: nat, usagePtr: nat,
                       usage: seq<byte>, rest: seq<byte>)

  /** `string_at` of the hunter's string helper, with its default length bounds, by
    * address and `allow_empty`. */
  type StrReader = (int, bool) -> Result<seq<byte>>

  function Strings(h: Hunter): StrReader
    requires Valid(h)
  {
    (addr, allowEmpty) => StringHunter.StringAt(h, addr, -1, -1, allowEmpty)
  }

  /** The usage text: '' for a null pointer, otherwise the string there, possibly empty. */
  function Usage(strs: StrReader, ptr: nat): Result<seq<byte>>
  {
    if ptr != 0 then strs(ptr, true) else Ok([])
  }

  /** The first five words of `_cmd_tbl_s`, with its rejections: a name that is not a
    * stored string, does not match the name pattern or is a known false positive; a
    * `cmd` pointer that is not valid (null not allowed); a usage text that is not a
    * stored string or holds a format directive. Every failure is None. */
  function ReadHead(h: Hunter, strs: StrReader, a: Architecture, data: seq<byte>, check: bool, strict: bool):
    (r: Option<Head>)
    requires a.wordSize >= 1
    ensures r.Some? ==> NameOk(r.value.name) && !KnownFalsePositive(r.value.name)
    ensures r.Some? ==> IsValidPtr(h, r.value.cmd, check, false)
    ensures r.Some? && r.value.usagePtr == 0 ==> r.value.usage == []
    ensures r.Some? && r.value.usagePtr != 0 ==> !HasFormat(r.value.usage)
    ensures r.Some? && strict ==> |data| >= 5 * a.wordSize && |r.value.rest| == |data| - 5 * a.wordSize
  {
    match Word(a, data, strict)
    case Err(_) => None
    case Ok(w0) =>
      match strs(w0.0, false)
      case Err(_) => None
      case Ok(name) =>
        if !NameOk(name) || KnownFalsePositive(name) then None
        else match SignedWord(a, w0.1, strict)
        case Err(_) => None
        case Ok(w1) =>
          match Word(a, w1.1, strict)
          case Err(_) => None
          case Ok(w2) =>
            match Word(a, w2.1, strict)
            case Err(_) => None
            case Ok(w3) =>
              if !IsValidPtr(h, w3.0, check, false) then None
              else match Word(a, w3.1, strict)
              case Err(_) => None
              case Ok(w4) =>
                match Usage(strs, w4.0)
                case Err(_) => None
                case Ok(usage) =>
                  if w4.0 != 0 && HasFormat(usage) then None
                  else Some(Head(name, w1.0, w2.0, w3.0, w4.0, usage, w4.1))
  }

  /** The help word, when CONFIG_SYS_LONGHELP is assumed: the help text ('' for a null
    * pointer) and the sub-command flag, which a non-null help pointer recomputes. */
  function ReadHelp(strs: StrReader, a: Architecture, hd: Head, longhelp: bool, strict: bool):
    (r: Option<(Option<seq<byte>>, bool, seq<byte>)>)
    ensures r.Some? ==> (r.value.0.Some? <==> longhelp)
    ensures r.Some? && !longhelp ==> r.value.2 == hd.rest && r.value.1 == (hd.usagePtr != 0 && hd.usage == [])
    ensures r.Some? && longhelp && strict ==> |hd.rest| >= a.wordSize && |r.value.2| == |hd.rest| - a.wordSize
    ensures r.Some? && r.value.0.Some? ==> !HasFormat(r.value.0.value)
  {
    if !longhelp then Some((None, hd.usagePtr != 0 && hd.usage == [], hd.rest))
    else match Word(a, hd.rest, strict)
    case Err(_) => None
    case Ok(w5) =>
      if w5.0 != 0 then
        match strs(w5.0, true)
        case Err(_) => None
        case Ok(help) =>
          if HasFormat(help) then None
          else Some((Some(help), hd.usage == [] && help == [], w5.1))
      else Some((Some([]), false, w5.1))
  }

  /** The size of one entry: five words, plus one for each optional field. */
  function EntrySize(a: Architecture, longhelp: bool, autocomplete: bool): nat
  {
    5 * a.wordSize + (if longhelp then a.wordSize else 0) + (if autocomplete then a.wordSize else 0)
  }

  /** The complete word, when CONFIG_AUTO_COMPLETE is assumed, and the assembled entry. */
  function ReadComplete(h: Hunter, a: Architecture, addr: int, hd: Head, hp: (Option<seq<byte>>, bool, seq<byte>),
                        check: bool, longhelp: bool, autocomplete: bool, strict: bool): (r: Option<CmdEntry>)
    ensures r.Some? ==> r.value.address == addr && r.value.size == EntrySize(a, longhelp, autocomplete)
    ensures r.Some? ==> r.value.name == hd.name && r.value.cmd == hd.cmd && r.value.help == hp.0
    ensures r.Some? ==> (r.value.complete.Some? <==> autocomplete)
    ensures r.Some? && autocomplete ==> IsValidPtr(h, r.value.complete.value, check, true)
    ensures r.Some? && autocomplete && strict ==> |hp.2| >= a.wordSize
  {
    if !autocomplete then
      Some(CmdEntry(addr, hd.name, hd.maxargs, hd.cmdRep, hd.cmd, hd.usage, hp.0, None, hp.1,
                    EntrySize(a, longhelp, false)))
    else match Word(a, hp.2, strict)
    case Err(_) => None
    case Ok(w6) =>
      if !IsValidPtr(h, w6.0, check, true) then None
      else Some(CmdEntry(addr, hd.name, hd.maxargs, hd.cmdRep, hd.cmd, hd.usage, hp.0, Some(w6.0),
                         hp.1, EntrySize(a, longhelp, true)))
  }

  /** The entry decoded from the data at its address (everything but the alignment test). */
  function ReadEntry(h: Hunter, strs: StrReader, a: Architecture, addr: int, data: seq<byte>, check: bool,
                     longhelp: bool, autocomplete: bool, strict: bool): (r: Option<CmdEntry>)
    requires a.wordSize >= 1
    ensures r.Some? ==> r.value.address == addr && r.value.size == EntrySize(a, longhelp, autocomplete)
    ensures r.Some? ==> NameOk(r.value.name) && !KnownFalsePositive(r.value.name)
    ensures r.Some? ==> IsValidPtr(h, r.value.cmd, check, false)
    ensures r.Some? ==> (r.value.help.Some? <==> longhelp) && (r.value.complete.Some? <==> autocomplete)
    ensures r.Some? && autocomplete ==> IsValidPtr(h, r.value.complete.value, check, true)
    ensures r.Some? && strict ==> |data| >= EntrySize(a, longhelp, autocomplete)
  {
    match ReadHead(h, strs, a, data, check, strict)
    case None => None
    case Some(hd) =>
      match ReadHelp(strs, a, hd, longhelp, strict)
      case None => None
      case Some(hp) => ReadComplete(h, a, addr, hd, hp, check, longhelp, autocomplete, strict)
  }

  /** The entry at `offset` read from `data[offset:end]`. */
  function ReadAt(h: Hunter, strs: StrReader, a: Architecture, offset: int, end: int, check: bool, longhelp: bool,
                  autocomplete: bool, strict: bool): (r: Option<CmdEntry>)
    requires Valid(h) && ValidArch(a) && offset >= 0 && end >= 0
    ensures r.Some? ==> r.value.address == h.address + offset
    ensures r.Some? ==> r.value.size == EntrySize(a, longhelp, autocomplete)
    ensures r.Some? ==> NameOk(r.value.name) && !KnownFalsePositive(r.value.name)
    ensures r.Some? ==> IsValidPtr(h, r.value.cmd, check, false)
    ensures r.Some? ==> (r.value.help.Some? <==> longhelp) && (r.value.complete.Some? <==> autocomplete)
    ensures r.Some? && autocomplete ==> IsValidPtr(h, r.value.complete.value, check, true)
    ensures r.Some? && strict ==> offset + r.value.size <= end && offset + r.value.size <= |h.data|
  {
    var data := Slice(h.data, offset, end);
    var r := ReadEntry(h, strs, a, h.address + offset, data, check, longhelp, autocomplete, strict);
    SliceFits(h.data, offset, end, EntrySize(a, longhelp, autocomplete));
    r
  }

  /** `_cmd_tbl_s`: the entry at `offset` read from `data[offset:end]`, or None when the
    * address is not word aligned or any check fails. */
  function CmdTbl(h: Hunter, strs: StrReader, a: Architecture, offset: int, end: int, check: bool, longhelp: bool,
                  autocomplete: bool, strict: bool): (r: Option<CmdEntry>)
    requires Valid(h) && ValidArch(a) && offset >= 0 && end >= 0
    ensures r.Some? ==> IsWordAligned(a, h.address + offset)
    ensures r.Some? ==> r.value.address == h.address + offset
    ensures r.Some? ==> r.value.size == EntrySize(a, longhelp, autocomplete)
    ensures r.Some? ==> NameOk(r.value.name) && !KnownFalsePositive(r.value.name)
    ensures r.Some? ==> IsValidPtr(h, r.value.cmd, check, false)
    ensures r.Some? ==> (r.value.help.Some? <==> longhelp) && (r.value.complete.Some? <==> autocomplete)
    ensures r.Some? && autocomplete ==> IsValidPtr(h, r.value.complete.value, check, true)
    ensures r.Some? && strict ==> offset + r.value.size <= end && offset + r.value.size <= |h.data|
  {
    if !IsWordAligned(a, h.address + offset) then None
    else ReadAt(h, strs, a, offset, end, check, longhelp, autocomplete, strict)
  }

  /** A slice of `n` bytes or more from `i` ends by both the bound and the data. */
  lemma SliceFits(s: seq<byte>, i: int, j: int, n: nat)
    requires i >= 0 && j >= 0
    ensures |Slice(s, i, j)| >= n >= 1 ==> i + n <= j && i + n <= |s|
  {
  }

  /** The entry read as intended: a word past the end of the data is an IndexError. */
  function CmdTblS(h: Hunter, strs: StrReader, a: Architecture, offset: int, end: int, check: bool, longhelp: bool,
                   autocomplete: bool): (r: Option<CmdEntry>)
    requires Valid(h) && ValidArch(a) && offset >= 0 && end >= 0
    ensures r.Some? ==> r.value.size == EntrySize(a, longhelp, autocomplete)
    ensures r.Some? ==> r.value.address == h.address + offset
    ensures r.Some? ==> offset + r.value.size <= end && offset + r.value.size <= |h.data|
  {
    CmdTbl(h, strs, a, offset, end, check, longhelp, autocomplete, true)
  }

  /** The entry read as the code does: words past the end read as zero. */
  function CmdTblSAsWritten(h: Hunter, strs: StrReader, a: Architecture, offset: int, end: int, check: bool, longhelp: bool,
                            autocomplete: bool): (r: Option<CmdEntry>)
    requires Valid(h) && ValidArch(a) && offset >= 0 && end >= 0
    ensures r.Some? ==> r.value.size == EntrySize(a, longhelp, autocomplete)
    ensures r.Some? ==> r.value.address == h.address + offset
  {
    CmdTbl(h, strs, a, offset, end, check, longhelp, autocomplete, false)
  }

  /** Reading an entry at an offset, as the collecting loop sees it. */
  type Reader = int -> Option<CmdEntry>

  /** Entries that `read` returns come at `base + offset`, have size `size`, and end by `bound`. */
  ghost predicate Steps(read: Reader, base: int, size: nat, bound: int)
  {
    size >= 1 &&
    forall o :: o >= 0 && read(o).Some? ==>
      read(o).value.size == size && read(o).value.address == base + o && o + size <= bound
  }

  /** The reader of one layout: `_cmd_tbl_s` with fixed end, checks and options. */
  function EntryReader(h: Hunter, strs: StrReader, a: Architecture, end: int, check: bool, longhelp: bool, autocomplete: bool): Reader
    requires Valid(h) && ValidArch(a) && end >= 0
  {
    o => if o < 0 then None else CmdTblS(h, strs, a, o, end, check, longhelp, autocomplete)
  }

  lemma EntryReaderSteps(h: Hunter, strs: StrReader, a: Architecture, end: int, check: bool, longhelp: bool, autocomplete: bool)
    requires Valid(h) && ValidArch(a) && end >= 0
    ensures Steps(EntryReader(h, strs, a, end, check, longhelp, autocomplete), h.address,
                  EntrySize(a, longhelp, autocomplete), if end < |h.data| then end else |h.data|)
  {
    assert a.wordSize >= 1;
  }

  /** The consecutive entries the collecting loop gathers from `offset` on. */
  function Collect(read: Reader, base: int, size: nat, bound: int, offset: int): (r: seq<CmdEntry>)
    requires offset >= 0 && Steps(read, base, size, bound)
    decreases bound - offset
  {
    match read(offset)
    case None => []
    case Some(e) => [e] + Collect(read, base, size, bound, offset + size)
  }

  /** The entries `_attempt_search_at` collects from `offset` on. */
  function Entries(h: Hunter, strs: StrReader, a: Architecture, offset: int, end: int, check: bool, longhelp: bool,
                   autocomplete: bool): (r: seq<CmdEntry>)
    requires Valid(h) && ValidArch(a) && offset >= 0 && end >= 0
  {
    EntryReaderSteps(h, strs, a, end, check, longhelp, autocomplete);
    Collect(EntryReader(h, strs, a, end, check, longhelp, autocomplete), h.address,
            EntrySize(a, longhelp, autocomplete), if end < |h.data| then end else |h.data|, offset)
  }

  function TotalSize(t: seq<CmdEntry>): nat
  {
    if |t| == 0 then 0 else t[0].size + TotalSize(t[1..])
  }

  lemma {:induction false} TotalSizeAppend(t: seq<CmdEntry>, e: CmdEntry)
    ensures TotalSize(t + [e]) == TotalSize(t) + e.size
  {
    if |t| > 0 {
      assert (t + [e])[1..] == t[1..] + [e];
      TotalSizeAppend(t[1..], e);
    } else {
      assert (t + [e])[1..] == [];
    }
  }

  /** Collected entries are consecutive: the `i`-th sits `i` sizes after the first
    * offset, all have the one size, and together they end by the bound. */
  lemma {:induction false} CollectLayout(read: Reader, base: int, size: nat, bound: int, offset: int)
    requires offset >= 0 && Steps(read, base, size, bound)
    ensures |Collect(read, base, size, bound, offset)| > 0 ==>
      offset + TotalSize(Collect(read, base, size, bound, offset)) <= bound
    ensures TotalSize(Collect(read, base, size, bound, offset)) == |Collect(read, base, size, bound, offset)| * size
    ensures forall i :: 0 <= i < |Collect(read, base, size, bound, offset)| ==>
      Collect(read, base, size, bound, offset)[i].size == size &&
      Collect(read, base, size, bound, offset)[i].address == base + offset + i * size
    decreases bound - offset
  {
    var t := Collect(read, base, size, bound, offset);
    match read(offset)
    case None =>
    case Some(e) =>
      CollectLayout(read, base, size, bound, offset + size);
      var rest := Collect(read, base, size, bound, offset + size);
      assert t == [e] + rest;
      assert t[1..] == rest;
      forall i | 1 <= i < |t|
        ensures t[i].size == size && t[i].address == base + offset + i * size
      {
        assert t[i] == rest[i - 1];
        assert (i - 1) * size + size == i * size;
      }
  }

  /** How many entries look like sub-commands (`sum([e['subcmd'] ...])`). */
  function CountSubcmd(t: seq<CmdEntry>): (r: nat)
    ensures r <= |t|
  {
    if |t| == 0 then 0 else (if t[0].subcmd then 1 else 0) + CountSubcmd(t[1..])
  }

  /** The table is a sub-command table exactly when every entry looks like one. */
  lemma {:induction false} CountSubcmdAll(t: seq<CmdEntry>)
    ensures CountSubcmd(t) == |t| <==> forall i :: 0 <= i < |t| ==> t[i].subcmd
  {
    if |t| > 0 {
      CountSubcmdAll(t[1..]);
      assert forall i :: 1 <= i < |t| ==> t[i] == t[1..][i - 1];
    }
  }

  function LowerByte(b: byte): byte
  {
    if 0x41 <= b <= 0x5a then b + 32 else b
  }

  function LowerBytes(s: seq<byte>): (r: seq<byte>)
    ensures |r| == |s|
    ensures forall i :: 0 <= i < |s| ==> r[i] == LowerByte(s[i])
  {
    if |s| == 0 then [] else [LowerByte(s[0])] + LowerBytes(s[1..])
  }

  /** Some entry of the table has the target's name, ignoring case. */
  predicate HasName(t: seq<CmdEntry>, target: seq<byte>)
  {
    exists i :: 0 <= i < |t| && LowerBytes(t[i].name) == LowerBytes(target)
  }

  /** What a result carries besides its position and size. */
  datatype CmdExtra = CmdExtra(cmdTable: seq<CmdEntry>, isSubcmdTable: bool, autocomplete: bool,
                               longhelp: bool)

  /** A target name counts only when it is non-empty (Python truthiness). */
  predicate Wanted(target: Option<seq<byte>>)
  {
    target.Some? && |target.value| > 0
  }

  /** What `_attempt_search_at` decides once the entries stop: with at least
    * `threshold` of them, and the target among their names when one is given, the
    * table's total size and its description; otherwise nothing. */
  function Decide(t: seq<CmdEntry>, target: Option<seq<byte>>, threshold: int, longhelp: bool,
                  autocomplete: bool): (r: Option<(nat, CmdExtra)>)
  {
    if |t| < threshold then None
    else if Wanted(target) && !HasName(t, target.value) then None
    else Some((TotalSize(t), CmdExtra(t, CountSubcmd(t) == |t|, autocomplete, longhelp)))
  }

  /** The outcome of one attempt at `start` for one layout. */
  function Attempt(h: Hunter, strs: StrReader, a: Architecture, target: Option<seq<byte>>, start: int, end: int,
                   threshold: int, check: bool, longhelp: bool, autocomplete: bool): (r: Option<(nat, CmdExtra)>)
    requires Valid(h) && ValidArch(a) && start >= 0 && end >= 0
  {
    Decide(Entries(h, strs, a, start, end, check, longhelp, autocomplete), target, threshold, longhelp, autocomplete)
  }

  /** The loop over the table looking for the target's name. */
  method ContainsName(t: seq<CmdEntry>, target: seq<byte>) returns (found: bool)
    ensures found <==> HasName(t, target)
  {
    var want := LowerBytes(target);
    var i := 0;
    found := false;
    while i < |t|
      invariant 0 <= i <= |t|
      invariant !exists k :: 0 <= k < i && LowerBytes(t[k].name) == want
    {
      if LowerBytes(t[i].name) == want {
        found := true;
        return;
      }
      i := i + 1;
    }
  }

  /** `_attempt_search_at`: read entries one after another while they decode, then
    * decide. `read` is `_cmd_tbl_s` for one layout, as EntryReader gives it. */
  method AttemptSearchAt(read: Reader, base: int, size: nat, bound: int, target: Option<seq<byte>>,
                         start: int, threshold: int, longhelp: bool, autocomplete: bool)
    returns (r: Option<(nat, CmdExtra)>)
    requires start >= 0 && Steps(read, base, size, bound)
    ensures r == Decide(Collect(read, base, size, bound, start), target, threshold, longhelp, autocomplete)
  {
    ghost var whole := Collect(read, base, size, bound, start);
    var offset := start;
    var totalSize := 0;
    var cmdTable: seq<CmdEntry> := [];
    while true
      invariant offset >= start
      invariant cmdTable + Collect(read, base, size, bound, offset) == whole
      invariant totalSize == TotalSize(cmdTable)
      decreases bound - offset
    {
      var entry := read(offset);
      if entry.Some? {
        ghost var before := cmdTable;
        ghost var oldOffset := offset;
        cmdTable := cmdTable + [entry.value];
        totalSize := totalSize + entry.value.size;
        offset := offset + entry.value.size;
        TotalSizeAppend(before, entry.value);
        assert Collect(read, base, size, bound, oldOffset) ==
          [entry.value] + Collect(read, base, size, bound, offset);
        assert cmdTable + Collect(read, base, size, bound, offset) ==
          before + Collect(read, base, size, bound, oldOffset);
      } else if |cmdTable| >= threshold {
        assert cmdTable == whole;
        if target.Some? && |target.value| > 0 {
          var found := ContainsName(cmdTable, target.value);
          if !found {
            return None;
          }
        }
        var extra := CmdExtra(cmdTable, CountSubcmd(cmdTable) == |cmdTable|, autocomplete, longhelp);
        return Some((totalSize, extra));
      } else {
        assert cmdTable == whole;
        break;
      }
    }
    return None;
  }

  /** With the reader of one layout, the loop computes that layout's attempt. */
  lemma AttemptByLoop(h: Hunter, strs: StrReader, a: Architecture, target: Option<seq<byte>>, start: int, end: int,
                      threshold: int, check: bool, longhelp: bool, autocomplete: bool)
    requires Valid(h) && ValidArch(a) && start >= 0 && end >= 0
    ensures Steps(EntryReader(h, strs, a, end, check, longhelp, autocomplete), h.address,
                  EntrySize(a, longhelp, autocomplete), if end < |h.data| then end else |h.data|)
    ensures Attempt(h, strs, a, target, start, end, threshold, check, longhelp, autocomplete) ==
      Decide(Collect(EntryReader(h, strs, a, end, check, longhelp, autocomplete), h.address,
                     EntrySize(a, longhelp, autocomplete), if end < |h.data| then end else |h.data|, start),
             target, threshold, longhelp, autocomplete)
  {
    EntryReaderSteps(h, strs, a, end, check, longhelp, autocomplete);
  }

  /** A reported table has at least `threshold` entries of one layout and the size is
    * theirs, it lies within the searched range, and it names the target when there is one. */
  lemma AttemptResult(h: Hunter, strs: StrReader, a: Architecture, target: Option<seq<byte>>, start: int, end: int,
                      threshold: int, check: bool, longhelp: bool, autocomplete: bool)
    requires Valid(h) && ValidArch(a) && start >= 0 && end >= 0
    requires Attempt(h, strs, a, target, start, end, threshold, check, longhelp, autocomplete).Some?
    ensures |Attempt(h, strs, a, target, start, end, threshold, check, longhelp, autocomplete).value.1.cmdTable| >= threshold
    ensures Attempt(h, strs, a, target, start, end, threshold, check, longhelp, autocomplete).value.0 ==
      |Attempt(h, strs, a, target, start, end, threshold, check, longhelp, autocomplete).value.1.cmdTable| *
      EntrySize(a, longhelp, autocomplete)
    ensures threshold >= 1 ==>
      start + Attempt(h, strs, a, target, start, end, threshold, check, longhelp, autocomplete).value.0 <= end
    ensures Wanted(target) ==>
      HasName(Attempt(h, strs, a, target, start, end, threshold, check, longhelp, autocomplete).value.1.cmdTable, target.value)
  {
    EntryReaderSteps(h, strs, a, end, check, longhelp, autocomplete);
    CollectLayout(EntryReader(h, strs, a, end, check, longhelp, autocomplete), h.address,
                  EntrySize(a, longhelp, autocomplete), if end < |h.data| then end else |h.data|, start);
  }

  /** The configurations tried, in order: the given value of each option, or True then
    * False when it is not given. */
  function Configs(longhelp: Option<bool>, autocomplete: Option<bool>): (r: seq<(bool, bool)>)
  {
    var lhs := if longhelp.Some? then [longhelp.value] else [true, false];
    var acs := if autocomplete.Some? then [autocomplete.value] else [true, false];
    if |lhs| == 1 && |acs| == 1 then [(lhs[0], acs[0])]
    else if |lhs| == 1 then [(lhs[0], acs[0]), (lhs[0], acs[1])]
    else if |acs| == 1 then [(lhs[0], acs[0]), (lhs[1], acs[0])]
    else [(lhs[0], acs[0]), (lhs[0], acs[1]), (lhs[1], acs[0]), (lhs[1], acs[1])]
  }

  /** Without either option given, all four layouts are tried, longer ones first; a
    * given option fixes its half of every configuration. */
  lemma ConfigsOrder(longhelp: Option<bool>, autocomplete: Option<bool>)
    ensures Configs(None, None) == [(true, true), (true, false), (false, true), (false, false)]
    ensures forall k :: 0 <= k < |Configs(longhelp, autocomplete)| ==>
      (longhelp.Some? ==> Configs(longhelp, autocomplete)[k].0 == longhelp.value) &&
      (autocomplete.Some? ==> Configs(longhelp, autocomplete)[k].1 == autocomplete.value)
  {
  }

  /** Configuration `k` is the first, from `i` on, whose attempt succeeds. */
  predicate FirstSuccessAt(attempt: ((bool, bool)) -> Option<(nat, CmdExtra)>, cfgs: seq<(bool, bool)>, i: nat, k: int)
  {
    i <= k < |cfgs| && attempt(cfgs[k]).Some? && forall j :: i <= j < k ==> attempt(cfgs[j]).None?
  }

  /** The loops over the configurations: the index of the first attempt that succeeds. */
  function FirstConfig(attempt: ((bool, bool)) -> Option<(nat, CmdExtra)>, cfgs: seq<(bool, bool)>, i: nat):
    (r: Option<nat>)
    requires i <= |cfgs|
    ensures r.Some? ==> FirstSuccessAt(attempt, cfgs, i, r.value)
    ensures r.None? <==> forall j :: i <= j < |cfgs| ==> attempt(cfgs[j]).None?
    decreases |cfgs| - i
  {
    if i == |cfgs| then None
    else if attempt(cfgs[i]).Some? then Some(i)
    else FirstConfig(attempt, cfgs, i + 1)
  }

  /** One attempt per configuration, at a fixed start and end. */
  function Attempts(h: Hunter, strs: StrReader, a: Architecture, target: Option<seq<byte>>, start: int, end: int,
                    threshold: int, check: bool): ((bool, bool)) -> Option<(nat, CmdExtra)>
    requires Valid(h) && ValidArch(a) && start >= 0 && end >= 0
  {
    (c: (bool, bool)) => Attempt(h, strs, a, target, start, end, threshold, check, c.0, c.1)
  }

  /** The result at `start` of the first configuration whose attempt succeeds. */
  function Pick(att: ((bool, bool)) -> Option<(nat, CmdExtra)>, cfgs: seq<(bool, bool)>, start: int): (r: Probe<CmdExtra>)
    ensures !r.Fail?
    ensures r.Hit? ==> r.off == start
  {
    match FirstConfig(att, cfgs, 0)
    case None => Skip
    case Some(k) => Hit(start, att(cfgs[k]).value.0, att(cfgs[k]).value.1)
  }

  /** `Pick` reports exactly the first configuration, in order, whose attempt succeeds,
    * and nothing when none does. */
  lemma PickFirst(att: ((bool, bool)) -> Option<(nat, CmdExtra)>, cfgs: seq<(bool, bool)>, start: int)
    ensures Pick(att, cfgs, start).Skip? <==> forall j :: 0 <= j < |cfgs| ==> att(cfgs[j]).None?
    ensures Pick(att, cfgs, start).Hit? ==>
      exists k :: FirstSuccessAt(att, cfgs, 0, k) &&
        att(cfgs[k]) == Some((Pick(att, cfgs, start).size, Pick(att, cfgs, start).extra))
  {
    var r := FirstConfig(att, cfgs, 0);
    if r.Some? {
      assert FirstSuccessAt(att, cfgs, 0, r.value);
    }
  }

  /** `_search_at`: the end defaults to one past `end_offset` when it precedes the start;
    * the first configuration whose attempt succeeds gives the result at `start`. */
  function SearchAt(h: Hunter, strs: StrReader, a: Architecture, target: Option<seq<byte>>, start: int, end: int,
                    threshold: int, check: bool, longhelp: Option<bool>, autocomplete: Option<bool>):
    (r: Probe<CmdExtra>)
    requires Valid(h) && ValidArch(a) && start >= 0
  {
    var e := if end < start then h.endOffset + 1 else end;
    Pick(Attempts(h, strs, a, target, start, e, threshold, check), Configs(longhelp, autocomplete), start)
  }

  /** The keyword arguments of `find` and `finditer` the hunter reads. */
  datatype Options = Options(threshold: int, checkPtrs: bool, longhelp: Option<bool>, autocomplete: Option<bool>)

  /** The defaults: five entries, pointer checks on, both options inferred. */
  const DefaultOptions := Options(5, true, None, None)

  /** The probe `find` hands the search loop; offsets are never negative there. */
  function Probe(h: Hunter, a: Architecture, target: Option<seq<byte>>, o: Options): (int, int) -> Probe<CmdExtra>
    requires Valid(h) && ValidArch(a)
  {
    (i, stop) => if i < 0 then Skip else SearchAt(h, Strings(h), a, target, i, stop, o.threshold, o.checkPtrs, o.longhelp, o.autocomplete)
  }

  /** A successful attempt with a positive threshold reports a non-empty table. */
  lemma AttemptNonEmpty(h: Hunter, strs: StrReader, a: Architecture, target: Option<seq<byte>>, start: int, end: int,
                        threshold: int, check: bool, longhelp: bool, autocomplete: bool)
    requires Valid(h) && ValidArch(a) && start >= 0 && end >= 0 && threshold >= 1
    requires Attempt(h, strs, a, target, start, end, threshold, check, longhelp, autocomplete).Some?
    ensures Attempt(h, strs, a, target, start, end, threshold, check, longhelp, autocomplete).value.0 >= 1
  {
    AttemptResult(h, strs, a, target, start, end, threshold, check, longhelp, autocomplete);
    var n := |Attempt(h, strs, a, target, start, end, threshold, check, longhelp, autocomplete).value.1.cmdTable|;
    var sz := EntrySize(a, longhelp, autocomplete);
    assert a.wordSize >= 1;
    assert sz >= 1;
    assert n * sz >= 1 * sz by {
      assert n >= 1;
    }
  }

  /** Every successful attempt reports a positive size. */
  ghost predicate SizesPositive(att: ((bool, bool)) -> Option<(nat, CmdExtra)>)
  {
    forall c: (bool, bool) :: att(c).Some? ==> att(c).value.0 >= 1
  }

  /** With a positive threshold every configuration's attempt reports a positive size. */
  lemma AttemptsSizesPositive(h: Hunter, strs: StrReader, a: Architecture, target: Option<seq<byte>>, start: int,
                              end: int, threshold: int, check: bool)
    requires Valid(h) && ValidArch(a) && start >= 0 && end >= 0 && threshold >= 1
    ensures SizesPositive(Attempts(h, strs, a, target, start, end, threshold, check))
  {
    forall c: (bool, bool) | Attempts(h, strs, a, target, start, end, threshold, check)(c).Some?
      ensures Attempts(h, strs, a, target, start, end, threshold, check)(c).value.0 >= 1
    {
      AttemptNonEmpty(h, strs, a, target, start, end, threshold, check, c.0, c.1);
    }
  }

  /** `Pick` over attempts of positive size reports a positive size. */
  lemma PickPositive(att: ((bool, bool)) -> Option<(nat, CmdExtra)>, cfgs: seq<(bool, bool)>, start: int)
    requires SizesPositive(att)
    ensures Pick(att, cfgs, start).Hit? ==> Pick(att, cfgs, start).size >= 1
  {
    PickFirst(att, cfgs, start);
    if Pick(att, cfgs, start).Hit? {
      var k :| FirstSuccessAt(att, cfgs, 0, k) &&
        att(cfgs[k]) == Some((Pick(att, cfgs, start).size, Pick(att, cfgs, start).extra));
    }
  }

  /** With a positive threshold, a table `_search_at` reports is never empty. */
  lemma SearchAtNonEmpty(h: Hunter, strs: StrReader, a: Architecture, target: Option<seq<byte>>, start: int, end: int,
                         threshold: int, check: bool, longhelp: Option<bool>, autocomplete: Option<bool>)
    requires Valid(h) && ValidArch(a) && start >= 0 && threshold >= 1
    ensures var r := SearchAt(h, strs, a, target, start, end, threshold, check, longhelp, autocomplete);
      r.Hit? ==> r.size >= 1
  {
    var e := if end < start then h.endOffset + 1 else end;
    AttemptsSizesPositive(h, strs, a, target, start, e, threshold, check);
    PickPositive(Attempts(h, strs, a, target, start, e, threshold, check), Configs(longhelp, autocomplete), start);
  }

  /** A positive threshold makes every result non-empty, so `finditer` always advances. */
  lemma ProbeForward(h: Hunter, a: Architecture, target: Option<seq<byte>>, o: Options)
    requires Valid(h) && ValidArch(a) && o.threshold >= 1
    ensures Forward(Probe(h, a, target, o))
  {
    forall i: int, stop: int | Probe(h, a, target, o)(i, stop).Hit?
      ensures Probe(h, a, target, o)(i, stop).off >= i && Probe(h, a, target, o)(i, stop).size >= 1
    {
      SearchAtNonEmpty(h, Strings(h), a, target, i, stop, o.threshold, o.checkPtrs, o.longhelp, o.autocomplete);
    }
  }

  /** `finditer` with a positive threshold yields tables that ascend, never overlap and
    * never touch a gap. */
  lemma FindIterOrderedCmdTable(h: Hunter, a: Architecture, target: Option<seq<byte>>, o: Options,
                                start: int, end: int, limit: nat)
    requires Valid(h) && ValidArch(a) && o.threshold >= 1
    ensures Ordered(FindIter(h, Probe(h, a, target, o), None, start, end, limit).items, 0, h.gaps)
  {
    ProbeForward(h, a, target, o);
    FindIterOrdered(h, Probe(h, a, target, o), None, start, end, limit);
  }

  // The collecting loop as the code reads entries. Since `ptr_value_adv` reads a short
  // word as the value of the bytes there are (zero for none), the reads never raise
  // IndexError, and an entry whose pointers may all be null or zero is accepted again
  // and again past the end of the data.

  /** Reading entries as the code does. */
  function AsWrittenReader(h: Hunter, strs: StrReader, a: Architecture, end: int, check: bool, longhelp: bool,
                           autocomplete: bool): Reader
    requires Valid(h) && ValidArch(a) && end >= 0
  {
    o => if o < 0 then None else CmdTblSAsWritten(h, strs, a, o, end, check, longhelp, autocomplete)
  }

  /** The `while True` loop of `_attempt_search_at`, with no bound on the offset, run for
    * at most `fuel` reads: the entries gathered once a read fails, or None when the loop
    * has not stopped after `fuel` reads. */
  function CollectFuel(read: Reader, offset: int, fuel: nat): (r: Option<seq<CmdEntry>>)
    ensures fuel == 0 ==> r.None?
    decreases fuel
  {
    if fuel == 0 then None
    else match read(offset)
      case None => Some([])
      case Some(e) =>
        match CollectFuel(read, offset + e.size, fuel - 1)
        case None => None
        case Some(rest) => Some([e] + rest)
  }

  /** With reads that fail past a bound, the loop stops within `bound - offset + 1` reads
    * and gathers exactly the entries of `Collect`. */
  lemma {:induction false} CollectFuelStops(read: Reader, base: int, size: nat, bound: int, offset: int, fuel: nat)
    requires offset >= 0 && Steps(read, base, size, bound) && fuel >= 1 && fuel > bound - offset
    ensures CollectFuel(read, offset, fuel) == Some(Collect(read, base, size, bound, offset))
    decreases fuel
  {
    if read(offset).Some? {
      CollectFuelStops(read, base, size, bound, offset + size, fuel - 1);
    }
  }

  /** `read` finds an entry of size `size` at every multiple of `m` from `from` on. */
  ghost predicate ReadsForever(read: Reader, from: int, size: nat, m: nat)
  {
    m >= 1 && size % m == 0 &&
    forall o :: from <= o && o % m == 0 ==> read(o).Some? && read(o).value.size == size
  }

  lemma MultipleSum(x: int, y: int, m: nat)
    requires m >= 1 && x % m == 0 && y % m == 0
    ensures (x + y) % m == 0
  {
    assert x == m * (x / m);
    assert y == m * (y / m);
    assert x + y == m * (x / m + y / m);
    DivModUnique(x + y, m, x / m + y / m, 0);
  }

  /** Such a loop never stops, whatever the fuel. */
  lemma {:induction false} CollectFuelNeverStops(read: Reader, offset: int, size: nat, m: nat, fuel: nat)
    requires ReadsForever(read, offset, size, m) && offset % m == 0
    ensures CollectFuel(read, offset, fuel).None?
    decreases fuel
  {
    if fuel > 0 {
      MultipleSum(offset, size, m);
      assert ReadsForever(read, offset + size, size, m);
      CollectFuelNeverStops(read, offset + size, size, m, fuel - 1);
    }
  }

  /** The bytes hold only zeros. */
  predicate AllZero(s: seq<byte>)
  {
    forall i :: 0 <= i < |s| ==> s[i] == 0
  }

  lemma {:induction false} FromLEZero(s: seq<byte>)
    requires AllZero(s)
    ensures FromLE(s) == 0
  {
    if |s| > 0 {
      assert AllZero(s[1..]) by {
        assert forall i :: 0 <= i < |s| - 1 ==> s[1..][i] == s[i + 1];
      }
      FromLEZero(s[1..]);
    }
  }

  lemma {:induction false} FromBEZero(s: seq<byte>)
    requires AllZero(s)
    ensures FromBE(s) == 0
  {
    if |s| > 0 {
      assert AllZero(s[..|s| - 1]) by {
        assert forall i :: 0 <= i < |s| - 1 ==> s[..|s| - 1][i] == s[i];
      }
      FromBEZero(s[..|s| - 1]);
    }
  }

  lemma {:induction false} BitAndZero(y: nat)
    ensures BitAnd(0, y) == 0
    decreases y
  {
    if y > 0 {
      BitAndZero(y / 2);
    }
  }

  /** At most one word of zeros reads as zero, unsigned and signed, and leaves nothing. */
  lemma ZeroWord(a: Architecture, data: seq<byte>)
    requires a.wordSize >= 1 && AllZero(data) && |data| <= a.wordSize
    ensures PtrValueAdv(a, data) == (0, [])
    ensures ToIntAdv(a, data) == (0, [])
  {
    var w := if |data| >= a.wordSize then data[..a.wordSize] else data;
    assert w == data;
    FromLEZero(data);
    FromBEZero(data);
    assert ToUint(a, data) == 0;
    BitAndZero(Pow2(8 * a.wordSize - 1));
  }

  /** Data of at most one zero word reads as an entry whose pointers are all null, once
    * the name string at address 0 passes the name checks and a `cmd` pointer of 0 is
    * valid. */
  lemma ZeroEntry(h: Hunter, strs: StrReader, a: Architecture, addr: int, data: seq<byte>, check: bool,
                  name: seq<byte>)
    requires a.wordSize >= 1 && AllZero(data) && |data| <= a.wordSize
    requires strs(0, false) == Ok(name) && NameOk(name) && !KnownFalsePositive(name)
    requires IsValidPtr(h, 0, check, false)
    ensures ReadEntry(h, strs, a, addr, data, check, true, true, false) ==
      Some(CmdEntry(addr, name, 0, 0, 0, [], Some([]), Some(0), false, EntrySize(a, true, true)))
  {
    ZeroWord(a, data);
    ZeroWord(a, []);
    assert AllZero([]);
    var hd := Head(name, 0, 0, 0, 0, [], []);
    assert ReadHead(h, strs, a, data, check, false) == Some(hd);
    assert ReadHelp(strs, a, hd, true, false) == Some((Some([]), false, []));
  }

  /** The counterexample image, loaded at address 0: the string "ab" and its NUL, then
    * zeros. */
  const ZeroImage := Hunter([0x61, 0x62, 0, 0, 0, 0, 0, 0], 0, 0, 7, [])

  /** A 32-bit little-endian architecture. */
  const Generic32 := Architecture("Generic", 4, 4, 4, Little, false, [])

  lemma ZeroImageShape()
    ensures Valid(ZeroImage) && ZeroImage.address == 0 && ZeroImage.startOffset == 0
    ensures ZeroImage.endOffset == 7 && |ZeroImage.data| == 8
    ensures forall i :: 2 <= i < 8 ==> ZeroImage.data[i] == 0
  {
  }

  /** The string at address 0 is "ab". */
  ghost predicate NamesAb(strs: StrReader)
  {
    strs(0, false) == Ok([0x61, 0x62])
  }

  lemma ZeroImageName()
    ensures NamesAb(Strings(ZeroImage))
  {
    var h := ZeroImage;
    assert h.data[0..3] == [0x61, 0x62] + [0];
    assert StringHunter.InLang([0x61, 0x62] + [0], StringHunter.StrRegex([], -1, -1));
    assert StringHunter.StringStored(h.data, 0, 7, [0x61, 0x62], -1, -1);
    StringHunter.StringAtFound(h, 0, 0, -1, -1, false, [0x61, 0x62]);
  }

  /** The same for an entry read as written at a word-aligned offset. */
  lemma AsWrittenZeroEntry(h: Hunter, strs: StrReader, a: Architecture, o: int, end: int, check: bool,
                           name: seq<byte>)
    requires Valid(h) && ValidArch(a) && o >= 0 && end >= 0 && IsWordAligned(a, h.address + o)
    requires AllZero(Slice(h.data, o, end)) && |Slice(h.data, o, end)| <= a.wordSize
    requires strs(0, false) == Ok(name) && NameOk(name) && !KnownFalsePositive(name)
    requires IsValidPtr(h, 0, check, false)
    ensures CmdTblSAsWritten(h, strs, a, o, end, check, true, true) ==
      Some(CmdEntry(h.address + o, name, 0, 0, 0, [], Some([]), Some(0), false, EntrySize(a, true, true)))
  {
    var data := Slice(h.data, o, end);
    var e := CmdEntry(h.address + o, name, 0, 0, 0, [], Some([]), Some(0), false, EntrySize(a, true, true));
    ZeroEntry(h, strs, a, h.address + o, data, check, name);
    assert ReadAt(h, strs, a, o, end, check, true, true, false) == Some(e);
    assert CmdTbl(h, strs, a, o, end, check, true, true, false) == Some(e);
  }

  lemma Generic32Valid()
    ensures ValidArch(Generic32) && EntrySize(Generic32, true, true) == 28
  {
    assert PowerOfTwo(1);
    assert PowerOfTwo(2);
    assert PowerOfTwo(4);
  }

  /** Read as written, every word-aligned offset from 4 on of an image like the
    * counterexample holds an entry of 28 bytes: its words are zero or missing, so every
    * pointer is null and the name is the string at address 0. */
  lemma ZeroImageEntry(h: Hunter, strs: StrReader, a: Architecture, o: int)
    requires Valid(h) && ValidArch(a) && a.wordSize == 4
    requires h.address == 0 && h.startOffset == 0 && h.endOffset == 7 && |h.data| == 8
    requires forall i :: 2 <= i < 8 ==> h.data[i] == 0
    requires strs(0, false) == Ok([0x61, 0x62])
    requires o >= 4 && o % 4 == 0
    ensures CmdTblSAsWritten(h, strs, a, o, 8, true, true, true) ==
      Some(CmdEntry(o, [0x61, 0x62], 0, 0, 0, [], Some([]), Some(0), false, 28))
  {
    IsWordAlignedMeaning(a, o);
    assert |Slice(h.data, o, 8)| <= 4 && AllZero(Slice(h.data, o, 8));
    assert NameOk([0x61, 0x62]);
    assert IsValidPtr(h, 0, true, false);
    AsWrittenZeroEntry(h, strs, a, o, 8, true, [0x61, 0x62]);
  }

  /** On such an image the loop of `_attempt_search_at(None, 4, 8, ...)` with both
    * options on never stops. */
  lemma ZeroImageNeverStops(h: Hunter, strs: StrReader, a: Architecture, fuel: nat)
    requires Valid(h) && ValidArch(a) && a.wordSize == 4
    requires h.address == 0 && h.startOffset == 0 && h.endOffset == 7 && |h.data| == 8
    requires forall i :: 2 <= i < 8 ==> h.data[i] == 0
    requires NamesAb(strs)
    ensures CollectFuel(AsWrittenReader(h, strs, a, 8, true, true, true), 4, fuel).None?
  {
    var read := AsWrittenReader(h, strs, a, 8, true, true, true);
    forall o | 4 <= o && o % 4 == 0
      ensures read(o).Some? && read(o).value.size == 28
    {
      ZeroImageEntry(h, strs, a, o);
    }
    CollectFuelNeverStops(read, 4, 28, 4, fuel);
  }

  /** As written, `_attempt_search_at(None, 4, 8, 5, True, True, True)` on the image never
    * returns: its loop reads an entry at every offset 4 + 28k, however far past the end. */
  lemma AttemptAsWrittenNeverReturns(fuel: nat)
    ensures CollectFuel(AsWrittenReader(ZeroImage, Strings(ZeroImage), Generic32, 8, true, true, true), 4, fuel).None?
  {
    Generic32Valid();
    ZeroImageShape();
    ZeroImageName();
    ZeroImageNeverStops(ZeroImage, Strings(ZeroImage), Generic32, fuel);
  }

  /** With reads that fail past the end of the data, the loop stops on every input, after
    * at most `end - start + 1` reads, with the consecutive entries `Entries` describes; on
    * the counterexample it stops at once. */
  lemma AttemptStops(h: Hunter, strs: StrReader, a: Architecture, start: int, end: int, check: bool,
                     longhelp: bool, autocomplete: bool, fuel: nat)
    requires Valid(h) && ValidArch(a) && start >= 0 && end >= 0 && fuel >= 1 && fuel > end - start
    ensures CollectFuel(EntryReader(h, strs, a, end, check, longhelp, autocomplete), start, fuel) ==
      Some(Entries(h, strs, a, start, end, check, longhelp, autocomplete))
  {
    EntryReaderSteps(h, strs, a, end, check, longhelp, autocomplete);
    CollectFuelStops(EntryReader(h, strs, a, end, check, longhelp, autocomplete), h.address,
                     EntrySize(a, longhelp, autocomplete), if end < |h.data| then end else |h.data|, start, fuel);
  }

  lemma AttemptStopsOnZeroImage()
    ensures Entries(ZeroImage, Strings(ZeroImage), Generic32, 4, 8, true, true, true) == []
  {
    Generic32Valid();
    assert EntryReader(ZeroImage, Strings(ZeroImage), Generic32, 8, true, true, true)(4).None?;
  }
}
