/** U-Boot's exported jump table (depthcharge/uboot/jump_table.py): the list of
  * exported functions, and the search that locates `gd->jt` inside a copy of the
  * global data structure (`gd`) by finding `gd->new_gd` and `gd->env_buf[32]`, which
  * neighbour it, then reads one function pointer per export. */
module JumpTable {
  import opened Errors
  import opened PyBytes
  import Arch

  /** An exported function: its name, return type and argument types. */
  datatype Export = Export(name: string, returnType: string, argTypes: seq<string>)

  /** The exports before `free`. */
  const Head: seq<Export> := [
    Export("get_version", "unsigned long", []),
    Export("getc", "int", []),
    Export("tstc", "int", []),
    Export("putc", "void", ["const char"]),
    Export("puts", "void", ["const char *"]),
    Export("printf", "int", ["const char *", "va_list"]),
    Export("irq_install_handler", "void", ["int", "void*", "void *"]),
    Export("irq_free_handler", "void", ["int"]),
    Export("malloc", "void *", ["size_t"])
  ]

  /** `free`, absent when CONFIG_SYS_MALLOC_SIMPLE is set. */
  const Free: Export := Export("free", "void", ["void *"])

  /** The exports after `free`. */
  const Tail: seq<Export> := [
    Export("udelay", "void", ["unsigned long"]),
    Export("get_timer", "unsigned long", ["unsigned long"]),
    Export("vprintf", "int", ["const char *", "va_list"]),
    Export("do_reset", "int", ["void *"]),
    Export("env_get", "char  *", ["const char *"]),
    Export("env_set", "int", ["const char *", "const char *"]),
    Export("simple_strtoul", "unsigned long", ["const char *", "const char **", "unsigned int"]),
    Export("strict_strtoul", "int", ["const char *", "const char **", "unsigned int", "unsigned long *"]),
    Export("simple_strtol", "long", ["const char *", "const char **", "unsigned int"]),
    Export("strcmp", "int", ["const char *", "const char *"]),
    Export("i2c_write", "int", ["unsigned char", "unsigned int", "int", "unsigned char *", "int"]),
    Export("i2c_read", "int", ["unsigned char", "unsigned int", "int", "unsigned char *", "int"]),
    Export("spi_setup_slave", "void *", ["uint", "uint", "uint", "uint"]),
    Export("spi_free_slave", "void", ["void *"]),
    Export("spi_claim_bus", "int", ["void *"]),
    Export("spi_release_bus", "void", ["void *"]),
    Export("spi_xfer", "int", ["void *"]),
    Export("ustrtoul", "unsigned long", ["const char *", "char **", "unsigned int"]),
    Export("ustrtoull", "unsigned long long", ["const char *", "char **", "unsigned int"]),
    Export("strcpy", "char *", ["char *", "const char *"]),
    Export("mdelay", "void", ["unsigned long"]),
    Export("memset", "void *", ["void *", "int", "size_t"])
  ]

  /** `exports(sys_malloc_simple)`: the jump table's functions in table order. */
  function Exports(sysMallocSimple: bool): (r: seq<Export>)
    ensures |r| == |Head| + |Tail| + (if sysMallocSimple then 0 else 1)
    ensures r[..|Head|] == Head && r[|r| - |Tail|..] == Tail
    ensures !sysMallocSimple ==> r[|Head|] == Free
  {
    Head + (if sysMallocSimple then [] else [Free]) + Tail
  }

  /** `free` is exported exactly when CONFIG_SYS_MALLOC_SIMPLE is not set, and the table
    * is one slot shorter without it. */
  lemma ExportsFree(sysMallocSimple: bool)
    ensures |Exports(sysMallocSimple)| == if sysMallocSimple then 31 else 32
    ensures (exists k :: 0 <= k < |Exports(sysMallocSimple)| && Exports(sysMallocSimple)[k].name == "free")
      <==> !sysMallocSimple
  {
    var r := Exports(sysMallocSimple);
    if sysMallocSimple {
      forall k | 0 <= k < |r|
        ensures r[k].name != "free"
      {
        if k < |Head| {
          assert r[k] == Head[k];
        } else {
          assert r[k] == Tail[k - |Head|];
        }
      }
    } else {
      assert r[|Head|] == Free;
    }
  }

  /** Without `free`, every other function keeps its place in the table. */
  lemma ExportsWithoutFree()
    ensures Exports(true) == Exports(false)[..|Head|] + Exports(false)[|Head| + 1..]
    ensures Exports(false)[|Head|] == Free
  {
    assert Exports(false)[..|Head|] == Head;
    assert Exports(false)[|Head| + 1..] == Tail;
  }

  /** A byte `gd->env_buf` may hold: NUL or printable ASCII. */
  predicate EnvByte(v: byte)
  {
    v == 0 || 0x20 <= v < 0x80
  }

  /** `gd->new_gd` may be at `off`: a word offset past the first word whose pointer
    * equals the address of `gd`. */
  predicate NewGdAt(a: Arch.Architecture, gdAddress: int, gdMem: seq<byte>, off: nat)
  {
    a.wordSize >= 1 && off % a.wordSize == 0 && a.wordSize <= off < |gdMem| &&
    Arch.PtrValue(a, gdMem[off..]) == gdAddress
  }

  /** `off` is where `_find_new_gd` stops: the first such offset. */
  predicate FirstNewGd(a: Arch.Architecture, gdAddress: int, gdMem: seq<byte>, off: nat)
  {
    NewGdAt(a, gdAddress, gdMem, off) && forall q: nat :: q < off ==> !NewGdAt(a, gdAddress, gdMem, q)
  }

  lemma NextMultiple(ws: nat, off: nat, q: nat)
    requires ws >= 1 && off % ws == 0 && q % ws == 0 && off <= q < off + ws
    ensures q == off
  {
    var m := off / ws;
    assert off == ws * m + off % ws;
    DivModUnique(q, ws, m, q - off);
  }

  /** A word that is not new_gd moves the search on by a word. */
  lemma NewGdStep(a: Arch.Architecture, gdAddress: int, gdMem: seq<byte>, offset: nat)
    requires a.wordSize >= 1 && offset % a.wordSize == 0
    requires forall q: nat :: q < offset ==> !NewGdAt(a, gdAddress, gdMem, q)
    requires !NewGdAt(a, gdAddress, gdMem, offset)
    ensures (offset + a.wordSize) % a.wordSize == 0
    ensures forall q: nat :: q < offset + a.wordSize ==> !NewGdAt(a, gdAddress, gdMem, q)
  {
    forall q: nat | offset <= q < offset + a.wordSize && q % a.wordSize == 0
      ensures q == offset
    {
      NextMultiple(a.wordSize, offset, q);
    }
    assert offset == a.wordSize * (offset / a.wordSize) + offset % a.wordSize;
    DivModUnique(offset + a.wordSize, a.wordSize, offset / a.wordSize + 1, 0);
  }

  /** The data left after the word at `offset`, when that word is not `gd_address`: the
    * loop of `_find_new_gd` moves on one word and keeps its invariant. */
  lemma FindNewGdStep(a: Arch.Architecture, gdAddress: int, gdMem: seq<byte>, offset: nat, data: seq<byte>)
    requires a.wordSize >= 1 && offset % a.wordSize == 0 && offset >= a.wordSize
    requires data == (if offset <= |gdMem| then gdMem[offset..] else []) && |data| > 0
    requires forall q: nat :: q < offset ==> !NewGdAt(a, gdAddress, gdMem, q)
    requires Arch.PtrValue(a, data) != gdAddress
    ensures (offset + a.wordSize) % a.wordSize == 0
    ensures Arch.Advance(a, data) == if offset + a.wordSize <= |gdMem| then gdMem[offset + a.wordSize..] else []
    ensures forall q: nat :: q < offset + a.wordSize ==> !NewGdAt(a, gdAddress, gdMem, q)
  {
    NewGdStep(a, gdAddress, gdMem, offset);
  }

  /** `_find_new_gd`: word by word after the first, the offset of the first pointer
    * equal to `gd_address`; ValueError when there is none. */
  method FindNewGd(a: Arch.Architecture, gdAddress: int, gdMem: seq<byte>) returns (r: Result<nat>)
    requires a.wordSize >= 1
    ensures r.Ok? ==> FirstNewGd(a, gdAddress, gdMem, r.value)
    ensures r.Err? ==> r.error == ValueError && forall q: nat :: !NewGdAt(a, gdAddress, gdMem, q)
  {
    var data := Arch.Advance(a, gdMem);
    var offset: nat := a.wordSize;
    while |data| > 0
      invariant offset % a.wordSize == 0 && offset >= a.wordSize
      invariant data == if offset <= |gdMem| then gdMem[offset..] else []
      invariant forall q: nat :: q < offset ==> !NewGdAt(a, gdAddress, gdMem, q)
      decreases |data|
    {
      var value: nat;
      value := Arch.PtrValue(a, data);
      if value == gdAddress {
        return Ok(offset);
      }
      FindNewGdStep(a, gdAddress, gdMem, offset, data);
      data := Arch.Advance(a, data);
      offset := offset + a.wordSize;
    }
    return Err(ValueError);
  }

  /** The bytes `_find_gd_env_buf` searches: `gd_mem` from the word after new_gd. */
  function SearchArea(a: Arch.Architecture, gdMem: seq<byte>, newGdOffset: nat): seq<byte>
  {
    Slice(gdMem, newGdOffset + a.wordSize, |gdMem|)
  }

  predicate AllEnvBytes(d: seq<byte>, j: nat, i: nat)
    requires j <= i <= |d|
  {
    forall k :: j <= k < i ==> EnvByte(d[k])
  }

  /** `env_buf[32]` may start at `j` of the search area: a word aligned index followed
    * by 32 NUL or printable bytes. */
  predicate EnvBufAt(a: Arch.Architecture, d: seq<byte>, j: nat)
  {
    Arch.IsWordAligned(a, j) && j + 32 <= |d| && AllEnvBytes(d, j, j + 32)
  }

  /** Where `_find_gd_env_buf` stops: the first start in the area. */
  predicate FirstEnvBuf(a: Arch.Architecture, d: seq<byte>, j: nat)
  {
    EnvBufAt(a, d, j) && forall q: nat :: q < j ==> !EnvBufAt(a, d, q)
  }

  function Min(x: nat, y: nat): nat
  {
    if x <= y then x else y
  }

  /** Seen up to index `i`, no 32-byte window can start at `j`. */
  predicate Blocked(d: seq<byte>, j: nat, i: nat)
    requires j <= i <= |d|
  {
    !AllEnvBytes(d, j, Min(i, j + 32))
  }

  lemma {:induction false} BlockedGrows(d: seq<byte>, j: nat, i: nat)
    requires j <= i < |d| && Blocked(d, j, i)
    ensures Blocked(d, j, i + 1)
  {
    var k :| j <= k < Min(i, j + 32) && !EnvByte(d[k]);
    assert k < Min(i + 1, j + 32);
  }

  /** `_find_gd_env_buf`: counts consecutive NUL or printable bytes from a word
    * aligned start; the 32nd gives the start's offset into `gd_mem`, any other byte
    * starts the count again. ValueError when no run of 32 is found. */
  method FindGdEnvBuf(a: Arch.Architecture, gdAddress: int, gdMem: seq<byte>, newGdOffset: nat)
    returns (r: Result<nat>)
    ensures r.Ok? ==> r.value >= newGdOffset + a.wordSize
    ensures r.Ok? ==> FirstEnvBuf(a, SearchArea(a, gdMem, newGdOffset), r.value - (newGdOffset + a.wordSize))
    ensures r.Err? ==>
      r.error == ValueError && forall j: nat :: !EnvBufAt(a, SearchArea(a, gdMem, newGdOffset), j)
  {
    var searchOffset := newGdOffset + a.wordSize;
    var data := SearchArea(a, gdMem, newGdOffset);
    var validCount: nat := 0;
    var envBufOffset: nat := 0;
    for i := 0 to |data|
      invariant validCount < 32
      invariant validCount > 0 ==>
        envBufOffset + validCount == i && Arch.IsWordAligned(a, envBufOffset) && AllEnvBytes(data, envBufOffset, i)
      invariant forall j: nat :: j < (if validCount > 0 then envBufOffset else i) && Arch.IsWordAligned(a, j) ==>
        Blocked(data, j, i)
    {
      var value := data[i];
      if value != 0 && !(0x20 <= value < 0x80) {
        forall j: nat | j < i + 1 && Arch.IsWordAligned(a, j)
          ensures Blocked(data, j, i + 1)
        {
          if j < (if validCount > 0 then envBufOffset else i) {
            BlockedGrows(data, j, i);
          }
        }
        validCount := 0;
        continue;
      }
      if validCount == 0 {
        if !Arch.IsWordAligned(a, i) {
          forall j: nat | j < i && Arch.IsWordAligned(a, j)
            ensures Blocked(data, j, i + 1)
          {
            BlockedGrows(data, j, i);
          }
          continue;
        }
        envBufOffset := i;
      }
      forall j: nat | j < envBufOffset && Arch.IsWordAligned(a, j)
        ensures Blocked(data, j, i + 1)
      {
        BlockedGrows(data, j, i);
      }
      validCount := validCount + 1;
      if validCount == 32 {
        forall q: nat | q < envBufOffset
          ensures !EnvBufAt(a, data, q)
        {
          if Arch.IsWordAligned(a, q) {
            assert Blocked(data, q, i + 1);
          }
        }
        return Ok(envBufOffset + searchOffset);
      }
    }
    forall j: nat
      ensures !EnvBufAt(a, data, j)
    {
      if j < (if validCount > 0 then envBufOffset else |data|) && Arch.IsWordAligned(a, j) {
        assert Blocked(data, j, |data|);
      }
    }
    return Err(ValueError);
  }

  /** The width of a global data field: a word, or a `phys_size_t`. */
  datatype Width = WordWide | PhysWide

  /** The fields directly below `new_gd`, nearest first. */
  const ExtraFields: seq<(string, Width)> := [
    ("reloc_off", WordWide), ("start_addr_sp", WordWide), ("irq_sp", WordWide),
    ("mon_len", WordWide), ("ram_size", PhysWide), ("relocaddr", WordWide), ("ram_top", WordWide)
  ]

  predicate DistinctNames(fields: seq<(string, Width)>)
  {
    forall i, j :: 0 <= i < j < |fields| ==> fields[i].0 != fields[j].0
  }

  /** The seven names differ: each is a distinct key of the result. */
  lemma ExtraNamesDistinct()
    ensures DistinctNames(ExtraFields)
  {
  }

  function SizeOf(a: Arch.Architecture, w: Width): nat
  {
    if w.WordWide? then a.wordSize else a.physSize
  }

  /** The total size of the first `n` fields. */
  function Below(a: Arch.Architecture, fields: seq<(string, Width)>, n: nat): nat
    requires n <= |fields|
  {
    if n == 0 then 0 else Below(a, fields, n - 1) + SizeOf(a, fields[n - 1].1)
  }

  /** Where field `k` starts: below new_gd by the sizes of fields 0 to `k`. */
  function ExtraOffset(a: Arch.Architecture, fields: seq<(string, Width)>, newGdOffset: int, k: nat): int
    requires k < |fields|
  {
    newGdOffset - Below(a, fields, k + 1)
  }

  /** The value of a field of `size` bytes at `off` (a negative offset counting, as
    * Python's slices do, from the end): `int.from_bytes` of exactly the field when its
    * size is that of `phys_size_t`, `to_uint` of the data from `off` otherwise. */
  function FieldValue(a: Arch.Architecture, gdMem: seq<byte>, off: int, size: nat): nat
  {
    if size == a.physSize then FromBytes(Slice(gdMem, off, off + size), a.endianness)
    else Arch.ToUint(a, Slice(gdMem, off, |gdMem|))
  }

  /** Inside `gd_mem` both readings are the field's bytes, whatever its size. */
  lemma FieldValueInside(a: Arch.Architecture, gdMem: seq<byte>, off: int, size: nat)
    requires 0 <= off && off + size <= |gdMem| && (size == a.wordSize || size == a.physSize)
    ensures FieldValue(a, gdMem, off, size) == FromBytes(gdMem[off..off + size], a.endianness)
  {
    SliceInRange(gdMem, off, off + size);
    SliceInRange(gdMem, off, |gdMem|);
    if size != a.physSize {
      assert gdMem[off..|gdMem|] == gdMem[off..];
      assert gdMem[off..][..size] == gdMem[off..off + size];
    }
  }

  /** The fields occupy consecutive slots directly below new_gd: the first ends at
    * new_gd, each next one ends where the previous one starts. */
  lemma ExtraFieldsAdjacent(a: Arch.Architecture, newGdOffset: int, k: nat)
    requires k < |ExtraFields|
    ensures ExtraOffset(a, ExtraFields, newGdOffset, k) + SizeOf(a, ExtraFields[k].1) ==
      if k == 0 then newGdOffset else ExtraOffset(a, ExtraFields, newGdOffset, k - 1)
    ensures a.wordSize >= 1 && a.physSize >= 1 && k > 0 ==>
      ExtraOffset(a, ExtraFields, newGdOffset, k) < ExtraOffset(a, ExtraFields, newGdOffset, k - 1) < newGdOffset
  {
    var fs := ExtraFields;
    assert Below(a, fs, k + 1) == Below(a, fs, k) + SizeOf(a, fs[k].1);
    if k > 0 {
      assert Below(a, fs, k) == Below(a, fs, k - 1) + SizeOf(a, fs[k - 1].1);
      BelowPositive(a, fs, k - 1);
    }
  }

  lemma {:induction false} BelowPositive(a: Arch.Architecture, fields: seq<(string, Width)>, n: nat)
    requires n <= |fields|
    ensures a.wordSize >= 1 && a.physSize >= 1 ==> Below(a, fields, n) >= n
  {
    if n > 0 {
      BelowPositive(a, fields, n - 1);
    }
  }

  /** The names of the first `n` fields. */
  function Names(fields: seq<(string, Width)>, n: nat): (r: set<string>)
    requires n <= |fields|
    ensures forall j :: 0 <= j < n ==> fields[j].0 in r
  {
    if n == 0 then {} else Names(fields, n - 1) + {fields[n - 1].0}
  }

  /** Setting the key of field `k` to its value keeps the values of fields before it. */
  lemma PutField(r: map<string, nat>, fields: seq<(string, Width)>, vals: seq<nat>, k: nat)
    requires DistinctNames(fields) && k < |fields| == |vals|
    requires forall j :: 0 <= j < k ==> fields[j].0 in r && r[fields[j].0] == vals[j]
    ensures forall j :: 0 <= j <= k ==> r[fields[k].0 := vals[k]][fields[j].0] == vals[j]
  {
    forall j | 0 <= j <= k
      ensures r[fields[k].0 := vals[k]][fields[j].0] == vals[j]
    {
      if j < k {
        assert fields[j].0 != fields[k].0;
      }
    }
  }

  /** The loop of `_find_extras` over any list of fields with distinct names. */
  method ReadFields(a: Arch.Architecture, gdMem: seq<byte>, newGdOffset: int, fields: seq<(string, Width)>)
    returns (r: map<string, nat>)
    requires DistinctNames(fields)
    ensures r.Keys == Names(fields, |fields|)
    ensures forall k :: 0 <= k < |fields| ==>
      r[fields[k].0] == FieldValue(a, gdMem, ExtraOffset(a, fields, newGdOffset, k), SizeOf(a, fields[k].1))
  {
    ghost var vals := seq(|fields|, j requires 0 <= j < |fields| =>
      FieldValue(a, gdMem, ExtraOffset(a, fields, newGdOffset, j), SizeOf(a, fields[j].1)));
    r := map[];
    var off := newGdOffset;
    for k := 0 to |fields|
      invariant off == newGdOffset - Below(a, fields, k)
      invariant r.Keys == Names(fields, k)
      invariant forall j :: 0 <= j < k ==> r[fields[j].0] == vals[j]
    {
      var name := fields[k].0;
      var size := SizeOf(a, fields[k].1);
      off := off - size;
      var value := FieldValue(a, gdMem, off, size);
      assert off == ExtraOffset(a, fields, newGdOffset, k);
      assert value == vals[k];
      PutField(r, fields, vals, k);
      r := r[name := value];
    }
  }

  /** The extra fields as `_find_extras` reads them below new_gd. */
  predicate ExtrasOf(a: Arch.Architecture, gdMem: seq<byte>, newGdOffset: int, extras: map<string, nat>)
  {
    extras.Keys == Names(ExtraFields, |ExtraFields|) &&
    forall k :: 0 <= k < |ExtraFields| ==>
      extras[ExtraFields[k].0] == FieldValue(a, gdMem, ExtraOffset(a, ExtraFields, newGdOffset, k), SizeOf(a, ExtraFields[k].1))
  }

  /** `_find_extras`: the seven fields read walking down from new_gd, by name. */
  method FindExtras(a: Arch.Architecture, gdMem: seq<byte>, newGdOffset: int) returns (r: map<string, nat>)
    ensures ExtrasOf(a, gdMem, newGdOffset, r)
  {
    ExtraNamesDistinct();
    r := ReadFields(a, gdMem, newGdOffset, ExtraFields);
  }

  /** One entry of the located table. */
  datatype Entry = Entry(address: nat, name: string, returnType: string, argTypes: seq<string>)

  /** The entries read from the table: one function pointer per export, in order,
    * each with the export's name and types. */
  function EntriesOf(a: Arch.Architecture, exports: seq<Export>, tableData: seq<byte>): (r: seq<Entry>)
    ensures |r| == |exports|
  {
    var ptrs := Arch.PtrValues(a, tableData, |exports|);
    seq(|exports|, k requires 0 <= k < |exports| =>
      Entry(ptrs[k], exports[k].name, exports[k].returnType, exports[k].argTypes))
  }

  /** The loop at the end of `find`, advancing through the table a word at a time. */
  method ReadEntries(a: Arch.Architecture, exports: seq<Export>, tableData: seq<byte>) returns (entries: seq<Entry>)
    ensures entries == EntriesOf(a, exports, tableData)
  {
    ghost var ptrs := Arch.PtrValues(a, tableData, |exports|);
    var data := tableData;
    entries := [];
    for k := 0 to |exports|
      invariant |entries| == k
      invariant ptrs[k..] == Arch.PtrValues(a, data, |exports| - k)
      invariant forall j :: 0 <= j < k ==>
        entries[j] == Entry(ptrs[j], exports[j].name, exports[j].returnType, exports[j].argTypes)
    {
      var fnPtr: nat;
      fnPtr, data := Arch.PtrValue(a, data), Arch.Advance(a, data);
      assert ptrs[k] == ptrs[k..][0];
      assert ptrs[k + 1..] == ptrs[k..][1..];
      entries := entries + [Entry(fnPtr, exports[k].name, exports[k].returnType, exports[k].argTypes)];
    }
  }

  /** The lengths of table and entries agree, and entry `k` is export `k` at the
    * `k`-th pointer of the table. */
  lemma EntriesOfMeaning(a: Arch.Architecture, exports: seq<Export>, tableData: seq<byte>, k: nat)
    requires k < |exports|
    ensures EntriesOf(a, exports, tableData)[k].name == exports[k].name
    ensures EntriesOf(a, exports, tableData)[k].address ==
      Arch.PtrValue(a, AdvanceWords(a, tableData, k))
  {
    PtrValuesAt(a, tableData, |exports|, k);
  }

  /** The data after `k` words. */
  function AdvanceWords(a: Arch.Architecture, data: seq<byte>, k: nat): seq<byte>
    decreases k
  {
    if k == 0 then data else AdvanceWords(a, Arch.Advance(a, data), k - 1)
  }

  lemma {:induction false} PtrValuesAt(a: Arch.Architecture, data: seq<byte>, n: nat, k: nat)
    requires k < n
    ensures Arch.PtrValues(a, data, n)[k] == Arch.PtrValue(a, AdvanceWords(a, data, k))
    decreases k
  {
    if k > 0 {
      PtrValuesAt(a, Arch.Advance(a, data), n - 1, k - 1);
    }
  }

  /** The keyword arguments of `find`, each passed or not. */
  datatype FindArgs = FindArgs(gdReadSize: Option<int>, jtAddrMask: Option<nat>, sysMallocSimple: Option<bool>)

  const DefaultGdReadSize: int := 384

  function GdReadSize(args: FindArgs): int
  {
    if args.gdReadSize.Some? then args.gdReadSize.value else DefaultGdReadSize
  }

  /** `exports(**kwargs)` as `find` writes it: every keyword argument of `find` is
    * handed on, and `exports` accepts only `sys_malloc_simple`. */
  function ExportsAsWritten(args: FindArgs): (r: Result<seq<Export>>)
    ensures r.Ok? <==> args.gdReadSize.None? && args.jtAddrMask.None?
    ensures r.Err? ==> r.error == TypeError
    ensures r.Ok? ==> r.value == Exports(args.sysMallocSimple == Some(true))
  {
    if args.gdReadSize.Some? || args.jtAddrMask.Some? then Err(TypeError)
    else Ok(Exports(args.sysMallocSimple == Some(true)))
  }

  /** The exports `find` evidently means: those selected by `sys_malloc_simple`. */
  function ExportsFor(args: FindArgs): seq<Export>
  {
    Exports(args.sysMallocSimple == Some(true))
  }

  /** Passing `gd_read_size` (or `jt_addr_mask`, as the comment at the mask's default
    * recommends) passes the checks at the top of `find` and then raises TypeError
    * when the exports are listed, after both reads. */
  lemma GdReadSizeRejectedAsWritten(size: int)
    ensures ExportsAsWritten(FindArgs(Some(size), None, None)) == Err(TypeError)
    ensures ExportsAsWritten(FindArgs(None, Some(0), None)) == Err(TypeError)
    ensures ExportsFor(FindArgs(Some(size), None, None)) == Exports(false)
  {
  }

  /** What `find` returns: the table's address, its entries and the extra fields. */
  datatype JumpTableInfo = JumpTableInfo(address: nat, entries: seq<Entry>, extras: map<string, nat>)

  /** `jt_addr`: the pointer in the word before `env_buf`. */
  function JtAddress(a: Arch.Architecture, gdMem: seq<byte>, envBufOffset: int): nat
  {
    Arch.PtrValue(a, Slice(gdMem, envBufOffset - a.wordSize, |gdMem|))
  }

  /** The fields of `gd` located in its copy: new_gd's offset, env_buf's offset, and
    * the extra fields below new_gd. */
  datatype Location = Location(newGdOffset: nat, envBufOffset: nat, extras: map<string, nat>)

  /** The location the searches find: the first new_gd, and the first env_buf after it. */
  predicate Located(a: Arch.Architecture, gdAddress: int, gdMem: seq<byte>, loc: Location)
  {
    var so := loc.newGdOffset + a.wordSize;
    FirstNewGd(a, gdAddress, gdMem, loc.newGdOffset) &&
    loc.envBufOffset >= so && FirstEnvBuf(a, SearchArea(a, gdMem, loc.newGdOffset), loc.envBufOffset - so) &&
    ExtrasOf(a, gdMem, loc.newGdOffset, loc.extras)
  }

  /** The searches of `find` in the copy of `gd`: new_gd, the extras below it, then
    * env_buf above it; ValueError when either search fails. */
  method Locate(a: Arch.Architecture, gdAddress: int, gdMem: seq<byte>) returns (r: Result<Location>)
    requires a.wordSize >= 1
    ensures r.Ok? ==> Located(a, gdAddress, gdMem, r.value)
    ensures r.Err? ==> r.error == ValueError
    ensures r.Err? ==>
      (forall off: nat :: !NewGdAt(a, gdAddress, gdMem, off)) ||
      exists off: nat :: FirstNewGd(a, gdAddress, gdMem, off) &&
        forall j: nat :: !EnvBufAt(a, SearchArea(a, gdMem, off), j)
  {
    var newGd := FindNewGd(a, gdAddress, gdMem);
    if newGd.Err? {
      return Err(newGd.error);
    }
    var newGdOffset := newGd.value;
    var extras := FindExtras(a, gdMem, newGdOffset);
    var envBuf := FindGdEnvBuf(a, gdAddress, gdMem, newGdOffset);
    if envBuf.Err? {
      return Err(envBuf.error);
    }
    return Ok(Location(newGdOffset, envBuf.value, extras));
  }

  /** The table built from a location: the pointer before env_buf, and one entry per
    * export read from there. */
  function Table(a: Arch.Architecture, read: (int, int) -> seq<byte>, exports: seq<Export>,
                 gdMem: seq<byte>, loc: Location): JumpTableInfo
  {
    var jtAddr := JtAddress(a, gdMem, loc.envBufOffset);
    JumpTableInfo(jtAddr, EntriesOf(a, exports, read(jtAddr, |exports| * a.wordSize)), loc.extras)
  }

  /** `find`, reading target memory through `read(address, size)`; with the exports
    * selected by `sys_malloc_simple` alone. */
  method Find(a: Arch.Architecture, gdAddress: int, read: (int, int) -> seq<byte>, args: FindArgs)
    returns (r: Result<JumpTableInfo>)
    requires a.wordSize >= 1
    ensures !Arch.IsWordAligned(a, gdAddress) ==> r == Err(ValueError)
    ensures Arch.IsWordAligned(a, gdAddress) && !Arch.MultipleOfWordSize(a, GdReadSize(args)) ==>
      r == Err(ValueError)
    ensures r.Err? ==> r.error == ValueError
    ensures var gdMem := read(gdAddress, GdReadSize(args));
      r.Ok? ==> (Arch.IsWordAligned(a, gdAddress) && Arch.MultipleOfWordSize(a, GdReadSize(args)) &&
        exists loc :: Located(a, gdAddress, gdMem, loc) && r.value == Table(a, read, ExportsFor(args), gdMem, loc))
    ensures var gdMem := read(gdAddress, GdReadSize(args));
      Arch.IsWordAligned(a, gdAddress) && Arch.MultipleOfWordSize(a, GdReadSize(args)) && r.Err? ==>
        (forall off: nat :: !NewGdAt(a, gdAddress, gdMem, off)) ||
        exists off: nat :: FirstNewGd(a, gdAddress, gdMem, off) &&
          forall j: nat :: !EnvBufAt(a, SearchArea(a, gdMem, off), j)
  {
    var gdReadSize := GdReadSize(args);
    if !Arch.IsWordAligned(a, gdAddress) {
      return Err(ValueError);
    }
    if !Arch.MultipleOfWordSize(a, gdReadSize) {
      return Err(ValueError);
    }
    var gdMem := read(gdAddress, gdReadSize);
    var loc := Locate(a, gdAddress, gdMem);
    if loc.Err? {
      return Err(loc.error);
    }
    var jtAddr := JtAddress(a, gdMem, loc.value.envBufOffset);
    var exports := ExportsFor(args);
    var tableData := read(jtAddr, |exports| * a.wordSize);
    var entries := ReadEntries(a, exports, tableData);
    r := Ok(JumpTableInfo(jtAddr, entries, loc.value.extras));
    assert r.value == Table(a, read, exports, gdMem, loc.value);
  }
}
