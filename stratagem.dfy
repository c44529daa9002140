/** A Stratagem: the list of entries that tells an indirect Operation (a CRC32- or
  * cp-based memory writer) how to reach its goal, each entry a dictionary whose keys
  * and value types the Operation's Stratagem specification fixes. */
module Strat {
  import opened Errors
  import PyInt

  /** The Python types a specification may name. */
  datatype Kind = IntKind | StrKind | BoolKind

  /** A Stratagem specification: key name to expected type. */
  type Spec = map<string, Kind>

  /** An entry's value: the types the specification names, or None. */
  datatype Value = IntV(i: int) | StrV(s: string) | BoolV(b: bool) | NullV

  /** One key-value pair of an entry. */
  datatype Field = Field(key: string, val: Value)

  /** A dictionary, in insertion order (the order Python iterates it in). */
  type Entry = seq<Field>

  /** What the Stratagem needs of an Operation class: its name and its specification,
    * None for an Operation that needs no Stratagem. */
  datatype OpClass = OpClass(name: string, spec: Option<Spec>)

  /** Python dictionaries never hold a key twice. */
  predicate DistinctKeys(e: Entry)
  {
    forall i, j :: 0 <= i < j < |e| ==> e[i].key != e[j].key
  }

  /** `e.get(k)`. */
  function Get(e: Entry, k: string): Option<Value>
  {
    if |e| == 0 then None
    else if e[0].key == k then Some(e[0].val)
    else Get(e[1..], k)
  }

  /** A key is missing exactly when no field holds it. */
  lemma {:induction false} GetNone(e: Entry, k: string)
    ensures Get(e, k).None? <==> forall i :: 0 <= i < |e| ==> e[i].key != k
  {
    if |e| > 0 {
      GetNone(e[1..], k);
      assert forall i :: 0 < i < |e| ==> e[i] == e[1..][i - 1];
    }
  }

  /** `e[k] = v`: an existing key keeps its position, a new key goes last. */
  function Put(e: Entry, k: string, v: Value): (r: Entry)
    ensures Get(e, k).None? ==> r == e + [Field(k, v)]
    ensures |r| == if Get(e, k).None? then |e| + 1 else |e|
  {
    if |e| == 0 then [Field(k, v)]
    else if e[0].key == k then [Field(k, v)] + e[1..]
    else
      var rest := Put(e[1..], k, v);
      assert Get(e, k).None? ==> [e[0]] + (e[1..] + [Field(k, v)]) == e + [Field(k, v)];
      [e[0]] + rest
  }

  /** After `e[k] = v`, `k` holds `v` and no other key changes. */
  lemma {:induction false} PutGet(e: Entry, k: string, v: Value, k': string)
    ensures Get(Put(e, k, v), k') == if k' == k then Some(v) else Get(e, k')
  {
    if |e| > 0 && e[0].key != k {
      PutGet(e[1..], k, v, k');
    }
  }

  /** Assignment keeps the keys distinct. */
  lemma {:induction false} PutDistinct(e: Entry, k: string, v: Value)
    ensures DistinctKeys(e) ==> DistinctKeys(Put(e, k, v))
  {
    if DistinctKeys(e) && |e| > 0 {
      if e[0].key == k {
        assert forall i :: 0 < i < |e| ==> Put(e, k, v)[i] == e[i];
      } else {
        assert DistinctKeys(e[1..]);
        PutDistinct(e[1..], k, v);
        var rest := Put(e[1..], k, v);
        forall i | 0 <= i < |rest|
          ensures rest[i].key != e[0].key
        {
          GetNone(rest, e[0].key);
          PutGet(e[1..], k, v, e[0].key);
          GetNone(e[1..], e[0].key);
        }
      }
    }
  }

  /** Every keyword argument overrides (or adds to) the entry, in order. */
  function Merge(e: Entry, kwargs: Entry): (r: Entry)
    ensures DistinctKeys(e) ==> DistinctKeys(r)
    decreases |kwargs|
  {
    if |kwargs| == 0 then e
    else
      PutDistinct(e, kwargs[0].key, kwargs[0].val);
      Merge(Put(e, kwargs[0].key, kwargs[0].val), kwargs[1..])
  }

  /** Merging puts every keyword argument's last value under its key and leaves the
    * other keys alone. */
  lemma {:induction false} MergeGet(e: Entry, kwargs: Entry, k: string)
    ensures Get(Merge(e, kwargs), k) == if Get(kwargs, k).Some? then Get(Reversed(kwargs), k) else Get(e, k)
    decreases |kwargs|
  {
    if |kwargs| > 0 {
      MergeGet(Put(e, kwargs[0].key, kwargs[0].val), kwargs[1..], k);
      ReversedGet(kwargs, k);
      PutGet(e, kwargs[0].key, kwargs[0].val, k);
    }
  }

  function Reversed(e: Entry): (r: Entry)
    ensures |r| == |e|
  {
    if |e| == 0 then [] else Reversed(e[1..]) + [e[0]]
  }

  /** The first occurrence in the reversed list is the last one: when `kwargs[0]` holds
    * `k`, a later occurrence of `k` wins. */
  lemma {:induction false} ReversedGet(kwargs: Entry, k: string)
    requires |kwargs| > 0
    ensures Get(Reversed(kwargs), k) ==
      if Get(kwargs[1..], k).Some? then Get(Reversed(kwargs[1..]), k)
      else if kwargs[0].key == k then Some(kwargs[0].val)
      else None
  {
    var t := kwargs[1..];
    GetAppend(Reversed(t), kwargs[0], k);
    ReversedSome(t, k);
  }

  lemma GetAppend(e: Entry, f: Field, k: string)
    ensures Get(e + [f], k) == if Get(e, k).Some? then Get(e, k) else if f.key == k then Some(f.val) else None
  {
    if |e| > 0 {
      assert (e + [f])[1..] == e[1..] + [f];
      GetAppend(e[1..], f, k);
    }
  }

  lemma {:induction false} ReversedSome(e: Entry, k: string)
    ensures Get(Reversed(e), k).Some? <==> Get(e, k).Some?
  {
    if |e| > 0 {
      ReversedSome(e[1..], k);
      GetAppend(Reversed(e[1..]), e[0], k);
    }
  }

  /** `expected_type(value)`, with `int(s, 0)` for a string given where an int is
    * expected. */
  function Convert(k: Kind, v: Value): (r: Result<Value>)
  {
    match k
    case IntKind =>
      (match v
       case IntV(_) => Ok(v)
       case StrV(s) => (match PyInt.IntBase0(s) case Ok(n) => Ok(IntV(n)) case Err(e) => Err(e))
       case BoolV(b) => Ok(IntV(if b then 1 else 0))
       case NullV => Err(TypeError))
    case StrKind =>
      (match v
       case IntV(i) => Ok(StrV(PyInt.Decimal(i)))
       case StrV(_) => Ok(v)
       case BoolV(b) => Ok(StrV(if b then "True" else "False"))
       case NullV => Ok(StrV("None")))
    case BoolKind =>
      (match v
       case IntV(i) => Ok(BoolV(i != 0))
       case StrV(s) => Ok(BoolV(|s| > 0))
       case BoolV(_) => Ok(v)
       case NullV => Ok(BoolV(false)))
  }

  /** A value already of the expected type. */
  predicate HasKind(k: Kind, v: Value)
  {
    match k
    case IntKind => v.IntV?
    case StrKind => v.StrV?
    case BoolKind => v.BoolV?
  }

  /** A conversion that succeeds yields the expected type, and a value that has it
    * already is left as it is. */
  lemma ConvertKind(k: Kind, v: Value)
    ensures Convert(k, v).Ok? ==> HasKind(k, Convert(k, v).value)
    ensures HasKind(k, v) ==> Convert(k, v) == Ok(v)
    ensures Convert(k, v).Err? <==> k == IntKind && (v.NullV? || (v.StrV? && PyInt.IntBase0(v.s).Err?))
  {
  }

  /** An int key accepts the `0x` hex text of a number and the decimal text of one. */
  lemma ConvertIntText(n: nat, width: nat)
    ensures Convert(IntKind, StrV("0x" + PyInt.Hex(n, width))) == Ok(IntV(n))
    ensures Convert(IntKind, StrV(PyInt.Decimal(n))) == Ok(IntV(n))
  {
    PyInt.HexRoundTrip(n, width);
    PyInt.DecimalRoundTrip(n);
  }

  /** The entry agrees with the specification: every key is in it and every value has
    * the type it names. */
  predicate Typed(spec: Option<Spec>, e: Entry)
  {
    DistinctKeys(e) &&
    forall i :: 0 <= i < |e| ==> spec.Some? && e[i].key in spec.value && HasKind(spec.value[e[i].key], e[i].val)
  }

  /** Why a single field is refused, if it is. */
  function FieldCheck(spec: Option<Spec>, f: Field): Result<Value>
  {
    if spec.None? then Err(TypeError)
    else if f.key !in spec.value then Err(KeyError)
    else Convert(spec.value[f.key], f.val)
  }

  /** `_process_entry`: each key in order is looked up in the specification (KeyError
    * when it is not there; TypeError when the Operation has no specification) and its
    * value converted; the first failure is raised. */
  function Processed(spec: Option<Spec>, e: Entry): Result<Entry>
  {
    if |e| == 0 then Ok([])
    else
      match FieldCheck(spec, e[0])
      case Err(x) => Err(x)
      case Ok(v) =>
        match Processed(spec, e[1..])
        case Err(x) => Err(x)
        case Ok(rest) => Ok([Field(e[0].key, v)] + rest)
  }

  /** A processed entry keeps the keys in their order, each with its converted value. */
  lemma {:induction false} ProcessedShape(spec: Option<Spec>, e: Entry)
    requires Processed(spec, e).Ok?
    ensures |Processed(spec, e).value| == |e|
    ensures forall i :: 0 <= i < |e| ==>
      Processed(spec, e).value[i].key == e[i].key && FieldCheck(spec, e[i]) == Ok(Processed(spec, e).value[i].val)
  {
    if |e| > 0 {
      ProcessedShape(spec, e[1..]);
      assert forall i :: 0 < i < |e| ==> e[i] == e[1..][i - 1];
    }
  }

  /** Processing succeeds exactly when every field passes, and its result agrees with
    * the specification. */
  lemma {:induction false} ProcessedOk(spec: Option<Spec>, e: Entry)
    ensures Processed(spec, e).Ok? <==> forall i :: 0 <= i < |e| ==> FieldCheck(spec, e[i]).Ok?
    ensures DistinctKeys(e) && Processed(spec, e).Ok? ==> Typed(spec, Processed(spec, e).value)
  {
    if |e| > 0 {
      ProcessedOk(spec, e[1..]);
      assert forall i :: 0 < i < |e| ==> e[i] == e[1..][i - 1];
      var r := Processed(spec, e);
      if r.Ok? {
        ProcessedShape(spec, e);
        forall i | 0 <= i < |e|
          ensures spec.Some? && r.value[i].key in spec.value && HasKind(spec.value[r.value[i].key], r.value[i].val)
        {
          ConvertKind(spec.value[e[i].key], e[i].val);
        }
      }
    }
  }

  /** The first field that fails decides the exception raised. */
  lemma {:induction false} ProcessedFirstFailure(spec: Option<Spec>, e: Entry, i: nat)
    requires i < |e| && FieldCheck(spec, e[i]).Err?
    requires forall j :: 0 <= j < i ==> FieldCheck(spec, e[j]).Ok?
    ensures Processed(spec, e) == Err(FieldCheck(spec, e[i]).error)
  {
    if i > 0 {
      assert forall j :: 0 <= j < i - 1 ==> e[1..][j] == e[j + 1];
      ProcessedFirstFailure(spec, e[1..], i - 1);
    }
  }

  /** An entry that already agrees with the specification is left as it is. */
  lemma {:induction false} ProcessedTyped(spec: Option<Spec>, e: Entry)
    requires Typed(spec, e)
    ensures Processed(spec, e) == Ok(e)
  {
    if |e| > 0 {
      var f := e[0];
      assert spec.Some? && f.key in spec.value;
      ConvertKind(spec.value[f.key], f.val);
      assert Typed(spec, e[1..]);
      ProcessedTyped(spec, e[1..]);
      assert e == [Field(e[0].key, e[0].val)] + e[1..];
    }
  }

  /** The argument of `append`: one entry (None for an empty one) or a list of them. */
  datatype AppendArg = One(entry: Option<Entry>) | Many(entries: seq<Option<Entry>>)

  /** The entry `append` builds from a dictionary (a copy, or `{}` for None) and the
    * keyword arguments. */
  function Built(entry: Option<Entry>, kwargs: Entry): Entry
  {
    Merge(if entry.Some? then entry.value else [], kwargs)
  }

  /** `append` of a list: each element in order, stopping at the first that raises;
    * what was appended before it stays. */
  function AppendAll(spec: Option<Spec>, es: seq<Option<Entry>>): (seq<Option<Entry>>, Option<Error>)
  {
    if |es| == 0 then ([], None)
    else
      match Processed(spec, Built(es[0], []))
      case Err(x) => ([], Some(x))
      case Ok(p) =>
        var r := AppendAll(spec, es[1..]);
        ([Some(p)] + r.0, r.1)
  }

  /** A list argument appends the processed elements before the first that raises,
    * and raises what it raises; without one, all of them. */
  lemma {:induction false} AppendAllShape(spec: Option<Spec>, es: seq<Option<Entry>>)
    ensures var r := AppendAll(spec, es);
      && |r.0| <= |es|
      && (r.1.None? <==> |r.0| == |es|)
      && (forall i :: 0 <= i < |r.0| ==>
            Processed(spec, Built(es[i], [])).Ok? && r.0[i] == Some(Processed(spec, Built(es[i], [])).value))
      && (r.1.Some? ==> Processed(spec, Built(es[|r.0|], [])) == Err(r.1.value))
  {
    if |es| > 0 {
      AppendAllShape(spec, es[1..]);
      assert forall i :: 0 < i < |es| ==> es[i] == es[1..][i - 1];
    }
  }

  /** The number of operations one entry stands for: its `iterations`, or 1. */
  function EntryOps(e: Option<Entry>): Result<int>
  {
    match e
    case None => Err(TypeError)
    case Some(d) =>
      match Get(d, "iterations")
      case None => Ok(1)
      case Some(IntV(n)) => Ok(n)
      case Some(BoolV(b)) => Ok(if b then 1 else 0)
      case Some(_) => Err(TypeError)
  }

  /** `total_operations` over the first entries, failing at the first unfilled slot or
    * non-numeric `iterations`. */
  function TotalOps(l: seq<Option<Entry>>): Result<int>
  {
    if |l| == 0 then Ok(0)
    else
      match TotalOps(l[..|l| - 1])
      case Err(x) => Err(x)
      case Ok(c) =>
        match EntryOps(l[|l| - 1])
        case Err(x) => Err(x)
        case Ok(k) => Ok(c + k)
  }

  /** The first failure decides the result. */
  lemma {:induction false} TotalOpsErr(l: seq<Option<Entry>>, i: nat)
    requires i <= |l| && TotalOps(l[..i]).Err?
    ensures TotalOps(l) == TotalOps(l[..i])
    decreases |l|
  {
    if i < |l| {
      assert l[..|l| - 1][..i] == l[..i];
      TotalOpsErr(l[..|l| - 1], i);
    } else {
      assert l[..i] == l;
    }
  }

  /** Without `iterations` keys, every entry counts once. */
  lemma {:induction false} TotalOpsPlain(l: seq<Option<Entry>>)
    requires forall i :: 0 <= i < |l| ==> l[i].Some? && Get(l[i].value, "iterations").None?
    ensures TotalOps(l) == Ok(|l|)
  {
    if |l| > 0 {
      assert forall i :: 0 <= i < |l| - 1 ==> l[..|l| - 1][i] == l[i];
      TotalOpsPlain(l[..|l| - 1]);
      assert EntryOps(l[|l| - 1]) == Ok(1);
    }
  }

  /** The total of two lists joined is the sum of their totals. */
  lemma {:induction false} TotalOpsConcat(a: seq<Option<Entry>>, b: seq<Option<Entry>>)
    requires TotalOps(a).Ok? && TotalOps(b).Ok?
    ensures TotalOps(a + b) == Ok(TotalOps(a).value + TotalOps(b).value)
    decreases |b|
  {
    if |b| == 0 {
      assert a + b == a;
    } else {
      assert (a + b)[..|a + b| - 1] == a + b[..|b| - 1];
      assert TotalOps(b[..|b| - 1]).Ok?;
      TotalOpsConcat(a, b[..|b| - 1]);
    }
  }

  /** `index` as Python reads a list index: negative counts from the end. */
  function Slot(index: int, n: nat): Option<nat>
  {
    if 0 <= index < n then Some(index) else if -(n as int) <= index < 0 then Some(index + n) else None
  }

  /** A Stratagem: the Operation it is for, that Operation's specification, and the
    * entries (None for a preallocated slot not yet set). */
  class Stratagem {
    const op: string
    const spec: Option<Spec>
    var list: seq<Option<Entry>>
    var comment: Json
    var timestamp: Json

    /** Every stored entry has been processed against the specification. */
    ghost predicate Valid()
      reads this
    {
      forall i :: 0 <= i < |list| ==> list[i].Some? ==> Typed(spec, list[i].value)
    }

    /** A positive capacity preallocates that many empty slots. */
    constructor (opClass: OpClass, capacity: int, comment: Json, timestamp: Json)
      ensures op == opClass.name && spec == opClass.spec
      ensures list == if capacity > 0 then seq(capacity, _ => None) else []
      ensures this.comment == comment && this.timestamp == timestamp
      ensures Valid()
    {
      op := opClass.name;
      spec := opClass.spec;
      list := if capacity > 0 then seq(capacity, _ => None) else [];
      this.comment := comment;
      this.timestamp := timestamp;
    }

    /** `__getitem__`: a copy of the entry at `index`, or IndexError. */
    function GetItem(index: int): (r: Result<Option<Entry>>)
      reads this
      ensures r.Ok? <==> -|list| <= index < |list|
      ensures r.Err? ==> r.error == IndexError
    {
      match Slot(index, |list|)
      case None => Err(IndexError)
      case Some(i) => Ok(list[i])
    }

    /** `entries()`: a copy of each entry in order. */
    function Entries(): (r: seq<Option<Entry>>)
      reads this
      ensures |r| == |list|
      ensures forall i :: 0 <= i < |r| ==> GetItem(i) == Ok(r[i]) && GetItem(i - |r|) == Ok(r[i])
    {
      list
    }

    /** `_process_entry`: the conversion loop over the entry's keys. */
    method ProcessEntry(entry: Entry) returns (r: Result<Entry>)
      ensures r == Processed(spec, entry)
    {
      var out := entry;
      var i := 0;
      assert entry[0..] == entry && out[..0] == [];
      JoinedEmpty(Processed(spec, entry));
      while i < |out|
        invariant 0 <= i <= |out| == |entry|
        invariant out[i..] == entry[i..]
        invariant Processed(spec, entry) == Joined(out[..i], Processed(spec, entry[i..]))
      {
        var f := out[i];
        ProcessedStep(spec, entry[i..]);
        assert entry[i..][0] == f && entry[i..][1..] == entry[i + 1..];
        var c := FieldCheck(spec, f);
        if c.Err? {
          assert Processed(spec, entry) == Joined(out[..i], Err(c.error));
          return Err(c.error);
        }
        var g := Field(f.key, c.value);
        JoinedAssoc(out[..i], [g], Processed(spec, entry[i + 1..]));
        ghost var prev := out;
        out := out[i := g];
        assert out[..i + 1] == prev[..i] + [g];
        assert out[i + 1..] == prev[i + 1..] == prev[i..][1..];
        i := i + 1;
      }
      assert out[..i] == out && entry[i..] == [] && out + [] == out;
      return Ok(out);
    }

    /** Appends one entry built from a dictionary and keyword arguments. */
    method AppendEntry(entry: Option<Entry>, kwargs: Entry) returns (err: Option<Error>)
      requires Valid() && (entry.Some? ==> DistinctKeys(entry.value))
      modifies this
      ensures Valid() && comment == old(comment) && timestamp == old(timestamp)
      ensures var p := Processed(spec, Built(entry, kwargs));
        (p.Ok? ==> err.None? && list == old(list) + [Some(p.value)]) &&
        (p.Err? ==> err == Some(p.error) && list == old(list))
    {
      var e := Built(entry, kwargs);
      var p := ProcessEntry(e);
      if p.Err? {
        return Some(p.error);
      }
      ProcessedDistinct(entry, kwargs);
      ProcessedOk(spec, e);
      list := list + [Some(p.value)];
      return None;
    }

    /** `append`: a list argument appends each of its elements in order and ignores the
      * keyword arguments. */
    method Append(arg: AppendArg, kwargs: Entry) returns (err: Option<Error>)
      requires Valid() && ArgIsDicts(arg)
      modifies this
      ensures Valid() && comment == old(comment) && timestamp == old(timestamp)
      ensures arg.One? ==> var p := Processed(spec, Built(arg.entry, kwargs));
        (p.Ok? ==> err.None? && list == old(list) + [Some(p.value)]) &&
        (p.Err? ==> err == Some(p.error) && list == old(list))
      ensures arg.Many? ==> list == old(list) + AppendAll(spec, arg.entries).0 && err == AppendAll(spec, arg.entries).1
    {
      if arg.One? {
        err := AppendEntry(arg.entry, kwargs);
      } else {
        err := AppendMany(arg.entries);
      }
    }

    /** The loop over a list argument: what was appended before an element that raises
      * stays. */
    method AppendMany(es: seq<Option<Entry>>) returns (err: Option<Error>)
      requires Valid() && ArgIsDicts(Many(es))
      modifies this
      ensures Valid() && comment == old(comment) && timestamp == old(timestamp)
      ensures list == old(list) + AppendAll(spec, es).0 && err == AppendAll(spec, es).1
    {
      var i := 0;
      ghost var added: seq<Option<Entry>> := [];
      assert es[0..] == es;
      assert added + AppendAll(spec, es).0 == AppendAll(spec, es).0;
      while i < |es|
        invariant 0 <= i <= |es|
        invariant Valid() && comment == old(comment) && timestamp == old(timestamp)
        invariant list == old(list) + added
        invariant AppendAll(spec, es) == Prefixed(added, AppendAll(spec, es[i..]))
      {
        AppendManyStep(spec, es, i, added);
        ghost var before := list;
        err := AppendEntry(es[i], []);
        if err.Some? {
          return;
        }
        ghost var x := Some(Processed(spec, Built(es[i], [])).value);
        assert list == old(list) + (added + [x]);
        added := added + [x];
        i := i + 1;
      }
      assert es[i..] == [];
      assert added + [] == added;
      return None;
    }

    /** `__setitem__`: the entry is processed first, then stored at `index`; None, an
      * entry the specification refuses or an index out of range raise. */
    method SetItem(index: int, entry: Option<Entry>) returns (err: Option<Error>)
      requires Valid() && (entry.Some? ==> DistinctKeys(entry.value))
      modifies this
      ensures Valid() && comment == old(comment) && timestamp == old(timestamp)
      ensures entry.None? ==> err == Some(TypeError) && list == old(list)
      ensures entry.Some? && Processed(spec, entry.value).Err? ==> err == Some(Processed(spec, entry.value).error) && list == old(list)
      ensures entry.Some? && Processed(spec, entry.value).Ok? ==>
        if Slot(index, |old(list)|).None? then err == Some(IndexError) && list == old(list)
        else err.None? && list == old(list)[Slot(index, |old(list)|).value := Some(Processed(spec, entry.value).value)]
      ensures err.None? ==> entry.Some? && GetItem(index) == Ok(Some(Processed(spec, entry.value).value))
    {
      if entry.None? {
        return Some(TypeError);
      }
      var p := ProcessEntry(entry.value);
      if p.Err? {
        return Some(p.error);
      }
      var slot := Slot(index, |list|);
      if slot.None? {
        return Some(IndexError);
      }
      ProcessedOk(spec, entry.value);
      list := list[slot.value := Some(p.value)];
      return None;
    }

    /** `append(e)` for one element of `entries`: a list is appended element by element
      * (`AppendItems`); anything else is read as an entry, processed and added, or raises
      * what reading or processing it raises. */
    method AppendElement(j: Json) returns (err: Option<Error>)
      requires Valid()
      modifies this
      decreases j, 1
      ensures Valid() && comment == old(comment) && timestamp == old(timestamp)
      ensures var r := ElementItems(spec, j);
        (r.Ok? ==> err.None? && list == old(list) + r.value) &&
        (r.Err? ==> err == Some(r.error))
    {
      if j.JArr? {
        err := AppendItems(j.items);
        return;
      }
      var e := ItemEntry(spec, j);
      if e.Err? {
        return Some(e.error);
      }
      err := AppendEntry(e.value, []);
    }

    /** `append` for each element of a decoded JSON array, in order, as `from_json`
      * calls it: a nested array appends its own elements the same way. Without a
      * failure the processed entries are added to the list; otherwise the first
      * failure is raised (the entries appended before it stay). */
    method AppendItems(items: seq<Json>) returns (err: Option<Error>)
      requires Valid()
      modifies this
      decreases JArr(items), 0
      ensures Valid() && comment == old(comment) && timestamp == old(timestamp)
      ensures ParseItems(spec, items).Ok? ==> err.None? && list == old(list) + ParseItems(spec, items).value
      ensures ParseItems(spec, items).Err? ==> err == Some(ParseItems(spec, items).error)
    {
      var i := 0;
      ghost var added: seq<Option<Entry>> := [];
      assert items[0..] == items;
      PrependedEmpty(ParseItems(spec, items));
      while i < |items|
        invariant 0 <= i <= |items|
        invariant Valid() && comment == old(comment) && timestamp == old(timestamp)
        invariant list == old(list) + added
        invariant ParseItems(spec, items) == Prepended(added, ParseItems(spec, items[i..]))
      {
        PrependedStep(spec, items, i, added);
        err := AppendElement(items[i]);
        if err.Some? {
          return;
        }
        added := added + ElementItems(spec, items[i]).value;
        i := i + 1;
      }
      assert items[i..] == [];
      assert added + [] == added;
      return None;
    }

    /** `total_operations`: the loop summing each entry's operation count. */
    method TotalOperations() returns (r: Result<int>)
      ensures r == TotalOps(list)
    {
      var count := 0;
      var i := 0;
      while i < |list|
        invariant 0 <= i <= |list|
        invariant TotalOps(list[..i]) == Ok(count)
      {
        assert list[..i + 1][..i] == list[..i];
        var k := EntryOps(list[i]);
        if k.Err? {
          TotalOpsErr(list, i + 1);
          return Err(k.error);
        }
        count := count + k.value;
        i := i + 1;
      }
      assert list[..i] == list;
      return Ok(count);
    }

    /** `to_json`, as a document (the text formatting is not modelled). */
    function ToJson(version: string): (r: Result<Json>)
      reads this
      ensures r.Err? <==> spec.None?
    {
      if spec.None? then Err(TypeError)
      else Ok(Document(op, version, timestamp, comment, list))
    }
  }

  /** The outcome of a loop over a list's tail, given what the earlier iterations
    * produced. */
  function Joined(done: Entry, rest: Result<Entry>): Result<Entry>
  {
    match rest
    case Err(x) => Err(x)
    case Ok(r) => Ok(done + r)
  }

  function Prefixed(done: seq<Option<Entry>>, rest: (seq<Option<Entry>>, Option<Error>)): (seq<Option<Entry>>, Option<Error>)
  {
    (done + rest.0, rest.1)
  }

  /** One element of a list argument: it either raises, ending the appends with what
    * came before it, or adds its processed entry to them. */
  lemma AppendManyStep(spec: Option<Spec>, es: seq<Option<Entry>>, i: nat, added: seq<Option<Entry>>)
    requires i < |es| && AppendAll(spec, es) == Prefixed(added, AppendAll(spec, es[i..]))
    ensures var p := Processed(spec, Built(es[i], []));
      (p.Err? ==> AppendAll(spec, es) == (added, Some(p.error))) &&
      (p.Ok? ==> AppendAll(spec, es) == Prefixed(added + [Some(p.value)], AppendAll(spec, es[i + 1..])))
  {
    var t := es[i..];
    assert t[0] == es[i] && t[1..] == es[i + 1..];
    AppendAllStep(spec, t);
    var rest := AppendAll(spec, es[i + 1..]);
    var p := Processed(spec, Built(es[i], []));
    if p.Ok? {
      assert (added + [Some(p.value)]) + rest.0 == added + ([Some(p.value)] + rest.0);
    } else {
      assert added + [] == added;
    }
  }

  /** The arguments of `append` are Python dictionaries, whose keys are distinct. */
  predicate ArgIsDicts(arg: AppendArg)
  {
    match arg
    case One(e) => e.Some? ==> DistinctKeys(e.value)
    case Many(es) => forall i :: 0 <= i < |es| ==> es[i].Some? ==> DistinctKeys(es[i].value)
  }

  /** One iteration of the conversion loop. */
  lemma ProcessedStep(spec: Option<Spec>, t: Entry)
    requires |t| > 0
    ensures FieldCheck(spec, t[0]).Err? ==> Processed(spec, t) == Err(FieldCheck(spec, t[0]).error)
    ensures FieldCheck(spec, t[0]).Ok? ==>
      Processed(spec, t) == Joined([Field(t[0].key, FieldCheck(spec, t[0]).value)], Processed(spec, t[1..]))
  {
  }

  lemma JoinedEmpty(r: Result<Entry>)
    ensures Joined([], r) == r
  {
    if r.Ok? {
      assert [] + r.value == r.value;
    }
  }

  lemma JoinedAssoc(a: Entry, b: Entry, r: Result<Entry>)
    ensures Joined(a, Joined(b, r)) == Joined(a + b, r)
  {
    if r.Ok? {
      assert a + (b + r.value) == (a + b) + r.value;
    }
  }

  /** One iteration of the loop over a list argument. */
  lemma AppendAllStep(spec: Option<Spec>, t: seq<Option<Entry>>)
    requires |t| > 0
    ensures Processed(spec, Built(t[0], [])).Err? ==> AppendAll(spec, t) == ([], Some(Processed(spec, Built(t[0], [])).error))
    ensures Processed(spec, Built(t[0], [])).Ok? ==>
      AppendAll(spec, t) == Prefixed([Some(Processed(spec, Built(t[0], [])).value)], AppendAll(spec, t[1..]))
  {
  }

  lemma ProcessedDistinct(entry: Option<Entry>, kwargs: Entry)
    requires entry.Some? ==> DistinctKeys(entry.value)
    ensures DistinctKeys(Built(entry, kwargs))
  {
    MergeDistinct(if entry.Some? then entry.value else [], kwargs);
  }

  /** Merging keeps the keys distinct. */
  lemma {:induction false} MergeDistinct(e: Entry, kwargs: Entry)
    requires DistinctKeys(e)
    ensures DistinctKeys(Merge(e, kwargs))
  {
  }

  /** A JSON document as `json.loads` returns it. */
  datatype Json =
    | JNull
    | JBool(b: bool)
    | JInt(i: int)
    | JStr(s: string)
    | JArr(items: seq<Json>)
    | JObj(members: seq<Member>)

  datatype Member = Member(name: string, value: Json)

  function ValueJson(v: Value): Json
  {
    match v
    case IntV(i) => JInt(i)
    case StrV(s) => JStr(s)
    case BoolV(b) => JBool(b)
    case NullV => JNull
  }

  function EntryJson(e: Entry): (r: seq<Member>)
    ensures |r| == |e| && forall i :: 0 <= i < |e| ==> r[i] == Member(e[i].key, ValueJson(e[i].val))
  {
    if |e| == 0 then [] else [Member(e[0].key, ValueJson(e[0].val))] + EntryJson(e[1..])
  }

  function ListJson(l: seq<Option<Entry>>): (r: seq<Json>)
    ensures |r| == |l|
    ensures forall i :: 0 <= i < |l| ==> r[i] == if l[i].Some? then JObj(EntryJson(l[i].value)) else JNull
  {
    if |l| == 0 then [] else [if l[0].Some? then JObj(EntryJson(l[0].value)) else JNull] + ListJson(l[1..])
  }

  /** The object `to_json` serialises. */
  function Document(op: string, version: string, timestamp: Json, comment: Json, l: seq<Option<Entry>>): Json
  {
    JObj([Member("operation", JStr(op)), Member("depthcharge_version", JStr(version)),
          Member("timestamp", timestamp), Member("comment", comment), Member("entries", JArr(ListJson(l)))])
  }

  /** A member of a decoded object; `json.loads` keeps the last of a repeated name. */
  function Lookup(ms: seq<Member>, name: string): Option<Json>
  {
    if |ms| == 0 then None
    else if ms[|ms| - 1].name == name then Some(ms[|ms| - 1].value)
    else Lookup(ms[..|ms| - 1], name)
  }

  /** An entry value read from a document. */
  function JsonValue(j: Json): Result<Value>
  {
    match j
    case JNull => Ok(NullV)
    case JBool(b) => Ok(BoolV(b))
    case JInt(i) => Ok(IntV(i))
    case JStr(s) => Ok(StrV(s))
    case _ => Err(TypeError)
  }

  /** The dictionary `json.loads` builds from an object's members, in order. */
  function ObjectEntry(ms: seq<Member>): Result<Entry>
  {
    if |ms| == 0 then Ok([])
    else
      match ObjectEntry(ms[..|ms| - 1])
      case Err(x) => Err(x)
      case Ok(e) =>
        match JsonValue(ms[|ms| - 1].value)
        case Err(x) => Err(x)
        case Ok(v) => Ok(Put(e, ms[|ms| - 1].name, v))
  }

  /** A decoded object has distinct keys. */
  lemma {:induction false} ObjectEntryDistinct(ms: seq<Member>)
    ensures ObjectEntry(ms).Ok? ==> DistinctKeys(ObjectEntry(ms).value)
  {
    if |ms| > 0 {
      ObjectEntryDistinct(ms[..|ms| - 1]);
      if ObjectEntry(ms[..|ms| - 1]).Ok? && JsonValue(ms[|ms| - 1].value).Ok? {
        PutDistinct(ObjectEntry(ms[..|ms| - 1]).value, ms[|ms| - 1].name, JsonValue(ms[|ms| - 1].value).value);
      }
    }
  }

  /** An element of `entries` other than an array, as `append` takes it: an object is
    * a dictionary and null an empty entry. A string is iterated like a dictionary's
    * keys, so a non-empty one raises KeyError at its first character, or TypeError
    * when that character is a key of the specification (a string cannot be indexed
    * by a string); a number or a boolean cannot be iterated (TypeError). */
  function ItemEntry(spec: Option<Spec>, j: Json): (r: Result<Option<Entry>>)
    requires !j.JArr?
    ensures r.Ok? <==> j.JNull? || (j.JObj? && ObjectEntry(j.members).Ok?)
    ensures r.Ok? && r.value.Some? ==> DistinctKeys(r.value.value)
    ensures j.JStr? && |j.s| > 0 ==>
      r == Err(if spec.Some? && [j.s[0]] !in spec.value then KeyError else TypeError)
  {
    match j
    case JObj(ms) =>
      ObjectEntryDistinct(ms);
      (match ObjectEntry(ms) case Ok(e) => Ok(Some(e)) case Err(x) => Err(x))
    case JNull => Ok(None)
    case JStr(str) =>
      if |str| > 0 && spec.Some? && [str[0]] !in spec.value then Err(KeyError) else Err(TypeError)
    case _ => Err(TypeError)
  }

  /** Appending one element that is not an array: the processed entry, or what
    * reading or processing it raises. */
  function AppendOne(spec: Option<Spec>, j: Json): Result<seq<Option<Entry>>>
    requires !j.JArr?
  {
    match ItemEntry(spec, j)
    case Err(x) => Err(x)
    case Ok(e) =>
      match Processed(spec, Built(e, []))
      case Err(x) => Err(x)
      case Ok(p) => Ok([Some(p)])
  }

  /** Two runs of appends, one after the other: the first failure is raised. */
  function Then(x: Result<seq<Option<Entry>>>, y: Result<seq<Option<Entry>>>): Result<seq<Option<Entry>>>
  {
    match x
    case Err(e) => Err(e)
    case Ok(a) =>
      match y
      case Err(e) => Err(e)
      case Ok(b) => Ok(a + b)
  }

  lemma ThenAssoc(x: Result<seq<Option<Entry>>>, y: Result<seq<Option<Entry>>>, z: Result<seq<Option<Entry>>>)
    ensures Then(Then(x, y), z) == Then(x, Then(y, z))
  {
    if x.Ok? && y.Ok? && z.Ok? {
      assert (x.value + y.value) + z.value == x.value + (y.value + z.value);
    }
  }

  /** `stratagem.append(entry)` for each element of `entries` in order: an array
    * appends its own elements the same way, one after another; the first failure is
    * raised. */
  function ParseItems(spec: Option<Spec>, items: seq<Json>): Result<seq<Option<Entry>>>
    decreases items
  {
    if |items| == 0 then Ok([])
    else
      Then(if items[0].JArr? then ParseItems(spec, items[0].items) else AppendOne(spec, items[0]),
           ParseItems(spec, items[1..]))
  }

  /** What one element of `entries` appends: a list its own elements, anything else one
    * entry. */
  function ElementItems(spec: Option<Spec>, j: Json): Result<seq<Option<Entry>>>
  {
    if j.JArr? then ParseItems(spec, j.items) else AppendOne(spec, j)
  }

  /** One step of the loop over the elements: after the `i`th, the entries it appends
    * join those already appended, and its failure is the failure of the whole. */
  lemma PrependedStep(spec: Option<Spec>, items: seq<Json>, i: nat, added: seq<Option<Entry>>)
    requires i < |items|
    ensures var h := ElementItems(spec, items[i]);
      (h.Ok? ==> Prepended(added, ParseItems(spec, items[i..])) ==
                 Prepended(added + h.value, ParseItems(spec, items[i + 1..]))) &&
      (h.Err? ==> Prepended(added, ParseItems(spec, items[i..])) == Err(h.error))
  {
    ItemsStep(spec, items, i);
    var h := ElementItems(spec, items[i]);
    if h.Ok? {
      PrependedCat(added, h.value, ParseItems(spec, items[i + 1..]));
    }
  }

  /** The elements from `i` on: the `i`th, then the rest. */
  lemma ItemsStep(spec: Option<Spec>, items: seq<Json>, i: nat)
    requires i < |items|
    ensures ParseItems(spec, items[i..]) ==
      Then(if items[i].JArr? then ParseItems(spec, items[i].items) else AppendOne(spec, items[i]),
           ParseItems(spec, items[i + 1..]))
  {
    assert items[i..][0] == items[i] && items[i..][1..] == items[i + 1..];
  }

  /** Appending two lists one after the other is appending their concatenation. */
  lemma {:induction false} ParseItemsAppend(spec: Option<Spec>, xs: seq<Json>, ys: seq<Json>)
    ensures ParseItems(spec, xs + ys) == Then(ParseItems(spec, xs), ParseItems(spec, ys))
    decreases |xs|
  {
    if |xs| == 0 {
      assert xs + ys == ys;
      var r := ParseItems(spec, ys);
      if r.Ok? {
        assert [] + r.value == r.value;
      }
    } else {
      assert (xs + ys)[0] == xs[0] && (xs + ys)[1..] == xs[1..] + ys;
      ParseItemsAppend(spec, xs[1..], ys);
      var h := if xs[0].JArr? then ParseItems(spec, xs[0].items) else AppendOne(spec, xs[0]);
      ThenAssoc(h, ParseItems(spec, xs[1..]), ParseItems(spec, ys));
    }
  }

  /** A nested array is flattened: its elements are appended where it stands. */
  lemma NestedFlattened(spec: Option<Spec>, xs: seq<Json>, ys: seq<Json>)
    ensures ParseItems(spec, [JArr(xs)] + ys) == ParseItems(spec, xs + ys)
  {
    assert ([JArr(xs)] + ys)[0] == JArr(xs) && ([JArr(xs)] + ys)[1..] == ys;
    ParseItemsAppend(spec, xs, ys);
  }

  /** The keys of an entry, in its order. */
  function Keys(e: Entry): (r: seq<string>)
    ensures |r| == |e| && forall i :: 0 <= i < |e| ==> r[i] == e[i].key
  {
    if |e| == 0 then [] else [e[0].key] + Keys(e[1..])
  }

  /** `e[k] = v` on a key already present keeps the keys as they are. */
  lemma {:induction false} PutKeys(e: Entry, k: string, v: Value)
    ensures Keys(Put(e, k, v)) == if k in Keys(e) then Keys(e) else Keys(e) + [k]
  {
    GetNone(e, k);
    if |e| > 0 && e[0].key != k {
      PutKeys(e[1..], k, v);
      assert k in Keys(e) <==> k in Keys(e[1..]);
      assert Keys(e) == [e[0].key] + Keys(e[1..]);
    }
  }

  /** The keys of a decoded object, as iterating the dictionary gives them: every
    * member's name once, where it first occurs. */
  function ObjectKeys(ms: seq<Member>): (r: seq<string>)
    ensures forall i :: 0 <= i < |ms| ==> ms[i].name in r
    ensures forall k :: k in r ==> Lookup(ms, k).Some?
    ensures forall i, j :: 0 <= i < j < |r| ==> r[i] != r[j]
  {
    if |ms| == 0 then []
    else
      var front := ObjectKeys(ms[..|ms| - 1]);
      assert forall i :: 0 <= i < |ms| - 1 ==> ms[i] == ms[..|ms| - 1][i];
      if ms[|ms| - 1].name in front then front else front + [ms[|ms| - 1].name]
  }

  /** The dictionary `json.loads` builds holds its keys in the order `ObjectKeys` gives. */
  lemma {:induction false} ObjectEntryKeys(ms: seq<Member>)
    ensures ObjectEntry(ms).Ok? ==> Keys(ObjectEntry(ms).value) == ObjectKeys(ms)
  {
    if |ms| > 0 {
      ObjectEntryKeys(ms[..|ms| - 1]);
      if ObjectEntry(ms).Ok? {
        var e := ObjectEntry(ms[..|ms| - 1]).value;
        PutKeys(e, ms[|ms| - 1].name, JsonValue(ms[|ms| - 1].value).value);
      }
    }
  }

  /** `for x in j`: an array gives its elements, a string its characters, each a
    * string of one character, and an object its keys; null, numbers and booleans
    * cannot be iterated. */
  function Iterated(j: Json): (r: Option<seq<Json>>)
    ensures r.None? <==> j.JNull? || j.JBool? || j.JInt?
    ensures j.JArr? ==> r == Some(j.items)
    ensures j.JStr? ==> (r.Some? && |r.value| == |j.s| &&
      forall i :: 0 <= i < |j.s| ==> r.value[i] == JStr([j.s[i]]))
    ensures j.JObj? ==> (r.Some? && |r.value| <= |j.members| &&
      (forall i :: 0 <= i < |r.value| ==> r.value[i].JStr? && Lookup(j.members, r.value[i].s).Some?) &&
      (forall i :: 0 <= i < |j.members| ==> JStr(j.members[i].name) in r.value))
  {
    match j
    case JArr(items) => Some(items)
    case JStr(s) => Some(seq(|s|, i requires 0 <= i < |s| => JStr([s[i]])))
    case JObj(ms) =>
      var ks := ObjectKeys(ms);
      KeysFewer(ms);
      var r := seq(|ks|, i requires 0 <= i < |ks| => JStr(ks[i]));
      assert forall i :: 0 <= i < |ms| ==> JStr(ms[i].name) in r by {
        forall i | 0 <= i < |ms|
          ensures JStr(ms[i].name) in r
        {
          var k :| 0 <= k < |ks| && ks[k] == ms[i].name;
          assert r[k] == JStr(ms[i].name);
        }
      }
      Some(r)
    case _ => None
  }

  /** An object has no more distinct keys than members. */
  lemma {:induction false} KeysFewer(ms: seq<Member>)
    ensures |ObjectKeys(ms)| <= |ms|
  {
    if |ms| > 0 {
      KeysFewer(ms[..|ms| - 1]);
    }
  }

  /** What `from_json` reads before it appends the entries: the Operation class named
    * by `operation` (looked up with `lookup`), `comment` and `timestamp` (default
    * empty), and the `entries` array. */
  datatype Header = Header(opClass: OpClass, comment: Json, timestamp: Json, items: seq<Json>)

  function ReadHeader(doc: Json, lookup: string -> Option<OpClass>): (r: Result<Header>)
    ensures r.Ok? ==> r.value.opClass.spec.Some?
    ensures r.Ok? ==> (doc.JObj? && Lookup(doc.members, "entries").Some? &&
      Iterated(Lookup(doc.members, "entries").value) == Some(r.value.items))
  {
    if !doc.JObj? then Err(TypeError)
    else
      match Lookup(doc.members, "operation")
      // The handler for the missing key reads the name it failed to bind.
      case None => Err(NameError)
      case Some(JStr(name)) =>
        (match lookup(name)
         case None => Err(ValueError)
         case Some(c) =>
           if c.spec.None? then Err(StratagemNotRequired)
           else
             var comment := match Lookup(doc.members, "comment") case Some(j) => j case None => JStr("");
             var timestamp := match Lookup(doc.members, "timestamp") case Some(j) => j case None => JStr("");
             match Lookup(doc.members, "entries")
             case None => Err(KeyError)
             case Some(e) =>
               match Iterated(e)
               case None => Err(TypeError)
               case Some(items) => Ok(Header(c, comment, timestamp, items)))
      // Arrays and objects cannot be dictionary keys; other values have no `lower`.
      case Some(JArr(_)) => Err(TypeError)
      case Some(JObj(_)) => Err(TypeError)
      case Some(_) => Err(AttributeError)
  }

  /** The state of the Stratagem `from_json` returns. */
  datatype Parsed = Parsed(op: string, spec: Spec, list: seq<Option<Entry>>, comment: Json, timestamp: Json)

  function Parse(doc: Json, lookup: string -> Option<OpClass>): Result<Parsed>
  {
    match ReadHeader(doc, lookup)
    case Err(x) => Err(x)
    case Ok(h) =>
      match ParseItems(h.opClass.spec, h.items)
      case Err(x) => Err(x)
      case Ok(l) => Ok(Parsed(h.opClass.name, h.opClass.spec.value, l, h.comment, h.timestamp))
  }

  /** `for entry in tmp['entries']` with a named Operation that has a specification:
    * a value that cannot be iterated is TypeError; an empty string or object appends
    * nothing; a non-empty string appends its first character, a string, which raises
    * KeyError unless the specification has that character as a key (then TypeError);
    * a non-empty object does the same with its first key. */
  lemma EntriesIterated(doc: Json, lookup: string -> Option<OpClass>, name: string, c: OpClass, e: Json)
    requires doc.JObj? && Lookup(doc.members, "operation") == Some(JStr(name))
    requires lookup(name) == Some(c) && c.spec.Some?
    requires Lookup(doc.members, "entries") == Some(e)
    ensures (e.JNull? || e.JBool? || e.JInt?) ==> Parse(doc, lookup) == Err(TypeError)
    ensures (e == JStr([]) || e == JObj([])) ==> Parse(doc, lookup).Ok? && Parse(doc, lookup).value.list == []
    ensures e.JStr? && |e.s| > 0 ==>
      Parse(doc, lookup) == Err(if [e.s[0]] !in c.spec.value then KeyError else TypeError)
    ensures e.JObj? && |e.members| > 0 ==> (Parse(doc, lookup).Err? &&
      var k := ObjectKeys(e.members)[0];
      Parse(doc, lookup).error == if |k| > 0 && [k[0]] !in c.spec.value then KeyError else TypeError)
  {
    var h := ReadHeader(doc, lookup);
    if h.Ok? {
      assert h.value.items == Iterated(e).value;
      if (e.JStr? || e.JObj?) && |h.value.items| > 0 {
        var x := h.value.items[0];
        assert x.JStr?;
        assert ParseItems(c.spec, h.value.items) == Then(AppendOne(c.spec, x), ParseItems(c.spec, h.value.items[1..]));
        assert AppendOne(c.spec, x) == Err(if |x.s| > 0 && [x.s[0]] !in c.spec.value then KeyError else TypeError);
        if e.JObj? {
          assert x == JStr(ObjectKeys(e.members)[0]);
        }
      }
    }
  }

  /** `from_json`: reads the header, then appends the entries one by one. */
  method FromJson(doc: Json, lookup: string -> Option<OpClass>) returns (r: Result<Stratagem>)
    ensures Parse(doc, lookup).Err? ==> r == Err(Parse(doc, lookup).error)
    ensures Parse(doc, lookup).Ok? ==> (
      r.Ok? && fresh(r.value) && r.value.Valid() &&
      var p := Parse(doc, lookup).value;
      r.value.op == p.op && r.value.spec == Some(p.spec) && r.value.list == p.list &&
      r.value.comment == p.comment && r.value.timestamp == p.timestamp)
  {
    var hr := ReadHeader(doc, lookup);
    if hr.Err? {
      return Err(hr.error);
    }
    var h := hr.value;
    var s := new Stratagem(h.opClass, -1, h.comment, h.timestamp);
    var err := s.AppendItems(h.items);
    if err.Some? {
      return Err(err.value);
    }
    assert s.list == [] + s.list;
    return Ok(s);
  }

  function Prepended(done: seq<Option<Entry>>, rest: Result<seq<Option<Entry>>>): Result<seq<Option<Entry>>>
  {
    match rest
    case Err(x) => Err(x)
    case Ok(r) => Ok(done + r)
  }

  lemma PrependedEmpty(rest: Result<seq<Option<Entry>>>)
    ensures Prepended([], rest) == rest
  {
    if rest.Ok? {
      assert [] + rest.value == rest.value;
    }
  }

  lemma PrependedCat(done: seq<Option<Entry>>, a: seq<Option<Entry>>, rest: Result<seq<Option<Entry>>>)
    ensures Prepended(done, Then(Ok(a), rest)) == Prepended(done + a, rest)
  {
    if rest.Ok? {
      assert done + (a + rest.value) == (done + a) + rest.value;
    }
  }

  /** An empty slot, as `to_json` writes it (null) and `from_json` reads it back (an
    * empty entry). */
  function Filled(l: seq<Option<Entry>>): (r: seq<Option<Entry>>)
    ensures |r| == |l| && forall i :: 0 <= i < |l| ==> r[i] == if l[i].Some? then l[i] else Some([])
  {
    if |l| == 0 then [] else [if l[0].Some? then l[0] else Some([])] + Filled(l[1..])
  }

  /** The members `from_json` reads are the ones `to_json` wrote. */
  lemma DocumentMembers(op: string, version: string, timestamp: Json, comment: Json, l: seq<Option<Entry>>)
    ensures var ms := Document(op, version, timestamp, comment, l).members;
      && Lookup(ms, "operation") == Some(JStr(op))
      && Lookup(ms, "comment") == Some(comment)
      && Lookup(ms, "timestamp") == Some(timestamp)
      && Lookup(ms, "entries") == Some(JArr(ListJson(l)))
  {
    var ms := Document(op, version, timestamp, comment, l).members;
    assert "operation"[0] == 'o' && "comment"[0] == 'c' && "timestamp"[0] == 't' && "entries"[0] == 'e';
    assert "depthcharge_version"[0] == 'd';
    assert ms[..4][..3] == ms[..3] && ms[..3][..2] == ms[..2] && ms[..2][..1] == ms[..1];
    assert Lookup(ms, "comment") == Lookup(ms[..4], "comment");
    assert Lookup(ms, "timestamp") == Lookup(ms[..3], "timestamp");
    assert Lookup(ms, "operation") == Lookup(ms[..4], "operation") == Lookup(ms[..3], "operation");
    assert Lookup(ms[..3], "operation") == Lookup(ms[..2], "operation") == Lookup(ms[..1], "operation");
  }

  /** Reading back the members written for an entry gives the entry. */
  lemma {:induction false} EntryRoundTrip(e: Entry)
    requires DistinctKeys(e)
    ensures ObjectEntry(EntryJson(e)) == Ok(e)
  {
    if |e| > 0 {
      var n := |e| - 1;
      var ms := EntryJson(e);
      assert ObjectEntry(ms[..n]) == Ok(e[..n]) by {
        assert ms[..n] == EntryJson(e[..n]);
        assert DistinctKeys(e[..n]);
        EntryRoundTrip(e[..n]);
      }
      ObjectEntrySnoc(ms, e[..n], e[n]);
      PutLast(e);
    }
  }

  lemma ObjectEntrySnoc(ms: seq<Member>, e: Entry, f: Field)
    requires |ms| > 0 && ObjectEntry(ms[..|ms| - 1]) == Ok(e) && ms[|ms| - 1] == Member(f.key, ValueJson(f.val))
    ensures ObjectEntry(ms) == Ok(Put(e, f.key, f.val))
  {
    assert JsonValue(ValueJson(f.val)) == Ok(f.val);
  }

  lemma PutLast(e: Entry)
    requires |e| > 0 && DistinctKeys(e)
    ensures Put(e[..|e| - 1], e[|e| - 1].key, e[|e| - 1].val) == e
  {
    var n := |e| - 1;
    GetNone(e[..n], e[n].key);
    assert e[..n] + [Field(e[n].key, e[n].val)] == e;
  }

  /** Reading back the entries written for a processed list gives the list, with empty
    * slots filled. */
  lemma {:induction false} ItemsRoundTrip(spec: Spec, l: seq<Option<Entry>>)
    requires forall i :: 0 <= i < |l| ==> l[i].Some? ==> Typed(Some(spec), l[i].value)
    ensures ParseItems(Some(spec), ListJson(l)) == Ok(Filled(l))
  {
    if |l| > 0 {
      var items := ListJson(l);
      assert items[1..] == ListJson(l[1..]);
      ItemsRoundTrip(spec, l[1..]);
      if l[0].Some? {
        EntryRoundTrip(l[0].value);
        ProcessedTyped(Some(spec), l[0].value);
      }
      assert Filled(l) == [Filled(l)[0]] + Filled(l[1..]);
    }
  }

  /** `from_json(to_json(s))` restores the operation, comment, timestamp and entries
    * of a Stratagem, given an Operation registry that maps its name to its class;
    * empty slots come back as empty entries. */
  lemma JsonRoundTrip(s: Stratagem, version: string, lookup: string -> Option<OpClass>)
    requires s.Valid() && s.spec.Some? && lookup(s.op) == Some(OpClass(s.op, s.spec))
    ensures s.ToJson(version).Ok?
    ensures Parse(s.ToJson(version).value, lookup) == Ok(Parsed(s.op, s.spec.value, Filled(s.list), s.comment, s.timestamp))
  {
    ItemsRoundTrip(s.spec.value, s.list);
    DocumentMembers(s.op, version, s.timestamp, s.comment, s.list);
  }
}
