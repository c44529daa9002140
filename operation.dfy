/** `depthcharge.operation`: the Stratagem specification shared by the Operations that
  * use one, the registry of Operation classes, the requirement checks on commands and
  * environment variables, and `OperationSet`, the per-kind collection of usable
  * Operation instances with its lookups and its choice of a default. */
module Operation {
  import opened Errors
  import Strat
  import Arch
  import PyStr

  // ---------------------------------------------------------------------------------
  // Operation._create_stratagem_spec

  /** The keys every Stratagem entry has, all integers. */
  function BaseSpec(): Strat.Spec
  {
    map["src_addr" := Strat.IntKind, "src_size" := Strat.IntKind, "dst_off" := Strat.IntKind]
  }

  /** `_create_stratagem_spec(**kwargs)`: the base specification updated by the keyword
    * arguments, which add keys or override the type of a base key. */
  function CreateStratagemSpec(kwargs: Strat.Spec): (r: Strat.Spec)
    ensures r.Keys == BaseSpec().Keys + kwargs.Keys
    ensures forall k :: k in kwargs ==> r[k] == kwargs[k]
    ensures forall k :: k in BaseSpec() && k !in kwargs ==> r[k] == Strat.IntKind
  {
    BaseSpec() + kwargs
  }

  // ---------------------------------------------------------------------------------
  // Operation instances

  /** What the model keeps of an Operation: its class name, the rank it reports for the
    * call's keyword arguments, and for each key of its `_required` table whether the
    * value is truthy (True or a non-empty list or dict). */
  datatype Op = Op(name: string, rank: int, required: map<string, bool>)

  /** `value = op._required.get(item); if value: ...`. */
  predicate Requires(op: Op, item: string)
  {
    item in op.required && op.required[item]
  }

  /** Python's `a.lower() == b.lower()`. */
  predicate SameName(a: string, b: string)
  {
    PyStr.Lower(a) == PyStr.Lower(b)
  }

  lemma LowerTwice(s: string)
    ensures PyStr.Lower(PyStr.Lower(s)) == PyStr.Lower(s)
  {
  }

  /** The first name that matches `key` ignoring case. */
  function FirstNamed(names: seq<string>, key: string): (r: Option<nat>)
    ensures r.None? <==> forall i :: 0 <= i < |names| ==> !SameName(names[i], key)
    ensures r.Some? ==> r.value < |names| && SameName(names[r.value], key) &&
                        forall i :: 0 <= i < r.value ==> !SameName(names[i], key)
  {
    if |names| == 0 then None
    else if SameName(names[0], key) then Some(0)
    else
      match FirstNamed(names[1..], key)
      case None => None
      case Some(i) => Some(i + 1)
  }

  /** The first match is at `i` when `i` matches and nothing before it does. */
  lemma FirstNamedAt(names: seq<string>, key: string, i: nat)
    requires i < |names| && SameName(names[i], key)
    requires forall k :: 0 <= k < i ==> !SameName(names[k], key)
    ensures FirstNamed(names, key) == Some(i)
  {
    var r := FirstNamed(names, key);
    assert r.Some?;
    assert r.value <= i;
  }

  /** Nothing matches when no name does. */
  lemma FirstNamedNone(names: seq<string>, key: string)
    requires forall k :: 0 <= k < |names| ==> !SameName(names[k], key)
    ensures FirstNamed(names, key) == None
  {
  }

  // ---------------------------------------------------------------------------------
  // Operation.register / get_implementation

  /** The registry `_registered_ops`: class names in the order they were first
    * registered (a dict keeps that order), and the class registered under each. */
  datatype Registry = Registry(names: seq<string>, ops: map<string, Op>)

  ghost predicate RegistryValid(reg: Registry)
  {
    (forall i, j :: 0 <= i < j < |reg.names| ==> reg.names[i] != reg.names[j]) &&
    (forall n :: n in reg.ops <==> n in reg.names) &&
    forall n :: n in reg.ops ==> reg.ops[n].name == n
  }

  /** `register(op)`: stores the class under its name; a name registered again keeps its
    * place and takes the new class. */
  function Register(reg: Registry, op: Op): (r: Registry)
    requires RegistryValid(reg)
    ensures RegistryValid(r)
    ensures r.ops == reg.ops[op.name := op]
    ensures r.names == if op.name in reg.ops then reg.names else reg.names + [op.name]
  {
    if op.name in reg.ops then Registry(reg.names, reg.ops[op.name := op])
    else Registry(reg.names + [op.name], reg.ops[op.name := op])
  }

  /** `get_implementation(name)`: the class registered under exactly `name`, else the
    * first registered whose name matches ignoring case, else KeyError. */
  function GetImplementation(reg: Registry, name: string): (r: Result<Op>)
    requires RegistryValid(reg)
    ensures name in reg.ops ==> r == Ok(reg.ops[name])
    ensures r.Ok? ==> r.value in reg.ops.Values && SameName(r.value.name, name)
    ensures r.Err? ==> r.error == KeyError
  {
    if name in reg.ops then Ok(reg.ops[name])
    else
      match FirstNamed(reg.names, name)
      case None => Err(KeyError)
      case Some(i) => Ok(reg.ops[reg.names[i]])
  }

  /** The lookup finds a class exactly when one is registered under a name equal to
    * `name` ignoring case, prefers the exact name, and otherwise takes the first
    * registered of those that match. */
  lemma GetImplementationMeaning(reg: Registry, name: string)
    requires RegistryValid(reg)
    ensures GetImplementation(reg, name).Ok? <==> exists i :: 0 <= i < |reg.names| && SameName(reg.names[i], name)
    ensures GetImplementation(reg, name).Err? ==> GetImplementation(reg, name).error == KeyError
    ensures name in reg.ops ==> GetImplementation(reg, name) == Ok(reg.ops[name])
    ensures GetImplementation(reg, name).Ok? ==> SameName(GetImplementation(reg, name).value.name, name)
  {
    if name in reg.ops {
      var i :| 0 <= i < |reg.names| && reg.names[i] == name;
      assert SameName(reg.names[i], name);
    }
  }

  /** A registered class is found under its own name and under any spelling of it that
    * differs only in case and matches no class registered earlier. */
  lemma RegisterThenGet(reg: Registry, op: Op)
    requires RegistryValid(reg)
    ensures GetImplementation(Register(reg, op), op.name) == Ok(op)
  {
  }

  // ---------------------------------------------------------------------------------
  // Operation.check_requirements: commands and environment variables

  /** An entry of `_required['commands']`: one command, or a tuple of which any one will
    * do. */
  datatype CmdReq = Needs(cmd: string) | AnyOf(cmds: seq<string>)

  /** The members of a tuple that the target has, in the tuple's order. */
  function Acceptable(cs: seq<string>, have: set<string>): (r: seq<string>)
    ensures forall c :: c in r <==> c in cs && c in have
  {
    if |cs| == 0 then []
    else (if cs[0] in have then [cs[0]] else []) + Acceptable(cs[1..], have)
  }

  /** A requirement the target's commands meet. */
  predicate Meets(q: CmdReq, have: set<string>)
  {
    match q
    case Needs(c) => c in have
    case AnyOf(cs) => exists c :: c in cs && c in have
  }

  /** What a met requirement contributes to `s['commands']`. */
  function Found(q: CmdReq, have: set<string>): seq<string>
  {
    match q
    case Needs(c) => [c]
    case AnyOf(cs) => Acceptable(cs, have)
  }

  /** The commands loop over the first requirements: the commands found, or
    * OperationNotSupported at the first requirement not met. */
  function CommandsFound(reqs: seq<CmdReq>, have: set<string>): Result<seq<string>>
  {
    if |reqs| == 0 then Ok([])
    else
      match CommandsFound(reqs[..|reqs| - 1], have)
      case Err(x) => Err(x)
      case Ok(found) =>
        if Meets(reqs[|reqs| - 1], have) then Ok(found + Found(reqs[|reqs| - 1], have))
        else Err(OperationNotSupported)
  }

  /** The only exception the commands check raises is OperationNotSupported. */
  lemma {:induction false} CommandsFoundErrKind(reqs: seq<CmdReq>, have: set<string>)
    ensures CommandsFound(reqs, have).Err? ==> CommandsFound(reqs, have).error == OperationNotSupported
  {
    if |reqs| > 0 {
      CommandsFoundErrKind(reqs[..|reqs| - 1], have);
    }
  }

  /** A requirement that is not met makes the check raise OperationNotSupported. */
  lemma {:induction false} CommandsFoundFails(reqs: seq<CmdReq>, have: set<string>, k: nat)
    requires k < |reqs| && !Meets(reqs[k], have)
    ensures CommandsFound(reqs, have) == Err(OperationNotSupported)
  {
    var init := reqs[..|reqs| - 1];
    if k < |init| {
      assert init[k] == reqs[k];
      CommandsFoundFails(init, have, k);
    } else {
      CommandsFoundErrKind(init, have);
    }
  }

  /** When every requirement is met, the check passes. */
  lemma {:induction false} CommandsFoundPasses(reqs: seq<CmdReq>, have: set<string>)
    requires forall k :: 0 <= k < |reqs| ==> Meets(reqs[k], have)
    ensures CommandsFound(reqs, have).Ok?
  {
    if |reqs| > 0 {
      var init := reqs[..|reqs| - 1];
      assert forall k :: 0 <= k < |init| ==> init[k] == reqs[k];
      CommandsFoundPasses(init, have);
    }
  }

  /** Every command the check reports is one the target has. */
  lemma {:induction false} CommandsFoundHave(reqs: seq<CmdReq>, have: set<string>)
    requires CommandsFound(reqs, have).Ok?
    ensures forall c :: c in CommandsFound(reqs, have).value ==> c in have
  {
    if |reqs| > 0 {
      var init := reqs[..|reqs| - 1];
      var q := reqs[|reqs| - 1];
      CommandsFoundHave(init, have);
      var found := CommandsFound(init, have).value;
      assert CommandsFound(reqs, have).value == found + Found(q, have);
      forall c | c in found + Found(q, have)
        ensures c in have
      {
        if c !in found {
          assert c in Found(q, have);
        }
      }
    }
  }

  /** The commands part of `check_requirements` (lines 263-279). */
  method CheckCommands(reqs: seq<CmdReq>, have: set<string>) returns (r: Result<seq<string>>)
    ensures r == CommandsFound(reqs, have)
  {
    var found: seq<string> := [];
    for i := 0 to |reqs|
      invariant CommandsFound(reqs[..i], have) == Ok(found)
    {
      assert reqs[..i + 1][..i] == reqs[..i];
      var q := reqs[i];
      match q {
        case AnyOf(cs) =>
          var acceptable := Acceptable(cs, have);
          if |acceptable| == 0 {
            assert !Meets(q, have);
            assert CommandsFound(reqs[..i + 1], have) == Err(OperationNotSupported);
            CommandsFoundPrefix(reqs, have, i + 1);
            return Err(OperationNotSupported);
          }
          assert acceptable[0] in cs && acceptable[0] in have;
          found := found + acceptable;
        case Needs(c) =>
          if c !in have {
            assert CommandsFound(reqs[..i + 1], have) == Err(OperationNotSupported);
            CommandsFoundPrefix(reqs, have, i + 1);
            return Err(OperationNotSupported);
          }
          found := found + [c];
      }
    }
    assert reqs[..|reqs|] == reqs;
    r := Ok(found);
  }

  /** Once a prefix of the requirements fails, the whole check fails the same way. */
  lemma {:induction false} CommandsFoundPrefix(reqs: seq<CmdReq>, have: set<string>, n: nat)
    requires n <= |reqs| && CommandsFound(reqs[..n], have).Err?
    ensures CommandsFound(reqs, have) == CommandsFound(reqs[..n], have)
    decreases |reqs|
  {
    if n < |reqs| {
      assert reqs[..|reqs| - 1][..n] == reqs[..n];
      CommandsFoundPrefix(reqs[..|reqs| - 1], have, n);
    } else {
      assert reqs[..n] == reqs;
    }
  }

  /** The environment variable part of `check_requirements` (lines 288-292): every
    * required variable must be defined; the first missing one raises
    * OperationNotSupported. */
  method CheckVariables(vars: seq<string>, env: set<string>) returns (r: Result<seq<string>>)
    ensures r.Ok? <==> forall k :: 0 <= k < |vars| ==> vars[k] in env
    ensures r.Ok? ==> r.value == vars
    ensures r.Err? ==> r.error == OperationNotSupported
  {
    var found: seq<string> := [];
    for i := 0 to |vars|
      invariant found == vars[..i]
      invariant forall k :: 0 <= k < i ==> vars[k] in env
    {
      if vars[i] !in env {
        return Err(OperationNotSupported);
      }
      found := found + [vars[i]];
    }
    assert vars[..|vars|] == vars;
    r := Ok(found);
  }

  // ---------------------------------------------------------------------------------
  // OperationSet

  /** `OperationSet`: the names of the added instances in the order they were added,
    * and the instance under each name. */
  class OperationSet {
    var names: seq<string>
    var obj: map<string, Op>
    const suffix: Option<string>

    /** The names are distinct, are exactly the keys, and each key is its instance's
      * name. */
    ghost predicate Valid()
      reads this
    {
      RegistryValid(Registry(names, obj))
    }

    constructor (suffix: Option<string>)
      ensures names == [] && obj == map[] && this.suffix == suffix
      ensures Valid()
    {
      names := [];
      obj := map[];
      this.suffix := suffix;
    }

    /** `__iter__`: the instances in the order they were added. */
    function Items(): (r: seq<Op>)
      reads this
      requires Valid()
      ensures |r| == |names|
      ensures forall i :: 0 <= i < |r| ==> r[i] == obj[names[i]] && r[i].name == names[i]
    {
      var ns, o := names, obj;
      seq(|ns|, i requires 0 <= i < |ns| && ns[i] in o => o[ns[i]])
    }

    /** `__getitem__` with a str: KeyError for a name not in the set. */
    function GetByName(key: string): (r: Result<Op>)
      reads this
      requires Valid()
      ensures r.Ok? <==> key in names
      ensures r.Ok? ==> r.value.name == key
      ensures r.Err? ==> r.error == KeyError
    {
      if key in obj then Ok(obj[key]) else Err(KeyError)
    }

    /** `__getitem__` with an int: the instance added at that position, counting from
      * the end when negative; IndexError outside the list. */
    function GetByIndex(key: int): (r: Result<Op>)
      reads this
      requires Valid()
      ensures r.Ok? <==> -|names| <= key < |names|
      ensures r.Ok? ==> r.value == Items()[if key < 0 then key + |names| else key]
      ensures r.Err? ==> r.error == IndexError
    {
      match Strat.Slot(key, |names|)
      case None => Err(IndexError)
      case Some(i) => Ok(obj[names[i]])
    }

    /** `add(op)`: an instance whose name is already in the set is ignored; a new one
      * goes at the end. */
    method Add(op: Op)
      modifies this
      requires Valid()
      ensures Valid()
      ensures old(op.name in obj) ==> names == old(names) && obj == old(obj)
      ensures old(op.name !in obj) ==> names == old(names) + [op.name] && obj == old(obj)[op.name := op]
      ensures old(op.name !in obj) ==> Items() == old(Items()) + [op]
    {
      if op.name !in obj {
        names := names + [op.name];
        obj := obj[op.name := op];
      }
    }

    /** `_find_by_name(op_name, try_suffix)`: the first instance whose name matches
      * ignoring case, else (when allowed and there is a non-empty suffix) the first
      * matching the name with the suffix appended, else ValueError. */
    method FindByName(opName: string, trySuffix: bool) returns (r: Result<Op>)
      requires Valid()
      ensures r == ByName(Registry(names, obj), suffix, opName, trySuffix)
    {
      var lowered := PyStr.Lower(opName);
      for i := 0 to |names|
        invariant forall k :: 0 <= k < i ==> !SameName(names[k], opName)
      {
        if lowered == PyStr.Lower(names[i]) {
          FirstNamedAt(names, opName, i);
          return Ok(obj[names[i]]);
        }
      }
      FirstNamedNone(names, opName);
      if trySuffix && suffix.Some? && |suffix.value| != 0 {
        var key := lowered + suffix.value;
        var keyLower := PyStr.Lower(key);
        for i := 0 to |names|
          invariant forall k :: 0 <= k < i ==> !SameName(names[k], key)
        {
          if keyLower == PyStr.Lower(names[i]) {
            FirstNamedAt(names, key, i);
            return Ok(obj[names[i]]);
          }
        }
        FirstNamedNone(names, key);
      }
      return Err(ValueError);
    }

    /** `find` given a list of names (lines 456-470): the first entry found, each
      * looked up with the suffix allowed; ValueError when none is. */
    method FindAny(entries: seq<string>) returns (r: Result<Op>)
      requires Valid()
      ensures r == FirstFound(Registry(names, obj), suffix, entries)
    {
      for i := 0 to |entries|
        invariant FirstFound(Registry(names, obj), suffix, entries) ==
                  FirstFound(Registry(names, obj), suffix, entries[i..])
      {
        assert entries[i..][1..] == entries[i + 1..];
        var found := FindByName(entries[i], true);
        if found.Ok? {
          return found;
        }
      }
      return Err(ValueError);
    }

    /** `default(exclude=..., exclude_reqts=...)` with the requirement exclusion doing
      * what its documentation says: the instances not excluded and requiring none of
      * the listed items; of those, the first of the highest rank (a stable sort by
      * rank, highest first); OperationNotSupported when there are none. */
    method Default(exclude: seq<Op>, reqts: seq<string>) returns (r: Result<Op>)
      requires Valid()
      ensures r == Best(Candidates(Items(), exclude, reqts))
    {
      var items := Items();
      var candidates: seq<Op> := [];
      for i := 0 to |items|
        invariant candidates == Candidates(items[..i], exclude, reqts)
      {
        assert items[..i + 1][..i] == items[..i];
        var op := items[i];
        if op in exclude {
          continue;
        }
        var skip := RequiresAny(op, reqts);
        if skip {
          continue;
        }
        candidates := candidates + [op];
      }
      assert items[..|items|] == items;
      r := Best(candidates);
    }
  }

  /** The loop over `exclude_reqts` for one instance, as intended: does it require any
    * of the items? */
  method RequiresAny(op: Op, reqts: seq<string>) returns (b: bool)
    ensures b == RequiresSome(op, reqts)
  {
    b := false;
    for k := 0 to |reqts|
      invariant b == RequiresSome(op, reqts[..k])
    {
      assert reqts[..k + 1][..k] == reqts[..k];
      if reqts[k] in op.required && op.required[reqts[k]] {
        b := true;
      }
    }
    assert reqts[..|reqts|] == reqts;
  }

  /** Some item of `reqts` is a truthy requirement of `op`. */
  function RequiresSome(op: Op, reqts: seq<string>): (r: bool)
    ensures r <==> exists m :: 0 <= m < |reqts| && Requires(op, reqts[m])
  {
    if |reqts| == 0 then false
    else
      assert forall m :: 0 <= m < |reqts| - 1 ==> reqts[..|reqts| - 1][m] == reqts[m];
      RequiresSome(op, reqts[..|reqts| - 1]) || Requires(op, reqts[|reqts| - 1])
  }

  /** `_find_by_name` over a set's names and instances. */
  function ByName(set_: Registry, suffix: Option<string>, opName: string, trySuffix: bool): Result<Op>
    requires RegistryValid(set_)
  {
    match FirstNamed(set_.names, opName)
    case Some(i) => Ok(set_.ops[set_.names[i]])
    case None =>
      if trySuffix && suffix.Some? && |suffix.value| != 0 then
        match FirstNamed(set_.names, PyStr.Lower(opName) + suffix.value)
        case Some(i) => Ok(set_.ops[set_.names[i]])
        case None => Err(ValueError)
      else Err(ValueError)
  }

  /** Lookup by name ignores case: two spellings that differ only in case find the same
    * instance, and what is found has one of the names tried. */
  lemma ByNameIgnoresCase(set_: Registry, suffix: Option<string>, a: string, b: string, trySuffix: bool)
    requires RegistryValid(set_) && SameName(a, b)
    ensures ByName(set_, suffix, a, trySuffix) == ByName(set_, suffix, b, trySuffix)
    ensures ByName(set_, suffix, a, trySuffix).Ok? ==>
      SameName(ByName(set_, suffix, a, trySuffix).value.name, a) ||
      (trySuffix && suffix.Some? && SameName(ByName(set_, suffix, a, trySuffix).value.name, PyStr.Lower(a) + suffix.value))
    ensures ByName(set_, suffix, a, trySuffix).Err? ==> ByName(set_, suffix, a, trySuffix).error == ValueError
  {
    FirstNamedSame(set_.names, a, b);
    var f := FirstNamed(set_.names, a);
    if f.Some? {
      assert set_.names[f.value] in set_.ops;
    } else if trySuffix && suffix.Some? && |suffix.value| != 0 {
      assert PyStr.Lower(a) + suffix.value == PyStr.Lower(b) + suffix.value;
      var g := FirstNamed(set_.names, PyStr.Lower(a) + suffix.value);
      if g.Some? {
        assert set_.names[g.value] in set_.ops;
      }
    }
  }

  /** Two spellings that differ only in case match the same first name. */
  lemma {:induction false} FirstNamedSame(names: seq<string>, a: string, b: string)
    requires SameName(a, b)
    ensures FirstNamed(names, a) == FirstNamed(names, b)
  {
    if |names| > 0 {
      FirstNamedSame(names[1..], a, b);
    }
  }

  /** The first entry of a list of names that a lookup finds. */
  function FirstFound(set_: Registry, suffix: Option<string>, entries: seq<string>): Result<Op>
    requires RegistryValid(set_)
  {
    if |entries| == 0 then Err(ValueError)
    else
      match ByName(set_, suffix, entries[0], true)
      case Ok(op) => Ok(op)
      case Err(_) => FirstFound(set_, suffix, entries[1..])
  }

  /** Searching a list finds something exactly when some entry is found. */
  lemma {:induction false} FirstFoundOk(set_: Registry, suffix: Option<string>, entries: seq<string>)
    requires RegistryValid(set_)
    ensures FirstFound(set_, suffix, entries).Ok? <==>
      exists k :: 0 <= k < |entries| && ByName(set_, suffix, entries[k], true).Ok?
  {
    if |entries| > 0 {
      var tail := entries[1..];
      FirstFoundOk(set_, suffix, tail);
      if ByName(set_, suffix, entries[0], true).Err? {
        forall k | 0 < k < |entries|
          ensures entries[k] == tail[k - 1]
        {
        }
      }
    }
  }

  /** The result is what the first entry that is found finds. */
  lemma {:induction false} FirstFoundFirst(set_: Registry, suffix: Option<string>, entries: seq<string>, k: nat)
    requires RegistryValid(set_) && k < |entries| && ByName(set_, suffix, entries[k], true).Ok?
    requires forall m :: 0 <= m < k ==> ByName(set_, suffix, entries[m], true).Err?
    ensures FirstFound(set_, suffix, entries) == ByName(set_, suffix, entries[k], true)
    decreases k
  {
    if k > 0 {
      var tail := entries[1..];
      assert ByName(set_, suffix, entries[0], true).Err?;
      forall m | 0 <= m < k - 1
        ensures ByName(set_, suffix, tail[m], true).Err?
      {
        assert tail[m] == entries[m + 1];
      }
      FirstFoundFirst(set_, suffix, tail, k - 1);
    }
  }

  /** The loop of `default` as intended: the instances not excluded by identity and
    * requiring none of the listed items, in order. */
  function Candidates(ops: seq<Op>, exclude: seq<Op>, reqts: seq<string>): (r: seq<Op>)
    ensures forall c :: c in r <==> c in ops && c !in exclude && !RequiresSome(c, reqts)
  {
    if |ops| == 0 then []
    else
      var init := Candidates(ops[..|ops| - 1], exclude, reqts);
      var op := ops[|ops| - 1];
      assert forall c :: c in ops <==> c in ops[..|ops| - 1] || c == op;
      if op in exclude || RequiresSome(op, reqts) then init else init + [op]
  }

  /** `sorted(candidates, key=rank, reverse=True)[0]`: the first candidate of the highest
    * rank, or OperationNotSupported when there is none. */
  function Best(cands: seq<Op>): (r: Result<Op>)
    ensures r.Err? <==> |cands| == 0
    ensures r.Err? ==> r.error == OperationNotSupported
    ensures r.Ok? ==> exists k :: (0 <= k < |cands| && r.value == cands[k] &&
                                   (forall m :: 0 <= m < |cands| ==> cands[m].rank <= r.value.rank) &&
                                   (forall m :: 0 <= m < k ==> cands[m].rank < r.value.rank))
  {
    if |cands| == 0 then Err(OperationNotSupported)
    else
      match Best(cands[1..])
      case Err(_) => Ok(cands[0])
      case Ok(b) =>
        if b.rank > cands[0].rank then
          (ghost var k :| 0 <= k < |cands[1..]| && b == cands[1..][k] &&
             (forall m :: 0 <= m < |cands[1..]| ==> cands[1..][m].rank <= b.rank) &&
             (forall m :: 0 <= m < k ==> cands[1..][m].rank < b.rank);
           assert b == cands[k + 1];
           assert forall m :: 1 <= m < |cands| ==> cands[m] == cands[1..][m - 1];
           Ok(b))
        else
          (assert forall m :: 1 <= m < |cands| ==> cands[m] == cands[1..][m - 1];
           Ok(cands[0]))
  }

  /** `default` as written (lines 508-548): the `continue` inside the loop over
    * `exclude_reqts` only moves on to the next item, so requirements exclude nothing
    * and only the instances excluded by identity are left out. */
  function DefaultAsWritten(ops: seq<Op>, exclude: seq<Op>, reqts: seq<string>): Result<Op>
  {
    Best(Candidates(ops, exclude, []))
  }

  /** The default `exclude_reqts=('stratagem')` (line 512) is the string itself rather
    * than a one-element tuple, so the loop goes over its letters. */
  function DefaultReqtsAsWritten(): seq<string>
  {
    seq(|"stratagem"|, i requires 0 <= i < |"stratagem"| => ["stratagem"[i]])
  }

  /** The intended default: the one item "stratagem". */
  function DefaultReqts(): seq<string>
  {
    ["stratagem"]
  }

  /** As written, a higher-ranked Operation that requires a Stratagem is still the one
    * `default()` returns, whatever requirement list it is given. */
  lemma DefaultAsWrittenKeepsStratagem(low: Op, high: Op, reqts: seq<string>)
    requires high.rank > low.rank && Requires(high, "stratagem") && low != high
    ensures DefaultAsWritten([low, high], [], reqts) == Ok(high)
  {
    var ops := [low, high];
    assert ops[..1] == [low] && ops[..1][..0] == [];
    assert Candidates(ops[..1][..0], [], []) == [];
    assert !RequiresSome(low, []) && !RequiresSome(high, []);
    assert Candidates(ops[..1], [], []) == [low];
    assert Candidates(ops, [], []) == [low] + [high];
  }

  /** With the requirement check as intended and the intended list, the Operation that
    * requires a Stratagem is left out and the other is chosen. */
  lemma DefaultExcludesStratagem(low: Op, high: Op)
    requires high.rank > low.rank && Requires(high, "stratagem")
    requires !Requires(low, "stratagem") && low != high
    ensures Best(Candidates([low, high], [], DefaultReqts())) == Ok(low)
  {
    var ops := [low, high];
    assert ops[..1] == [low] && ops[..1][..0] == [];
    assert RequiresSome(high, DefaultReqts());
    assert !RequiresSome(low, DefaultReqts());
    assert Candidates(ops[..1][..0], [], DefaultReqts()) == [];
    assert Candidates(ops[..1], [], DefaultReqts()) == [low];
    assert Candidates(ops, [], DefaultReqts()) == [low];
  }

  /** The as-written default list holds single letters, never "stratagem", so even a
    * working requirement check would exclude nothing that requires a Stratagem. */
  lemma DefaultReqtsAreLetters()
    ensures |DefaultReqtsAsWritten()| == 9
    ensures forall i :: 0 <= i < 9 ==> |DefaultReqtsAsWritten()[i]| == 1
    ensures "stratagem" !in DefaultReqtsAsWritten()
  {
    forall x | x in DefaultReqtsAsWritten()
      ensures |x| == 1
    {
      var i :| 0 <= i < 9 && DefaultReqtsAsWritten()[i] == x;
    }
  }
}
