/** `PayloadMap` (depthcharge/payload_map.py): the addresses at which the host places
  * its payloads in target memory. Each new payload is given the next free address
  * after the ones placed before it, and its record tracks whether it has been deployed
  * and which operations need it. */
module PayloadMap {
  import opened Errors
  import PyBytes

  type byte = PyBytes.byte

  /** One payload's record: the `address`, `deployed`, `skip_deploy`, `data`, `size`
    * and `required_by` entries of its dictionary. */
  datatype Payload = Payload(address: int, deployed: bool, skipDeploy: bool,
                             data: seq<byte>, size: nat, requiredBy: set<string>)

  /** The offset after a payload of `size` bytes placed at offset `off`: rounded up to
    * a multiple of `align` when `align` is above 1, not rounded otherwise. */
  function NextOffset(off: int, size: nat, align: int): (r: int)
    ensures r >= off + size
    ensures align > 1 ==> r < off + size + align && r % align == 0
    ensures align <= 1 ==> r == off + size
  {
    if align > 1 then RoundUp(off + size, align) else off + size
  }

  /** `((x + (align - 1)) // align) * align`: the least multiple of `align` at or
    * above `x`. */
  function RoundUp(x: int, align: int): (r: int)
    requires align > 1
    ensures x <= r < x + align && r % align == 0
  {
    var q := (x + (align - 1)) / align;
    assert x + (align - 1) == align * q + (x + (align - 1)) % align;
    PyBytes.DivModUnique(align * q, align, q, 0);
    q * align
  }

  /** What `mark_required_by` is handed: an operation name, an Operation (known by
    * its name), a list of these, or any other object. `truthy` is that object's
    * truth value, which `insert` tests before marking. */
  datatype ReqArg =
    | RName(name: string)
    | ROperation(opName: string)
    | RList(items: seq<ReqArg>)
    | ROther(truthy: bool)

  /** Python's truth value of the argument: an empty string or list is false, an
    * Operation instance is true. */
  predicate Truthy(arg: ReqArg)
  {
    match arg
    case RName(n) => n != ""
    case ROperation(_) => true
    case RList(items) => items != []
    case ROther(t) => t
  }

  /** The names `mark_required_by` adds for an argument, in the order it adds them,
    * and whether it stops on an element that is neither a string, an Operation nor a
    * list (the TypeError). Nested lists are walked depth first. */
  function Marks(arg: ReqArg): (r: (seq<string>, bool))
    decreases arg, |Items(arg)| + 1
  {
    match arg
    case RName(n) => ([n], false)
    case ROperation(n) => ([n], false)
    case RList(items) => MarksFrom(items, 0)
    case ROther(_) => ([], true)
  }

  function Items(arg: ReqArg): seq<ReqArg>
  {
    if arg.RList? then arg.items else []
  }

  function MarksFrom(items: seq<ReqArg>, i: nat): (r: (seq<string>, bool))
    requires i <= |items|
    decreases RList(items), |items| - i
  {
    if i == |items| then ([], false)
    else
      var (first, bad) := Marks(items[i]);
      if bad then (first, true)
      else
        var (rest, bad2) := MarksFrom(items, i + 1);
        (first + rest, bad2)
  }

  /** What marking does to the map: a TypeError before any name is reached changes
    * nothing; a first name for a payload that is not in the map is a KeyError that
    * changes nothing; otherwise every name reached is added to the payload's
    * `required_by`, and a later bad element still raises TypeError. */
  function Marked(m: map<string, Payload>, payload: string, arg: ReqArg): (r: (map<string, Payload>, Option<Error>))
    ensures r.1.None? <==> !Marks(arg).1 && (Marks(arg).0 == [] || payload in m)
    ensures r.1.Some? ==> r.1.value == TypeError || r.1.value == KeyError
    ensures r.1 == Some(KeyError) ==> r.0 == m && payload !in m
    ensures r.0.Keys == m.Keys
    ensures forall k :: k in m && k != payload ==> r.0[k] == m[k]
  {
    var (names, bad) := Marks(arg);
    if names == [] then (m, if bad then Some(TypeError) else None)
    else if payload !in m then (m, Some(KeyError))
    else
      var p := m[payload];
      (m[payload := p.(requiredBy := p.requiredBy + set n | n in names)], if bad then Some(TypeError) else None)
  }

  /** Payload regions follow one another in insertion order: the last name's region
    * lies in `[base, base + off)`, the earlier ones lie below where it starts, and
    * no name occurs twice. */
  ghost predicate Laid(base: int, off: int, names: seq<string>, m: map<string, Payload>)
    decreases |names|
  {
    if |names| == 0 then true
    else
      var last := names[|names| - 1];
      last in m && last !in names[..|names| - 1] &&
      base <= m[last].address && m[last].address + m[last].size <= base + off &&
      Laid(base, m[last].address - base, names[..|names| - 1], m)
  }

  /** The map after the placement half of `insert`: a new name gets a fresh record at
    * `base + off`; a name already present leaves the map as it was. */
  function Placed(m: map<string, Payload>, address: int, skipDeploy: bool, name: string, payload: seq<byte>): (r: map<string, Payload>)
    ensures name in r && r.Keys == m.Keys + {name}
    ensures forall k :: k in m ==> r[k] == m[k]
    ensures name !in m ==> r[name] == Payload(address, false, skipDeploy, payload, |payload|, {})
  {
    if name in m then m else m[name := Payload(address, false, skipDeploy, payload, |payload|, {})]
  }

  /** The names are distinct and are exactly the map's keys, each record's size is its
    * data's length, and the records are laid out in order below `base + off`. */
  ghost predicate Consistent(base: int, off: int, names: seq<string>, m: map<string, Payload>)
  {
    off >= 0 &&
    (forall k :: k in m <==> k in names) &&
    (forall k :: k in m ==> m[k].size == |m[k].data|) &&
    Laid(base, off, names, m)
  }

  class PayloadMap {
    var base: int
    var off: int
    var align: int
    var skipDeploy: bool
    /** The payload names in insertion order (the dictionary's order). */
    var names: seq<string>
    var entries: map<string, Payload>

    ghost predicate Valid()
      reads this
    {
      Consistent(base, off, names, entries)
    }

    /** `PayloadMap(arch, base, align=.., skip_deploy=.., payloads=..)` with the
      * built-in payloads for the architecture already prepended to `payloads`:
      * each is inserted in turn. */
    constructor (base: int, align: int, skipDeploy: bool, payloads: seq<(string, seq<byte>)>)
      ensures Valid()
      ensures this.base == base && this.align == align && this.skipDeploy == skipDeploy
      ensures forall i :: 0 <= i < |payloads| ==> payloads[i].0 in entries
      ensures forall k :: k in entries ==> !entries[k].deployed && entries[k].requiredBy == {}
    {
      this.base := base;
      this.align := align;
      this.skipDeploy := skipDeploy;
      off := 0;
      names := [];
      entries := map[];
      new;
      ConsistentEmpty(base);
      for i := 0 to |payloads|
        invariant Valid()
        invariant this.base == base && this.align == align && this.skipDeploy == skipDeploy
        invariant forall j :: 0 <= j < i ==> payloads[j].0 in entries
        invariant Untouched(entries)
      {
        ghost var before := entries;
        PlacedUntouched(entries, base + off, skipDeploy, payloads[i].0, payloads[i].1);
        Place(payloads[i].0, payloads[i].1);
        assert before.Keys <= entries.Keys && payloads[i].0 in entries;
      }
    }

    /** The placement half of `insert`: a new name gets the address `base + off` and
      * a fresh record, and the offset moves past it; a name already present changes
      * nothing. */
    method Place(name: string, payload: seq<byte>)
      requires Valid()
      modifies this
      ensures Valid()
      ensures base == old(base) && align == old(align) && skipDeploy == old(skipDeploy)
      ensures entries == Placed(old(entries), base + old(off), skipDeploy, name, payload)
      ensures name in old(entries) ==> names == old(names) && off == old(off)
      ensures name !in old(entries) ==> names == old(names) + [name] && off == NextOffset(old(off), |payload|, align)
    {
      if name !in entries {
        ConsistentAppend(base, off, NextOffset(off, |payload|, align), names, entries, skipDeploy, name, payload);
        off, entries, names := NextOffset(off, |payload|, align), Placed(entries, base + off, skipDeploy, name, payload), names + [name];
      }
    }

    /** `insert(name, payload, required_by)`: places the payload, then, when
      * `required_by` is given and true, marks it. */
    method Insert(name: string, payload: seq<byte>, requiredBy: Option<ReqArg>) returns (err: Option<Error>)
      requires Valid()
      modifies this
      ensures Valid()
      ensures base == old(base) && align == old(align) && skipDeploy == old(skipDeploy)
      ensures name in old(entries) ==> names == old(names) && off == old(off)
      ensures name !in old(entries) ==> names == old(names) + [name] && off == NextOffset(old(off), |payload|, align)
      ensures (requiredBy.None? || !Truthy(requiredBy.value)) ==>
        err.None? && entries == Placed(old(entries), base + old(off), skipDeploy, name, payload)
      ensures requiredBy.Some? && Truthy(requiredBy.value) ==>
        (entries, err) == Marked(Placed(old(entries), base + old(off), skipDeploy, name, payload), name, requiredBy.value)
    {
      Place(name, payload);
      err := None;
      if requiredBy.Some? && Truthy(requiredBy.value) {
        err := MarkRequiredBy(name, requiredBy.value);
      }
    }

    /** `__getitem__(name)`: the payload's record, or KeyError. */
    function Get(name: string): (r: Result<Payload>)
      reads this
      ensures r.Ok? <==> name in entries
      ensures r.Ok? ==> r.value == entries[name]
      ensures r.Err? ==> r.error == KeyError
    {
      if name in entries then Ok(entries[name]) else Err(KeyError)
    }

    /** `mark_deployed(name, state)`: sets the payload's `deployed` flag; an unknown
      * name is a KeyError and changes nothing. */
    method MarkDeployed(name: string, state: bool) returns (err: Option<Error>)
      requires Valid()
      modifies this
      ensures Valid()
      ensures names == old(names) && off == old(off) && base == old(base) && align == old(align) && skipDeploy == old(skipDeploy)
      ensures name !in old(entries) ==> err == Some(KeyError) && entries == old(entries)
      ensures name in old(entries) ==> err.None? && entries == old(entries)[name := old(entries)[name].(deployed := state)]
    {
      if name !in entries {
        return Some(KeyError);
      }
      ConsistentRelabel(base, off, names, entries, name, entries[name].(deployed := state));
      entries := entries[name := entries[name].(deployed := state)];
      return None;
    }

    /** `mark_required_by(payload_name, operation)`, recursing into lists. */
    method MarkRequiredBy(payload: string, arg: ReqArg) returns (err: Option<Error>)
      requires Valid()
      modifies this
      ensures Valid()
      ensures names == old(names) && off == old(off) && base == old(base) && align == old(align) && skipDeploy == old(skipDeploy)
      ensures (entries, err) == Marked(old(entries), payload, arg)
      decreases arg, |Items(arg)| + 1
    {
      match arg
      case ROther(_) =>
        return Some(TypeError);
      case RName(n) =>
        err := AddName(payload, n);
      case ROperation(n) =>
        err := AddName(payload, n);
      case RList(items) =>
        err := MarkEach(payload, items);
    }

    /** The loop of `mark_required_by` over a list. */
    method MarkEach(payload: string, items: seq<ReqArg>) returns (err: Option<Error>)
      requires Valid()
      modifies this
      ensures Valid()
      ensures names == old(names) && off == old(off) && base == old(base) && align == old(align) && skipDeploy == old(skipDeploy)
      ensures (entries, err) == Marked(old(entries), payload, RList(items))
      decreases RList(items), |items|
    {
      ghost var m0 := entries;
      assert Marks(RList(items[..0])) == ([], false);
      for i := 0 to |items|
        invariant Valid()
        invariant names == old(names) && off == old(off) && base == old(base) && align == old(align) && skipDeploy == old(skipDeploy)
        invariant (entries, None) == Marked(m0, payload, RList(items[..i]))
      {
        ghost var mi := entries;
        var e := MarkRequiredBy(payload, items[i]);
        MarkedStep(m0, mi, payload, items, i);
        if e.Some? {
          MarkedStop(m0, payload, items, i, mi);
          return e;
        }
      }
      assert items[..|items|] == items;
      return None;
    }

    /** The last line of `mark_required_by`: adds one name, or KeyError. */
    method AddName(payload: string, n: string) returns (err: Option<Error>)
      requires Valid()
      modifies this
      ensures Valid()
      ensures names == old(names) && off == old(off) && base == old(base) && align == old(align) && skipDeploy == old(skipDeploy)
      ensures (entries, err) == Marked(old(entries), payload, RName(n))
    {
      if payload !in entries {
        MarkedName(entries, payload, n);
        return Some(KeyError);
      }
      MarkedName(entries, payload, n);
      var p := entries[payload];
      ConsistentRelabel(base, off, names, entries, payload, p.(requiredBy := p.requiredBy + {n}));
      entries := entries[payload := p.(requiredBy := p.requiredBy + {n})];
      return None;
    }
  }

  // ---- lemmas about placement ----

  /** A new name placed at the current offset, with the offset moved past it, keeps
    * the map consistent. */
  lemma ConsistentAppend(base: int, off: int, off2: int, names: seq<string>, m: map<string, Payload>,
                         skipDeploy: bool, name: string, payload: seq<byte>)
    requires Consistent(base, off, names, m) && name !in m && off2 >= off + |payload|
    ensures Consistent(base, off2, names + [name], Placed(m, base + off, skipDeploy, name, payload))
  {
    var p := Payload(base + off, false, skipDeploy, payload, |payload|, {});
    assert Placed(m, base + off, skipDeploy, name, payload) == m[name := p];
    LaidAppend(base, off, off2, names, m, name, p);
  }

  /** Appending a new payload at the old offset keeps the regions in order. */
  lemma LaidAppend(base: int, off: int, off2: int, names: seq<string>, m: map<string, Payload>, name: string, p: Payload)
    requires Laid(base, off, names, m) && off >= 0 && name !in names
    requires p.address == base + off && off2 >= off + p.size
    ensures Laid(base, off2, names + [name], m[name := p])
  {
    var names2 := names + [name];
    assert names2[..|names2| - 1] == names;
    LaidBounds(base, off, names, m);
    LaidFrame(base, off, names, m, m[name := p]);
  }

  /** Laying out depends only on the addresses and sizes of the names' records. */
  lemma {:induction false} LaidFrame(base: int, off: int, names: seq<string>, m: map<string, Payload>, m2: map<string, Payload>)
    requires Laid(base, off, names, m)
    requires forall i :: 0 <= i < |names| ==>
      names[i] in m2 && names[i] in m && m2[names[i]].address == m[names[i]].address && m2[names[i]].size == m[names[i]].size
    ensures Laid(base, off, names, m2)
    decreases |names|
  {
    if |names| > 0 {
      var init := names[..|names| - 1];
      var last := names[|names| - 1];
      assert forall i :: 0 <= i < |init| ==> init[i] == names[i];
      LaidFrame(base, m[last].address - base, init, m, m2);
    }
  }

  /** Every region of a layout lies in `[base, base + off)` under a name of the map. */
  lemma {:induction false} LaidBounds(base: int, off: int, names: seq<string>, m: map<string, Payload>)
    requires Laid(base, off, names, m)
    ensures forall i :: 0 <= i < |names| ==>
      names[i] in m && base <= m[names[i]].address && m[names[i]].address + m[names[i]].size <= base + off
    decreases |names|
  {
    if |names| > 0 {
      var init := names[..|names| - 1];
      var last := names[|names| - 1];
      LaidBounds(base, m[last].address - base, init, m);
      forall i | 0 <= i < |names|
        ensures names[i] in m && base <= m[names[i]].address && m[names[i]].address + m[names[i]].size <= base + off
      {
        if i < |init| {
          assert names[i] == init[i];
        }
      }
    }
  }

  /** Changing one record's flags, not its address, size or data, keeps the map
    * consistent. */
  lemma ConsistentRelabel(base: int, off: int, names: seq<string>, m: map<string, Payload>, k: string, p: Payload)
    requires Consistent(base, off, names, m) && k in m
    requires p.address == m[k].address && p.size == m[k].size && p.data == m[k].data
    ensures Consistent(base, off, names, m[k := p])
  {
    LaidFrame(base, off, names, m, m[k := p]);
  }

  /** Every record is as `insert` creates it: not deployed and required by nothing. */
  ghost predicate Untouched(m: map<string, Payload>)
  {
    forall k :: k in m ==> !m[k].deployed && m[k].requiredBy == {}
  }

  /** Placing a payload keeps every record untouched and every name. */
  lemma PlacedUntouched(m: map<string, Payload>, address: int, skipDeploy: bool, name: string, payload: seq<byte>)
    requires Untouched(m)
    ensures Untouched(Placed(m, address, skipDeploy, name, payload))
    ensures m.Keys <= Placed(m, address, skipDeploy, name, payload).Keys
    ensures name in Placed(m, address, skipDeploy, name, payload)
  {
  }

  /** An empty map with nothing laid out is consistent. */
  lemma ConsistentEmpty(base: int)
    ensures Consistent(base, 0, [], map[])
  {
  }

  /** Marking one name: added to the payload's `required_by`, or KeyError. */
  lemma MarkedName(m: map<string, Payload>, payload: string, n: string)
    ensures payload in m ==>
      Marked(m, payload, RName(n)) == (m[payload := m[payload].(requiredBy := m[payload].requiredBy + {n})], None)
    ensures payload !in m ==> Marked(m, payload, RName(n)) == (m, Some(KeyError))
  {
    assert Marks(RName(n)) == ([n], false);
    assert (set x | x in [n]) == {n};
  }

  /** Two payloads placed one after the other never share a byte: their regions are
    * disjoint, and the one inserted first lies at the lower address. */
  lemma {:induction false} RegionsDisjoint(base: int, off: int, names: seq<string>, m: map<string, Payload>, i: nat, j: nat, x: int)
    requires Laid(base, off, names, m) && i < j < |names| && names[i] in m && names[j] in m
    requires m[names[i]].address <= x < m[names[i]].address + m[names[i]].size
    ensures names[i] != names[j]
    ensures !(m[names[j]].address <= x < m[names[j]].address + m[names[j]].size)
    ensures m[names[i]].address < m[names[j]].address || m[names[i]].size == 0
    decreases |names|
  {
    var init := names[..|names| - 1];
    var last := names[|names| - 1];
    assert names[i] == init[i];
    if j == |names| - 1 {
      LaidBounds(base, m[last].address - base, init, m);
    } else {
      assert names[j] == init[j];
      RegionsDisjoint(base, m[last].address - base, init, m, i, j, x);
    }
  }

  // ---- lemmas about marking ----

  /** One more list element: what marking the prefix and then the element gives is
    * what marking the longer prefix gives, as long as the prefix raised nothing. */
  lemma {:induction false} MarkedStep(m0: map<string, Payload>, mi: map<string, Payload>, payload: string, items: seq<ReqArg>, i: nat)
    requires i < |items|
    requires (mi, None) == Marked(m0, payload, RList(items[..i]))
    ensures Marked(mi, payload, items[i]).1.None? ==>
      (Marked(mi, payload, items[i]).0, None) == Marked(m0, payload, RList(items[..i + 1]))
  {
    var a := Marks(RList(items[..i]));
    var b := Marks(items[i]);
    MarksSnoc(items, i);
    if !b.1 {
      if payload in m0 {
        MarkedTwice(m0, payload, a.0, b.0);
      } else {
        assert a.0 == [] && mi == m0;
        assert a.0 + b.0 == b.0;
      }
    }
  }

  /** Adding two runs of names one after the other adds their concatenation. */
  lemma MarkedTwice(m0: map<string, Payload>, payload: string, a: seq<string>, b: seq<string>)
    requires payload in m0
    ensures var m1 := if a == [] then m0 else m0[payload := m0[payload].(requiredBy := m0[payload].requiredBy + set n | n in a)];
      (if b == [] then m1 else m1[payload := m1[payload].(requiredBy := m1[payload].requiredBy + set n | n in b)]) ==
      (if a + b == [] then m0 else m0[payload := m0[payload].(requiredBy := m0[payload].requiredBy + set n | n in a + b)])
  {
    assert (set n | n in a + b) == (set n | n in a) + (set n | n in b);
    if a == [] {
      assert a + b == b;
    }
    if b == [] {
      assert a + b == a;
    }
    if a != [] && b != [] {
      var p := m0[payload];
      var A, B := set n | n in a, set n | n in b;
      var m1 := m0[payload := p.(requiredBy := p.requiredBy + A)];
      assert m1[payload] == p.(requiredBy := p.requiredBy + A);
      assert p.(requiredBy := p.requiredBy + A).(requiredBy := p.requiredBy + A + B) == p.(requiredBy := p.requiredBy + (A + B));
      assert m1[payload := m1[payload].(requiredBy := m1[payload].requiredBy + B)] == m0[payload := p.(requiredBy := p.requiredBy + (A + B))];
    }
  }

  /** The element that raises ends the list's marking with the same map and error. */
  lemma {:induction false} MarkedStop(m0: map<string, Payload>, payload: string, items: seq<ReqArg>, i: nat, mi: map<string, Payload>)
    requires i < |items|
    requires (mi, None) == Marked(m0, payload, RList(items[..i]))
    requires Marked(mi, payload, items[i]).1.Some?
    ensures Marked(mi, payload, items[i]) == Marked(m0, payload, RList(items))
  {
    var a := Marks(RList(items[..i]));
    var b := Marks(items[i]);
    if b.1 {
      MarksStops(items, i);
      if payload in m0 {
        MarkedTwice(m0, payload, a.0, b.0);
      } else {
        assert a.0 == [];
        assert a.0 + b.0 == b.0;
      }
    } else {
      // the KeyError of the first name: nothing was added before it
      assert payload !in mi && b.0 != [];
      assert a.0 == [] && mi == m0;
      MarksSnoc(items, i);
      MarksPrefix(items, i + 1);
      assert Marks(RList(items[..i + 1])).0 == b.0 by {
        assert a.0 + b.0 == b.0;
      }
    }
  }

  /** The names of a prefix that raised nothing begin the names of the whole list. */
  lemma MarksPrefix(items: seq<ReqArg>, i: nat)
    requires i <= |items|
    requires !Marks(RList(items[..i])).1
    ensures |Marks(RList(items[..i])).0| <= |Marks(RList(items)).0|
    ensures Marks(RList(items)).0[..|Marks(RList(items[..i])).0|] == Marks(RList(items[..i])).0
  {
    MarksFromPrefix(items, 0, i);
  }

  lemma {:induction false} MarksFromPrefix(xs: seq<ReqArg>, k: nat, i: nat)
    requires k <= i <= |xs|
    requires !MarksFrom(xs[..i], k).1
    ensures |MarksFrom(xs[..i], k).0| <= |MarksFrom(xs, k).0|
    ensures MarksFrom(xs, k).0[..|MarksFrom(xs[..i], k).0|] == MarksFrom(xs[..i], k).0
    decreases i - k
  {
    if k == i {
      assert MarksFrom(xs[..i], k) == ([], false);
    } else {
      assert xs[..i][k] == xs[k];
      var (first, bad) := Marks(xs[k]);
      assert !bad;
      MarksFromPrefix(xs, k + 1, i);
      var p := MarksFrom(xs[..i], k + 1).0;
      var w := MarksFrom(xs, k + 1).0;
      assert (first + w)[..|first + p|] == first + p by {
        assert w[..|p|] == p;
      }
    }
  }

  /** The marks of a list prefix, extended by one element. */
  lemma {:induction false} MarksSnoc(items: seq<ReqArg>, i: nat)
    requires i < |items|
    requires !Marks(RList(items[..i])).1
    ensures Marks(RList(items[..i + 1])) ==
      (Marks(RList(items[..i])).0 + Marks(items[i]).0, Marks(items[i]).1)
  {
    assert items[..i + 1][..i] == items[..i];
    assert items[..i + 1][i] == items[i];
    MarksFromSnoc(items[..i + 1], 0, i);
  }

  lemma {:induction false} MarksFromSnoc(xs: seq<ReqArg>, k: nat, i: nat)
    requires k <= i && i + 1 == |xs|
    requires !MarksFrom(xs[..i], k).1
    ensures MarksFrom(xs, k) == (MarksFrom(xs[..i], k).0 + Marks(xs[i]).0, Marks(xs[i]).1)
    decreases i - k
  {
    if k == i {
      assert MarksFrom(xs[..i], k) == ([], false);
      var (first, bad) := Marks(xs[i]);
      if !bad {
        assert MarksFrom(xs, i + 1) == ([], false);
        assert first + [] == first;
      }
      assert [] + first == first;
    } else {
      assert xs[..i][k] == xs[k];
      var (first, bad) := Marks(xs[k]);
      assert !bad;
      MarksFromSnoc(xs, k + 1, i);
      assert first + (MarksFrom(xs[..i], k + 1).0 + Marks(xs[i]).0) == (first + MarksFrom(xs[..i], k + 1).0) + Marks(xs[i]).0;
    }
  }

  /** Once an element raises, the elements after it are never looked at. */
  lemma {:induction false} MarksStops(items: seq<ReqArg>, i: nat)
    requires i < |items|
    requires !Marks(RList(items[..i])).1 && Marks(items[i]).1
    ensures Marks(RList(items)) == (Marks(RList(items[..i])).0 + Marks(items[i]).0, true)
  {
    MarksFromStops(items, 0, i);
  }

  lemma {:induction false} MarksFromStops(xs: seq<ReqArg>, k: nat, i: nat)
    requires k <= i < |xs|
    requires !MarksFrom(xs[..i], k).1 && Marks(xs[i]).1
    ensures MarksFrom(xs, k) == (MarksFrom(xs[..i], k).0 + Marks(xs[i]).0, true)
    decreases i - k
  {
    if k == i {
      assert MarksFrom(xs[..i], k) == ([], false);
      assert [] + Marks(xs[i]).0 == Marks(xs[i]).0;
    } else {
      assert xs[..i][k] == xs[k];
      var (first, bad) := Marks(xs[k]);
      MarksFromStops(xs, k + 1, i);
      assert first + (MarksFrom(xs[..i], k + 1).0 + Marks(xs[i]).0) == (first + MarksFrom(xs[..i], k + 1).0) + Marks(xs[i]).0;
    }
  }

  /** A list of operation names marks exactly those names, in order, and raises
    * nothing. */
  lemma {:induction false} MarksOfNames(ns: seq<string>, k: nat)
    requires k <= |ns|
    ensures MarksFrom(seq(|ns|, i requires 0 <= i < |ns| => RName(ns[i])), k) == (ns[k..], false)
    decreases |ns| - k
  {
    var items := seq(|ns|, i requires 0 <= i < |ns| => RName(ns[i]));
    if k < |ns| {
      MarksOfNames(ns, k + 1);
      assert ns[k..] == [ns[k]] + ns[k + 1..];
    }
  }
}
