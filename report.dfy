/** The checker's `Report`: a set of security risks told apart by identifier,
  * listed by impact, merged by set union, and written out as rows of columns. */
module Report {
  import opened Errors
  import PyStr
  import SR = SecurityRisk

  /** The risks of a report, keyed by identifier: Python's set of `SecurityRisk`
    * objects compares and hashes them by identifier alone. */
  type Risks = map<string, SR.Risk>

  predicate Keyed(m: Risks)
  {
    forall id :: id in m ==> m[id].ident == id
  }

  // ---- adding ----

  /** What `add` accepts: a risk, a dictionary of constructor keywords, or anything else. */
  datatype RiskArg = ARisk(r: SR.Risk) | ADict(d: SR.RiskDict) | AOther

  /** `SecurityRisk(**d)`: a missing required keyword is a TypeError of the call, and so
    * is an impact that is not a `SecurityImpact`. */
  function Construct(d: SR.RiskDict): (r: Result<SR.Risk>)
    ensures (d.identifier.None? || d.impact.None? || d.source.None? || d.summary.None? ||
             d.description.None? || d.recommendation.None?) ==> r == Err(TypeError)
    ensures r.Ok? ==>
      Some(r.value.ident) == d.identifier && Some(r.value.source) == d.source &&
      Some(r.value.summary) == d.summary && Some(r.value.description) == d.description &&
      Some(r.value.recommendation) == d.recommendation &&
      d.impact == Some(SR.IImpact(r.value.impact))
    ensures r.Err? ==> r.error == TypeError
  {
    if d.identifier.None? || d.impact.None? || d.source.None? || d.summary.None? ||
       d.description.None? || d.recommendation.None? then Err(TypeError)
    else SR.NewRisk(d.identifier.value, d.impact.value, d.source.value, d.summary.value,
                    d.description.value, d.recommendation.value, d.affected)
  }

  /** The risk `add` records for its argument, or the TypeError it raises. */
  function Given(arg: RiskArg): (r: Result<SR.Risk>)
    ensures arg.ARisk? ==> r == Ok(arg.r)
    ensures arg.AOther? ==> r == Err(TypeError)
    ensures r.Err? ==> r.error == TypeError
  {
    match arg
    case ARisk(r) => Ok(r)
    case ADict(d) => Construct(d)
    case AOther => Err(TypeError)
  }

  /** `set.add`: a risk whose identifier is already present leaves the set as it was. */
  function AddTo(m: Risks, r: SR.Risk): (t: Risks)
    ensures t.Keys == m.Keys + {r.ident}
    ensures forall id :: id in m ==> t[id] == m[id]
    ensures r.ident !in m ==> t[r.ident] == r
    ensures |t| == |m| + (if r.ident in m then 0 else 1)
    ensures Keyed(m) ==> Keyed(t)
  {
    if r.ident in m then m else m[r.ident := r]
  }

  // ---- union ----

  /** `set.update`: identifiers of `b` not yet in `a` join it; the risks `a` holds stay. */
  function Union(a: Risks, b: Risks): (u: Risks)
    ensures u.Keys == a.Keys + b.Keys
    ensures forall id :: id in a ==> u[id] == a[id]
    ensures forall id :: id in b && id !in a ==> u[id] == b[id]
    ensures Keyed(a) && Keyed(b) ==> Keyed(u)
  {
    b + a
  }

  /** Merging reports one after the other. */
  function UnionAll(m: Risks, others: seq<Risks>): Risks
  {
    if |others| == 0 then m else Union(UnionAll(m, others[..|others| - 1]), others[|others| - 1])
  }

  /** A report only grows by merging: what it held stays, unchanged. */
  lemma {:induction false} UnionAllKeeps(m: Risks, others: seq<Risks>)
    ensures m.Keys <= UnionAll(m, others).Keys
    ensures forall id :: id in m ==> UnionAll(m, others)[id] == m[id]
  {
    if |others| > 0 {
      UnionAllKeeps(m, others[..|others| - 1]);
    }
  }

  /** After merging, the identifiers are exactly those of all the reports together. */
  lemma {:induction false} UnionAllKeys(m: Risks, others: seq<Risks>)
    ensures forall id :: id in UnionAll(m, others) <==>
      id in m || exists k :: 0 <= k < |others| && id in others[k]
  {
    if |others| > 0 {
      var init := others[..|others| - 1];
      UnionAllKeys(m, init);
      forall id | id in UnionAll(m, others)
        ensures id in m || exists k :: 0 <= k < |others| && id in others[k]
      {
        if id !in UnionAll(m, init) {
          assert id in others[|others| - 1];
        } else if id !in m {
          var k :| 0 <= k < |init| && id in init[k];
          assert others[k] == init[k];
        }
      }
      forall id | id in m || exists k :: 0 <= k < |others| && id in others[k]
        ensures id in UnionAll(m, others)
      {
        if id !in m {
          var k :| 0 <= k < |others| && id in others[k];
          if k < |init| {
            assert id in init[k];
          }
        }
      }
    }
  }

  /** Merging a report with anything it already contains changes nothing. */
  lemma UnionAbsorbs(a: Risks, b: Risks)
    requires b.Keys <= a.Keys
    ensures Union(a, b) == a
  {
  }

  /** Set union is associative: merging `b` and `c` in turn is merging their union. */
  lemma UnionAssoc(a: Risks, b: Risks, c: Risks)
    ensures Union(Union(a, b), c) == Union(a, Union(b, c))
  {
    var l := Union(Union(a, b), c);
    var r := Union(a, Union(b, c));
    assert l.Keys == r.Keys;
    forall id | id in l
      ensures l[id] == r[id]
    {
    }
  }

  // ---- listing by impact ----

  /** The sort key: the impact's integer value. */
  function Key(r: SR.Risk): nat
  {
    SR.Value(r.impact)
  }

  /** `a` belongs strictly ahead of `b` when ordering by `key`, highest first or lowest first. */
  predicate Ahead(a: SR.Risk, b: SR.Risk, key: SR.Risk -> nat, highFirst: bool)
  {
    if highFirst then key(a) > key(b) else key(a) < key(b)
  }

  /** Ordered by impact: no risk comes after one it belongs ahead of. */
  predicate Ranked(s: seq<SR.Risk>, key: SR.Risk -> nat, highFirst: bool)
  {
    forall a, b :: 0 <= a < b < |s| ==> !Ahead(s[b], s[a], key, highFirst)
  }

  /** `s` lists the risks of `m`, each once. */
  predicate Lists(s: seq<SR.Risk>, m: Risks)
  {
    |s| == |m| &&
    (forall k :: 0 <= k < |s| ==> s[k].ident in m && m[s[k].ident] == s[k]) &&
    (forall a, b :: 0 <= a < b < |s| ==> s[a].ident != s[b].ident)
  }

  /** A listing holds every risk of the report. */
  lemma ListsAll(s: seq<SR.Risk>, m: Risks)
    requires Lists(s, m)
    ensures forall id :: id in m ==> m[id] in s
  {
    var ids := set k | 0 <= k < |s| :: s[k].ident;
    IdentsCount(s);
    assert ids <= m.Keys;
    assert |ids| == |m.Keys|;
    SubsetSameSize(ids, m.Keys);
    forall id | id in m
      ensures m[id] in s
    {
      assert id in ids;
      var k :| 0 <= k < |s| && s[k].ident == id;
    }
  }

  /** `n` risks with distinct identifiers have `n` identifiers. */
  lemma {:induction false} IdentsCount(s: seq<SR.Risk>)
    requires forall a, b :: 0 <= a < b < |s| ==> s[a].ident != s[b].ident
    ensures |set k | 0 <= k < |s| :: s[k].ident| == |s|
  {
    if |s| > 0 {
      var init := s[..|s| - 1];
      IdentsCount(init);
      var before := set k | 0 <= k < |init| :: init[k].ident;
      var after := set k | 0 <= k < |s| :: s[k].ident;
      assert after == before + {s[|s| - 1].ident};
      assert s[|s| - 1].ident !in before;
    }
  }

  lemma SubsetSameSize<T>(a: set<T>, b: set<T>)
    requires a <= b && |a| == |b|
    ensures a == b
  {
    if a != b {
      var x :| x in b && x !in a;
      assert a <= b - {x};
      assert |b - {x}| == |b| - 1;
      SubsetSize(a, b - {x});
    }
  }

  lemma {:induction false} SubsetSize<T>(a: set<T>, b: set<T>)
    requires a <= b
    ensures |a| <= |b|
  {
    if a != {} {
      var x :| x in a;
      SubsetSize(a - {x}, b - {x});
    }
  }

  /** Where a risk goes in a ranked listing: before the first one it belongs ahead of. */
  function Slot(s: seq<SR.Risk>, r: SR.Risk, key: SR.Risk -> nat, highFirst: bool): (p: nat)
    ensures p <= |s|
    ensures forall k :: 0 <= k < p ==> !Ahead(r, s[k], key, highFirst)
    ensures p < |s| ==> Ahead(r, s[p], key, highFirst)
  {
    if |s| == 0 || Ahead(r, s[0], key, highFirst) then 0
    else
      var p := 1 + Slot(s[1..], r, key, highFirst);
      assert forall k :: 1 <= k < p ==> s[k] == s[1..][k - 1];
      p
  }

  /** Inserting one risk into a ranked listing, after those it does not belong ahead of. */
  function Insert(s: seq<SR.Risk>, r: SR.Risk, key: SR.Risk -> nat, highFirst: bool): (t: seq<SR.Risk>)
    ensures |t| == |s| + 1
  {
    var p := Slot(s, r, key, highFirst);
    s[..p] + [r] + s[p..]
  }

  /** Insertion keeps a listing ranked, adds the one risk and keeps the others. */
  lemma InsertRanked(s: seq<SR.Risk>, r: SR.Risk, key: SR.Risk -> nat, highFirst: bool)
    requires Ranked(s, key, highFirst)
    ensures Ranked(Insert(s, r, key, highFirst), key, highFirst)
    ensures forall x :: x in Insert(s, r, key, highFirst) <==> x in s || x == r
  {
    var p := Slot(s, r, key, highFirst);
    var t := Insert(s, r, key, highFirst);
    forall a, b | 0 <= a < b < |t|
      ensures !Ahead(t[b], t[a], key, highFirst)
    {
      if b < p {
        assert t[a] == s[a] && t[b] == s[b];
      } else if b == p {
        assert t[a] == s[a];
      } else if a < p {
        assert t[a] == s[a] && t[b] == s[b - 1];
      } else if a == p {
        assert t[b] == s[b - 1];
        if b - 1 > p {
          assert !Ahead(s[b - 1], s[p], key, highFirst);
        }
      } else {
        assert t[a] == s[a - 1] && t[b] == s[b - 1];
      }
    }
    assert s == s[..p] + s[p..];
  }

  /** Part way through listing `m`: `out` lists the risks whose identifiers are not `left`. */
  predicate Partial(out: seq<SR.Risk>, m: Risks, left: set<string>)
  {
    left <= m.Keys && |out| + |left| == |m| &&
    (forall k :: 0 <= k < |out| ==> out[k].ident in m && out[k].ident !in left && m[out[k].ident] == out[k]) &&
    (forall a, b :: 0 <= a < b < |out| ==> out[a].ident != out[b].ident)
  }

  /** Listing one more risk of `m`. */
  lemma PartialStep(out: seq<SR.Risk>, m: Risks, left: set<string>, id: string, highFirst: bool)
    requires Keyed(m) && Partial(out, m, left) && Ranked(out, Key, highFirst) && id in left
    ensures Partial(Insert(out, m[id], Key, highFirst), m, left - {id})
    ensures Ranked(Insert(out, m[id], Key, highFirst), Key, highFirst)
  {
    var r := m[id];
    InsertRanked(out, r, Key, highFirst);
    InsertDistinct(out, r, Key, highFirst);
    var t := Insert(out, r, Key, highFirst);
    forall k | 0 <= k < |t|
      ensures t[k].ident in m && t[k].ident !in left - {id} && m[t[k].ident] == t[k]
    {
      assert t[k] in t;
      if t[k] != r {
        var j :| 0 <= j < |out| && out[j] == t[k];
      }
    }
  }

  /** Inserting a risk with a new identifier keeps the identifiers distinct. */
  lemma InsertDistinct(s: seq<SR.Risk>, r: SR.Risk, key: SR.Risk -> nat, highFirst: bool)
    requires forall a, b :: 0 <= a < b < |s| ==> s[a].ident != s[b].ident
    requires forall k :: 0 <= k < |s| ==> s[k].ident != r.ident
    ensures forall a, b :: 0 <= a < b < |Insert(s, r, key, highFirst)| ==>
      Insert(s, r, key, highFirst)[a].ident != Insert(s, r, key, highFirst)[b].ident
  {
    var p := Slot(s, r, key, highFirst);
    var t := Insert(s, r, key, highFirst);
    forall a, b | 0 <= a < b < |t|
      ensures t[a].ident != t[b].ident
    {
      if b < p {
        assert t[a] == s[a] && t[b] == s[b];
      } else if b == p {
        assert t[a] == s[a];
      } else if a < p {
        assert t[a] == s[a] && t[b] == s[b - 1];
      } else if a == p {
        assert t[b] == s[b - 1];
      } else {
        assert t[a] == s[a - 1] && t[b] == s[b - 1];
      }
    }
  }

  // ---- writing rows ----

  /** The `columns` argument of `_write_risks`: None, a list or tuple of names, or else. */
  datatype Columns = CNone | CList(names: seq<string>) | COther

  const DefaultColumns: seq<string> := ["Identifier", "Impact", "Source", "Summary"]

  /** The column names a (lower-cased) heading may give. */
  const ColumnNames: set<string> := {"identifier", "impact", "summary", "source", "description", "recommendation"}

  predicate KnownColumn(col: string)
  {
    PyStr.Lower(col) in ColumnNames
  }

  /** `s.replace('+', ', ')`, which the HTML writer applies to the impact string. */
  function CommaSeparated(s: string): (r: string)
    ensures '+' !in r
    ensures '+' !in s ==> r == s
  {
    if |s| == 0 then []
    else (if s[0] == '+' then ", " else [s[0]]) + CommaSeparated(s[1..])
  }

  /** One cell of a row; `impactStr` is `SecurityRisk.impact_str`. */
  function Cell(r: SR.Risk, col: string, html: bool, impactStr: SR.Impact -> string): string
    requires KnownColumn(col)
  {
    var c := PyStr.Lower(col);
    if c == "identifier" then r.ident
    else if c == "impact" then (if html then CommaSeparated(impactStr(r.impact)) else impactStr(r.impact))
    else if c == "summary" then r.summary
    else if c == "source" then r.source
    else if c == "description" then r.description
    else r.recommendation
  }

  /** The row written for a risk: one cell per column, in the columns' order. */
  function RowOf(r: SR.Risk, cols: seq<string>, html: bool, impactStr: SR.Impact -> string): (row: seq<string>)
    requires AllKnown(cols)
    ensures |row| == |cols|
    ensures forall j :: 0 <= j < |cols| ==> row[j] == Cell(r, cols[j], html, impactStr)
  {
    if |cols| == 0 then []
    else RowOf(r, cols[..|cols| - 1], html, impactStr) + [Cell(r, cols[|cols| - 1], html, impactStr)]
  }

  /** The rows for a listing of risks, in the listing's order. */
  function RowsOf(order: seq<SR.Risk>, cols: seq<string>, html: bool, impactStr: SR.Impact -> string): (rows: seq<seq<string>>)
    requires AllKnown(cols)
    ensures |rows| == |order|
    ensures forall k :: 0 <= k < |order| ==> rows[k] == RowOf(order[k], cols, html, impactStr)
  {
    if |order| == 0 then []
    else RowsOf(order[..|order| - 1], cols, html, impactStr) + [RowOf(order[|order| - 1], cols, html, impactStr)]
  }

  /** Each cell of a written row holds the field its column names; the HTML impact cell
    * lists the flags with commas instead of `+`. */
  lemma RowMeaning(r: SR.Risk, cols: seq<string>, html: bool, impactStr: SR.Impact -> string, j: nat)
    requires AllKnown(cols)
    requires j < |cols|
    ensures PyStr.Lower(cols[j]) == "identifier" ==> RowOf(r, cols, html, impactStr)[j] == r.ident
    ensures PyStr.Lower(cols[j]) == "source" ==> RowOf(r, cols, html, impactStr)[j] == r.source
    ensures PyStr.Lower(cols[j]) == "summary" ==> RowOf(r, cols, html, impactStr)[j] == r.summary
    ensures PyStr.Lower(cols[j]) == "impact" && html ==> '+' !in RowOf(r, cols, html, impactStr)[j]
    ensures PyStr.Lower(cols[j]) == "impact" && !html ==> RowOf(r, cols, html, impactStr)[j] == impactStr(r.impact)
  {
  }

  /** A Report. `ordered` and `i` are the state of iterating over it. */
  class Report {
    var risks: Risks
    var i: int
    var ordered: Option<seq<SR.Risk>>

    predicate Valid()
      reads this
    {
      Keyed(risks)
    }

    constructor ()
      ensures Valid()
      ensures risks == map[] && i == 0 && ordered == None
    {
      risks := map[];
      i := 0;
      ordered := None;
    }

    /** `len(report)`: the number of distinct identifiers. */
    function Len(): (n: nat)
      reads this
      ensures n == |risks.Keys|
    {
      |risks|
    }

    /** `add`: true exactly when the identifier was new; a duplicate keeps the original. */
    method Add(arg: RiskArg) returns (res: Result<bool>)
      requires Valid()
      modifies this
      ensures Valid()
      ensures res.Err? <==> Given(arg).Err?
      ensures res.Err? ==> res.error == TypeError && risks == old(risks)
      ensures res.Ok? ==> risks == AddTo(old(risks), Given(arg).value)
      ensures res.Ok? ==> res.value == (Given(arg).value.ident !in old(risks))
      ensures res.Ok? ==> res.value == (|risks| > |old(risks)|)
      ensures i == old(i) && ordered == old(ordered)
    {
      var g := Given(arg);
      if g.Err? {
        return Err(g.error);
      }
      var before := |risks|;
      risks := AddTo(risks, g.value);
      var after := |risks|;
      return Ok(after > before);
    }

    /** `security_risks`: the risks ordered by impact, highest first unless asked otherwise.
      * Risks of equal impact come in the set's own (unspecified) order. */
    method SecurityRisks(highFirst: bool) returns (out: seq<SR.Risk>)
      requires Valid()
      ensures Lists(out, risks)
      ensures Ranked(out, Key, highFirst)
    {
      out := [];
      var left := risks.Keys;
      while left != {}
        invariant Partial(out, risks, left)
        invariant Ranked(out, Key, highFirst)
        decreases |left|
      {
        var id :| id in left;
        PartialStep(out, risks, left, id, highFirst);
        out := Insert(out, risks[id], Key, highFirst);
        left := left - {id};
      }
    }

    /** `__iter__`: restart the iteration. */
    method Iter() returns (it: Report)
      modifies this
      ensures it == this
      ensures i == 0 && ordered == None && risks == old(risks)
    {
      i := 0;
      ordered := None;
      it := this;
    }

    /** `__next__`: the next risk, highest impact first, or None where Python raises
      * StopIteration. The order is fixed when the iteration starts. */
    method Next() returns (r: Option<SR.Risk>)
      requires Valid()
      modifies this
      ensures risks == old(risks)
      ensures old(ordered).Some? ==> ordered == old(ordered)
      ensures old(ordered).None? ==> ordered.Some? && Lists(ordered.value, risks) && Ranked(ordered.value, Key, true)
      ensures var start := if old(ordered).None? then 0 else old(i);
        if 0 <= start < |ordered.value| then r == Some(ordered.value[start]) && i == start + 1
        else r == None && i == start
    {
      if ordered.None? {
        i := 0;
        var o := SecurityRisks(true);
        ordered := Some(o);
      }
      if 0 <= i < |ordered.value| {
        r := Some(ordered.value[i]);
        i := i + 1;
      } else {
        r := None;
      }
    }

    /** `merge(*others)`: set union with each report in turn; risks already present stay. */
    method Merge(others: seq<Report>)
      requires Valid()
      requires forall k :: 0 <= k < |others| ==> others[k].Valid()
      modifies this
      ensures Valid()
      ensures risks == UnionAll(old(risks), old(Snapshot(others)))
      ensures i == old(i) && ordered == old(ordered)
    {
      ghost var start := risks;
      ghost var snap := Snapshot(others);
      for k := 0 to |others|
        invariant Keyed(risks)
        invariant risks == UnionAll(start, snap[..k])
        invariant i == old(i) && ordered == old(ordered)
        invariant forall j :: 0 <= j < |others| && others[j] != this ==> others[j].risks == snap[j]
      {
        assert snap[..k + 1][..k] == snap[..k];
        if others[k] == this {
          UnionAllKeeps(start, snap[..k]);
          UnionAbsorbs(risks, risks);
          UnionAbsorbs(risks, snap[k]);
        }
        risks := Union(risks, others[k].risks);
      }
      assert snap[..|others|] == snap;
    }

    /** `report |= other`. */
    method IOr(other: Report) returns (it: Report)
      requires Valid() && other.Valid()
      modifies this
      ensures it == this && Valid()
      ensures risks == Union(old(risks), old(other.risks))
      ensures i == old(i) && ordered == old(ordered)
    {
      risks := Union(risks, other.risks);
      it := this;
    }

    /** `_write_risks`: a column argument that is not a list raises TypeError before
      * anything is written; otherwise the given columns, or the default four, are
      * written as `WriteColumns` says. */
    method WriteRisks(headings: bool, columns: Columns, highFirst: bool, html: bool,
                      impactStr: SR.Impact -> string)
      returns (rows: seq<seq<string>>, order: seq<SR.Risk>, err: Option<Error>)
      requires Valid()
      ensures columns.COther? ==> rows == [] && err == Some(TypeError)
      ensures !columns.COther? ==> Written(ColumnsOf(columns), headings, html, impactStr, risks, highFirst, rows, order, err)
    {
      if columns.COther? {
        return [], [], Some(TypeError);
      }
      rows, order, err := WriteColumns(headings, ColumnsOf(columns), highFirst, html, impactStr);
    }

    /** The rest of `_write_risks`: the heading row (when asked for) and one row per
      * risk, in the order `security_risks` gives, which is returned as `order`. An
      * unknown column name raises ValueError at the first risk, after the heading row. */
    method WriteColumns(headings: bool, cols: seq<string>, highFirst: bool, html: bool,
                        impactStr: SR.Impact -> string)
      returns (rows: seq<seq<string>>, order: seq<SR.Risk>, err: Option<Error>)
      requires Valid()
      ensures Written(cols, headings, html, impactStr, risks, highFirst, rows, order, err)
    {
      rows := Heading(headings, cols);
      order := SecurityRisks(highFirst);
      if |order| == 0 {
        return rows, order, None;
      }
      if !AllKnown(cols) {
        return rows, order, Some(ValueError);
      }
      var body := WriteRows(order, cols, html, impactStr);
      rows := rows + body;
      err := None;
    }
  }

  /** What `_write_risks` leaves written, for columns `cols`, when the risks are `m`. */
  predicate Written(cols: seq<string>, headings: bool, html: bool, impactStr: SR.Impact -> string,
                    m: Risks, highFirst: bool, rows: seq<seq<string>>, order: seq<SR.Risk>, err: Option<Error>)
  {
    Lists(order, m) && Ranked(order, Key, highFirst) &&
    if |m| > 0 && !AllKnown(cols) then
      rows == Heading(headings, cols) && err == Some(ValueError)
    else
      err == None &&
      rows == Heading(headings, cols) + (if |m| == 0 then [] else RowsOf(order, cols, html, impactStr))
  }

  /** The columns `_write_risks` writes: the given ones, or the default four. */
  function ColumnsOf(columns: Columns): seq<string>
    requires !columns.COther?
  {
    if columns.CNone? then DefaultColumns else columns.names
  }

  /** The heading row, written as given (not lower-cased), when asked for. */
  function Heading(headings: bool, cols: seq<string>): seq<seq<string>>
  {
    if headings then [cols] else []
  }

  predicate AllKnown(cols: seq<string>)
  {
    forall j :: 0 <= j < |cols| ==> KnownColumn(cols[j])
  }

  /** One more known column adds its cell to the row. */
  lemma RowStep(r: SR.Risk, cols: seq<string>, j: nat, html: bool, impactStr: SR.Impact -> string)
    requires j < |cols| && AllKnown(cols[..j]) && KnownColumn(cols[j])
    ensures AllKnown(cols[..j + 1])
    ensures RowOf(r, cols[..j + 1], html, impactStr) == RowOf(r, cols[..j], html, impactStr) + [Cell(r, cols[j], html, impactStr)]
  {
    assert cols[..j + 1][..j] == cols[..j];
  }

  /** The inner loop of `_write_risks`: the cells of one risk's row, or None at the
    * first unknown column name. */
  method BuildRow(r: SR.Risk, cols: seq<string>, html: bool, impactStr: SR.Impact -> string)
    returns (row: Option<seq<string>>)
    ensures row.Some? <==> AllKnown(cols)
    ensures row.Some? ==> row.value == RowOf(r, cols, html, impactStr)
  {
    var cells: seq<string> := [];
    for j := 0 to |cols|
      invariant AllKnown(cols[..j])
      invariant cells == RowOf(r, cols[..j], html, impactStr)
    {
      if !KnownColumn(cols[j]) {
        assert !AllKnown(cols);
        return None;
      }
      RowStep(r, cols, j, html, impactStr);
      cells := cells + [Cell(r, cols[j], html, impactStr)];
    }
    assert cols[..|cols|] == cols;
    return Some(cells);
  }

  /** The outer loop of `_write_risks` once the columns are known good. */
  method WriteRows(order: seq<SR.Risk>, cols: seq<string>, html: bool, impactStr: SR.Impact -> string)
    returns (rows: seq<seq<string>>)
    requires AllKnown(cols)
    ensures rows == RowsOf(order, cols, html, impactStr)
  {
    rows := [];
    for k := 0 to |order|
      invariant rows == RowsOf(order[..k], cols, html, impactStr)
    {
      var row := BuildRow(order[k], cols, html, impactStr);
      assert order[..k + 1][..k] == order[..k];
      rows := rows + [row.value];
    }
    assert order[..|order|] == order;
  }

  /** The risks each report holds, as values. */
  function Snapshot(others: seq<Report>): (s: seq<Risks>)
    reads others
    ensures |s| == |others|
    ensures forall k :: 0 <= k < |others| ==> s[k] == others[k].risks
  {
    seq(|others|, k reads others requires 0 <= k < |others| => others[k].risks)
  }
}
