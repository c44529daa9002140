/** `depthcharge.uboot.env`: the U-Boot environment as `printenv` text and as the binary
  * image stored in flash, and the expansion of `$name` / `${name}` references. An
  * environment is a dictionary from variable names to values. */
module UBootEnv {
  import opened Errors
  import opened PyBytes
  import opened Crc
  import opened PyStr
  import PyInt

  type Env = map<string, string>

  // ---- parse: printenv text ----

  /** `os.linesep` on a POSIX host. */
  const LINESEP: string := "\n"

  /** Output lines of `printenv` that are not definitions. */
  const SIZE_PREFIX: string := "Environment size: "

  predicate EndsWithBackslash(s: string)
  {
    |s| > 0 && s[|s| - 1] == '\\'
  }

  /** The parser's variables between lines: the results so far, the last name defined,
    * and whether the next line continues that name's value. */
  datatype ParseState = ParseState(results: Env, prev: string, cont: bool)

  predicate Consistent(st: ParseState)
  {
    st.cont ==> st.prev in st.results
  }

  /** Line `line` defines variable `name` (a line that is not a continuation). */
  predicate DefinesName(line: string, name: string)
  {
    line != [] && !StartsWith(line, SIZE_PREFIX) && IndexOf(line, '=') == |name| && line[..|name|] == name
  }

  /** One pass of `parse`'s loop body. */
  function ParseLine(st: ParseState, line: string): (r: ParseState)
    requires Consistent(st)
    ensures Consistent(r)
  {
    if st.cont then
      st.(results := st.results[st.prev := st.results[st.prev] + LINESEP + line], cont := EndsWithBackslash(line))
    else if line == [] || StartsWith(line, SIZE_PREFIX) then st
    else
      var i := IndexOf(line, '=');
      if i < 0 then st
      else ParseState(st.results[line[..i] := line[i + 1..]], line[..i], EndsWithBackslash(line[i + 1..]))
  }

  /** The state after the given lines. */
  function ParseAll(lines: seq<string>): (r: ParseState)
    ensures Consistent(r)
  {
    if |lines| == 0 then ParseState(map[], [], false)
    else ParseLine(ParseAll(lines[..|lines| - 1]), lines[|lines| - 1])
  }

  /** `parse`, over the text's lines (`text.splitlines()`): ValueError when no line
    * defines a variable, otherwise the variables, each named by some line. */
  function Parse(lines: seq<string>): (r: Result<Env>)
    ensures r.Err? ==> r.error == ValueError
    ensures r.Ok? ==> r.value != map[]
    ensures r.Ok? ==> forall name :: name in r.value ==> exists j :: 0 <= j < |lines| && DefinesName(lines[j], name)
  {
    ParseKeysAll(lines);
    if ParseAll(lines).results == map[] then Err(ValueError) else Ok(ParseAll(lines).results)
  }

  /** Every name of the parsed variables is defined by some line. */
  lemma ParseKeysAll(lines: seq<string>)
    ensures forall name :: name in ParseAll(lines).results ==> exists j :: 0 <= j < |lines| && DefinesName(lines[j], name)
  {
    forall name | name in ParseAll(lines).results
      ensures exists j :: 0 <= j < |lines| && DefinesName(lines[j], name)
    {
      ParseKeysDefined(lines, name);
    }
  }

  /** `parse(text)`: the loop over `text.splitlines()`. */
  method ParseText(text: string) returns (r: Result<Env>)
    ensures r == Parse(SplitLines(text))
  {
    var lines := SplitLines(text);
    var results: Env := map[];
    var prevName: string := [];
    var expectContinuation := false;
    for n := 0 to |lines|
      invariant ParseAll(lines[..n]) == ParseState(results, prevName, expectContinuation)
    {
      assert lines[..n + 1][..n] == lines[..n];
      var line := lines[n];
      if expectContinuation {
        results := results[prevName := results[prevName] + LINESEP + line];
        expectContinuation := EndsWithBackslash(line);
      } else if line != [] && !StartsWith(line, SIZE_PREFIX) {
        var delim := IndexOf(line, '=');
        if delim >= 0 {
          var name := line[..delim];
          var value := line[delim + 1..];
          results := results[name := value];
          prevName := name;
          expectContinuation := EndsWithBackslash(value);
        }
      }
    }
    assert lines[..|lines|] == lines;
    if results == map[] {
      return Err(ValueError);
    }
    return Ok(results);
  }

  /** Every name `parse` reports is the text before the first '=' of some line. */
  lemma {:induction false} ParseKeysDefined(lines: seq<string>, name: string)
    requires name in ParseAll(lines).results
    ensures exists j :: 0 <= j < |lines| && DefinesName(lines[j], name)
  {
    var front := lines[..|lines| - 1];
    var st := ParseAll(front);
    var line := lines[|lines| - 1];
    if name in st.results {
      ParseKeysDefined(front, name);
      var j :| 0 <= j < |front| && DefinesName(front[j], name);
      assert lines[j] == front[j];
    } else {
      assert DefinesName(lines[|lines| - 1], name);
    }
  }

  /** Text without a single '=' holds no variables: `parse` raises ValueError. */
  lemma ParseNoDefinitions(lines: seq<string>)
    requires forall j :: 0 <= j < |lines| ==> '=' !in lines[j]
    ensures Parse(lines) == Err(ValueError)
  {
    if ParseAll(lines).results != map[] {
      var name :| name in ParseAll(lines).results;
      ParseKeysDefined(lines, name);
      assert false;
    }
  }

  /** The value a defining line gives its name. */
  function ValueOf(line: string): string
  {
    var i := IndexOf(line, '=');
    if i < 0 then [] else line[i + 1..]
  }

  /** Line `j` is the last one defining `name`. */
  predicate LastDefinition(lines: seq<string>, name: string, j: int)
  {
    0 <= j < |lines| && DefinesName(lines[j], name) &&
    forall k :: j < k < |lines| ==> !DefinesName(lines[k], name)
  }

  /** A line that is not a continuation and does not end in '\\' leaves no continuation
    * pending; if it defines `name`, `name` takes its value, otherwise `name` is as before. */
  lemma StepPlain(st: ParseState, line: string, name: string)
    requires Consistent(st) && !st.cont && !EndsWithBackslash(line)
    ensures !ParseLine(st, line).cont
    ensures DefinesName(line, name) ==> name in ParseLine(st, line).results && ParseLine(st, line).results[name] == ValueOf(line)
    ensures !DefinesName(line, name) ==> (name in ParseLine(st, line).results <==> name in st.results)
    ensures !DefinesName(line, name) && name in st.results ==> ParseLine(st, line).results[name] == st.results[name]
  {
    var i := IndexOf(line, '=');
    if i >= 0 && line[i + 1..] != [] {
      assert line[i + 1..][|line[i + 1..]| - 1] == line[|line| - 1];
    }
  }

  /** When the last line does not define `name`, the last definition is the same as in
    * the lines before it. */
  lemma LastDefinitionFront(lines: seq<string>, name: string, j: int)
    requires |lines| > 0 && !DefinesName(lines[|lines| - 1], name)
    ensures LastDefinition(lines, name, j) <==> LastDefinition(lines[..|lines| - 1], name, j)
  {
    var front := lines[..|lines| - 1];
    if 0 <= j < |front| {
      assert lines[j] == front[j];
      assert forall k :: j < k < |front| ==> lines[k] == front[k];
    }
  }

  /** Without continuation lines, a name is defined exactly when some line defines it,
    * and its value is the one its last definition gives. */
  lemma {:induction false} ParseLastWins(lines: seq<string>, name: string)
    requires forall j :: 0 <= j < |lines| ==> !EndsWithBackslash(lines[j])
    ensures !ParseAll(lines).cont
    ensures name in ParseAll(lines).results <==> exists j :: LastDefinition(lines, name, j)
    ensures forall j :: LastDefinition(lines, name, j) ==> ParseAll(lines).results[name] == ValueOf(lines[j])
  {
    if |lines| > 0 {
      var front := lines[..|lines| - 1];
      var line := lines[|lines| - 1];
      ParseLastWins(front, name);
      StepPlain(ParseAll(front), line, name);
      if DefinesName(line, name) {
        assert LastDefinition(lines, name, |lines| - 1);
      } else {
        forall j ensures LastDefinition(lines, name, j) <==> LastDefinition(front, name, j) {
          LastDefinitionFront(lines, name, j);
        }
      }
    }
  }

  /** The line `name=value`. */
  function DefLine(name: string, value: string): (r: string)
    requires '=' !in name
    ensures r == name + "=" + value
    ensures IndexOf(r, '=') == |name| && r[..|name|] == name && ValueOf(r) == value
  {
    var r := name + "=" + value;
    assert r[|name|] == '=' && r[..|name|] == name && r[|name| + 1..] == value;
    r
  }

  /** A value ending in '\\' takes the next line, joined with the line separator. */
  lemma ParseContinuation(st: ParseState, name: string, value: string, next: string)
    requires Consistent(st) && !st.cont
    requires '=' !in name && EndsWithBackslash(value) && !EndsWithBackslash(next)
    requires !StartsWith(DefLine(name, value), SIZE_PREFIX)
    ensures name in ParseLine(ParseLine(st, DefLine(name, value)), next).results
    ensures ParseLine(ParseLine(st, DefLine(name, value)), next).results[name] == value + LINESEP + next
    ensures !ParseLine(ParseLine(st, DefLine(name, value)), next).cont
  {
  }

  // ---- expand_variable: `${name}` and `$name` references ----

  /** A character of `[^\\$\\s]`. */
  predicate NameChar(c: char)
  {
    c != '$' && !PyInt.IsSpace(c)
  }

  /** The length of the longest prefix of `s` made of name characters. */
  function NameRun(s: string): (n: nat)
    ensures n <= |s|
    ensures forall k :: 0 <= k < n ==> NameChar(s[k])
    ensures n < |s| ==> !NameChar(s[n])
  {
    if |s| == 0 || !NameChar(s[0]) then 0 else 1 + NameRun(s[1..])
  }

  /** One match of the reference pattern: it spans `[start, end)`; `braced` is the
    * `${...}` alternative, whose group 1 is `name` (possibly empty), otherwise group 2
    * is `name`. */
  datatype Ref = Ref(start: nat, end: nat, braced: bool, name: string)

  /** `match.group(1) or match.group(2)`: None for `${}`. */
  function VarName(r: Ref): Option<string>
  {
    if r.braced && r.name == [] then None else Some(r.name)
  }

  /** The text `expand_variable` replaces for a reference. */
  function Token(r: Ref): string
  {
    if r.braced && r.name != [] then "${" + r.name + "}" else "$" + r.name
  }

  /** The text a reference matched. */
  function Matched(r: Ref): string
  {
    if r.braced then "${" + r.name + "}" else "$" + r.name
  }

  /** The match of `\\$\\{(.*?)\\}|\\$([^\\$\\s\\{][^\\$\\s]*)` at position `i`, if any:
    * `${` and the text up to the first `}` on the same line, or `$`, one name character
    * other than `{`, and the longest run of name characters after it. */
  function MatchAt(v: string, i: nat): (r: Option<Ref>)
    requires i <= |v|
    ensures r.Some? ==> r.value.start == i && i < r.value.end <= |v| && v[i..r.value.end] == Matched(r.value)
    ensures r.Some? && r.value.braced ==> '}' !in r.value.name && '\n' !in r.value.name
    ensures r.Some? && !r.value.braced ==> r.value.name != [] && r.value.name[0] != '{'
    ensures r.Some? && !r.value.braced ==> forall k :: 0 <= k < |r.value.name| ==> NameChar(r.value.name[k])
    ensures r.Some? && !r.value.braced && r.value.end < |v| ==> !NameChar(v[r.value.end])
  {
    if i + 1 < |v| && v[i] == '$' && v[i + 1] == '{' then
      var k := IndexOf(v[i + 2..], '}');
      if k >= 0 && '\n' !in v[i + 2..][..k] then
        var r := Ref(i, i + 3 + k, true, v[i + 2..][..k]);
        assert v[i..r.end] == "${" + r.name + "}" by {
          assert v[i..r.end] == [v[i], v[i + 1]] + v[i + 2..][..k] + [v[i + 2..][k]];
        }
        Some(r)
      else None
    else if i + 1 < |v| && v[i] == '$' && NameChar(v[i + 1]) then
      var n := 1 + NameRun(v[i + 2..]);
      var name := v[i + 1..i + 1 + n];
      UnbracedShape(v, i, n, name);
      Some(Ref(i, i + 1 + n, false, name))
    else None
  }

  /** The unbraced alternative at `i` spans `$` and the run of `n` name characters after
    * it, which a non-name character or the end of the value stops. */
  lemma UnbracedShape(v: string, i: nat, n: nat, name: string)
    requires i + 1 < |v| && v[i] == '$' && NameChar(v[i + 1]) && n == 1 + NameRun(v[i + 2..])
    requires i + 1 + n <= |v| && name == v[i + 1..i + 1 + n]
    ensures v[i..i + 1 + n] == "$" + name
    ensures forall k :: 0 <= k < n ==> NameChar(name[k])
    ensures i + 1 + n < |v| ==> !NameChar(v[i + 1 + n])
  {
    assert v[i..i + 1 + n] == [v[i]] + name;
    assert forall k :: 1 <= k < n ==> name[k] == v[i + 2..][k - 1];
    assert i + 1 + n < |v| ==> v[i + 1 + n] == v[i + 2..][n - 1];
  }

  /** `finditer` from position `i`: after a match the scan resumes at its end, after
    * a position without a match at the next one. */
  function Refs(v: string, i: nat): (rs: seq<Ref>)
    requires i <= |v|
    ensures forall k :: 0 <= k < |rs| ==> i <= rs[k].start < rs[k].end <= |v|
    decreases |v| - i
  {
    if i == |v| then []
    else match MatchAt(v, i)
      case Some(r) => [r] + Refs(v, r.end)
      case None => Refs(v, i + 1)
  }

  /** `str.replace`: every non-overlapping occurrence of `pat`, left to right. */
  function Replace(s: string, pat: string, repl: string): string
    requires pat != []
  {
    if |s| < |pat| then s
    else if s[..|pat|] == pat then repl + Replace(s[|pat|..], pat, repl)
    else [s[0]] + Replace(s[1..], pat, repl)
  }

  /** The body of the inner loop for one match. */
  function Apply(env: Env, r: Ref, value: string): string
  {
    if VarName(r).Some? && VarName(r).value in env then Replace(value, Token(r), env[VarName(r).value])
    else value
  }

  /** The inner loop, over matches found in the value the pass started from. */
  function ApplyAll(env: Env, rs: seq<Ref>, value: string): string
  {
    if rs == [] then value else ApplyAll(env, rs[1..], Apply(env, rs[0], value))
  }

  /** One pass of the outer loop. */
  function Pass(env: Env, value: string): string
  {
    ApplyAll(env, Refs(value, 0), value)
  }

  /** The outer loop with `n` passes left: the first value a pass leaves unchanged, or
    * None when the limit is reached. */
  function Fix(env: Env, value: string, n: nat): Option<string>
    decreases n
  {
    if n == 0 then None
    else if Pass(env, value) == value then Some(value)
    else Fix(env, Pass(env, value), n - 1)
  }

  /** `expand_variable(env, name, limit=limit, warn_only=warnOnly)`. A reference left in
    * the result makes the message formatting raise TypeError when it is `${}` (group
    * 1 and 2 are then both empty or None); otherwise it is a warning, or ValueError. */
  function ExpandVariable(env: Env, name: string, limit: int, warnOnly: bool): (r: Result<string>)
    ensures r == Err(KeyError) <==> name !in env
    ensures name in env && limit <= 0 ==> r == Err(ValueError)
    ensures r.Ok? ==> Pass(env, r.value) == r.value
    ensures r.Ok? && !warnOnly ==> Refs(r.value, 0) == []
  {
    if name !in env then Err(KeyError)
    else
      var fixed := Fix(env, env[name], if limit < 0 then 0 else limit);
      if fixed.None? then Err(ValueError)
      else
        FixIsFixpoint(env, env[name], if limit < 0 then 0 else limit);
        var left := Refs(fixed.value, 0);
        if left == [] then Ok(fixed.value)
        else if VarName(left[0]).None? then Err(TypeError)
        else if !warnOnly then Err(ValueError)
        else Ok(fixed.value)
  }

  /** What the outer loop stops on is a value a pass leaves unchanged. */
  lemma {:induction false} FixIsFixpoint(env: Env, value: string, n: nat)
    ensures Fix(env, value, n).Some? ==> Pass(env, Fix(env, value, n).value) == Fix(env, value, n).value
    decreases n
  {
    if n > 0 && Pass(env, value) != value {
      FixIsFixpoint(env, Pass(env, value), n - 1);
    }
  }

  /** The inner loop of `expand_variable`. */
  method PassOnce(env: Env, value: string) returns (w: string)
    ensures w == Pass(env, value)
  {
    var matches := Refs(value, 0);
    w := value;
    for j := 0 to |matches|
      invariant ApplyAll(env, matches[j..], w) == Pass(env, value)
    {
      assert matches[j..][1..] == matches[j + 1..];
      var m := matches[j];
      var varName := VarName(m);
      if varName.Some? && varName.value in env {
        w := Replace(w, Token(m), env[varName.value]);
      }
    }
  }

  /** `expand_variable`'s loops. */
  method ExpandVariableLoop(env: Env, toExpand: string, limit: int, warnOnly: bool) returns (r: Result<string>)
    ensures r == ExpandVariable(env, toExpand, limit, warnOnly)
  {
    if toExpand !in env {
      return Err(KeyError);
    }
    ghost var whole := Fix(env, env[toExpand], if limit < 0 then 0 else limit);
    var value := env[toExpand];
    var result: Option<string> := None;
    var n := 0;
    while n < limit
      invariant 0 <= n && (limit >= 0 ==> n <= limit)
      invariant Fix(env, value, if limit - n < 0 then 0 else limit - n) == whole
      invariant result.None?
    {
      var prev := value;
      value := PassOnce(env, value);
      if prev == value {
        result := Some(value);
        break;
      }
      n := n + 1;
    }
    if result.None? {
      return Err(ValueError);
    }
    var left := Refs(value, 0);
    if left != [] {
      if VarName(left[0]).None? {
        return Err(TypeError);
      }
      if !warnOnly {
        return Err(ValueError);
      }
    }
    return Ok(result.value);
  }

  /** A value without '$' holds no reference. */
  lemma {:induction false} NoDollarNoRefs(v: string, i: nat)
    requires i <= |v| && '$' !in v
    ensures Refs(v, i) == []
    decreases |v| - i
  {
    if i < |v| {
      assert v[i] in v;
      NoDollarNoRefs(v, i + 1);
    }
  }

  /** A value without '$' expands to itself as soon as the limit allows one pass. */
  lemma NoDollarExpandsToItself(env: Env, name: string, limit: int, warnOnly: bool)
    requires name in env && '$' !in env[name] && limit >= 1
    ensures ExpandVariable(env, name, limit, warnOnly) == Ok(env[name])
  {
    NoDollarNoRefs(env[name], 0);
  }

  lemma {:induction false} NameRunAll(s: string, t: string)
    requires forall k :: 0 <= k < |s| ==> NameChar(s[k])
    requires t == [] || !NameChar(t[0])
    ensures NameRun(s + t) == |s|
  {
    if s != [] {
      assert (s + t)[1..] == s[1..] + t;
      NameRunAll(s[1..], t);
    }
  }

  lemma ReplaceWhole(s: string, repl: string)
    requires s != []
    ensures Replace(s, s, repl) == repl
  {
    assert s[|s|..] == [];
  }

  /** A value that is exactly one reference to a defined variable becomes that
    * variable's value in one pass. */
  lemma OneRefPass(env: Env, v: string, r: Ref)
    requires Refs(v, 0) == [r] && Token(r) == v && VarName(r).Some? && VarName(r).value in env
    ensures Pass(env, v) == env[VarName(r).value]
  {
    ReplaceWhole(v, env[VarName(r).value]);
    assert Apply(env, r, v) == env[VarName(r).value];
    assert [r][1..] == [];
    assert ApplyAll(env, [r], v) == ApplyAll(env, [], Apply(env, r, v));
  }

  /** A name `$name` can take in the unbraced form. */
  predicate PlainName(name: string)
  {
    name != [] && name[0] != '{' && forall k :: 0 <= k < |name| ==> NameChar(name[k])
  }

  /** `$name` alone is one unbraced reference. */
  lemma PlainRef(name: string)
    requires PlainName(name)
    ensures Refs("$" + name, 0) == [Ref(0, |name| + 1, false, name)]
  {
    var v := "$" + name;
    assert v[2..] == name[1..] + [];
    NameRunAll(name[1..], []);
    assert v[1..1 + |name|] == name;
  }

  /** `$name` for a defined plain name becomes the name's value in one pass. */
  lemma PlainPass(env: Env, name: string)
    requires PlainName(name) && name in env
    ensures Pass(env, "$" + name) == env[name]
  {
    PlainRef(name);
    OneRefPass(env, "$" + name, Ref(0, |name| + 1, false, name));
  }

  /** Two variables defined as references to each other never reach a fixpoint:
    * `expand_variable` raises ValueError whatever the limit. */
  lemma {:induction false} MutualReferenceCycle(env: Env, a: string, b: string, n: nat)
    requires PlainName(a) && PlainName(b) && a != b
    requires a in env && b in env && env[a] == "$" + b && env[b] == "$" + a
    ensures Fix(env, env[a], n) == None && Fix(env, env[b], n) == None
    decreases n
  {
    if n > 0 {
      PlainPass(env, a);
      PlainPass(env, b);
      assert env[a][1..] == b && env[b][1..] == a;
      MutualReferenceCycle(env, a, b, n - 1);
    }
  }

  lemma MutualReferenceRaises(env: Env, a: string, b: string, limit: int, warnOnly: bool)
    requires PlainName(a) && PlainName(b) && a != b
    requires a in env && b in env && env[a] == "$" + b && env[b] == "$" + a
    ensures ExpandVariable(env, a, limit, warnOnly) == Err(ValueError)
  {
    MutualReferenceCycle(env, a, b, if limit < 0 then 0 else limit);
  }

  /** `${n}` expands to the value of `n` when that value holds no reference. */
  lemma BracedReference(env: Env, name: string, n: string, limit: int, warnOnly: bool)
    requires n != [] && '}' !in n && '\n' !in n && n in env && '$' !in env[n]
    requires name in env && env[name] == "${" + n + "}" && limit >= 2
    ensures ExpandVariable(env, name, limit, warnOnly) == Ok(env[n])
  {
    var v := env[name];
    assert v[2..] == n + "}";
    var k := IndexOf(v[2..], '}');
    assert (n + "}")[|n|] == '}';
    assert v[2..][..k] == n;
    assert MatchAt(v, 0) == Some(Ref(0, |n| + 3, true, n));
    assert Refs(v, 0) == [Ref(0, |n| + 3, true, n)];
    ReplaceWhole(v, env[n]);
    OneRefPass(env, v, Ref(0, |n| + 3, true, n));
    NoDollarNoRefs(env[n], 0);
    assert Pass(env, env[n]) == env[n];
    assert Pass(env, v) != v by {
      assert v[0] == '$';
      assert v[0] in v;
    }
    var l := if limit < 0 then 0 else limit;
    assert Fix(env, v, l) == Fix(env, env[n], l - 1);
    assert Fix(env, env[n], l - 1) == Some(env[n]);
  }

  /** `expand`: every variable expanded in the original environment. The source visits
    * the keys in the dictionary's order and stops at the first exception; the keys
    * are visited here in an unspecified order. */
  method Expand(env: Env, limit: int, warnOnly: bool) returns (r: Result<Env>)
    ensures r.Ok? <==> forall k :: k in env ==> ExpandVariable(env, k, limit, warnOnly).Ok?
    ensures r.Ok? ==> r.value.Keys == env.Keys
    ensures r.Ok? ==> forall k :: k in env ==> r.value[k] == ExpandVariable(env, k, limit, warnOnly).value
    ensures r.Err? ==> exists k :: k in env && ExpandVariable(env, k, limit, warnOnly) == Err(r.error)
  {
    var ret := env;
    var todo := env.Keys;
    while todo != {}
      invariant todo <= env.Keys && ret.Keys == env.Keys
      invariant forall k :: k in env && k !in todo ==> ExpandVariable(env, k, limit, warnOnly).Ok?
      invariant forall k :: k in env && k !in todo ==> ret[k] == ExpandVariable(env, k, limit, warnOnly).value
      decreases todo
    {
      var k :| k in todo;
      var x := ExpandVariableLoop(env, k, limit, warnOnly);
      if x.Err? {
        return Err(x.error);
      }
      ret := ret[k := x.value];
      todo := todo - {k};
    }
    return Ok(ret);
  }

  // ---- parse_raw / create_raw / load_raw: the binary image ----

  /** `[\\x20-\\x3c\\x3e-\\x7f]`: a name byte of `raw_var_regex` (anything printable but '='). */
  predicate NameByte(b: byte)
  {
    0x20 <= b <= 0x3c || 0x3e <= b <= 0x7f
  }

  /** `[\\x09\\x0a\\x0d\\x20-\\x7f]`: a value byte of `raw_var_regex`. */
  predicate ValueByte(b: byte)
  {
    b == 0x09 || b == 0x0a || b == 0x0d || 0x20 <= b <= 0x7f
  }

  function NameBytes(d: seq<byte>): (n: nat)
    ensures n <= |d|
    ensures forall k :: 0 <= k < n ==> NameByte(d[k])
    ensures n < |d| ==> !NameByte(d[n])
  {
    if |d| == 0 || !NameByte(d[0]) then 0 else 1 + NameBytes(d[1..])
  }

  function ValueBytes(d: seq<byte>): (n: nat)
    ensures n <= |d|
    ensures forall k :: 0 <= k < n ==> ValueByte(d[k])
    ensures n < |d| ==> !ValueByte(d[n])
  {
    if |d| == 0 || !ValueByte(d[0]) then 0 else 1 + ValueBytes(d[1..])
  }

  /** `bytes.decode('ascii')`; both byte classes lie below 0x80, where it cannot fail. */
  function Decode(d: seq<byte>): (s: string)
    ensures |s| == |d|
  {
    if d == [] then [] else [d[0] as char] + Decode(d[1..])
  }

  /** `str.encode('ascii')`: None where Python raises UnicodeEncodeError. */
  function Encode(s: string): (r: Option<seq<byte>>)
    ensures r.Some? <==> forall k :: 0 <= k < |s| ==> s[k] as int < 0x80
    ensures r.Some? ==> |r.value| == |s| && forall k :: 0 <= k < |s| ==> r.value[k] == s[k] as int
  {
    if s == [] then Some([])
    else if s[0] as int >= 0x80 then None
    else match Encode(s[1..])
      case None => None
      case Some(t) => Some([s[0] as int] + t)
  }

  /** The match of `raw_var_regex` at the start of `d`: the name (the longest run of
    * name bytes), '=', the value (the longest run of value bytes) and a NUL. Neither
    * class holds the byte that ends its run, so the pattern cannot backtrack. */
  function VarAt(d: seq<byte>): (r: Option<(string, string, int)>)
    ensures r.Some? ==> 0 < r.value.2 <= |d|
  {
    var n := NameBytes(d);
    if n == 0 || n == |d| || d[n] != 0x3d then None
    else ValueAt(d[..n], d[n + 1..], ValueBytes(d[n + 1..]))
  }

  /** The rest of the match once the name and '=' are read: `t` follows the '=' and
    * its value run is `m` bytes long. */
  function ValueAt(name: seq<byte>, t: seq<byte>, m: nat): (r: Option<(string, string, int)>)
    requires m <= |t|
    ensures r.Some? ==> r.value.2 == |name| + 2 + m && m < |t|
  {
    if m == 0 || m == |t| || t[m] != 0 then None
    else Some((Decode(name), Decode(t[..m]), |name| + 2 + m))
  }

  /** `raw_var_regex().finditer(d)`, as (name, value) pairs. */
  function Scan(d: seq<byte>): seq<(string, string)>
  {
    if d == [] then []
    else match VarAt(d)
      case Some((name, value, k)) => [(name, value)] + Scan(d[k..])
      case None => Scan(d[1..])
  }

  /** The results dictionary after the given pairs: a later pair overwrites an earlier one. */
  function Collect(pairs: seq<(string, string)>): (r: Env)
    ensures forall k :: 0 <= k < |pairs| ==> pairs[k].0 in r
    ensures forall x :: x in r ==> exists k :: 0 <= k < |pairs| && pairs[k] == (x, r[x])
  {
    if pairs == [] then map[]
    else Collect(pairs[..|pairs| - 1])[pairs[|pairs| - 1].0 := pairs[|pairs| - 1].1]
  }

  /** No pair after the `k`th names the same variable. */
  predicate LastOfName(pairs: seq<(string, string)>, k: int)
    requires 0 <= k < |pairs|
  {
    forall j :: k < j < |pairs| ==> pairs[j].0 != pairs[k].0
  }

  /** Of the pairs naming one variable, the last one gives its value, as the dictionary
    * assignment in match order does. */
  lemma {:induction false} CollectLastWins(pairs: seq<(string, string)>)
    ensures forall k :: 0 <= k < |pairs| && LastOfName(pairs, k) ==> Collect(pairs)[pairs[k].0] == pairs[k].1
  {
    if pairs != [] {
      var n := |pairs| - 1;
      var front := pairs[..n];
      CollectLastWins(front);
      forall k | 0 <= k < |pairs| && LastOfName(pairs, k)
        ensures Collect(pairs)[pairs[k].0] == pairs[k].1
      {
        if k < n {
          assert front[k] == pairs[k];
          assert LastOfName(front, k) by {
            forall j | k < j < n
              ensures front[j].0 != front[k].0
            {
              assert front[j] == pairs[j];
            }
          }
          assert pairs[n].0 != pairs[k].0;
        }
      }
    }
  }

  /** `parse_raw`: ValueError exactly when no variable matches; otherwise every
    * matched name, each with the value of one of its matches. */
  function ParseRaw(d: seq<byte>): (r: Result<Env>)
    ensures r.Err? <==> Scan(d) == []
    ensures r.Err? ==> r.error == ValueError
    ensures r.Ok? ==> forall k :: 0 <= k < |Scan(d)| ==> Scan(d)[k].0 in r.value
    ensures r.Ok? ==> forall x :: x in r.value ==> exists k :: 0 <= k < |Scan(d)| && Scan(d)[k] == (x, r.value[x])
  {
    if Collect(Scan(d)) == map[] then Err(ValueError) else Ok(Collect(Scan(d)))
  }

  /** `parse_raw` keeps, for a name matched more than once, the value of its last match. */
  lemma ParseRawLastWins(d: seq<byte>)
    requires ParseRaw(d).Ok?
    ensures forall k :: 0 <= k < |Scan(d)| && LastOfName(Scan(d), k) ==>
      ParseRaw(d).value[Scan(d)[k].0] == Scan(d)[k].1
  {
    CollectLastWins(Scan(d));
  }


  /** `parse_raw`'s loop: one dictionary update per match. */
  method ParseRawLoop(d: seq<byte>) returns (r: Result<Env>)
    ensures r == ParseRaw(d)
  {
    var matches := Scan(d);
    var results: Env := map[];
    for i := 0 to |matches|
      invariant results == Collect(matches[..i])
    {
      assert matches[..i + 1][..i] == matches[..i];
      results := results[matches[i].0 := matches[i].1];
    }
    assert matches[..|matches|] == matches;
    if results == map[] {
      return Err(ValueError);
    }
    return Ok(results);
  }

  /** `parse_raw` raises ValueError exactly when the pattern matches nowhere. */
  lemma ParseRawFailsIffNoMatch(d: seq<byte>)
    ensures ParseRaw(d) == Err(ValueError) <==> Scan(d) == []
  {
    var p := Scan(d);
    if p != [] {
      assert p[|p| - 1].0 in Collect(p);
    }
  }

  // Code-point order of strings, as `sorted` uses.

  predicate StrLt(a: string, b: string)
  {
    |b| > 0 && (|a| == 0 || a[0] < b[0] || (a[0] == b[0] && StrLt(a[1..], b[1..])))
  }

  lemma {:induction false} StrLtIrreflexive(a: string)
    ensures !StrLt(a, a)
  {
    if |a| > 0 {
      StrLtIrreflexive(a[1..]);
    }
  }

  lemma {:induction false} StrLtTransitive(a: string, b: string, c: string)
    requires StrLt(a, b) && StrLt(b, c)
    ensures StrLt(a, c)
  {
    if |a| > 0 && a[0] == b[0] && b[0] == c[0] {
      StrLtTransitive(a[1..], b[1..], c[1..]);
    }
  }

  lemma {:induction false} StrLtTotal(a: string, b: string)
    requires a != b
    ensures StrLt(a, b) || StrLt(b, a)
  {
    if |a| > 0 && |b| > 0 && a[0] == b[0] {
      assert a[1..] != b[1..];
      StrLtTotal(a[1..], b[1..]);
    }
  }

  /** `m` is the least string of `s`. */
  predicate IsLeast(s: set<string>, m: string)
  {
    m in s && forall x :: x in s && x != m ==> StrLt(m, x)
  }

  lemma {:induction false} LeastExists(s: set<string>)
    requires s != {}
    ensures exists m :: IsLeast(s, m)
    decreases |s|
  {
    var x :| x in s;
    if s != {x} {
      LeastExists(s - {x});
      var m :| IsLeast(s - {x}, m);
      if StrLt(x, m) {
        forall y | y in s && y != x
          ensures StrLt(x, y)
        {
          if y != m {
            StrLtTransitive(x, m, y);
          }
        }
        assert IsLeast(s, x);
      } else {
        StrLtTotal(x, m);
        assert IsLeast(s, m);
      }
    } else {
      assert IsLeast(s, x);
    }
  }

  lemma LeastUnique(s: set<string>, m1: string, m2: string)
    requires IsLeast(s, m1) && IsLeast(s, m2)
    ensures m1 == m2
  {
    if m1 != m2 {
      StrLtTransitive(m1, m2, m1);
      StrLtIrreflexive(m1);
    }
  }

  function Least(s: set<string>): (m: string)
    requires s != {}
    ensures IsLeast(s, m)
  {
    LeastExists(s);
    assert forall m1, m2 :: IsLeast(s, m1) && IsLeast(s, m2) ==> m1 == m2 by {
      forall m1, m2 | IsLeast(s, m1) && IsLeast(s, m2)
        ensures m1 == m2
      {
        LeastUnique(s, m1, m2);
      }
    }
    var m :| IsLeast(s, m);
    m
  }

  /** `sorted(keys)`: the strings of `keys` in ascending code-point order. */
  function Sorted(keys: set<string>): (r: seq<string>)
    ensures |r| == |keys|
    ensures forall x :: x in keys <==> x in r
    ensures forall i, j :: 0 <= i < j < |r| ==> StrLt(r[i], r[j])
    decreases |keys|
  {
    if keys == {} then []
    else
      var m := Least(keys);
      var rest := Sorted(keys - {m});
      assert forall j :: 0 <= j < |rest| ==> rest[j] in keys - {m};
      [m] + rest
  }

  /** One `name=value\\0` entry, or None when either part is not ASCII. */
  function Entry(env: Env, name: string): Option<seq<byte>>
    requires name in env
  {
    var n := Encode(name);
    var v := Encode(env[name]);
    if n.None? || v.None? then None else Some(n.value + [0x3d] + v.value + [0])
  }

  /** The entries of `names`, in order. */
  function EnvBin(env: Env, names: seq<string>): Option<seq<byte>>
    requires forall k :: 0 <= k < |names| ==> names[k] in env
  {
    if names == [] then Some([])
    else
      var e := Entry(env, names[0]);
      var rest := EnvBin(env, names[1..]);
      if e.None? || rest.None? then None else Some(e.value + rest.value)
  }

  /** Adding a name at the end adds its entry at the end. */
  lemma {:induction false} EnvBinSnoc(env: Env, names: seq<string>, name: string)
    requires forall k :: 0 <= k < |names| ==> names[k] in env
    requires name in env
    ensures EnvBin(env, names + [name]) ==
      if EnvBin(env, names).None? || Entry(env, name).None? then None
      else Some(EnvBin(env, names).value + Entry(env, name).value)
  {
    if names != [] {
      assert (names + [name])[1..] == names[1..] + [name];
      assert (names + [name])[0] == names[0];
      EnvBinSnoc(env, names[1..], name);
      var e, rest, last := Entry(env, names[0]), EnvBin(env, names[1..]), Entry(env, name);
      if e.Some? && rest.Some? && last.Some? {
        assert e.value + (rest.value + last.value) == (e.value + rest.value) + last.value;
      }
    } else {
      assert names + [name] == [name];
      assert [name][1..] == [];
      assert EnvBin(env, []) == Some([]);
      assert EnvBin(env, [name][1..]) == Some([]);
      if Entry(env, name).Some? {
        var x := Entry(env, name).value;
        assert x + [] == x && [] + x == x;
      }
    }
  }

  function Zeros(n: nat): (z: seq<byte>)
    ensures |z| == n && forall k :: 0 <= k < n ==> z[k] == 0
  {
    seq(n, k => 0)
  }

  /** `crc32(data)` as a Python integer. */
  function CrcValue(data: seq<byte>): (c: nat)
    ensures c < Pow256(4)
  {
    assert Pow256(4) == 0x1_0000_0000;
    Crc32(data) as int
  }

  /** The bytes in front of the body: 4 for the CRC word and 1 for `flags`,
    * unless `noHeader`. */
  function HeaderLen(flags: Option<int>, noHeader: bool): nat
  {
    if noHeader then 0 else if flags.Some? then 5 else 4
  }

  /** `create_raw(env, size, arch, flags, no_header)` for an architecture of
    * endianness `e`: exactly `size` bytes, or the error that stopped it. */
  function CreateRaw(env: Env, size: int, e: Endian, flags: Option<int>, noHeader: bool): (r: Result<seq<byte>>)
    ensures r.Ok? ==> |r.value| == size
    ensures r.Err? ==> r.error == UnicodeEncodeError || r.error == ValueError || r.error == OverflowError
  {
    var bin := EnvBin(env, Sorted(env.Keys));
    if bin.None? then Err(UnicodeEncodeError) else Layout(bin.value, size, e, flags, noHeader)
  }

  /** The part of `create_raw` after the entries `bin` are built: the padding check,
    * the zero padding, and the CRC word and flags byte in front. */
  function Layout(bin: seq<byte>, size: int, e: Endian, flags: Option<int>, noHeader: bool): Result<seq<byte>>
  {
    var padding := size - |bin| - HeaderLen(flags, noHeader);
    if padding < 0 then Err(ValueError)
    else
      var body := bin + Zeros(padding);
      var crc := ToBytes(CrcValue(body), 4, e);
      if noHeader then Ok(body)
      else if flags.None? then Ok(crc + body)
      else match IntToBytes(flags.value, 1, Big)
        case Err(x) => Err(x)
        case Ok(f) => Ok(crc + f + body)
  }

  /** `create_raw`'s loop: the entries of `names` appended one by one. */
  method EnvBinLoop(env: Env, names: seq<string>) returns (r: Option<seq<byte>>)
    requires forall k :: 0 <= k < |names| ==> names[k] in env
    ensures r == EnvBin(env, names)
  {
    var envBin: seq<byte> := [];
    for i := 0 to |names|
      invariant EnvBin(env, names[..i]) == Some(envBin)
    {
      assert names[..i + 1] == names[..i] + [names[i]];
      EnvBinSnoc(env, names[..i], names[i]);
      var name := Encode(names[i]);
      var value := Encode(env[names[i]]);
      if name.None? || value.None? {
        NoneExtends(env, names, i + 1);
        return None;
      }
      ghost var entry := name.value + [0x3d] + value.value + [0];
      assert Entry(env, names[i]) == Some(entry);
      assert envBin + name.value + [0x3d] + value.value + [0] == envBin + entry;
      envBin := envBin + name.value + [0x3d] + value.value + [0];
    }
    assert names[..|names|] == names;
    return Some(envBin);
  }

  /** `create_raw`: the entries of the sorted names, then the layout. */
  method CreateRawLoop(env: Env, size: int, e: Endian, flags: Option<int>, noHeader: bool) returns (r: Result<seq<byte>>)
    ensures r == CreateRaw(env, size, e, flags, noHeader)
  {
    var bin := EnvBinLoop(env, Sorted(env.Keys));
    if bin.None? {
      return Err(UnicodeEncodeError);
    }
    return Layout(bin.value, size, e, flags, noHeader);
  }

  /** Once a prefix of the names fails to encode, so do all the names. */
  lemma {:induction false} NoneExtends(env: Env, names: seq<string>, i: nat)
    requires forall k :: 0 <= k < |names| ==> names[k] in env
    requires i <= |names| && EnvBin(env, names[..i]).None?
    ensures EnvBin(env, names).None?
    decreases |names| - i
  {
    if i < |names| {
      assert names[..i + 1] == names[..i] + [names[i]];
      EnvBinSnoc(env, names[..i], names[i]);
      NoneExtends(env, names, i + 1);
    } else {
      assert names[..i] == names;
    }
  }

  /** What `load_raw` reports besides the environment. */
  datatype Metadata = Metadata(crc: Option<nat>, flags: Option<byte>, actualCrc: Option<nat>, size: nat)

  /** `load_raw` on the file contents `data`, for an architecture of endianness `e`:
    * the stored and the computed CRC exactly when a CRC word is expected, the flags
    * byte exactly when one is expected too, and IndexError when the data ends before
    * the flags byte. */
  function LoadRaw(data: seq<byte>, e: Endian, hasCrc: bool, hasFlags: bool): (r: Result<(Env, Metadata)>)
    ensures hasCrc && hasFlags && |data| <= 4 ==> r == Err(IndexError)
    ensures r.Err? ==> r.error == IndexError || r.error == ValueError
    ensures r.Ok? ==> (r.value.1.crc.Some? <==> hasCrc) && (r.value.1.actualCrc.Some? <==> hasCrc)
    ensures r.Ok? ==> (r.value.1.flags.Some? <==> hasCrc && hasFlags)
    ensures r.Ok? && hasCrc && hasFlags ==> r.value.1.flags == Some(data[4]) && r.value.1.size == |data| - 5
    ensures r.Ok? && !hasCrc ==> r.value.1.size == |data|
  {
    if !hasCrc then
      match ParseRaw(data)
        case Err(x) => Err(x)
        case Ok(env) => Ok((env, Metadata(None, None, None, |data|)))
    else if hasFlags && |data| <= 4 then Err(IndexError)
    else
      var crc := FromBytes(Slice(data, 0, 4), e);
      var body := Slice(data, if hasFlags then 5 else 4, |data|);
      match ParseRaw(body)
        case Err(x) => Err(x)
        case Ok(env) => Ok((env, Metadata(Some(crc), if hasFlags then Some(data[4]) else None, Some(CrcValue(body)), |body|)))
  }

  /** A name `raw_var_regex` reads back: at least one byte, none of them '='. */
  predicate RawName(name: string)
  {
    name != [] && forall k :: 0 <= k < |name| ==> name[k] as int < 0x80 && NameByte(name[k] as int)
  }

  /** A value `raw_var_regex` reads back: at least one tab, newline, CR or printable byte. */
  predicate RawValue(value: string)
  {
    value != [] && forall k :: 0 <= k < |value| ==> value[k] as int < 0x80 && ValueByte(value[k] as int)
  }

  /** An environment that survives `create_raw` and `parse_raw`. */
  predicate Storable(env: Env)
  {
    env != map[] && forall name :: name in env ==> RawName(name) && RawValue(env[name])
  }

  lemma {:induction false} NameBytesOf(a: seq<byte>, t: seq<byte>)
    requires forall k :: 0 <= k < |a| ==> NameByte(a[k])
    requires t != [] && !NameByte(t[0])
    ensures NameBytes(a + t) == |a|
  {
    if a != [] {
      assert (a + t)[1..] == a[1..] + t;
      NameBytesOf(a[1..], t);
    }
  }

  lemma {:induction false} ValueBytesOf(a: seq<byte>, t: seq<byte>)
    requires forall k :: 0 <= k < |a| ==> ValueByte(a[k])
    requires t != [] && !ValueByte(t[0])
    ensures ValueBytes(a + t) == |a|
  {
    if a != [] {
      assert (a + t)[1..] == a[1..] + t;
      ValueBytesOf(a[1..], t);
    }
  }

  lemma {:induction false} DecodeEncode(s: string)
    requires Encode(s).Some?
    ensures Decode(Encode(s).value) == s
  {
    if s != [] {
      assert Encode(s).value[1..] == Encode(s[1..]).value;
      DecodeEncode(s[1..]);
    }
  }

  lemma RawNameBytes(name: string, n: seq<byte>)
    requires RawName(name) && Encode(name) == Some(n)
    ensures n != [] && forall k :: 0 <= k < |n| ==> NameByte(n[k])
  {
  }

  lemma RawValueBytes(value: string, v: seq<byte>)
    requires RawValue(value) && Encode(value) == Some(v)
    ensures v != [] && forall k :: 0 <= k < |v| ==> ValueByte(v[k])
  {
  }

  lemma SplitAround(a: seq<byte>, x: byte, b: seq<byte>)
    ensures (a + ([x] + b))[..|a|] == a
    ensures (a + ([x] + b))[|a|] == x
    ensures (a + ([x] + b))[|a| + 1..] == b
  {
  }

  /** `raw_var_regex` matches a name run, '=', a value run and a NUL exactly. */
  lemma VarAtConcat(n: seq<byte>, v: seq<byte>, rest: seq<byte>)
    requires n != [] && forall k :: 0 <= k < |n| ==> NameByte(n[k])
    requires v != [] && forall k :: 0 <= k < |v| ==> ValueByte(v[k])
    ensures VarAt(n + ([0x3d] + (v + ([0] + rest)))) == Some((Decode(n), Decode(v), |n| + |v| + 2))
  {
    var u := [0] + rest;
    var t := v + u;
    var d := n + ([0x3d] + t);
    NameBytesOf(n, [0x3d] + t);
    SplitAround(n, 0x3d, t);
    ValueBytesOf(v, u);
    SplitAround(v, 0, rest);
    assert VarAt(d) == ValueAt(n, t, |v|);
    assert t[..|v|] == v;
    assert t[|v|] == 0 && |v| < |t|;
    assert ValueAt(n, t, |v|) == Some((Decode(n), Decode(v), |n| + 2 + |v|));
  }

  /** `raw_var_regex` matches an encoded entry exactly. */
  lemma VarAtEntry(name: string, value: string, n: seq<byte>, v: seq<byte>, rest: seq<byte>)
    requires RawName(name) && RawValue(value) && Encode(name) == Some(n) && Encode(value) == Some(v)
    ensures VarAt(n + ([0x3d] + (v + ([0] + rest)))) == Some((name, value, |n| + |v| + 2))
  {
    RawNameBytes(name, n);
    RawValueBytes(value, v);
    VarAtConcat(n, v, rest);
    DecodeEncode(name);
    DecodeEncode(value);
  }

  /** `raw_var_regex` matches a stored entry exactly. */
  lemma EntryMatches(env: Env, name: string, rest: seq<byte>)
    requires name in env && RawName(name) && RawValue(env[name])
    ensures Entry(env, name).Some?
    ensures VarAt(Entry(env, name).value + rest) == Some((name, env[name], |Entry(env, name).value|))
  {
    var n, v := Encode(name).value, Encode(env[name]).value;
    assert Entry(env, name) == Some(n + [0x3d] + v + [0]);
    assert n + [0x3d] + v + [0] + rest == n + ([0x3d] + (v + ([0] + rest)));
    VarAtEntry(name, env[name], n, v, rest);
  }

  /** The (name, value) pairs of `names`. */
  function Pairs(env: Env, names: seq<string>): (p: seq<(string, string)>)
    requires forall k :: 0 <= k < |names| ==> names[k] in env
    ensures |p| == |names| && forall k :: 0 <= k < |names| ==> p[k] == (names[k], env[names[k]])
  {
    seq(|names|, k requires 0 <= k < |names| => (names[k], env[names[k]]))
  }

  /** Every name of `names` is stored and reads back. */
  predicate AllRaw(env: Env, names: seq<string>)
  {
    forall k :: 0 <= k < |names| ==> names[k] in env && RawName(names[k]) && RawValue(env[names[k]])
  }

  lemma AllRawTail(env: Env, names: seq<string>)
    requires AllRaw(env, names) && names != []
    ensures AllRaw(env, names[1..])
    ensures names[0] in env && RawName(names[0]) && RawValue(env[names[0]])
  {
    assert forall k :: 0 <= k < |names| - 1 ==> names[1..][k] == names[k + 1];
  }

  lemma EnvBinCons(env: Env, names: seq<string>, e: seq<byte>, tail: seq<byte>)
    requires forall k :: 0 <= k < |names| ==> names[k] in env
    requires names != [] && Entry(env, names[0]) == Some(e) && EnvBin(env, names[1..]) == Some(tail)
    ensures EnvBin(env, names) == Some(e + tail)
  {
  }

  lemma ScanStep(d: seq<byte>, name: string, value: string, k: int)
    requires VarAt(d) == Some((name, value, k))
    ensures 0 < k <= |d|
    ensures Scan(d) == [(name, value)] + Scan(d[k..])
  {
  }

  lemma PairsCons(env: Env, names: seq<string>)
    requires forall k :: 0 <= k < |names| ==> names[k] in env
    requires names != []
    ensures Pairs(env, names) == [(names[0], env[names[0]])] + Pairs(env, names[1..])
  {
  }

  lemma Regroup(a: seq<byte>, b: seq<byte>, c: seq<byte>)
    ensures (a + b) + c == a + (b + c)
    ensures (a + (b + c))[|a|..] == b + c
  {
  }

  lemma ConsAssoc<T>(x: T, a: seq<T>, b: seq<T>)
    ensures ([x] + a) + b == [x] + (a + b)
  {
  }

  /** Stored entries scan back as their pairs, in order. */
  lemma {:induction false} ScanEntries(env: Env, names: seq<string>, rest: seq<byte>)
    requires AllRaw(env, names)
    ensures EnvBin(env, names).Some?
    ensures Scan(EnvBin(env, names).value + rest) == Pairs(env, names) + Scan(rest)
  {
    if names == [] {
      assert EnvBin(env, names).value + rest == rest;
    } else {
      AllRawTail(env, names);
      ScanEntries(env, names[1..], rest);
      var tail := EnvBin(env, names[1..]).value;
      EntryMatches(env, names[0], tail + rest);
      var e := Entry(env, names[0]).value;
      EnvBinCons(env, names, e, tail);
      Regroup(e, tail, rest);
      ScanStep(e + (tail + rest), names[0], env[names[0]], |e|);
      PairsCons(env, names);
      ConsAssoc((names[0], env[names[0]]), Pairs(env, names[1..]), Scan(rest));
    }
  }

  /** The zero padding holds no entry. */
  lemma {:induction false} ScanZeros(n: nat)
    ensures Scan(Zeros(n)) == []
  {
    if n > 0 {
      assert Zeros(n)[1..] == Zeros(n - 1);
      ScanZeros(n - 1);
    }
  }

  /** Collecting the pairs of `names` gives each of them its value. */
  lemma {:induction false} CollectPairs(env: Env, names: seq<string>)
    requires forall k :: 0 <= k < |names| ==> names[k] in env
    ensures forall x :: x in Collect(Pairs(env, names)) <==> x in names
    ensures forall x :: x in Collect(Pairs(env, names)) ==> Collect(Pairs(env, names))[x] == env[x]
  {
    if names != [] {
      var front := names[..|names| - 1];
      assert Pairs(env, names)[..|names| - 1] == Pairs(env, front);
      CollectPairs(env, front);
      assert forall x :: x in names <==> x in front || x == names[|names| - 1];
    }
  }

  lemma SortedAllRaw(env: Env)
    requires Storable(env)
    ensures AllRaw(env, Sorted(env.Keys))
  {
    var names := Sorted(env.Keys);
    assert forall k :: 0 <= k < |names| ==> names[k] in env.Keys;
  }

  /** Collecting the sorted pairs of an environment gives the environment. */
  lemma CollectIsEnv(env: Env)
    requires forall k :: 0 <= k < |Sorted(env.Keys)| ==> Sorted(env.Keys)[k] in env
    ensures Collect(Pairs(env, Sorted(env.Keys))) == env
  {
    var names := Sorted(env.Keys);
    CollectPairs(env, names);
    var m := Collect(Pairs(env, names));
    assert m.Keys == env.Keys;
  }

  /** The body `create_raw` pads holds the sorted entries, in that order. */
  lemma BodyScan(env: Env, padding: nat)
    requires Storable(env)
    ensures EnvBin(env, Sorted(env.Keys)).Some?
    ensures Scan(EnvBin(env, Sorted(env.Keys)).value + Zeros(padding)) == Pairs(env, Sorted(env.Keys))
  {
    SortedAllRaw(env);
    ScanEntries(env, Sorted(env.Keys), Zeros(padding));
    ScanZeros(padding);
    assert Pairs(env, Sorted(env.Keys)) + [] == Pairs(env, Sorted(env.Keys));
  }

  /** `parse_raw` reads the environment back from the body `create_raw` pads. */
  lemma BodyParses(env: Env, padding: nat)
    requires Storable(env)
    ensures EnvBin(env, Sorted(env.Keys)).Some?
    ensures ParseRaw(EnvBin(env, Sorted(env.Keys)).value + Zeros(padding)) == Ok(env)
  {
    BodyScan(env, padding);
    SortedAllRaw(env);
    CollectIsEnv(env);
  }

  /** For an ASCII environment, `create_raw` fails only when the entries and the
    * header do not fit (ValueError), or when `flags` does not fit in a byte
    * (OverflowError, a header only). */
  lemma CreateRawErrors(env: Env, size: int, e: Endian, flags: Option<int>, noHeader: bool)
    requires Storable(env)
    ensures EnvBin(env, Sorted(env.Keys)).Some?
    ensures CreateRaw(env, size, e, flags, noHeader) == Err(ValueError) <==>
      size < |EnvBin(env, Sorted(env.Keys)).value| + HeaderLen(flags, noHeader)
    ensures CreateRaw(env, size, e, flags, noHeader) == Err(OverflowError) <==>
      size >= |EnvBin(env, Sorted(env.Keys)).value| + HeaderLen(flags, noHeader) &&
      !noHeader && flags.Some? && !(0 <= flags.value < 256)
  {
    var names := Sorted(env.Keys);
    assert EnvBin(env, names).Some? by {
      SortedAllRaw(env);
      ScanEntries(env, names, []);
    }
    var bin := EnvBin(env, names).value;
    assert CreateRaw(env, size, e, flags, noHeader) == Layout(bin, size, e, flags, noHeader);
    assert Pow256(1) == 256;
  }

  /** `load_raw` reads back what `create_raw` wrote: the same environment, a stored
    * CRC equal to the CRC of the padded body, the body size and the flags byte. */
  lemma CreateLoadRoundTrip(env: Env, size: int, e: Endian, flags: Option<int>, noHeader: bool)
    requires Storable(env) && CreateRaw(env, size, e, flags, noHeader).Ok?
    ensures LoadRaw(CreateRaw(env, size, e, flags, noHeader).value, e, !noHeader, !noHeader && flags.Some?).Ok?
    ensures LoadRaw(CreateRaw(env, size, e, flags, noHeader).value, e, !noHeader, !noHeader && flags.Some?).value.0 == env
    ensures LoadRaw(CreateRaw(env, size, e, flags, noHeader).value, e, !noHeader, !noHeader && flags.Some?).value.1.crc ==
      LoadRaw(CreateRaw(env, size, e, flags, noHeader).value, e, !noHeader, !noHeader && flags.Some?).value.1.actualCrc
    ensures LoadRaw(CreateRaw(env, size, e, flags, noHeader).value, e, !noHeader, !noHeader && flags.Some?).value.1.size ==
      size - HeaderLen(flags, noHeader)
    ensures !noHeader && flags.Some? ==>
      LoadRaw(CreateRaw(env, size, e, flags, noHeader).value, e, !noHeader, true).value.1.flags == Some(flags.value)
  {
    var bin := EnvBin(env, Sorted(env.Keys));
    BodyParses(env, 0);
    assert CreateRaw(env, size, e, flags, noHeader) == Layout(bin.value, size, e, flags, noHeader);
    var padding := size - |bin.value| - HeaderLen(flags, noHeader);
    BodyParses(env, padding);
    var body := bin.value + Zeros(padding);
    if noHeader {
      assert Layout(bin.value, size, e, flags, noHeader) == Ok(body);
    } else if flags.None? {
      assert Layout(bin.value, size, e, flags, noHeader) == Ok(ToBytes(CrcValue(body), 4, e) + body);
      LoadCrc(body, env, e);
    } else {
      var f := IntToBytes(flags.value, 1, Big).value;
      assert Layout(bin.value, size, e, flags, noHeader) == Ok(ToBytes(CrcValue(body), 4, e) + f + body);
      OneByte(flags.value, f);
      LoadCrcFlags(body, env, e, flags.value);
    }
  }

  /** `flags.to_bytes(1, 'big')` is the one byte `flags`. */
  lemma OneByte(x: int, f: seq<byte>)
    requires IntToBytes(x, 1, Big) == Ok(f)
    ensures f == [x]
  {
    assert f[..0] == [];
    assert FromBE(f) == f[0];
  }

  /** `load_raw` with a CRC word in front of a body. */
  lemma LoadCrc(body: seq<byte>, env: Env, e: Endian)
    requires ParseRaw(body) == Ok(env)
    ensures LoadRaw(ToBytes(CrcValue(body), 4, e) + body, e, true, false) ==
      Ok((env, Metadata(Some(CrcValue(body)), None, Some(CrcValue(body)), |body|)))
  {
    var img := ToBytes(CrcValue(body), 4, e) + body;
    FromToBytes(CrcValue(body), 4, e);
    assert Slice(img, 0, 4) == ToBytes(CrcValue(body), 4, e);
    assert Slice(img, 4, |img|) == body;
  }

  /** `load_raw` with a CRC word and a flags byte in front of a body. */
  lemma LoadCrcFlags(body: seq<byte>, env: Env, e: Endian, f: byte)
    requires ParseRaw(body) == Ok(env)
    ensures LoadRaw(ToBytes(CrcValue(body), 4, e) + [f] + body, e, true, true) ==
      Ok((env, Metadata(Some(CrcValue(body)), Some(f), Some(CrcValue(body)), |body|)))
  {
    var img := ToBytes(CrcValue(body), 4, e) + [f] + body;
    FromToBytes(CrcValue(body), 4, e);
    assert Slice(img, 0, 4) == ToBytes(CrcValue(body), 4, e);
    assert Slice(img, 5, |img|) == body;
    assert img[4] == f;
  }
}
