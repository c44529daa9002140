/** Loading a Kconfig-style U-Boot `.config` file into a configuration checker: each line
  * is either `CONFIG_X=value`, `# CONFIG_X is not set`, or ignored. */
module UBootConfig {
  import opened Errors
  import PyStr
  import PyInt
  import CC = ConfigChecker

  // ---- the two line patterns ----

  /** `[A-Za-z0-9_]`. */
  predicate KeyChar(c: char)
  {
    'A' <= c <= 'Z' || 'a' <= c <= 'z' || '0' <= c <= '9' || c == '_'
  }

  /** A string the group `CONFIG_[A-Za-z0-9_]+` matches in full. */
  predicate ValidKey(k: string)
  {
    |k| > 7 && k[..7] == "CONFIG_" && forall i :: 7 <= i < |k| ==> KeyChar(k[i])
  }

  /** The length of the run of key characters `s` starts with. */
  function KeyRun(s: string): (n: nat)
    ensures n <= |s|
    ensures forall i :: 0 <= i < n ==> KeyChar(s[i])
    ensures n < |s| ==> !KeyChar(s[n])
  {
    if |s| == 0 || !KeyChar(s[0]) then 0
    else
      var n := KeyRun(s[1..]);
      assert forall i :: 1 <= i < n + 1 ==> s[i] == s[1..][i - 1];
      n + 1
  }

  /** A key followed by a non-key character is where the greedy run of `s` stops. */
  lemma KeyRunOf(k: string, rest: string)
    requires ValidKey(k)
    requires |rest| > 0 && !KeyChar(rest[0])
    ensures KeyRun(k + rest) == |k|
  {
    var s := k + rest;
    var n := KeyRun(s);
    assert forall i :: 0 <= i < 7 ==> s[i] == "CONFIG_"[i];
    assert forall i :: 0 <= i < |k| ==> KeyChar(s[i]);
    assert s[|k|] == rest[0];
  }

  /** `_CONFIG_VAL.match(line)`: `^(CONFIG_[A-Za-z0-9_]+)=(.*)$`, giving the key and the
    * value text. A line never holds `\n`, so `.*` followed by `$` is the rest of the line. */
  function MatchValue(line: string): (r: Option<(string, string)>)
    ensures r.Some? ==> ValidKey(r.value.0) && line == r.value.0 + "=" + r.value.1
  {
    var n := KeyRun(line);
    if n > 7 && line[..7] == "CONFIG_" && n < |line| && line[n] == '=' then
      assert line == line[..n] + "=" + line[n + 1..];
      Some((line[..n], line[n + 1..]))
    else None
  }

  /** The value pattern matches exactly the lines made of a key, `=` and any text. */
  lemma MatchValueComplete(k: string, v: string)
    requires ValidKey(k)
    ensures MatchValue(k + "=" + v) == Some((k, v))
  {
    var line := k + "=" + v;
    assert line == k + ("=" + v);
    KeyRunOf(k, "=" + v);
    assert line[..7] == k[..7];
    assert line[..|k|] == k;
    assert line[|k| + 1..] == v;
  }

  /** The tail ` is not set` the unset pattern requires after the key. */
  const NotSet := " is not set"

  /** `_CONFIG_UNSET.match(line)`: `^#\s?(CONFIG_[A-Za-z0-9_]+) is not set$`, giving the
    * key. When the character after `#` is whitespace the optional `\s` must take it, as
    * a key cannot start with whitespace. */
  function MatchUnset(line: string): (r: Option<string>)
    ensures r.Some? ==> ValidKey(r.value)
    ensures r.Some? ==> line == "#" + r.value + NotSet ||
                        (|line| > 1 && PyInt.IsSpace(line[1]) && line == "#" + [line[1]] + r.value + NotSet)
  {
    if |line| == 0 || line[0] != '#' then None
    else
      var skip := if |line| > 1 && PyInt.IsSpace(line[1]) then 2 else 1;
      var rest := line[skip..];
      var n := KeyRun(rest);
      if n > 7 && rest[..7] == "CONFIG_" && rest[n..] == NotSet then
        UnsetShape(line, skip, n, NotSet);
        assert rest[..n][..7] == rest[..7];
        Some(rest[..n])
      else None
  }

  /** A line starting with `#` is the `#`, the skipped character if any, the `n`
    * characters after them and what follows. */
  lemma UnsetShape(line: string, skip: nat, n: nat, tail: string)
    requires 1 <= skip <= 2 && skip <= |line| && line[0] == '#'
    requires n <= |line| - skip && line[skip..][n..] == tail
    ensures skip == 1 ==> line == "#" + line[skip..][..n] + tail
    ensures skip == 2 ==> line == "#" + [line[1]] + line[skip..][..n] + tail
  {
    assert line == line[..skip] + line[skip..][..n] + line[skip..][n..];
    assert skip == 1 ==> line[..skip] == "#";
    assert skip == 2 ==> line[..skip] == "#" + [line[1]];
  }

  /** The unset pattern matches `#`, at most one whitespace character, a key and
    * ` is not set`. */
  lemma MatchUnsetComplete(k: string, sp: string)
    requires ValidKey(k)
    requires sp == "" || (|sp| == 1 && PyInt.IsSpace(sp[0]))
    ensures MatchUnset("#" + sp + k + NotSet) == Some(k)
  {
    var line := "#" + sp + k + NotSet;
    var rest := k + NotSet;
    assert line == "#" + sp + rest;
    if sp == "" {
      assert k[..7][0] == 'C';
      assert line[1] == k[0] == 'C' && !PyInt.IsSpace('C');
    } else {
      assert line[1] == sp[0];
    }
    assert line[|sp| + 1..] == rest;
    KeyRunOf(k, NotSet);
    assert rest[..7] == k[..7];
    assert rest[..|k|] == k;
    assert rest[|k|..] == NotSet;
  }

  /** How the loop classifies one line: a value line (with `y` becoming `True`), an
    * unset line (`False`), or nothing. */
  function ParseLine(line: string): (r: Option<(string, CC.CfgValue)>)
    ensures r.Some? ==> ValidKey(r.value.0) && r.value.1 != CC.CStr("y")
  {
    match MatchValue(line)
    case Some((key, value)) => Some((key, if value == "y" then CC.CBool(true) else CC.CStr(value)))
    case None =>
      match MatchUnset(line)
      case Some(key) => Some((key, CC.CBool(false)))
      case None => None
  }

  /** The line a `.config` file holds for a setting. */
  function Render(k: string, v: CC.CfgValue): string
  {
    match v
    case CBool(b) => if b then k + "=y" else "# " + k + NotSet
    case CStr(s) => k + "=" + s
  }

  /** Every setting a load can produce reads back from its own line. */
  lemma {:induction false} ParseRender(k: string, v: CC.CfgValue)
    requires ValidKey(k) && v != CC.CStr("y")
    ensures ParseLine(Render(k, v)) == Some((k, v))
  {
    match v
    case CBool(b) =>
      if b {
        MatchValueComplete(k, "y");
        assert Render(k, v) == k + "=" + "y";
      } else {
        var line := "# " + k + NotSet;
        assert KeyRun(line) == 0;
        assert MatchValue(line) == None;
        assert Render(k, v) == line;
        assert line == "#" + " " + k + NotSet;
        MatchUnsetComplete(k, " ");
      }
    case CStr(s) =>
      MatchValueComplete(k, s);
  }

  // ---- loading ----

  /** `filename + ':' + str(lineno)`. */
  function LineSource(filename: string, lineno: nat): string
  {
    filename + ":" + PyInt.Decimal(lineno)
  }

  /** What each line of a file sets, if anything. */
  type Entry = Option<(string, CC.CfgValue)>

  function Parsed(lines: seq<string>): (r: seq<Entry>)
    ensures |r| == |lines|
    ensures forall i :: 0 <= i < |lines| ==> r[i] == ParseLine(lines[i])
  {
    seq(|lines|, i requires 0 <= i < |lines| => ParseLine(lines[i]))
  }

  /** The checker's keys and configuration after the first `n` lines of a file, given
    * what each line sets. */
  function LoadedUpTo(keys: seq<string>, cfg: CC.Config, filename: string, entries: seq<Entry>, n: nat):
    (seq<string>, CC.Config)
    requires n <= |entries|
  {
    if n == 0 then (keys, cfg)
    else
      var prev := LoadedUpTo(keys, cfg, filename, entries, n - 1);
      match entries[n - 1]
      case None => prev
      case Some((key, value)) => CC.Entered(prev.0, prev.1, key, value, LineSource(filename, n), false)
  }

  /** Line `i` (0-based) sets `key`. */
  predicate Defines(entries: seq<Entry>, i: int, key: string)
    requires 0 <= i < |entries|
  {
    entries[i].Some? && entries[i].value.0 == key
  }

  /** Loading never changes a setting that was already present, so loading several files
    * aggregates them and the first definition of a key wins. */
  lemma {:induction false} LoadKeeps(keys: seq<string>, cfg: CC.Config, filename: string,
                                     entries: seq<Entry>, n: nat)
    requires n <= |entries|
    ensures var r := LoadedUpTo(keys, cfg, filename, entries, n);
      forall k :: k in cfg ==> k in r.1 && r.1[k] == cfg[k]
  {
    if n > 0 {
      LoadKeeps(keys, cfg, filename, entries, n - 1);
    }
  }

  /** A key is present after loading exactly when it was before or some line defines
    * it. */
  lemma {:induction false} LoadKeys(keys: seq<string>, cfg: CC.Config, filename: string,
                                    entries: seq<Entry>, n: nat, k: string)
    requires n <= |entries|
    ensures k in LoadedUpTo(keys, cfg, filename, entries, n).1 <==>
      k in cfg || exists i :: 0 <= i < n && Defines(entries, i, k)
  {
    if n > 0 {
      LoadKeys(keys, cfg, filename, entries, n - 1, k);
      if !Defines(entries, n - 1, k) && exists i :: 0 <= i < n && Defines(entries, i, k) {
        var i :| 0 <= i < n && Defines(entries, i, k);
        assert i < n - 1;
      }
    }
  }

  /** A key that was not present takes the value of the first line defining it, with that
    * line's `file:lineno` as its source. */
  lemma {:induction false} LoadFirstWins(keys: seq<string>, cfg: CC.Config, filename: string,
                                         entries: seq<Entry>, n: nat, k: string, i: nat)
    requires n <= |entries| && i < n
    requires k !in cfg && Defines(entries, i, k)
    requires forall j :: 0 <= j < i ==> !Defines(entries, j, k)
    ensures var r := LoadedUpTo(keys, cfg, filename, entries, n);
      k in r.1 && r.1[k] == (entries[i].value.1, LineSource(filename, i + 1))
  {
    var prev := LoadedUpTo(keys, cfg, filename, entries, n - 1);
    if i == n - 1 {
      LoadKeys(keys, cfg, filename, entries, n - 1, k);
      assert k !in prev.1;
    } else {
      LoadFirstWins(keys, cfg, filename, entries, n - 1, k, i);
    }
  }

  /** A line that sets `key` to `value` enters it into what the lines before it loaded. */
  lemma LoadStep(keys: seq<string>, cfg: CC.Config, filename: string, entries: seq<Entry>, n: nat,
                 key: string, value: CC.CfgValue)
    requires 1 <= n <= |entries| && entries[n - 1] == Some((key, value))
    ensures var prev := LoadedUpTo(keys, cfg, filename, entries, n - 1);
      LoadedUpTo(keys, cfg, filename, entries, n) == CC.Entered(prev.0, prev.1, key, value, LineSource(filename, n), false)
  {
  }

  /** The checker's keys and configuration after loading the text of a whole file. */
  function Loaded(keys: seq<string>, cfg: CC.Config, filename: string, data: string):
    (seq<string>, CC.Config)
  {
    var lines := PyStr.SplitLines(data);
    LoadedUpTo(keys, cfg, filename, Parsed(lines), |lines|)
  }

  /** `UBootConfigChecker.load(filename)`, with the file's text given as `data`: adds each
    * setting line without forcing and returns (a copy of) the configuration. */
  method Load(checker: CC.ConfigChecker, filename: string, data: string) returns (cfg: CC.Config)
    requires checker.Valid()
    modifies checker
    ensures checker.Valid()
    ensures (checker.keys, checker.config) == Loaded(old(checker.keys), old(checker.config), filename, data)
    ensures checker.handlers == old(checker.handlers) && checker.version == old(checker.version)
    ensures cfg == checker.config
  {
    var lines := PyStr.SplitLines(data);
    ghost var entries := Parsed(lines);
    var lineno := 0;
    while lineno < |lines|
      invariant lineno <= |lines|
      invariant checker.Valid()
      invariant (checker.keys, checker.config) ==
                LoadedUpTo(old(checker.keys), old(checker.config), filename, entries, lineno)
      invariant checker.handlers == old(checker.handlers) && checker.version == old(checker.version)
    {
      var line := lines[lineno];
      lineno := lineno + 1;
      var key, value;
      var m := MatchValue(line);
      if m.Some? {
        key := m.value.0;
        value := if m.value.1 == "y" then CC.CBool(true) else CC.CStr(m.value.1);
      } else {
        var u := MatchUnset(line);
        if u.Some? {
          key := u.value;
          value := CC.CBool(false);
        } else {
          assert entries[lineno - 1] == None;
          continue;
        }
      }
      assert entries[lineno - 1] == Some((key, value));
      LoadStep(old(checker.keys), old(checker.config), filename, entries, lineno, key, value);
      checker.AddConfigEntry(key, value, LineSource(filename, lineno), false);
    }
    cfg := checker.config;
  }

  // ---- example lines ----

  /** `CONFIG_FIT_SIGNATURE=y` enables a boolean setting. */
  lemma EnabledLine()
    ensures ParseLine("CONFIG_FIT_SIGNATURE=y") == Some(("CONFIG_FIT_SIGNATURE", CC.CBool(true)))
  {
    MatchValueComplete("CONFIG_FIT_SIGNATURE", "y");
    assert "CONFIG_FIT_SIGNATURE=y" == "CONFIG_FIT_SIGNATURE" + "=" + "y";
  }

  /** Any other value, quotes included, is kept verbatim as a string. */
  lemma StringLine()
    ensures ParseLine("CONFIG_BOOTDELAY=\"-2\"") == Some(("CONFIG_BOOTDELAY", CC.CStr("\"-2\"")))
  {
    MatchValueComplete("CONFIG_BOOTDELAY", "\"-2\"");
    assert "CONFIG_BOOTDELAY=\"-2\"" == "CONFIG_BOOTDELAY" + "=" + "\"-2\"";
  }

  /** `CONFIG_` alone is not a key, so `CONFIG_=y` is ignored. */
  lemma BarePrefixIgnored()
    ensures ParseLine("CONFIG_=y") == None
  {
    var line := "CONFIG_=y";
    assert KeyRun(line[8..]) == 1;
    assert KeyRun(line[7..]) == 0;
    assert KeyRun(line[6..]) == 1;
    assert KeyRun(line) == 7;
  }
}
