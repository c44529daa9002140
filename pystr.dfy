/** The Python `str` operations the rest of the model relies on: ASCII case mapping,
  * prefix and suffix tests, `index`, `split` with a one-character separator and its
  * inverse `join`, `replace(c, '')`, and `splitlines`. */
module PyStr {

  // ---- case mapping ----

  /** ASCII case mapping of Python's `str.lower` and `str.upper`. */
  function LowerChar(c: char): char
  {
    if 'A' <= c <= 'Z' then (c as int + 32) as char else c
  }

  function UpperChar(c: char): char
  {
    if 'a' <= c <= 'z' then (c as int - 32) as char else c
  }

  function Lower(s: string): (r: string)
    ensures |r| == |s|
    ensures forall i :: 0 <= i < |s| ==> r[i] == LowerChar(s[i])
  {
    if |s| == 0 then [] else [LowerChar(s[0])] + Lower(s[1..])
  }

  function Upper(s: string): (r: string)
    ensures |r| == |s|
    ensures forall i :: 0 <= i < |s| ==> r[i] == UpperChar(s[i])
  {
    if |s| == 0 then [] else [UpperChar(s[0])] + Upper(s[1..])
  }

  /** Upper-casing works character by character. */
  lemma {:induction false} UpperConcat(s: string, t: string)
    ensures Upper(s + t) == Upper(s) + Upper(t)
  {
    if |s| == 0 {
      assert s + t == t;
    } else {
      var h := [UpperChar(s[0])];
      assert (s + t)[0] == s[0] && (s + t)[1..] == s[1..] + t;
      assert Upper(s + t) == h + Upper(s[1..] + t);
      UpperConcat(s[1..], t);
      assert h + (Upper(s[1..]) + Upper(t)) == (h + Upper(s[1..])) + Upper(t);
    }
  }

  /** Text with no lower-case letter is its own upper case. */
  lemma UpperFixed(s: string)
    requires forall i :: 0 <= i < |s| ==> !('a' <= s[i] <= 'z')
    ensures Upper(s) == s
  {
  }

  /** Upper-casing never produces a lower-case letter. */
  lemma UpperHasNoLower(s: string, i: nat)
    requires i < |s|
    ensures !('a' <= Upper(s)[i] <= 'z')
  {
  }

  // ---- prefixes, suffixes, positions ----

  predicate StartsWith(s: string, p: string)
  {
    |p| <= |s| && s[..|p|] == p
  }

  predicate EndsWith(s: string, p: string)
  {
    |p| <= |s| && s[|s| - |p|..] == p
  }

  /** `s.index(c)`, or -1 where Python raises ValueError. */
  function IndexOf(s: string, c: char): (r: int)
    ensures -1 <= r < |s|
    ensures r >= 0 ==> s[r] == c && c !in s[..r]
    ensures r < 0 ==> c !in s
  {
    if |s| == 0 then -1
    else if s[0] == c then 0
    else
      var k := IndexOf(s[1..], c);
      assert s[1..][..if k < 0 then 0 else k] == s[1..1 + (if k < 0 then 0 else k)];
      if k < 0 then -1 else k + 1
  }

  /** `s.replace(c, '')`: the string with every `c` removed. */
  function Without(s: string, c: char): (r: string)
    ensures c !in r
    ensures |r| <= |s|
  {
    if |s| == 0 then [] else (if s[0] == c then [] else [s[0]]) + Without(s[1..], c)
  }

  /** Removing a character that does not occur changes nothing. */
  lemma {:induction false} WithoutAbsent(s: string, c: char)
    requires c !in s
    ensures Without(s, c) == s
  {
    if |s| > 0 {
      assert c !in s[1..];
      WithoutAbsent(s[1..], c);
    }
  }

  /** Removal keeps the other characters in order: removing from a concatenation is
    * removing from each part. */
  lemma {:induction false} WithoutConcat(s: string, t: string, c: char)
    ensures Without(s + t, c) == Without(s, c) + Without(t, c)
  {
    if |s| == 0 {
      assert s + t == t;
    } else {
      var h := if s[0] == c then [] else [s[0]];
      assert (s + t)[0] == s[0] && (s + t)[1..] == s[1..] + t;
      assert Without(s + t, c) == h + Without(s[1..] + t, c);
      WithoutConcat(s[1..], t, c);
      assert h + (Without(s[1..], c) + Without(t, c)) == (h + Without(s[1..], c)) + Without(t, c);
    }
  }

  // ---- split and join ----

  /** `sep.join(ps)`. */
  function JoinWith(ps: seq<string>, sep: string): string
  {
    if |ps| == 0 then [] else if |ps| == 1 then ps[0] else ps[0] + sep + JoinWith(ps[1..], sep)
  }

  /** Joining one more piece adds the separator (unless it is the first piece) and the
    * piece. */
  lemma {:induction false} JoinWithSnoc(ps: seq<string>, x: string, sep: string)
    ensures JoinWith(ps + [x], sep) == JoinWith(ps, sep) + (if |ps| > 0 then sep else []) + x
  {
    if |ps| == 1 {
      assert ps + [x] == [ps[0], x];
      assert [ps[0], x][1..] == [x];
    } else if |ps| > 1 {
      assert (ps + [x])[0] == ps[0] && (ps + [x])[1..] == ps[1..] + [x];
      JoinWithSnoc(ps[1..], x, sep);
    }
  }

  /** `s.split(c)` for a one-character separator: the pieces between the separators,
    * empty ones included, and always at least one. */
  function Split(s: string, c: char): (r: seq<string>)
    ensures |r| >= 1
    decreases |s|
  {
    var i := IndexOf(s, c);
    if i < 0 then [s] else [s[..i]] + Split(s[i + 1..], c)
  }

  /** The number of times `c` occurs in `s`. */
  function Count(s: string, c: char): nat
  {
    if |s| == 0 then 0 else (if s[0] == c then 1 else 0) + Count(s[1..], c)
  }

  lemma {:induction false} CountConcat(s: string, t: string, c: char)
    ensures Count(s + t, c) == Count(s, c) + Count(t, c)
  {
    if |s| == 0 {
      assert s + t == t;
    } else {
      assert (s + t)[0] == s[0] && (s + t)[1..] == s[1..] + t;
      CountConcat(s[1..], t, c);
    }
  }

  lemma {:induction false} CountAbsent(s: string, c: char)
    requires c !in s
    ensures Count(s, c) == 0
  {
    if |s| > 0 {
      assert c !in s[1..];
      CountAbsent(s[1..], c);
    }
  }

  /** Joining the pieces with the separator gives the string back. */
  lemma {:induction false} SplitJoin(s: string, c: char)
    ensures JoinWith(Split(s, c), [c]) == s
    decreases |s|
  {
    var i := IndexOf(s, c);
    if i >= 0 {
      SplitJoin(s[i + 1..], c);
      SplitJoinStep(s, c, i, s[i + 1..]);
    }
  }

  /** The text up to the first separator, the separator, and the rest joined back. */
  lemma SplitJoinStep(s: string, c: char, i: int, rest: string)
    requires i == IndexOf(s, c) && i >= 0 && rest == s[i + 1..]
    requires JoinWith(Split(rest, c), [c]) == rest
    ensures JoinWith(Split(s, c), [c]) == s
  {
    SplitTail(s, c);
    assert s == s[..i] + [c] + rest;
  }

  /** No piece holds the separator. */
  lemma {:induction false} SplitPieces(s: string, c: char)
    ensures forall k :: 0 <= k < |Split(s, c)| ==> c !in Split(s, c)[k]
    decreases |s|
  {
    var i := IndexOf(s, c);
    if i >= 0 {
      SplitPieces(s[i + 1..], c);
      SplitTail(s, c);
    }
  }

  /** There is one more piece than separators. */
  lemma {:induction false} SplitCount(s: string, c: char)
    ensures |Split(s, c)| == Count(s, c) + 1
    decreases |s|
  {
    var i := IndexOf(s, c);
    if i < 0 {
      CountAbsent(s, c);
    } else {
      var rest := s[i + 1..];
      SplitCount(rest, c);
      SplitTail(s, c);
      assert s == s[..i] + [c] + rest;
      CountConcat(s[..i] + [c], rest, c);
      CountConcat(s[..i], [c], c);
      CountAbsent(s[..i], c);
      assert Count([c], c) == 1 by {
        assert [c][1..] == [];
      }
    }
  }

  /** The pieces after the first: those of the text after the first separator. */
  lemma SplitTail(s: string, c: char)
    requires IndexOf(s, c) >= 0
    ensures var i := IndexOf(s, c);
      Split(s, c)[0] == s[..i] && Split(s, c)[1..] == Split(s[i + 1..], c)
  {
  }

  /** Splitting pieces that hold no separator, joined by it, gives the pieces back. */
  lemma {:induction false} JoinSplit(ps: seq<string>, c: char)
    requires |ps| >= 1
    requires forall k :: 0 <= k < |ps| ==> c !in ps[k]
    ensures Split(JoinWith(ps, [c]), c) == ps
  {
    if |ps| == 1 {
      assert JoinWith(ps, [c]) == ps[0];
    } else {
      var rest := JoinWith(ps[1..], [c]);
      var s := ps[0] + [c] + rest;
      assert JoinWith(ps, [c]) == s;
      IndexAfter(ps[0], [c] + rest, c);
      assert s == ps[0] + ([c] + rest);
      assert s[..|ps[0]|] == ps[0] && s[|ps[0]| + 1..] == rest;
      JoinSplit(ps[1..], c);
    }
  }

  /** The first `c` of `x + y` where `x` holds none and `y` starts with one. */
  lemma IndexAfter(x: string, y: string, c: char)
    requires c !in x && |y| > 0 && y[0] == c
    ensures IndexOf(x + y, c) == |x|
  {
    var s := x + y;
    assert forall j :: 0 <= j < |x| ==> s[j] == x[j];
    assert s[|x|] == c;
  }

  // ---- splitlines ----

  /** The line boundaries of `str.splitlines`. */
  predicate IsLineBreak(c: char)
  {
    var n := c as int;
    10 <= n <= 13 || 28 <= n <= 30 || n == 0x85 || n == 0x2028 || n == 0x2029
  }

  predicate NoLineBreak(s: string)
  {
    forall i :: 0 <= i < |s| ==> !IsLineBreak(s[i])
  }

  /** The position of the first line boundary, or the length when there is none. */
  function LineEnd(s: string): (i: nat)
    ensures i <= |s|
    ensures NoLineBreak(s[..i])
    ensures i < |s| ==> IsLineBreak(s[i])
  {
    if |s| == 0 then 0
    else if IsLineBreak(s[0]) then 0
    else
      var k := LineEnd(s[1..]);
      assert s[..k + 1] == [s[0]] + s[1..][..k];
      k + 1
  }

  /** How many characters the boundary at `i` takes: `\r\n` counts as one boundary. */
  function BreakWidth(s: string, i: nat): nat
    requires i < |s|
  {
    if s[i] == '\r' && i + 1 < |s| && s[i + 1] == '\n' then 2 else 1
  }

  /** `s.splitlines()`: the lines without their boundaries; a final boundary does not
    * start another line, and the empty string has no lines. */
  function SplitLines(s: string): (r: seq<string>)
    ensures forall k :: 0 <= k < |r| ==> NoLineBreak(r[k])
    decreases |s|
  {
    if |s| == 0 then []
    else
      var i := LineEnd(s);
      if i == |s| then [s]
      else [s[..i]] + SplitLines(s[i + BreakWidth(s, i)..])
  }

  /** Lines joined by `\n` or `\r\n` split back into the same lines, provided none of
    * them holds a boundary and the last is not empty. */
  lemma {:induction false} SplitLinesJoin(ls: seq<string>, sep: string)
    requires sep == "\n" || sep == "\r\n"
    requires |ls| >= 1 && ls[|ls| - 1] != []
    requires forall k :: 0 <= k < |ls| ==> NoLineBreak(ls[k])
    ensures SplitLines(JoinWith(ls, sep)) == ls
  {
    if |ls| == 1 {
      assert JoinWith(ls, sep) == ls[0];
      assert ls[0][..|ls[0]|] == ls[0];
      LineEndWhole(ls[0]);
    } else {
      SplitLinesJoin(ls[1..], sep);
      SplitLinesStep(ls, sep, JoinWith(ls[1..], sep));
    }
  }

  /** The first line, its boundary, and the other lines split back. */
  lemma SplitLinesStep(ls: seq<string>, sep: string, rest: string)
    requires sep == "\n" || sep == "\r\n"
    requires |ls| >= 2 && NoLineBreak(ls[0]) && rest == JoinWith(ls[1..], sep)
    requires SplitLines(rest) == ls[1..]
    ensures SplitLines(JoinWith(ls, sep)) == ls
  {
    var s := ls[0] + sep + rest;
    var n := |ls[0]|;
    assert JoinWith(ls, sep) == s;
    assert LineEnd(s) == n && BreakWidth(s, n) == |sep| by {
      assert s == ls[0] + (sep + rest);
      LineEndBefore(ls[0], sep + rest);
    }
    SplitLinesAt(s, n, |sep|);
    assert s[..n] == ls[0] && s[n + |sep|..] == rest;
    assert ls == [ls[0]] + ls[1..];
  }

  /** The lines of text whose first boundary is at `n` and `w` characters wide. */
  lemma SplitLinesAt(s: string, n: nat, w: nat)
    requires n < |s| && LineEnd(s) == n && BreakWidth(s, n) == w
    ensures SplitLines(s) == [s[..n]] + SplitLines(s[n + w..])
  {
  }

  lemma LineEndWhole(s: string)
    requires |s| > 0 && NoLineBreak(s)
    ensures LineEnd(s) == |s|
  {
    assert forall j :: 0 <= j < |s| ==> !IsLineBreak(s[j]);
  }

  lemma LineEndBefore(x: string, y: string)
    requires NoLineBreak(x) && |y| > 0 && IsLineBreak(y[0])
    ensures LineEnd(x + y) == |x|
  {
    var s := x + y;
    assert forall j :: 0 <= j < |x| ==> s[j] == x[j];
    assert IsLineBreak(s[|x|]);
  }
}
