/**
 * The include scanner of `parentize_includes`: every match of the global
 * regular expression /include\s+(.+)/g over a template's text, yielding the
 * captured group.  The keyword may stand anywhere in the text (it is not
 * anchored to a line start), `\s+` may run over line breaks, and `.+` takes
 * the rest of the line, trailing blanks included.
 */
module Includes {
  import opened Wrappers

  const Keyword: string := "include"

  /** JavaScript's `\s` class. */
  predicate IsSpace(c: char) {
    c == '\t' || c == '\n' || c == '\U{000B}' || c == '\U{000C}' || c == '\r' || c == ' '
    || c == '\U{00A0}' || c == '\U{1680}' || ('\U{2000}' <= c <= '\U{200A}')
    || c == '\U{2028}' || c == '\U{2029}' || c == '\U{202F}' || c == '\U{205F}'
    || c == '\U{3000}' || c == '\U{FEFF}'
  }

  /** The characters JavaScript's `.` does not match. */
  predicate IsLineTerminator(c: char) {
    c == '\n' || c == '\r' || c == '\U{2028}' || c == '\U{2029}'
  }

  /** What one match can capture: a non-empty piece of a single line. */
  predicate IsPathText(p: string) {
    p != [] && forall k :: 0 <= k < |p| ==> !IsLineTerminator(p[k])
  }

  /** Length of the longest run of `\s` characters starting at `j` (greedy `\s+`). */
  function SpaceRun(s: string, j: nat): (n: nat)
    requires j <= |s|
    ensures j + n <= |s|
    ensures forall k :: j <= k < j + n ==> IsSpace(s[k])
    ensures j + n == |s| || !IsSpace(s[j + n])
    decreases |s| - j
  {
    if j < |s| && IsSpace(s[j]) then 1 + SpaceRun(s, j + 1) else 0
  }

  /** Length of the longest run without line terminators starting at `j` (greedy `.+`). */
  function LineRun(s: string, j: nat): (n: nat)
    requires j <= |s|
    ensures j + n <= |s|
    ensures forall k :: j <= k < j + n ==> !IsLineTerminator(s[k])
    ensures j + n == |s| || IsLineTerminator(s[j + n])
    decreases |s| - j
  {
    if j < |s| && !IsLineTerminator(s[j]) then 1 + LineRun(s, j + 1) else 0
  }

  /** `.+` can start matching at position `k`. */
  predicate DotAt(s: string, k: nat) {
    k < |s| && !IsLineTerminator(s[k])
  }

  /** The backtracking of `\s+` before `.+`: the longest prefix `w'` (1 <= w' <= w)
      of the space run after which a character that `.` matches follows. */
  function Backtrack(s: string, j: nat, w: nat): (r: Option<nat>)
    requires j + w <= |s|
    ensures r.Some? ==> 1 <= r.value <= w && DotAt(s, j + r.value)
    ensures r.Some? ==> forall k :: j + r.value < k <= j + w ==> !DotAt(s, k)
    ensures r.None? ==> forall k :: j + 1 <= k <= j + w ==> !DotAt(s, k)
    decreases w
  {
    if w == 0 then None
    else if DotAt(s, j + w) then Some(w)
    else Backtrack(s, j, w - 1)
  }

  /** The bounds [b, e) of the captured group when the expression matches at
      `i`: the keyword, then the longest part of the run of blanks after it
      that still leaves a character for `.+`, then the rest of the line.
      After the keyword there is no match exactly when no position after the
      run's first blank can start `.+`. */
  function MatchAt(s: string, i: nat): (m: Option<(nat, nat)>)
    requires i <= |s|
    ensures m.Some? ==> i + |Keyword| < m.value.0 < m.value.1 <= |s|
    ensures m.Some? ==> HasKeywordAt(s, i)
    ensures m.Some? ==> forall k :: m.value.0 <= k < m.value.1 ==> !IsLineTerminator(s[k])
    ensures m.Some? ==> forall k :: i + |Keyword| <= k < m.value.0 ==> IsSpace(s[k])
    ensures m.Some? ==> m.value.1 == |s| || IsLineTerminator(s[m.value.1])
    ensures m.Some? ==> var j := i + |Keyword|;
      && m.value.0 <= j + SpaceRun(s, j)
      && forall k :: m.value.0 < k <= j + SpaceRun(s, j) ==> !DotAt(s, k)
    ensures HasKeywordAt(s, i) ==> var j := i + |Keyword|;
      (m.None? <==> forall k :: j < k <= j + SpaceRun(s, j) ==> !DotAt(s, k))
  {
    if HasKeywordAt(s, i) then
      var j := i + |Keyword|;
      var w := SpaceRun(s, j);
      var bt := Backtrack(s, j, w);
      if bt.None? then None
      else
        var b := j + bt.value;
        var e := b + LineRun(s, b);
        Some((b, e))
    else None
  }

  /** `matchAll` from position `i` on: the search resumes after each match. */
  function IncludesFrom(s: string, i: nat): (r: seq<string>)
    requires i <= |s|
    ensures forall k :: 0 <= k < |r| ==> IsPathText(r[k])
    ensures |r| <= |s| - i
    decreases |s| - i
  {
    if i == |s| then []
    else
      match MatchAt(s, i)
      case None => IncludesFrom(s, i + 1)
      case Some((b, e)) =>
        assert forall k :: 0 <= k < e - b ==> s[b..e][k] == s[b + k];
        [s[b..e]] + IncludesFrom(s, e)
  }

  /** The raw include paths of a template, in text order. */
  function Includes(content: string): seq<string> {
    IncludesFrom(content, 0)
  }

  predicate HasKeywordAt(s: string, i: nat) {
    i + |Keyword| <= |s| && s[i..i + |Keyword|] == Keyword
  }

  /** A text without the keyword has no includes. */
  lemma {:induction false} NoKeywordNoIncludes(s: string, i: nat)
    requires i <= |s|
    requires forall j :: i <= j <= |s| ==> !HasKeywordAt(s, j)
    ensures IncludesFrom(s, i) == []
    decreases |s| - i
  {
    if i < |s| {
      assert !HasKeywordAt(s, i);
      NoKeywordNoIncludes(s, i + 1);
    }
  }

  lemma {:induction false} SpaceRunExact(s: string, j: nat, n: nat)
    requires j + n <= |s|
    requires forall k :: j <= k < j + n ==> IsSpace(s[k])
    requires j + n == |s| || !IsSpace(s[j + n])
    ensures SpaceRun(s, j) == n
    decreases n
  {
    if n > 0 {
      SpaceRunExact(s, j + 1, n - 1);
    }
  }

  lemma {:induction false} LineRunExact(s: string, j: nat, n: nat)
    requires j + n <= |s|
    requires forall k :: j <= k < j + n ==> !IsLineTerminator(s[k])
    requires j + n == |s| || IsLineTerminator(s[j + n])
    ensures LineRun(s, j) == n
    decreases n
  {
    if n > 0 {
      LineRunExact(s, j + 1, n - 1);
    }
  }

  /** The directive `include<blanks><path>` yields exactly `<path>`: the rest
      of the line after the keyword and the blanks. */
  lemma SingleDirective(blanks: string, p: string)
    requires blanks != [] && forall k :: 0 <= k < |blanks| ==> IsSpace(blanks[k])
    requires IsPathText(p) && !IsSpace(p[0])
    ensures Includes(Keyword + blanks + p) == [p]
  {
    var s := Keyword + blanks + p;
    var j := |Keyword|;
    var b := j + |blanks|;
    assert s[..j] == Keyword;
    assert s[b..] == p;
    assert forall k :: j <= k < b ==> s[k] == blanks[k - j];
    assert forall k :: b <= k < |s| ==> s[k] == p[k - b];
    SpaceRunExact(s, j, |blanks|);
    LineRunExact(s, b, |p|);
    assert HasKeywordAt(s, 0);
    assert DotAt(s, b);
    assert Backtrack(s, j, |blanks|) == Some(|blanks|);
    assert MatchAt(s, 0) == Some((b, |s|));
    assert s[b..|s|] == p;
  }

  /** A position the keyword does not start at is skipped: no match begins there. */
  lemma {:induction false} NoMatchBefore(s: string, i: nat, k: nat)
    requires i <= k <= |s|
    requires forall j :: i <= j < k ==> !HasKeywordAt(s, j)
    ensures IncludesFrom(s, i) == IncludesFrom(s, k)
    decreases k - i
  {
    if i < k {
      assert !HasKeywordAt(s, i);
      NoMatchBefore(s, i + 1, k);
    }
  }

  /** A directive at a keyword: the keyword, its blanks and the rest of the
      line up to a terminator or the end.  It yields that rest of the line,
      and the search resumes where the line ends. */
  lemma DirectiveAt(s: string, i: nat, b: nat, e: nat)
    requires HasKeywordAt(s, i) && i + |Keyword| < b < e <= |s|
    requires forall k :: i + |Keyword| <= k < b ==> IsSpace(s[k])
    requires !IsSpace(s[b])
    requires forall k :: b <= k < e ==> !IsLineTerminator(s[k])
    requires e == |s| || IsLineTerminator(s[e])
    ensures IncludesFrom(s, i) == [s[b..e]] + IncludesFrom(s, e)
  {
    var j := i + |Keyword|;
    assert MatchAt(s, i) == Some((b, e)) by {
      SpaceRunExact(s, j, b - j);
      LineRunExact(s, b, e - b);
      assert Backtrack(s, j, b - j) == Some(b - j) by {
        assert DotAt(s, b);
      }
    }
  }

  /** Text without the keyword and then a directive: the directive's path
      comes first. */
  lemma PlainTextThenDirective(s: string, i: nat, b: nat, e: nat)
    requires forall j :: 0 <= j < i ==> !HasKeywordAt(s, j)
    requires HasKeywordAt(s, i) && i + |Keyword| < b < e <= |s|
    requires forall k :: i + |Keyword| <= k < b ==> IsSpace(s[k])
    requires !IsSpace(s[b])
    requires forall k :: b <= k < e ==> !IsLineTerminator(s[k])
    requires e == |s| || IsLineTerminator(s[e])
    ensures Includes(s) == [s[b..e]] + IncludesFrom(s, e)
  {
    NoMatchBefore(s, 0, i);
    DirectiveAt(s, i, b, e);
  }

  /** Where the parts of `pre + "include" + blanks + p + "\n" + rest` lie. */
  lemma {:induction false} DirectiveLayout(s: string, pre: string, blanks: string, p: string, rest: string)
    requires s == pre + Keyword + blanks + p + "\n" + rest
    requires forall j :: 0 <= j <= |pre| ==> !HasKeywordAt(pre, j)
    requires blanks != [] && forall k :: 0 <= k < |blanks| ==> IsSpace(blanks[k])
    requires IsPathText(p) && !IsSpace(p[0])
    ensures var e := |s| - |rest| - 1;
      var b := e - |p|;
      && |pre| + |Keyword| < b < e < |s|
      && (forall j :: 0 <= j < |pre| ==> !HasKeywordAt(s, j))
      && HasKeywordAt(s, |pre|)
      && (forall k :: |pre| + |Keyword| <= k < b ==> IsSpace(s[k]))
      && !IsSpace(s[b])
      && (forall k :: b <= k < e ==> !IsLineTerminator(s[k]))
      && IsLineTerminator(s[e])
      && s[b..e] == p
  {
    var i := |pre|;
    var b := i + |Keyword| + |blanks|;
    var e := b + |p|;
    assert e == |s| - |rest| - 1;
    assert s[i..i + |Keyword|] == Keyword;
    assert forall k :: i + |Keyword| <= k < b ==> s[k] == blanks[k - i - |Keyword|];
    assert forall k :: b <= k < e ==> s[k] == p[k - b];
    assert s[b..e] == p;
    assert s[e] == '\n';
    forall j | 0 <= j < i ensures !HasKeywordAt(s, j) {
      if j + |Keyword| <= i {
        assert s[j..j + |Keyword|] == pre[j..j + |Keyword|];
        assert !HasKeywordAt(pre, j);
      } else if j + |Keyword| <= |s| {
        var d := i - j;
        assert s[j..j + |Keyword|][d] == s[i] == 'i';
        assert Keyword[d] != 'i';
      }
    }
  }

  /** Text without the keyword before a directive line contributes nothing:
      the includes of the whole are the directive's path followed by those
      found from the line break on. */
  lemma {:induction false} DirectiveLine(s: string, pre: string, blanks: string, p: string, rest: string)
    requires s == pre + Keyword + blanks + p + "\n" + rest
    requires forall j :: 0 <= j <= |pre| ==> !HasKeywordAt(pre, j)
    requires blanks != [] && forall k :: 0 <= k < |blanks| ==> IsSpace(blanks[k])
    requires IsPathText(p) && !IsSpace(p[0])
    ensures Includes(s) == [p] + IncludesFrom(s, |s| - |rest| - 1)
  {
    var e := |s| - |rest| - 1;
    var b := e - |p|;
    var tail := IncludesFrom(s, e);
    assert Includes(s) == [s[b..e]] + tail && s[b..e] == p by {
      DirectiveLayout(s, pre, blanks, p, rest);
      PlainTextThenDirective(s, |pre|, b, e);
    }
    assert [s[b..e]] + tail == [p] + tail;
  }
}
