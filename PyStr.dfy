/**
 * The handful of Python `str` operations the hardware detector relies on,
 * stated over Dafny strings (sequences of Unicode scalar values):
 * `strip`, `lower`, `upper`, `startswith`, `in`, `find`, `split(sep)`,
 * `split(sep, 1)`, `splitlines`, `"sep".join` and the ordering `sorted` uses.
 */
module PyStr {

  /** Python's `str.isspace()`: the characters `strip()` removes from either end. */
  predicate IsSpace(c: char) {
    || c == ' '
    || ('\t' <= c <= '\r')
    || ('\U{1c}' <= c <= '\U{1f}')
    || c == '\U{85}' || c == '\U{a0}' || c == '\U{1680}'
    || ('\U{2000}' <= c <= '\U{200a}')
    || c == '\U{2028}' || c == '\U{2029}' || c == '\U{202f}' || c == '\U{205f}' || c == '\U{3000}'
  }

  /** The line boundaries `str.splitlines()` recognises (`\r\n` counts as one). */
  predicate IsLineBreak(c: char) {
    || ('\n' <= c <= '\r')
    || ('\U{1c}' <= c <= '\U{1e}')
    || c == '\U{85}' || c == '\U{2028}' || c == '\U{2029}'
  }

  predicate NoLineBreak(s: string) {
    forall i :: 0 <= i < |s| ==> !IsLineBreak(s[i])
  }

  // ---------------------------------------------------------------- strip

  function LStrip(s: string): (r: string)
    ensures |r| <= |s| && r == s[|s| - |r|..]
    ensures forall i :: 0 <= i < |s| - |r| ==> IsSpace(s[i])
    ensures r == [] || !IsSpace(r[0])
  {
    if s != [] && IsSpace(s[0]) then LStrip(s[1..]) else s
  }

  function RStrip(s: string): (r: string)
    ensures |r| <= |s| && r == s[..|r|]
    ensures forall i :: |r| <= i < |s| ==> IsSpace(s[i])
    ensures r == [] || !IsSpace(r[|r| - 1])
  {
    if s != [] && IsSpace(s[|s| - 1]) then RStrip(s[..|s| - 1]) else s
  }

  /** `s.strip()`: `s` without its leading and trailing whitespace. */
  function Strip(s: string): (r: string)
    ensures |r| <= |s|
    ensures r == [] || (!IsSpace(r[0]) && !IsSpace(r[|r| - 1]))
  {
    RStrip(LStrip(s))
  }

  /** What `strip()` removes is exactly a run of whitespace at the front and
      one at the back: the result is the slice `s[a..b]` between them. */
  lemma StripFull(s: string) returns (a: int, b: int)
    ensures 0 <= a <= b <= |s| && Strip(s) == s[a..b]
    ensures forall i :: 0 <= i < a ==> IsSpace(s[i])
    ensures forall i :: b <= i < |s| ==> IsSpace(s[i])
  {
    var l := LStrip(s);
    a := |s| - |l|;
    b := a + |RStrip(l)|;
    assert forall i :: b <= i < |s| ==> s[i] == l[i - a];
  }

  // ---------------------------------------------------------- lower / upper

  function LowerChar(c: char): char {
    if 'A' <= c <= 'Z' then (c as int + 32) as char else c
  }

  function UpperChar(c: char): char {
    if 'a' <= c <= 'z' then (c as int - 32) as char else c
  }

  /** `s.lower()`, on the ASCII letters. */
  function Lower(s: string): string {
    seq(|s|, i requires 0 <= i < |s| => LowerChar(s[i]))
  }

  /** `s.upper()`, on the ASCII letters. */
  function Upper(s: string): string {
    seq(|s|, i requires 0 <= i < |s| => UpperChar(s[i]))
  }

  predicate IsLower(s: string) {
    forall i :: 0 <= i < |s| ==> !('A' <= s[i] <= 'Z')
  }

  lemma LowerIsLower(s: string)
    ensures IsLower(Lower(s))
  {
    forall i | 0 <= i < |s| ensures !('A' <= Lower(s)[i] <= 'Z') {
      var c := s[i];
      if 'A' <= c <= 'Z' {
        assert 'a' as int <= c as int + 32 <= 'z' as int;
      }
    }
  }

  // -------------------------------------------------- startswith / find / in

  /** `s.startswith(prefix)`. */
  predicate StartsWith(s: string, prefix: string) {
    |prefix| <= |s| && s[..|prefix|] == prefix
  }

  predicate OccursAt(s: string, sub: string, i: int) {
    0 <= i && i + |sub| <= |s| && s[i..i + |sub|] == sub
  }

  /** `s.find(sub)`: the first index at which `sub` occurs in `s`, or -1. */
  function Find(s: string, sub: string): (r: int)
    ensures r == -1 || 0 <= r <= |s| - |sub|
    ensures r >= 0 ==> OccursAt(s, sub, r)
    ensures forall i :: 0 <= i < (if r < 0 then |s| + 1 else r) ==> !OccursAt(s, sub, i)
    decreases |s|
  {
    if |s| < |sub| then -1
    else if s[..|sub|] == sub then 0
    else
      var r := Find(s[1..], sub);
      assert forall i :: 1 <= i ==> (OccursAt(s[1..], sub, i - 1) <==> OccursAt(s, sub, i)) by {
        forall i | 1 <= i ensures OccursAt(s[1..], sub, i - 1) <==> OccursAt(s, sub, i) {
          if i + |sub| <= |s| {
            assert s[1..][i - 1..i - 1 + |sub|] == s[i..i + |sub|];
          }
        }
      }
      assert !OccursAt(s, sub, 0);
      if r < 0 then -1 else r + 1
  }

  /** `sub in s`. */
  predicate Contains(s: string, sub: string) {
    Find(s, sub) >= 0
  }

  /** A separator no proper prefix of which is also a suffix of it, such as `": "`
      or `"|"`: two of its occurrences can never overlap. */
  predicate Unbordered(sep: string) {
    forall k :: 0 < k < |sep| ==> sep[..k] != sep[|sep| - k..]
  }

  /** In `a + sep + b`, where `a` does not contain `sep`, the first occurrence
      of an unbordered `sep` is the one right after `a`. */
  lemma FindAfter(a: string, sep: string, b: string)
    requires sep != [] && Unbordered(sep) && !Contains(a, sep)
    ensures Find(a + sep + b, sep) == |a|
  {
    var s := a + sep + b;
    assert s[|a|..|a| + |sep|] == sep;
    assert OccursAt(s, sep, |a|);
    forall j | 0 <= j < |a|
      ensures !OccursAt(s, sep, j)
    {
      if j + |sep| <= |a| {
        assert a[j..j + |sep|] == s[j..j + |sep|];
        assert !OccursAt(a, sep, j);
      } else {
        var k := j + |sep| - |a|;
        assert sep[..k] != sep[|sep| - k..];
        var m :| 0 <= m < k && sep[m] != sep[|sep| - k + m];
        assert s[|a| + m] == sep[m];
        assert s[j..j + |sep|][|sep| - k + m] != sep[|sep| - k + m];
      }
    }
  }

  // ----------------------------------------------------------------- split

  /** `s.split(sep)`: the pieces between the non-overlapping occurrences of
      `sep`, found left to right; never empty. */
  function Split(s: string, sep: string): (parts: seq<string>)
    requires sep != []
    ensures parts != []
    decreases |s|
  {
    var i := Find(s, sep);
    if i < 0 then [s] else [s[..i]] + Split(s[i + |sep|..], sep)
  }

  /** `sep.join(parts)`. */
  function Join(parts: seq<string>, sep: string): string {
    if |parts| == 0 then ""
    else if |parts| == 1 then parts[0]
    else parts[0] + sep + Join(parts[1..], sep)
  }

  /** `split` loses nothing: joining the pieces back gives the original. */
  lemma {:induction false} JoinSplit(s: string, sep: string)
    requires sep != []
    ensures Join(Split(s, sep), sep) == s
    decreases |s|
  {
    var i := Find(s, sep);
    if i >= 0 {
      var rest := s[i + |sep|..];
      JoinSplit(rest, sep);
      assert s == s[..i] + sep + rest;
    }
  }

  /** Splitting an unbordered separator off the front of a string. */
  lemma SplitAfter(a: string, sep: string, b: string)
    requires sep != [] && Unbordered(sep) && !Contains(a, sep)
    ensures Split(a + sep + b, sep) == [a] + Split(b, sep)
  {
    FindAfter(a, sep, b);
    var s := a + sep + b;
    assert s[..|a|] == a;
    assert s[|a| + |sep|..] == b;
  }

  /** Two pieces around one unbordered separator split apart. */
  lemma SplitTwo(a: string, sep: string, b: string)
    requires sep != [] && Unbordered(sep) && !Contains(a, sep) && !Contains(b, sep)
    ensures Split(a + sep + b, sep) == [a, b]
  {
    SplitAfter(a, sep, b);
    assert Split(b, sep) == [b];
  }

  /** `join` then `split` gives the pieces back when no piece contains the
      (unbordered) separator. */
  lemma {:induction false} SplitJoin(parts: seq<string>, sep: string)
    requires sep != [] && Unbordered(sep) && parts != []
    requires forall k :: 0 <= k < |parts| ==> !Contains(parts[k], sep)
    ensures Split(Join(parts, sep), sep) == parts
  {
    if |parts| > 1 {
      SplitJoin(parts[1..], sep);
      SplitAfter(parts[0], sep, Join(parts[1..], sep));
    }
  }

  /** `s.split(sep, 1)`: at most one cut, at the first occurrence of `sep`. */
  function SplitOnce(s: string, sep: string): (parts: seq<string>)
    requires sep != []
    ensures 1 <= |parts| <= 2
    ensures Join(parts, sep) == s
    ensures |parts| == 2 <==> Find(s, sep) >= 0
    ensures |parts| == 1 ==> parts[0] == s
    ensures |parts| == 2 ==> parts[0] == s[..Find(s, sep)] && parts[1] == s[Find(s, sep) + |sep|..]
  {
    var i := Find(s, sep);
    if i < 0 then [s] else [s[..i], s[i + |sep|..]]
  }

  // ------------------------------------------------------------ splitlines

  /** The index of the first line boundary in `s`, or -1. */
  function FindLineBreak(s: string): (r: int)
    ensures -1 <= r < |s|
    ensures r >= 0 ==> IsLineBreak(s[r])
    ensures forall i :: 0 <= i < (if r < 0 then |s| else r) ==> !IsLineBreak(s[i])
  {
    if s == [] then -1
    else if IsLineBreak(s[0]) then 0
    else
      var r := FindLineBreak(s[1..]);
      if r < 0 then -1 else r + 1
  }

  /** `s.splitlines()`: the lines of `s` without their terminators; a final
      terminator does not open an empty last line, and `\r\n` ends one line. */
  function SplitLines(s: string): (lines: seq<string>)
    ensures forall k :: 0 <= k < |lines| ==> NoLineBreak(lines[k])
    decreases |s|
  {
    if s == [] then []
    else
      var i := FindLineBreak(s);
      if i < 0 then [s]
      else
        var next := if s[i] == '\r' && i + 1 < |s| && s[i + 1] == '\n' then i + 2 else i + 1;
        [s[..i]] + SplitLines(s[next..])
  }

  /** Lines each terminated by `"\n"`, concatenated. */
  function Terminated(lines: seq<string>): string {
    if lines == [] then "" else lines[0] + "\n" + Terminated(lines[1..])
  }

  lemma {:induction false} TerminatedSnoc(lines: seq<string>, line: string)
    ensures Terminated(lines + [line]) == Terminated(lines) + line + "\n"
  {
    if lines != [] {
      assert (lines + [line])[1..] == lines[1..] + [line];
      TerminatedSnoc(lines[1..], line);
    }
  }

  lemma NoLineBreakConcat(a: string, b: string)
    requires NoLineBreak(a) && NoLineBreak(b)
    ensures NoLineBreak(a + b)
  {
    assert forall i :: |a| <= i < |a + b| ==> (a + b)[i] == b[i - |a|];
  }

  /** The first boundary after a line without boundaries is its terminator. */
  lemma FindLineBreakAfter(a: string, b: string)
    requires NoLineBreak(a)
    ensures FindLineBreak(a + "\n" + b) == |a|
  {
    var s := a + "\n" + b;
    var r := FindLineBreak(s);
    assert s[|a|] == '\n' && IsLineBreak(s[|a|]);
    assert forall i :: 0 <= i < |a| ==> s[i] == a[i];
  }

  /** A line without boundaries, then `"\n"`, splits off as the first line. */
  lemma SplitLinesCons(a: string, b: string)
    requires NoLineBreak(a)
    ensures SplitLines(a + "\n" + b) == [a] + SplitLines(b)
  {
    var s := a + "\n" + b;
    FindLineBreakAfter(a, b);
    assert s[|a|] == '\n';
    assert s[..|a|] == a;
    assert s[|a| + 1..] == b;
  }

  /** `splitlines` recovers lines written one per `"\n"`-terminated line. */
  lemma {:induction false} SplitLinesTerminated(lines: seq<string>)
    requires forall k :: 0 <= k < |lines| ==> NoLineBreak(lines[k])
    ensures SplitLines(Terminated(lines)) == lines
  {
    if lines != [] {
      SplitLinesCons(lines[0], Terminated(lines[1..]));
      SplitLinesTerminated(lines[1..]);
      assert lines == [lines[0]] + lines[1..];
    }
  }

  // ------------------------------------------------------- ordering, sorted

  /** Python's `<` on `str`: lexicographic by code point. */
  predicate LexLess(a: string, b: string)
    decreases |a|
  {
    if a == [] then b != []
    else b != [] && (a[0] < b[0] || (a[0] == b[0] && LexLess(a[1..], b[1..])))
  }

  lemma {:induction false} LexIrreflexive(a: string)
    ensures !LexLess(a, a)
    decreases |a|
  {
    if a != [] {
      LexIrreflexive(a[1..]);
    }
  }

  lemma {:induction false} LexTransitive(a: string, b: string, c: string)
    requires LexLess(a, b) && LexLess(b, c)
    ensures LexLess(a, c)
    decreases |a|
  {
    if a != [] && a[0] == b[0] && b[0] == c[0] {
      LexTransitive(a[1..], b[1..], c[1..]);
    }
  }

  lemma {:induction false} LexTotal(a: string, b: string)
    ensures a == b || LexLess(a, b) || LexLess(b, a)
    decreases |a|
  {
    if a != [] && b != [] && a[0] == b[0] {
      LexTotal(a[1..], b[1..]);
      if a[1..] == b[1..] {
        assert a == [a[0]] + a[1..] && b == [b[0]] + b[1..];
      }
    }
  }

  predicate StrictlySorted(xs: seq<string>) {
    forall i, j :: 0 <= i < j < |xs| ==> LexLess(xs[i], xs[j])
  }

  /** Adds `x` to a strictly sorted sequence unless it is already there. */
  function Insert(x: string, xs: seq<string>): (r: seq<string>)
    requires StrictlySorted(xs)
    ensures StrictlySorted(r)
    ensures forall y :: y in r <==> y == x || y in xs
  {
    if xs == [] then [x]
    else if x == xs[0] then xs
    else if LexLess(x, xs[0]) then
      assert forall j :: 0 <= j < |xs| ==> LexLess(x, xs[j]) by {
        forall j | 0 < j < |xs| ensures LexLess(x, xs[j]) {
          LexTransitive(x, xs[0], xs[j]);
        }
      }
      [x] + xs
    else
      LexTotal(x, xs[0]);
      var tail := Insert(x, xs[1..]);
      assert forall y :: y in tail ==> LexLess(xs[0], y);
      [xs[0]] + tail
  }

  /** `sorted(set(xs))`: the distinct values of `xs` in increasing order. */
  function SortedSet(xs: seq<string>): (r: seq<string>)
    ensures StrictlySorted(r)
    ensures forall y :: y in r <==> y in xs
  {
    if xs == [] then [] else Insert(xs[|xs| - 1], SortedSet(xs[..|xs| - 1]))
  }

  /** A strictly sorted sequence is determined by its set of elements. */
  lemma {:induction false} StrictlySortedUnique(a: seq<string>, b: seq<string>)
    requires StrictlySorted(a) && StrictlySorted(b)
    requires forall y :: y in a <==> y in b
    ensures a == b
  {
    assert a == [] <==> b == [] by {
      if a != [] { assert a[0] in a; }
      if b != [] { assert b[0] in b; }
    }
    if a != [] {
      if a[0] != b[0] {
        assert b[0] in a && a[0] in b;
        assert LexLess(a[0], b[0]) by {
          var j :| 0 <= j < |b| && b[j] == a[0];
          assert j > 0;
        }
        assert LexLess(b[0], a[0]) by {
          var j :| 0 <= j < |a| && a[j] == b[0];
          assert j > 0;
        }
        LexTransitive(a[0], b[0], a[0]);
        LexIrreflexive(a[0]);
        assert false;
      }
      forall y
        ensures y in a[1..] <==> y in b[1..]
      {
        if y in a[1..] {
          var j :| 1 <= j < |a| && a[j] == y;
          assert LexLess(a[0], y);
          assert y in a && y in b;
          LexIrreflexive(y);
          var i :| 0 <= i < |b| && b[i] == y;
          assert i != 0;
          assert b[1..][i - 1] == y;
        }
        if y in b[1..] {
          var j :| 1 <= j < |b| && b[j] == y;
          assert LexLess(b[0], y);
          assert y in b && y in a;
          LexIrreflexive(y);
          var i :| 0 <= i < |a| && a[i] == y;
          assert i != 0;
          assert a[1..][i - 1] == y;
        }
      }
      StrictlySortedUnique(a[1..], b[1..]);
      assert a == [a[0]] + a[1..] && b == [b[0]] + b[1..];
    }
  }
}
