/**
 * The few Python `str` built-ins the launcher relies on, over `seq<char>`:
 * `strip()`, `splitlines()`, `"\n".join(...)`, `split(sep, maxsplit)` and
 * `find(...)`.  `strip` and `splitlines` use Python's own whitespace and
 * line-boundary character sets, written out explicitly below.
 */
module PyStr {
  import opened Wrappers

  /** The characters for which Python's `str.isspace()` holds. */
  predicate IsSpace(c: char) {
    ('\t' <= c <= '\r') || ('\U{1c}' <= c <= '\U{1f}') || c == ' '
    || c == '\U{85}' || c == '\U{a0}' || c == '\U{1680}'
    || ('\U{2000}' <= c <= '\U{200a}') || c == '\U{2028}' || c == '\U{2029}'
    || c == '\U{202f}' || c == '\U{205f}' || c == '\U{3000}'
  }

  /** The line boundaries of Python's `str.splitlines()` ("\r\n" counts as one). */
  predicate IsLineBreak(c: char) {
    ('\n' <= c <= '\r') || ('\U{1c}' <= c <= '\U{1e}')
    || c == '\U{85}' || c == '\U{2028}' || c == '\U{2029}'
  }

  predicate NoLineBreak(s: string) {
    forall k :: 0 <= k < |s| ==> !IsLineBreak(s[k])
  }

  predicate AllSpace(s: string) {
    forall k :: 0 <= k < |s| ==> IsSpace(s[k])
  }

  /** Neither end of `s` is whitespace: what `strip()` leaves alone. */
  predicate Trimmed(s: string) {
    s == [] || (!IsSpace(s[0]) && !IsSpace(s[|s| - 1]))
  }

  // ---------------------------------------------------------------- strip

  /**
   * `s.strip()`: drops whitespace from both ends until neither end is
   * whitespace.
   */
  function Strip(s: string): (r: string)
    ensures Trimmed(r)
    ensures |r| <= |s|
    ensures r == [] <==> AllSpace(s)
    decreases |s|
  {
    if s != [] && IsSpace(s[0]) then
      assert s == [s[0]] + s[1..];
      Strip(s[1..])
    else if s != [] && IsSpace(s[|s| - 1]) then
      assert s == s[..|s| - 1] + [s[|s| - 1]];
      Strip(s[..|s| - 1])
    else
      s
  }

  /**
   * `strip()` is pinned down by its effect: if `s` is an all-whitespace
   * prefix, a trimmed middle and an all-whitespace suffix, it returns the
   * middle.
   */
  lemma {:induction false} StripUnique(pre: string, mid: string, post: string)
    requires AllSpace(pre) && AllSpace(post)
    requires mid != [] && Trimmed(mid)
    ensures Strip(pre + mid + post) == mid
    decreases |pre| + |post|
  {
    var s := pre + mid + post;
    if pre != [] {
      assert s[0] == pre[0];
      assert s[1..] == pre[1..] + mid + post;
      StripUnique(pre[1..], mid, post);
    } else if post != [] {
      assert s == mid + post;
      assert s[0] == mid[0];
      assert s[|s| - 1] == post[|post| - 1];
      assert s[..|s| - 1] == pre + mid + post[..|post| - 1];
      StripUnique(pre, mid, post[..|post| - 1]);
    } else {
      assert s == mid;
    }
  }

  // ------------------------------------------------------------ splitlines

  /** Index of the first line boundary of `s`, or `|s|` if there is none. */
  function LineEnd(s: string): (i: nat)
    ensures i <= |s|
    ensures i < |s| ==> IsLineBreak(s[i])
    ensures NoLineBreak(s[..i])
  {
    if s == [] || IsLineBreak(s[0]) then 0
    else
      var j := LineEnd(s[1..]);
      assert s[..1 + j] == [s[0]] + s[1..][..j];
      1 + j
  }

  /** Width of the boundary at `s[i]`: 2 for "\r\n", 1 otherwise. */
  function BreakWidth(s: string, i: nat): (w: nat)
    requires i < |s|
    ensures 1 <= w && i + w <= |s|
  {
    if s[i] == '\r' && i + 1 < |s| && s[i + 1] == '\n' then 2 else 1
  }

  /** `s.splitlines()`: the lines of `s`, boundaries dropped, no empty last line. */
  function SplitLines(s: string): (lines: seq<string>)
    ensures forall k :: 0 <= k < |lines| ==> NoLineBreak(lines[k])
    ensures lines == [] <==> s == []
    decreases |s|
  {
    if s == [] then []
    else
      var i := LineEnd(s);
      if i == |s| then [s]
      else [s[..i]] + SplitLines(s[i + BreakWidth(s, i)..])
  }

  /** `"\n".join(lines)`. */
  function JoinLines(lines: seq<string>): (s: string)
    decreases |lines|
  {
    if lines == [] then ""
    else if |lines| == 1 then lines[0]
    else lines[0] + "\n" + JoinLines(lines[1..])
  }

  lemma {:induction false} LineEndOfLine(line: string, rest: string)
    requires NoLineBreak(line)
    requires rest == [] || IsLineBreak(rest[0])
    ensures LineEnd(line + rest) == |line|
    decreases |line|
  {
    if line == [] {
      assert line + rest == rest;
    } else {
      var s := line + rest;
      assert s[0] == line[0];
      assert s[1..] == line[1..] + rest;
      LineEndOfLine(line[1..], rest);
    }
  }

  /**
   * `splitlines` undoes `"\n".join` when no line holds a boundary and the
   * last line is not empty (an empty last line is swallowed by `splitlines`).
   */
  lemma {:induction false} SplitJoinLines(lines: seq<string>)
    requires forall k :: 0 <= k < |lines| ==> NoLineBreak(lines[k])
    requires lines != [] ==> lines[|lines| - 1] != []
    ensures SplitLines(JoinLines(lines)) == lines
    decreases |lines|
  {
    if |lines| == 1 {
      LineEndOfLine(lines[0], []);
      assert lines[0] + [] == lines[0];
    } else if |lines| > 1 {
      var tail := JoinLines(lines[1..]);
      var s := lines[0] + "\n" + tail;
      var i := |lines[0]|;
      assert JoinLines(lines) == s;
      assert s == lines[0] + ("\n" + tail);
      LineEndOfLine(lines[0], "\n" + tail);
      assert s[i] == '\n' && BreakWidth(s, i) == 1;
      assert s[..i] == lines[0];
      assert s[i + 1..] == tail;
      assert SplitLines(s) == [lines[0]] + SplitLines(tail);
      SplitJoinLines(lines[1..]);
      assert lines == [lines[0]] + lines[1..];
    }
  }

  // ----------------------------------------------------------------- split

  /** Index of the first `c` in `s`, if any. */
  function FindChar(s: string, c: char): (r: Option<nat>)
    ensures r.Some? ==> r.value < |s| && s[r.value] == c
  {
    if s == [] then None
    else if s[0] == c then Some(0)
    else match FindChar(s[1..], c)
      case None => None
      case Some(i) => Some(i + 1)
  }

  /** `FindChar` finds the first `c`: none comes before it, and none at all when it finds nothing. */
  lemma {:induction false} FindCharFirst(s: string, c: char)
    ensures FindChar(s, c).Some? ==> forall k :: 0 <= k < FindChar(s, c).value ==> s[k] != c
    ensures FindChar(s, c).None? ==> forall k :: 0 <= k < |s| ==> s[k] != c
    decreases |s|
  {
    if s != [] && s[0] != c {
      FindCharFirst(s[1..], c);
      assert forall k :: 1 <= k < |s| ==> s[k] == s[1..][k - 1];
    }
  }

  /** An index holding `c` with no `c` before it is what `FindChar` returns. */
  lemma FindCharAt(s: string, c: char, i: nat)
    requires i < |s| && s[i] == c
    requires forall k :: 0 <= k < i ==> s[k] != c
    ensures FindChar(s, c) == Some(i)
  {
    FindCharFirst(s, c);
  }

  /** `s.split(sep, maxsplit)` for a one-character separator. */
  function Split(s: string, sep: char, maxsplit: nat): (parts: seq<string>)
    ensures 1 <= |parts| <= maxsplit + 1
    decreases maxsplit
  {
    if maxsplit == 0 then [s]
    else match FindChar(s, sep)
      case None => [s]
      case Some(i) => [s[..i]] + Split(s[i + 1..], sep, maxsplit - 1)
  }

  /** `sep.join(parts)` for a one-character separator. */
  function JoinWith(sep: char, parts: seq<string>): string
    decreases |parts|
  {
    if parts == [] then ""
    else if |parts| == 1 then parts[0]
    else parts[0] + [sep] + JoinWith(sep, parts[1..])
  }

  lemma JoinWithCons(sep: char, head: string, rest: seq<string>)
    requires rest != []
    ensures JoinWith(sep, [head] + rest) == head + [sep] + JoinWith(sep, rest)
  {
    assert ([head] + rest)[1..] == rest;
  }

  lemma CutAt(s: string, i: nat)
    requires i < |s|
    ensures s[..i] + [s[i]] + s[i + 1..] == s
  {
  }

  /** Splitting loses nothing: joining the parts gives the string back. */
  lemma {:induction false} JoinSplit(s: string, sep: char, maxsplit: nat)
    ensures JoinWith(sep, Split(s, sep, maxsplit)) == s
    decreases maxsplit, 1
  {
    if maxsplit > 0 {
      match FindChar(s, sep)
      case None =>
      case Some(i) => JoinSplitAt(s, sep, maxsplit, i);
    }
  }

  /** `split` cuts at the first separator and splits the rest with one split fewer. */
  /**
   * `split` cuts from the left: every part but the last holds no
   * separator, so each cut is at the first separator still unused.
   */
  lemma {:induction false} SplitLeftToRight(s: string, sep: char, maxsplit: nat)
    ensures forall k :: 0 <= k < |Split(s, sep, maxsplit)| - 1 ==> sep !in Split(s, sep, maxsplit)[k]
    decreases maxsplit
  {
    if maxsplit > 0 {
      match FindChar(s, sep)
      case None =>
      case Some(i) =>
        var parts := Split(s, sep, maxsplit);
        var rest := Split(s[i + 1..], sep, maxsplit - 1);
        FindCharFirst(s, sep);
        SplitStep(s, sep, maxsplit, i);
        SplitLeftToRight(s[i + 1..], sep, maxsplit - 1);
        forall k | 0 <= k < |parts| - 1
          ensures sep !in parts[k]
        {
          if k == 0 {
            assert parts[0] == s[..i];
          } else {
            assert parts[k] == rest[k - 1];
          }
        }
    }
  }

  lemma SplitStep(s: string, sep: char, maxsplit: nat, i: nat)
    requires maxsplit > 0 && FindChar(s, sep) == Some(i)
    ensures Split(s, sep, maxsplit) == [s[..i]] + Split(s[i + 1..], sep, maxsplit - 1)
  {
  }

  lemma SplitStepLength(s: string, sep: char, maxsplit: nat, i: nat)
    requires maxsplit > 0 && FindChar(s, sep) == Some(i)
    ensures |Split(s, sep, maxsplit)| == 1 + |Split(s[i + 1..], sep, maxsplit - 1)|
  {
    SplitStep(s, sep, maxsplit, i);
  }

  /** The step of `JoinSplit`: the part before the first separator, then the split of the rest. */
  lemma {:induction false} JoinSplitAt(s: string, sep: char, maxsplit: nat, i: nat)
    requires maxsplit > 0 && FindChar(s, sep) == Some(i)
    ensures JoinWith(sep, Split(s, sep, maxsplit)) == s
    decreases maxsplit, 0
  {
    JoinSplit(s[i + 1..], sep, maxsplit - 1);
    JoinSplitStep(s, sep, maxsplit, i);
  }

  /** Joining the first part back onto the rejoined remainder gives the string. */
  lemma JoinSplitStep(s: string, sep: char, maxsplit: nat, i: nat)
    requires maxsplit > 0 && FindChar(s, sep) == Some(i)
    requires JoinWith(sep, Split(s[i + 1..], sep, maxsplit - 1)) == s[i + 1..]
    ensures JoinWith(sep, Split(s, sep, maxsplit)) == s
  {
    SplitStep(s, sep, maxsplit, i);
    JoinParts(s, sep, i, Split(s[i + 1..], sep, maxsplit - 1), Split(s, sep, maxsplit));
  }

  lemma JoinParts(s: string, sep: char, i: nat, rest: seq<string>, parts: seq<string>)
    requires i < |s| && s[i] == sep && rest != [] && JoinWith(sep, rest) == s[i + 1..]
    requires parts == [s[..i]] + rest
    ensures JoinWith(sep, parts) == s
  {
    JoinWithCons(sep, s[..i], rest);
    CutAt(s, i);
  }

  /** Number of occurrences of `c` in `s`. */
  function Count(s: string, c: char): nat {
    if s == [] then 0 else (if s[0] == c then 1 else 0) + Count(s[1..], c)
  }

  lemma {:induction false} CountAppend(a: string, b: string, c: char)
    ensures Count(a + b, c) == Count(a, c) + Count(b, c)
    decreases |a|
  {
    if a != [] {
      assert (a + b)[1..] == a[1..] + b;
      CountAppend(a[1..], b, c);
    } else {
      assert a + b == b;
    }
  }

  lemma {:induction false} CountAbsent(s: string, c: char)
    requires forall k :: 0 <= k < |s| ==> s[k] != c
    ensures Count(s, c) == 0
    decreases |s|
  {
    if s != [] {
      CountAbsent(s[1..], c);
    }
  }

  /**
   * `split(sep, maxsplit)` yields all `maxsplit + 1` parts exactly when the
   * separator occurs at least `maxsplit` times.
   */
  lemma {:induction false} SplitFull(s: string, sep: char, maxsplit: nat)
    ensures |Split(s, sep, maxsplit)| == maxsplit + 1 <==> Count(s, sep) >= maxsplit
    decreases maxsplit, 1
  {
    if maxsplit > 0 {
      match FindChar(s, sep)
      case None =>
        FindCharFirst(s, sep);
        CountAbsent(s, sep);
      case Some(i) =>
        SplitFullAt(s, sep, maxsplit, i);
    }
  }

  /** The step of `SplitFull`: one part and one separator fewer. */
  lemma {:induction false} SplitFullAt(s: string, sep: char, maxsplit: nat, i: nat)
    requires maxsplit > 0 && FindChar(s, sep) == Some(i)
    ensures |Split(s, sep, maxsplit)| == maxsplit + 1 <==> Count(s, sep) >= maxsplit
    decreases maxsplit, 0
  {
    SplitStepLength(s, sep, maxsplit, i);
    SplitFull(s[i + 1..], sep, maxsplit - 1);
    CountFound(s, sep, i);
    FullStep(|Split(s, sep, maxsplit)|, |Split(s[i + 1..], sep, maxsplit - 1)|,
             Count(s, sep), Count(s[i + 1..], sep), maxsplit);
  }

  /** One more part and one more separator keep "all parts" and "enough separators" in step. */
  lemma FullStep(parts: nat, restParts: nat, count: nat, restCount: nat, maxsplit: nat)
    requires maxsplit > 0 && parts == 1 + restParts && count == 1 + restCount
    requires restParts == maxsplit <==> restCount >= maxsplit - 1
    ensures parts == maxsplit + 1 <==> count >= maxsplit
  {
  }

  /** The occurrences of `c` are the one `FindChar` finds and those after it. */
  lemma CountFound(s: string, c: char, i: nat)
    requires FindChar(s, c) == Some(i)
    ensures Count(s, c) == 1 + Count(s[i + 1..], c)
  {
    FindCharFirst(s, c);
    CountFirst(s, c, i);
  }

  /** Counting from the first occurrence of `c`, at `i`. */
  lemma CountFirst(s: string, c: char, i: nat)
    requires i < |s| && s[i] == c
    requires forall k :: 0 <= k < i ==> s[k] != c
    ensures Count(s, c) == 1 + Count(s[i + 1..], c)
  {
    assert s == s[..i] + ([c] + s[i + 1..]);
    assert ([c] + s[i + 1..])[1..] == s[i + 1..];
    CountAppend(s[..i], [c] + s[i + 1..], c);
    CountAbsent(s[..i], c);
  }

  // ------------------------------------------------------------------ find

  /** `pat` occurs in `text` starting at index `i`. */
  predicate OccursAt(text: string, pat: string, i: nat) {
    i + |pat| <= |text| && text[i..i + |pat|] == pat
  }

  /** `text.find(pat)`: the lowest index where `pat` occurs, or -1. */
  function Find(text: string, pat: string): (r: int)
    ensures -1 <= r <= |text|
    ensures r >= 0 ==> OccursAt(text, pat, r)
    ensures r >= 0 ==> forall k :: 0 <= k < r ==> !OccursAt(text, pat, k)
    ensures r == -1 <==> forall k :: 0 <= k <= |text| ==> !OccursAt(text, pat, k)
    decreases |text|
  {
    if |pat| <= |text| && text[..|pat|] == pat then
      assert OccursAt(text, pat, 0);
      0
    else if text == [] then -1
    else
      assert !OccursAt(text, pat, 0) by {
        if |pat| <= |text| {
          assert text[0..|pat|] == text[..|pat|];
        }
      }
      var r := Find(text[1..], pat);
      assert forall j :: 1 <= j <= |text| ==> (OccursAt(text, pat, j) <==> OccursAt(text[1..], pat, j - 1)) by {
        forall j | 1 <= j <= |text| ensures OccursAt(text, pat, j) <==> OccursAt(text[1..], pat, j - 1) {
          if j + |pat| <= |text| {
            assert text[1..][j - 1..j - 1 + |pat|] == text[j..j + |pat|];
          }
        }
      }
      if r == -1 then -1 else r + 1
  }

  /** `pat in text`, written as the source does: `text.find(pat) != -1`. */
  predicate Contains(text: string, pat: string) {
    Find(text, pat) != -1
  }

  /** Substring search finds `pat` exactly when it occurs somewhere in `text`. */
  lemma ContainsIff(text: string, pat: string)
    ensures Contains(text, pat) <==> exists k :: 0 <= k <= |text| && OccursAt(text, pat, k)
  {
  }

  // ----------------------------------------------------------------- lower

  /** ASCII `str.lower()`: upper-case Latin letters become lower case. */
  function LowerChar(c: char): char {
    if 'A' <= c <= 'Z' then (c as int + 32) as char else c
  }

  function Lower(s: string): (r: string)
    ensures |r| == |s|
    ensures forall k :: 0 <= k < |s| ==> r[k] == LowerChar(s[k])
  {
    seq(|s|, k requires 0 <= k < |s| => LowerChar(s[k]))
  }
}
