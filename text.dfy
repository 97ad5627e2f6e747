/*
 * The handful of Python string operations the snippet parser relies on, with
 * Python's edge cases: UTF-8 encoded length, `s * n`, `str.replace`,
 * `str.split(sep)`, `sep.join(parts)` and `str.splitlines(True)`.
 */
module Text {

  /** Number of bytes UTF-8 uses for one Unicode scalar value. */
  function CharBytes(c: char): (n: nat)
    ensures 1 <= n <= 4
  {
    if c as int < 0x80 then 1
    else if c as int < 0x800 then 2
    else if c as int < 0x1_0000 then 3
    else 4
  }

  /** `len(encode(s))` for UTF-8: between one and four bytes per character. */
  function ByteLen(s: string): (n: nat)
    ensures |s| <= n <= 4 * |s|
  {
    if s == [] then 0 else CharBytes(s[0]) + ByteLen(s[1..])
  }

  lemma {:induction false} ByteLenAppend(s: string, t: string)
    ensures ByteLen(s + t) == ByteLen(s) + ByteLen(t)
    decreases |s|
  {
    if s != [] {
      assert (s + t)[1..] == s[1..] + t;
      ByteLenAppend(s[1..], t);
    } else {
      assert s + t == t;
    }
  }

  /** Python's `s * n`: empty when `n` is not positive. */
  function Repeat(s: string, n: int): (r: string)
    ensures |r| == if n <= 0 then 0 else |s| * n
    decreases n
  {
    if n <= 0 then [] else
      var rest := Repeat(s, n - 1);
      assert |s| * n == |s| + |s| * (n - 1);
      s + rest
  }

  function Spaces(n: int): string { Repeat(" ", n) }

  function Tabs(n: int): string { Repeat("\t", n) }

  /**
   * Python's `s.replace(pat, rep)`: every non-overlapping occurrence of `pat`,
   * scanning left to right, is replaced by `rep`.  An empty `pat` matches at
   * every position, before each character and at the end.
   */
  function Replace(s: string, pat: string, rep: string): string
    decreases |s|, |pat| == 0
  {
    if pat == [] then
      if s == [] then rep else rep + [s[0]] + Replace(s[1..], pat, rep)
    else if |pat| <= |s| && s[..|pat|] == pat then rep + Replace(s[|pat|..], pat, rep)
    else if s == [] then []
    else [s[0]] + Replace(s[1..], pat, rep)
  }

  /** For a non-empty pattern, `s.replace(pat, rep)` is `rep.join(s.split(pat))`. */
  lemma {:induction false} ReplaceJoinsSplit(s: string, pat: string, rep: string)
    requires 0 < |pat|
    ensures Replace(s, pat, rep) == Join(Split(s, pat), rep)
    decreases |s|
  {
    if |pat| <= |s| && s[..|pat|] == pat {
      var rest := Split(s[|pat|..], pat);
      assert ([[]] + rest)[1..] == rest;
      ReplaceJoinsSplit(s[|pat|..], pat, rep);
    } else if |s| < |pat| {
      ReplaceShort(s, pat, rep);
    } else {
      ReplaceJoinsSplit(s[1..], pat, rep);
      JoinConsHead(s[0], Split(s[1..], pat), rep);
    }
  }

  /** Text shorter than a non-empty pattern is left alone. */
  lemma {:induction false} ReplaceShort(s: string, pat: string, rep: string)
    requires 0 < |pat| && |s| < |pat|
    ensures Replace(s, pat, rep) == s
    decreases |s|
  {
    if s != [] {
      ReplaceShort(s[1..], pat, rep);
    }
  }

  lemma RepeatStep(s: string, n: nat)
    ensures Repeat(s, n + 1) == s + Repeat(s, n)
  {
  }

  lemma {:induction false} SpacesAllSpace(n: int)
    ensures forall i :: 0 <= i < |Spaces(n)| ==> Spaces(n)[i] == ' '
    decreases n
  {
    if 0 < n {
      SpacesAllSpace(n - 1);
      RepeatStep(" ", n - 1);
      forall i | 0 < i < |Spaces(n)| ensures Spaces(n)[i] == ' ' {
        assert Spaces(n)[i] == Spaces(n - 1)[i - 1];
      }
    }
  }

  lemma SpacesSplit(m: nat, n: nat)
    ensures Spaces(m + n) == Spaces(m) + Spaces(n)
  {
    SpacesAllSpace(m + n);
    SpacesAllSpace(m);
    SpacesAllSpace(n);
    var l, r := Spaces(m + n), Spaces(m) + Spaces(n);
    assert |l| == |r|;
    forall i | 0 <= i < |l| ensures l[i] == r[i] {
      if i < m { assert r[i] == Spaces(m)[i]; } else { assert r[i] == Spaces(n)[i - m]; }
    }
  }

  /**
   * Replacing each run of `ts` spaces by a tab, in a run of `n == q * ts + r`
   * spaces with `r < ts`, leaves `q` tabs followed by `r` spaces.
   */
  lemma {:induction false} ReplaceSpacesByTabs(n: nat, q: nat, r: nat, ts: int)
    requires 0 <= r < ts && n == q * ts + r
    ensures Replace(Spaces(n), Spaces(ts), "\t") == Tabs(q) + Spaces(r)
    decreases q
  {
    if q == 0 {
      ReplaceShort(Spaces(r), Spaces(ts), "\t");
    } else {
      var rest := n - ts;
      var pat := Spaces(ts);
      assert Spaces(n) == pat + Spaces(rest) by { SpacesSplit(ts, rest); }
      assert Replace(pat + Spaces(rest), pat, "\t") == "\t" + Replace(Spaces(rest), pat, "\t") by {
        ReplaceAtStart(pat, Spaces(rest), "\t");
      }
      assert Replace(Spaces(rest), pat, "\t") == Tabs(q - 1) + Spaces(r) by {
        MulPred(q, ts);
        ReplaceSpacesByTabs(rest, q - 1, r, ts);
      }
      assert Tabs(q) == "\t" + Tabs(q - 1) by { RepeatStep("\t", q - 1); }
    }
  }

  lemma MulPred(q: nat, ts: int)
    requires 0 < q
    ensures q * ts - ts == (q - 1) * ts
  {
  }

  /** Text that starts with a non-empty pattern has it replaced first. */
  lemma ReplaceAtStart(pat: string, t: string, rep: string)
    requires 0 < |pat|
    ensures Replace(pat + t, pat, rep) == rep + Replace(t, pat, rep)
  {
    assert (pat + t)[..|pat|] == pat && (pat + t)[|pat|..] == t;
  }

  /** The same, as `l div ts` tabs followed by `l mod ts` spaces. */
  lemma ReplaceSpacesByTabsDivMod(l: nat, ts: int)
    requires 0 < ts
    ensures Replace(Spaces(l), Spaces(ts), "\t") == Tabs(l / ts) + Spaces(l % ts)
  {
    var q, r := l / ts, l % ts;
    assert l == ts * q + r;
    assert ts * q == q * ts;
    ReplaceSpacesByTabs(l, q, r, ts);
  }

  /**
   * With an empty pattern a tab goes in front of every space and at the end:
   * `l` spaces become a tab followed by `l` copies of space-tab.
   */
  lemma {:induction false} ReplaceEmptyInSpaces(l: nat)
    ensures Replace(Spaces(l), "", "\t") == "\t" + Repeat(" \t", l)
    decreases l
  {
    if 0 < l {
      RepeatStep(" ", l - 1);
      RepeatStep(" \t", l - 1);
      var s := Spaces(l);
      assert s[0] == ' ' && s[1..] == Spaces(l - 1);
      ReplaceEmptyInSpaces(l - 1);
    }
  }

  /** Python's `sep.join(parts)`; `Join(parts, "")` is `"".join(parts)`. */
  function Join(parts: seq<string>, sep: string): (r: string)
    ensures 0 < |parts| ==> parts[0] <= r
    ensures 1 < |parts| ==> OccursAt(r, sep, |parts[0]|)
  {
    if |parts| == 0 then []
    else if |parts| == 1 then parts[0]
    else parts[0] + sep + Join(parts[1..], sep)
  }

  /** `sep` occurs in `s` starting at index `i`. */
  predicate OccursAt(s: string, sep: string, i: int)
  {
    0 <= i && i + |sep| <= |s| && s[i..i + |sep|] == sep
  }

  /** Text that does not contain `sep` anywhere. */
  predicate Free(s: string, sep: string)
  {
    forall i :: 0 <= i <= |s| - |sep| ==> !OccursAt(s, sep, i)
  }

  /** One more character in front of the first part joins onto that part. */
  lemma JoinConsHead(c: char, parts: seq<string>, sep: string)
    requires 0 < |parts|
    ensures Join([[c] + parts[0]] + parts[1..], sep) == [c] + Join(parts, sep)
  {
    if 1 < |parts| {
      assert ([[c] + parts[0]] + parts[1..])[1..] == parts[1..];
    }
  }

  /** Joined text longer than the first part comes from more than one part. */
  lemma JoinLonger(parts: seq<string>, sep: string)
    requires 0 < |parts| && |parts[0]| < |Join(parts, sep)|
    ensures 1 < |parts|
  {
  }

  /** An occurrence at index `i > 0` of `s` is one at `i - 1` of its tail. */
  lemma OccursAtTail(s: string, sep: string)
    requires s != []
    ensures forall i :: 0 < i ==> (OccursAt(s, sep, i) <==> OccursAt(s[1..], sep, i - 1))
  {
    forall i | 0 < i ensures OccursAt(s, sep, i) <==> OccursAt(s[1..], sep, i - 1) {
      if i + |sep| <= |s| {
        var x, y := s[i..i + |sep|], s[1..][i - 1..i - 1 + |sep|];
        assert forall k :: 0 <= k < |sep| ==> x[k] == s[i + k] == y[k];
        assert x == y;
      }
    }
  }

  /** Putting a character that does not start an occurrence of `sep` in front of `sep`-free text. */
  lemma FreeCons(s: string, p: string, sep: string)
    requires 0 < |sep| && s != [] && p <= s[1..] && Free(p, sep)
    requires !(|sep| <= |s| && s[..|sep|] == sep)
    ensures Free([s[0]] + p, sep)
  {
    var head := [s[0]] + p;
    assert p == s[1..][..|p|];
    forall i | 0 <= i <= |head| - |sep| ensures !OccursAt(head, sep, i) {
      if i == 0 {
        assert head[0..0 + |sep|] == s[..|sep|];
      } else {
        var j := i - 1;
        assert 0 <= j <= |p| - |sep|;
        assert head[i..i + |sep|] == p[j..j + |sep|];
        assert !OccursAt(p, sep, j);
      }
    }
  }

  /**
   * Python's `s.split(sep)` for a non-empty separator (Python refuses an empty
   * one): the pieces between the occurrences of `sep` found scanning from the
   * left.  There is always at least one piece, no piece contains `sep`, and
   * joining the pieces with `sep` gives back `s`.  The first piece runs up to
   * the first occurrence of `sep`, and the rest split what follows it.
   */
  function Split(s: string, sep: string): (parts: seq<string>)
    requires 0 < |sep|
    ensures 1 <= |parts|
    ensures Join(parts, sep) == s
    ensures forall k :: 0 <= k < |parts| ==> Free(parts[k], sep)
    ensures parts[0] <= s
    ensures forall i :: 0 <= i < |parts[0]| ==> !OccursAt(s, sep, i)
    ensures 1 < |parts| ==> OccursAt(s, sep, |parts[0]|)
    decreases |s|
  {
    if |s| < |sep| then
      assert Free(s, sep);
      [s]
    else if s[..|sep|] == sep then
      var rest := Split(s[|sep|..], sep);
      assert s == [] + sep + Join(rest, sep);
      assert Free([], sep);
      assert OccursAt(s, sep, 0);
      [[]] + rest
    else
      var rest := Split(s[1..], sep);
      SplitCons(s, sep, rest);
      [[s[0]] + rest[0]] + rest[1..]
  }

  /** A first character that does not start `sep` joins the first piece of the split of the rest. */
  lemma SplitCons(s: string, sep: string, rest: seq<string>)
    requires 0 < |sep| <= |s| && s[..|sep|] != sep
    requires 1 <= |rest| && Join(rest, sep) == s[1..] && rest[0] <= s[1..]
    requires forall k :: 0 <= k < |rest| ==> Free(rest[k], sep)
    requires forall i :: 0 <= i < |rest[0]| ==> !OccursAt(s[1..], sep, i)
    requires 1 < |rest| ==> OccursAt(s[1..], sep, |rest[0]|)
    ensures var parts := [[s[0]] + rest[0]] + rest[1..];
      && Join(parts, sep) == s
      && (forall k :: 0 <= k < |parts| ==> Free(parts[k], sep))
      && parts[0] <= s
      && (forall i :: 0 <= i < |parts[0]| ==> !OccursAt(s, sep, i))
      && (1 < |parts| ==> OccursAt(s, sep, |parts[0]|))
  {
    FreeCons(s, rest[0], sep);
    JoinConsHead(s[0], rest, sep);
    OccursAtTail(s, sep);
    assert !OccursAt(s, sep, 0);
  }

  /** After the first piece and the separator that ends it, the rest of the text splits into the remaining pieces. */
  lemma {:induction false} SplitRest(s: string, sep: string)
    requires 0 < |sep|
    ensures var parts := Split(s, sep);
      1 < |parts| ==> parts[1..] == Split(s[|parts[0]| + |sep|..], sep)
    decreases |s|
  {
    if |sep| <= |s| && s[..|sep|] != sep {
      var rest := Split(s[1..], sep);
      SplitRest(s[1..], sep);
      if 1 < |rest| {
        assert s[1..][|rest[0]| + |sep|..] == s[1 + |rest[0]| + |sep|..];
      }
    }
  }

  /** No occurrence of a one-character separator starts inside text free of it. */
  lemma FreeThenSep(p: string, c: char, t: string)
    requires Free(p, [c])
    ensures forall i :: 0 <= i < |p| ==> !OccursAt(p + [c] + t, [c], i)
  {
    var s := p + [c] + t;
    forall i | 0 <= i < |p| ensures !OccursAt(s, [c], i) {
      assert !OccursAt(p, [c], i);
      assert s[i..i + 1] == p[i..i + 1];
    }
  }

  /** Text free of a one-character separator, the separator and more text split at that separator's occurrence. */
  lemma SplitAtFirst(p: string, c: char, t: string)
    requires Free(p, [c])
    ensures Split(p + [c] + t, [c]) == [p] + Split(t, [c])
  {
    var s := p + [c] + t;
    var q := Split(s, [c]);
    assert s[|p|..|p| + 1] == [c];
    assert OccursAt(s, [c], |p|);
    FreeThenSep(p, c, t);
    assert |q[0]| <= |p| < |s|;
    JoinLonger(q, [c]);
    assert OccursAt(s, [c], |q[0]|);
    assert |q[0]| == |p|;
    assert q[0] == s[..|p|] == p;
    assert s[|p| + 1..] == t;
    SplitRest(s, [c]);
    assert q == [q[0]] + q[1..];
  }

  /**
   * Splitting at a one-character separator undoes joining with it, when no
   * part contains that character.
   */
  lemma {:induction false} SplitJoin(parts: seq<string>, c: char)
    requires 0 < |parts|
    requires forall k :: 0 <= k < |parts| ==> Free(parts[k], [c])
    ensures Split(Join(parts, [c]), [c]) == parts
    decreases |parts|
  {
    if 1 < |parts| {
      SplitAtFirst(parts[0], c, Join(parts[1..], [c]));
      SplitJoin(parts[1..], c);
      assert parts == [parts[0]] + parts[1..];
    }
  }

  /** Line boundaries of Python's `str.splitlines`. */
  predicate IsLineBreak(c: char)
  {
    c == '\n' || c == '\r' || c == '\U{0B}' || c == '\U{0C}' || c == '\U{1C}' || c == '\U{1D}'
      || c == '\U{1E}' || c == '\U{85}' || c == '\U{2028}' || c == '\U{2029}'
  }

  /**
   * Length of the first line of non-empty text, its terminator included: the
   * line runs up to and including the first line break, where "\r\n" counts
   * as one break.
   */
  function FirstLineLen(s: string): (n: nat)
    requires s != []
    ensures 0 < n <= |s|
    ensures n < |s| ==> IsLineBreak(s[n - 1])
    ensures NoInnerBreak(s[..n])
    ensures s[n - 1] == '\r' && n < |s| ==> s[n] != '\n'
    decreases |s|
  {
    if IsLineBreak(s[0]) then
      if s[0] == '\r' && 1 < |s| && s[1] == '\n' then 2 else 1
    else if |s| == 1 then 1
    else
      var t := s[1..];
      var m := FirstLineLen(t);
      assert s[..1 + m] == [s[0]] + t[..m];
      NoInnerBreakCons(s[0], t[..m]);
      1 + m
  }

  lemma NoInnerBreakCons(c: char, line: string)
    requires !IsLineBreak(c) && NoInnerBreak(line)
    ensures NoInnerBreak([c] + line)
  {
    var l := [c] + line;
    forall j | 0 < j < |l| - 1 ensures !IsLineBreak(l[j]) || (j == |l| - 2 && l[j] == '\r' && l[j + 1] == '\n') {
      assert l[j] == line[j - 1] && l[j + 1] == line[j];
    }
  }

  /** Text without a line break is all one line. */
  lemma {:induction false} FirstLineLenNoBreak(s: string)
    requires s != []
    requires forall i :: 0 <= i < |s| ==> !IsLineBreak(s[i])
    ensures FirstLineLen(s) == |s|
    decreases |s|
  {
    if 1 < |s| {
      assert forall i :: 0 <= i < |s| - 1 ==> s[1..][i] == s[i + 1];
      FirstLineLenNoBreak(s[1..]);
    }
  }

  /** A line that ends in a line break. */
  predicate EndsInBreak(line: string)
  {
    line != [] && IsLineBreak(line[|line| - 1])
  }

  /** No line break inside a line, except for the '\r' of a final "\r\n". */
  predicate NoInnerBreak(line: string)
  {
    forall j :: 0 <= j < |line| - 1 ==>
      !IsLineBreak(line[j]) || (j == |line| - 2 && line[j] == '\r' && line[j + 1] == '\n')
  }

  /** A "\r\n" torn apart into two lines. */
  predicate TornCrLf(line: string, next: string)
  {
    line != [] && next != [] && line[|line| - 1] == '\r' && next[0] == '\n'
  }

  /** A first line in front of lines that are broken correctly, itself broken correctly. */
  lemma LinesCons(head: string, rest: seq<string>)
    requires head != [] && NoInnerBreak(head)
    requires forall i :: 0 <= i < |rest| ==> rest[i] != []
    requires rest != [] ==> EndsInBreak(head) && !TornCrLf(head, rest[0])
    requires forall i :: 0 <= i < |rest| - 1 ==> EndsInBreak(rest[i])
    requires forall i :: 0 <= i < |rest| ==> NoInnerBreak(rest[i])
    requires forall i :: 0 <= i < |rest| - 1 ==> !TornCrLf(rest[i], rest[i + 1])
    ensures var lines := [head] + rest;
      && (forall i :: 0 <= i < |lines| ==> lines[i] != [])
      && (forall i :: 0 <= i < |lines| - 1 ==> EndsInBreak(lines[i]))
      && (forall i :: 0 <= i < |lines| ==> NoInnerBreak(lines[i]))
      && (forall i :: 0 <= i < |lines| - 1 ==> !TornCrLf(lines[i], lines[i + 1]))
  {
    var lines := [head] + rest;
    assert forall i :: 0 < i < |lines| ==> lines[i] == rest[i - 1];
  }

  /**
   * Python's `s.splitlines(True)`: the lines of `s`, each keeping its
   * terminator.  Empty text has no lines; there is no empty line at the end.
   * The text is broken exactly after each line break: every line but the last
   * ends in one, no line holds one before its end (a final "\r\n" is one
   * break), and no "\r\n" is split between two lines.
   */
  function SplitLines(s: string): (lines: seq<string>)
    ensures Join(lines, "") == s
    ensures forall i :: 0 <= i < |lines| ==> lines[i] != []
    ensures |lines| == 0 <==> s == []
    ensures forall i :: 0 <= i < |lines| - 1 ==> EndsInBreak(lines[i])
    ensures forall i :: 0 <= i < |lines| ==> NoInnerBreak(lines[i])
    ensures forall i :: 0 <= i < |lines| - 1 ==> !TornCrLf(lines[i], lines[i + 1])
    decreases |s|
  {
    if s == [] then []
    else
      var n := FirstLineLen(s);
      var rest := SplitLines(s[n..]);
      assert s == s[..n] + Join(rest, "");
      assert 0 < |rest| ==> rest[0][0] == s[n];
      LinesCons(s[..n], rest);
      [s[..n]] + rest
  }

  /** Text without a line break is one line. */
  lemma SplitLinesOneLine(s: string)
    requires s != []
    requires forall i :: 0 <= i < |s| ==> !IsLineBreak(s[i])
    ensures SplitLines(s) == [s]
  {
    FirstLineLenNoBreak(s);
    assert s[..|s|] == s;
  }
}
