/** Python string operations used by the scripts, stated over `seq<char>`:
    `startswith`, `endswith`, `in` (substring), `replace`, `split` on one
    character, ASCII `lower`, `join`, and the Windows `os.path.join`. */
module Strings {

  predicate StartsWith(s: string, prefix: string) {
    |prefix| <= |s| && s[..|prefix|] == prefix
  }

  predicate EndsWith(s: string, suffix: string) {
    |suffix| <= |s| && s[|s| - |suffix|..] == suffix
  }

  /** Python's `t in s` for strings: `t` occurs somewhere in `s`. */
  predicate Contains(s: string, t: string)
    decreases |s|
  {
    StartsWith(s, t) || (|s| > 0 && Contains(s[1..], t))
  }

  /** Every element equal to `from` replaced by `to`, everything else kept
      in place: `str.replace` with one-character arguments, and a field
      list after one field is renamed. */
  function ReplaceEach<T(==)>(s: seq<T>, from: T, to: T): (r: seq<T>)
    ensures |r| == |s|
    ensures from != to ==> from !in r
    ensures from in s ==> to in r
    ensures forall x :: x in s && x != from ==> x in r
    ensures forall x :: x in r && x != to ==> x in s
    ensures forall k :: 0 <= k < |s| && s[k] != from ==> r[k] == s[k]
    ensures forall k :: 0 <= k < |s| && s[k] == from ==> r[k] == to
  {
    var r := seq(|s|, k requires 0 <= k < |s| => if s[k] == from then to else s[k]);
    assert forall x :: x in s && x != from ==> x in r by {
      forall x | x in s && x != from
        ensures x in r
      {
        var k :| 0 <= k < |s| && s[k] == x;
        assert r[k] == x;
      }
    }
    assert from in s ==> to in r by {
      if from in s {
        var k :| 0 <= k < |s| && s[k] == from;
        assert r[k] == to;
      }
    }
    r
  }

  /** Python's `s.replace(pat, rep)`: every non-overlapping occurrence of a
      non-empty `pat`, scanning from the left, is replaced by `rep`. */
  function ReplaceAll(s: string, pat: string, rep: string): string
    requires pat != []
    decreases |s|
  {
    if |s| < |pat| then s
    else if s[..|pat|] == pat then rep + ReplaceAll(s[|pat|..], pat, rep)
    else [s[0]] + ReplaceAll(s[1..], pat, rep)
  }

  /** Text without the pattern comes back unchanged. */
  lemma {:induction false} ReplaceAllNoMatch(s: string, pat: string, rep: string)
    requires pat != [] && !Contains(s, pat)
    ensures ReplaceAll(s, pat, rep) == s
    decreases |s|
  {
    if |s| >= |pat| {
      ReplaceAllNoMatch(s[1..], pat, rep);
      assert [s[0]] + s[1..] == s;
    }
  }

  /** When the first occurrence of `pat` ends `prefix + pat`, `replace`
      keeps the prefix, swaps that occurrence and goes on with the rest. */
  lemma {:induction false} ReplaceFirstOccurrence(prefix: string, pat: string, rep: string, rest: string)
    requires pat != []
    requires !Contains(prefix + pat[..|pat| - 1], pat)
    ensures ReplaceAll(prefix + pat + rest, pat, rep) == prefix + rep + ReplaceAll(rest, pat, rep)
    decreases |prefix|
  {
    if prefix == [] {
      assert prefix + pat + rest == pat + rest;
      ReplaceAtMatch(pat, rep, rest);
    } else {
      NoMatchAtStart(prefix, pat, rest);
      ReplaceAtNoMatch(prefix + pat + rest, pat, rep);
      ReplaceFirstOccurrence(prefix[1..], pat, rep, rest);
      DropFirst(prefix, pat, rest);
      DropFirst(prefix, rep, ReplaceAll(rest, pat, rep));
    }
  }

  /** `replace` at a match: the replacement, then the rest replaced. */
  lemma ReplaceAtMatch(pat: string, rep: string, rest: string)
    requires pat != []
    ensures ReplaceAll(pat + rest, pat, rep) == rep + ReplaceAll(rest, pat, rep)
  {
    assert (pat + rest)[..|pat|] == pat && (pat + rest)[|pat|..] == rest;
  }

  /** `replace` where no match starts: the first character is kept. */
  lemma ReplaceAtNoMatch(s: string, pat: string, rep: string)
    requires pat != [] && s != []
    requires |pat| <= |s| ==> s[..|pat|] != pat
    ensures ReplaceAll(s, pat, rep) == [s[0]] + ReplaceAll(s[1..], pat, rep)
  {
  }

  /** Splitting off the first character of a non-empty prefix. */
  lemma DropFirst(prefix: string, a: string, b: string)
    requires prefix != []
    ensures (prefix + a + b)[0] == prefix[0] && (prefix + a + b)[1..] == prefix[1..] + a + b
    ensures [prefix[0]] + (prefix[1..] + a + b) == prefix + a + b
  {
  }

  /** The step of `ReplaceFirstOccurrence`: with a non-empty prefix, `pat`
      does not start the string, and the prefix's tail still has no
      occurrence. */
  lemma NoMatchAtStart(prefix: string, pat: string, rest: string)
    requires pat != [] && prefix != []
    requires !Contains(prefix + pat[..|pat| - 1], pat)
    ensures (prefix + pat + rest)[..|pat|] != pat
    ensures !Contains(prefix[1..] + pat[..|pat| - 1], pat)
  {
    var head := prefix + pat[..|pat| - 1];
    assert (prefix + pat + rest)[..|pat|] == head[..|pat|];
    assert head[1..] == prefix[1..] + pat[..|pat| - 1];
  }

  /** When `pat` occurs only at the end of `prefix + pat`, `replace`
      swaps that one occurrence. */
  lemma ReplaceOnlyOccurrence(prefix: string, pat: string, rep: string)
    requires pat != []
    requires !Contains(prefix + pat[..|pat| - 1], pat)
    ensures ReplaceAll(prefix + pat, pat, rep) == prefix + rep
  {
    ReplaceFirstOccurrence(prefix, pat, rep, []);
    assert prefix + pat + [] == prefix + pat;
    assert ReplaceAll([], pat, rep) == [];
    assert prefix + rep + [] == prefix + rep;
  }

  /** How many occurrences of `pat` `replace` swaps: non-overlapping,
      scanning from the left. */
  function Occurrences(s: string, pat: string): nat
    requires pat != []
    decreases |s|
  {
    if |s| < |pat| then 0
    else if s[..|pat|] == pat then 1 + Occurrences(s[|pat|..], pat)
    else Occurrences(s[1..], pat)
  }

  lemma MulSucc(n: int, d: int)
    ensures (1 + n) * d == d + n * d
  {
  }

  /** Each swap changes the length by the difference of the two texts. */
  lemma {:induction false} ReplaceAllLength(s: string, pat: string, rep: string)
    requires pat != []
    ensures |ReplaceAll(s, pat, rep)| == |s| + Occurrences(s, pat) * (|rep| - |pat|)
    decreases |s|
  {
    if |s| >= |pat| {
      var d := |rep| - |pat|;
      if s[..|pat|] == pat {
        var rest := s[|pat|..];
        ReplaceAllLength(rest, pat, rep);
        var n, m := Occurrences(rest, pat), Occurrences(s, pat);
        assert |ReplaceAll(s, pat, rep)| == |rep| + |ReplaceAll(rest, pat, rep)|;
        assert |ReplaceAll(rest, pat, rep)| == |s| - |pat| + n * d;
        assert m == 1 + n;
        MulSucc(n, d);
      } else {
        ReplaceAllLength(s[1..], pat, rep);
        assert |ReplaceAll(s, pat, rep)| == 1 + |ReplaceAll(s[1..], pat, rep)|;
        assert Occurrences(s, pat) == Occurrences(s[1..], pat);
      }
    }
  }

  /** Text that contains the pattern is at least as long as it and has an
      occurrence for `replace` to swap. */
  lemma {:induction false} ContainsOccurs(s: string, pat: string)
    requires pat != [] && Contains(s, pat)
    ensures |pat| <= |s| && Occurrences(s, pat) >= 1
    decreases |s|
  {
    if !StartsWith(s, pat) {
      ContainsOccurs(s[1..], pat);
    }
  }

  /** A text ending in `t` contains `t`. */
  lemma {:induction false} EndsWithContains(s: string, t: string)
    requires EndsWith(s, t)
    ensures Contains(s, t)
    decreases |s|
  {
    if |s| > |t| {
      assert s[1..][|s| - 1 - |t|..] == s[|s| - |t|..];
      EndsWithContains(s[1..], t);
    } else {
      assert s[..|t|] == s[|s| - |t|..];
    }
  }

  /** A text lacking the pattern's last character does not contain it. */
  lemma {:induction false} MissingCharNotContained(s: string, t: string)
    requires t != [] && t[|t| - 1] !in s
    ensures !Contains(s, t)
    decreases |s|
  {
    if |t| <= |s| {
      assert s[..|t|][|t| - 1] == s[|t| - 1];
    }
    if s != [] {
      assert forall c :: c in s[1..] ==> c in s;
      MissingCharNotContained(s[1..], t);
    }
  }

  /** Swapping an occurrence for a different text of the same length always
      changes the text. */
  lemma {:induction false} ReplaceAllChanges(s: string, pat: string, rep: string)
    requires pat != [] && Contains(s, pat) && |rep| == |pat| && rep != pat
    ensures ReplaceAll(s, pat, rep) != s
    decreases |s|
  {
    ContainsOccurs(s, pat);
    var r := ReplaceAll(s, pat, rep);
    if s[..|pat|] == pat {
      assert r[..|pat|] == rep;
    } else {
      ContainsOccurs(s[1..], pat);
      ReplaceAllChanges(s[1..], pat, rep);
      assert r[1..] == ReplaceAll(s[1..], pat, rep);
    }
  }

  /** Python's `s.split(sep)` for a one-character separator. */
  function Split(s: string, sep: char): (r: seq<string>)
    ensures |r| >= 1
    decreases |s|
  {
    if |s| == 0 then [""]
    else if s[0] == sep then [""] + Split(s[1..], sep)
    else
      var rest := Split(s[1..], sep);
      [[s[0]] + rest[0]] + rest[1..]
  }

  /** Splitting a string without the separator gives the string itself. */
  lemma {:induction false} SplitNoSeparator(s: string, sep: char)
    requires sep !in s
    ensures Split(s, sep) == [s]
    decreases |s|
  {
    if |s| > 0 {
      assert sep !in s[1..];
      SplitNoSeparator(s[1..], sep);
      assert [s[0]] + s[1..] == s;
    }
  }

  /** The first token is the text up to the first separator. */
  lemma {:induction false} SplitFirstToken(p: string, sep: char, q: string)
    requires sep !in p
    ensures Split(p + [sep] + q, sep) == [p] + Split(q, sep)
    decreases |p|
  {
    var s := p + [sep] + q;
    if p == [] {
      assert s[0] == sep && s[1..] == q;
    } else {
      assert s[0] == p[0] && s[1..] == p[1..] + [sep] + q;
      assert sep !in p[1..];
      SplitFirstToken(p[1..], sep, q);
      assert [p[0]] + p[1..] == p;
    }
  }

  /** Python's ASCII lower-casing of one character. */
  function LowerChar(c: char): char {
    if 'A' <= c <= 'Z' then (c as int + 32) as char else c
  }

  /** Python's `s.lower()` restricted to ASCII letters. */
  function Lower(s: string): (r: string)
    ensures |r| == |s|
    ensures forall i :: 0 <= i < |s| ==> r[i] == LowerChar(s[i])
  {
    seq(|s|, i requires 0 <= i < |s| => LowerChar(s[i]))
  }

  /** Python's `sep.join(parts)`. */
  function Join(sep: string, parts: seq<string>): string
    decreases |parts|
  {
    if |parts| == 0 then ""
    else if |parts| == 1 then parts[0]
    else parts[0] + sep + Join(sep, parts[1..])
  }

  /** Windows `os.path.join(dir, name)` for a relative `name`: a
      backslash is inserted unless `dir` is empty or already ends in a
      separator. */
  function PathJoin(dir: string, name: string): (r: string)
    ensures EndsWith(r, name)
    ensures StartsWith(r, dir)
  {
    if dir == [] || dir[|dir| - 1] in {'\\', '/'} then dir + name
    else dir + "\\" + name
  }
}
