/** The handful of Python `str` operations the modelled code relies on,
    restricted to ASCII: `lower`, `strip`, `split()`, `split(sep)`,
    `join`, `startswith`, `in` and `replace`. */
module Strings {

  predicate IsUpper(c: char) {
    'A' <= c <= 'Z'
  }

  /** `str.lower()` on one character, ASCII letters only. */
  function LowerChar(c: char): char {
    if IsUpper(c) then (c as int + 32) as char else c
  }

  function Lower(s: string): string {
    seq(|s|, i requires 0 <= i < |s| => LowerChar(s[i]))
  }

  /** Characters Python's `str.isspace()` accepts, below 128. */
  predicate IsSpace(c: char) {
    c == ' ' || 9 <= c as int <= 13 || 28 <= c as int <= 31
  }

  function StripLeft(s: string): (r: string)
    ensures |r| <= |s| && r == s[|s| - |r|..]
    ensures |r| > 0 ==> !IsSpace(r[0])
    ensures forall i :: 0 <= i < |s| - |r| ==> IsSpace(s[i])
  {
    if |s| > 0 && IsSpace(s[0]) then StripLeft(s[1..]) else s
  }

  function StripRight(s: string): (r: string)
    ensures |r| <= |s| && r == s[..|r|]
    ensures |r| > 0 ==> !IsSpace(r[|r| - 1])
    ensures forall i :: |r| <= i < |s| ==> IsSpace(s[i])
  {
    if |s| > 0 && IsSpace(s[|s| - 1]) then StripRight(s[..|s| - 1]) else s
  }

  /** `str.strip()`. */
  function Strip(s: string): string {
    StripRight(StripLeft(s))
  }

  lemma StripKeepsCharacters(s: string)
    ensures forall c :: c in Strip(s) ==> c in s
  {
    var l := StripLeft(s);
    var r := StripRight(l);
    forall c | c in r ensures c in s {
      var i :| 0 <= i < |r| && r[i] == c;
      assert l[i] == c;
      assert s[|s| - |l| + i] == c;
    }
  }

  /** Length of the run of non-space characters that starts `t`. */
  function WordLength(t: string): (n: nat)
    ensures n <= |t|
    ensures forall i :: 0 <= i < n ==> !IsSpace(t[i])
    ensures n < |t| ==> IsSpace(t[n])
  {
    if |t| == 0 || IsSpace(t[0]) then 0 else 1 + WordLength(t[1..])
  }

  /** `str.split()` with no separator: the maximal runs of non-space
      characters, left to right. */
  function Words(s: string): seq<string>
    decreases |s|
  {
    var t := StripLeft(s);
    if |t| == 0 then []
    else
      var n := WordLength(t);
      [t[..n]] + Words(t[n..])
  }

  /** `str.split(sep)` for a one-character separator: never empty, and
      empty strings appear between adjacent separators. */
  function SplitOn(s: string, sep: char): (parts: seq<string>)
    ensures |parts| > 0
    ensures forall k :: 0 <= k < |parts| ==> sep !in parts[k]
  {
    if |s| == 0 then [""]
    else
      var rest := SplitOn(s[1..], sep);
      if s[0] == sep then [""] + rest
      else [[s[0]] + rest[0]] + rest[1..]
  }

  /** `sep.join(parts)`. */
  function Join(parts: seq<string>, sep: string): string {
    if |parts| == 0 then ""
    else if |parts| == 1 then parts[0]
    else parts[0] + sep + Join(parts[1..], sep)
  }

  /** Splitting on a separator and joining the pieces back with it is the
      identity. */
  lemma {:induction false} JoinSplitOn(s: string, sep: char)
    ensures Join(SplitOn(s, sep), [sep]) == s
  {
    if |s| > 0 {
      var rest := SplitOn(s[1..], sep);
      JoinSplitOn(s[1..], sep);
      if s[0] == sep {
        assert SplitOn(s, sep)[1..] == rest;
      } else {
        var parts := SplitOn(s, sep);
        assert parts[1..] == rest[1..];
        if |rest| == 1 {
          assert Join(parts, [sep]) == [s[0]] + rest[0];
        } else {
          assert Join(rest, [sep]) == rest[0] + [sep] + Join(rest[1..], [sep]);
        }
      }
    }
  }

  /** `s.startswith(p)`. */
  predicate IsPrefix(p: string, s: string) {
    |p| <= |s| && s[..|p|] == p
  }

  /** `q in s` for two strings: `q` occurs as a contiguous substring. */
  predicate Contains(s: string, q: string)
    decreases |s|
  {
    IsPrefix(q, s) || (|s| > 0 && Contains(s[1..], q))
  }

  /** The recursive `Contains` agrees with "some offset starts with q". */
  lemma {:induction false} ContainsAt(s: string, q: string)
    ensures Contains(s, q) <==> exists i :: 0 <= i <= |s| && IsPrefix(q, s[i..])
    decreases |s|
  {
    assert s[0..] == s;
    if |s| > 0 {
      ContainsAt(s[1..], q);
      if Contains(s[1..], q) {
        var i :| 0 <= i <= |s[1..]| && IsPrefix(q, s[1..][i..]);
        assert s[1..][i..] == s[i + 1..];
        assert IsPrefix(q, s[i + 1..]);
      }
      if exists i :: 0 <= i <= |s| && IsPrefix(q, s[i..]) {
        var i :| 0 <= i <= |s| && IsPrefix(q, s[i..]);
        if i > 0 {
          assert s[1..][i - 1..] == s[i..];
        }
      }
    }
  }

  /** `s.replace(pat, rep)`: leftmost, non-overlapping occurrences. */
  function ReplaceAll(s: string, pat: string, rep: string): string
    requires |pat| > 0
    decreases |s|
  {
    if |s| < |pat| then s
    else if s[..|pat|] == pat then rep + ReplaceAll(s[|pat|..], pat, rep)
    else [s[0]] + ReplaceAll(s[1..], pat, rep)
  }

  /** A character that cannot start a match with what follows it is
      kept as it is. */
  lemma ReplaceSkip(c: char, x: string, pat: string, rep: string)
    requires |pat| == 2 && (c != pat[0] || |x| == 0 || x[0] != pat[1])
    ensures ReplaceAll([c] + x, pat, rep) == [c] + ReplaceAll(x, pat, rep)
  {
    var s := [c] + x;
    assert s[1..] == x;
    if |x| > 0 {
      assert s[..2] == [c, x[0]];
    }
  }

  /** A match at the front is replaced and the scan goes on after it. */
  lemma ReplaceHit(x: string, pat: string, rep: string)
    requires |pat| > 0
    ensures ReplaceAll(pat + x, pat, rep) == rep + ReplaceAll(x, pat, rep)
  {
    var s := pat + x;
    assert s[..|pat|] == pat && s[|pat|..] == x;
  }

  /** Replacing a pattern that does not occur changes nothing. */
  lemma {:induction false} ReplaceAbsent(s: string, pat: string, rep: string)
    requires |pat| > 0 && !Contains(s, pat)
    ensures ReplaceAll(s, pat, rep) == s
    decreases |s|
  {
    if |s| >= |pat| {
      assert s[..|pat|] != pat;
      ReplaceAbsent(s[1..], pat, rep);
      assert [s[0]] + s[1..] == s;
    }
  }

  /** A replacement as long as its pattern keeps the length. */
  lemma {:induction false} ReplaceKeepsLength(s: string, pat: string, rep: string)
    requires |pat| > 0 && |rep| == |pat|
    ensures |ReplaceAll(s, pat, rep)| == |s|
    decreases |s|
  {
    if |s| >= |pat| {
      if s[..|pat|] == pat {
        ReplaceKeepsLength(s[|pat|..], pat, rep);
      } else {
        ReplaceKeepsLength(s[1..], pat, rep);
      }
    }
  }

  /** Deleting a substring never introduces a character. */
  lemma {:induction false} DeleteKeepsCharacters(s: string, pat: string)
    requires |pat| > 0
    ensures forall c :: c in ReplaceAll(s, pat, "") ==> c in s
    decreases |s|
  {
    if |s| >= |pat| {
      if s[..|pat|] == pat {
        DeleteKeepsCharacters(s[|pat|..], pat);
      } else {
        DeleteKeepsCharacters(s[1..], pat);
      }
    }
  }

  /** Deleting every occurrence of a single character removes it. */
  lemma {:induction false} DeleteCharRemoves(s: string, c: char)
    ensures c !in ReplaceAll(s, [c], "")
    decreases |s|
  {
    if |s| >= 1 {
      if s[..1] == [c] {
        DeleteCharRemoves(s[1..], c);
      } else {
        DeleteCharRemoves(s[1..], c);
        assert s[0] != c;
      }
    }
  }

  /** First character of a replacement result. */
  lemma HeadOfReplace(s: string, pat: string, rep: string)
    requires |pat| > 0 && |rep| > 0 && |s| > 0
    ensures |ReplaceAll(s, pat, rep)| > 0
    ensures ReplaceAll(s, pat, rep)[0] == if IsPrefix(pat, s) then rep[0] else s[0]
  {
  }

  /** Replacing `[a, b]` by a two-character string that neither starts
      with `a` or `b` nor ends with `a` leaves no `[a, b]` behind. */
  lemma {:induction false} ReplacePairRemoves(s: string, a: char, b: char, x: char, y: char)
    requires x != a && x != b && y != a
    ensures !Contains(ReplaceAll(s, [a, b], [x, y]), [a, b])
    decreases |s|
  {
    var r := ReplaceAll(s, [a, b], [x, y]);
    if |s| < 2 {
      if |s| == 1 {
        assert r == s;
        assert !IsPrefix([a, b], r);
        assert !Contains(r[1..], [a, b]);
      }
    } else if s[..2] == [a, b] {
      var t := ReplaceAll(s[2..], [a, b], [x, y]);
      ReplacePairRemoves(s[2..], a, b, x, y);
      assert r == [x, y] + t;
      assert r[1..] == [y] + t;
      assert r[1..][1..] == t;
      assert !IsPrefix([a, b], r);
      assert !IsPrefix([a, b], r[1..]);
    } else {
      var t := ReplaceAll(s[1..], [a, b], [x, y]);
      ReplacePairRemoves(s[1..], a, b, x, y);
      assert r == [s[0]] + t;
      assert r[1..] == t;
      HeadOfReplace(s[1..], [a, b], [x, y]);
      assert !IsPrefix([a, b], r);
    }
  }

  /** Replacing `[a, b]` by `[x, y]` creates no `[c, d]` when `x` is not
      `d`, `y` is not `c` and `[x, y]` is not `[c, d]` itself. */
  lemma {:induction false} ReplacePairPreserves(s: string, a: char, b: char, x: char, y: char, c: char, d: char)
    requires x != d && y != c && !(x == c && y == d)
    requires !Contains(s, [c, d])
    ensures !Contains(ReplaceAll(s, [a, b], [x, y]), [c, d])
    decreases |s|
  {
    var r := ReplaceAll(s, [a, b], [x, y]);
    if |s| < 2 {
    } else if s[..2] == [a, b] {
      var t := ReplaceAll(s[2..], [a, b], [x, y]);
      assert !Contains(s[1..], [c, d]);
      assert !Contains(s[2..], [c, d]);
      ReplacePairPreserves(s[2..], a, b, x, y, c, d);
      assert r == [x, y] + t;
      assert r[1..] == [y] + t;
      assert r[1..][1..] == t;
      assert !IsPrefix([c, d], r);
      assert !IsPrefix([c, d], r[1..]);
    } else {
      var t := ReplaceAll(s[1..], [a, b], [x, y]);
      assert !Contains(s[1..], [c, d]);
      ReplacePairPreserves(s[1..], a, b, x, y, c, d);
      assert r == [s[0]] + t;
      assert r[1..] == t;
      HeadOfReplace(s[1..], [a, b], [x, y]);
      assert !IsPrefix([c, d], r);
    }
  }

  /** Lowercasing is idempotent. */
  lemma LowerIdempotent(s: string)
    ensures Lower(Lower(s)) == Lower(s)
  {
  }

  /** Lowercasing turns no character into a space and no space into
      anything else. */
  lemma LowerKeepsSpaces(c: char)
    ensures IsSpace(LowerChar(c)) <==> IsSpace(c)
  {
  }

  /** A string that neither starts nor ends with a space is its own
      strip. */
  lemma StripTrimmed(s: string)
    requires |s| > 0 ==> !IsSpace(s[0]) && !IsSpace(s[|s| - 1])
    ensures Strip(s) == s
  {
  }

  /** `x.strip().lower()` is already stripped and lowercase. */
  lemma CleanIsStable(s: string)
    ensures Lower(Lower(Strip(s))) == Lower(Strip(s))
    ensures Strip(Lower(Strip(s))) == Lower(Strip(s))
  {
    var t := Strip(s);
    var l := StripLeft(s);
    var u := Lower(t);
    LowerIdempotent(t);
    if |t| > 0 {
      assert t[0] == l[0];
      LowerKeepsSpaces(t[0]);
      LowerKeepsSpaces(t[|t| - 1]);
    }
    StripTrimmed(u);
  }

  /** A string free of the separator is a single part. */
  lemma {:induction false} SplitOnNoSep(a: string, sep: char)
    requires sep !in a
    ensures SplitOn(a, sep) == [a]
  {
    if |a| > 0 {
      SplitOnNoSep(a[1..], sep);
      assert [a[0]] + a[1..] == a;
    }
  }

  /** The first separator ends the first part. */
  lemma {:induction false} SplitOnCons(a: string, t: string, sep: char)
    requires sep !in a
    ensures SplitOn(a + [sep] + t, sep) == [a] + SplitOn(t, sep)
  {
    var s := a + [sep] + t;
    if |a| == 0 {
      assert s[1..] == t;
    } else {
      assert s[1..] == a[1..] + [sep] + t;
      SplitOnCons(a[1..], t, sep);
      assert [a[0]] + a[1..] == a;
    }
  }

  /** Joining separator-free parts and splitting again gives the parts
      back. */
  lemma {:induction false} SplitOnJoin(parts: seq<string>, sep: char)
    requires |parts| > 0
    requires forall k :: 0 <= k < |parts| ==> sep !in parts[k]
    ensures SplitOn(Join(parts, [sep]), sep) == parts
  {
    if |parts| == 1 {
      SplitOnNoSep(parts[0], sep);
    } else {
      SplitOnJoin(parts[1..], sep);
      SplitOnCons(parts[0], Join(parts[1..], [sep]), sep);
      assert [parts[0]] + parts[1..] == parts;
    }
  }

  /** A join starts with its first part. */
  lemma JoinStartsWith(parts: seq<string>, sep: string)
    requires |parts| > 0
    ensures IsPrefix(parts[0], Join(parts, sep))
  {
    if |parts| > 1 {
      assert Join(parts, sep) == parts[0] + (sep + Join(parts[1..], sep));
    }
  }

  /** An occurrence in either half is an occurrence in the whole. */
  lemma ContainsAppend(a: string, b: string, q: string)
    ensures Contains(a, q) || Contains(b, q) ==> Contains(a + b, q)
  {
    var s := a + b;
    ContainsAt(a, q);
    ContainsAt(b, q);
    ContainsAt(s, q);
    if Contains(a, q) {
      var i :| 0 <= i <= |a| && IsPrefix(q, a[i..]);
      assert s[i..][..|q|] == a[i..][..|q|];
    } else if Contains(b, q) {
      var i :| 0 <= i <= |b| && IsPrefix(q, b[i..]);
      assert s[|a| + i..] == b[i..];
    }
  }

  /** An occurrence that cannot span the character `c` lies on one side
      of it. */
  lemma ContainsAround(a: string, c: char, b: string, q: string)
    requires |q| > 0 && c !in q
    ensures Contains(a + [c] + b, q) ==> Contains(a, q) || Contains(b, q)
  {
    var s := a + [c] + b;
    if Contains(s, q) {
      ContainsAt(s, q);
      ContainsAt(a, q);
      ContainsAt(b, q);
      var i :| 0 <= i <= |s| && IsPrefix(q, s[i..]);
      if i + |q| <= |a| {
        assert a[i..][..|q|] == s[i..][..|q|];
      } else if i > |a| {
        assert s[i..] == b[i - |a| - 1..];
      } else {
        PrefixAt(q, s, i, |a|);
        assert false;
      }
    }
  }

  /** Inside an occurrence, the string shows the pattern's character. */
  lemma PrefixAt(q: string, s: string, i: nat, j: nat)
    requires i <= |s| && IsPrefix(q, s[i..]) && i <= j < i + |q|
    ensures s[j] in q
  {
    assert s[j] == s[i..][..|q|][j - i];
  }

  /** A part's occurrence is an occurrence in the join. */
  lemma {:induction false} JoinContainsPart(parts: seq<string>, k: nat, sep: string, q: string)
    requires k < |parts| && Contains(parts[k], q)
    ensures Contains(Join(parts, sep), q)
  {
    if |parts| > 1 {
      var rest := Join(parts[1..], sep);
      if k == 0 {
        ContainsAppend(parts[0], sep + rest, q);
        assert Join(parts, sep) == parts[0] + (sep + rest);
      } else {
        JoinContainsPart(parts[1..], k - 1, sep, q);
        ContainsAppend(parts[0] + sep, rest, q);
      }
    }
  }

  /** An occurrence in a join that cannot span a separator lies in one
      part. */
  lemma {:induction false} JoinContainsSomePart(parts: seq<string>, sep: char, q: string)
    requires |q| > 0 && sep !in q && Contains(Join(parts, [sep]), q)
    ensures exists k :: 0 <= k < |parts| && Contains(parts[k], q)
  {
    if |parts| == 0 {
      assert false;
    } else if |parts| > 1 {
      var rest := Join(parts[1..], [sep]);
      ContainsAround(parts[0], sep, rest, q);
      if !Contains(parts[0], q) {
        JoinContainsSomePart(parts[1..], sep, q);
        var k :| 0 <= k < |parts[1..]| && Contains(parts[1..][k], q);
        assert Contains(parts[k + 1], q);
      }
    }
  }
}
