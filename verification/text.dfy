/** The string clean-up helpers of `mudslide/utils/text.py`: Penn-style
    escapes, the sanitiser used for names and free text, shortest-first
    prefix matching and comma joining. */
module Text {
  import opened Wrappers
  import opened Strings
  import opened Sorting

  /** `penn_substitutions`: `%r`/`%R` become the line-break escape `|/`,
      then `%t`/`%T` become the indent escape `|-`. Empty input gives
      the empty string. */
  function PennSubstitutions(input: string): string {
    if |input| == 0 then ""
    else
      var a := ReplaceAll(input, "%r", "|/");
      var b := ReplaceAll(a, "%R", "|/");
      var c := ReplaceAll(b, "%t", "|-");
      ReplaceAll(c, "%T", "|-")
  }

  /** None of the four Penn tokens is present. */
  predicate PennFree(s: string) {
    !Contains(s, "%r") && !Contains(s, "%R") && !Contains(s, "%t") && !Contains(s, "%T")
  }

  /** The substitution leaves no Penn token behind and keeps the length
      (each two-character token becomes a two-character escape). */
  lemma PennSubstitutionsRemovesTokens(input: string)
    ensures PennFree(PennSubstitutions(input))
    ensures |PennSubstitutions(input)| == |input|
  {
    if |input| > 0 {
      var a := ReplaceAll(input, "%r", "|/");
      ReplacePairRemoves(input, '%', 'r', '|', '/');
      var b := ReplaceAll(a, "%R", "|/");
      ReplacePairRemoves(a, '%', 'R', '|', '/');
      ReplacePairPreserves(a, '%', 'R', '|', '/', '%', 'r');
      var c := ReplaceAll(b, "%t", "|-");
      ReplacePairRemoves(b, '%', 't', '|', '-');
      ReplacePairPreserves(b, '%', 't', '|', '-', '%', 'r');
      ReplacePairPreserves(b, '%', 't', '|', '-', '%', 'R');
      var d := ReplaceAll(c, "%T", "|-");
      ReplacePairRemoves(c, '%', 'T', '|', '-');
      ReplacePairPreserves(c, '%', 'T', '|', '-', '%', 'r');
      ReplacePairPreserves(c, '%', 'T', '|', '-', '%', 'R');
      ReplacePairPreserves(c, '%', 'T', '|', '-', '%', 't');
      ReplaceKeepsLength(input, "%r", "|/");
      ReplaceKeepsLength(a, "%R", "|/");
      ReplaceKeepsLength(b, "%t", "|-");
      ReplaceKeepsLength(c, "%T", "|-");
    }
  }

  /** Reference definition: one left-to-right scan that rewrites each
      Penn token where it stands. */
  function PennScan(s: string): string
    decreases |s|
  {
    if |s| < 2 then s
    else if s[..2] == "%r" || s[..2] == "%R" then "|/" + PennScan(s[2..])
    else if s[..2] == "%t" || s[..2] == "%T" then "|-" + PennScan(s[2..])
    else [s[0]] + PennScan(s[1..])
  }

  /** The four passes in a row. */
  function PennPasses(s: string): string {
    ReplaceAll(ReplaceAll(ReplaceAll(ReplaceAll(s, "%r", "|/"), "%R", "|/"), "%t", "|-"), "%T", "|-")
  }

  /** A two-character prefix none of whose characters is `%` passes
      through every pass untouched. */
  lemma PennPassesSkipTwo(u0: char, u1: char, x: string)
    requires u0 != '%' && u1 != '%'
    ensures PennPasses([u0, u1] + x) == [u0, u1] + PennPasses(x)
  {
    var a := ReplaceAll(x, "%r", "|/");
    var b := ReplaceAll(a, "%R", "|/");
    var c := ReplaceAll(b, "%t", "|-");
    SkipTwo(u0, u1, x, "%r", "|/");
    SkipTwo(u0, u1, a, "%R", "|/");
    SkipTwo(u0, u1, b, "%t", "|-");
    SkipTwo(u0, u1, c, "%T", "|-");
  }

  lemma SkipTwo(u0: char, u1: char, x: string, pat: string, rep: string)
    requires |pat| == 2 && pat[0] == '%' && u0 != '%' && u1 != '%'
    ensures ReplaceAll([u0, u1] + x, pat, rep) == [u0, u1] + ReplaceAll(x, pat, rep)
  {
    ReplaceSkip(u1, x, pat, rep);
    ReplaceSkip(u0, [u1] + x, pat, rep);
    assert [u0] + ([u1] + x) == [u0, u1] + x;
    assert [u0] + ([u1] + ReplaceAll(x, pat, rep)) == [u0, u1] + ReplaceAll(x, pat, rep);
  }

  /** A Penn token at the front becomes its escape. */
  lemma PennPassesToken(s: string)
    requires |s| >= 2 && (s[..2] == "%r" || s[..2] == "%R" || s[..2] == "%t" || s[..2] == "%T")
    ensures PennPasses(s) == (if s[1] == 'r' || s[1] == 'R' then "|/" else "|-") + PennPasses(s[2..])
  {
    var t := s[2..];
    var tok := s[..2];
    assert s == tok + t;
    var a := ReplaceAll(t, "%r", "|/");
    var b := ReplaceAll(a, "%R", "|/");
    var c := ReplaceAll(b, "%t", "|-");
    if tok == "%r" {
      ReplaceHit(t, "%r", "|/");
      SkipTwo('|', '/', a, "%R", "|/");
      SkipTwo('|', '/', b, "%t", "|-");
      SkipTwo('|', '/', c, "%T", "|-");
    } else if tok == "%R" {
      KeepToken(t, "%R", "%r", "|/");
      ReplaceHit(a, "%R", "|/");
      SkipTwo('|', '/', b, "%t", "|-");
      SkipTwo('|', '/', c, "%T", "|-");
    } else if tok == "%t" {
      KeepToken(t, "%t", "%r", "|/");
      KeepToken(a, "%t", "%R", "|/");
      ReplaceHit(b, "%t", "|-");
      SkipTwo('|', '-', c, "%T", "|-");
    } else {
      KeepToken(t, "%T", "%r", "|/");
      KeepToken(a, "%T", "%R", "|/");
      KeepToken(b, "%T", "%t", "|-");
      ReplaceHit(c, "%T", "|-");
    }
  }

  /** A token other than the pattern stays whole in front of the rest. */
  lemma KeepToken(x: string, tok: string, pat: string, rep: string)
    requires |tok| == 2 && |pat| == 2 && tok[0] == pat[0] && tok[1] != pat[1] && tok[1] != pat[0]
    ensures ReplaceAll(tok + x, pat, rep) == tok + ReplaceAll(x, pat, rep)
  {
    ReplaceSkip(tok[1], x, pat, rep);
    ReplaceSkip(tok[0], [tok[1]] + x, pat, rep);
    assert tok + x == [tok[0]] + ([tok[1]] + x);
    assert tok == [tok[0]] + [tok[1]];
  }

  /** A character that does not start a token is kept by every pass. */
  lemma PennPassesPlain(s: string)
    requires |s| >= 2 && s[..2] != "%r" && s[..2] != "%R" && s[..2] != "%t" && s[..2] != "%T"
    ensures PennPasses(s) == [s[0]] + PennPasses(s[1..])
  {
    var x := s[1..];
    assert s == [s[0]] + x;
    assert x[0] == s[1];
    var a := ReplaceAll(x, "%r", "|/");
    var b := ReplaceAll(a, "%R", "|/");
    var c := ReplaceAll(b, "%t", "|-");
    HeadOfReplace(x, "%r", "|/");
    HeadOfReplace(a, "%R", "|/");
    HeadOfReplace(b, "%t", "|-");
    assert a[0] == '|' || a[0] == s[1];
    assert b[0] == '|' || b[0] == s[1];
    assert c[0] == '|' || c[0] == s[1];
    ReplaceSkip(s[0], x, "%r", "|/");
    ReplaceSkip(s[0], a, "%R", "|/");
    ReplaceSkip(s[0], b, "%t", "|-");
    ReplaceSkip(s[0], c, "%T", "|-");
  }

  /** The four passes agree with the one-pass scan: each `%r`/`%R` of the
      input becomes `|/` and each `%t`/`%T` becomes `|-`, where it stands,
      and every other character is kept. */
  lemma {:induction false} PennPassesIsScan(s: string)
    ensures PennPasses(s) == PennScan(s)
    decreases |s|
  {
    if |s| < 2 {
      assert PennPasses(s) == s;
    } else if s[..2] == "%r" || s[..2] == "%R" || s[..2] == "%t" || s[..2] == "%T" {
      PennPassesToken(s);
      PennPassesIsScan(s[2..]);
    } else {
      PennPassesPlain(s);
      PennPassesIsScan(s[1..]);
    }
  }

  /** `penn_substitutions` is the one-pass rewrite of every token. */
  lemma PennSubstitutionsIsScan(input: string)
    ensures PennSubstitutions(input) == PennScan(input)
  {
    PennPassesIsScan(input);
  }

  /** Text without Penn tokens passes through unchanged. */
  lemma PennSubstitutionsFixesClean(input: string)
    requires PennFree(input)
    ensures PennSubstitutions(input) == input
  {
    if |input| > 0 {
      ReplaceAbsent(input, "%r", "|/");
      ReplaceAbsent(input, "%R", "|/");
      ReplaceAbsent(input, "%t", "|-");
      ReplaceAbsent(input, "%T", "|-");
    }
  }

  /** Substituting twice is substituting once. */
  lemma PennSubstitutionsIdempotent(input: string)
    ensures PennSubstitutions(PennSubstitutions(input)) == PennSubstitutions(input)
  {
    PennSubstitutionsRemovesTokens(input);
    PennSubstitutionsFixesClean(PennSubstitutions(input));
  }

  /** Python's `text[:n]`: a negative `n` counts from the end. */
  function SliceTo(text: string, n: int): (r: string)
    ensures |r| <= |text| && r == text[..|r|]
    ensures n >= 0 ==> |r| == if n < |text| then n else |text|
    ensures n < 0 ==> |r| == if |text| + n > 0 then |text| + n else 0
  {
    if n >= 0 then (if n < |text| then text[..n] else text)
    else if |text| + n > 0 then text[..|text| + n]
    else ""
  }

  /** Deletes the line feed and the Penn and ANSI line-break tokens, in
      that order. */
  function StripNewlines(t: string): string {
    ReplaceAll(ReplaceAll(ReplaceAll(ReplaceAll(t, "\n", ""), "%r", ""), "%R", ""), "|/", "")
  }

  /** Deletes the tab and the Penn and ANSI indent tokens, in that order. */
  function StripIndents(t: string): string {
    ReplaceAll(ReplaceAll(ReplaceAll(ReplaceAll(t, "\t", ""), "%t", ""), "%T", ""), "|-", "")
  }

  /** Deleting the tokens in order leaves no character that was deleted
      first, and introduces none. */
  lemma DeleteFourRemovesFirst(t: string, c: char, p2: string, p3: string, p4: string)
    requires |p2| > 0 && |p3| > 0 && |p4| > 0
    ensures var r := ReplaceAll(ReplaceAll(ReplaceAll(ReplaceAll(t, [c], ""), p2, ""), p3, ""), p4, "");
            c !in r && forall x :: x in r ==> x in t
  {
    var a := ReplaceAll(t, [c], "");
    var b := ReplaceAll(a, p2, "");
    var d := ReplaceAll(b, p3, "");
    DeleteCharRemoves(t, c);
    DeleteKeepsCharacters(t, [c]);
    DeleteKeepsCharacters(a, p2);
    DeleteKeepsCharacters(b, p3);
    DeleteKeepsCharacters(d, p4);
  }

  lemma StripNewlinesRemoves(t: string)
    ensures '\n' !in StripNewlines(t)
    ensures forall x :: x in StripNewlines(t) ==> x in t
  {
    DeleteFourRemovesFirst(t, '\n', "%r", "%R", "|/");
  }

  lemma StripIndentsRemoves(t: string)
    ensures '\t' !in StripIndents(t)
    ensures forall x :: x in StripIndents(t) ==> x in t
  {
    DeleteFourRemovesFirst(t, '\t', "%t", "%T", "|-");
  }

  /** The switches of `sanitize_string`. `length` 0 stands for both
      Python's `None` and `0`: no truncation. */
  datatype SanitizeOptions = SanitizeOptions(
    length: int, stripAnsi: bool, stripMxp: bool, stripNewlines: bool, stripIndents: bool)

  /** The keyword defaults. */
  const Defaults := SanitizeOptions(0, false, true, true, true)

  /** The cleaning part of `sanitize_string`, before truncation. `mxp`
      and `ansi` stand for the markup cleaners `ANSI_PARSER.strip_mxp`
      and `ANSIString.clean`. */
  function Cleaned(text: string, o: SanitizeOptions, mxp: string -> string, ansi: string -> string): string {
    var stripped := Strip(text);
    var unmarked := if o.stripMxp then mxp(stripped) else stripped;
    var plain := if o.stripAnsi then ansi(unmarked) else unmarked;
    var oneLine := if o.stripNewlines then StripNewlines(plain) else plain;
    if o.stripIndents then StripIndents(oneLine) else oneLine
  }

  /** `sanitize_string`: empty input gives the empty string; otherwise
      the cleaned text, cut to `length` when that is not 0. */
  function SanitizeString(text: string, o: SanitizeOptions, mxp: string -> string, ansi: string -> string): string {
    if |text| == 0 then ""
    else
      var flat := Cleaned(text, o, mxp, ansi);
      if o.length != 0 then SliceTo(flat, o.length) else flat
  }

  /** No line feed survives the newline strip and no tab the indent
      strip. */
  lemma CleanedGuarantees(text: string, o: SanitizeOptions, mxp: string -> string, ansi: string -> string)
    ensures o.stripNewlines ==> '\n' !in Cleaned(text, o, mxp, ansi)
    ensures o.stripIndents ==> '\t' !in Cleaned(text, o, mxp, ansi)
  {
    var stripped := Strip(text);
    var unmarked := if o.stripMxp then mxp(stripped) else stripped;
    var plain := if o.stripAnsi then ansi(unmarked) else unmarked;
    var oneLine := if o.stripNewlines then StripNewlines(plain) else plain;
    if o.stripNewlines {
      StripNewlinesRemoves(plain);
    }
    if o.stripIndents {
      StripIndentsRemoves(oneLine);
    }
  }

  /** The guarantees of the sanitiser: empty in, empty out; no line feed
      or tab when those are stripped; a positive length bounds the
      result, which is then a prefix of the untruncated result. */
  lemma SanitizeStringGuarantees(text: string, o: SanitizeOptions, mxp: string -> string, ansi: string -> string)
    ensures |text| == 0 ==> SanitizeString(text, o, mxp, ansi) == ""
    ensures o.stripNewlines ==> '\n' !in SanitizeString(text, o, mxp, ansi)
    ensures o.stripIndents ==> '\t' !in SanitizeString(text, o, mxp, ansi)
    ensures o.length > 0 ==> |SanitizeString(text, o, mxp, ansi)| <= o.length
    ensures IsPrefix(SanitizeString(text, o, mxp, ansi), SanitizeString(text, o.(length := 0), mxp, ansi))
  {
    if |text| > 0 {
      var flat := Cleaned(text, o, mxp, ansi);
      assert Cleaned(text, o.(length := 0), mxp, ansi) == flat;
      CleanedGuarantees(text, o, mxp, ansi);
      var r := SanitizeString(text, o, mxp, ansi);
      assert |r| <= |flat| && r == flat[..|r|];
      assert forall c :: c in r ==> c in flat;
    }
  }

  /** Deleting a token can join its neighbours into a new copy of it:
      the newline strip is one pass, not a fixed point. */
  lemma DeletionCanReformToken()
    ensures ReplaceAll("%%rr", "%r", "") == "%r"
  {
    assert "%%rr"[1] != "%r"[1];
    assert "%%rr"[1..] == "%rr";
    assert "%rr"[..2] == "%r";
    assert "%rr"[2..] == "r";
  }

  /** `SYSTEM_CHARACTERS`: forbidden in names. */
  const SystemCharacters: seq<char> := ['/', '|', '=', ',']

  /** The first system character, in `SystemCharacters` order, that
      occurs in `name`. */
  function FirstSystemChar(name: string, from: nat): (r: Option<char>)
    requires from <= |SystemCharacters|
    ensures r.Some? ==> r.value in SystemCharacters && r.value in name
    ensures r.None? ==> forall k :: from <= k < |SystemCharacters| ==> SystemCharacters[k] !in name
    decreases |SystemCharacters| - from
  {
    if from == |SystemCharacters| then None
    else if SystemCharacters[from] in name then Some(SystemCharacters[from])
    else FirstSystemChar(name, from + 1)
  }

  /** `sanitize_name`: the sanitised name, or a `ValueError` when it is
      empty or holds a system character. */
  function SanitizeName(name: string, systemName: string, mxp: string -> string, ansi: string -> string): (r: Result<string>)
    ensures r.Ok? <==> (var clean := SanitizeString(name, Defaults, mxp, ansi);
                        |clean| > 0 && forall c :: c in SystemCharacters ==> c !in clean)
    ensures r.Ok? ==> r.value == SanitizeString(name, Defaults, mxp, ansi)
    ensures r.Err? ==> r.error.ValueError?
  {
    var clean := SanitizeString(name, Defaults, mxp, ansi);
    if |clean| == 0 then Err(ValueError(systemName + " names must not be empty!"))
    else match FirstSystemChar(clean, 0)
      case Some(c) => Err(ValueError([c] + " is not allowed in " + systemName + " names!"))
      case None => Ok(clean)
  }

  /** An accepted name is non-empty, one line, unindented and free of
      system characters. */
  lemma SanitizeNameAccepted(name: string, systemName: string, mxp: string -> string, ansi: string -> string)
    requires SanitizeName(name, systemName, mxp, ansi).Ok?
    ensures var n := SanitizeName(name, systemName, mxp, ansi).value;
            |n| > 0 && '\n' !in n && '\t' !in n
            && '/' !in n && '|' !in n && '=' !in n && ',' !in n
  {
    SanitizeStringGuarantees(name, Defaults, mxp, ansi);
  }

  /** The comparison `partial_match` makes, case-insensitively:
      `candidate` starts with `text` (equality is the special case). */
  predicate Hits(text: string, candidate: string) {
    IsPrefix(Lower(text), Lower(candidate))
  }

  function Len(s: string): int {
    |s|
  }

  /** The first element of `s` that `text` hits. */
  function FirstHit(text: string, s: seq<string>): (r: Option<string>)
    ensures r.Some? ==> r.value in s && Hits(text, r.value)
    ensures r.None? ==> forall k :: 0 <= k < |s| ==> !Hits(text, s[k])
  {
    if |s| == 0 then None
    else if Hits(text, s[0]) then Some(s[0])
    else FirstHit(text, s[1..])
  }

  /** `partial_match`: candidates sorted shortest first (stably), then
      the first one `match_text` hits. */
  function PartialMatch(matchText: string, candidates: seq<string>): Option<string> {
    FirstHit(matchText, SortBy(candidates, Len))
  }

  /** Independent description: among the hit candidates, one of least
      length, the earliest in the original order on a tie. */
  function ShortestHit(text: string, s: seq<string>): (r: Option<nat>)
    ensures r.None? <==> forall k :: 0 <= k < |s| ==> !Hits(text, s[k])
    ensures r.Some? ==> r.value < |s| && Hits(text, s[r.value])
    ensures r.Some? ==> forall k :: 0 <= k < |s| && Hits(text, s[k]) ==> |s[r.value]| <= |s[k]|
    ensures r.Some? ==> forall k :: 0 <= k < r.value && Hits(text, s[k]) ==> |s[r.value]| < |s[k]|
  {
    if |s| == 0 then None
    else
      var rest := ShortestHit(text, s[1..]);
      if Hits(text, s[0]) && (rest.None? || |s[0]| <= |s[1..][rest.value]|) then Some(0)
      else if rest.Some? then Some(rest.value + 1)
      else None
  }

  /** Inserting into a length-sorted list: `x` becomes the first hit
      exactly when it is hit and no longer than the old first hit. */
  lemma {:induction false} FirstHitInsert(text: string, x: string, t: seq<string>)
    requires SortedBy(t, Len)
    ensures FirstHit(text, InsertBy(x, t, Len))
         == if Hits(text, x) && (FirstHit(text, t).None? || |x| <= |FirstHit(text, t).value|)
            then Some(x) else FirstHit(text, t)
  {
    if |t| == 0 || Len(x) <= Len(t[0]) {
      var r := [x] + t;
      assert r[1..] == t;
      if Hits(text, x) && FirstHit(text, t).Some? {
        var y := FirstHit(text, t).value;
        var k :| 0 <= k < |t| && t[k] == y;
        assert Len(t[0]) <= Len(t[k]);
      }
    } else {
      assert SortedBy(t[1..], Len);
      FirstHitInsert(text, x, t[1..]);
      var r := [t[0]] + InsertBy(x, t[1..], Len);
      assert r[1..] == InsertBy(x, t[1..], Len);
    }
  }

  /** `partial_match` returns the shortest hit candidate, the earliest
      one on a tie, and `None` when nothing is hit. */
  lemma {:induction false} PartialMatchIsShortestHit(matchText: string, candidates: seq<string>)
    ensures PartialMatch(matchText, candidates)
         == match ShortestHit(matchText, candidates)
            case None => None
            case Some(i) => Some(candidates[i])
  {
    if |candidates| > 0 {
      var rest := candidates[1..];
      var sorted := SortBy(rest, Len);
      assert SortBy(candidates, Len) == InsertBy(candidates[0], sorted, Len);
      PartialMatchIsShortestHit(matchText, rest);
      FirstHitInsert(matchText, candidates[0], sorted);
      var h := ShortestHit(matchText, rest);
      assert FirstHit(matchText, sorted) == if h.Some? then Some(rest[h.value]) else None;
      if h.Some? {
        assert rest[h.value] == candidates[h.value + 1];
      }
    }
  }

  /** `iter_to_string`: the items joined with a comma and a space. */
  function IterToString(items: seq<string>): string {
    Join(items, ", ")
  }

  /** Joining is compatible with concatenation of the item lists. */
  lemma {:induction false} IterToStringConcat(a: seq<string>, b: seq<string>)
    requires |a| > 0 && |b| > 0
    ensures IterToString(a + b) == IterToString(a) + ", " + IterToString(b)
    decreases |a|
  {
    if |a| == 1 {
      assert (a + b)[1..] == b;
    } else {
      IterToStringConcat(a[1..], b);
      assert (a + b)[1..] == a[1..] + b;
    }
  }

  /** The joined length: every item plus two characters per separator. */
  lemma {:induction false} IterToStringLength(items: seq<string>)
    requires |items| > 0
    ensures |IterToString(items)| == TotalLength(items) + 2 * (|items| - 1)
  {
    if |items| > 1 {
      IterToStringLength(items[1..]);
    }
  }

  function TotalLength(items: seq<string>): nat {
    if |items| == 0 then 0 else |items[0]| + TotalLength(items[1..])
  }
}
