/** `string_partial_matching`: the alternatives whose words, in order,
    start with the words of the search text. */
module Misc {
  import opened Wrappers
  import opened Strings

  /** The search words can be placed on words of `alt`, from position
      `from` on, at strictly increasing positions, each search word a prefix
      of the word it is placed on. */
  ghost predicate Embeds(inp: seq<string>, alt: seq<string>, from: nat)
    decreases |inp|
  {
    |inp| == 0 || exists j :: from <= j < |alt| && IsPrefix(inp[0], alt[j]) && Embeds(inp[1..], alt, j + 1)
  }

  /** The first position at or after `from` whose word starts with `w`:
      `min(submatch)` in the source. */
  function FirstPrefixAt(w: string, alt: seq<string>, from: nat): (r: Option<nat>)
    ensures r.Some? ==> from <= r.value < |alt| && IsPrefix(w, alt[r.value])
    ensures r.Some? ==> forall k :: from <= k < r.value ==> !IsPrefix(w, alt[k])
    ensures r.None? ==> forall k :: from <= k < |alt| ==> !IsPrefix(w, alt[k])
    decreases |alt| - from
  {
    if from >= |alt| then None
    else if IsPrefix(w, alt[from]) then Some(from)
    else FirstPrefixAt(w, alt, from + 1)
  }

  predicate Increasing(ps: seq<nat>) {
    forall i, j :: 0 <= i < j < |ps| ==> ps[i] < ps[j]
  }

  /** The inner loop over the search words: each takes the earliest
      matching word after the previous one. The positions found, if every
      word finds one. */
  function Positions(inp: seq<string>, alt: seq<string>, from: nat): (r: Option<seq<nat>>)
    ensures r.Some? ==> |r.value| == |inp| && Increasing(r.value)
    ensures r.Some? ==> forall k :: 0 <= k < |inp| ==> from <= r.value[k] < |alt| && IsPrefix(inp[k], alt[r.value[k]])
    decreases |inp|
  {
    if |inp| == 0 then Some([])
    else
      match FirstPrefixAt(inp[0], alt, from)
      case None => None
      case Some(j) =>
        match Positions(inp[1..], alt, j + 1)
        case None => None
        case Some(ps) => Some([j] + ps)
  }

  /** One step of the inner loop. */
  lemma PositionsStep(inp: seq<string>, alt: seq<string>, from: nat, j: nat, ps: seq<nat>)
    requires |inp| > 0 && FirstPrefixAt(inp[0], alt, from) == Some(j)
    requires Positions(inp[1..], alt, j + 1) == Some(ps)
    ensures Positions(inp, alt, from) == Some([j] + ps)
  {
  }

  /** Starting later never helps. */
  lemma {:induction false} EmbedsFromEarlier(inp: seq<string>, alt: seq<string>, a: nat, b: nat)
    requires a <= b && Embeds(inp, alt, b)
    ensures Embeds(inp, alt, a)
  {
    if |inp| > 0 {
      var j :| b <= j < |alt| && IsPrefix(inp[0], alt[j]) && Embeds(inp[1..], alt, j + 1);
      assert a <= j;
    }
  }

  /** Taking the earliest match for each word finds a placement exactly
      when one exists. */
  lemma {:induction false} GreedyIsComplete(inp: seq<string>, alt: seq<string>, from: nat)
    ensures Positions(inp, alt, from).Some? <==> Embeds(inp, alt, from)
    decreases |inp|
  {
    if |inp| > 0 {
      var f := FirstPrefixAt(inp[0], alt, from);
      if f.Some? {
        var j0 := f.value;
        GreedyIsComplete(inp[1..], alt, j0 + 1);
        if Embeds(inp, alt, from) {
          var j :| from <= j < |alt| && IsPrefix(inp[0], alt[j]) && Embeds(inp[1..], alt, j + 1);
          assert j0 <= j;
          EmbedsFromEarlier(inp[1..], alt, j0 + 1, j + 1);
        }
      }
    }
  }

  /** The words the source compares: lowercased, split on whitespace. */
  function WordsOf(s: string): seq<string> {
    Words(Lower(s))
  }

  /** The search words all find a place in `alt`. */
  predicate Hit(ws: seq<string>, alt: string) {
    Positions(ws, WordsOf(alt), 0).Some?
  }

  /** The alternatives from index `i` on that satisfy `hit`, in order. */
  function MatchingFrom(alternatives: seq<string>, hit: string -> bool, i: nat): (r: seq<nat>)
    ensures forall k :: 0 <= k < |r| ==> i <= r[k] < |alternatives|
    ensures Increasing(r)
    decreases |alternatives| - i
  {
    if i >= |alternatives| then []
    else
      var rest := MatchingFrom(alternatives, hit, i + 1);
      if hit(alternatives[i]) then
        var r := [i] + rest;
        assert forall k :: 0 < k < |r| ==> r[k] == rest[k - 1] && i < r[k];
        r
      else rest
  }

  /** An index is collected exactly when its alternative is hit. */
  lemma {:induction false} MatchingFromHits(alternatives: seq<string>, hit: string -> bool, i: nat, j: nat)
    requires i <= j < |alternatives|
    ensures j in MatchingFrom(alternatives, hit, i) <==> hit(alternatives[j])
    decreases |alternatives| - i
  {
    var rest := MatchingFrom(alternatives, hit, i + 1);
    if j > i {
      MatchingFromHits(alternatives, hit, i + 1, j);
    } else {
      assert j !in rest;
    }
  }

  /** The indices `string_partial_matching` returns. Every matching
      alternative scores the number of search words, so the best-score
      bucket holds all of them; with no search words nothing scores and
      the result is empty. */
  function MatchingIndices(alternatives: seq<string>, inp: string): (r: seq<nat>)
    ensures |alternatives| == 0 || |inp| == 0 || |WordsOf(inp)| == 0 ==> r == []
    ensures Increasing(r)
    ensures forall k :: 0 <= k < |r| ==> r[k] < |alternatives|
    ensures forall j :: 0 <= j < |alternatives| ==>
              (j in r <==> |WordsOf(inp)| > 0 && Embeds(WordsOf(inp), WordsOf(alternatives[j]), 0))
  {
    if |alternatives| == 0 || |inp| == 0 then []
    else
      var ws := WordsOf(inp);
      if |ws| == 0 then []
      else
        var hit := (a: string) => Hit(ws, a);
        var r := MatchingFrom(alternatives, hit, 0);
        forall j | 0 <= j < |alternatives| ensures j in r <==> Embeds(ws, WordsOf(alternatives[j]), 0) {
          MatchingFromHits(alternatives, hit, 0, j);
          GreedyIsComplete(ws, WordsOf(alternatives[j]), 0);
        }
        r
  }

  datatype Matches = Indices(indices: seq<nat>) | Alternatives(strings: seq<string>)

  /** `string_partial_matching(alternatives, inp, ret_index)`. */
  function StringPartialMatching(alternatives: seq<string>, inp: string, retIndex: bool): (r: Matches)
    ensures retIndex ==> r == Indices(MatchingIndices(alternatives, inp))
    ensures !retIndex ==> r.Alternatives? && |r.strings| == |MatchingIndices(alternatives, inp)|
    ensures !retIndex ==> forall k :: 0 <= k < |r.strings| ==> r.strings[k] == alternatives[MatchingIndices(alternatives, inp)[k]]
  {
    var idx := MatchingIndices(alternatives, inp);
    if retIndex then Indices(idx)
    else Alternatives(seq(|idx|, k requires 0 <= k < |idx| => alternatives[idx[k]]))
  }

  /** The words of the documented example "Big shiny sword". */
  const ExampleWords: seq<string> := ["big", "shiny", "sword"]

  /** "sh sw" from the second word on finds the last two words. */
  lemma ExampleTail()
    ensures Positions(["sh", "sw"], ExampleWords, 1) == Some([1, 2])
  {
    var alt := ExampleWords;
    assert alt[1] == "shiny" && alt[2] == "sword";
    assert alt[1][0] == 's' && alt[1][1] == 'h' && alt[2][0] == 's' && alt[2][1] == 'w';
    assert IsPrefix("sw", alt[2]);
    assert FirstPrefixAt("sw", alt, 2) == Some(2);
    var one: seq<string> := ["sw"];
    assert one[1..] == [] && [2] + [] == [2];
    PositionsStep(one, alt, 2, 2, []);
    assert IsPrefix("sh", alt[1]);
    assert FirstPrefixAt("sh", alt, 1) == Some(1);
    var two: seq<string> := ["sh", "sw"];
    assert two[1..] == one && [1] + [2] == [1, 2];
    PositionsStep(two, alt, 1, 1, [2]);
  }

  /** "bi sh sw" finds the three words in order. */
  lemma ExampleAbbreviated()
    ensures Positions(["bi", "sh", "sw"], ExampleWords, 0) == Some([0, 1, 2])
  {
    var alt := ExampleWords;
    assert alt[0] == "big" && alt[0][0] == 'b' && alt[0][1] == 'i';
    ExampleTail();
    assert IsPrefix("bi", alt[0]);
    assert FirstPrefixAt("bi", alt, 0) == Some(0);
    var three: seq<string> := ["bi", "sh", "sw"];
    assert three[1..] == ["sh", "sw"] && [0] + [1, 2] == [0, 1, 2];
    PositionsStep(three, alt, 0, 0, [1, 2]);
  }

  /** A single full word, or a single prefix, finds its word. */
  lemma ExampleSingleWords()
    ensures Positions(["shiny"], ExampleWords, 0) == Some([1])
    ensures Positions(["sw"], ExampleWords, 0) == Some([2])
  {
    var alt := ExampleWords;
    assert alt[0] == "big" && alt[1] == "shiny" && alt[2] == "sword";
    assert alt[0][0] == 'b' && alt[1][0] == 's' && alt[1][1] == 'h' && alt[2][1] == 'w';
    assert !IsPrefix("shiny", alt[0]) && IsPrefix("shiny", alt[1]);
    assert FirstPrefixAt("shiny", alt, 0) == Some(1);
    var a: seq<string> := ["shiny"];
    assert a[1..] == [] && [1] + [] == [1];
    PositionsStep(a, alt, 0, 1, []);
    assert !IsPrefix("sw", alt[0]) && !IsPrefix("sw", alt[1]) && IsPrefix("sw", alt[2]);
    assert FirstPrefixAt("sw", alt, 0) == Some(2);
    var b: seq<string> := ["sw"];
    assert b[1..] == [] && [2] + [] == [2];
    PositionsStep(b, alt, 0, 2, []);
  }

  /** Word order matters: "sw bi" does not match, since "bi" only fits a
      word before "sword". */
  lemma ExampleOrderMatters()
    ensures Positions(["sw", "bi"], ExampleWords, 0) == None
  {
    var alt := ExampleWords;
    assert alt[0] == "big" && alt[1] == "shiny" && alt[2] == "sword";
    assert alt[0][0] == 'b' && alt[1][0] == 's' && alt[1][1] == 'h' && alt[2][1] == 'w';
    assert !IsPrefix("sw", alt[0]) && !IsPrefix("sw", alt[1]) && IsPrefix("sw", alt[2]);
    assert FirstPrefixAt("sw", alt, 0) == Some(2);
    assert FirstPrefixAt("bi", alt, 3) == None;
    var q: seq<string> := ["sw", "bi"];
    assert q[1..] == ["bi"];
  }
}
