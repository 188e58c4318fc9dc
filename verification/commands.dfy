/** Command naming and matching from `mudslide/utils/command.py`: the
    normalisation `_init_command` applies to a command class (key,
    aliases, locks, help category), the match set every lookup uses,
    and the comparison and containment operators built on it. */
module Commands {
  import opened Wrappers
  import opened Strings

  /** How aliases were given: a single string to split, or an already
      iterable collection taken entry by entry. */
  datatype AliasSpec = AliasString(text: string) | AliasList(items: seq<string>)

  /** The attributes a command class declares; `None` is an attribute the
      class does not define. */
  datatype CommandDef = CommandDef(
    key: string,
    aliases: AliasSpec,
    permissions: Option<string>,
    locks: Option<string>,
    helpCategory: Option<string>)

  /** A normalised command: `matchSet` is the `_matchset` cache and
      `lockStorage` the normalised lock string. */
  datatype Command = Command(
    key: string,
    aliases: set<string>,
    matchSet: set<string>,
    lockStorage: string,
    helpCategory: string)

  /** The cache agrees with the key and aliases, as `_optimize` leaves
      it. */
  predicate WellFormed(c: Command) {
    c.matchSet == {c.key} + c.aliases
  }

  /** `str(alias).strip().lower()`. */
  function Clean(alias: string): string {
    Lower(Strip(alias))
  }

  /** The alias candidates `_init_command` filters: a string is split on
      commas and each piece cleaned (an empty string yields nothing);
      a collection is taken as it is. */
  function InitCandidates(spec: AliasSpec): seq<string> {
    match spec
    case AliasString(text) =>
      if |text| == 0 then []
      else
        var parts := SplitOn(text, ',');
        seq(|parts|, k requires 0 <= k < |parts| => Clean(parts[k]))
    case AliasList(items) => items
  }

  /** The deduplicated aliases, without empty ones and without the key. */
  function InitAliases(key: string, spec: AliasSpec): (r: set<string>)
    ensures key !in r && "" !in r
    ensures forall a :: a in r <==> a in InitCandidates(spec) && a != "" && a != key
  {
    set a | a in InitCandidates(spec) && a != "" && a != key
  }

  /** Aliases given as a string come out stripped and lowercase. */
  lemma InitAliasesClean(key: string, text: string)
    ensures forall a :: a in InitAliases(key, AliasString(text)) ==> Lower(a) == a && Strip(a) == a
  {
    var cands := InitCandidates(AliasString(text));
    forall a | a in InitAliases(key, AliasString(text))
      ensures Lower(a) == a && Strip(a) == a
    {
      var parts := SplitOn(text, ',');
      var k :| 0 <= k < |cands| && cands[k] == a;
      CleanIsStable(parts[k]);
    }
  }

  /** One `;`-segment of a lock string: a non-empty segment without a
      colon is a bare lock function and gets the `cmd:` access type. */
  function LockSegment(seg: string): (r: string)
    ensures r == seg || r == "cmd:" + seg
    ensures ';' !in seg ==> ';' !in r
    ensures r != "" ==> ':' in r
  {
    if seg != "" && ':' !in seg then "cmd:" + seg else seg
  }

  /** The lock string with `cmd:all();` in front when it grants no `cmd`
      access type at all. */
  function WithCmdLock(locks: string): string {
    if Contains(locks, "cmd:") then locks else "cmd:all();" + locks
  }

  /** The segments of `WithCmdLock(locks)`, each normalised. */
  function LockSegments(locks: string): (r: seq<string>)
    ensures |r| > 0
    ensures forall k :: 0 <= k < |r| ==> ';' !in r[k]
  {
    var parts := SplitOn(WithCmdLock(locks), ';');
    seq(|parts|, k requires 0 <= k < |parts| => LockSegment(parts[k]))
  }

  /** The lock-string normalisation of `_init_command`. */
  function NormalizeLocks(locks: string): string {
    Join(LockSegments(locks), ";")
  }

  /** Splitting the result on `;` gives the normalised segments back:
      each is the original segment or that segment behind `cmd:`, and
      every non-empty one names an access type. */
  lemma NormalizeLocksSegments(locks: string)
    ensures SplitOn(NormalizeLocks(locks), ';') == LockSegments(locks)
    ensures var parts := SplitOn(WithCmdLock(locks), ';');
            var segs := SplitOn(NormalizeLocks(locks), ';');
            |segs| == |parts|
            && forall k :: 0 <= k < |segs| ==>
                 (segs[k] == parts[k] || segs[k] == "cmd:" + parts[k]) && (segs[k] != "" ==> ':' in segs[k])
  {
    SplitOnJoin(LockSegments(locks), ';');
  }

  /** The normalised lock string always grants a `cmd` access type. */
  lemma NormalizeLocksHasCmd(locks: string)
    ensures Contains(NormalizeLocks(locks), "cmd:")
  {
    if Contains(locks, "cmd:") {
      KeptCmdLock(locks);
    } else {
      AddedCmdLock(locks);
    }
  }

  /** A `cmd:` already present survives inside its segment. */
  lemma KeptCmdLock(locks: string)
    requires Contains(locks, "cmd:")
    ensures Contains(NormalizeLocks(locks), "cmd:")
  {
    var segs := LockSegments(locks);
    var parts := SplitOn(locks, ';');
    assert WithCmdLock(locks) == locks;
    JoinSplitOn(locks, ';');
    JoinContainsSomePart(parts, ';', "cmd:");
    var k :| 0 <= k < |parts| && Contains(parts[k], "cmd:");
    assert segs[k] == LockSegment(parts[k]);
    ContainsAppend("cmd:", parts[k], "cmd:");
    assert Contains(segs[k], "cmd:");
    JoinContainsPart(segs, k, ";", "cmd:");
  }

  /** The added `cmd:all()` is the first segment and passes unchanged. */
  lemma AddedCmdLock(locks: string)
    requires !Contains(locks, "cmd:")
    ensures Contains(NormalizeLocks(locks), "cmd:")
  {
    var segs := LockSegments(locks);
    var n := NormalizeLocks(locks);
    assert WithCmdLock(locks) == "cmd:all()" + [';'] + locks;
    SplitOnCons("cmd:all()", locks, ';');
    assert segs[0] == LockSegment("cmd:all()") == "cmd:all()";
    JoinStartsWith(segs, ";");
    assert n[..4] == "cmd:";
    assert IsPrefix("cmd:", n);
  }

  /** Normalising a normalised lock string changes nothing. */
  lemma NormalizeLocksIdempotent(locks: string)
    ensures NormalizeLocks(NormalizeLocks(locks)) == NormalizeLocks(locks)
  {
    var n := NormalizeLocks(locks);
    NormalizeLocksHasCmd(locks);
    NormalizeLocksSegments(locks);
    var parts := SplitOn(n, ';');
    assert LockSegments(n) == parts;
    JoinSplitOn(n, ';');
  }

  /** The lock string a command class starts from: `permissions` wins
      over `locks`, and with neither the command is open to all. */
  function LockSource(d: CommandDef): string {
    match d.permissions
    case Some(p) => p
    case None => match d.locks
      case Some(l) => l
      case None => "cmd:all()"
  }

  /** `_init_command`. */
  function InitCommand(d: CommandDef): (c: Command)
    ensures WellFormed(c)
    ensures c.key == Lower(d.key) && Lower(c.key) == c.key
    ensures c.aliases == InitAliases(c.key, d.aliases)
    ensures c.lockStorage == NormalizeLocks(LockSource(d))
    ensures Lower(c.helpCategory) == c.helpCategory
    ensures d.helpCategory.Some? ==> c.helpCategory == Lower(d.helpCategory.value)
    ensures d.helpCategory.None? ==> c.helpCategory == "general"
  {
    LowerIdempotent(d.key);
    var key := Lower(d.key);
    var aliases := InitAliases(key, d.aliases);
    var category := match d.helpCategory case Some(h) => h case None => "general";
    LowerIdempotent(category);
    Command(key, aliases, {key} + aliases, NormalizeLocks(LockSource(d)), Lower(category))
  }

  /** `match`: the name is the key or an alias. */
  function Match(c: Command, name: string): (r: bool)
    ensures WellFormed(c) ==> (r <==> name == c.key || name in c.aliases)
  {
    name in c.matchSet
  }

  /** `query in cmd`: the query is a substring of the key or of an
      alias; every matching name passes. */
  predicate ContainsQuery(c: Command, query: string)
    ensures WellFormed(c) ==> (ContainsQuery(c, query) <==>
      Contains(c.key, query) || exists a :: a in c.aliases && Contains(a, query))
    ensures Match(c, query) ==> ContainsQuery(c, query)
  {
    assert Match(c, query) ==> Contains(query, query);
    exists n :: n in c.matchSet && Contains(n, query)
  }

  /** `cmd == name` against a string. */
  function EqName(c: Command, name: string): (r: bool)
    ensures r == Match(c, name)
  {
    name in c.matchSet
  }

  /** `cmd != name` against a string: the exact negation of `==`. */
  function NeName(c: Command, name: string): (r: bool)
    ensures r == !EqName(c, name)
  {
    name !in c.matchSet
  }

  /** `a == b` between commands: the match sets intersect (the source
      returns the intersection, read here for its truth value). */
  function EqCommand(a: Command, b: Command): bool {
    a.matchSet * b.matchSet != {}
  }

  /** Commands are equal when some name matches both, in either order. */
  lemma EqCommandMeaning(a: Command, b: Command)
    ensures EqCommand(a, b) <==> exists n :: Match(a, n) && Match(b, n)
    ensures EqCommand(a, b) == EqCommand(b, a)
    ensures EqCommand(a, b) <==> !forall n :: n in a.matchSet ==> n !in b.matchSet
  {
    if exists n :: Match(a, n) && Match(b, n) {
      var n :| Match(a, n) && Match(b, n);
      assert n in a.matchSet * b.matchSet;
    }
    if EqCommand(a, b) {
      var n :| n in a.matchSet * b.matchSet;
      assert Match(a, n) && Match(b, n) && n in b.matchSet * a.matchSet;
    }
    if EqCommand(b, a) {
      var n :| n in b.matchSet * a.matchSet;
      assert n in a.matchSet * b.matchSet;
    }
    if !forall n :: n in a.matchSet ==> n !in b.matchSet {
      var n :| n in a.matchSet && n in b.matchSet;
      assert n in a.matchSet * b.matchSet;
    }
  }

  /** `a != b` between commands: the match sets are disjoint, the exact
      negation of `==`. */
  function NeCommand(a: Command, b: Command): (r: bool)
    ensures r == !EqCommand(a, b)
  {
    EqCommandMeaning(a, b);
    forall n :: n in a.matchSet ==> n !in b.matchSet
  }

  /** `set_key`: the key is lowercased and the cache rebuilt; the aliases
      are kept as they are, even one equal to the new key. */
  function SetKey(c: Command, newKey: string): (r: Command)
    ensures WellFormed(r)
    ensures r.key == Lower(newKey) && Lower(r.key) == r.key
    ensures r.aliases == c.aliases
    ensures r.lockStorage == c.lockStorage && r.helpCategory == c.helpCategory
    ensures forall n :: Match(r, n) <==> n == Lower(newKey) || n in c.aliases
  {
    LowerIdempotent(newKey);
    var key := Lower(newKey);
    c.(key := key, matchSet := {key} + c.aliases)
  }

  /** The entries `set_aliases` reads: a string is split on `;`. */
  function SetCandidates(spec: AliasSpec): seq<string> {
    match spec
    case AliasString(text) => SplitOn(text, ';')
    case AliasList(items) => items
  }

  /** `set_aliases`: every entry is cleaned; entries equal to the key are
      dropped, empty ones are kept. */
  function SetAliases(c: Command, spec: AliasSpec): (r: Command)
    ensures WellFormed(r)
    ensures r.key == c.key && r.lockStorage == c.lockStorage && r.helpCategory == c.helpCategory
    ensures forall a :: a in r.aliases <==> a != c.key && exists e :: e in SetCandidates(spec) && Clean(e) == a
    ensures forall a :: a in r.aliases ==> Lower(a) == a && Strip(a) == a
  {
    var entries := SetCandidates(spec);
    var aliases := set e | e in entries && Clean(e) != c.key :: Clean(e);
    assert forall a :: a in aliases ==> Lower(a) == a && Strip(a) == a by {
      forall a | a in aliases ensures Lower(a) == a && Strip(a) == a {
        var e :| e in entries && Clean(e) == a;
        CleanIsStable(e);
      }
    }
    c.(aliases := aliases, matchSet := {c.key} + aliases)
  }

  /** A `;;` in the alias string gives the empty alias. */
  lemma SetAliasesKeepsEmpty(c: Command, before: string, after: string)
    requires c.key != ""
    ensures "" in SetAliases(c, AliasString(before + ";;" + after)).aliases
  {
    var text := before + ";;" + after;
    assert text[|before|] == ';' && text[|before| + 1] == ';';
    SplitContainsEmpty(text);
    assert Clean("") == "";
  }

  /** Two adjacent separators leave an empty part between them, which is
      never the first part. */
  lemma {:induction false} SplitContainsEmpty(s: string)
    requires exists i :: 0 <= i < |s| - 1 && s[i] == ';' && s[i + 1] == ';'
    ensures exists k :: 1 <= k < |SplitOn(s, ';')| && SplitOn(s, ';')[k] == ""
    decreases |s|
  {
    var i :| 0 <= i < |s| - 1 && s[i] == ';' && s[i + 1] == ';';
    var parts := SplitOn(s, ';');
    var rest := SplitOn(s[1..], ';');
    if i == 0 {
      assert s[1..][0] == ';';
      assert rest[0] == "";
      assert parts[1] == "";
    } else {
      assert s[1..][i - 1] == ';' && s[1..][i] == ';';
      SplitContainsEmpty(s[1..]);
      var k :| 1 <= k < |rest| && rest[k] == "";
      if s[0] == ';' {
        assert parts[k + 1] == "";
      } else {
        assert parts[k] == rest[k];
      }
    }
  }
}
