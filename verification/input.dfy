/** The alias table of `CommandContainer` in
    `mudslide/services/input.py`: every command's name and aliases point
    at the command, later commands winning, and lookups lowercase the
    query and pass through an access check. Commands are identified by
    their position in the container's command list. */
module Input {
  import opened Wrappers
  import opened Strings

  /** What the table reads from a command: its `name` and `aliases`. */
  datatype Entry = Entry(name: string, aliases: seq<string>)

  /** The keys one command claims, in the order they are written. */
  function Names(e: Entry): seq<string> {
    [e.name] + e.aliases
  }

  /** Writes `i` under each key, in order. */
  function SetAll(t: map<string, nat>, keys: seq<string>, i: nat): (r: map<string, nat>)
    ensures forall k :: k in r <==> k in t || k in keys
    ensures forall k :: k in keys ==> r[k] == i
    ensures forall k :: k in t && k !in keys ==> r[k] == t[k]
    decreases |keys|
  {
    if |keys| == 0 then t else SetAll(t[keys[0] := i], keys[1..], i)
  }

  /** `CommandContainer.__init__`: the table after the commands up to
      `cmds`' end have been entered, in order. */
  function Table(cmds: seq<Entry>): map<string, nat>
    decreases |cmds|
  {
    if |cmds| == 0 then map[]
    else SetAll(Table(cmds[..|cmds| - 1]), Names(cmds[|cmds| - 1]), |cmds| - 1)
  }

  /** Independent description: the last command that claims `key`. */
  function LastOwner(cmds: seq<Entry>, key: string): (r: Option<nat>)
    ensures r.None? <==> forall i :: 0 <= i < |cmds| ==> key !in Names(cmds[i])
    ensures r.Some? ==> r.value < |cmds| && key in Names(cmds[r.value])
    ensures r.Some? ==> forall i :: r.value < i < |cmds| ==> key !in Names(cmds[i])
    decreases |cmds|
  {
    if |cmds| == 0 then None
    else if key in Names(cmds[|cmds| - 1]) then Some(|cmds| - 1)
    else
      var r := LastOwner(cmds[..|cmds| - 1], key);
      assert forall i :: 0 <= i < |cmds| - 1 ==> cmds[..|cmds| - 1][i] == cmds[i];
      r
  }

  /** Every name and alias maps to the last command that claims it, and
      nothing else is in the table. */
  lemma {:induction false} TableIsLastOwner(cmds: seq<Entry>, key: string)
    ensures key in Table(cmds) <==> LastOwner(cmds, key).Some?
    ensures key in Table(cmds) ==> Table(cmds)[key] == LastOwner(cmds, key).value
    decreases |cmds|
  {
    if |cmds| > 0 {
      var front := cmds[..|cmds| - 1];
      TableIsLastOwner(front, key);
      assert forall i :: 0 <= i < |cmds| - 1 ==> front[i] == cmds[i];
    }
  }

  /** `CommandContainer.get`: the lowercased query is looked up, and the
      command is returned only if `access` lets the caller use it. */
  function Get(table: map<string, nat>, query: string, access: nat -> bool): (r: Option<nat>)
    ensures r.Some? <==> Lower(query) in table && access(table[Lower(query)])
    ensures r.Some? ==> r.value == table[Lower(query)]
  {
    var k := Lower(query);
    if k in table && access(table[k]) then Some(table[k]) else None
  }

  /** Lookup in a container finds the last command claiming the
      lowercased query, if the caller may use it. */
  lemma GetFindsLastOwner(cmds: seq<Entry>, query: string, access: nat -> bool)
    ensures Get(Table(cmds), query, access)
         == match LastOwner(cmds, Lower(query))
            case Some(i) => if access(i) then Some(i) else None
            case None => None
  {
    TableIsLastOwner(cmds, Lower(query));
  }

  predicate HasUpper(s: string) {
    exists i :: 0 <= i < |s| && IsUpper(s[i])
  }

  /** A lowercased query has no uppercase letter. */
  lemma LowerHasNoUpper(s: string)
    ensures !HasUpper(Lower(s))
  {
  }

  /** Keys are stored as written, so a command all of whose keys carry
      an uppercase letter is never returned. */
  lemma UppercaseUnreachable(cmds: seq<Entry>, i: nat, query: string, access: nat -> bool)
    requires forall k :: k in Table(cmds) && Table(cmds)[k] == i ==> HasUpper(k)
    ensures Get(Table(cmds), query, access) != Some(i)
  {
    LowerHasNoUpper(query);
  }
}
