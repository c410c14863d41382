/**
 * The alias registry of lib/alias-manager.js: the aliases of the configuration
 * document, a map from alias name to command template, and the operations that
 * add, remove, edit and list them. An alias whose template is the empty string
 * is falsy in the source's checks, so it counts as undefined there.
 */
module AliasManager {
  import opened Wrappers
  import opened Text
  import Config

  type Aliases = map<string, string>

  datatype Error = AlreadyExists(alias: string) | NotFound(alias: string)

  /** `aliases[alias]` is truthy: the name is bound, and to a non-empty template. */
  predicate Present(m: Aliases, alias: string) {
    alias in m && m[alias] != ""
  }

  // ------------------------------------------------------------------ the three updates

  /** `addAlias`: refused when the alias is defined; otherwise the name is bound to `command`. */
  function AddAlias(m: Aliases, alias: string, command: string): (r: Result<Aliases, Error>)
    ensures r.Failure? <==> Present(m, alias)
    ensures r.Failure? ==> r.error == AlreadyExists(alias)
    ensures r.Success? ==> r.value.Keys == m.Keys + {alias} && r.value[alias] == command
    ensures r.Success? ==> forall a :: a in m && a != alias ==> r.value[a] == m[a]
  {
    if Present(m, alias) then Failure(AlreadyExists(alias))
    else Success(m[alias := command])
  }

  /** `removeAlias`: refused when the alias is not defined; otherwise the name is unbound. */
  function RemoveAlias(m: Aliases, alias: string): (r: Result<Aliases, Error>)
    ensures r.Failure? <==> !Present(m, alias)
    ensures r.Failure? ==> r.error == NotFound(alias)
    ensures r.Success? ==> r.value.Keys == m.Keys - {alias}
    ensures r.Success? ==> forall a :: a in r.value ==> r.value[a] == m[a]
  {
    if !Present(m, alias) then Failure(NotFound(alias))
    else Success(m - {alias})
  }

  /** `editAlias`: refused when the alias is not defined; otherwise its template becomes `newCommand`. */
  function EditAlias(m: Aliases, alias: string, newCommand: string): (r: Result<Aliases, Error>)
    ensures r.Failure? <==> !Present(m, alias)
    ensures r.Failure? ==> r.error == NotFound(alias)
    ensures r.Success? ==> r.value.Keys == m.Keys && r.value[alias] == newCommand
    ensures r.Success? ==> forall a :: a in m && a != alias ==> r.value[a] == m[a]
  {
    if !Present(m, alias) then Failure(NotFound(alias))
    else Success(m[alias := newCommand])
  }

  /** Adding a new alias with a non-empty template and removing it again leaves the aliases as they were. */
  lemma AddThenRemove(m: Aliases, alias: string, command: string)
    requires alias !in m && command != ""
    ensures AddAlias(m, alias, command).Success?
    ensures RemoveAlias(AddAlias(m, alias, command).value, alias) == Success(m)
  {
    var added := AddAlias(m, alias, command).value;
    assert added - {alias} == m;
  }

  /** Removing a defined alias and adding it back with its template leaves the aliases as they were. */
  lemma RemoveThenAdd(m: Aliases, alias: string)
    requires Present(m, alias)
    ensures RemoveAlias(m, alias).Success?
    ensures AddAlias(RemoveAlias(m, alias).value, alias, m[alias]) == Success(m)
  {
    var removed := RemoveAlias(m, alias).value;
    assert removed[alias := m[alias]] == m;
  }

  /** Editing an alias to a non-empty template and back to its old one leaves the aliases as they were. */
  lemma EditThenEditBack(m: Aliases, alias: string, command: string)
    requires Present(m, alias) && command != ""
    ensures EditAlias(m, alias, command).Success?
    ensures EditAlias(EditAlias(m, alias, command).value, alias, m[alias]) == Success(m)
  {
    var edited := EditAlias(m, alias, command).value;
    assert edited[alias := m[alias]] == m;
  }

  /** Editing is removing and adding again under the same name, and fails exactly when removing does. */
  lemma EditIsRemoveThenAdd(m: Aliases, alias: string, command: string)
    ensures EditAlias(m, alias, command).Failure? <==> RemoveAlias(m, alias).Failure?
    ensures RemoveAlias(m, alias).Success? ==>
      && AddAlias(RemoveAlias(m, alias).value, alias, command).Success?
      && EditAlias(m, alias, command) == AddAlias(RemoveAlias(m, alias).value, alias, command)
  {
    if Present(m, alias) {
      var removed := RemoveAlias(m, alias).value;
      assert removed[alias := command] == m[alias := command];
    }
  }

  /**
   * An alias bound to the empty template is falsy: adding it again overwrites
   * it, while removing or editing it reports it as not found, although it
   * stays in the document and is listed.
   */
  lemma EmptyTemplateCountsAsUndefined(m: Aliases, alias: string, command: string)
    requires alias in m && m[alias] == ""
    ensures AddAlias(m, alias, command) == Success(m[alias := command])
    ensures RemoveAlias(m, alias) == Failure(NotFound(alias))
    ensures EditAlias(m, alias, command) == Failure(NotFound(alias))
    ensures ListAliases(m).Table?
    ensures exists i :: 0 <= i < |ListAliases(m).entries| && ListAliases(m).entries[i] == Entry(alias, "")
  {
    var l := ListAliases(m);
    var i :| 0 <= i < |l.entries| && l.entries[i].alias == alias;
    assert l.entries[i] == Entry(alias, "");
  }

  // ------------------------------------------------------------------ order of names

  /** Code-point lexicographic order: a proper prefix comes first. */
  predicate LexLess(a: string, b: string)
    decreases |a|
  {
    if |a| == 0 then |b| > 0
    else |b| > 0 && (a[0] < b[0] || (a[0] == b[0] && LexLess(a[1..], b[1..])))
  }

  lemma {:induction false} LexLessIrreflexive(a: string)
    ensures !LexLess(a, a)
    decreases |a|
  {
    if |a| > 0 {
      LexLessIrreflexive(a[1..]);
    }
  }

  lemma {:induction false} LexLessAsymmetric(a: string, b: string)
    ensures !(LexLess(a, b) && LexLess(b, a))
    decreases |a|
  {
    if |a| > 0 && |b| > 0 && a[0] == b[0] {
      LexLessAsymmetric(a[1..], b[1..]);
    }
  }

  lemma {:induction false} LexLessTransitive(a: string, b: string, c: string)
    requires LexLess(a, b) && LexLess(b, c)
    ensures LexLess(a, c)
    decreases |a|
  {
    if |a| > 0 && a[0] == b[0] && b[0] == c[0] {
      LexLessTransitive(a[1..], b[1..], c[1..]);
    }
  }

  lemma {:induction false} LexLessTotal(a: string, b: string)
    requires a != b
    ensures LexLess(a, b) || LexLess(b, a)
    decreases |a|
  {
    if |a| > 0 && |b| > 0 && a[0] == b[0] {
      assert a == [a[0]] + a[1..] && b == [b[0]] + b[1..];
      LexLessTotal(a[1..], b[1..]);
    }
  }

  /** `x` belongs to `names` and comes before every other member. */
  predicate IsLeast(x: string, names: set<string>) {
    x in names && forall y :: y in names ==> x == y || LexLess(x, y)
  }

  lemma {:induction false} LeastExists(names: set<string>)
    requires names != {}
    ensures exists x :: IsLeast(x, names)
    decreases |names|
  {
    var z :| z in names;
    var rest := names - {z};
    if rest == {} {
      assert names == {z};
      assert IsLeast(z, names);
    } else {
      LeastExists(rest);
      var w :| IsLeast(w, rest);
      if LexLess(z, w) {
        forall y | y in names && y != z
          ensures LexLess(z, y)
        {
          if y != w {
            LexLessTransitive(z, w, y);
          }
        }
        assert IsLeast(z, names);
      } else {
        LexLessTotal(z, w);
        assert IsLeast(w, names);
      }
    }
  }

  predicate StrictlySorted(names: seq<string>) {
    forall i, j :: 0 <= i < j < |names| ==> LexLess(names[i], names[j])
  }

  /** The names of a set in increasing order, each once. */
  ghost function SortedNames(names: set<string>): (r: seq<string>)
    ensures |r| == |names|
    ensures forall i :: 0 <= i < |r| ==> r[i] in names
    ensures forall n :: n in names ==> n in r
    ensures StrictlySorted(r)
    decreases |names|
  {
    if names == {} then []
    else
      LeastExists(names);
      var x :| IsLeast(x, names);
      var rest := SortedNames(names - {x});
      var r := [x] + rest;
      assert StrictlySorted(r) by {
        forall i, j | 0 <= i < j < |r|
          ensures LexLess(r[i], r[j])
        {
          assert r[j] == rest[j - 1] && rest[j - 1] in names - {x};
          if i > 0 {
            assert r[i] == rest[i - 1];
          }
        }
      }
      assert forall n :: n in names ==> n == x || n in names - {x};
      r
  }

  /** Two increasing sequences with the same members are equal: the sorted order is unique. */
  lemma {:induction false} SortedUnique(a: seq<string>, b: seq<string>)
    requires StrictlySorted(a) && StrictlySorted(b)
    requires forall n :: n in a <==> n in b
    ensures a == b
    decreases |a|
  {
    SameMembersBothEmpty(a, b);
    if |a| > 0 {
      var x, y := a[0], b[0];
      assert x == y || LexLess(y, x) by {
        assert x in b;
      }
      assert y == x || LexLess(x, y) by {
        assert y in a;
      }
      LexLessAsymmetric(x, y);
      assert x == y;
      forall n
        ensures n in a[1..] <==> n in b[1..]
      {
        if n in a[1..] {
          var j :| 0 <= j < |a[1..]| && a[1..][j] == n;
          assert LexLess(x, a[j + 1]) && a[j + 1] in a;
          LexLessIrreflexive(x);
          var k :| 0 <= k < |b| && b[k] == n;
          assert k != 0;
          assert b[1..][k - 1] == n;
        }
        if n in b[1..] {
          var j :| 0 <= j < |b[1..]| && b[1..][j] == n;
          assert LexLess(y, b[j + 1]) && b[j + 1] in b;
          LexLessIrreflexive(y);
          var k :| 0 <= k < |a| && a[k] == n;
          assert k != 0;
          assert a[1..][k - 1] == n;
        }
      }
      SortedUnique(a[1..], b[1..]);
    }
  }

  lemma SameMembersBothEmpty(a: seq<string>, b: seq<string>)
    requires forall n :: n in a <==> n in b
    ensures |a| == 0 <==> |b| == 0
  {
    if |a| > 0 {
      assert a[0] in b;
    }
    if |b| > 0 {
      assert b[0] in a;
    }
  }

  // ------------------------------------------------------------------ listing

  /** `Math.max(...)` of the lengths of the names; 0 for none. */
  function MaxLength(names: seq<string>): (n: nat)
    ensures forall i :: 0 <= i < |names| ==> |names[i]| <= n
    ensures |names| > 0 ==> exists i :: 0 <= i < |names| && |names[i]| == n
    ensures |names| == 0 ==> n == 0
    decreases |names|
  {
    if |names| == 0 then 0
    else
      var rest := MaxLength(names[1..]);
      assert forall i :: 1 <= i < |names| ==> names[i] == names[1..][i - 1];
      if |names[0]| >= rest then |names[0]| else rest
  }

  datatype Entry = Entry(alias: string, command: string)

  /** What `listAliases` shows: a hint when there are no aliases, otherwise the sorted table. */
  datatype Listing = NoAliases | Table(width: nat, entries: seq<Entry>)

  /**
   * `listAliases`: every alias once with its template, in increasing order of
   * name, the name column two wider than the longest name.
   */
  ghost function ListAliases(m: Aliases): (r: Listing)
    ensures r.NoAliases? <==> |m| == 0
    ensures r.Table? ==> |r.entries| == |m|
    ensures r.Table? ==> forall i :: 0 <= i < |r.entries| ==>
      r.entries[i].alias in m && m[r.entries[i].alias] == r.entries[i].command
    ensures r.Table? ==> forall a :: a in m ==> exists i :: 0 <= i < |r.entries| && r.entries[i].alias == a
    ensures r.Table? ==> forall i, j :: 0 <= i < j < |r.entries| ==> LexLess(r.entries[i].alias, r.entries[j].alias)
    ensures r.Table? ==> forall i :: 0 <= i < |r.entries| ==> |r.entries[i].alias| + 2 <= r.width
    ensures r.Table? ==> exists i :: 0 <= i < |r.entries| && |r.entries[i].alias| + 2 == r.width
  {
    if |m| == 0 then NoAliases
    else
      var names := SortedNames(m.Keys);
      var entries := Entries(m, names);
      EntriesExact(m, names, entries);
      EntriesCover(m, names, entries);
      EntriesWidth(names, entries);
      Table(MaxLength(names) + 2, entries)
  }

  /** Each name with its template. */
  function Entries(m: Aliases, names: seq<string>): (entries: seq<Entry>)
    requires forall i :: 0 <= i < |names| ==> names[i] in m
    ensures |entries| == |names|
    ensures forall i :: 0 <= i < |names| ==> entries[i] == Entry(names[i], m[names[i]])
  {
    seq(|names|, i requires 0 <= i < |names| => Entry(names[i], m[names[i]]))
  }

  lemma EntriesExact(m: Aliases, names: seq<string>, entries: seq<Entry>)
    requires |names| == |m.Keys| && StrictlySorted(names)
    requires forall i :: 0 <= i < |names| ==> names[i] in m
    requires |entries| == |names| && forall i :: 0 <= i < |names| ==> entries[i] == Entry(names[i], m[names[i]])
    ensures |entries| == |m|
    ensures forall i :: 0 <= i < |entries| ==> entries[i].alias in m && m[entries[i].alias] == entries[i].command
    ensures forall i, j :: 0 <= i < j < |entries| ==> LexLess(entries[i].alias, entries[j].alias)
  {
    assert |m| == |m.Keys|;
  }

  lemma EntriesCover(m: Aliases, names: seq<string>, entries: seq<Entry>)
    requires forall a :: a in m ==> a in names
    requires |entries| == |names| && forall i :: 0 <= i < |names| ==> entries[i].alias == names[i]
    ensures forall a :: a in m ==> exists i :: 0 <= i < |entries| && entries[i].alias == a
  {
    forall a | a in m
      ensures exists i :: 0 <= i < |entries| && entries[i].alias == a
    {
      var i :| 0 <= i < |names| && names[i] == a;
      assert entries[i].alias == a;
    }
  }

  lemma EntriesWidth(names: seq<string>, entries: seq<Entry>)
    requires |entries| == |names| && forall i :: 0 <= i < |names| ==> entries[i].alias == names[i]
    ensures forall i :: 0 <= i < |entries| ==> |entries[i].alias| + 2 <= MaxLength(names) + 2
    ensures |entries| > 0 ==> exists i :: 0 <= i < |entries| && |entries[i].alias| + 2 == MaxLength(names) + 2
  {
    if |entries| > 0 {
      var i :| 0 <= i < |names| && |names[i]| == MaxLength(names);
      assert |entries[i].alias| + 2 == MaxLength(names) + 2;
    }
  }

  /**
   * One row of the table: two spaces, the name padded to the column width, an
   * arrow and the template. The arrows of all rows stand in the same column.
   */
  function Row(e: Entry, width: nat): (line: string)
    requires |e.alias| <= width
    ensures |line| == width + 5 + |e.command|
    ensures line[..2] == "  " && line[2..2 + |e.alias|] == e.alias
    ensures forall k :: 2 + |e.alias| <= k < 2 + width ==> line[k] == ' '
    ensures line[2 + width..5 + width] == " → " && line[5 + width..] == e.command
  {
    var padded := PadEnd(e.alias, width);
    var line := "  " + padded + " → " + e.command;
    assert line[2..2 + width] == padded;
    assert line[2..2 + |e.alias|] == padded[..|e.alias|];
    line
  }

  lemma {:induction false} AdjacentSorted(names: seq<string>)
    requires forall i :: 0 <= i < |names| - 1 ==> LexLess(names[i], names[i + 1])
    ensures StrictlySorted(names)
    decreases |names|
  {
    if |names| > 1 {
      var rest := names[1..];
      assert forall i :: 0 <= i < |rest| ==> rest[i] == names[i + 1];
      AdjacentSorted(rest);
      forall j | 1 <= j < |names|
        ensures LexLess(names[0], names[j])
      {
        if j > 1 {
          assert names[j] == rest[j - 1] && names[1] == rest[0];
          LexLessTransitive(names[0], names[1], names[j]);
        }
      }
    }
  }

  /** The names of the default aliases in the order `listAliases` shows them. */
  const DefaultOrder: seq<string> := [
    "add", "amend", "br", "branches", "cmt", "co", "diff", "log",
    "pull", "push", "recent", "remotes", "st", "stash", "undo", "unstage"
  ]

  /** A listing follows any increasing enumeration of the names: the sorted order is the only one. */
  lemma ListingFollows(m: Aliases, names: seq<string>)
    requires |m| > 0 && StrictlySorted(names)
    requires forall n :: n in m <==> n in names
    ensures ListAliases(m).Table? && ListAliases(m).width == MaxLength(names) + 2
    ensures |ListAliases(m).entries| == |names|
    ensures forall i :: 0 <= i < |names| ==> ListAliases(m).entries[i].alias == names[i]
  {
    var l := ListAliases(m);
    SortedEntriesFollow(m, l.entries, names);
    ListedWidth(l.entries, l.width, names);
  }

  /** The names in a sequence of entries, in the same order. */
  function Names(entries: seq<Entry>): (names: seq<string>)
    ensures |names| == |entries|
    ensures forall i :: 0 <= i < |entries| ==> names[i] == entries[i].alias
  {
    seq(|entries|, i requires 0 <= i < |entries| => entries[i].alias)
  }

  lemma SortedEntriesFollow(m: Aliases, entries: seq<Entry>, names: seq<string>)
    requires forall i :: 0 <= i < |entries| ==> entries[i].alias in m
    requires forall a :: a in m ==> exists i :: 0 <= i < |entries| && entries[i].alias == a
    requires forall i, j :: 0 <= i < j < |entries| ==> LexLess(entries[i].alias, entries[j].alias)
    requires StrictlySorted(names) && forall n :: n in m <==> n in names
    ensures |entries| == |names|
    ensures forall i :: 0 <= i < |names| ==> entries[i].alias == names[i]
  {
    var shown := Names(entries);
    forall n
      ensures n in shown <==> n in names
    {
      if n in shown {
        var i :| 0 <= i < |shown| && shown[i] == n;
        assert entries[i].alias == n;
      }
      if n in names {
        var i :| 0 <= i < |entries| && entries[i].alias == n;
        assert shown[i] == n;
      }
    }
    SortedUnique(shown, names);
  }

  lemma ListedWidth(entries: seq<Entry>, width: nat, names: seq<string>)
    requires |entries| == |names| > 0
    requires forall i :: 0 <= i < |entries| ==> entries[i].alias == names[i]
    requires forall i :: 0 <= i < |entries| ==> |entries[i].alias| + 2 <= width
    requires exists i :: 0 <= i < |entries| && |entries[i].alias| + 2 == width
    ensures width == MaxLength(names) + 2
  {
    var i :| 0 <= i < |entries| && |entries[i].alias| + 2 == width;
    var k :| 0 <= k < |names| && |names[k]| == MaxLength(names);
    assert |names[i]| <= MaxLength(names);
    assert |entries[k].alias| + 2 <= width;
  }

  /** On a first run the table lists the sixteen defaults in this order, with a name column ten wide. */
  lemma DefaultListing()
    ensures ListAliases(Config.DefaultAliases()).Table?
    ensures ListAliases(Config.DefaultAliases()).width == 10
    ensures |ListAliases(Config.DefaultAliases()).entries| == |DefaultOrder|
    ensures forall i :: 0 <= i < |DefaultOrder| ==> ListAliases(Config.DefaultAliases()).entries[i].alias == DefaultOrder[i]
  {
    DefaultNames();
    ListingOfDefaultNames(Config.DefaultAliases());
  }

  lemma ListingOfDefaultNames(m: Aliases)
    requires forall n :: n in m <==> n in DefaultOrder
    ensures ListAliases(m).Table? && ListAliases(m).width == 10
    ensures |ListAliases(m).entries| == |DefaultOrder|
    ensures forall i :: 0 <= i < |DefaultOrder| ==> ListAliases(m).entries[i].alias == DefaultOrder[i]
  {
    assert DefaultOrder[0] in m;
    DefaultOrderSorted();
    ListingFollows(m, DefaultOrder);
    DefaultWidth();
  }

  lemma DefaultOrderSorted()
    ensures StrictlySorted(DefaultOrder)
  {
    assert LexLess("add", "amend") && LexLess("amend", "br") && LexLess("br", "branches");
    assert LexLess("branches", "cmt") && LexLess("cmt", "co") && LexLess("co", "diff");
    assert LexLess("diff", "log") && LexLess("log", "pull") && LexLess("pull", "push");
    assert LexLess("push", "recent") && LexLess("recent", "remotes") && LexLess("remotes", "st");
    assert LexLess("st", "stash") && LexLess("stash", "undo") && LexLess("undo", "unstage");
    AdjacentSorted(DefaultOrder);
  }

  lemma DefaultNames()
    ensures forall n :: n in Config.DefaultAliases() <==> n in DefaultOrder
  {
  }

  lemma DefaultWidth()
    ensures MaxLength(DefaultOrder) == 8
  {
    DefaultNameLengths();
    MaxLengthIs(DefaultOrder, 3);
  }

  lemma DefaultNameLengths()
    ensures |DefaultOrder[3]| == 8
    ensures forall i :: 0 <= i < |DefaultOrder| ==> |DefaultOrder[i]| <= 8
  {
  }

  /** A name at least as long as every other gives the column its width. */
  lemma MaxLengthIs(names: seq<string>, k: nat)
    requires k < |names| && forall i :: 0 <= i < |names| ==> |names[i]| <= |names[k]|
    ensures MaxLength(names) == |names[k]|
  {
    var i :| 0 <= i < |names| && |names[i]| == MaxLength(names);
  }

  // ------------------------------------------------------------------ the registry

  /** The aliases of the configuration document, changed in place by the three updates. */
  class AliasRegistry {
    var aliases: Aliases

    /** A first run: the configuration file is created holding the default aliases. */
    constructor ()
      ensures aliases == Config.DefaultAliases()
    {
      aliases := Config.DefaultAliases();
    }

    /** The aliases read back from an existing configuration file. */
    constructor Load(stored: Aliases)
      ensures aliases == stored
    {
      aliases := stored;
    }

    method Add(alias: string, command: string) returns (err: Option<Error>)
      modifies this
      ensures AddAlias(old(aliases), alias, command).Failure? ==>
        err == Some(AddAlias(old(aliases), alias, command).error) && aliases == old(aliases)
      ensures AddAlias(old(aliases), alias, command).Success? ==>
        err == None && aliases == AddAlias(old(aliases), alias, command).value
    {
      if Present(aliases, alias) {
        return Some(AlreadyExists(alias));
      }
      aliases := aliases[alias := command];
      return None;
    }

    method Remove(alias: string) returns (err: Option<Error>)
      modifies this
      ensures RemoveAlias(old(aliases), alias).Failure? ==>
        err == Some(RemoveAlias(old(aliases), alias).error) && aliases == old(aliases)
      ensures RemoveAlias(old(aliases), alias).Success? ==>
        err == None && aliases == RemoveAlias(old(aliases), alias).value
    {
      if !Present(aliases, alias) {
        return Some(NotFound(alias));
      }
      aliases := aliases - {alias};
      return None;
    }

    method Edit(alias: string, newCommand: string) returns (err: Option<Error>)
      modifies this
      ensures EditAlias(old(aliases), alias, newCommand).Failure? ==>
        err == Some(EditAlias(old(aliases), alias, newCommand).error) && aliases == old(aliases)
      ensures EditAlias(old(aliases), alias, newCommand).Success? ==>
        err == None && aliases == EditAlias(old(aliases), alias, newCommand).value
    {
      if !Present(aliases, alias) {
        return Some(NotFound(alias));
      }
      aliases := aliases[alias := newCommand];
      return None;
    }
  }
}
