/** The earlier alias table of src/alias_test/alias.c: at most 150 entries in
    insertion order, searched linearly, with the same pending word buffer as
    the sorted table. */
module AliasList {
  import opened Common
  import opened AliasCore
  import Translate

  /** `ALIAS_LIMIT` of src/alias_test/alias.c:7. */
  const AliasLimit: nat := 150

  datatype Table = Table(entries: seq<Alias>, trans: seq<string>)

  /** No two entries share a name: what refusing duplicates maintains. */
  predicate Distinct(es: seq<Alias>) {
    forall i, j :: 0 <= i < j < |es| ==> es[i].name != es[j].name
  }

  predicate Valid(t: Table) {
    |t.entries| <= AliasLimit && Distinct(t.entries)
  }

  /** `find_alias(og)`: the first entry in array order whose name is `og`. */
  method FindAlias(es: seq<Alias>, key: string) returns (r: Option<Alias>)
    ensures r.Some? <==> HasName(es, key)
    ensures r.Some? ==> r.value.name == key && r.value in es
    ensures r == Find(es, key)
  {
    var i := 0;
    while i < |es|
      invariant 0 <= i <= |es|
      invariant forall j :: 0 <= j < i ==> es[j].name != key
    {
      if key == es[i].name {
        assert IndexOf(es, key) == i;
        return Some(es[i]);
      }
      i := i + 1;
    }
    return None;
  }

  datatype Added = Added(table: Table, entry: Option<Alias>)

  /** `add_alias(og, trns)`: split the text into the buffer; refuse a full
      table or a known name (the words stay buffered); otherwise append the
      entry with all buffered words and empty the buffer. */
  function AddAlias(t: Table, name: string, text: string): (r: Added)
    requires Valid(t)
    ensures Valid(r.table)
    ensures (|t.entries| == AliasLimit || HasName(t.entries, name)) ==>
      r == Added(Table(t.entries, t.trans + Translate.Words(text)), None)
    ensures |t.entries| < AliasLimit && !HasName(t.entries, name) ==>
      && r.entry == Some(Alias(name, t.trans + Translate.Words(text)))
      && |r.table.entries| == |t.entries| + 1
      && r.table.entries[..|t.entries|] == t.entries
      && r.table.entries[|t.entries|] == r.entry.value
      && r.table.trans == []
  {
    var trans := Translate.ParseTranslated(text, t.trans);
    if |t.entries| == AliasLimit then Added(Table(t.entries, trans), None)
    else if HasName(t.entries, name) then Added(Table(t.entries, trans), None)
    else
      var e := Alias(name, trans);
      var es := t.entries + [e];
      assert Distinct(es) by {
        forall i, j | 0 <= i < j < |es|
          ensures es[i].name != es[j].name
        {
          if j == |t.entries| {
            assert es[i] == t.entries[i];
          }
        }
      }
      Added(Table(es, []), Some(e))
  }

  /** The table after a removal, and whether the name was found (the
      pointer `remove_alias` returns is NULL or not; what it points to is
      `RemovedSlotAsWritten`). */
  datatype Removed = Removed(table: Table, found: bool)

  /** `remove_alias(og)`: an unknown name changes nothing and yields NULL;
      otherwise the entry is compacted out. */
  function RemoveAlias(t: Table, name: string): (r: Removed)
    requires Valid(t)
    ensures r.found <==> HasName(t.entries, name)
    ensures !HasName(t.entries, name) ==> r.table == t
    ensures HasName(t.entries, name) ==>
      var i := IndexOf(t.entries, name);
      && 0 <= i < |t.entries|
      && Valid(r.table)
      && r.table.trans == t.trans
      && !HasName(r.table.entries, name)
      && multiset(r.table.entries) + multiset{t.entries[i]} == multiset(t.entries)
  {
    var i := IndexOf(t.entries, name);
    if i == -1 then Removed(t, false)
    else
      var es := Without(t.entries, i);
      WithoutContents(t.entries, i);
      WithoutDistinct(t.entries, i);
      Removed(Table(es, t.trans), true)
  }

  /** What a slot of `alias_arr` holds after `adjust_aliases`: an entry, or
      nothing once the last slot has been freed and set to NULL. */
  datatype Slot = Holds(entry: Alias) | Freed

  /** The slot `remove_alias` returns, as it stands when the caller gets it:
      `found` still points at the removed entry's index, into which
      `adjust_aliases` has copied the entry after it (or which it freed when
      the removed entry was last). NULL for an unknown name. */
  function RemovedSlotAsWritten(t: Table, name: string): (s: Option<Slot>)
    requires Valid(t)
    ensures s.None? <==> !HasName(t.entries, name)
  {
    var i := IndexOf(t.entries, name);
    if i == -1 then None
    else
      var es := RemoveAlias(t, name).table.entries;
      Some(if i < |es| then Holds(es[i]) else Freed)
  }

  /** The returned slot never holds the removed alias: it holds the entry
      that followed it, or is freed when the removed entry was last. */
  lemma RemovedSlotIsNext(t: Table, name: string)
    requires Valid(t) && HasName(t.entries, name)
    ensures var i := IndexOf(t.entries, name);
      && 0 <= i < |t.entries|
      && RemovedSlotAsWritten(t, name).Some?
      && (i + 1 < |t.entries| ==> RemovedSlotAsWritten(t, name).value == Holds(t.entries[i + 1]))
      && (i + 1 == |t.entries| ==> RemovedSlotAsWritten(t, name).value == Freed)
      && RemovedSlotAsWritten(t, name).value != Holds(t.entries[i])
  {
    var i := IndexOf(t.entries, name);
    var es := RemoveAlias(t, name).table.entries;
    assert es == t.entries[..i] + t.entries[i + 1..];
    if i + 1 < |t.entries| {
      assert es[i] == t.entries[i + 1];
      assert t.entries[i + 1].name != t.entries[i].name;
    }
  }

  /** Removing "ll" from the table "ll", "lrt" returns the slot that now
      holds "lrt". */
  lemma RemovedSlotExample(a: Alias, b: Alias)
    requires a.name == "ll" && b.name == "lrt"
    ensures RemovedSlotAsWritten(Table([a, b], []), "ll") == Some(Holds(b))
  {
    var t := Table([a, b], []);
    assert IndexOf(t.entries, "ll") == 0;
    RemovedSlotIsNext(t, "ll");
  }

  /** Compacting an entry out keeps the names distinct and drops its name. */
  lemma WithoutDistinct(es: seq<Alias>, i: nat)
    requires Distinct(es) && i < |es|
    ensures Distinct(Without(es, i)) && !HasName(Without(es, i), es[i].name)
  {
    var w := Without(es, i);
    forall a, b | 0 <= a < b < |w|
      ensures w[a].name != w[b].name
    {
      var a' := if a < i then a else a + 1;
      var b' := if b < i then b else b + 1;
      assert w[a] == es[a'] && w[b] == es[b'];
    }
    forall k | 0 <= k < |w|
      ensures w[k].name != es[i].name
    {
      var k' := if k < i then k else k + 1;
      assert w[k] == es[k'];
    }
  }

  /** Removal keeps the remaining entries in their original order. */
  lemma RemoveKeepsOrder(t: Table, name: string)
    requires Valid(t) && HasName(t.entries, name)
    ensures var i := IndexOf(t.entries, name);
      RemoveAlias(t, name).table.entries == t.entries[..i] + t.entries[i + 1..]
  {
  }

  /** Appending a new name and removing it again restores the entries. */
  lemma AddThenRemove(t: Table, name: string, text: string)
    requires Valid(t) && |t.entries| < AliasLimit && !HasName(t.entries, name)
    ensures RemoveAlias(AddAlias(t, name, text).table, name).table.entries == t.entries
  {
    var es := AddAlias(t, name, text).table.entries;
    var n := |t.entries|;
    assert es == t.entries + [es[n]];
    assert IndexOf(es, name) == n;
  }

  /** Names of the entries, in order. */
  function NamesOf(t: Table): seq<string> {
    Names(t.entries)
  }

  lemma HasNameIffIn(es: seq<Alias>, name: string)
    ensures HasName(es, name) <==> name in Names(es)
  {
    if name in Names(es) {
      var i :| 0 <= i < |es| && Names(es)[i] == name;
    }
  }

  /** An add succeeds exactly when there is room and the name is new, and
      then appends the name. */
  lemma AddNames(t: Table, name: string, text: string)
    requires Valid(t)
    ensures var r := AddAlias(t, name, text);
      && (r.entry.Some? <==> |t.entries| < AliasLimit && name !in NamesOf(t))
      && NamesOf(r.table) == if r.entry.Some? then NamesOf(t) + [name] else NamesOf(t)
  {
    HasNameIffIn(t.entries, name);
  }

  /** A removal succeeds exactly when the name is present, and then drops it
      from the names. */
  lemma RemoveNames(t: Table, name: string, i: nat)
    requires Valid(t) && i < |t.entries| && NamesOf(t)[i] == name
    ensures var r := RemoveAlias(t, name);
      && r.found
      && NamesOf(r.table) == NamesOf(t)[..i] + NamesOf(t)[i + 1..]
  {
    assert t.entries[i].name == name;
    var j := IndexOf(t.entries, name);
    assert j == i;
  }

  /** The five adds at the start of this file's `main`: whatever the
      replacement texts, each one succeeds and appends its name. */
  function MainAdds(x1: string, x2: string, x3: string, x4: string, x5: string): (t: Table)
    ensures Valid(t)
    ensures NamesOf(t) == ["ll", "lrt", "rm", "tsrc", "dsrc"]
  {
    var t0 := Table([], []);
    AppendName(t0, [], "ll", x1);
    var t1 := AddAlias(t0, "ll", x1).table;
    AppendName(t1, ["ll"], "lrt", x2);
    var t2 := AddAlias(t1, "lrt", x2).table;
    AppendName(t2, ["ll", "lrt"], "rm", x3);
    var t3 := AddAlias(t2, "rm", x3).table;
    AppendName(t3, ["ll", "lrt", "rm"], "tsrc", x4);
    var t4 := AddAlias(t3, "tsrc", x4).table;
    AppendName(t4, ["ll", "lrt", "rm", "tsrc"], "dsrc", x5);
    AddAlias(t4, "dsrc", x5).table
  }

  /** One add of a new name to a table with room appends that name. */
  lemma AppendName(t: Table, ns: seq<string>, name: string, text: string)
    requires Valid(t) && NamesOf(t) == ns && |ns| < AliasLimit && name !in ns
    ensures Valid(AddAlias(t, name, text).table)
    ensures NamesOf(AddAlias(t, name, text).table) == ns + [name]
  {
    AddNames(t, name, text);
  }

  /** Names left after removing `name`, found at index `i` of a table whose
      names are `ns`. */
  lemma RemoveAt(t: Table, ns: seq<string>, i: nat, name: string, after: seq<string>)
    requires Valid(t) && NamesOf(t) == ns && i < |ns| && ns[i] == name
    requires after == ns[..i] + ns[i + 1..]
    ensures RemoveAlias(t, name).found
    ensures Valid(RemoveAlias(t, name).table) && NamesOf(RemoveAlias(t, name).table) == after
  {
    RemoveNames(t, name, i);
  }

  /** Dropping index `i` of `ns` leaves `after`. */
  lemma Cut(ns: seq<string>, i: nat, after: seq<string>)
    requires i < |ns| && |after| + 1 == |ns|
    requires forall j {:trigger after[j]} :: 0 <= j < |after| ==> after[j] == if j < i then ns[j] else ns[j + 1]
    ensures after == ns[..i] + ns[i + 1..]
  {
    var c := ns[..i] + ns[i + 1..];
    forall j | 0 <= j < |after|
      ensures c[j] == after[j]
    {
      if j < i {
        assert c[j] == ns[..i][j];
      } else {
        assert c[j] == ns[i + 1..][j - i] == ns[j + 1];
      }
    }
  }

  /** The rest of `main`, from the table the five adds leave (see
      `MainAdds`): removing "ll" and then "tsrc" both succeed and the
      survivors keep their insertion order. */
  lemma MainScenario(t: Table)
    requires Valid(t) && NamesOf(t) == ["ll", "lrt", "rm", "tsrc", "dsrc"]
    ensures
      var r1 := RemoveAlias(t, "ll");
      var r2 := RemoveAlias(r1.table, "tsrc");
      && r1.found && r2.found
      && NamesOf(r2.table) == ["lrt", "rm", "dsrc"]
  {
    RemoveFirst(t);
    RemoveFourth(RemoveAlias(t, "ll").table);
  }

  /** Removing "ll" from the five names of `main`. */
  lemma RemoveFirst(t: Table)
    requires Valid(t) && NamesOf(t) == ["ll", "lrt", "rm", "tsrc", "dsrc"]
    ensures RemoveAlias(t, "ll").found
    ensures Valid(RemoveAlias(t, "ll").table)
    ensures NamesOf(RemoveAlias(t, "ll").table) == ["lrt", "rm", "tsrc", "dsrc"]
  {
    var n5 := ["ll", "lrt", "rm", "tsrc", "dsrc"];
    var n6 := ["lrt", "rm", "tsrc", "dsrc"];
    Cut(n5, 0, n6);
    RemoveAt(t, n5, 0, "ll", n6);
  }

  /** Removing "tsrc" from the four names left. */
  lemma RemoveFourth(t: Table)
    requires Valid(t) && NamesOf(t) == ["lrt", "rm", "tsrc", "dsrc"]
    ensures RemoveAlias(t, "tsrc").found
    ensures NamesOf(RemoveAlias(t, "tsrc").table) == ["lrt", "rm", "dsrc"]
  {
    var n6 := ["lrt", "rm", "tsrc", "dsrc"];
    var n7 := ["lrt", "rm", "dsrc"];
    Cut(n6, 2, n7);
    RemoveAt(t, n6, 2, "tsrc", n7);
  }
}
