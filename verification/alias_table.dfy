/** The alias table of lib/alias.c: at most `ALIAS_LIMIT` entries kept sorted
    by `strcmp` of their names (re-sorted with `qsort` after every insertion),
    looked up with `bsearch`, and compacted in order on removal. The global
    word buffer `trans` that `parse_translated` fills is part of the state. */
module AliasTable {
  import opened Common
  import opened StrOrder
  import opened AliasCore
  import Translate

  /** `ALIAS_LIMIT` (lib/alias.h:9). */
  const AliasLimit: nat := 75

  /** `alias_arr[0..n_aliases)` together with the pending words `trans[0..n_tokens)`. */
  datatype Table = Table(entries: seq<Alias>, trans: seq<string>)

  /** Strictly increasing names: the order `qsort` establishes and `bsearch` needs. */
  predicate Sorted(es: seq<Alias>) {
    forall i, j :: 0 <= i < j < |es| ==> Less(es[i].name, es[j].name)
  }

  predicate Valid(t: Table) {
    |t.entries| <= AliasLimit && Sorted(t.entries)
  }

  lemma SortedTail(es: seq<Alias>)
    requires Sorted(es) && |es| > 0
    ensures Sorted(es[1..])
  {
    forall i, j | 0 <= i < j < |es| - 1
      ensures Less(es[1..][i].name, es[1..][j].name)
    {
      assert es[1..][i] == es[i + 1] && es[1..][j] == es[j + 1];
    }
  }

  /** In a sorted table a name occurs at most once. */
  lemma SortedNamesUnique(es: seq<Alias>, i: nat, j: nat)
    requires Sorted(es) && i < |es| && j < |es| && es[i].name == es[j].name
    ensures i == j
  {
    if i < j || j < i {
      LessIrreflexive(es[i].name);
    }
  }

  /** Putting `e` in front of a sorted `rest` keeps it sorted when `e` is
      below every entry of `rest`. */
  lemma ConsSorted(e: Alias, rest: seq<Alias>)
    requires Sorted(rest)
    requires forall x :: x in rest ==> Less(e.name, x.name)
    ensures Sorted([e] + rest)
  {
    var r := [e] + rest;
    forall i, j | 0 <= i < j < |r|
      ensures Less(r[i].name, r[j].name)
    {
      if i == 0 {
        assert r[j] == rest[j - 1] && r[j] in rest;
      } else {
        assert r[i] == rest[i - 1] && r[j] == rest[j - 1];
      }
    }
  }

  /** `e` goes in front when it is below the first entry. */
  lemma InsertFront(es: seq<Alias>, e: Alias)
    requires Sorted(es) && |es| > 0 && Less(e.name, es[0].name)
    ensures Sorted([e] + es)
  {
    forall x | x in es
      ensures Less(e.name, x.name)
    {
      var k :| 0 <= k < |es| && es[k] == x;
      if k > 0 {
        LessTransitive(e.name, es[0].name, x.name);
      }
    }
    ConsSorted(e, es);
  }

  /** The first entry stays in front of the insertion into the rest when it is
      below `e`. */
  lemma InsertBehind(es: seq<Alias>, e: Alias, rest: seq<Alias>)
    requires Sorted(es) && |es| > 0 && Less(es[0].name, e.name)
    requires Sorted(rest) && multiset(rest) == multiset(es[1..]) + multiset{e}
    ensures Sorted([es[0]] + rest)
    ensures multiset([es[0]] + rest) == multiset(es) + multiset{e}
  {
    forall x | x in rest
      ensures Less(es[0].name, x.name)
    {
      assert x in multiset(rest);
      if x != e {
        assert x in multiset(es[1..]);
        var k :| 0 <= k < |es| - 1 && es[1..][k] == x;
        assert es[k + 1] == x;
      }
    }
    ConsSorted(es[0], rest);
    assert es == [es[0]] + es[1..];
    assert multiset(es) == multiset{es[0]} + multiset(es[1..]);
  }

  lemma TailLacks(es: seq<Alias>, name: string)
    requires |es| > 0 && !HasName(es, name)
    ensures !HasName(es[1..], name)
  {
    forall k | 0 <= k < |es| - 1
      ensures es[1..][k].name != name
    {
      assert es[1..][k] == es[k + 1];
    }
  }

  /** The sorted insertion `qsort` performs on a sorted array plus one new
      entry at its end. */
  function InsertSorted(es: seq<Alias>, e: Alias): (r: seq<Alias>)
    requires Sorted(es) && !HasName(es, e.name)
    ensures Sorted(r)
    ensures multiset(r) == multiset(es) + multiset{e}
    decreases |es|
  {
    if |es| == 0 then [e]
    else if Less(e.name, es[0].name) then
      InsertFront(es, e);
      [e] + es
    else
      assert es[0].name != e.name;
      LessTotal(e.name, es[0].name);
      SortedTail(es);
      TailLacks(es, e.name);
      var rest := InsertSorted(es[1..], e);
      InsertBehind(es, e, rest);
      [es[0]] + rest
  }

  /** A sorted arrangement of a collection of entries is unique, so any
      sorting routine (here `qsort` with `alias_cmp`) yields `InsertSorted`'s
      result, and a removal that keeps the order is determined by what it
      removes. */
  lemma {:induction false} SortedUnique(a: seq<Alias>, b: seq<Alias>)
    requires Sorted(a) && Sorted(b) && multiset(a) == multiset(b)
    ensures a == b
    decreases |a|
  {
    assert |a| == |multiset(a)| == |multiset(b)| == |b|;
    if |a| > 0 {
      SameHead(a, b);
      SameTail(a, b);
      SortedTail(a);
      SortedTail(b);
      SortedUnique(a[1..], b[1..]);
    }
  }

  /** Two sorted arrangements of the same entries start with the same one. */
  lemma SameHead(a: seq<Alias>, b: seq<Alias>)
    requires Sorted(a) && Sorted(b) && multiset(a) == multiset(b) && |a| > 0 && |b| > 0
    ensures a[0] == b[0]
  {
    assert a[0] in multiset(b) && b[0] in multiset(a);
    var k :| 0 <= k < |b| && b[k] == a[0];
    var m :| 0 <= m < |a| && a[m] == b[0];
    if k > 0 && m > 0 {
      LessAsymmetric(a[0].name, b[0].name);
    }
  }

  /** Taking the same first entry off two arrangements of the same entries
      leaves arrangements of the same entries. */
  lemma SameTail(a: seq<Alias>, b: seq<Alias>)
    requires multiset(a) == multiset(b) && |a| > 0 && |b| > 0 && a[0] == b[0]
    ensures multiset(a[1..]) == multiset(b[1..])
  {
    assert a == [a[0]] + a[1..] && b == [b[0]] + b[1..];
    assert multiset(a) == multiset{a[0]} + multiset(a[1..]);
    assert multiset(b) == multiset{b[0]} + multiset(b[1..]);
    assert multiset(a[1..]) == multiset(a) - multiset{a[0]};
  }

  /** `find_alias(key)`: `bsearch` over the sorted entries, comparing with
      `strcmp(key, entry.original)`. */
  method FindAlias(es: seq<Alias>, key: string) returns (r: Option<Alias>)
    requires Sorted(es)
    ensures r.Some? <==> HasName(es, key)
    ensures r.Some? ==> r.value.name == key && r.value in es
    ensures r == Find(es, key)
  {
    var lo, hi := 0, |es|;
    while lo < hi
      invariant 0 <= lo <= hi <= |es|
      invariant forall k :: 0 <= k < lo ==> Less(es[k].name, key)
      invariant forall k :: hi <= k < |es| ==> Less(key, es[k].name)
    {
      var mid := (lo + hi) / 2;
      if es[mid].name == key {
        var i := IndexOf(es, key);
        SortedNamesUnique(es, i, mid);
        return Some(es[mid]);
      } else if Less(key, es[mid].name) {
        forall k | mid <= k < |es|
          ensures Less(key, es[k].name)
        {
          if k > mid {
            LessTransitive(key, es[mid].name, es[k].name);
          }
        }
        hi := mid;
      } else {
        LessTotal(key, es[mid].name);
        forall k | 0 <= k <= mid
          ensures Less(es[k].name, key)
        {
          if k < mid {
            LessTransitive(es[k].name, es[mid].name, key);
          }
        }
        lo := mid + 1;
      }
    }
    forall k | 0 <= k < |es|
      ensures es[k].name != key
    {
      LessIrreflexive(key);
    }
    return None;
  }

  /** What `add_alias` did: the new state and the entry it reports, if any. */
  datatype Added = Added(table: Table, entry: Option<Alias>)

  /** `add_alias(name, text)`. The text is split into the word buffer first;
      a full table or a name already present is then refused, leaving the
      entries alone but the words in the buffer. Otherwise the new entry takes
      every buffered word, the buffer empties, and the table is re-sorted. */
  function AddAlias(t: Table, name: string, text: string): (r: Added)
    requires Valid(t)
    ensures Valid(r.table)
    ensures |t.entries| == AliasLimit ==> r.entry == None && r.table.entries == t.entries
    ensures HasName(t.entries, name) ==> r.entry == None && r.table.entries == t.entries
    ensures r.entry == None ==> r.table.trans == t.trans + Translate.Words(text)
    ensures |t.entries| < AliasLimit && !HasName(t.entries, name) ==>
      && r.entry == Some(Alias(name, t.trans + Translate.Words(text)))
      && multiset(r.table.entries) == multiset(t.entries) + multiset{r.entry.value}
      && r.table.trans == []
  {
    var trans := Translate.ParseTranslated(text, t.trans);
    if |t.entries| == AliasLimit then Added(Table(t.entries, trans), None)
    else if HasName(t.entries, name) then Added(Table(t.entries, trans), None)
    else
      var e := Alias(name, trans);
      var es := InsertSorted(t.entries, e);
      assert |es| == |multiset(es)| == |t.entries| + 1;
      Added(Table(es, []), Some(e))
  }

  /** After a successful add the name is found with the buffered words plus
      the words of the text, and every other name is found as before. */
  lemma AddThenFind(t: Table, name: string, text: string, other: string)
    requires Valid(t) && |t.entries| < AliasLimit && !HasName(t.entries, name)
    ensures var es := AddAlias(t, name, text).table.entries;
      && Find(es, name) == Some(Alias(name, t.trans + Translate.Words(text)))
      && (other != name ==> Find(es, other) == Find(t.entries, other))
  {
    var r := AddAlias(t, name, text);
    var es := r.table.entries;
    var e := r.entry.value;
    assert e in multiset(es);
    var i := IndexOf(es, name);
    var k :| 0 <= k < |es| && es[k] == e;
    SortedNamesUnique(es, i, k);
    if other != name {
      FindInSuperset(t.entries, es, e, other);
    }
  }

  /** Every entry of `before` is an entry of `es`, and every entry of `es`
      other than `e` is an entry of `before`. */
  lemma SupersetNames(before: seq<Alias>, es: seq<Alias>, e: Alias, other: string)
    requires multiset(es) == multiset(before) + multiset{e}
    requires e.name != other
    ensures HasName(before, other) <==> HasName(es, other)
  {
    if HasName(before, other) {
      var j := IndexOf(before, other);
      assert before[j] in multiset(es);
    }
    if HasName(es, other) {
      var j := IndexOf(es, other);
      assert es[j] in multiset(es);
      assert es[j] in multiset(before);
    }
  }

  /** Adding an entry with a different name does not change what a sorted
      lookup of `other` finds. */
  lemma FindInSuperset(before: seq<Alias>, es: seq<Alias>, e: Alias, other: string)
    requires Sorted(before) && Sorted(es) && multiset(es) == multiset(before) + multiset{e}
    requires e.name != other
    ensures Find(es, other) == Find(before, other)
  {
    SupersetNames(before, es, e, other);
    if HasName(before, other) {
      var j := IndexOf(before, other);
      assert before[j] in multiset(es);
      var k :| 0 <= k < |es| && es[k] == before[j];
      SortedNamesUnique(es, IndexOf(es, other), k);
    }
  }

  /** What `remove_alias` did: the new state and whether the name was found. */
  datatype Removed = Removed(table: Table, found: bool)

  /** `remove_alias(name)`: an absent name is reported and nothing changes;
      otherwise `adjust_aliases` closes the gap and the count drops by one. */
  function RemoveAlias(t: Table, name: string): (r: Removed)
    requires Valid(t)
    ensures !HasName(t.entries, name) ==> r == Removed(t, false)
    ensures HasName(t.entries, name) ==>
      && r.found
      && Valid(r.table)
      && r.table.trans == t.trans
      && |r.table.entries| == |t.entries| - 1
      && !HasName(r.table.entries, name)
      && multiset(r.table.entries) + multiset{Find(t.entries, name).value} == multiset(t.entries)
  {
    var i := IndexOf(t.entries, name);
    if i == -1 then Removed(t, false)
    else
      var es := Without(t.entries, i);
      WithoutContents(t.entries, i);
      assert Sorted(es) by {
        forall a, b | 0 <= a < b < |es|
          ensures Less(es[a].name, es[b].name)
        {
          var a' := if a < i then a else a + 1;
          var b' := if b < i then b else b + 1;
          assert es[a] == t.entries[a'] && es[b] == t.entries[b'];
        }
      }
      assert !HasName(es, name) by {
        forall k | 0 <= k < |es|
          ensures es[k].name != name
        {
          var k' := if k < i then k else k + 1;
          assert es[k] == t.entries[k'];
        }
      }
      Removed(Table(es, t.trans), true)
  }

  /** Removing a name leaves every other name's lookup as it was. */
  lemma RemoveKeepsOthers(t: Table, name: string, other: string)
    requires Valid(t) && other != name
    ensures Find(RemoveAlias(t, name).table.entries, other) == Find(t.entries, other)
  {
    if HasName(t.entries, name) {
      var r := RemoveAlias(t, name);
      FindInSuperset(r.table.entries, t.entries, Find(t.entries, name).value, other);
    }
  }

  /** Adding a new name and then removing it restores the entries exactly. */
  lemma AddThenRemove(t: Table, name: string, text: string)
    requires Valid(t) && |t.entries| < AliasLimit && !HasName(t.entries, name)
    ensures RemoveAlias(AddAlias(t, name, text).table, name).table.entries == t.entries
  {
    var added := AddAlias(t, name, text);
    var e := Alias(name, t.trans + Translate.Words(text));
    assert added.entry == Some(e);
    var es := added.table.entries;
    assert Valid(added.table);
    assert multiset(es) == multiset(t.entries) + multiset{e};
    AddThenFind(t, name, text, name);
    assert HasName(es, name) && Find(es, name) == Some(e);
    var r := RemoveAlias(added.table, name).table.entries;
    assert Sorted(r);
    assert multiset(r) + multiset{e} == multiset(es);
    assert multiset(r) == multiset(es) - multiset{e};
    assert multiset(r) == multiset(t.entries);
    SortedUnique(r, t.entries);
  }

  /** `add_alias` returns `&alias_arr[n_aliases]` after the `qsort`: the slot
      at the old count, which holds the entry with the greatest name, not
      necessarily the one just added. */
  function AddedSlotAsWritten(t: Table, name: string, text: string): (r: Option<Alias>)
    requires Valid(t)
    ensures r.Some? ==> r.value in AddAlias(t, name, text).table.entries
  {
    var added := AddAlias(t, name, text);
    if added.entry.None? then None
    else
      assert |added.table.entries| == |multiset(added.table.entries)| == |t.entries| + 1;
      Some(added.table.entries[|t.entries|])
  }

  /** The slot `add_alias` reports after a successful add holds the entry
      whose name is greatest in the new table. */
  lemma AddedSlotIsGreatest(t: Table, name: string, text: string)
    requires Valid(t) && |t.entries| < AliasLimit && !HasName(t.entries, name)
    ensures var es := AddAlias(t, name, text).table.entries;
      var slot := AddedSlotAsWritten(t, name, text);
      && slot.Some?
      && (forall x :: x in es && x != slot.value ==> Less(x.name, slot.value.name))
  {
    var es := AddAlias(t, name, text).table.entries;
    var slot := AddedSlotAsWritten(t, name, text);
    assert |es| == |multiset(es)| == |t.entries| + 1;
    assert slot == Some(es[|es| - 1]);
    forall x | x in es && x != slot.value
      ensures Less(x.name, slot.value.name)
    {
      var k :| 0 <= k < |es| && es[k] == x;
    }
  }

  /** The reported slot holds the new entry exactly when its name is greater
      than every name already present; adding any other name reports a
      different alias. */
  lemma AddedSlotIsNewEntryIff(t: Table, name: string, text: string)
    requires Valid(t) && |t.entries| < AliasLimit && !HasName(t.entries, name)
    ensures AddedSlotAsWritten(t, name, text) == AddAlias(t, name, text).entry
      <==> forall x :: x in t.entries ==> Less(x.name, name)
  {
    var added := AddAlias(t, name, text);
    var e := added.entry.value;
    var es := added.table.entries;
    AddedSlotIsGreatest(t, name, text);
    var slot := AddedSlotAsWritten(t, name, text).value;
    if slot == e {
      forall x | x in t.entries
        ensures Less(x.name, name)
      {
        assert x in multiset(es);
      }
    }
    if forall x :: x in t.entries ==> Less(x.name, name) {
      assert slot in multiset(t.entries) + multiset{e};
      assert e in multiset(es);
      if slot != e {
        assert slot in t.entries && e in es;
        LessAsymmetric(e.name, slot.name);
      }
    }
  }

  /** Adding "a" to a table holding only "b" reports the entry of "b". */
  lemma AddedSlotExample()
    ensures var t := Table([Alias("b", ["x"])], []);
      AddedSlotAsWritten(t, "a", "y") != AddAlias(t, "a", "y").entry
  {
    var b := Alias("b", ["x"]);
    var t := Table([b], []);
    assert !HasName(t.entries, "a");
    assert b in t.entries && !Less("b", "a");
    AddedSlotIsNewEntryIff(t, "a", "y");
  }

  /** A refused add leaves its words in the buffer, and the next successful
      add stores them in front of its own words. */
  lemma RefusedAddLeaksWords(t: Table, name: string, text: string, next: string, nextText: string)
    requires Valid(t) && HasName(t.entries, name)
    requires |t.entries| < AliasLimit && !HasName(t.entries, next)
    ensures var t1 := AddAlias(t, name, text).table;
      AddAlias(t1, next, nextText).entry
        == Some(Alias(next, t.trans + Translate.Words(text) + Translate.Words(nextText)))
  {
  }

  /** `alias ll "ls -l"` into an empty table, then lookup and removal. */
  lemma AddFindRemoveExample()
    ensures var t := AddAlias(Table([], []), "ll", "ls -l").table;
      && Find(t.entries, "ll") == Some(Alias("ll", ["ls", "-l"]))
      && Find(RemoveAlias(t, "ll").table.entries, "ll") == None
  {
    var t0 := Table([], []);
    Translate.ParseExample();
    AddThenFind(t0, "ll", "ls -l", "ll");
  }
}
