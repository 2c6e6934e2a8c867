/** What the two alias tables (lib/alias.c and its earlier, unsorted variant
    src/alias_test/alias.c) share: the entry record, a linear first-match
    search, and the order-preserving compaction `adjust_aliases`. */
module AliasCore {
  import opened Common

  /** `struct alias`: the name (`original`) and its replacement words
      (`translated`, whose length is `n_cmds`). */
  datatype Alias = Alias(name: string, tokens: seq<string>)

  predicate HasName(es: seq<Alias>, name: string) {
    exists i :: 0 <= i < |es| && es[i].name == name
  }

  function Names(es: seq<Alias>): (ns: seq<string>)
    ensures |ns| == |es|
    ensures forall i :: 0 <= i < |es| ==> ns[i] == es[i].name
  {
    seq(|es|, i requires 0 <= i < |es| => es[i].name)
  }

  /** The index of the first entry named `name`, or -1. */
  function IndexOf(es: seq<Alias>, name: string): (i: int)
    ensures -1 <= i < |es|
    ensures i == -1 <==> !HasName(es, name)
    ensures i >= 0 ==> es[i].name == name && forall j :: 0 <= j < i ==> es[j].name != name
    decreases |es|
  {
    if |es| == 0 then -1
    else if es[0].name == name then 0
    else
      var k := IndexOf(es[1..], name);
      if k == -1 then
        assert forall j :: 1 <= j < |es| ==> es[j] == es[1..][j - 1];
        -1
      else k + 1
  }

  /** Linear search by name, first match in array order, as `find_alias`
      does in src/alias_test/alias.c. */
  function Find(es: seq<Alias>, name: string): (r: Option<Alias>)
    ensures r.Some? <==> HasName(es, name)
    ensures r.Some? ==> r.value.name == name && r.value in es
  {
    var i := IndexOf(es, name);
    if i == -1 then None else Some(es[i])
  }

  /** The entries with the one at index `i` taken out, the others kept in order. */
  function Without(es: seq<Alias>, i: nat): seq<Alias>
    requires i < |es|
  {
    es[..i] + es[i + 1..]
  }

  /** `adjust_aliases(found)`: every entry after `found` is copied one slot
      down, in increasing order, and the last slot is released. */
  method AdjustAliases(es: seq<Alias>, i: nat) returns (r: seq<Alias>)
    requires i < |es|
    ensures |r| == |es| - 1
    ensures r[..i] == es[..i]
    ensures forall j :: i <= j < |r| ==> r[j] == es[j + 1]
    ensures r == Without(es, i)
  {
    r := es;
    var j := i;
    while j < |es| - 1
      invariant i <= j <= |es| - 1 && |r| == |es|
      invariant forall k :: 0 <= k < i ==> r[k] == es[k]
      invariant forall k :: i <= k < j ==> r[k] == es[k + 1]
      invariant forall k :: j <= k < |es| ==> r[k] == es[k]
    {
      r := r[j := r[j + 1]];
      j := j + 1;
    }
    ShiftedDown(es, i, r);
    r := r[..|es| - 1];
  }

  /** After the copy loop, the first `|es| - 1` slots hold `es` without its
      entry at `i`. */
  lemma ShiftedDown(es: seq<Alias>, i: nat, r: seq<Alias>)
    requires i < |es| && |r| == |es|
    requires forall k :: 0 <= k < i ==> r[k] == es[k]
    requires forall k :: i <= k < |es| - 1 ==> r[k] == es[k + 1]
    ensures r[..|es| - 1] == Without(es, i)
  {
    var w := Without(es, i);
    assert |w| == |es| - 1;
    forall k | 0 <= k < |es| - 1
      ensures r[k] == w[k]
    {
      if k < i {
        assert w[k] == es[k];
      } else {
        assert w[k] == es[k + 1];
      }
    }
    assert r[..|es| - 1] == w;
  }

  /** Taking out the entry at `i` leaves exactly the other entries. */
  lemma WithoutContents(es: seq<Alias>, i: nat)
    requires i < |es|
    ensures multiset(Without(es, i)) + multiset{es[i]} == multiset(es)
    ensures forall x :: x in es && x != es[i] ==> x in Without(es, i)
  {
    assert es == es[..i] + [es[i]] + es[i + 1..];
  }
}
