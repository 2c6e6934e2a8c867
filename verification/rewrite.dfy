/** The command rewriting of src/shell.c: the alias commands (`alias`,
    `unalias`, `show aliases`), the single first-match alias expansion, and
    the `$ NAME` environment substitution. The command list is the `n_cmds`
    live strings of `cmds`; the environment is a map from names to values. */
module Rewrite {
  import opened Common
  import opened AliasCore
  import AliasTable
  import StringModule

  /** A status together with the command list it leaves. */
  datatype Rewritten = Rewritten(status: Status, cmds: seq<string>)

  /** The first index at or after `from` whose token names an alias, or -1. */
  function FirstAlias(es: seq<Alias>, cmds: seq<string>, from: nat): (i: int)
    requires from <= |cmds|
    ensures i == -1 <==> forall j :: from <= j < |cmds| ==> !HasName(es, cmds[j])
    ensures i != -1 ==>
      && from <= i < |cmds|
      && HasName(es, cmds[i])
      && forall j :: from <= j < i ==> !HasName(es, cmds[j])
    decreases |cmds| - from
  {
    if from == |cmds| then -1
    else if HasName(es, cmds[from]) then from
    else FirstAlias(es, cmds, from + 1)
  }

  /** `check_for_alias`: the lowest-index token that names an alias is
      replaced by that alias's words through `move_strings_down` and
      `add_strings`, and the scan stops there, so the inserted words are not
      themselves expanded. No alias name among the tokens: FAILURE, no change. */
  function CheckForAlias(es: seq<Alias>, cmds: seq<string>): (r: Rewritten)
    ensures r.status == Failure <==> forall j :: 0 <= j < |cmds| ==> !HasName(es, cmds[j])
    ensures r.status == Failure ==> r.cmds == cmds
    ensures forall i :: 0 <= i < |cmds| && HasName(es, cmds[i]) && (forall j :: 0 <= j < i ==> !HasName(es, cmds[j])) ==>
      r == Rewritten(Success, cmds[..i] + Find(es, cmds[i]).value.tokens + cmds[i + 1..])
  {
    var i := FirstAlias(es, cmds, 0);
    if i == -1 then Rewritten(Failure, cmds)
    else
      FirstAliasUnique(es, cmds, i);
      var ws := Find(es, cmds[i]).value.tokens;
      Rewritten(Success, cmds[..i] + ws + cmds[i + 1..])
  }

  /** Only one index names an alias with no alias name before it. */
  lemma FirstAliasUnique(es: seq<Alias>, cmds: seq<string>, i: nat)
    requires i < |cmds| && HasName(es, cmds[i]) && forall j :: 0 <= j < i ==> !HasName(es, cmds[j])
    ensures forall k :: 0 <= k < |cmds| && HasName(es, cmds[k]) && (forall j :: 0 <= j < k ==> !HasName(es, cmds[j])) ==> k == i
  {
  }

  /** The expansion is exactly what `move_strings_down` followed by
      `add_strings` make of the argument array. */
  lemma CheckForAliasIsSplice(es: seq<Alias>, cmds: seq<string>)
    requires CheckForAlias(es, cmds).status == Success
    ensures var i := FirstAlias(es, cmds, 0);
      && 0 <= i < |cmds|
      && var ws := Find(es, cmds[i]).value.tokens;
      Lift(CheckForAlias(es, cmds).cmds)
        == StringModule.AddStrings(StringModule.MoveStringsDown(Lift(cmds), |ws|, i), ws, i, |ws|)
  {
    var i := FirstAlias(es, cmds, 0);
    assert i != -1;
    var ws := Find(es, cmds[i]).value.tokens;
    assert CheckForAlias(es, cmds) == Rewritten(Success, cmds[..i] + ws + cmds[i + 1..]);
    assert ws[..|ws|] == ws;
    StringModule.SpliceReplacesOne(cmds, ws, i, |ws|);
  }

  /** An alias whose words begin with its own name ("ls" for "ls -F") is
      expanded once, not again and again. */
  lemma NoReexpansion()
    ensures var es := [Alias("ls", ["ls", "-F"])];
      CheckForAlias(es, ["ls", "x"]) == Rewritten(Success, ["ls", "-F", "x"])
  {
    var es := [Alias("ls", ["ls", "-F"])];
    var cmds := ["ls", "x"];
    assert es[0].name == cmds[0];
    assert FirstAlias(es, cmds, 0) == 0;
    assert Find(es, "ls") == Some(es[0]);
    assert cmds[..0] + ["ls", "-F"] + cmds[1..] == ["ls", "-F", "x"];
  }

  /** Expansion grows the list by the alias's word count less one and leaves
      every token before the expanded one in place. */
  lemma CheckForAliasLength(es: seq<Alias>, cmds: seq<string>)
    ensures var r := CheckForAlias(es, cmds);
      r.status == Success ==> exists i, a ::
        && 0 <= i < |cmds| && a in es && a.name == cmds[i]
        && |r.cmds| == |cmds| + |a.tokens| - 1
        && r.cmds[..i] == cmds[..i]
  {
    var r := CheckForAlias(es, cmds);
    if r.status == Success {
      var i := FirstAlias(es, cmds, 0);
      var a := Find(es, cmds[i]).value;
      var out := cmds[..i] + a.tokens + cmds[i + 1..];
      assert r == Rewritten(Success, out);
      assert |out| == |cmds| + |a.tokens| - 1;
      assert out[..i] == cmds[..i];
      assert a in es && a.name == cmds[i];
    }
  }

  /** What `handle_aliases` leaves: its status, the alias table, the commands. */
  datatype Handled = Handled(status: Status, table: AliasTable.Table, cmds: seq<string>)

  /** `handle_aliases`, given the non-empty command list `process_commands`
      passes on. `alias NAME = TEXT` adds (word 2 is not inspected),
      `unalias NAME` removes, exactly `show aliases` only prints, and any
      other command goes through alias expansion. Too few words for `alias`
      or `unalias` is the only FAILURE; a refused add or unknown name still
      reports SUCCESS. */
  function HandleAliases(t: AliasTable.Table, cmds: seq<string>): (r: Handled)
    requires AliasTable.Valid(t) && |cmds| > 0
    ensures AliasTable.Valid(r.table)
    ensures r.status == Failure <==>
      (cmds[0] == "alias" && |cmds| < 4) || (cmds[0] == "unalias" && |cmds| < 2)
    ensures r.status == Failure ==> r.table == t && r.cmds == cmds
    ensures cmds[0] == "alias" && |cmds| >= 4 ==>
      r.table == AliasTable.AddAlias(t, cmds[1], cmds[3]).table && r.cmds == cmds
    ensures cmds[0] == "unalias" && |cmds| >= 2 ==>
      r.table == AliasTable.RemoveAlias(t, cmds[1]).table && r.cmds == cmds
    ensures cmds == ["show", "aliases"] ==> r == Handled(Success, t, cmds)
    ensures cmds[0] != "alias" && cmds[0] != "unalias" && cmds != ["show", "aliases"] ==>
      r == Handled(Success, t, CheckForAlias(t.entries, cmds).cmds)
  {
    if cmds[0] == "alias" then
      if |cmds| < 4 then Handled(Failure, t, cmds)
      else Handled(Success, AliasTable.AddAlias(t, cmds[1], cmds[3]).table, cmds)
    else if cmds[0] == "unalias" then
      if |cmds| < 2 then Handled(Failure, t, cmds)
      else Handled(Success, AliasTable.RemoveAlias(t, cmds[1]).table, cmds)
    else if |cmds| == 2 && cmds[0] == "show" && cmds[1] == "aliases" then
      Handled(Success, t, cmds)
    else
      Handled(Success, t, CheckForAlias(t.entries, cmds).cmds)
  }

  /** `show aliases` with a third word is not the print command: the words go
      through alias expansion instead. */
  lemma ShowAliasesNeedsTwoWords(t: AliasTable.Table, extra: string)
    requires AliasTable.Valid(t)
    ensures var cmds := ["show", "aliases", extra];
      HandleAliases(t, cmds).cmds == CheckForAlias(t.entries, cmds).cmds
  {
    var cmds := ["show", "aliases", extra];
    assert cmds != ["show", "aliases"];
  }

  /** The token list `alias`, `ll`, `=`, `ls -l` (the replacement text as
      one token) followed by `ll`, `/tmp` leaves `ls`, `-l`, `/tmp`. */
  lemma AliasThenUse()
    ensures var t0 := AliasTable.Table([], []);
      var t1 := HandleAliases(t0, ["alias", "ll", "=", "ls -l"]).table;
      HandleAliases(t1, ["ll", "/tmp"]).cmds == ["ls", "-l", "/tmp"]
  {
    var t0 := AliasTable.Table([], []);
    var t1 := HandleAliases(t0, ["alias", "ll", "=", "ls -l"]).table;
    assert Find(t1.entries, "ll") == Some(Alias("ll", ["ls", "-l"])) by {
      AliasTable.AddFindRemoveExample();
      assert t1 == AliasTable.AddAlias(t0, "ll", "ls -l").table;
    }
    var cmds := ["ll", "/tmp"];
    assert HasName(t1.entries, "ll");
    assert FirstAlias(t1.entries, cmds, 0) == 0;
    assert cmds[..0] + ["ls", "-l"] + cmds[1..] == ["ls", "-l", "/tmp"];
  }

  /** `convert_env_var(index)`: the word after the `$` at `index` is looked
      up; when it is defined, the value takes its place and every later word
      moves one slot down over the `$`. When the `$` is the last word the
      lookup would be of NULL; this is taken as undefined. */
  method ConvertEnvVar(env: map<string, string>, cmds: seq<string>, index: nat)
    returns (st: Status, r: seq<string>)
    requires index < |cmds|
    ensures st == Failure <==> index + 1 == |cmds| || cmds[index + 1] !in env
    ensures st == Failure ==> r == cmds
    ensures st == Success ==>
      && |r| == |cmds| - 1
      && r[..index] == cmds[..index]
      && r[index] == env[cmds[index + 1]]
      && r[index + 1..] == cmds[index + 2..]
  {
    if index + 1 == |cmds| || cmds[index + 1] !in env {
      return Failure, cmds;
    }
    var placed := cmds[index + 1 := env[cmds[index + 1]]];
    r := placed;
    var i := index;
    while i < |r| - 1
      invariant index <= i <= |r| - 1 && |r| == |cmds|
      invariant forall k :: 0 <= k < index ==> r[k] == cmds[k]
      invariant forall k :: index <= k < i ==> r[k] == placed[k + 1]
      invariant forall k :: i <= k < |r| ==> r[k] == placed[k]
    {
      r := r[i := r[i + 1]];
      i := i + 1;
    }
    r := r[..|r| - 1];
    st := Success;
  }

  /** The command list `handle_env_vars` produces, scanning from `c`: at a
      `$` whose following word is defined the two words become the value and
      the same position is examined again; otherwise the scan moves on. */
  function Subst(env: map<string, string>, cmds: seq<string>, c: nat): (r: seq<string>)
    requires c <= |cmds|
    ensures c <= |r| <= |cmds|
    ensures r[..c] == cmds[..c]
    decreases |cmds| - c
  {
    if c == |cmds| then cmds
    else if cmds[c] == "$" && c + 1 < |cmds| && cmds[c + 1] in env then
      var next := cmds[..c] + [env[cmds[c + 1]]] + cmds[c + 2..];
      assert next[..c] == cmds[..c];
      Subst(env, next, c)
    else
      Subst(env, cmds, c + 1)
  }

  /** `handle_env_vars`: every position is examined and a successful
      conversion steps the counter back, so the replacement value is examined
      again. Each round either advances the counter or shortens the list,
      which bounds the loop. */
  method HandleEnvVars(env: map<string, string>, cmds: seq<string>) returns (st: Status, r: seq<string>)
    ensures st == Success
    ensures r == Subst(env, cmds, 0)
  {
    r := cmds;
    var counter := 0;
    while counter < |r|
      invariant counter <= |r|
      invariant Subst(env, r, counter) == Subst(env, cmds, 0)
      decreases |r| - counter
    {
      if r[counter] == "$" {
        var ok, next := ConvertEnvVar(env, r, counter);
        if ok == Success {
          assert next == r[..counter] + [env[r[counter + 1]]] + r[counter + 2..];
          r := next;
          continue;
        }
      }
      counter := counter + 1;
    }
    st := Success;
  }

  /** Without a `$` word the scan changes nothing. */
  lemma {:induction false} SubstNoDollar(env: map<string, string>, cmds: seq<string>, c: nat)
    requires c <= |cmds| && forall j :: c <= j < |cmds| ==> cmds[j] != "$"
    ensures Subst(env, cmds, c) == cmds
    decreases |cmds| - c
  {
    if c < |cmds| {
      SubstNoDollar(env, cmds, c + 1);
    }
  }

  /** A single `$ NAME` with a defined name whose value is not itself `$`
      becomes that value, the rest kept. */
  lemma SubstOne(env: map<string, string>, pre: seq<string>, name: string, post: seq<string>)
    requires name in env && env[name] != "$"
    requires forall j :: 0 <= j < |pre| ==> pre[j] != "$"
    requires forall j :: 0 <= j < |post| ==> post[j] != "$"
    ensures Subst(env, pre + ["$", name] + post, 0) == pre + [env[name]] + post
  {
    var cmds := pre + ["$", name] + post;
    var c := |pre|;
    SubstPrefix(env, cmds, 0, c);
    assert cmds[..c] == pre && cmds[c + 2..] == post && cmds[c] == "$" && cmds[c + 1] == name;
    var next := pre + [env[name]] + post;
    SubstStep(env, cmds, c, next);
    forall j | c <= j < |next|
      ensures next[j] != "$"
    {
      if j > c {
        assert next[j] == post[j - c - 1];
      }
    }
    SubstNoDollar(env, next, c);
  }

  /** A defined `$ NAME` at `c` is replaced and `c` examined again. */
  lemma SubstStep(env: map<string, string>, cmds: seq<string>, c: nat, next: seq<string>)
    requires c + 1 < |cmds| && cmds[c] == "$" && cmds[c + 1] in env
    requires next == cmds[..c] + [env[cmds[c + 1]]] + cmds[c + 2..]
    ensures Subst(env, cmds, c) == Subst(env, next, c)
  {
  }

  /** Positions without a `$` are passed over. */
  lemma {:induction false} SubstPrefix(env: map<string, string>, cmds: seq<string>, c: nat, d: nat)
    requires c <= d <= |cmds| && forall j :: c <= j < d ==> cmds[j] != "$"
    ensures Subst(env, cmds, c) == Subst(env, cmds, d)
    decreases d - c
  {
    if c < d {
      SubstPrefix(env, cmds, c + 1, d);
    }
  }

  /** The scan never looks back: started at the first word of `q`, it leaves
      `p` as it is and treats `q` as if it were the whole list. */
  lemma {:induction false} SubstShift(env: map<string, string>, p: seq<string>, q: seq<string>, d: nat)
    requires d <= |q|
    ensures Subst(env, p + q, |p| + d) == p + Subst(env, q, d)
    decreases |q| - d
  {
    var c := |p| + d;
    var cmds := p + q;
    if d < |q| {
      assert cmds[c] == q[d];
      if q[d] == "$" && d + 1 < |q| && q[d + 1] in env {
        var v := env[q[d + 1]];
        var nq := q[..d] + [v] + q[d + 2..];
        ReplaceInSuffix(p, q, d, v);
        SubstStep(env, cmds, c, p + nq);
        SubstStep(env, q, d, nq);
        SubstShift(env, p, nq, d);
      } else {
        SubstSkip(env, cmds, c);
        SubstSkip(env, q, d);
        SubstShift(env, p, q, d + 1);
      }
    }
  }

  /** Substituting in `p + q` is substituting in `p`, from `c` on, and
      then in `q`, unless what `p` becomes ends in a `$` that could take the
      first word of `q` as its name. */
  lemma {:induction false} SubstAppendFrom(env: map<string, string>, p: seq<string>, q: seq<string>, c: nat)
    requires c <= |p|
    ensures !EndsInDollar(Subst(env, p, c)) ==> Subst(env, p + q, c) == Subst(env, p, c) + Subst(env, q, 0)
    decreases |p| - c
  {
    var cmds := p + q;
    if c == |p| {
      SubstShift(env, p, q, 0);
    } else {
      assert cmds[c] == p[c];
      if p[c] == "$" && c + 1 < |p| && p[c + 1] in env {
        var v := env[p[c + 1]];
        var np := p[..c] + [v] + p[c + 2..];
        ReplaceInPrefix(p, q, c, v);
        SubstStep(env, cmds, c, np + q);
        SubstStep(env, p, c, np);
        SubstAppendFrom(env, np, q, c);
      } else if p[c] == "$" && c + 1 == |p| {
        SubstSkip(env, p, c);
        assert Subst(env, p, c + 1) == p;
        assert EndsInDollar(Subst(env, p, c));
      } else {
        SubstSkip(env, cmds, c);
        SubstSkip(env, p, c);
        SubstAppendFrom(env, p, q, c + 1);
      }
    }
  }

  /** The last word of `ws` is a `$`. */
  predicate EndsInDollar(ws: seq<string>) {
    |ws| > 0 && ws[|ws| - 1] == "$"
  }

  /** A position that holds no defined `$ NAME` is passed over. */
  lemma SubstSkip(env: map<string, string>, cmds: seq<string>, c: nat)
    requires c < |cmds| && !(cmds[c] == "$" && c + 1 < |cmds| && cmds[c + 1] in env)
    ensures Subst(env, cmds, c) == Subst(env, cmds, c + 1)
  {
  }

  lemma ReplaceInSuffix(p: seq<string>, q: seq<string>, d: nat, v: string)
    requires d + 1 < |q|
    ensures var cmds := p + q;
      && cmds[|p| + d] == q[d] && cmds[|p| + d + 1] == q[d + 1]
      && cmds[..|p| + d] + [v] + cmds[|p| + d + 2..] == p + (q[..d] + [v] + q[d + 2..])
  {
    var cmds := p + q;
    assert cmds[..|p| + d] == p + q[..d];
    assert cmds[|p| + d + 2..] == q[d + 2..];
  }

  lemma ReplaceInPrefix(p: seq<string>, q: seq<string>, c: nat, v: string)
    requires c + 1 < |p|
    ensures var cmds := p + q;
      && cmds[c] == p[c] && cmds[c + 1] == p[c + 1]
      && cmds[..c] + [v] + cmds[c + 2..] == (p[..c] + [v] + p[c + 2..]) + q
  {
    var cmds := p + q;
    assert cmds[..c] == p[..c];
    assert cmds[c + 2..] == p[c + 2..] + q;
  }

  /** The pass splits over any cut after which the first part does not end
      in `$`. */
  lemma {:induction false} SubstAppend(env: map<string, string>, p: seq<string>, q: seq<string>)
    ensures !EndsInDollar(Subst(env, p, 0)) ==> Subst(env, p + q, 0) == Subst(env, p, 0) + Subst(env, q, 0)
  {
    SubstAppendFrom(env, p, q, 0);
  }

  /** Words already passed are not examined again: with X set to "Y" and Y
      to "v", `$ $ X` becomes `$ Y`, although `Y` is defined. */
  lemma SubstNoLookBack()
    ensures Subst(map["X" := "Y", "Y" := "v"], ["$", "$", "X"], 0) == ["$", "Y"]
  {
    var env := map["X" := "Y", "Y" := "v"];
    var c0 := ["$", "$", "X"];
    assert Subst(env, c0, 0) == Subst(env, c0, 1);
    var c1 := c0[..1] + [env["X"]] + c0[3..];
    assert c1 == ["$", "Y"];
    assert Subst(env, c0, 1) == Subst(env, c1, 1);
    assert Subst(env, c1, 1) == Subst(env, c1, 2);
  }

  /** `echo $ HOME` with HOME set to /root becomes `echo /root`. */
  lemma SubstExample()
    ensures Subst(map["HOME" := "/root"], ["echo", "$", "HOME"], 0) == ["echo", "/root"]
  {
    SubstOne(map["HOME" := "/root"], ["echo"], "HOME", []);
    assert ["echo"] + ["$", "HOME"] + [] == ["echo", "$", "HOME"];
  }

  /** A value that is itself `$` is examined again and consumes the next
      word: with X set to "$" and Y to "v", `$ X Y` becomes `v`. */
  lemma SubstRescans()
    ensures Subst(map["X" := "$", "Y" := "v"], ["$", "X", "Y"], 0) == ["v"]
  {
    var env := map["X" := "$", "Y" := "v"];
    var c0 := ["$", "X", "Y"];
    var c1 := c0[..0] + [env["X"]] + c0[2..];
    assert c1 == ["$", "Y"];
    var c2 := c1[..0] + [env["Y"]] + c1[2..];
    assert c2 == ["v"];
    assert Subst(env, c0, 0) == Subst(env, c1, 0);
    assert Subst(env, c1, 0) == Subst(env, c2, 0);
    SubstNoDollar(env, c2, 0);
  }
}
