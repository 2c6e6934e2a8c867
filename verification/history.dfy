/** The command history of lib/command_history.c: at most `CMD_LIMIT`
    snapshots, each a NULL-terminated copy of one command line built with
    `add_string`, which consumes the strings it copies. */
module History {
  import opened Common
  import StringModule

  /** `CMD_LIMIT` (lib/command_history.h:23). */
  const CmdLimit: nat := 100

  /** One `cmd_history` record: the initialised part of its array and its
      `n_cmds`. */
  datatype Entry = Entry(arr: seq<Option<string>>, count: nat)

  /** The strings of the non-NULL slots of `xs`, in order. */
  function Somes(xs: seq<Option<string>>): (ws: seq<string>)
    ensures |ws| <= |xs|
    decreases |xs|
  {
    if |xs| == 0 then []
    else
      var init := Somes(xs[..|xs| - 1]);
      match xs[|xs| - 1]
      case None => init
      case Some(w) => init + [w]
  }

  /** Every string of a fully non-NULL array is kept. */
  lemma {:induction false} SomesOfLift(ws: seq<string>)
    ensures Somes(Lift(ws)) == ws
    decreases |ws|
  {
    if |ws| > 0 {
      var init := ws[..|ws| - 1];
      assert Lift(ws)[..|ws| - 1] == Lift(init);
      SomesOfLift(init);
      assert init + [ws[|ws| - 1]] == ws;
    }
  }

  /** The array an entry built from the strings `ws` holds: nothing was
      written when there were none, otherwise the strings and a NULL. */
  function Built(ws: seq<string>): seq<Option<string>> {
    if |ws| == 0 then [] else StringModule.Argv(ws)
  }

  /** `add_cmds_to_history(cmds, n_cmds)`. A full history is refused with no
      change. Otherwise a new last entry receives the non-NULL strings in
      order, each taken from `cmds`, which is all NULL afterwards; earlier
      entries are untouched. */
  method AddCmdsToHistory(hist: seq<Entry>, cmds: seq<Option<string>>)
    returns (st: Status, hist': seq<Entry>, cmds': seq<Option<string>>)
    requires |hist| <= CmdLimit
    ensures |hist| == CmdLimit ==> st == Failure && hist' == hist && cmds' == cmds
    ensures |hist| < CmdLimit ==>
      && st == Success
      && |hist'| == |hist| + 1
      && hist'[..|hist|] == hist
      && hist'[|hist|] == Entry(Built(Somes(cmds)), |Somes(cmds)|)
      && |cmds'| == |cmds|
      && forall i :: 0 <= i < |cmds'| ==> cmds'[i] == None
  {
    if |hist| == CmdLimit {
      return Failure, hist, cmds;
    }
    var arr: seq<Option<string>> := [];
    var count := 0;
    cmds' := cmds;
    var ctr := 0;
    while ctr != |cmds|
      invariant 0 <= ctr <= |cmds| && |cmds'| == |cmds|
      invariant count == |Somes(cmds[..ctr])| <= |arr|
      invariant arr == Built(Somes(cmds[..ctr]))
      invariant forall i :: 0 <= i < ctr ==> cmds'[i] == None
      invariant forall i :: ctr <= i < |cmds| ==> cmds'[i] == cmds[i]
    {
      var a := StringModule.AddString(cmds'[ctr], arr, count);
      assert cmds[..ctr + 1][..ctr] == cmds[..ctr];
      if cmds[ctr].Some? {
        assert a.arr == Built(Somes(cmds[..ctr]) + [cmds[ctr].value]);
      }
      arr, count := a.arr, a.count;
      cmds' := cmds'[ctr := a.pending];
      ctr := ctr + 1;
    }
    assert cmds[..ctr] == cmds;
    hist' := hist + [Entry(arr, count)];
    st := Success;
  }

  /** A command line of plain strings is stored whole, NULL-terminated. */
  lemma EntryOfLine(ws: seq<string>)
    requires |ws| > 0
    ensures Entry(Built(Somes(Lift(ws))), |Somes(Lift(ws))|) == Entry(StringModule.Argv(ws), |ws|)
  {
    SomesOfLift(ws);
  }
}
