/** The token-position logic of lib/execution.c: counting pipes, locating a
    redirection operator and its file name, ending the argument vector at the
    operator, walking the segments of a pipeline, and the descriptor rule of
    `generate_process`. Processes, `pipe`, `open` and `execvp` are not run:
    what would be started is returned as data. `find_string` is not part of
    this model; it is taken to return the first index of its window whose
    string equals the key, or -1. */
module Execution {
  import opened Common
  import StringModule

  /** The descriptors the shell hands out. `Stdin`/`Stdout` are 0 and 1;
      pipes are numbered by the loop iteration that created them. */
  datatype Fd = Stdin | Stdout | InFile(path: string) | OutFile(path: string)
              | PipeRead(k: nat) | PipeWrite(k: nat)

  /** A program started with the argument array `argv` (read by `execvp` up
      to its first NULL) and the given standard input and output. */
  datatype Spawn = Spawn(argv: seq<Option<string>>, fdIn: Fd, fdOut: Fd)

  /** The outcome of a redirection: an operator not found, a file that could
      not be opened (None for the NULL after the last word), or the process. */
  datatype Redirect = Missing(op: string) | CannotOpen(path: Option<string>) | Spawned(spawn: Spawn)

  /** `find_string(key, &arr, count)`: the first index below `count` holding
      `key`, or -1 (see `FindFirst`). */
  function FindString(key: string, arr: seq<Option<string>>, count: nat): (r: int)
    requires count <= |arr|
    ensures -1 <= r < count
    ensures r != -1 ==> arr[r] == Some(key)
    decreases count
  {
    if count == 0 then -1
    else
      var r := FindString(key, arr, count - 1);
      if r != -1 then r
      else if arr[count - 1] == Some(key) then count - 1
      else -1
  }

  /** `find_string` stops at the first slot holding the key, and gives -1
      exactly when none of the first `count` slots holds it. */
  lemma {:induction false} FindStringFirst(key: string, arr: seq<Option<string>>, count: nat)
    requires count <= |arr|
    ensures var r := FindString(key, arr, count);
      r != -1 ==> forall j :: 0 <= j < r ==> arr[j] != Some(key)
    ensures FindString(key, arr, count) == -1 <==> forall j :: 0 <= j < count ==> arr[j] != Some(key)
    decreases count
  {
    if count > 0 {
      FindStringFirst(key, arr, count - 1);
    }
  }

  /** The words `execvp` sees: those before the first NULL. */
  function ToNull(arr: seq<Option<string>>): (ws: seq<string>)
    ensures |ws| <= |arr|
    decreases |arr|
  {
    if |arr| == 0 then []
    else match arr[0]
      case None => []
      case Some(w) => [w] + ToNull(arr[1..])
  }

  /** The words of an array whose first NULL follows `ws` are `ws`. */
  lemma {:induction false} ToNullPrefix(ws: seq<string>, rest: seq<Option<string>>)
    ensures ToNull(Lift(ws) + [None] + rest) == ws
    decreases |ws|
  {
    var arr := Lift(ws) + [None] + rest;
    if |ws| == 0 {
      assert arr[0] == None;
    } else {
      assert arr[0] == Some(ws[0]);
      assert arr[1..] == Lift(ws[1..]) + [None] + rest;
      ToNullPrefix(ws[1..], rest);
      assert [ws[0]] + ws[1..] == ws;
    }
  }

  lemma {:induction false} OccurrencesAppend(a: seq<string>, b: seq<string>, key: string)
    ensures Occurrences(a + b, key) == Occurrences(a, key) + Occurrences(b, key)
    decreases |a|
  {
    if |a| == 0 {
      assert a + b == b;
    } else {
      assert (a + b)[1..] == a[1..] + b;
      OccurrencesAppend(a[1..], b, key);
    }
  }

  lemma {:induction false} OccurrencesZero(ws: seq<string>, key: string)
    ensures Occurrences(ws, key) == 0 <==> key !in ws
    decreases |ws|
  {
    if |ws| > 0 {
      OccurrencesZero(ws[1..], key);
      assert ws == [ws[0]] + ws[1..];
    }
  }

  /** `count_pipes`: repeated `find_string` from just after the previous "|",
      with the relative result rebased to an absolute index each time. */
  method CountPipes(cmds: seq<string>) returns (ctr: nat)
    ensures ctr == Occurrences(cmds, "|")
  {
    var arr := Lift(cmds);
    var result := FindString("|", arr[0..], |cmds|);
    ctr := 0;
    CountStart(cmds);
    while result != -1
      invariant Counted(cmds, result, ctr)
      decreases if result == -1 then 0 else |cmds| - result
    {
      var from := result + 1;
      var next := FindString("|", arr[from..], |cmds| - from);
      NextPipe(cmds, from, |cmds| - from, next);
      CountStep(cmds, result, ctr, next);
      ctr := ctr + 1;
      result := if next == -1 then -1 else result + 1 + next;
    }
  }

  /** The loop state of `count_pipes`: `ctr` pipes counted and either none
      left (-1) or the next one at `result`, with the rest still to count. */
  predicate Counted(cmds: seq<string>, result: int, ctr: nat) {
    if result == -1 then ctr == Occurrences(cmds, "|")
    else 0 <= result < |cmds| && cmds[result] == "|" && ctr + Occurrences(cmds[result..], "|") == Occurrences(cmds, "|")
  }

  /** The first search of `count_pipes` starts the count. */
  lemma CountStart(cmds: seq<string>)
    ensures Counted(cmds, FindString("|", Lift(cmds)[0..], |cmds|), 0)
  {
    var r := FindString("|", Lift(cmds)[0..], |cmds|);
    NextPipe(cmds, 0, |cmds|, r);
    assert cmds[0..] == cmds;
    assert r != -1 ==> 0 + r == r;
  }

  /** Counting the "|" at `prev`, when the search from just after it found
      `next`, keeps the count right, and the next "|" found lies further on. */
  lemma CountStep(cmds: seq<string>, prev: int, ctr: nat, next: int)
    requires prev != -1 && Counted(cmds, prev, ctr)
    requires prev + 1 <= |cmds| && Found(cmds, prev + 1, next)
    ensures Counted(cmds, if next == -1 then -1 else prev + 1 + next, ctr + 1)
    ensures next != -1 ==> prev < prev + 1 + next
  {
    PipeAt(cmds, prev);
  }

  /** A search for "|" from `from` found `next`: -1 when no "|" is left,
      otherwise a "|" with every pipe from `from` at or after it. */
  predicate Found(cmds: seq<string>, from: nat, next: int)
    requires from <= |cmds|
  {
    if next == -1 then Occurrences(cmds[from..], "|") == 0
    else
      && 0 <= next && from + next < |cmds| && cmds[from + next] == "|"
      && Occurrences(cmds[from..], "|") == Occurrences(cmds[from + next..], "|")
  }

  /** A "|" at `at` is one of the pipes from `at` on. */
  lemma PipeAt(cmds: seq<string>, at: nat)
    requires at < |cmds| && cmds[at] == "|"
    ensures Occurrences(cmds[at..], "|") == 1 + Occurrences(cmds[at + 1..], "|")
  {
    assert cmds[at..][0] == "|" && cmds[at..][1..] == cmds[at + 1..];
  }

  /** The search `count_pipes` makes from `from` over the `count` words
      left is `Found`. */
  lemma NextPipe(cmds: seq<string>, from: nat, count: nat, next: int)
    requires from <= |cmds| && count == |cmds| - from
    requires next == FindString("|", Lift(cmds)[from..], count)
    ensures Found(cmds, from, next)
  {
    var w := Lift(cmds)[from..];
    var rest := cmds[from..];
    assert next == if "|" in rest then FirstIndex(rest, "|") else -1 by {
      assert forall j :: 0 <= j < |rest| ==> w[j] == Some(rest[j]);
      FindFirst("|", w, rest);
    }
    if "|" in rest {
      FoundAt(cmds, from, FirstIndex(rest, "|"));
    } else {
      FoundNone(cmds, from);
    }
  }

  /** A first "|" at `k` words after `from` is what the search finds. */
  lemma FoundAt(cmds: seq<string>, from: nat, k: nat)
    requires from + k < |cmds| && cmds[from + k] == "|"
    requires forall j :: 0 <= j < k ==> cmds[from..][j] != "|"
    ensures Found(cmds, from, k)
  {
    forall j | from <= j < from + k
      ensures cmds[j] != "|"
    {
      assert cmds[from..][j - from] == cmds[j];
    }
    PipeSplit(cmds, from, from + k);
  }

  /** No "|" after `from`: the search finds nothing. */
  lemma FoundNone(cmds: seq<string>, from: nat)
    requires from <= |cmds| && "|" !in cmds[from..]
    ensures Found(cmds, from, -1)
  {
    OccurrencesZero(cmds[from..], "|");
  }

  /** No "|" in `cmds[from..at)`: the pipes from `from` are those from `at`. */
  lemma PipeSplit(cmds: seq<string>, from: nat, at: nat)
    requires from <= at <= |cmds|
    requires forall j :: from <= j < at ==> cmds[j] != "|"
    ensures Occurrences(cmds[from..], "|") == Occurrences(cmds[at..], "|")
  {
    assert cmds[from..] == cmds[from..at] + cmds[at..];
    OccurrencesAppend(cmds[from..at], cmds[at..], "|");
    assert "|" !in cmds[from..at];
    OccurrencesZero(cmds[from..at], "|");
  }

  /** Index of the first `key` in `ws`. */
  function FirstIndex(ws: seq<string>, key: string): (k: nat)
    requires key in ws
    ensures k < |ws| && ws[k] == key && forall j :: 0 <= j < k ==> ws[j] != key
    decreases |ws|
  {
    if ws[0] == key then 0 else 1 + FirstIndex(ws[1..], key)
  }

  /** `FirstIndex` is the only index holding `key` with no `key` before it. */
  lemma FirstIndexUnique(ws: seq<string>, key: string, k: nat)
    requires k < |ws| && ws[k] == key && key !in ws[..k]
    ensures FirstIndex(ws, key) == k
  {
    var f := FirstIndex(ws, key);
    assert forall j :: 0 <= j < k ==> ws[..k][j] == ws[j];
    assert forall j :: 0 <= j < f ==> ws[..f][j] == ws[j];
  }

  /** `find_string` over a window holding the words `ws` finds the first
      occurrence of the key, and -1 exactly when there is none. */
  lemma {:induction false} FindFirst(key: string, arr: seq<Option<string>>, ws: seq<string>)
    requires |ws| <= |arr|
    requires forall j :: 0 <= j < |ws| ==> arr[j] == Some(ws[j])
    ensures FindString(key, arr, |ws|) == if key in ws then FirstIndex(ws, key) else -1
    decreases |ws|
  {
    if |ws| > 0 {
      var n := |ws| - 1;
      var front := ws[..n];
      FindFirst(key, arr, front);
      assert ws == front + [ws[n]];
      if key in front {
        var k := FirstIndex(front, key);
        assert ws[..k] == front[..k];
        FirstIndexUnique(ws, key, k);
      } else if ws[n] == key {
        assert ws[..n] == front;
        FirstIndexUnique(ws, key, n);
      }
    }
  }

  /** `redirect_input`: the file is the word after the first "<", and the
      program runs with the argument vector ended at that "<" and its input
      from the file. `canRead` says which paths `open(O_RDONLY)` accepts. */
  function RedirectInput(cmds: seq<string>, canRead: string -> bool): (r: Redirect)
    ensures "<" !in cmds <==> r == Missing("<")
    ensures r.Spawned? <==> "<" in cmds && FirstIndex(cmds, "<") + 1 < |cmds| && canRead(cmds[FirstIndex(cmds, "<") + 1])
    ensures r.Spawned? ==>
      && "<" in cmds
      && var pos := FirstIndex(cmds, "<");
      && pos + 1 < |cmds|
      && ToNull(r.spawn.argv) == cmds[..pos]
      && r.spawn.fdIn == InFile(cmds[pos + 1]) && r.spawn.fdOut == Stdout
  {
    FindFirst("<", Lift(cmds), cmds);
    var pos := FindString("<", Lift(cmds), |cmds|);
    if pos == -1 then Missing("<")
    else if pos + 1 == |cmds| then CannotOpen(None)
    else if !canRead(cmds[pos + 1]) then CannotOpen(Some(cmds[pos + 1]))
    else
      Truncated(cmds, pos);
      Spawned(Spawn(Lift(cmds)[pos := None] + [None], InFile(cmds[pos + 1]), Stdout))
  }

  /** Ending the vector at `pos` leaves the words before it. */
  lemma Truncated(cmds: seq<string>, pos: nat)
    requires pos < |cmds|
    ensures ToNull(Lift(cmds)[pos := None] + [None]) == cmds[..pos]
    ensures forall j :: 0 <= j < pos ==> cmds[j] in cmds[..pos]
  {
    var arr := Lift(cmds)[pos := None] + [None];
    assert arr == Lift(cmds[..pos]) + [None] + (Lift(cmds[pos + 1..]) + [None]);
    ToNullPrefix(cmds[..pos], Lift(cmds[pos + 1..]) + [None]);
  }

  /** `redirect_output`: as `redirect_input` with ">" and the output going to
      the file, which `open(O_RDWR | O_CREAT)` creates when `canWrite` allows. */
  function RedirectOutput(cmds: seq<string>, canWrite: string -> bool): (r: Redirect)
    ensures ">" !in cmds <==> r == Missing(">")
    ensures r.Spawned? <==> ">" in cmds && FirstIndex(cmds, ">") + 1 < |cmds| && canWrite(cmds[FirstIndex(cmds, ">") + 1])
    ensures r.Spawned? ==>
      && ">" in cmds
      && var pos := FirstIndex(cmds, ">");
      && pos + 1 < |cmds|
      && ToNull(r.spawn.argv) == cmds[..pos]
      && r.spawn.fdIn == Stdin && r.spawn.fdOut == OutFile(cmds[pos + 1])
  {
    FindFirst(">", Lift(cmds), cmds);
    var pos := FindString(">", Lift(cmds), |cmds|);
    if pos == -1 then Missing(">")
    else if pos + 1 == |cmds| then CannotOpen(None)
    else if !canWrite(cmds[pos + 1]) then CannotOpen(Some(cmds[pos + 1]))
    else
      Truncated(cmds, pos);
      Spawned(Spawn(Lift(cmds)[pos := None] + [None], Stdin, OutFile(cmds[pos + 1])))
  }

  /** The file word after the operator at `pos`, NULL past the end. */
  function FileAfter(cmds: seq<string>, pos: int): Option<string>
    requires -1 <= pos < |cmds|
  {
    if 0 <= pos < |cmds| - 1 then Some(cmds[pos + 1]) else None
  }

  /** `redirect_input_and_output`: both operators must be present (">" is
      checked first), both files are opened before either result is checked
      (an output failure is reported first), and the vector ends at whichever
      operator comes first. */
  function RedirectInputAndOutput(cmds: seq<string>, canRead: string -> bool, canWrite: string -> bool): (r: Redirect)
    ensures ">" !in cmds ==> r == Missing(">")
    ensures ">" in cmds && "<" !in cmds ==> r == Missing("<")
    ensures ">" in cmds && "<" in cmds ==>
      var outPos := FirstIndex(cmds, ">");
      var inPos := FirstIndex(cmds, "<");
      && (r.Spawned? <==> outPos + 1 < |cmds| && canWrite(cmds[outPos + 1])
                          && inPos + 1 < |cmds| && canRead(cmds[inPos + 1]))
      && (!(outPos + 1 < |cmds| && canWrite(cmds[outPos + 1])) ==> r == CannotOpen(FileAfter(cmds, outPos)))
      && (r.Spawned? ==>
           && ToNull(r.spawn.argv) == cmds[..if inPos < outPos then inPos else outPos]
           && r.spawn.fdIn == InFile(cmds[inPos + 1]) && r.spawn.fdOut == OutFile(cmds[outPos + 1]))
  {
    FindFirst(">", Lift(cmds), cmds);
    FindFirst("<", Lift(cmds), cmds);
    var outPos := FindString(">", Lift(cmds), |cmds|);
    var inPos := FindString("<", Lift(cmds), |cmds|);
    var first := if inPos < outPos then inPos else outPos;
    var outFile := FileAfter(cmds, outPos);
    var inFile := FileAfter(cmds, inPos);
    if outPos == -1 then Missing(">")
    else if inPos == -1 then Missing("<")
    else if outFile.None? || !canWrite(outFile.value) then CannotOpen(outFile)
    else if inFile.None? || !canRead(inFile.value) then CannotOpen(inFile)
    else
      Truncated(cmds, first);
      Spawned(Spawn(Lift(cmds)[first := None] + [None], InFile(inFile.value), OutFile(outFile.value)))
  }

  /** A missing operator or an unopenable file stops every redirection before
      a process is started, and both operators together bound the vector by
      the earlier one: `ls > o < i` runs `ls`. */
  lemma RedirectBothExample(canRead: string -> bool, canWrite: string -> bool)
    requires canRead("i") && canWrite("o")
    ensures var r := RedirectInputAndOutput(["ls", ">", "o", "<", "i"], canRead, canWrite);
      r.Spawned? && ToNull(r.spawn.argv) == ["ls"]
      && r.spawn.fdIn == InFile("i") && r.spawn.fdOut == OutFile("o")
  {
    var cmds := ["ls", ">", "o", "<", "i"];
    assert cmds[..1] == ["ls"] && cmds[..3] == ["ls", ">", "o"];
    FirstIndexUnique(cmds, ">", 1);
    FirstIndexUnique(cmds, "<", 3);
    Truncated(cmds, 1);
    assert cmds[..1] == ["ls"];
  }

  /** The `generate_process` rule: the child's standard input is replaced
      only when `fdIn` is not 0, its standard output only when `fdOut` is not
      1, and the parent closes exactly the descriptors that were passed on. */
  function ParentCloses(s: Spawn): (closed: set<Fd>)
    ensures s.fdIn != Stdin ==> s.fdIn in closed
    ensures s.fdOut != Stdout ==> s.fdOut in closed
    ensures forall f :: f in closed ==> (f == s.fdIn && f != Stdin) || (f == s.fdOut && f != Stdout)
  {
    (if s.fdIn != Stdin then {s.fdIn} else {}) + (if s.fdOut != Stdout then {s.fdOut} else {})
  }

  /** The descriptors the child redirects with `dup2`, as (target, source)
      pairs: 0 from `fdIn` and 1 from `fdOut`, each only when it differs. */
  function ChildDups(s: Spawn): (dups: seq<(nat, Fd)>)
    ensures (0, s.fdIn) in dups <==> s.fdIn != Stdin
    ensures (1, s.fdOut) in dups <==> s.fdOut != Stdout
    ensures |dups| <= 2
    ensures forall d :: d in dups ==> d.1 in ParentCloses(s)
  {
    (if s.fdIn != Stdin then [(0, s.fdIn)] else []) + (if s.fdOut != Stdout then [(1, s.fdOut)] else [])
  }

  /** The descriptors the child closes right after its `dup2` calls: each
      one it duplicated. They are the ones the parent closes, so neither
      process closes a standard descriptor or any other pipe end. */
  function ChildCloses(s: Spawn): (closed: set<Fd>)
    ensures forall f :: f in closed <==> (f == s.fdIn && f != Stdin) || (f == s.fdOut && f != Stdout)
    ensures closed == ParentCloses(s)
  {
    set d | d in ChildDups(s) :: d.1
  }

  /** Everything `execute_and_pipe` starts: one child per "|" found, then the
      last program, which is run in the shell's own process (None when a "|"
      could not be found and the walk returned early). */
  datatype Pipeline = Pipeline(stages: seq<Spawn>, last: Option<Spawn>)

  /** The loop of `execute_and_pipe` at iteration `i` of `pipes`. `win` is
      the array from the current program on (`&cmds[cur]`, closing NULL
      included) and `count` the words left in it (`prog_cmd_count`). The
      "|" found at `loc` of the window is set to NULL at the window's `loc`
      when `absolute`; as line 240 writes it, at `cmds[loc]`, which is inside
      the window only when `cur <= loc`. A write before `cur` lands in words
      of children already started, which nothing reads again, so only the
      window is kept. Either way the children form a chain (`WalkChained`). */
  function Walk(win: seq<Option<string>>, cur: nat, count: nat, i: nat, pipes: nat,
                fdIn: Fd, absolute: bool): (p: Pipeline)
    requires count < |win| && i <= pipes
    ensures p.last.Some? ==> i + |p.stages| == pipes
    decreases pipes - i
  {
    if i == pipes then Pipeline([], Some(Spawn(win, fdIn, Stdout)))
    else
      var loc := FindString("|", win, count);
      if loc == -1 then Pipeline([], None)
      else
        var win' := Cleared(win, cur, loc, absolute);
        var rest := Walk(win'[loc + 1..], cur + loc + 1, count - loc - 1, i + 1, pipes, PipeRead(i), absolute);
        Pipeline([Spawn(win', fdIn, PipeWrite(i))] + rest.stages, rest.last)
  }

  /** The children of `p` form a chain of pipes numbered from `i`: each
      reads the pipe of the one before (the first reads `fdIn`) and writes
      its own, and the last program reads the final pipe. */
  predicate Chained(p: Pipeline, i: nat, fdIn: Fd) {
    && (forall k :: 0 <= k < |p.stages| ==>
          p.stages[k].fdIn == (if k == 0 then fdIn else PipeRead(i + k - 1)) && p.stages[k].fdOut == PipeWrite(i + k))
    && (p.last.Some? ==> p.last.value.fdIn == (if |p.stages| == 0 then fdIn else PipeRead(i + |p.stages| - 1)))
  }

  /** Every walk, as written or corrected, starts a chain of children
      joined by the pipes numbered from `i`. */
  lemma {:induction false} WalkChained(win: seq<Option<string>>, cur: nat, count: nat, i: nat, pipes: nat,
                                       fdIn: Fd, absolute: bool)
    requires count < |win| && i <= pipes
    ensures Chained(Walk(win, cur, count, i, pipes, fdIn, absolute), i, fdIn)
    decreases pipes - i
  {
    if i < pipes && FindString("|", win, count) != -1 {
      var loc, next, nextCur, nextCount := ChainNext(win, cur, count, i, pipes, absolute);
      WalkChained(next, nextCur, nextCount, i + 1, pipes, PipeRead(i), absolute);
      ChainJoin(win, cur, count, i, pipes, fdIn, absolute, loc, next, nextCur, nextCount);
    }
  }

  /** Before a step of `WalkChained`: the "|" found at `loc` and the window
      after it. */
  lemma ChainNext(win: seq<Option<string>>, cur: nat, count: nat, i: nat, pipes: nat, absolute: bool)
    returns (loc: nat, next: seq<Option<string>>, nextCur: nat, nextCount: nat)
    requires count < |win| && i < pipes && FindString("|", win, count) != -1
    ensures loc == FindString("|", win, count)
    ensures loc < count && nextCur == cur + loc + 1 && nextCount == count - loc - 1
    ensures next == Cleared(win, cur, loc, absolute)[loc + 1..] && nextCount < |next|
  {
    loc := FindString("|", win, count);
    nextCur := cur + loc + 1;
    nextCount := count - loc - 1;
    next := Cleared(win, cur, loc, absolute)[loc + 1..];
  }

  /** After a step of `WalkChained`: a chain from pipe `i` after the first
      child makes the whole walk a chain from `fdIn`. */
  lemma ChainJoin(win: seq<Option<string>>, cur: nat, count: nat, i: nat, pipes: nat, fdIn: Fd,
                  absolute: bool, loc: nat, next: seq<Option<string>>, nextCur: nat, nextCount: nat)
    requires count < |win| && i < pipes && loc == FindString("|", win, count)
    requires loc < count && nextCur == cur + loc + 1 && nextCount == count - loc - 1
    requires next == Cleared(win, cur, loc, absolute)[loc + 1..]
    requires Chained(Walk(next, nextCur, nextCount, i + 1, pipes, PipeRead(i), absolute), i + 1, PipeRead(i))
    ensures Chained(Walk(win, cur, count, i, pipes, fdIn, absolute), i, fdIn)
  {
    WalkUnfold(win, cur, count, i, pipes, fdIn, absolute, loc, next, nextCur, nextCount);
    ChainCons(Spawn(Cleared(win, cur, loc, absolute), fdIn, PipeWrite(i)),
              Walk(next, nextCur, nextCount, i + 1, pipes, PipeRead(i), absolute), i, fdIn,
              Walk(win, cur, count, i, pipes, fdIn, absolute));
  }

  /** A child reading `fdIn` and writing pipe `i`, in front of a chain
      from pipe `i`, is a chain from `fdIn`. */
  lemma ChainCons(s: Spawn, rest: Pipeline, i: nat, fdIn: Fd, p: Pipeline)
    requires Chained(rest, i + 1, PipeRead(i)) && s.fdIn == fdIn && s.fdOut == PipeWrite(i)
    requires p == Pipeline([s] + rest.stages, rest.last)
    ensures Chained(p, i, fdIn)
  {
    forall k | 0 < k < |p.stages|
      ensures p.stages[k].fdIn == PipeRead(i + k - 1) && p.stages[k].fdOut == PipeWrite(i + k)
    {
      assert p.stages[k] == rest.stages[k - 1];
    }
  }

  /** The window after the "|" found at its `loc` is set to NULL: there when
      `absolute`; as written, at index `loc` of the whole command, which is
      `loc - cur` of the window or, when `loc < cur`, outside it. */
  function Cleared(win: seq<Option<string>>, cur: nat, loc: nat, absolute: bool): (r: seq<Option<string>>)
    requires loc < |win|
    ensures |r| == |win|
  {
    var at: int := if absolute then loc else loc - cur;
    if at < 0 then win else win[at := None]
  }

  /** One iteration of the walk that finds a "|" at `loc`. */
  lemma WalkUnfold(win: seq<Option<string>>, cur: nat, count: nat, i: nat, pipes: nat,
                   fdIn: Fd, absolute: bool, loc: nat,
                   next: seq<Option<string>>, nextCur: nat, nextCount: nat)
    requires count < |win| && i < pipes
    requires FindString("|", win, count) == loc
    requires loc < count && nextCur == cur + loc + 1 && nextCount == count - loc - 1
    requires next == Cleared(win, cur, loc, absolute)[loc + 1..]
    ensures Walk(win, cur, count, i, pipes, fdIn, absolute)
         == Pipeline([Spawn(Cleared(win, cur, loc, absolute), fdIn, PipeWrite(i))]
                     + Walk(next, nextCur, nextCount, i + 1, pipes, PipeRead(i), absolute).stages,
                     Walk(next, nextCur, nextCount, i + 1, pipes, PipeRead(i), absolute).last)
  {
    var win' := Cleared(win, cur, loc, absolute);
    assert next == win'[loc + 1..];
    var rest := Walk(next, nextCur, nextCount, i + 1, pipes, PipeRead(i), absolute);
    assert Walk(win, cur, count, i, pipes, fdIn, absolute)
        == Pipeline([Spawn(win', fdIn, PipeWrite(i))] + rest.stages, rest.last);
  }

  /** `execute_and_pipe` as written: the children form a chain from
      standard input, and when the last program is reached there is one
      child per "|". */
  function ExecuteAndPipeAsWritten(cmds: seq<string>): (p: Pipeline)
    ensures p.last.Some? ==> |p.stages| == Occurrences(cmds, "|")
    ensures Chained(p, 0, Stdin)
  {
    var win := StringModule.Argv(cmds);
    WalkChained(win, 0, |cmds|, 0, Occurrences(cmds, "|"), Stdin, false);
    Walk(win, 0, |cmds|, 0, Occurrences(cmds, "|"), Stdin, false)
  }

  /** `execute_and_pipe` with the "|" cleared where it was found: one child
      per "|" and then the last program, whose words are exactly the
      segments of the command, in order. */
  function ExecuteAndPipe(cmds: seq<string>): (p: Pipeline)
    ensures p.last.Some?
    ensures |p.stages| == Occurrences(cmds, "|")
    ensures ProgramWords(p) == Segments(cmds)
  {
    var win := StringModule.Argv(cmds);
    WindowIff(win, cmds);
    WalkWords(win, 0, |cmds|, cmds, 0, Occurrences(cmds, "|"), Stdin);
    Walk(win, 0, |cmds|, 0, Occurrences(cmds, "|"), Stdin, true)
  }

  /** Reference definition: the programs of a pipeline, the words between
      consecutive "|". */
  function Segments(ws: seq<string>): (segs: seq<seq<string>>)
    ensures |segs| >= 1
    decreases |ws|
  {
    if "|" !in ws then [ws]
    else
      var k := FirstIndex(ws, "|");
      [ws[..k]] + Segments(ws[k + 1..])
  }

  /** No segment holds a "|". */
  lemma {:induction false} SegmentsNoPipe(ws: seq<string>)
    ensures forall k :: 0 <= k < |Segments(ws)| ==> "|" !in Segments(ws)[k]
    decreases |ws|
  {
    if "|" in ws {
      var k := FirstIndex(ws, "|");
      SegmentsNoPipe(ws[k + 1..]);
      assert Segments(ws) == [ws[..k]] + Segments(ws[k + 1..]);
    }
  }

  /** Gluing segments back with "|" between them. */
  function Join(segs: seq<seq<string>>): seq<string>
    requires |segs| >= 1
    decreases |segs|
  {
    if |segs| == 1 then segs[0] else segs[0] + ["|"] + Join(segs[1..])
  }

  /** There is one more segment than there are pipes. */
  lemma {:induction false} SegmentsCount(ws: seq<string>)
    ensures |Segments(ws)| == Occurrences(ws, "|") + 1
    decreases |ws|
  {
    if "|" in ws {
      var k := FirstIndex(ws, "|");
      SegmentsCount(ws[k + 1..]);
      StepCount(ws);
      assert Segments(ws) == [ws[..k]] + Segments(ws[k + 1..]);
    } else {
      OccurrencesZero(ws, "|");
    }
  }

  /** The segments glue back to the whole command. */
  lemma {:induction false} SegmentsRoundTrip(ws: seq<string>)
    ensures Join(Segments(ws)) == ws
    decreases |ws|
  {
    if "|" in ws {
      var k := FirstIndex(ws, "|");
      var tail := Segments(ws[k + 1..]);
      SegmentsRoundTrip(ws[k + 1..]);
      var segs := [ws[..k]] + tail;
      assert Segments(ws) == segs;
      assert segs[0] == ws[..k] && segs[1..] == tail;
      assert Join(segs) == ws[..k] + ["|"] + Join(tail);
      assert ws == ws[..k] + ["|"] + ws[k + 1..];
    } else {
      assert Segments(ws) == [ws];
    }
  }

  /** `win` holds the words `ws` and then the closing NULL. */
  predicate Window(win: seq<Option<string>>, ws: seq<string>)
    decreases |ws|
  {
    |win| == |ws| + 1 &&
    if |ws| == 0 then win[0] == None
    else win[0] == Some(ws[0]) && Window(win[1..], ws[1..])
  }

  lemma {:induction false} WindowIff(win: seq<Option<string>>, ws: seq<string>)
    ensures Window(win, ws) <==> win == StringModule.Argv(ws)
    decreases |ws|
  {
    if |ws| > 0 && |win| == |ws| + 1 {
      WindowIff(win[1..], ws[1..]);
      assert StringModule.Argv(ws) == [Some(ws[0])] + StringModule.Argv(ws[1..]);
      assert win == [win[0]] + win[1..];
    } else if |win| == |ws| + 1 {
      assert win == [win[0]];
    }
  }

  /** On a window holding `ws` with a "|", the first "|" is the one found. */
  lemma StepFind(win: seq<Option<string>>, ws: seq<string>)
    requires Window(win, ws) && "|" in ws
    ensures FindString("|", win, |ws|) == FirstIndex(ws, "|")
  {
    WindowIff(win, ws);
    assert forall j :: 0 <= j < |ws| ==> win[j] == Some(ws[j]);
    FindFirst("|", win, ws);
  }

  /** Clearing the first "|" of a window ends the stage before it and leaves
      the window of the rest after it. */
  lemma StepSplit(win: seq<Option<string>>, cur: nat, ws: seq<string>, k: nat)
    requires win == StringModule.Argv(ws) && k < |ws|
    ensures ToNull(Cleared(win, cur, k, true)) == ws[..k]
    ensures Cleared(win, cur, k, true)[k + 1..] == StringModule.Argv(ws[k + 1..])
  {
    var win' := Cleared(win, cur, k, true);
    assert win' == Lift(ws[..k]) + [None] + (Lift(ws[k + 1..]) + [None]);
    ToNullPrefix(ws[..k], Lift(ws[k + 1..]) + [None]);
  }

  /** The pipes after the first "|" are one fewer. */
  lemma StepCount(ws: seq<string>)
    requires "|" in ws
    ensures Occurrences(ws[FirstIndex(ws, "|") + 1..], "|") + 1 == Occurrences(ws, "|")
  {
    var k := FirstIndex(ws, "|");
    var rest := ws[k + 1..];
    assert ws == ws[..k] + ["|"] + rest;
    OccurrencesAppend(ws[..k] + ["|"], rest, "|");
    OccurrencesAppend(ws[..k], ["|"], "|");
    OccurrencesZero(ws[..k], "|");
  }

  /** What the corrected step leaves: the child's words are those before
      the first "|", the rest of the window holds the words after it, with
      one pipe fewer and one segment fewer. */
  lemma StepFacts(win: seq<Option<string>>, cur: nat, ws: seq<string>)
    requires Window(win, ws) && "|" in ws
    ensures var k := FirstIndex(ws, "|");
      && ToNull(Cleared(win, cur, k, true)) == ws[..k]
      && Window(Cleared(win, cur, k, true)[k + 1..], ws[k + 1..])
      && Occurrences(ws[k + 1..], "|") + 1 == Occurrences(ws, "|")
      && Segments(ws) == [ws[..k]] + Segments(ws[k + 1..])
  {
    var k := FirstIndex(ws, "|");
    WindowIff(win, ws);
    StepSplit(win, cur, ws, k);
    WindowIff(Cleared(win, cur, k, true)[k + 1..], ws[k + 1..]);
    StepCount(ws);
  }

  /** The words each program of `p` is started with, in order: the
      children's, then the last program's. */
  function ProgramWords(p: Pipeline): seq<seq<string>> {
    seq(|p.stages|, k requires 0 <= k < |p.stages| => ToNull(p.stages[k].argv))
      + (if p.last.Some? then [ToNull(p.last.value.argv)] else [])
  }

  /** Where the words of a child sit among `ProgramWords`. */
  lemma ProgramWordsAt(p: Pipeline, k: nat)
    requires k < |p.stages|
    ensures |ProgramWords(p)| == |p.stages| + (if p.last.Some? then 1 else 0)
    ensures ProgramWords(p)[k] == ToNull(p.stages[k].argv)
  {
  }

  /** A child in front of a pipeline puts its words in front. */
  lemma WordsCons(s: Spawn, q: Pipeline, p: Pipeline, first: seq<string>,
                  rest: seq<seq<string>>, all: seq<seq<string>>)
    requires p == Pipeline([s] + q.stages, q.last)
    requires ToNull(s.argv) == first
    requires ProgramWords(q) == rest
    requires all == [first] + rest
    ensures ProgramWords(p) == all
  {
    var w := ProgramWords(p);
    assert |w| == |all|;
    forall k | 0 <= k < |w|
      ensures w[k] == all[k]
    {
      if 0 < k < |p.stages| {
        assert p.stages[k] == q.stages[k - 1];
      }
    }
  }

  /** On a window holding `ws`, the corrected walk finds every pipe, reaches
      the last program, and starts each program with exactly its segment of
      `ws` as its words. */
  lemma {:induction false} WalkWords(win: seq<Option<string>>, cur: nat, count: nat, ws: seq<string>,
                                     i: nat, pipes: nat, fdIn: Fd)
    requires Window(win, ws) && count == |ws|
    requires i <= pipes && pipes - i == Occurrences(ws, "|")
    ensures Walk(win, cur, count, i, pipes, fdIn, true).last.Some?
    ensures ProgramWords(Walk(win, cur, count, i, pipes, fdIn, true)) == Segments(ws)
    decreases pipes - i
  {
    if i == pipes {
      WordsBase(win, cur, count, ws, i, pipes, fdIn);
    } else {
      var k, next, nextCur, nextCount, rest := WordsNext(win, cur, count, ws, i, pipes);
      WalkWords(next, nextCur, nextCount, rest, i + 1, pipes, PipeRead(i));
      WordsJoin(win, cur, count, ws, i, pipes, fdIn, k, next, nextCur, nextCount, rest);
    }
  }

  /** With every pipe found, the walk runs the rest as the last program. */
  lemma WordsBase(win: seq<Option<string>>, cur: nat, count: nat, ws: seq<string>,
                  i: nat, pipes: nat, fdIn: Fd)
    requires Window(win, ws) && count == |ws|
    requires i == pipes && Occurrences(ws, "|") == 0
    ensures Walk(win, cur, count, i, pipes, fdIn, true).last.Some?
    ensures ProgramWords(Walk(win, cur, count, i, pipes, fdIn, true)) == Segments(ws)
  {
    assert "|" !in ws by { OccurrencesZero(ws, "|"); }
    LastSegment(win, ws);
    var p := Pipeline([], Some(Spawn(win, fdIn, Stdout)));
    assert Walk(win, cur, count, i, pipes, fdIn, true) == p;
    assert ProgramWords(p) == [ToNull(win)];
  }

  /** Before a step of `WalkWords`: the first "|" is at `k`, and the window
      `next` after it, at `nextCur` with `nextCount` words, holds the rest of
      the words `rest` and the rest of the pipes. */
  lemma WordsNext(win: seq<Option<string>>, cur: nat, count: nat, ws: seq<string>, i: nat, pipes: nat)
    returns (k: nat, next: seq<Option<string>>, nextCur: nat, nextCount: nat, rest: seq<string>)
    requires Window(win, ws) && count == |ws|
    requires i < pipes && pipes - i == Occurrences(ws, "|")
    ensures "|" in ws && k == FirstIndex(ws, "|") && k < count
    ensures next == Cleared(win, cur, k, true)[k + 1..] && rest == ws[k + 1..]
    ensures nextCur == cur + k + 1 && nextCount == count - k - 1
    ensures Window(next, rest) && nextCount == |rest| && pipes - (i + 1) == Occurrences(rest, "|")
  {
    assert "|" in ws by { OccurrencesZero(ws, "|"); }
    k := FirstIndex(ws, "|");
    next := Cleared(win, cur, k, true)[k + 1..];
    nextCur := cur + k + 1;
    nextCount := count - k - 1;
    rest := ws[k + 1..];
    StepFacts(win, cur, ws);
  }

  /** After a step of `WalkWords`: if the rest of the walk runs the segments
      of the rest of the words, the whole walk runs the segments of `ws`. */
  lemma WordsJoin(win: seq<Option<string>>, cur: nat, count: nat, ws: seq<string>,
                  i: nat, pipes: nat, fdIn: Fd, k: nat, next: seq<Option<string>>,
                  nextCur: nat, nextCount: nat, rest: seq<string>)
    requires Window(win, ws) && count == |ws| && i < pipes
    requires "|" in ws && k == FirstIndex(ws, "|") && k < count
    requires next == Cleared(win, cur, k, true)[k + 1..] && rest == ws[k + 1..]
    requires nextCur == cur + k + 1 && nextCount == count - k - 1
    requires Walk(next, nextCur, nextCount, i + 1, pipes, PipeRead(i), true).last.Some?
    requires ProgramWords(Walk(next, nextCur, nextCount, i + 1, pipes, PipeRead(i), true)) == Segments(rest)
    ensures Walk(win, cur, count, i, pipes, fdIn, true).last.Some?
    ensures ProgramWords(Walk(win, cur, count, i, pipes, fdIn, true)) == Segments(ws)
  {
    var win' := Cleared(win, cur, k, true);
    assert ToNull(win') == ws[..k] && Segments(ws) == [ws[..k]] + Segments(rest) by {
      StepFacts(win, cur, ws);
    }
    var q := Walk(next, nextCur, nextCount, i + 1, pipes, PipeRead(i), true);
    var p := Walk(win, cur, count, i, pipes, fdIn, true);
    assert p == Pipeline([Spawn(win', fdIn, PipeWrite(i))] + q.stages, q.last) by {
      StepFind(win, ws);
      WalkUnfold(win, cur, count, i, pipes, fdIn, true, k, next, nextCur, nextCount);
    }
    WordsCons(Spawn(win', fdIn, PipeWrite(i)), q, p, ws[..k], Segments(rest), Segments(ws));
  }

  /** A window with no "|" left is one segment, read back whole. */
  lemma LastSegment(win: seq<Option<string>>, ws: seq<string>)
    requires Window(win, ws) && "|" !in ws
    ensures ToNull(win) == ws && Segments(ws) == [ws]
  {
    WindowIff(win, ws);
    assert win == Lift(ws) + [None] + [];
    ToNullPrefix(ws, []);
  }

  /** The wiring of the whole pipeline: a chain from standard input through
      pipes 0, 1, … to the last program, with each child's write end closed
      by the parent once the child is started. */
  lemma PipelineWiring(cmds: seq<string>, absolute: bool)
    ensures var p := Walk(StringModule.Argv(cmds), 0, |cmds|, 0, Occurrences(cmds, "|"), Stdin, absolute);
      && (forall k :: 0 <= k < |p.stages| ==>
           && p.stages[k].fdIn == (if k == 0 then Stdin else PipeRead(k - 1))
           && ChildDups(p.stages[k]) == (if k == 0 then [] else [(0, PipeRead(k - 1))]) + [(1, PipeWrite(k))]
           && ParentCloses(p.stages[k]) == (if k == 0 then {} else {PipeRead(k - 1)}) + {PipeWrite(k)})
      && (p.last.Some? ==>
           && |p.stages| == Occurrences(cmds, "|")
           && p.last.value.fdIn == (if |p.stages| == 0 then Stdin else PipeRead(|p.stages| - 1)))
  {
    var p := Walk(StringModule.Argv(cmds), 0, |cmds|, 0, Occurrences(cmds, "|"), Stdin, absolute);
    WalkChained(StringModule.Argv(cmds), 0, |cmds|, 0, Occurrences(cmds, "|"), Stdin, absolute);
    forall k | 0 <= k < |p.stages|
      ensures p.stages[k].fdIn == (if k == 0 then Stdin else PipeRead(k - 1))
      ensures ChildDups(p.stages[k]) == (if k == 0 then [] else [(0, PipeRead(k - 1))]) + [(1, PipeWrite(k))]
      ensures ParentCloses(p.stages[k]) == (if k == 0 then {} else {PipeRead(k - 1)}) + {PipeWrite(k)}
    {
      assert p.stages[k].fdIn == (if k == 0 then Stdin else PipeRead(k - 1)) && p.stages[k].fdOut == PipeWrite(k);
      StageWiring(p.stages[k], k);
    }
  }

  /** A child of the chain at position `k`: it redirects the previous pipe's
      read end (after the first) and its own write end, and both it and the
      parent close the same two. The read end of its own pipe, which it
      inherits, stays open in the child. */
  lemma StageWiring(s: Spawn, k: nat)
    requires s.fdIn == (if k == 0 then Stdin else PipeRead(k - 1)) && s.fdOut == PipeWrite(k)
    ensures ChildDups(s) == (if k == 0 then [] else [(0, PipeRead(k - 1))]) + [(1, PipeWrite(k))]
    ensures ParentCloses(s) == (if k == 0 then {} else {PipeRead(k - 1)}) + {PipeWrite(k)}
    ensures ChildCloses(s) == ParentCloses(s) && PipeRead(k) !in ChildCloses(s)
  {
  }

  /** As written, the second "|" of `a | b | c` is never cleared, so the
      second child is started as `b | c`, with "|" and "c" as arguments. */
  lemma PipelineAsWrittenKeepsPipe()
    ensures var p := ExecuteAndPipeAsWritten(["a", "|", "b", "|", "c"]);
      |p.stages| == 2 && ToNull(p.stages[1].argv) == ["b", "|", "c"]
  {
    var cmds := ["a", "|", "b", "|", "c"];
    assert Occurrences(cmds, "|") == 2;
    var win := StringModule.Argv(cmds);
    assert win == [Some("a"), Some("|"), Some("b"), Some("|"), Some("c"), None];
    assert FindString("|", win, 5) == 1;
    var win1 := Cleared(win, 0, 1, false)[2..];
    assert win1 == [Some("b"), Some("|"), Some("c"), None];
    assert FindString("|", win1, 3) == 1;
    assert Cleared(win1, 2, 1, false) == win1;
    assert win1 == Lift(["b", "|", "c"]) + [None] + [];
    ToNullPrefix(["b", "|", "c"], []);
  }

  /** The corrected walk starts `b` alone as the second child of `a | b | c`. */
  lemma PipelineSecondStage()
    ensures var p := ExecuteAndPipe(["a", "|", "b", "|", "c"]);
      |p.stages| == 2 && ToNull(p.stages[1].argv) == ["b"]
  {
    var cmds := ["a", "|", "b", "|", "c"];
    assert Occurrences(cmds, "|") == 2;
    SegmentsExample();
    ProgramWordsAt(ExecuteAndPipe(cmds), 1);
  }

  /** The second segment of `a | b | c` is `b`. */
  lemma SegmentsExample()
    ensures Segments(["a", "|", "b", "|", "c"])[1] == ["b"]
  {
    var rest := ["b", "|"] + ["c"];
    assert ["a", "|", "b", "|", "c"] == ["a", "|"] + rest;
    SegmentsSplitOne("a", rest);
    SegmentsSplitOne("b", ["c"]);
  }

  /** A one-word first stage splits off as its own segment. */
  lemma SegmentsSplitOne(w: string, rest: seq<string>)
    requires w != "|"
    ensures Segments([w, "|"] + rest) == [[w]] + Segments(rest)
  {
    var ws := [w, "|"] + rest;
    assert ws[..1] == [w] && ws[2..] == rest;
    SegmentsCons(ws, 1);
  }

  /** A first "|" at `k` splits off the first segment. */
  lemma SegmentsCons(ws: seq<string>, k: nat)
    requires k < |ws| && ws[k] == "|" && "|" !in ws[..k]
    ensures Segments(ws) == [ws[..k]] + Segments(ws[k + 1..])
  {
    FirstIndexUnique(ws, "|", k);
  }

  /** With a single "|" the relative and absolute indices coincide, so the
      code as written behaves as intended. */
  lemma OnePipeAgrees(cmds: seq<string>)
    requires Occurrences(cmds, "|") == 1
    ensures ExecuteAndPipeAsWritten(cmds) == ExecuteAndPipe(cmds)
  {
    var win := StringModule.Argv(cmds);
    var loc := FindString("|", win, |cmds|);
    if loc != -1 {
      assert Cleared(win, 0, loc, false) == Cleared(win, 0, loc, true);
    }
  }
}
