/** The token-array primitives of lib/string_module.c: growing a word one
    character at a time, appending a word to a NULL-terminated array, and the
    two halves of a splice (opening a gap, then filling it). Heap allocation
    is gone: an array of `char*` is a `seq<Option<string>>`, `None` being NULL. */
module StringModule {
  import opened Common

  /** The NULL-terminated array `execvp` expects for the words `ws`. */
  function Argv(ws: seq<string>): seq<Option<string>> {
    Lift(ws) + [None]
  }

  /** `build_string(c, &cmd)`: the pending word with `c` appended; a NULL
      pending word counts as the empty word. */
  function BuildString(pending: Option<string>, c: char): (r: string)
    ensures |r| == |pending.GetOr([])| + 1
    ensures r[..|r| - 1] == pending.GetOr([]) && r[|r| - 1] == c
  {
    pending.GetOr([]) + [c]
  }

  /** Feeding the characters of `s` one by one to `build_string`, starting
      from a NULL word, yields the word `s`. */
  function BuildAll(s: string): Option<string>
    decreases |s|
  {
    if |s| == 0 then None
    else Some(BuildString(BuildAll(s[..|s| - 1]), s[|s| - 1]))
  }

  lemma {:induction false} BuildAllRoundTrip(s: string)
    ensures |s| > 0 ==> BuildAll(s) == Some(s)
    ensures |s| == 0 ==> BuildAll(s) == None
    decreases |s|
  {
    if |s| > 0 {
      BuildAllRoundTrip(s[..|s| - 1]);
      assert s[..|s| - 1] + [s[|s| - 1]] == s;
    }
  }

  /** The state `add_string` works on: the source word, the array and its count. */
  datatype Appended = Appended(status: Status, pending: Option<string>,
                               arr: seq<Option<string>>, count: nat)

  /** `add_string(&str, &arr, &count)`. A NULL source word is refused and
      nothing changes; otherwise the word goes to index `count`, the count
      grows by one, a NULL terminator follows it and the source is consumed. */
  function AddString(str: Option<string>, arr: seq<Option<string>>, count: nat): (r: Appended)
    requires count <= |arr|
    ensures str.None? ==> r == Appended(Failure, str, arr, count)
    ensures str.Some? ==>
      && r.status == Success
      && r.count == count + 1
      && |r.arr| == r.count + 1
      && r.arr[..count] == arr[..count]
      && r.arr[count] == str
      && r.arr[r.count] == None
      && r.pending == None
  {
    if str.None? then Appended(Failure, str, arr, count)
    else Appended(Success, None, arr[..count] + [str, None], count + 1)
  }

  /** The same append seen on the list of words rather than on the array:
      a pending word is flushed to the end of `out` and the pending slot empties. */
  function Push(pending: Option<string>, out: seq<string>): (seq<string>) {
    match pending
    case None => out
    case Some(w) => out + [w]
  }

  /** `add_string` on the array of `out` is `Push` on `out`: the array view
      and the list view of an append agree, including the terminator. */
  lemma AddStringIsPush(pending: Option<string>, out: seq<string>)
    ensures var r := AddString(pending, Argv(out), |out|);
      r.pending == None && r.count == |Push(pending, out)| && r.arr == Argv(Push(pending, out))
  {
    if pending.Some? {
      var r := AddString(pending, Argv(out), |out|);
      assert r.arr == Argv(out + [pending.value]);
    }
  }

  /** The array obtained by appending the words `ws` one by one with
      `add_string`, starting from an empty (NULL) array. */
  function AppendAll(ws: seq<string>): (r: Appended)
    decreases |ws|
  {
    if |ws| == 0 then Appended(Success, None, [], 0)
    else
      var prev := AppendAll(ws[..|ws| - 1]);
      if prev.count <= |prev.arr| then AddString(Some(ws[|ws| - 1]), prev.arr, prev.count)
      else prev
  }

  /** Appending words one at a time builds exactly the NULL-terminated array
      of those words. */
  lemma {:induction false} AppendAllBuildsArgv(ws: seq<string>)
    ensures |ws| > 0 ==> AppendAll(ws).arr == Argv(ws) && AppendAll(ws).count == |ws|
    decreases |ws|
  {
    if |ws| > 1 {
      var init := ws[..|ws| - 1];
      AppendAllBuildsArgv(init);
      assert init + [ws[|ws| - 1]] == ws;
      assert Argv(init)[..|init|] == Lift(init);
    } else if |ws| == 1 {
      assert AppendAll(ws).arr == [Some(ws[0]), None];
    }
  }

  /** `move_strings_down(&arr, &size, k, start)` as its doc comment promises:
      the element at `start` is removed, every later element moves to index
      `+k-1`, the `k` slots from `start` are left NULL, and the size becomes
      `size + k - 1`. */
  function MoveStringsDown(arr: seq<Option<string>>, k: nat, start: nat): (r: seq<Option<string>>)
    requires start < |arr|
    ensures |r| == |arr| + k - 1
    ensures r[..start] == arr[..start]
    ensures forall j :: start <= j < start + k ==> r[j] == None
    ensures forall j :: start < j < |arr| ==> r[j + k - 1] == arr[j]
  {
    arr[..start] + seq(k, _ => None) + arr[start + 1..]
  }

  /** `add_strings(&to, &from, start, k)`: copies `from[0..k)` in order into
      `to[start..start+k)` and writes nowhere else. */
  function AddStrings(to: seq<Option<string>>, from: seq<string>, start: nat, k: nat): (r: seq<Option<string>>)
    requires start + k <= |to| && k <= |from|
    ensures |r| == |to|
    ensures forall j :: 0 <= j < |to| && !(start <= j < start + k) ==> r[j] == to[j]
    ensures forall j :: start <= j < start + k ==> r[j] == Some(from[j - start])
  {
    to[..start] + Lift(from[..k]) + to[start + k..]
  }

  /** Opening a gap of `k` at `start` and filling it with `from[0..k)` replaces
      the single element at `start` by those `k` words. */
  lemma {:induction false} SpliceReplacesOne(a: seq<string>, from: seq<string>, start: nat, k: nat)
    requires start < |a| && k <= |from|
    ensures AddStrings(MoveStringsDown(Lift(a), k, start), from, start, k)
         == Lift(a[..start] + from[..k] + a[start + 1..])
  {
    var gap := MoveStringsDown(Lift(a), k, start);
    var r := AddStrings(gap, from, start, k);
    var want := Lift(a[..start] + from[..k] + a[start + 1..]);
    assert |r| == |want|;
    forall j | 0 <= j < |r|
      ensures r[j] == want[j]
    {
      if j < start {
        assert r[j] == gap[j] == gap[..start][j];
      } else if j >= start + k {
        var i := j - k + 1;
        assert start < i < |a| && gap[i + k - 1] == Lift(a)[i];
      }
    }
  }

  /** The shift `move_strings_down` is meant to perform, done in place on a
      copy of the array: a right shift walked from the top end for `k >= 1`,
      a left shift walked from `start` upwards for `k == 0`, then the gap
      is cleared. */
  method ShiftDown(arr: seq<Option<string>>, k: nat, start: nat) returns (r: seq<Option<string>>)
    requires start < |arr|
    ensures r == MoveStringsDown(arr, k, start)
  {
    var n := |arr|;
    if k == 0 {
      r := arr;
      var j := start;
      while j < n - 1
        invariant start <= j <= n - 1 && |r| == n
        invariant r[..start] == arr[..start]
        invariant forall i :: start <= i < j ==> r[i] == arr[i + 1]
        invariant forall i :: j < i < n ==> r[i] == arr[i]
      {
        r := r[j := r[j + 1]];
        j := j + 1;
      }
      r := r[..n - 1];
    } else {
      r := arr + seq(k - 1, _ => None);
      var top := n - 1;
      while top > start
        invariant start <= top <= n - 1 && |r| == n + k - 1
        invariant forall i :: 0 <= i <= top ==> r[i] == arr[i]
        invariant forall i :: top < i < n ==> r[i + k - 1] == arr[i]
      {
        r := r[top + k - 1 := r[top]];
        top := top - 1;
      }
      var j := start;
      while j < start + k
        invariant start <= j <= start + k && |r| == n + k - 1
        invariant forall i :: 0 <= i < start ==> r[i] == arr[i]
        invariant forall i :: start <= i < j ==> r[i] == None
        invariant forall i :: start < i < n ==> r[i + k - 1] == arr[i]
      {
        r := r[j := None];
        j := j + 1;
      }
    }
    var want := MoveStringsDown(arr, k, start);
    assert |r| == |want|;
    forall i | 0 <= i < |r|
      ensures r[i] == want[i]
    {
      if i < start {
        assert want[i] == want[..start][i];
      } else if i >= start + k {
        assert want[(i - k + 1) + k - 1] == arr[i - k + 1];
      }
    }
  }
}
