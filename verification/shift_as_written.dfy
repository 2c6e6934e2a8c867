/** `move_strings_down` (lib/string_module.c:119-188) exactly as its loop is
    written, on an array whose slots can also hold a dangling (freed) pointer
    or uninitialised memory. A result of `None` means the code reaches
    undefined behaviour (`strlen` of a NULL or freed pointer, a double free). */
module ShiftAsWritten {
  import opened Common
  import StringModule

  /** One `char*` slot of the array. */
  datatype Slot = Null | Live(text: string) | Freed | Junk

  function SlotOf(p: Option<string>): Slot {
    match p
    case None => Null
    case Some(w) => Live(w)
  }

  function Lives(tokens: seq<string>): (b: seq<Slot>)
    ensures |b| == |tokens|
    ensures forall i :: 0 <= i < |tokens| ==> b[i] == Live(tokens[i])
  {
    seq(|tokens|, i requires 0 <= i < |tokens| => Live(tokens[i]))
  }

  /** What the documented contract asks for, terminator included. */
  function Intended(tokens: seq<string>, k: nat, start: nat): (b: seq<Slot>)
    requires start < |tokens|
    ensures |b| == |tokens| + k
  {
    var moved := StringModule.MoveStringsDown(Lift(tokens), k, start);
    seq(|moved|, i requires 0 <= i < |moved| => SlotOf(moved[i])) + [Null]
  }

  /** The array after the `realloc` of line 129: `n + k` slots, the old NULL
      terminator kept when the array grows, fresh slots uninitialised. */
  function Grown(tokens: seq<string>, k: nat): (b: seq<Slot>)
    ensures |b| == |tokens| + k
  {
    if k == 0 then Lives(tokens) else Lives(tokens) + [Null] + seq(k - 1, _ => Junk)
  }

  /** `free(arr[j])` without clearing the pointer. */
  function Free(b: seq<Slot>, j: nat): (r: Option<seq<Slot>>)
    requires j < |b|
    ensures r.Some? ==> |r.value| == |b|
  {
    match b[j]
    case Live(_) => Some(b[j := Freed])
    case Null => Some(b)
    case _ => None
  }

  /** The loop of lines 148-169, from `top` down to (not including) `start`. */
  function ShiftLoop(b: seq<Slot>, n: nat, k: nat, start: nat, top: nat): (r: Option<seq<Slot>>)
    requires |b| == n + k && start <= top < n
    ensures r.Some? ==> |r.value| == n + k
    decreases top
  {
    if top == start then Some(b)
    else
      var cleaned :=
        if top + k - 1 <= n - 1 then
          match Free(b, top + k - 1)
          case None => None
          case Some(f) => Some(f[top + k := Null])
        else Some(b);
      match cleaned
      case None => None
      case Some(c) =>
        match c[top]
        case Live(w) => ShiftLoop(c[top + k - 1 := Live(w)], n, k, start, top - 1)
        case _ => None
  }

  /** Lines 172-176: free and clear the slots `[from, to)`. */
  function FreeRange(b: seq<Slot>, from: nat, to: nat): (r: Option<seq<Slot>>)
    requires to <= |b|
    ensures r.Some? ==> |r.value| == |b|
    decreases (to as int) - (from as int)
  {
    if from >= to then Some(b)
    else
      match Free(b, from)
      case None => None
      case Some(f) => FreeRange(f[from := Null], from + 1, to)
  }

  /** Lines 178-179: clear the slots `[from, to)`. */
  function NullRange(b: seq<Slot>, from: nat, to: nat): (r: seq<Slot>)
    ensures |r| == |b|
  {
    seq(|b|, i requires 0 <= i < |b| => if from <= i < to then Null else b[i])
  }

  /** `move_strings_down(&arr, &n, k, start)` as written; on success the
      whole array of `n + k` slots, the last being the terminator. */
  function MoveStringsDownAsWritten(tokens: seq<string>, k: nat, start: nat): (r: Option<seq<Slot>>)
    requires start < |tokens|
    ensures r.Some? ==> |r.value| == |tokens| + k
  {
    var n := |tokens|;
    if n == 1 then
      Some(seq(n + k, _ => Null))
    else
      match ShiftLoop(Grown(tokens, k), n, k, start, n - 1)
      case None => None
      case Some(shifted) =>
        var endFree := if start + k < n then start + k else n;
        match FreeRange(shifted, start, endFree)
        case None => None
        case Some(freed) => Some(NullRange(freed, start, start + k)[n + k - 1 := Null])
  }

  /** With `k = 2` and two tokens after `start`, line 154 clears the slot that
      already holds the shifted copy of the last token: "c" is lost. */
  lemma LosesShiftedToken()
    ensures MoveStringsDownAsWritten(["a", "X", "b", "c"], 2, 1)
         == Some([Live("a"), Null, Null, Live("b"), Null, Null])
    ensures Intended(["a", "X", "b", "c"], 2, 1)
         == [Live("a"), Null, Null, Live("b"), Live("c"), Null]
  {
    var b0 := [Live("a"), Live("X"), Live("b"), Live("c"), Null, Junk];
    assert Grown(["a", "X", "b", "c"], 2) == b0;
    var b1 := b0[4 := Live("c")];
    assert b0[3] == Live("c");
    assert ShiftLoop(b0, 4, 2, 1, 3) == ShiftLoop(b1, 4, 2, 1, 2);
    var f := b1[3 := Freed];
    assert b1[3].Live?;
    assert Free(b1, 3) == Some(f);
    var b2 := f[4 := Null][3 := Live("b")];
    assert f[4 := Null][2] == Live("b");
    assert ShiftLoop(b1, 4, 2, 1, 2) == ShiftLoop(b2, 4, 2, 1, 1) == Some(b2);
    var b3 := [Live("a"), Null, Null, Live("b"), Null, Junk];
    assert b2[1] == Live("X") && b2[2] == Live("b");
    assert FreeRange(b2, 1, 3) == FreeRange(b2[1 := Freed][1 := Null], 2, 3);
    var c := b2[1 := Freed][1 := Null];
    assert c[2] == Live("b");
    assert c[2 := Freed][2 := Null] == b2[1 := Null][2 := Null];
    assert FreeRange(c, 2, 3) == FreeRange(b2[1 := Null][2 := Null], 3, 3);
    assert b2[1 := Null][2 := Null] == b3;
    assert NullRange(b3, 1, 3) == b3;
    assert |["a", "X", "b", "c"]| == 4;
    assert b3[5 := Null] == [Live("a"), Null, Null, Live("b"), Null, Null];
  }

  /** With `k = 1` line 153 frees the very string line 159 then measures. */
  lemma ReadsFreedString()
    ensures MoveStringsDownAsWritten(["a", "X", "b"], 1, 1) == None
  {
  }
}
