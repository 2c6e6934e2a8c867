/** Shared vocabulary: the NULL-or-value wrapper used for C pointers and the
    SUCCESS/FAILURE status codes the shell's functions return. */
module Common {

  /** A C pointer that is either NULL or points at a value. */
  datatype Option<+T> = None | Some(value: T) {
    function GetOr(default: T): T {
      match this
      case Some(v) => v
      case None => default
    }
  }

  /** The SUCCESS (1) / FAILURE (0) codes of the string module and the shell. */
  datatype Status = Success | Failure

  /** `isspace` in the C locale: space, and '\t' '\n' '\v' '\f' '\r' (codes 9 to 13). */
  predicate IsSpace(c: char) {
    c == ' ' || ('\t' <= c <= '\r')
  }

  /** A string with no whitespace character. */
  predicate NoSpace(s: string) {
    forall j :: 0 <= j < |s| ==> !IsSpace(s[j])
  }

  /** Lifts a list of strings to the pointer view of a C string array. */
  function Lift(ws: seq<string>): (r: seq<Option<string>>)
    ensures |r| == |ws|
    ensures forall i :: 0 <= i < |ws| ==> r[i] == Some(ws[i])
  {
    seq(|ws|, i requires 0 <= i < |ws| => Some(ws[i]))
  }

  /** The number of occurrences of `key` in `ws`. */
  function Occurrences(ws: seq<string>, key: string): nat {
    if |ws| == 0 then 0
    else (if ws[0] == key then 1 else 0) + Occurrences(ws[1..], key)
  }
}
