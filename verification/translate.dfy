/** `parse_translated` (lib/alias.c:112-131, and its twin in
    src/alias_test/alias.c:164-184): splits an alias's replacement text into
    words on whitespace only, one character at a time, through the pending
    word `token` and the global word buffer `trans`. */
module Translate {
  import opened Common
  import StringModule

  /** Reference definition: the maximal whitespace-free runs of `s`, in order.
      A character either starts a new word (when it follows whitespace or
      starts the text) or glues onto the word that the rest of the text
      starts with. */
  function Words(s: string): (ws: seq<string>)
    ensures |s| > 0 && !IsSpace(s[0]) ==> |ws| > 0
    decreases |s|
  {
    if |s| == 0 then []
    else if IsSpace(s[0]) then Words(s[1..])
    else if |s| == 1 || IsSpace(s[1]) then [s[..1]] + Words(s[1..])
    else
      var rest := Words(s[1..]);
      [[s[0]] + rest[0]] + rest[1..]
  }

  /** Number of places where a word starts: the first character when it is
      not whitespace, plus every whitespace/non-whitespace boundary. */
  function RunStarts(s: string): nat {
    (if |s| > 0 && !IsSpace(s[0]) then 1 else 0) + SpaceToWord(s)
  }

  function SpaceToWord(s: string): nat
    decreases |s|
  {
    if |s| < 2 then 0
    else (if IsSpace(s[0]) && !IsSpace(s[1]) then 1 else 0) + SpaceToWord(s[1..])
  }

  /** Every word is non-empty, free of whitespace and made of characters of `s`. */
  lemma {:induction false} WordsWellFormed(s: string)
    ensures forall w :: w in Words(s) ==> |w| > 0 && NoSpace(w)
    ensures forall w, j :: w in Words(s) && 0 <= j < |w| ==> w[j] in s
    decreases |s|
  {
    if |s| > 0 {
      WordsWellFormed(s[1..]);
      if !IsSpace(s[0]) && |s| > 1 && !IsSpace(s[1]) {
        var rest := Words(s[1..]);
        var first := [s[0]] + rest[0];
        assert rest[0] in rest;
        forall j | 0 <= j < |first|
          ensures !IsSpace(first[j]) && first[j] in s
        {
          if j > 0 {
            assert first[j] == rest[0][j - 1];
          }
        }
        forall w | w in rest[1..]
          ensures w in rest
        {
        }
      }
    }
  }

  /** There are exactly as many words as places where a word starts. */
  lemma {:induction false} WordsCountRuns(s: string)
    ensures |Words(s)| == RunStarts(s)
    decreases |s|
  {
    if |s| > 0 {
      WordsCountRuns(s[1..]);
    }
  }

  /** A text with a non-whitespace character has at least one word. */
  lemma {:induction false} WordsNonEmpty(s: string, j: nat)
    requires j < |s| && !IsSpace(s[j])
    ensures |Words(s)| > 0
    decreases |s|
  {
    if IsSpace(s[0]) {
      WordsNonEmpty(s[1..], j - 1);
    }
  }

  /** The pending word `w` as the list of words it contributes. */
  function Wrap(w: string): seq<string> {
    if |w| == 0 then [] else [w]
  }

  /** A whitespace-free word is its own single word. */
  lemma {:induction false} WordsOfWord(w: string)
    requires NoSpace(w)
    ensures Words(w) == Wrap(w)
    decreases |w|
  {
    if |w| == 1 {
      assert w[..1] == w && w[1..] == [];
    } else if |w| > 1 {
      var tail := w[1..];
      assert NoSpace(tail) by {
        forall j | 0 <= j < |tail| ensures !IsSpace(tail[j]) {
          assert tail[j] == w[j + 1];
        }
      }
      WordsOfWord(tail);
      assert tail[0] == w[1];
      assert [w[0]] + tail == w;
    }
  }

  /** A whitespace character ends the word before it. */
  lemma {:induction false} WordsSplitAtSpace(w: string, c: char, t: string)
    requires NoSpace(w) && IsSpace(c)
    ensures Words(w + [c] + t) == Wrap(w) + Words(t)
    decreases |w|
  {
    var s := w + [c] + t;
    if |w| == 0 {
      assert s == [c] + t && s[1..] == t;
    } else {
      var tail := w[1..];
      assert s[0] == w[0] && s[1..] == tail + [c] + t;
      assert NoSpace(tail) by {
        forall j | 0 <= j < |tail| ensures !IsSpace(tail[j]) {
          assert tail[j] == w[j + 1];
        }
      }
      WordsSplitAtSpace(tail, c, t);
      if |w| == 1 {
        assert s[1] == c && s[..1] == w && tail == [];
        assert Words(s) == [w] + Words(tail + [c] + t);
      } else {
        assert s[1] == w[1];
        var rest := Words(s[1..]);
        assert rest == [tail] + Words(t);
        assert [w[0]] + tail == w;
        assert Words(s) == [[s[0]] + rest[0]] + rest[1..];
      }
    }
  }

  /** The C loop, from index `i` with pending word `token` and buffer `trans`.
      The last character is handled first (appended when not whitespace, then
      the pending word is flushed); whitespace flushes; anything else is
      appended to the pending word. */
  function ParseLoop(line: string, i: nat, token: Option<string>, trans: seq<string>): (r: (Option<string>, seq<string>))
    ensures |trans| <= |r.1| && r.1[..|trans|] == trans
    ensures i < |line| ==> r.0.None?
    decreases |line| - i
  {
    if i >= |line| then (token, trans)
    else if i == |line| - 1 then
      var built := if !IsSpace(line[i]) then Some(StringModule.BuildString(token, line[i])) else token;
      ParseLoop(line, i + 1, None, StringModule.Push(built, trans))
    else if IsSpace(line[i]) then
      ParseLoop(line, i + 1, None, StringModule.Push(token, trans))
    else
      ParseLoop(line, i + 1, Some(StringModule.BuildString(token, line[i])), trans)
  }

  /** The pending word `w` as the `token` pointer: NULL when empty. */
  function Pending(w: string): Option<string> {
    if |w| == 0 then None else Some(w)
  }

  lemma PushPending(w: string, trans: seq<string>)
    ensures StringModule.Push(Pending(w), trans) == trans + Wrap(w)
  {
  }

  /** The loop appends the words of the pending word glued to the rest of
      the line, and ends with no pending word. */
  lemma {:induction false} ParseLoopAppendsWords(line: string, i: nat, w: string, trans: seq<string>)
    requires i < |line| && NoSpace(w)
    ensures ParseLoop(line, i, Pending(w), trans) == (None, trans + Words(w + line[i..]))
    decreases |line| - i
  {
    if i == |line| - 1 {
      ParseLastChar(line, i, w, trans);
    } else if IsSpace(line[i]) {
      ParseLoopAppendsWords(line, i + 1, [], trans + Wrap(w));
      ParseSpace(line, i, w, trans);
    } else {
      var w' := w + [line[i]];
      assert NoSpace(w');
      ParseLoopAppendsWords(line, i + 1, w', trans);
      assert StringModule.BuildString(Pending(w), line[i]) == w';
      assert w + line[i..] == w' + line[i + 1..] by {
        assert line[i..] == [line[i]] + line[i + 1..];
      }
    }
  }

  lemma ParseLastChar(line: string, i: nat, w: string, trans: seq<string>)
    requires i == |line| - 1 && NoSpace(w)
    ensures ParseLoop(line, i, Pending(w), trans) == (None, trans + Words(w + line[i..]))
  {
    var c := line[i];
    assert line[i..] == [c];
    if IsSpace(c) {
      WordsSplitAtSpace(w, c, []);
      assert w + [c] + [] == w + [c];
      PushPending(w, trans);
      assert ParseLoop(line, i, Pending(w), trans) == ParseLoop(line, i + 1, None, trans + Wrap(w));
      assert Words(w + line[i..]) == Wrap(w) + [];
      assert trans + Wrap(w) == trans + (Wrap(w) + []);
    } else {
      assert StringModule.BuildString(Pending(w), c) == w + [c];
      WordsOfWord(w + [c]);
    }
  }

  lemma ParseSpace(line: string, i: nat, w: string, trans: seq<string>)
    requires i < |line| - 1 && NoSpace(w) && IsSpace(line[i])
    requires ParseLoop(line, i + 1, None, trans + Wrap(w)) == (None, trans + Wrap(w) + Words([] + line[i + 1..]))
    ensures ParseLoop(line, i, Pending(w), trans) == (None, trans + Words(w + line[i..]))
  {
    var c := line[i];
    var rest := line[i + 1..];
    var tail := Words(rest);
    ParseLoopSpace(line, i, Pending(w), trans);
    PushPending(w, trans);
    assert [] + rest == rest;
    SpaceWords(line, i, w, c, rest);
    assert trans + Wrap(w) + tail == trans + (Wrap(w) + tail);
  }

  /** The words after a pending word and a whitespace character. */
  lemma SpaceWords(line: string, i: nat, w: string, c: char, rest: string)
    requires i < |line| && c == line[i] && rest == line[i + 1..] && NoSpace(w) && IsSpace(c)
    ensures Words(w + line[i..]) == Wrap(w) + Words(rest)
  {
    assert w + line[i..] == w + [c] + rest;
    WordsSplitAtSpace(w, c, rest);
  }

  /** Whitespace before the last character flushes the pending word. */
  lemma ParseLoopSpace(line: string, i: nat, token: Option<string>, trans: seq<string>)
    requires i < |line| - 1 && IsSpace(line[i])
    ensures ParseLoop(line, i, token, trans) == ParseLoop(line, i + 1, None, StringModule.Push(token, trans))
  {
  }

  /** `parse_translated(line)`: the words of `line` are appended to the word
      buffer, and the pending word is NULL again afterwards (it is NULL before
      every call, because every call ends with it NULL). */
  function ParseTranslated(line: string, trans: seq<string>): (r: seq<string>)
    ensures r == trans + Words(line)
    ensures ParseLoop(line, 0, None, trans).0 == None
  {
    if |line| == 0 then trans
    else
      ParseLoopAppendsWords(line, 0, [], trans);
      assert Pending([]) == None;
      assert [] + line[0..] == line;
      ParseLoop(line, 0, None, trans).1
  }

  /** "ls -l" becomes ["ls", "-l"]. */
  lemma ParseExample()
    ensures ParseTranslated("ls -l", []) == ["ls", "-l"]
  {
    WordsExample();
    assert [] + ["ls", "-l"] == ["ls", "-l"];
  }

  /** The words of "ls -l" are "ls" and "-l". */
  lemma WordsExample()
    ensures Words("ls -l") == ["ls", "-l"]
  {
    assert "ls -l" == "ls" + [' '] + "-l";
    assert NoSpace("ls") && NoSpace("-l");
    WordsSplitAtSpace("ls", ' ', "-l");
    WordsOfWord("-l");
  }
}
