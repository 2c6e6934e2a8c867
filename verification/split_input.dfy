/** The early tokenizer `split_input` of src/backup.c: whitespace separates
    words, the characters `$ | < > &` are dropped without separating anything,
    and the pending word `cmd` survives the call when the line ends in one of
    those characters. */
module SplitInput {
  import opened Common
  import StringModule
  import Translate

  /** The characters `split_input` discards. */
  predicate IsSpecial(c: char) {
    c == '$' || c == '|' || c == '<' || c == '>' || c == '&'
  }

  predicate NoSpecial(s: string) {
    forall j :: 0 <= j < |s| ==> !IsSpecial(s[j])
  }

  /** `s` with every special character deleted. */
  function Strip(s: string): (r: string)
    ensures NoSpecial(r)
    ensures |r| <= |s|
    decreases |s|
  {
    if |s| == 0 then []
    else if IsSpecial(s[0]) then Strip(s[1..])
    else [s[0]] + Strip(s[1..])
  }

  /** Only the special characters go: a string without them is unchanged,
      and every other character occurs in the result as often as in `s`
      (`StripAppend` adds that they keep their order). */
  lemma {:induction false} StripKeepsOthers(s: string)
    ensures NoSpecial(s) ==> Strip(s) == s
    ensures forall c :: !IsSpecial(c) ==> CharCount(Strip(s), c) == CharCount(s, c)
    decreases |s|
  {
    if |s| > 0 {
      StripKeepsOthers(s[1..]);
      if !IsSpecial(s[0]) {
        assert ([s[0]] + Strip(s[1..]))[1..] == Strip(s[1..]);
      }
      if NoSpecial(s) {
        assert NoSpecial(s[1..]) by {
          forall j | 0 <= j < |s[1..]|
            ensures !IsSpecial(s[1..][j])
          {
            assert s[1..][j] == s[j + 1];
          }
        }
        assert s == [s[0]] + s[1..];
      }
    }
  }

  /** How many times `c` occurs in `s`. */
  function CharCount(s: string, c: char): nat
    decreases |s|
  {
    if |s| == 0 then 0 else (if s[0] == c then 1 else 0) + CharCount(s[1..], c)
  }

  /** `add_command()` on the array `cmds[0..n_cmds]`: a NULL pending word is
      ignored; otherwise a copy goes to index `count`, a NULL follows it, and
      the count grows. The pending word itself is left alone. */
  function AddCommand(cmd: Option<string>, arr: seq<Option<string>>, count: nat): (r: (seq<Option<string>>, nat))
    requires count <= |arr|
    ensures cmd.None? ==> r == (arr, count)
    ensures cmd.Some? ==>
      && r.1 == count + 1
      && |r.0| == count + 2
      && r.0[..count] == arr[..count]
      && r.0[count] == cmd
      && r.0[count + 1] == None
  {
    if cmd.None? then (arr, count)
    else (arr[..count] + [cmd, None], count + 1)
  }

  /** `add_command` and lib/string_module.c's `add_string` build the same
      array; only the latter also consumes the pending word. */
  lemma AddCommandIsAddString(cmd: Option<string>, arr: seq<Option<string>>, count: nat)
    requires count <= |arr|
    ensures var a := StringModule.AddString(cmd, arr, count);
      AddCommand(cmd, arr, count) == (a.arr, a.count)
  {
  }

  /** The loop of `split_input` from index `i`, with pending word `cmd` and
      the words `out` emitted so far. Special characters are tested first and
      skipped, so a special last character never flushes. */
  function SplitLoop(line: string, i: nat, cmd: Option<string>, out: seq<string>): (r: (Option<string>, seq<string>))
    ensures |out| <= |r.1| && r.1[..|out|] == out
    ensures i < |line| && !IsSpecial(line[|line| - 1]) ==> r.0.None?
    decreases |line| - i
  {
    if i >= |line| then (cmd, out)
    else if IsSpecial(line[i]) then SplitLoop(line, i + 1, cmd, out)
    else if i == |line| - 1 then
      var built := if !IsSpace(line[i]) then Some(StringModule.BuildString(cmd, line[i])) else cmd;
      SplitLoop(line, i + 1, None, StringModule.Push(built, out))
    else if IsSpace(line[i]) then
      SplitLoop(line, i + 1, None, StringModule.Push(cmd, out))
    else
      SplitLoop(line, i + 1, Some(StringModule.BuildString(cmd, line[i])), out)
  }

  /** Reading `s` as the middle of a line: the words completed by whitespace,
      and the partial word still pending at the end. */
  function Mid(w: string, s: string): (r: (string, seq<string>))
    decreases |s|
  {
    if |s| == 0 then (w, [])
    else if IsSpace(s[0]) then
      var rest := Mid([], s[1..]);
      (rest.0, Translate.Wrap(w) + rest.1)
    else Mid(w + [s[0]], s[1..])
  }

  /** The completed words and the pending word together are the words of the
      text, and the pending word has no whitespace. */
  lemma {:induction false} MidWords(w: string, s: string)
    requires NoSpace(w)
    ensures NoSpace(Mid(w, s).0)
    ensures Mid(w, s).1 + Translate.Wrap(Mid(w, s).0) == Translate.Words(w + s)
    decreases |s|
  {
    if |s| == 0 {
      assert w + s == w;
      Translate.WordsOfWord(w);
    } else if IsSpace(s[0]) {
      MidWords([], s[1..]);
      assert s == [s[0]] + s[1..];
      assert w + s == w + [s[0]] + s[1..];
      Translate.WordsSplitAtSpace(w, s[0], s[1..]);
      assert [] + s[1..] == s[1..];
    } else {
      var w' := w + [s[0]];
      assert NoSpace(w');
      MidWords(w', s[1..]);
      assert w + s == w' + s[1..] by {
        assert s == [s[0]] + s[1..];
      }
    }
  }

  /** When the line does not end in a special character, the call flushes:
      the pending word glued to the line without its special characters is
      split into words, all emitted, and nothing stays pending. */
  lemma {:induction false} SplitFlushes(line: string, i: nat, w: string, out: seq<string>)
    requires i < |line| && !IsSpecial(line[|line| - 1]) && NoSpace(w)
    ensures SplitLoop(line, i, Translate.Pending(w), out)
      == (None, out + Translate.Words(w + Strip(line[i..])))
    decreases |line| - i
  {
    var c := line[i];
    if IsSpecial(c) {
      SplitFlushes(line, i + 1, w, out);
      StripSkips(line, i);
    } else if i == |line| - 1 {
      FlushLast(line, i, w, out);
    } else if IsSpace(c) {
      SplitFlushes(line, i + 1, [], out + Translate.Wrap(w));
      FlushSpace(line, i, w, out);
    } else {
      var w' := w + [c];
      assert NoSpace(w');
      SplitFlushes(line, i + 1, w', out);
      FlushWordChar(line, i, w, out);
    }
  }

  lemma StripSkips(line: string, i: nat)
    requires i < |line|
    ensures IsSpecial(line[i]) ==> Strip(line[i..]) == Strip(line[i + 1..])
    ensures !IsSpecial(line[i]) ==> Strip(line[i..]) == [line[i]] + Strip(line[i + 1..])
  {
    assert line[i..] == [line[i]] + line[i + 1..];
    assert line[i..][1..] == line[i + 1..];
  }

  lemma FlushLast(line: string, i: nat, w: string, out: seq<string>)
    requires i == |line| - 1 && !IsSpecial(line[i]) && NoSpace(w)
    ensures SplitLoop(line, i, Translate.Pending(w), out)
      == (None, out + Translate.Words(w + Strip(line[i..])))
  {
    var c := line[i];
    StripSkips(line, i);
    assert line[i + 1..] == [] && Strip(line[i..]) == [c];
    if IsSpace(c) {
      Translate.WordsSplitAtSpace(w, c, []);
      assert w + [c] + [] == w + [c];
      Translate.PushPending(w, out);
      assert SplitLoop(line, i, Translate.Pending(w), out) == SplitLoop(line, i + 1, None, out + Translate.Wrap(w));
      assert out + Translate.Wrap(w) == out + (Translate.Wrap(w) + []);
    } else {
      assert StringModule.BuildString(Translate.Pending(w), c) == w + [c];
      Translate.WordsOfWord(w + [c]);
    }
  }

  lemma FlushSpace(line: string, i: nat, w: string, out: seq<string>)
    requires i < |line| - 1 && IsSpace(line[i]) && NoSpace(w)
    requires SplitLoop(line, i + 1, None, out + Translate.Wrap(w))
      == (None, out + Translate.Wrap(w) + Translate.Words([] + Strip(line[i + 1..])))
    ensures SplitLoop(line, i, Translate.Pending(w), out)
      == (None, out + Translate.Words(w + Strip(line[i..])))
  {
    var t := Strip(line[i + 1..]);
    var a := out + Translate.Wrap(w);
    var ws := Translate.Words(t);
    WordsAfterSpace(line, i, w);
    assert [] + t == t;
    assert out + Translate.Words(w + Strip(line[i..])) == a + ws;
    assert !IsSpecial(line[i]);
    Translate.PushPending(w, out);
    assert SplitLoop(line, i, Translate.Pending(w), out) == SplitLoop(line, i + 1, None, a);
  }

  lemma WordsAfterSpace(line: string, i: nat, w: string)
    requires i < |line| && IsSpace(line[i]) && NoSpace(w)
    ensures Translate.Words(w + Strip(line[i..])) == Translate.Wrap(w) + Translate.Words(Strip(line[i + 1..]))
  {
    var c := line[i];
    var t := Strip(line[i + 1..]);
    StripSkips(line, i);
    var s := w + Strip(line[i..]);
    assert s == w + [c] + t;
    Translate.WordsSplitAtSpace(w, c, t);
  }

  lemma FlushWordChar(line: string, i: nat, w: string, out: seq<string>)
    requires i < |line| - 1 && !IsSpace(line[i]) && !IsSpecial(line[i]) && NoSpace(w)
    requires SplitLoop(line, i + 1, Translate.Pending(w + [line[i]]), out)
      == (None, out + Translate.Words(w + [line[i]] + Strip(line[i + 1..])))
    ensures SplitLoop(line, i, Translate.Pending(w), out)
      == (None, out + Translate.Words(w + Strip(line[i..])))
  {
    var c := line[i];
    StripSkips(line, i);
    assert w + ([c] + Strip(line[i + 1..])) == w + [c] + Strip(line[i + 1..]);
    assert w + Strip(line[i..]) == w + [c] + Strip(line[i + 1..]);
    assert StringModule.BuildString(Translate.Pending(w), c) == w + [c];
    assert Translate.Pending(w + [c]) == Some(w + [c]);
    assert SplitLoop(line, i, Translate.Pending(w), out) == SplitLoop(line, i + 1, Translate.Pending(w + [c]), out);
  }

  /** When the line ends in a special character nothing is flushed at the
      end: the completed words are emitted and the partial word stays pending
      for the next line. */
  lemma {:induction false} SplitKeepsPending(line: string, i: nat, w: string, out: seq<string>)
    requires i <= |line| && |line| > 0 && IsSpecial(line[|line| - 1]) && NoSpace(w)
    ensures var m := Mid(w, Strip(line[i..]));
      SplitLoop(line, i, Translate.Pending(w), out) == (Translate.Pending(m.0), out + m.1)
    decreases |line| - i
  {
    if i == |line| {
      assert line[i..] == [] && Strip(line[i..]) == [];
      assert Mid(w, []) == (w, []);
      assert out + [] == out;
    } else {
      var c := line[i];
      var rest := line[i + 1..];
      assert line[i..] == [c] + rest;
      if IsSpecial(c) {
        assert Strip(line[i..]) == Strip(rest);
        SplitKeepsPending(line, i + 1, w, out);
      } else {
        assert i < |line| - 1;
        var s := Strip(line[i..]);
        assert s == [c] + Strip(rest) && s[1..] == Strip(rest);
        if IsSpace(c) {
          SplitKeepsPending(line, i + 1, [], out + Translate.Wrap(w));
          Translate.PushPending(w, out);
          var m := Mid([], Strip(rest));
          assert out + Translate.Wrap(w) + m.1 == out + (Translate.Wrap(w) + m.1);
        } else {
          var w' := w + [c];
          assert NoSpace(w');
          assert StringModule.BuildString(Translate.Pending(w), c) == w';
          SplitKeepsPending(line, i + 1, w', out);
        }
      }
    }
  }

  /** What `split_input` leaves: the pending word and the emitted words. */
  datatype Split = Split(cmd: Option<string>, cmds: seq<string>)

  /** `split_input(line)` with the pending word `cmd` left by the previous
      line and the words `out` already in `cmds`. */
  function SplitInputLine(line: string, cmd: string, out: seq<string>): (r: Split)
    requires NoSpace(cmd)
    ensures |line| == 0 ==> r == Split(Translate.Pending(cmd), out)
    ensures |line| > 0 && !IsSpecial(line[|line| - 1]) ==>
      r == Split(None, out + Translate.Words(cmd + Strip(line)))
    ensures |line| > 0 && IsSpecial(line[|line| - 1]) ==>
      && |r.cmds| >= |out| && r.cmds[..|out|] == out
      && NoSpace(r.cmd.GetOr([]))
      && r.cmds[|out|..] + Translate.Wrap(r.cmd.GetOr([])) == Translate.Words(cmd + Strip(line))
  {
    var loop := SplitLoop(line, 0, Translate.Pending(cmd), out);
    if |line| == 0 then Split(loop.0, loop.1)
    else if !IsSpecial(line[|line| - 1]) then
      SplitFlushes(line, 0, cmd, out);
      assert line[0..] == line;
      Split(loop.0, loop.1)
    else
      SplitKeepsPending(line, 0, cmd, out);
      assert line[0..] == line;
      var m := Mid(cmd, Strip(line));
      MidWords(cmd, Strip(line));
      assert loop.1[|out|..] == m.1;
      assert Translate.Pending(m.0).GetOr([]) == m.0;
      Split(loop.0, loop.1)
  }

  /** Starting from no pending word, every emitted word is non-empty and
      free of whitespace and of the special characters. */
  lemma CleanTokens(line: string, out: seq<string>)
    ensures var r := SplitInputLine(line, [], out);
      forall k :: |out| <= k < |r.cmds| ==>
        |r.cmds[k]| > 0 && NoSpace(r.cmds[k]) && NoSpecial(r.cmds[k])
  {
    var r := SplitInputLine(line, [], out);
    var s := Strip(line);
    assert [] + s == s;
    Translate.WordsWellFormed(s);
    forall k | |out| <= k < |r.cmds|
      ensures |r.cmds[k]| > 0 && NoSpace(r.cmds[k]) && NoSpecial(r.cmds[k])
    {
      var x := r.cmds[k];
      if |line| > 0 {
        var tail := r.cmds[|out|..] + Translate.Wrap(r.cmd.GetOr([]));
        assert x == tail[k - |out|];
        assert x in Translate.Words(s);
        forall j | 0 <= j < |x|
          ensures !IsSpecial(x[j])
        {
          assert x[j] in s;
        }
      }
    }
  }

  /** Stripping works character by character, so it distributes over
      concatenation. */
  lemma {:induction false} StripAppend(a: string, b: string)
    ensures Strip(a + b) == Strip(a) + Strip(b)
    decreases |a|
  {
    if |a| == 0 {
      assert a + b == b;
    } else {
      assert (a + b)[0] == a[0] && (a + b)[1..] == a[1..] + b;
      StripAppend(a[1..], b);
    }
  }

  /** A string without special characters is left as it is. */
  lemma {:induction false} StripClean(s: string)
    requires NoSpecial(s)
    ensures Strip(s) == s
    decreases |s|
  {
    if |s| > 0 {
      assert NoSpecial(s[1..]) by {
        forall j | 0 <= j < |s[1..]| ensures !IsSpecial(s[1..][j]) {
          assert s[1..][j] == s[j + 1];
        }
      }
      StripClean(s[1..]);
      assert s == [s[0]] + s[1..];
    }
  }

  /** Stripping drops the '$' of "ls $HOME". */
  lemma StripDollarExample()
    ensures Strip("ls $HOME") == "ls HOME"
  {
    assert "ls $HOME" == "ls " + "$HOME";
    StripAppend("ls ", "$HOME");
    StripLs();
    StripDollarHome();
    assert "ls " + "HOME" == "ls HOME";
  }

  lemma StripLs()
    ensures Strip("ls ") == "ls "
  {
    StripClean("ls ");
  }

  lemma StripDollarHome()
    ensures Strip("$HOME") == "HOME"
  {
    assert "$HOME"[1..] == "HOME";
    StripClean("HOME");
  }

  /** `ls $HOME` becomes the two words `ls` and `HOME`. */
  lemma SplitDropsDollar()
    ensures SplitInputLine("ls $HOME", [], []) == Split(None, ["ls", "HOME"])
  {
    var l1 := "ls $HOME";
    assert l1[|l1| - 1] == 'E';
    StripDollarExample();
    LsHomeWords();
    assert [] + Strip(l1) == "ls HOME";
    assert [] + Translate.Words("ls HOME") == ["ls", "HOME"];
  }

  lemma LsHomeWords()
    ensures Translate.Words("ls HOME") == ["ls", "HOME"]
  {
    assert Translate.Words("HOME") == ["HOME"] by {
      Translate.WordsOfWord("HOME");
    }
    assert "ls HOME" == "ls" + [' '] + "HOME";
    Translate.WordsSplitAtSpace("ls", ' ', "HOME");
  }

  lemma MidExample()
    ensures Mid([], "echo a") == ("a", ["echo"])
  {
    var t := "echo a";
    assert "a"[1..] == [] && [] + ['a'] == "a";
    assert Mid([], "a") == Mid("a", []) == ("a", []);
    assert " a"[1..] == "a" && IsSpace(" a"[0]);
    assert Translate.Wrap("echo") + [] == ["echo"];
    assert Mid("echo", " a") == ("a", ["echo"]);
    assert "o a"[1..] == " a" && "ech" + ['o'] == "echo";
    assert Mid("ech", "o a") == Mid("echo", " a");
    assert "ho a"[1..] == "o a" && "ec" + ['h'] == "ech";
    assert Mid("ec", "ho a") == Mid("ech", "o a");
    assert "cho a"[1..] == "ho a" && "e" + ['c'] == "ec";
    assert Mid("e", "cho a") == Mid("ec", "ho a");
    assert [] + ['e'] == "e";
    assert t[1..] == "cho a";
  }

  /** `echo a|` emits `echo` and leaves `a` pending. */
  lemma SplitKeepsTrailingWord()
    ensures SplitInputLine("echo a|", [], []) == Split(Some("a"), ["echo"])
  {
    var l2 := "echo a|";
    assert Strip(l2) == "echo a" by {
      var t := l2[1..][1..][1..][1..][1..][1..];
      assert t == "|";
      assert Strip(t) == [];
    }
    MidExample();
    SplitKeepsPending(l2, 0, [], []);
    assert l2[0..] == l2;
  }
}
