/** The path-string helpers behind `cd` in src/shell.c: counting and locating
    ".." with `strstr`, cutting PWD back by a number of directories, and
    building the absolute target path. HOME and PWD are parameters (the
    source reads them with `getenv`). */
module Paths {
  import opened Common

  /** ".." starts at index `i` of `s`. */
  predicate IsDots(s: string, i: int) {
    0 <= i && i + 1 < |s| && s[i] == '.' && s[i + 1] == '.'
  }

  /** `strstr(s + from, "..")` as an index into `s`. */
  function FindDots(s: string, from: nat): (r: Option<nat>)
    requires from <= |s|
    ensures r.None? <==> forall i :: from <= i < |s| ==> !IsDots(s, i)
    ensures r.Some? ==> from <= r.value && IsDots(s, r.value)
    ensures r.Some? ==> forall i :: from <= i < r.value ==> !IsDots(s, i)
    decreases |s| - from
  {
    if from + 1 >= |s| then None
    else if s[from] == '.' && s[from + 1] == '.' then
      assert IsDots(s, from);
      Some(from)
    else FindDots(s, from + 1)
  }

  /** `count_parents(s + from)`: each match resumes the search after its two
      dots, so the occurrences counted do not overlap. */
  function CountFrom(s: string, from: nat): (r: nat)
    requires from <= |s|
    ensures 2 * r <= |s| - from
    decreases |s| - from
  {
    match FindDots(s, from)
    case None => 0
    case Some(i) => 1 + CountFrom(s, i + 2)
  }

  /** `count_parents(s)`: zero exactly when no ".." occurs, and each one
      counted takes two characters of its own. */
  function CountParents(s: string): (r: nat)
    ensures r == 0 <==> forall i :: 0 <= i < |s| ==> !IsDots(s, i)
    ensures 2 * r <= |s|
  {
    CountFrom(s, 0)
  }

  /** `get_last_parent(s + from)` as an index: the first match, then the
      `while` loop keeps moving to the last match of the rest. */
  function LastParent(s: string, from: nat): (r: Option<nat>)
    requires from <= |s|
    ensures r.None? <==> FindDots(s, from).None?
    ensures r.Some? ==> from <= r.value && IsDots(s, r.value) && FindDots(s, r.value + 2).None?
    decreases |s| - from, 1
  {
    match FindDots(s, from)
    case None => None
    case Some(i) => Some(Chase(s, i))
  }

  /** The `while (dummy != NULL)` loop of `get_last_parent`, from a match at
      `loc`. */
  function Chase(s: string, loc: nat): (r: nat)
    requires IsDots(s, loc)
    ensures loc <= r && IsDots(s, r) && FindDots(s, r + 2).None?
    decreases |s| - loc, 0
  {
    match LastParent(s, loc + 2)
    case None => loc
    case Some(d) => Chase(s, d)
  }

  /** `get_last_parent` finds nothing exactly when `count_parents` is 0. */
  lemma LastParentIffCount(s: string)
    ensures LastParent(s, 0).None? <==> CountParents(s) == 0
  {
  }

  /** The last match is the last one the counting scan visits: counting from
      it finds exactly one. */
  lemma LastParentCountsOne(s: string)
    requires CountParents(s) > 0
    ensures CountFrom(s, LastParent(s, 0).value) == 1
  {
    var k := LastParent(s, 0).value;
    assert FindDots(s, k) == Some(k);
  }

  /** "../../x" holds two parents, the last one at index 3. */
  lemma CountExample()
    ensures CountParents("../../x") == 2
    ensures LastParent("../../x", 0) == Some(3)
  {
    var s := "../../x";
    assert FindDots(s, 0) == Some(0);
    assert FindDots(s, 2) == Some(3);
    assert FindDots(s, 5) == None;
  }

  /** The number of '/' characters in `s`. */
  function Slashes(s: string): nat {
    if |s| == 0 then 0 else (if s[0] == '/' then 1 else 0) + Slashes(s[1..])
  }

  /** The `for (; end_parent != 0; end_parent--)` loop of `get_parent_dir`,
      at position `e` having seen `num` slashes after it. */
  function ParentLoop(pwd: string, n: nat, e: nat, num: nat): (r: nat)
    requires e < |pwd|
    requires num == Slashes(pwd[e + 1..]) && num <= n
    requires num == n && n > 0 ==> e + 1 < |pwd| && pwd[e + 1] == '/'
    ensures r <= e
    ensures num == n ==> r == e
    ensures r > 0 ==> Slashes(pwd[r + 1..]) == n && (n > 0 ==> pwd[r + 1] == '/')
    ensures r == 0 ==> e == 0 || Slashes(pwd[2..]) < n
    decreases e
  {
    if e == 0 then 0
    else if num == n then e
    else
      assert pwd[e..] == [pwd[e]] + pwd[e + 1..];
      assert pwd[e..][1..] == pwd[e + 1..];
      ParentLoop(pwd, n, e - 1, num + if pwd[e] == '/' then 1 else 0)
  }

  /** `get_parent_dir(n)` on a non-empty PWD: PWD cut just before the `n`-th
      '/' counted from the end, or just its first character when fewer than
      `n` slashes follow its second character. `n = 0` gives PWD itself. */
  function GetParentDir(pwd: string, n: nat): (r: string)
    requires |pwd| > 0
    ensures 0 < |r| <= |pwd| && r == pwd[..|r|]
    ensures n == 0 ==> r == pwd
    ensures |r| > 1 ==> Slashes(pwd[|r|..]) == n && (n > 0 ==> pwd[|r|] == '/')
    ensures |r| == 1 ==> |pwd| == 1 || Slashes(pwd[2..]) < n
  {
    assert pwd[|pwd|..] == [];
    var e := ParentLoop(pwd, n, |pwd| - 1, 0);
    pwd[..e + 1]
  }

  /** "/home/u" one level up is "/home", two levels up is "/". */
  lemma ParentExample()
    ensures GetParentDir("/home/u", 1) == "/home"
    ensures GetParentDir("/home/u", 2) == "/"
  {
    var p := "/home/u";
    HomeSlashes();
    var r1 := GetParentDir(p, 1);
    assert |r1| == 5;
    assert p[..5] == "/home";
    var r2 := GetParentDir(p, 2);
    assert |r2| == 1;
  }

  /** The slashes of "/home/u" after its first character: one, at index 5. */
  lemma HomeSlashes()
    ensures var p := "/home/u";
      && (forall k :: 1 < k < |p| && p[k] == '/' ==> k == 5)
      && Slashes(p[5..]) == 1 && Slashes(p[2..]) == 1
  {
    var p := "/home/u";
    assert p[6..] == "u" && p[6..][1..] == [] && Slashes(p[6..]) == 0;
    assert p[5..][1..] == p[6..];
    assert p[2..] == p[2..5] + p[5..];
    assert Slashes(p[2..5]) == 0 by {
      var q := p[2..5];
      assert q == "ome";
      assert q[1..] == "me" && q[2..] == "e" && q[3..] == "";
      assert q[1..][1..] == q[2..] && q[2..][1..] == q[3..];
      assert Slashes(q[2..]) == 0;
      assert Slashes(q[1..]) == 0;
    }
    SlashesAppend(p[2..5], p[5..]);
  }

  lemma {:induction false} SlashesAppend(a: string, b: string)
    ensures Slashes(a + b) == Slashes(a) + Slashes(b)
    decreases |a|
  {
    if |a| == 0 {
      assert a + b == b;
    } else {
      assert (a + b)[0] == a[0] && (a + b)[1..] == a[1..] + b;
      SlashesAppend(a[1..], b);
    }
  }

  /** The argument with a leading "~/" or "./" removed. */
  function Strip(arg: string): (r: string)
    ensures |arg| >= 2 && arg[1] == '/' && (arg[0] == '~' || arg[0] == '.') ==> arg == arg[..2] + r
    ensures !(|arg| >= 2 && arg[1] == '/' && (arg[0] == '~' || arg[0] == '.')) ==> r == arg
  {
    if |arg| >= 2 && arg[1] == '/' && (arg[0] == '~' || arg[0] == '.') then arg[2..] else arg
  }

  /** The path before ".." handling: HOME for an argument starting with '~',
      PWD otherwise, then '/', then the stripped argument. */
  function Joined(arg: string, home: string, pwd: string): string {
    (if |arg| > 0 && arg[0] == '~' then home else pwd) + "/" + Strip(arg)
  }

  /** `set_new_dir` for `cd arg`: without ".." the joined path; otherwise
      PWD cut back by the number of ".." (even when the path started from
      HOME), a '/', and whatever follows the last "..". */
  function SetNewDir(arg: string, home: string, pwd: string): (r: string)
    requires CountParents(Joined(arg, home, pwd)) == 0 || |pwd| > 0
    ensures var path := Joined(arg, home, pwd);
      CountParents(path) == 0 ==> r == path
    ensures var path := Joined(arg, home, pwd);
      var n := CountParents(path);
      n > 0 ==> r == GetParentDir(pwd, n) + "/" + path[LastParent(path, 0).value + 2..]
  {
    var path := Joined(arg, home, pwd);
    var n := CountParents(path);
    if n == 0 then path
    else
      var loc := LastParent(path, 0).value;
      var parent := GetParentDir(pwd, n);
      var tail := path[loc + 2..];
      assert IsDots(path, loc) && FindDots(path, loc + 2).None?;
      if |path| - 2 == loc then
        assert parent + "/" == parent + "/" + tail;
        parent + "/"
      else parent + "/" + tail
  }

  /** Without ".." the target is the base directory, a '/', and the argument
      with any leading "~/" or "./" removed. */
  lemma SetNewDirPlain(arg: string, home: string, pwd: string)
    requires forall i :: 0 <= i < |Joined(arg, home, pwd)| ==> !IsDots(Joined(arg, home, pwd), i)
    ensures SetNewDir(arg, home, pwd)
      == (if |arg| > 0 && arg[0] == '~' then home else pwd) + "/" + Strip(arg)
  {
  }

  /** With at least one "..", the target starts with a non-empty prefix of
      PWD followed by '/'. */
  lemma SetNewDirUnderPwd(arg: string, home: string, pwd: string)
    requires |pwd| > 0 && CountParents(Joined(arg, home, pwd)) > 0
    ensures var r := SetNewDir(arg, home, pwd);
      exists m :: 0 < m <= |pwd| && m < |r| && r[..m] == pwd[..m] && r[m] == '/'
  {
    var path := Joined(arg, home, pwd);
    var parent := GetParentDir(pwd, CountParents(path));
    var r := SetNewDir(arg, home, pwd);
    var tail := path[LastParent(path, 0).value + 2..];
    assert r == parent + "/" + tail;
    assert r[..|parent|] == parent && r[|parent|] == '/';
  }

  /** The ".." that the counting scan of `count_parents` visits, in order:
      each search resumes after the two dots of the previous match. */
  function Hits(s: string, from: nat): (h: seq<nat>)
    requires from <= |s|
    ensures |h| == CountFrom(s, from)
    ensures forall k :: 0 <= k < |h| ==> from <= h[k] && IsDots(s, h[k])
    decreases |s| - from
  {
    match FindDots(s, from)
    case None => []
    case Some(i) => [i] + Hits(s, i + 2)
  }

  /** `get_last_parent` lands on the last ".." the counting scan visits, so
      the number of parents and the position of the tail come from the same
      non-overlapping reading of the path. */
  lemma {:induction false} LastParentIsLastHit(s: string, from: nat)
    requires from <= |s| && CountFrom(s, from) > 0
    ensures LastParent(s, from) == Some(Hits(s, from)[CountFrom(s, from) - 1])
    decreases |s| - from
  {
    var i := FindDots(s, from).value;
    var rest := Hits(s, i + 2);
    var h := Hits(s, from);
    assert h == [i] + rest;
    assert CountFrom(s, from) == 1 + |rest|;
    assert LastParent(s, from) == Some(Chase(s, i));
    if |rest| == 0 {
      assert LastParent(s, i + 2).None?;
      assert Chase(s, i) == i;
    } else {
      LastParentIsLastHit(s, i + 2);
      var d := LastParent(s, i + 2).value;
      assert d == rest[|rest| - 1];
      assert LastParent(s, d + 2).None?;
      assert Chase(s, d) == d;
      assert Chase(s, i) == d;
      assert h[|h| - 1] == d;
    }
  }

  /** With "..", `cd` goes to PWD cut back by `n` directories followed by
      what comes after the `n`-th ".." the counting scan visits: for
      "/p/..." that is the ".." at 3, leaving ".". */
  lemma SetNewDirAfterLastCounted(arg: string, home: string, pwd: string)
    requires |pwd| > 0 && CountParents(Joined(arg, home, pwd)) > 0
    ensures var path := Joined(arg, home, pwd);
      var n := CountParents(path);
      SetNewDir(arg, home, pwd) == GetParentDir(pwd, n) + "/" + path[Hits(path, 0)[n - 1] + 2..]
  {
    var path := Joined(arg, home, pwd);
    TailAfterLastHit(path);
    var r := SetNewDir(arg, home, pwd);
    assert r == GetParentDir(pwd, CountParents(path)) + "/" + path[LastParent(path, 0).value + 2..];
  }

  /** The text after the ".." `get_last_parent` finds is the text after the
      last ".." counted. */
  lemma TailAfterLastHit(path: string)
    requires CountParents(path) > 0
    ensures LastParent(path, 0).Some?
    ensures path[LastParent(path, 0).value + 2..] == path[Hits(path, 0)[CountParents(path) - 1] + 2..]
  {
    LastParentIsLastHit(path, 0);
  }

  /** Line 617 prints into `current_path` while reading the tail from it.
      With PWD as the base and a ".." in the argument, the text written (the
      parent and its '/') ends before the tail it reads begins, so the copy
      runs ahead of the writes. */
  lemma SetNewDirPwdReadsAhead(arg: string, home: string, pwd: string, j: nat)
    requires |pwd| > 0 && !(|arg| > 0 && arg[0] == '~')
    requires |pwd| < j && IsDots(Joined(arg, home, pwd), j)
    ensures var path := Joined(arg, home, pwd);
      |GetParentDir(pwd, CountParents(path))| + 1 < LastParent(path, 0).value + 2
  {
    var path := Joined(arg, home, pwd);
    var loc := LastParent(path, 0).value;
    assert j < loc + 2 by {
      if loc + 2 <= j {
        assert false;
      }
    }
  }

  /** With HOME as the base the parent of PWD can be longer than the text
      before the tail: from /home/u with HOME "/h", `cd ~/../x` writes
      "/home/" over indices 0 to 5 while the tail "/x" starts at index 5.
      The model gives the evidently intended "/home//x". */
  lemma SetNewDirHomeOverlap()
    ensures var path := Joined("~/../x", "/h", "/home/u");
      && path == "/h/../x"
      && CountParents(path) == 1 && LastParent(path, 0) == Some(3)
      && |GetParentDir("/home/u", 1)| + 1 > 3 + 2
    ensures SetNewDir("~/../x", "/h", "/home/u") == "/home//x"
  {
    ParentExample();
    var path := "/h/../x";
    assert Joined("~/../x", "/h", "/home/u") == path;
    assert forall j :: 0 <= j < 3 ==> path[j] != '.';
    FindDotsAt(path, 0, 3);
    assert forall j :: 5 <= j < |path| ==> path[j] != '.';
    assert FindDots(path, 5) == None;
    assert path[5..] == "/x";
    assert "/home" + "/" + "/x" == "/home//x";
  }

  /** The first ".." of `s` from `from` is at `i` when `i` is a match and
      nothing earlier is. */
  lemma FindDotsAt(s: string, from: nat, i: nat)
    requires from <= i && IsDots(s, i)
    requires forall j :: from <= j < i ==> !IsDots(s, j)
    ensures FindDots(s, from) == Some(i)
  {
  }

  /** From /home/u, `cd ..` targets "/home/". */
  lemma SetNewDirUpExample(home: string)
    ensures SetNewDir("..", home, "/home/u") == "/home/"
  {
    ParentExample();
    var a := "/home/u/..";
    assert Joined("..", home, "/home/u") == a;
    assert forall j :: 0 <= j < 8 ==> a[j] != '.';
    FindDotsAt(a, 0, 8);
    assert FindDots(a, 10) == None;
    assert CountParents(a) == 1;
    assert LastParent(a, 0) == Some(8);
  }

  /** From /home/u, `cd ../x` targets "/home//x": the text after the last
      ".." keeps its own leading '/'. */
  lemma SetNewDirUpIntoExample(home: string)
    ensures SetNewDir("../x", home, "/home/u") == "/home//x"
  {
    ParentExample();
    UpIntoPath();
    var b := "/home/u/../x";
    assert Joined("../x", home, "/home/u") == b;
    assert b[10..] == "/x";
    assert "/home" + "/" + "/x" == "/home//x";
  }

  /** "/home/u/../x" holds one parent, at index 8. */
  lemma UpIntoPath()
    ensures CountParents("/home/u/../x") == 1
    ensures LastParent("/home/u/../x", 0) == Some(8)
  {
    var b := "/home/u/../x";
    assert forall j :: 0 <= j < 8 ==> b[j] != '.';
    FindDotsAt(b, 0, 8);
    assert forall j :: 10 <= j < |b| ==> b[j] != '.';
    assert FindDots(b, 10) == None;
  }
}
