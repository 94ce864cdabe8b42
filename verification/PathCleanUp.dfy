/** path_clean_up of which.cpp: the one-pass path normaliser, specified over
    the components of the path. */
module PathCleanUp {
  import opened Buffers
  import opened Splitting

  const RESULT_SIZE := 256

  // ---------------------------------------------------------------- meaning

  /** What one path component does to the stack of directory names (section
      4.11 of IEEE Std 1003.1-2004, Base Definitions). */
  function Enter(stack: seq<string>, piece: string): seq<string> {
    if piece == "" || piece == "." then stack
    else if piece == ".." then (if stack == [] then [] else Front(stack))
    else stack + [piece]
  }

  function Resolve(stack: seq<string>, pieces: seq<string>): seq<string> {
    if pieces == [] then stack else Enter(Resolve(stack, Front(pieces)), Last(pieces))
  }

  predicate Absolute(path: string) {
    path != "" && path[0] == '/'
  }

  /** The location a path denotes for a process whose working directory is `cwd`. */
  function Denote(cwd: seq<string>, path: string): seq<string> {
    Resolve(if Absolute(path) then [] else cwd, Split(path, '/'))
  }

  // ------------------------------------------------------------- reference

  /** How many of the components are a ".." met at the root. */
  function Underflows(stack: seq<string>, pieces: seq<string>): nat {
    if pieces == [] then 0
    else
      Underflows(stack, Front(pieces)) +
      if Last(pieces) == ".." && Resolve(stack, Front(pieces)) == [] then 1 else 0
  }

  /** Every name followed by a slash. */
  function Terminated(stack: seq<string>): string {
    if stack == [] then "" else Terminated(Front(stack)) + Last(stack) + "/"
  }

  /** Exactly two leading slashes. */
  predicate HasPair(path: string) {
    |path| >= 2 && path[0] == '/' && path[1] == '/' && (|path| > 2 ==> path[2] != '/')
  }

  predicate IsDirectory(cwd: string) {
    cwd != "" && cwd[0] == '/' && Last(cwd) == '/'
  }

  /** The names in "/a/b/": the pieces between the first and the last slash. */
  function Names(cwd: string): seq<string>
    requires IsDirectory(cwd)
  {
    if cwd == "/" then [] else Split(cwd[1..|cwd| - 1], '/')
  }

  function Base(cwd: string, path: string): seq<string>
    requires !Absolute(path) ==> IsDirectory(cwd)
  {
    if Absolute(path) then [] else Names(cwd)
  }

  function Allowance(path: string): nat {
    if HasPair(path) then 1 else 0
  }

  function Root(path: string, underflows: nat): string {
    if HasPair(path) && underflows == 0 then "//" else "/"
  }

  /** The components that a slash ends. */
  function Finished(path: string): seq<string> {
    Front(Split(path, '/'))
  }

  /** More ".." at the root than the leading slashes can absorb. */
  predicate Escapes(cwd: string, path: string)
    requires !Absolute(path) ==> IsDirectory(cwd)
  {
    Underflows(Base(cwd, path), Finished(path)) > Allowance(path)
  }

  /** The cleaned path: the finished components resolved and written out, then
      the unfinished last one verbatim; a path that escapes is left alone. */
  function Clean(cwd: string, path: string): string
    requires !Absolute(path) ==> IsDirectory(cwd)
  {
    if Escapes(cwd, path) then path else Written(cwd, path)
  }

  function Written(cwd: string, path: string): string
    requires !Absolute(path) ==> IsDirectory(cwd)
  {
    var base := Base(cwd, path);
    Layout(Root(path, Underflows(base, Finished(path))), Resolve(base, Finished(path)), Last(Split(path, '/')))
  }

  function Layout(root: string, stack: seq<string>, last: string): string {
    root + Terminated(stack) + last
  }

  // ------------------------------------------------------- the C algorithm

  /** `buf` holds the NUL-terminated string `s`. */
  predicate Holds(buf: seq<char>, s: string) {
    |s| < |buf| && buf[..|s|] == s && buf[|s|] == '\0'
  }

  lemma HoldsPrefix(buf: seq<char>, n: nat)
    requires n < |buf| && buf[n] == '\0'
    ensures Holds(buf, buf[..n])
  {
  }

  /** Where the k-th slash from the end is, or -1. */
  function SlashFromEnd(s: string, k: nat): (p: int)
    ensures -1 <= p < |s|
  {
    if s == "" then -1
    else if Last(s) != '/' then SlashFromEnd(Front(s), k)
    else if k <= 1 then |s| - 1
    else SlashFromEnd(Front(s), k - 1)
  }

  /** The inner backtracking loop: steps back over three slashes. */
  method StepBack(result: array<char>, start: nat) returns (p2: int)
    requires start <= result.Length
    ensures p2 == SlashFromEnd(result[..start], 3)
  {
    p2 := start;
    var cnt := 0;
    while cnt != 3
      invariant 0 <= cnt <= 3 && 0 <= p2 <= start
      invariant cnt < 3 ==> SlashFromEnd(result[..start], 3) == SlashFromEnd(result[..p2], 3 - cnt)
      invariant cnt == 3 ==> SlashFromEnd(result[..start], 3) == p2
      decreases p2, 3 - cnt
    {
      p2 := p2 - 1;
      if p2 < 0 {
        assert result[..0] == "";
        return;
      }
      assert Front(result[..p2 + 1]) == result[..p2];
      if result[p2] == '/' {
        cnt := cnt + 1;
      }
    }
  }

  /** What the buffer holds, and how the three flags stand, after i characters. */
  ghost predicate Scanned(cwd: string, path: string, i: nat, out: string, slash: bool, dot: bool, dotDot: bool)
    requires i <= |path| && (!Absolute(path) ==> IsDirectory(cwd))
  {
    if Absolute(path) && i == 0 then
      out == "" && !slash && !dot && !dotDot
    else
      var base := Base(cwd, path);
      var pieces := Split(path[..i], '/');
      var u := Underflows(base, Front(pieces));
      && u <= Allowance(path)
      && out == Layout(Root(if i < 2 then "" else path, u), Resolve(base, Front(pieces)), Last(pieces))
      && (slash <==> Last(pieces) == "")
      && (dot <==> Last(pieces) == ".")
      && (dotDot <==> Last(pieces) == "..")
  }

  method Copy(result: array<char>, s: string)
    requires |s| < result.Length
    modifies result
    ensures Holds(result[..], s) && result[..|s|] == s
  {
    for i := 0 to |s|
      invariant result[..i] == s[..i]
    {
      result[i] := s[i];
    }
    result[|s|] := '\0';
  }

  predicate RunsOff(out: string, c: char, keep: bool, dotDot: bool) {
    c == '/' && dotDot && SlashFromEnd(if keep then out + [c] else out, 3) < 0
  }

  /** The buffer after writing one character and undoing what it completes. */
  function Turn(out: string, c: char, keep: bool, dot: bool, dotDot: bool): string
    requires c == '/' && dot ==> |out| >= 2
    requires c == '/' && dotDot ==> !dot
  {
    var out1 := if keep then out + [c] else out;
    if c == '/' && dotDot then out1[..SlashFromEnd(out1, 3) + 1]
    else if c == '/' && dot then out1[..|out1| - 2]
    else out1
  }

  /** The writing and backtracking of one turn of the main loop; -1 when it runs off the front. */
  method TakeTurn(c: char, keep: bool, dot: bool, dotDot: bool, result: array<char>, start: nat) returns (p2: int)
    requires start < result.Length
    requires c == '/' && dot ==> start >= 2
    requires c == '/' && dotDot ==> !dot
    modifies result
    ensures p2 == -1 || 0 <= p2 <= start + 1
    ensures p2 == -1 <==> RunsOff(old(result[..start]), c, keep, dotDot)
    ensures p2 != -1 ==> result[..p2] == Turn(old(result[..start]), c, keep, dot, dotDot)
  {
    p2 := start;
    if keep {
      result[p2] := c;
      p2 := p2 + 1;
      assert result[..p2] == old(result[..start]) + [c];
    }
    if dot && c == '/' {
      p2 := p2 - 2;
    }
    if dotDot && c == '/' {
      p2 := StepBack(result, p2);
      if p2 >= 0 {
        p2 := p2 + 1;
      }
    }
  }

  method CleanUp(cwd: string, path: string, result: array<char>)
    requires '\0' !in path && '\0' !in cwd
    requires !Absolute(path) ==> IsDirectory(cwd)
    requires result.Length == RESULT_SIZE
    requires |path| + (if Absolute(path) then 0 else |cwd|) < RESULT_SIZE
    modifies result
    ensures Holds(result[..], Clean(cwd, path))
  {
    hide *;
    var p2 := 0;
    var slash, dot, dotDot := false, false, false;
    ScanStart(cwd, path);
    if !Absolute(path) {
      Copy(result, cwd);
      slash := true;
      p2 := |cwd|;
    }
    var i := 0;
    while i < |path|
      invariant 0 <= i <= |path|
      invariant 0 <= p2 <= i + (if Absolute(path) then 0 else |cwd|)
      invariant Scanned(cwd, path, i, result[..p2], slash, dot, dotDot)
    {
      var c := path[i];
      ScanStep(cwd, path, i, result[..p2], slash, dot, dotDot);
      var keep := !slash || c != '/' || (i == 1 && At(path, 2) != '/');
      p2 := TakeTurn(c, keep, dot, dotDot, result, p2);
      if p2 < 0 {
        EscapeStays(cwd, path, i + 1);
        Copy(result, path);
        return;
      }
      slash, dot, dotDot := c == '/', slash && c == '.', dot && c == '.';
      i := i + 1;
    }
    ScanEnd(cwd, path, result[..p2], slash, dot, dotDot);
    result[p2] := '\0';
    HoldsPrefix(result[..], p2);
  }

  // ------------------------------------------------ why a step is correct

  predicate SlashFree(pieces: seq<string>) {
    forall k :: 0 <= k < |pieces| ==> '/' !in pieces[k]
  }

  lemma {:induction false} ResolveSlashFree(stack: seq<string>, pieces: seq<string>)
    requires SlashFree(stack) && SlashFree(pieces)
    ensures SlashFree(Resolve(stack, pieces))
  {
    if pieces != [] {
      ResolveSlashFree(stack, Front(pieces));
    }
  }

  lemma {:induction false} TerminatedJoin(pieces: seq<string>)
    requires |pieces| > 0
    ensures Terminated(pieces) == Join(pieces, '/') + "/"
  {
    if |pieces| > 1 {
      TerminatedJoin(Front(pieces));
    }
  }

  lemma SlashFreeIntro(pieces: seq<string>)
    requires forall k :: 0 <= k < |pieces| ==> '/' !in pieces[k]
    ensures SlashFree(pieces)
  {
  }

  lemma DirectoryNames(cwd: string)
    requires IsDirectory(cwd)
    ensures cwd == "/" + Terminated(Names(cwd))
    ensures SlashFree(Names(cwd))
  {
    if cwd != "/" {
      var inner := cwd[1..|cwd| - 1];
      assert cwd == "/" + (inner + "/");
      assert Names(cwd) == Split(inner, '/');
      hide *;
      JoinSplit(inner, '/');
      PiecesClean(inner, '/');
      TerminatedJoin(Names(cwd));
      SlashFreeIntro(Names(cwd));
    }
  }

  lemma {:induction false} BackOverText(s: string, x: string, k: nat)
    requires '/' !in x
    ensures SlashFromEnd(s + x, k) == SlashFromEnd(s, k)
  {
    if x == "" {
      assert s + x == s;
    } else {
      assert Last(x) in x;
      assert Front(s + x) == s + Front(x);
      BackOverText(s, Front(x), k);
    }
  }

  lemma BackOverSlash(s: string, k: nat)
    ensures SlashFromEnd(s + "/", k) == if k <= 1 then |s| else SlashFromEnd(s, k - 1)
  {
    assert Front(s + "/") == s;
  }

  lemma ScanStart(cwd: string, path: string)
    requires !Absolute(path) ==> IsDirectory(cwd)
    ensures Scanned(cwd, path, 0, if Absolute(path) then "" else cwd, !Absolute(path), false, false)
  {
    if !Absolute(path) {
      DirectoryNames(cwd);
      assert path[..0] == "";
    }
  }

  lemma ScanEnd(cwd: string, path: string, out: string, slash: bool, dot: bool, dotDot: bool)
    requires !Absolute(path) ==> IsDirectory(cwd)
    requires Scanned(cwd, path, |path|, out, slash, dot, dotDot)
    ensures out == Clean(cwd, path)
  {
    assert path[..|path|] == path;
  }

  /** Pieces after one more character. */
  lemma PiecesStep(path: string, i: nat)
    requires i < |path|
    ensures var pieces, next := Split(path[..i], '/'), Split(path[..i + 1], '/');
            if path[i] == '/' then Front(next) == pieces && Last(next) == ""
            else Front(next) == Front(pieces) && Last(next) == Last(pieces) + [path[i]]
  {
    assert path[..i + 1] == path[..i] + [path[i]];
    SplitSnoc(path[..i], path[i], '/');
  }

  /** The text written by the time a slash arrives, and its parts. */
  lemma ScanStep(cwd: string, path: string, i: nat, out: string, slash: bool, dot: bool, dotDot: bool)
    requires i < |path| && (!Absolute(path) ==> IsDirectory(cwd))
    requires Scanned(cwd, path, i, out, slash, dot, dotDot)
    ensures path[i] == '/' ==> (dot ==> |out| >= 2) && (dotDot ==> !dot)
    ensures var c := path[i];
            var keep := !slash || c != '/' || (i == 1 && At(path, 2) != '/');
            if RunsOff(out, c, keep, dotDot) then
              Underflows(Base(cwd, path), Front(Split(path[..i + 1], '/'))) > Allowance(path)
            else
              Scanned(cwd, path, i + 1, Turn(out, c, keep, dot, dotDot), c == '/', slash && c == '.', dot && c == '.')
  {
    hide Scanned, Split, Underflows, Resolve, SlashFromEnd;
    if Absolute(path) && i == 0 {
      ScanFirst(cwd, path, out, slash, dot, dotDot);
    } else {
      var last := Last(Split(path[..i], '/'));
      ScannedFlags(cwd, path, i, out, slash, dot, dotDot);
      if path[i] != '/' {
        ScanText(cwd, path, i, out, slash, dot, dotDot);
      } else if last == "" {
        ScanEmpty(cwd, path, i, out, slash, dot, dotDot);
      } else if last == ".." {
        ScanUp(cwd, path, i, out, slash, dot, dotDot);
      } else {
        ScanName(cwd, path, i, out, slash, dot, dotDot);
      }
    }
  }

  lemma ScanFirst(cwd: string, path: string, out: string, slash: bool, dot: bool, dotDot: bool)
    requires Absolute(path) && Scanned(cwd, path, 0, out, slash, dot, dotDot)
    ensures !slash && !dot && !dotDot && Scanned(cwd, path, 1, out + "/", true, false, false)
  {
    FirstSlash(path);
  }

  lemma ScannedFlags(cwd: string, path: string, i: nat, out: string, slash: bool, dot: bool, dotDot: bool)
    requires i <= |path| && (!Absolute(path) ==> IsDirectory(cwd)) && (Absolute(path) ==> i > 0)
    requires Scanned(cwd, path, i, out, slash, dot, dotDot)
    ensures var last := Last(Split(path[..i], '/'));
            (slash <==> last == "") && (dot <==> last == ".") && (dotDot <==> last == "..") && |out| >= 1 + |last|
  {
    hide Split, Underflows, Resolve, Terminated;
  }

  /** One more component, resolved. */
  lemma ResolveLast(stack: seq<string>, pieces: seq<string>)
    requires pieces != []
    ensures Resolve(stack, pieces) == Enter(Resolve(stack, Front(pieces)), Last(pieces))
    ensures Underflows(stack, pieces) == Underflows(stack, Front(pieces)) +
              if Last(pieces) == ".." && Resolve(stack, Front(pieces)) == [] then 1 else 0
  {
  }

  /** The three ways the layout grows by one character. */
  lemma LayoutText(root: string, stack: seq<string>, last: string, c: char)
    ensures Layout(root, stack, last + [c]) == Layout(root, stack, last) + [c]
  {
  }

  lemma LayoutName(root: string, stack: seq<string>, last: string)
    ensures Layout(root, stack + [last], "") == Layout(root, stack, last) + "/"
  {
    assert Front(stack + [last]) == stack;
    var t := Terminated(stack);
    assert Terminated(stack + [last]) == t + last + "/";
    hide *;
    assert root + (t + last + "/") + "" == (root + t + last) + "/";
  }

  lemma LayoutDot(root: string, stack: seq<string>)
    ensures var out1 := Layout(root, stack, ".") + "/";
            |out1| >= 2 && out1[..|out1| - 2] == Layout(root, stack, "")
  {
    var t := root + Terminated(stack);
    hide Terminated;
    assert Layout(root, stack, ".") == t + ".";
    assert Layout(root, stack, "") == t;
  }

  lemma EndsInSlash(root: string, stack: seq<string>)
    requires root != "" && Last(root) == '/'
    ensures var kept := Layout(root, stack, "");
            kept != "" && Last(kept) == '/' && Front(kept) + "/" == kept
  {
    var kept := Layout(root, stack, "");
    if stack == [] {
      assert kept == root;
    } else {
      var t := Terminated(stack);
      assert t != "" && Last(t) == '/';
      hide Terminated;
      assert kept == root + t;
    }
  }

  /** Three slashes back from ".../name/../" leave ".../". */
  lemma LayoutUp(root: string, stack: seq<string>)
    requires root != "" && Last(root) == '/'
    requires stack != [] && '/' !in Last(stack)
    ensures var out1 := Layout(root, stack, "..") + "/";
            var p := SlashFromEnd(out1, 3);
            p >= 0 && out1[..p + 1] == Layout(root, Front(stack), "")
  {
    var kept, name := Layout(root, Front(stack), ""), Last(stack);
    assert stack == Front(stack) + [name];
    hide *;
    EndsInSlash(root, Front(stack));
    LayoutName(root, Front(stack), name);
    LayoutAppend(root, Front(stack), name);
    LayoutAppend(root, stack, "..");
    var out1 := (kept + name + "/" + "..") + "/";
    BackThree(kept, name);
    assert out1[..|kept|] == kept;
  }

  /** Three slashes back over a name and "/../" is the slash before the name. */
  lemma BackThree(kept: string, name: string)
    requires kept != "" && Last(kept) == '/' && '/' !in name
    ensures SlashFromEnd((kept + name + "/" + "..") + "/", 3) == |kept| - 1
  {
    hide *;
    BackOverSlash(kept + name + "/" + "..", 3);
    BackOverText(kept + name + "/", "..", 2);
    BackOverSlash(kept + name, 2);
    BackOverText(kept, name, 1);
    LastSlash(kept);
  }

  lemma LastSlash(s: string)
    requires s != "" && Last(s) == '/'
    ensures SlashFromEnd(s, 1) == |s| - 1
  {
  }

  lemma LayoutAppend(root: string, stack: seq<string>, last: string)
    ensures Layout(root, stack, last) == Layout(root, stack, "") + last
  {
    hide Terminated;
    assert root + Terminated(stack) + "" == root + Terminated(stack);
  }

  /** At the root there are too few slashes, unless the path began with a pair. */
  lemma LayoutUnder(root: string)
    requires root == "/" || root == "//"
    ensures var out1 := Layout(root, [], "..") + "/";
            var p := SlashFromEnd(out1, 3);
            p == |root| - 2 && out1[..p + 1] == root[1..]
  {
    assert Layout(root, [], "..") == root + "..";
    assert root == root[1..] + "/";
    BackOverSlash(root + "..", 3);
    BackOverText(root, "..", 2);
    BackOverSlash(root[1..], 2);
    if root == "//" {
      BackOverSlash("", 1);
    }
  }

  /** Assembles Scanned from what the next prefix resolves to. */
  lemma ScannedIntro(cwd: string, path: string, i: nat, root: string, stack: seq<string>, last: string)
    requires 0 < i <= |path| && (!Absolute(path) ==> IsDirectory(cwd))
    requires last == Last(Split(path[..i], '/'))
    requires stack == Resolve(Base(cwd, path), Front(Split(path[..i], '/')))
    requires Underflows(Base(cwd, path), Front(Split(path[..i], '/'))) <= Allowance(path)
    requires root == Root(if i < 2 then "" else path, Underflows(Base(cwd, path), Front(Split(path[..i], '/'))))
    ensures Scanned(cwd, path, i, Layout(root, stack, last), last == "", last == ".", last == "..")
  {
  }

  lemma ScanText(cwd: string, path: string, i: nat, out: string, slash: bool, dot: bool, dotDot: bool)
    requires i < |path| && (!Absolute(path) ==> IsDirectory(cwd)) && (Absolute(path) ==> i > 0)
    requires Scanned(cwd, path, i, out, slash, dot, dotDot)
    requires path[i] != '/'
    ensures Scanned(cwd, path, i + 1, out + [path[i]], false, slash && path[i] == '.', dot && path[i] == '.')
  {
    hide Split, Underflows, Resolve, Terminated;
    PiecesStep(path, i);
    if i == 1 && Absolute(path) { FirstSlash(path); }
    var base, pieces, c := Base(cwd, path), Split(path[..i], '/'), path[i];
    var u, stack, last := Underflows(base, Front(pieces)), Resolve(base, Front(pieces)), Last(pieces);
    var root := Root(if i < 2 then "" else path, u);
    assert root == Root(if i + 1 < 2 then "" else path, u);
    assert out == Layout(root, stack, last);
    assert (slash <==> last == "") && (dot <==> last == ".") && u <= Allowance(path);
    hide *;
    assert (last + [c])[..|last|] == last;
    assert last + [c] == "." <==> last == "" && c == '.';
    assert last + [c] == ".." <==> last == "." && c == '.';
    LayoutText(root, stack, last, c);
    ScannedIntro(cwd, path, i + 1, root, stack, last + [c]);
  }

  lemma FirstSlash(path: string)
    requires Absolute(path)
    ensures Split(path[..1], '/') == ["", ""]
  {
    PiecesStep(path, 0);
    assert path[..0] == "";
  }

  lemma ScanEmpty(cwd: string, path: string, i: nat, out: string, slash: bool, dot: bool, dotDot: bool)
    requires i < |path| && (!Absolute(path) ==> IsDirectory(cwd)) && (Absolute(path) ==> i > 0)
    requires Scanned(cwd, path, i, out, slash, dot, dotDot)
    requires path[i] == '/' && Last(Split(path[..i], '/')) == ""
    ensures Scanned(cwd, path, i + 1, if i == 1 && At(path, 2) != '/' then out + "/" else out, true, false, false)
  {
    PiecesStep(path, i);
    if i == 1 {
      PiecesStep(path, 0);
      if Absolute(path) {
        FirstSlash(path);
        assert Front(["", ""]) == [""];
        assert Resolve([], [""]) == [] && Underflows([], [""]) == 0;
        assert Resolve([], ["", ""]) == [] && Underflows([], ["", ""]) == 0;
        assert out == "/";
      }
    }
  }

  lemma ScanName(cwd: string, path: string, i: nat, out: string, slash: bool, dot: bool, dotDot: bool)
    requires i < |path| && (!Absolute(path) ==> IsDirectory(cwd)) && (Absolute(path) ==> i > 0)
    requires Scanned(cwd, path, i, out, slash, dot, dotDot)
    requires path[i] == '/' && Last(Split(path[..i], '/')) !in {"", ".."}
    ensures var out1 := out + "/";
            Scanned(cwd, path, i + 1, if dot then out1[..|out1| - 2] else out1, true, false, false)
  {
    hide Split, Underflows, Resolve, Terminated;
    PiecesStep(path, i);
    if i == 1 && Absolute(path) { FirstSlash(path); }
    var base, pieces := Base(cwd, path), Split(path[..i], '/');
    ResolveLast(base, pieces);
    var u, stack, last := Underflows(base, Front(pieces)), Resolve(base, Front(pieces)), Last(pieces);
    var root := Root(if i < 2 then "" else path, u);
    assert root == Root(if i + 1 < 2 then "" else path, u);
    assert out == Layout(root, stack, last) && (dot <==> last == ".") && u <= Allowance(path);
    assert Resolve(base, pieces) == if dot then stack else stack + [last];
    assert Underflows(base, pieces) == u;
    hide *;
    if dot {
      LayoutDot(root, stack);
    } else {
      LayoutName(root, stack, last);
    }
    ScannedIntro(cwd, path, i + 1, root, if dot then stack else stack + [last], "");
  }

  lemma ScanUp(cwd: string, path: string, i: nat, out: string, slash: bool, dot: bool, dotDot: bool)
    requires i < |path| && (!Absolute(path) ==> IsDirectory(cwd)) && (Absolute(path) ==> i > 0)
    requires Scanned(cwd, path, i, out, slash, dot, dotDot)
    requires path[i] == '/' && Last(Split(path[..i], '/')) == ".."
    ensures var p := SlashFromEnd(out + "/", 3);
            if p < 0 then
              Underflows(Base(cwd, path), Front(Split(path[..i + 1], '/'))) > Allowance(path)
            else
              Scanned(cwd, path, i + 1, (out + "/")[..p + 1], true, false, false)
  {
    hide *;
    PiecesStep(path, i);
    UpFacts(cwd, path, i, out, slash, dot, dotDot);
    if Resolve(Base(cwd, path), Front(Split(path[..i], '/'))) == [] {
      ScanUnder(cwd, path, i, out, slash, dot, dotDot);
    } else {
      ScanPop(cwd, path, i, out, slash, dot, dotDot);
    }
  }

  /** A ".." at the root. */
  lemma ScanUnder(cwd: string, path: string, i: nat, out: string, slash: bool, dot: bool, dotDot: bool)
    requires i < |path| && (!Absolute(path) ==> IsDirectory(cwd)) && (Absolute(path) ==> i > 0)
    requires Scanned(cwd, path, i, out, slash, dot, dotDot)
    requires path[i] == '/' && Last(Split(path[..i], '/')) == ".."
    requires Resolve(Base(cwd, path), Front(Split(path[..i], '/'))) == []
    ensures var p := SlashFromEnd(out + "/", 3);
            if p < 0 then
              Underflows(Base(cwd, path), Front(Split(path[..i + 1], '/'))) > Allowance(path)
            else
              Scanned(cwd, path, i + 1, (out + "/")[..p + 1], true, false, false)
  {
    hide *;
    var root := Root(if i < 2 then "" else path, Underflows(Base(cwd, path), Front(Split(path[..i], '/'))));
    PiecesStep(path, i);
    UpFacts(cwd, path, i, out, slash, dot, dotDot);
    LayoutUnder(root);
    if root == "//" {
      ScannedIntro(cwd, path, i + 1, "/", [], "");
    }
  }

  /** A ".." that removes a name. */
  lemma ScanPop(cwd: string, path: string, i: nat, out: string, slash: bool, dot: bool, dotDot: bool)
    requires i < |path| && (!Absolute(path) ==> IsDirectory(cwd)) && (Absolute(path) ==> i > 0)
    requires Scanned(cwd, path, i, out, slash, dot, dotDot)
    requires path[i] == '/' && Last(Split(path[..i], '/')) == ".."
    requires Resolve(Base(cwd, path), Front(Split(path[..i], '/'))) != []
    ensures var p := SlashFromEnd(out + "/", 3);
            p >= 0 && Scanned(cwd, path, i + 1, (out + "/")[..p + 1], true, false, false)
  {
    hide *;
    var stack := Resolve(Base(cwd, path), Front(Split(path[..i], '/')));
    var root := Root(if i < 2 then "" else path, Underflows(Base(cwd, path), Front(Split(path[..i], '/'))));
    PiecesStep(path, i);
    UpFacts(cwd, path, i, out, slash, dot, dotDot);
    LayoutUp(root, stack);
    ScannedIntro(cwd, path, i + 1, root, Front(stack), "");
  }

  lemma UpFacts(cwd: string, path: string, i: nat, out: string, slash: bool, dot: bool, dotDot: bool)
    requires i < |path| && (!Absolute(path) ==> IsDirectory(cwd)) && (Absolute(path) ==> i > 0)
    requires Scanned(cwd, path, i, out, slash, dot, dotDot)
    requires path[i] == '/' && Last(Split(path[..i], '/')) == ".."
    ensures var base, pieces := Base(cwd, path), Split(path[..i], '/');
            var u, stack := Underflows(base, Front(pieces)), Resolve(base, Front(pieces));
            var root := Root(if i < 2 then "" else path, u);
            && out == Layout(root, stack, "..")
            && root != "" && Last(root) == '/' && (root == "/" || root == "//")
            && root == Root(if i + 1 < 2 then "" else path, u)
            && (if stack == [] then
                  && Underflows(base, pieces) == u + 1
                  && Resolve(base, pieces) == []
                  && (root == "//" ==> u + 1 <= Allowance(path) && Layout("/", [], "") == "/" == Root(path, u + 1) && i > 0)
                  && (root == "/" ==> u + 1 > Allowance(path))
                else
                  && Underflows(base, pieces) == u <= Allowance(path)
                  && Resolve(base, pieces) == Front(stack)
                  && '/' !in Last(stack))
  {
    assert Layout("/", [], "") == "/";
    hide Split, Underflows, Resolve, Terminated;
    if i == 1 && Absolute(path) { FirstSlash(path); }
    ResolveLast(Base(cwd, path), Split(path[..i], '/'));
    FoundSlashFree(cwd, path, i);
  }

  lemma FoundSlashFree(cwd: string, path: string, i: nat)
    requires i <= |path| && (!Absolute(path) ==> IsDirectory(cwd))
    ensures SlashFree(Resolve(Base(cwd, path), Front(Split(path[..i], '/'))))
  {
    if !Absolute(path) { DirectoryNames(cwd); }
    PiecesClean(path[..i], '/');
    ResolveSlashFree(Base(cwd, path), Front(Split(path[..i], '/')));
  }

  lemma {:induction false} UnderflowsMonotone(stack: seq<string>, few: seq<string>, many: seq<string>)
    requires few <= many
    ensures Underflows(stack, few) <= Underflows(stack, many)
    decreases |many|
  {
    if few != many {
      UnderflowsMonotone(stack, few, Front(many));
    }
  }

  /** Running off the front early is running off the front. */
  lemma EscapeStays(cwd: string, path: string, i: nat)
    requires i <= |path| && (!Absolute(path) ==> IsDirectory(cwd))
    requires Underflows(Base(cwd, path), Front(Split(path[..i], '/'))) > Allowance(path)
    ensures Escapes(cwd, path) && Clean(cwd, path) == path
  {
    SplitPrefix(path, i, '/');
    UnderflowsMonotone(Base(cwd, path), Front(Split(path[..i], '/')), Finished(path));
  }
}
