/** What path_clean_up's result means: the laws of PathCleanUp.Clean. */
module PathMeaning {
  import opened Buffers
  import opened Splitting
  import opened PathCleanUp

  /** A name that is neither empty nor one of the two special components. */
  predicate IsName(piece: string) {
    piece !in {"", ".", ".."} && '/' !in piece
  }

  predicate AllNames(pieces: seq<string>) {
    forall k :: 0 <= k < |pieces| ==> IsName(pieces[k])
  }

  /** The working directory is spelled without empty, "." or ".." components. */
  predicate CleanDirectory(cwd: string) {
    IsDirectory(cwd) && AllNames(Names(cwd))
  }

  lemma {:induction false} ResolveNames(stack: seq<string>, pieces: seq<string>)
    requires AllNames(stack)
    requires forall k :: 0 <= k < |pieces| ==> '/' !in pieces[k]
    ensures AllNames(Resolve(stack, pieces))
  {
    if pieces != [] {
      ResolveNames(stack, Front(pieces));
    }
  }

  lemma {:induction false} ResolveConcat(stack: seq<string>, a: seq<string>, b: seq<string>)
    ensures Resolve(stack, a + b) == Resolve(Resolve(stack, a), b)
    ensures Underflows(stack, a + b) == Underflows(stack, a) + Underflows(Resolve(stack, a), b)
  {
    if b == [] {
      assert a + b == a;
    } else {
      FrontLast(a, b);
      ResolveConcat(stack, a, Front(b));
    }
  }

  /** Names push themselves and never underflow. */
  lemma {:induction false} ResolvePush(stack: seq<string>, names: seq<string>)
    requires AllNames(names)
    ensures Resolve(stack, names) == stack + names && Underflows(stack, names) == 0
  {
    if names != [] {
      ResolvePush(stack, Front(names));
      assert IsName(Last(names));
    }
  }

  /** The pieces of a laid-out path are the root's, the stack and the last one. */
  lemma {:induction false} SplitLayout(root: string, stack: seq<string>, last: string)
    requires root == "/" || root == "//"
    requires SlashFree(stack) && '/' !in last
    ensures Split(Layout(root, stack, last), '/') == RootPieces(root) + stack + [last]
  {
    if stack == [] {
      SplitRoot(root, last);
    } else {
      var names, name := Front(stack), Last(stack);
      assert stack == names + [name];
      assert '/' !in name && SlashFree(names);
      SplitLayout(root, names, name);
      hide *;
      var t := Layout(root, names, name);
      SplitConcat(t, last, '/');
      SplitWhole(last, '/');
      LayoutName(root, names, name);
      LayoutAppend(root, stack, last);
      assert t + ['/'] + last == (t + "/") + last;
      assert RootPieces(root) + names + [name] == RootPieces(root) + (names + [name]);
    }
  }

  lemma SplitRoot(root: string, last: string)
    requires root == "/" || root == "//"
    requires '/' !in last
    ensures Split(Layout(root, [], last), '/') == RootPieces(root) + [] + [last]
  {
    assert Layout(root, [], last) == root + last;
    SplitWhole(last, '/');
    SplitLead(last);
    if root == "//" {
      SplitLead("/" + last);
      assert "/" + ("/" + last) == "//" + last;
    }
  }

  lemma SplitLead(s: string)
    ensures Split("/" + s, '/') == [""] + Split(s, '/')
  {
    hide *;
    SplitWhole("", '/');
    SplitConcat("", s, '/');
    assert "" + ['/'] + s == "/" + s;
  }

  function RootPieces(root: string): seq<string> {
    if root == "//" then ["", ""] else [""]
  }

  /** The root, names and last piece a cleaned path consists of. */
  lemma WrittenParts(cwd: string, path: string) returns (root: string, stack: seq<string>, last: string)
    requires Absolute(path) || CleanDirectory(cwd)
    ensures root == Root(path, Underflows(Base(cwd, path), Finished(path)))
    ensures stack == Resolve(Base(cwd, path), Finished(path))
    ensures last == Last(Split(path, '/'))
    ensures Written(cwd, path) == Layout(root, stack, last)
    ensures AllNames(stack) && SlashFree(stack) && '/' !in last
  {
    root, stack, last := Root(path, Underflows(Base(cwd, path), Finished(path))), Resolve(Base(cwd, path), Finished(path)), Last(Split(path, '/'));
    PiecesClean(path, '/');
    ResolveNames(Base(cwd, path), Finished(path));
  }

  /** No empty, "." or ".." component follows a name. */
  predicate Settled(pieces: seq<string>) {
    forall i, j :: 0 <= i < j < |pieces| && IsName(pieces[i]) ==> IsName(pieces[j])
  }

  /** The location of the working directory itself. */
  function Here(cwd: string): seq<string>
    requires IsDirectory(cwd)
  {
    Resolve([], Names(cwd))
  }

  /** Cleaning preserves the location. */
  lemma CleanDenotes(cwd: string, path: string)
    requires Absolute(path) || (IsDirectory(cwd) && Settled(Names(cwd)))
    ensures var here := if IsDirectory(cwd) then Here(cwd) else [];
            Denote(here, Clean(cwd, path)) == Denote(here, path)
  {
    if !Escapes(cwd, path) {
      var base, finished, last := Base(cwd, path), Finished(path), Last(Split(path, '/'));
      var stack, root := Resolve(base, finished), Root(path, Underflows(base, finished));
      PiecesClean(path, '/');
      assert Split(path, '/') == finished + [last] && SlashFree(finished);
      assert Clean(cwd, path) == Layout(root, stack, last);
      if Absolute(path) {
        ResolveNames([], finished);
        ResolvePush([], stack);
        assert Resolve([], stack) == stack == Resolve([], finished);
      } else {
        DirectoryNames(cwd);
        assert Underflows(base, finished) == 0;
        SettledResolve(base, finished);
        assert Resolve([], stack) == Resolve(Here(cwd), finished);
      }
      ResolveSlashFree(base, finished);
      var here := if IsDirectory(cwd) then Here(cwd) else [];
      var start := if Absolute(path) then [] else here;
      assert root == "/" || root == "//";
      assert Denote(here, path) == Resolve(start, finished + [last]);
      hide *;
      ResolveSnoc(start, finished, last);
      DenoteLayout(here, root, stack, last);
    }
  }

  lemma ResolveSnoc(stack: seq<string>, pieces: seq<string>, last: string)
    ensures Resolve(stack, pieces + [last]) == Enter(Resolve(stack, pieces), last)
  {
    assert Front(pieces + [last]) == pieces;
  }

  /** What a laid-out path denotes, whatever stands in its stack. */
  lemma DenoteLayout(here: seq<string>, root: string, stack: seq<string>, last: string)
    requires root == "/" || root == "//"
    requires SlashFree(stack) && '/' !in last
    ensures Denote(here, Layout(root, stack, last)) == Enter(Resolve([], stack), last)
  {
    assert Absolute(Layout(root, stack, last));
    assert Denote(here, Layout(root, stack, last)) == Resolve([], Split(Layout(root, stack, last), '/'));
    hide *;
    SplitLayout(root, stack, last);
    RootResolves(root);
    ResolveConcat([], RootPieces(root), stack);
    ResolveSnoc([], RootPieces(root) + stack, last);
  }

  lemma RootResolves(root: string)
    ensures Resolve([], RootPieces(root)) == [] && Underflows([], RootPieces(root)) == 0
  {
    assert Front([""]) == [] && Front(["", ""]) == [""];
    assert Resolve([], [""]) == [] && Underflows([], [""]) == 0;
  }

  /** Resolving the components of a settled directory before or after it is entered makes
      no difference, as long as none of them leaves it by the root. */
  lemma {:induction false} SettledResolve(stack: seq<string>, pieces: seq<string>)
    requires Settled(stack) && SlashFree(stack) && SlashFree(pieces) && Underflows(stack, pieces) == 0
    ensures Settled(Resolve(stack, pieces)) && SlashFree(Resolve(stack, pieces))
    ensures Resolve([], Resolve(stack, pieces)) == Resolve(Resolve([], stack), pieces)
  {
    if pieces != [] {
      SettledResolve(stack, Front(pieces));
      SettledEnter(Resolve(stack, Front(pieces)), Last(pieces));
    }
  }

  lemma SettledEnter(stack: seq<string>, piece: string)
    requires Settled(stack) && SlashFree(stack) && '/' !in piece && (piece == ".." ==> stack != [])
    ensures Settled(Enter(stack, piece)) && SlashFree(Enter(stack, piece))
    ensures Resolve([], Enter(stack, piece)) == Enter(Resolve([], stack), piece)
  {
    if piece == ".." {
      if !IsName(Last(stack)) {
        JunkResolves(stack);
        JunkResolves(Front(stack));
      }
    } else if IsName(piece) {
      assert Front(stack + [piece]) == stack;
    }
  }

  /** Components without a name among them lead nowhere. */
  lemma {:induction false} JunkResolves(stack: seq<string>)
    requires SlashFree(stack) && forall k :: 0 <= k < |stack| ==> !IsName(stack[k])
    ensures Resolve([], stack) == []
  {
    if stack != [] {
      JunkResolves(Front(stack));
      assert !IsName(Last(stack));
    }
  }

  lemma ReadBack(root: string, stack: seq<string>, last: string)
    requires root == "/" || root == "//"
    requires AllNames(stack)
    ensures var pieces := RootPieces(root) + stack;
            Resolve([], pieces) == stack && Underflows([], pieces) == 0
    ensures Resolve([], RootPieces(root) + stack + [last]) == Enter(stack, last)
  {
    RootResolves(root);
    ResolveConcat([], RootPieces(root), stack);
    ResolvePush([], stack);
    ResolveSnoc([], RootPieces(root) + stack, last);
  }

  /** A leading pair survives exactly while no ".." has been met at the root. */
  lemma PairKept(cwd: string, path: string)
    requires Absolute(path) || CleanDirectory(cwd)
    ensures HasPair(Clean(cwd, path)) <==>
            HasPair(path) && (Escapes(cwd, path) || Underflows(Base(cwd, path), Finished(path)) == 0)
  {
    if !Escapes(cwd, path) {
      var root, stack, last := WrittenParts(cwd, path);
      LayoutPair(root, stack, last);
    }
  }

  /** Which paths begin with a pair: two slashes and not a third. */
  lemma PairIs(path: string)
    ensures HasPair(path) <==>
            |path| >= 2 && path[..2] == "//" && (|path| == 2 || path[2] != '/')
  {
    if |path| >= 2 { assert path[..2] == [path[0], path[1]]; }
  }

  lemma LayoutPair(root: string, stack: seq<string>, last: string)
    requires root == "/" || root == "//"
    requires AllNames(stack) && '/' !in last
    ensures Absolute(Layout(root, stack, last))
    ensures HasPair(Layout(root, stack, last)) <==> root == "//"
  {
    var rest := Terminated(stack) + last;
    assert Layout(root, stack, last) == root + rest;
    assert rest != "" ==> rest[0] != '/' by {
      if stack == [] {
        assert rest == last;
      } else {
        FirstOfTerminated(stack);
      }
    }
  }

  lemma {:induction false} FirstOfTerminated(stack: seq<string>)
    requires AllNames(stack) && stack != []
    ensures Terminated(stack) != "" && Terminated(stack)[0] != '/'
  {
    var name := Last(stack);
    assert IsName(name) && name != "";
    if Front(stack) != [] {
      FirstOfTerminated(Front(stack));
    } else {
      assert Terminated(stack) == name + "/";
      assert name[0] in name;
    }
  }

  /** What follows the last slash is kept as it is. */
  lemma LastKept(cwd: string, path: string)
    requires Absolute(path) || CleanDirectory(cwd)
    ensures Last(Split(Clean(cwd, path), '/')) == Last(Split(path, '/'))
  {
    if !Escapes(cwd, path) {
      var root, stack, last := WrittenParts(cwd, path);
      RootKinds(path, Underflows(Base(cwd, path), Finished(path)));
      SplitLayout(root, stack, last);
    }
  }

  /** Cleaning twice is cleaning once. */
  lemma CleanIdempotent(cwd: string, path: string)
    requires Absolute(path) || CleanDirectory(cwd)
    ensures Clean(cwd, Clean(cwd, path)) == Clean(cwd, path)
  {
    if !Escapes(cwd, path) {
      var root, stack, last := WrittenParts(cwd, path);
      var out := Layout(root, stack, last);
      SplitLayout(root, stack, last);
      LayoutPair(root, stack, last);
      ReadBack(root, stack, last);
      assert Finished(out) == RootPieces(root) + stack && Last(Split(out, '/')) == last;
      assert Root(out, 0) == root;
    }
  }

  /** On the normal exit no "/./" and no "/../" is left, and no "//" but a leading
      pair the input had too. */
  lemma CleanNormal(cwd: string, path: string, a: string, b: string)
    requires Absolute(path) || CleanDirectory(cwd)
    requires !Escapes(cwd, path)
    ensures Clean(cwd, path) != a + "/./" + b
    ensures Clean(cwd, path) != a + "/../" + b
    ensures Clean(cwd, path) == a + "//" + b ==> a == "" && HasPair(path)
  {
    assert !Absolute(path) ==> IsDirectory(cwd);
    hide *;
    var root, stack, last := WrittenParts(cwd, path);
    CleanWritten(cwd, path);
    RootKinds(path, Underflows(Base(cwd, path), Finished(path)));
    NoDot(root, stack, last, a, b);
    NoDotDot(root, stack, last, a, b);
    NoPair(root, stack, last, a, b);
  }

  lemma NoDot(root: string, stack: seq<string>, last: string, a: string, b: string)
    requires root == "/" || root == "//"
    requires AllNames(stack) && SlashFree(stack) && '/' !in last
    ensures Layout(root, stack, last) != a + "/./" + b
  {
    hide *;
    NoPiece(root, stack, last, a, ".", "/./", b);
  }

  lemma NoDotDot(root: string, stack: seq<string>, last: string, a: string, b: string)
    requires root == "/" || root == "//"
    requires AllNames(stack) && SlashFree(stack) && '/' !in last
    ensures Layout(root, stack, last) != a + "/../" + b
  {
    hide *;
    NoPiece(root, stack, last, a, "..", "/../", b);
  }

  lemma NoPair(root: string, stack: seq<string>, last: string, a: string, b: string)
    requires root == "/" || root == "//"
    requires AllNames(stack) && SlashFree(stack) && '/' !in last
    ensures Layout(root, stack, last) == a + "//" + b ==> root == "//" && a == ""
  {
    hide *;
    NoPiece(root, stack, last, a, "", "//", b);
  }

  lemma CleanWritten(cwd: string, path: string)
    requires !Absolute(path) ==> IsDirectory(cwd)
    requires !Escapes(cwd, path)
    ensures Clean(cwd, path) == Written(cwd, path)
  {
  }

  lemma RootKinds(path: string, underflows: nat)
    ensures var root := Root(path, underflows);
            (root == "/" || root == "//") && (root == "//" ==> HasPair(path))
  {
  }

  /** What a laid-out path can hold between two slashes, given as text. */
  lemma NoPiece(root: string, stack: seq<string>, last: string, a: string, piece: string, text: string, b: string)
    requires root == "/" || root == "//"
    requires AllNames(stack) && SlashFree(stack) && '/' !in last
    requires (piece == "" || piece == "." || piece == "..") && text == "/" + piece + "/"
    ensures Layout(root, stack, last) == a + text + b ==> piece == "" && root == "//" && a == ""
  {
    assert '/' !in piece;
    hide *;
    if Layout(root, stack, last) == a + text + b {
      Enclosed(a, text, piece, b);
      InnerPiece(root, stack, last, a, piece, b);
    }
  }

  lemma Enclosed(a: string, text: string, piece: string, b: string)
    requires text == "/" + piece + "/"
    ensures a + text + b == a + "/" + piece + "/" + b
  {
  }

  /** A piece enclosed by slashes shows up in the split, after the first one. */
  lemma Between(a: string, piece: string, b: string)
    requires '/' !in piece
    ensures Split(a + "/" + piece + "/" + b, '/') == Split(a, '/') + [piece] + Split(b, '/')
  {
    hide *;
    SplitConcat(a, piece + "/" + b, '/');
    SplitConcat(piece, b, '/');
    SplitWhole(piece, '/');
    assert a + ['/'] + (piece + "/" + b) == a + "/" + piece + "/" + b;
    assert piece + ['/'] + b == piece + "/" + b;
    assert Split(a, '/') + ([piece] + Split(b, '/')) == Split(a, '/') + [piece] + Split(b, '/');
  }

  /** What a laid-out path can hold between two slashes. */
  lemma InnerPiece(root: string, stack: seq<string>, last: string, a: string, piece: string, b: string)
    requires root == "/" || root == "//"
    requires AllNames(stack) && SlashFree(stack) && '/' !in last && '/' !in piece
    requires Layout(root, stack, last) == a + "/" + piece + "/" + b
    ensures (piece == "" && root == "//" && a == "") || piece !in {"", ".", ".."}
  {
    Between(a, piece, b);
    SplitLayout(root, stack, last);
    InnerIndex(RootPieces(root), stack, last, Split(a, '/'), piece, Split(b, '/'));
    if |Split(a, '/')| == 1 { JoinSplit(a, '/'); }
  }

  lemma InnerIndex(rootPieces: seq<string>, stack: seq<string>, last: string,
                   before: seq<string>, piece: string, after: seq<string>)
    requires rootPieces == [""] || rootPieces == ["", ""]
    requires AllNames(stack) && before != [] && after != []
    requires rootPieces + stack + [last] == before + [piece] + after
    ensures (piece == "" && rootPieces == ["", ""] && before == [""]) || piece !in {"", ".", ".."}
  {
    var k := |before|;
    var all := rootPieces + stack + [last];
    assert all[k] == piece && all[0] == before[0];
    if k >= |rootPieces| {
      assert IsName(stack[k - |rootPieces|]);
    }
  }

  /** `text` stands in `s` at offset i. */
  predicate Occurs(s: string, i: nat, text: string) {
    i + |text| <= |s| && s[i..i + |text|] == text
  }

  /** No "/./" and no "/../", and no "//" but at the start. */
  ghost predicate Normal(s: string) {
    && (forall i: nat :: !Occurs(s, i, "/./"))
    && (forall i: nat :: !Occurs(s, i, "/../"))
    && (forall i: nat :: Occurs(s, i, "//") ==> i == 0)
  }

  /** An absolute path is cleaned to a normal form exactly if it does not escape: the
      path returned untouched still has its "/../". */
  lemma NormalExact(cwd: string, path: string)
    requires Absolute(path)
    ensures Normal(Clean(cwd, path)) <==> !Escapes(cwd, path)
  {
    var out := Clean(cwd, path);
    hide *;
    if !Escapes(cwd, path) {
      forall i: nat ensures !Occurs(out, i, "/./") && !Occurs(out, i, "/../") && (Occurs(out, i, "//") ==> i == 0) {
        NormalAt(cwd, path, i);
      }
      NormalIntro(out);
    } else {
      var i := EscapeOccurs(cwd, path);
      NotNormal(out, i);
    }
  }

  lemma NormalAt(cwd: string, path: string, i: nat)
    requires Absolute(path) && !Escapes(cwd, path)
    ensures var out := Clean(cwd, path);
            !Occurs(out, i, "/./") && !Occurs(out, i, "/../") && (Occurs(out, i, "//") ==> i == 0)
  {
    var out := Clean(cwd, path);
    hide *;
    OccursSplit(out, i, "/./");
    OccursSplit(out, i, "/../");
    OccursSplit(out, i, "//");
    if i <= |out| {
      CleanNormal(cwd, path, out[..i], if i + 3 <= |out| then out[i + 3..] else "");
      CleanNormal(cwd, path, out[..i], if i + 4 <= |out| then out[i + 4..] else "");
      CleanNormal(cwd, path, out[..i], if i + 2 <= |out| then out[i + 2..] else "");
    }
  }

  lemma OccursSplit(s: string, i: nat, text: string)
    ensures Occurs(s, i, text) ==> i + |text| <= |s| && s == s[..i] + text + s[i + |text|..]
  {
  }

  lemma NormalIntro(s: string)
    requires forall i: nat :: !Occurs(s, i, "/./") && !Occurs(s, i, "/../") && (Occurs(s, i, "//") ==> i == 0)
    ensures Normal(s)
  {
  }

  lemma NotNormal(s: string, i: nat)
    requires Occurs(s, i, "/../")
    ensures !Normal(s)
  {
  }

  /** Where an escaping path shows a "/../". */
  lemma EscapeOccurs(cwd: string, path: string) returns (i: nat)
    requires Absolute(path) && Escapes(cwd, path)
    ensures Occurs(Clean(cwd, path), i, "/../")
  {
    var pieces := Split(path, '/');
    assert Clean(cwd, path) == path && Underflows([], Front(pieces)) > 0;
    LeadingPieces(path);
    JoinSplit(path, '/');
    hide *;
    var k := UnderflowAt([], Front(pieces));
    FrontAt(pieces, 0);
    FrontAt(pieces, k);
    assert pieces[0] != pieces[k];
    i := MiddleOccurs(pieces, k);
  }

  lemma FrontAt(s: seq<string>, k: nat)
    requires s != [] && k < |Front(s)|
    ensures k + 1 < |s| && Front(s)[k] == s[k]
  {
  }

  lemma MiddleOccurs(pieces: seq<string>, k: nat) returns (i: nat)
    requires 0 < k < |pieces| - 1 && pieces[k] == ".."
    ensures Occurs(Join(pieces, '/'), i, "/../")
  {
    var a, b := pieces[..k], pieces[k + 1..];
    assert pieces == a + [".."] + b;
    hide *;
    JoinMiddle(a, "..", b, '/');
    i := |Join(a, '/')|;
    OccursMiddle(Join(a, '/'), Join(b, '/'));
  }

  lemma OccursMiddle(a: string, b: string)
    ensures Occurs(a + ['/'] + ".." + ['/'] + b, |a|, "/../")
  {
  }

  lemma {:induction false} UnderflowAt(stack: seq<string>, pieces: seq<string>) returns (k: nat)
    requires Underflows(stack, pieces) > 0
    ensures k < |pieces| && pieces[k] == ".."
  {
    if Last(pieces) == ".." {
      k := |pieces| - 1;
    } else {
      k := UnderflowAt(stack, Front(pieces));
    }
  }

  lemma JoinMiddle(a: seq<string>, piece: string, b: seq<string>, sep: char)
    requires a != [] && b != []
    ensures Join(a + [piece] + b, sep) == Join(a, sep) + [sep] + piece + [sep] + Join(b, sep)
  {
    hide *;
    JoinConcat(a + [piece], b, sep);
    JoinSnoc(a, piece, sep);
  }

  /** The cleaned path is no longer than the text it was made from. */
  lemma CleanShorter(cwd: string, path: string)
    requires !Absolute(path) ==> IsDirectory(cwd)
    ensures |Clean(cwd, path)| <= |path| + if Absolute(path) then 0 else |cwd|
  {
    if !Escapes(cwd, path) {
      var base, root := Base(cwd, path), Root(path, Underflows(Base(cwd, path), Finished(path)));
      PathLength(path);
      if Absolute(path) {
        LeadingPieces(path);
        ResolveShorter(base, Finished(path), if HasPair(path) then 2 else 1);
      } else {
        DirectoryNames(cwd);
        ResolveShorter(base, Finished(path), 0);
      }
    }
  }

  lemma PathLength(path: string)
    ensures |path| == |Terminated(Finished(path))| + |Last(Split(path, '/'))|
  {
    JoinSplit(path, '/');
    if |Split(path, '/')| > 1 {
      TerminatedJoin(Finished(path));
    }
  }

  lemma LeadingPieces(path: string)
    requires Absolute(path)
    ensures [""] <= Finished(path) && (HasPair(path) ==> ["", ""] <= Finished(path))
  {
    FirstSlash(path);
    SplitPrefix(path, 1, '/');
    if HasPair(path) {
      PiecesStep(path, 1);
      SplitPrefix(path, 2, '/');
    }
  }

  /** Leading empty pieces are slashes that resolving drops. */
  lemma {:induction false} ResolveShorter(stack: seq<string>, pieces: seq<string>, k: nat)
    requires k <= |pieces| && forall j :: 0 <= j < k ==> pieces[j] == ""
    ensures |Terminated(Resolve(stack, pieces))| + k <= |Terminated(stack)| + |Terminated(pieces)|
  {
    if pieces != [] {
      ResolveShorter(stack, Front(pieces), if k == |pieces| then k - 1 else k);
    }
  }

  /** With a working directory spelled with "..", a further ".." removes the wrong
      thing: "../x" from "/a/../" is "/x", and is cleaned to "/a/x". */
  lemma UncleanDirectory()
    ensures IsDirectory("/a/../") && !Absolute("../x")
    ensures Names("/a/../") == ["a", ".."] && Resolve([], ["a", ".."]) == []
    ensures Denote([], "../x") == ["x"]
    ensures Clean("/a/../", "../x") == "/a/x"
  {
    UncleanSpelling();
    UncleanPieces();
    UncleanResolve();
    UncleanLayout();
    assert Front(["..", "x"]) == [".."] && Last(["..", "x"]) == "x";
    hide Split, Resolve, Underflows, Layout, Names, Absolute, HasPair, IsDirectory;
  }

  lemma UncleanSpelling()
    ensures IsDirectory("/a/../") && !Absolute("../x") && !HasPair("../x")
  {
  }

  lemma UncleanLayout()
    ensures Layout("/", ["a"], "x") == "/a/x"
  {
    assert Terminated(["a"]) == "a/";
  }

  lemma UncleanResolve()
    ensures Resolve([], ["a", ".."]) == [] && Resolve([], ["..", "x"]) == ["x"]
    ensures Resolve(["a", ".."], [".."]) == ["a"] && Underflows(["a", ".."], [".."]) == 0
  {
    ResolveLast([], ["a", ".."]);
    ResolveLast([], ["a"]);
    ResolveLast([], ["..", "x"]);
    ResolveLast([], [".."]);
    ResolveLast(["a", ".."], [".."]);
    assert Front(["a", ".."]) == ["a"] && Front(["a"]) == [] && Front(["..", "x"]) == [".."] && Front([".."]) == [];
  }

  lemma UncleanPieces()
    ensures IsDirectory("/a/../")
    ensures Names("/a/../") == ["a", ".."] && Split("../x", '/') == ["..", "x"]
  {
    assert "/a/../"[1..5] == "a" + ['/'] + "..";
    assert "../x" == ".." + ['/'] + "x";
    hide Split;
    SplitConcat("a", "..", '/');
    SplitConcat("..", "x", '/');
    SplitWhole("a", '/');
    SplitWhole("..", '/');
    SplitWhole("x", '/');
  }
}
