/** Which working directories path_clean_up can start from: the exact spellings for which
    every relative path keeps its location. */
module WorkingDirectory {
  import opened Splitting
  import opened PathCleanUp
  import opened PathMeaning

  /** Cleaning does not move this path. */
  predicate Preserved(cwd: string, path: string)
    requires IsDirectory(cwd)
  {
    Denote(Here(cwd), Clean(cwd, path)) == Denote(Here(cwd), path)
  }

  ghost predicate AllPreserved(cwd: string)
    requires IsDirectory(cwd)
  {
    forall path :: Preserved(cwd, path)
  }

  /** k steps up, then down to "x". */
  function Up(k: nat): string {
    if k == 0 then "x" else "../" + Up(k - 1)
  }

  function Dots(k: nat): (pieces: seq<string>)
    ensures |pieces| == k
  {
    seq(k, _ => "..")
  }

  lemma {:induction false} UpPieces(k: nat)
    ensures Split(Up(k), '/') == Dots(k) + ["x"] && !Absolute(Up(k))
  {
    if k == 0 {
      SplitWhole("x", '/');
    } else {
      UpPieces(k - 1);
      assert Up(k) == ".." + ['/'] + Up(k - 1);
      hide Split;
      SplitConcat("..", Up(k - 1), '/');
      SplitWhole("..", '/');
      assert [".."] + (Dots(k - 1) + ["x"]) == Dots(k) + ["x"];
    }
  }

  /** What steps up leave of a stack. */
  function Dropped(stack: seq<string>, k: nat): seq<string> {
    if k <= |stack| then stack[..|stack| - k] else []
  }

  lemma {:induction false} DotsDrop(stack: seq<string>, k: nat)
    ensures Resolve(stack, Dots(k)) == Dropped(stack, k)
    ensures k <= |stack| ==> Underflows(stack, Dots(k)) == 0
  {
    if k > 0 {
      DotsDrop(stack, k - 1);
      assert Front(Dots(k)) == Dots(k - 1);
    }
  }

  /** Keeping the location of k steps up means that the last k components are k levels deep. */
  lemma UpPreserved(cwd: string, k: nat)
    requires IsDirectory(cwd) && k <= |Names(cwd)| && Preserved(cwd, Up(k))
    ensures Resolve([], Dropped(Names(cwd), k)) == Dropped(Here(cwd), k)
  {
    var names, path := Names(cwd), Up(k);
    UpPieces(k);
    DirectoryNames(cwd);
    DotsDrop(names, k);
    FrontLast(Dots(k), ["x"]);
    assert Finished(path) == Dots(k) && Last(Split(path, '/')) == "x" && Base(cwd, path) == names;
    assert Clean(cwd, path) == Layout("/", Dropped(names, k), "x");
    assert SlashFree(Dropped(names, k));
    assert Denote(Here(cwd), path) == Resolve(Here(cwd), Dots(k) + ["x"]);
    assert Denote(Here(cwd), Clean(cwd, path)) == Denote(Here(cwd), path);
    DotsDrop(Here(cwd), k);
    hide Resolve, Denote, Dropped, Names, Layout, Split, Clean, Underflows;
    ResolveSnoc(Here(cwd), Dots(k), "x");
    DenoteLayout(Here(cwd), "/", Dropped(names, k), "x");
    var a, b := Resolve([], Dropped(names, k)), Dropped(Here(cwd), k);
    assert a + ["x"] == b + ["x"];
    assert a == (a + ["x"])[..|a + ["x"]| - 1];
  }

  /** A component deepens the location exactly if it is a name. */
  lemma NameDeepens(pieces: seq<string>, m: nat)
    requires m < |pieces| && '/' !in pieces[m]
    ensures |Resolve([], pieces[..m + 1])| == |Resolve([], pieces[..m])| + 1 <==> IsName(pieces[m])
  {
    assert Front(pieces[..m + 1]) == pieces[..m];
  }

  /** Every ending of k components is k levels deep, as far as there are levels. */
  ghost predicate DepthsAgree(names: seq<string>) {
    forall k :: 0 <= k <= |names| ==> Resolve([], Dropped(names, k)) == Dropped(Resolve([], names), k)
  }

  /** Then names come last. */
  lemma DepthSettles(names: seq<string>)
    requires SlashFree(names) && DepthsAgree(names)
    ensures Settled(names)
  {
    assert forall m :: 0 <= m < |names| ==> '/' !in names[m];
    hide DepthsAgree, Resolve, IsName, SlashFree;
    forall i, j | 0 <= i < j < |names| && IsName(names[i]) ensures IsName(names[j]) {
      NameFollows(names, i, j);
    }
  }

  lemma NameFollows(names: seq<string>, i: nat, j: nat)
    requires i < j < |names| && '/' !in names[i] && '/' !in names[j]
    requires DepthsAgree(names) && IsName(names[i])
    ensures IsName(names[j])
  {
    hide *;
    NameDeepens(names, i);
    NameDeepens(names, j);
    Depth(names, i);
    Depth(names, i + 1);
    Depth(names, j);
    Depth(names, j + 1);
  }

  lemma Depth(names: seq<string>, m: nat)
    requires m <= |names| && DepthsAgree(names)
    ensures var h := |Resolve([], names)|;
            |Resolve([], names[..m])| == if |names| - m <= h then h - (|names| - m) else 0
  {
    var k := |names| - m;
    assert Dropped(names, k) == names[..m];
    assert Resolve([], Dropped(names, k)) == Dropped(Resolve([], names), k);
    hide Resolve;
  }

  /** Every path keeps its location exactly if no empty, "." or ".." component of the
      working directory follows a name. */
  lemma DenotesExact(cwd: string)
    requires IsDirectory(cwd)
    ensures AllPreserved(cwd) <==> Settled(Names(cwd))
  {
    hide Names, Denote, Clean;
    if Settled(Names(cwd)) {
      forall path ensures Preserved(cwd, path) {
        CleanDenotes(cwd, path);
      }
    }
    if AllPreserved(cwd) {
      DirectoryNames(cwd);
      hide Resolve, Dropped, Settled, SlashFree;
      forall k | 0 <= k <= |Names(cwd)|
        ensures Resolve([], Dropped(Names(cwd), k)) == Dropped(Resolve([], Names(cwd)), k)
      {
        assert Preserved(cwd, Up(k));
        UpPreserved(cwd, k);
      }
      DepthSettles(Names(cwd));
    }
  }
}
