/** path_search of which.cpp: the search along PATH and the cleaning of what it finds,
    with its display options off. */
module Which {
  import opened Wrappers
  import opened Buffers
  import opened Splitting
  import opened PathCleanUp
  import opened PathMeaning
  import opened PathSearch
  import Tilde

  /** What strncpy makes of a zeroed buffer: the text with zeros to the end, or as much of
      the text as there is room for and no terminator. */
  predicate Copied(out: seq<char>, text: string) {
    && (forall k :: 0 <= k < |text| && k < |out| ==> out[k] == text[k])
    && (forall k :: |text| <= k < |out| ==> out[k] == '\0')
  }

  /** The first executable file for a command along a PATH. */
  function Match(expand: Tilde.Expander, fs: string -> FileInfo, cmd: string, pathList: string): Option<string> {
    if pathList == "" then None else FirstMatch(expand, fs, Split(pathList, ':'), cmd)
  }

  /** A file name that path_clean_up has room for. */
  predicate Cleanable(cwd: string, path: string) {
    && '\0' !in path && '\0' !in cwd
    && (!Absolute(path) ==> IsDirectory(cwd))
    && |path| + (if Absolute(path) then 0 else |cwd|) < RESULT_SIZE
  }

  method Search(expand: Tilde.Expander, fs: string -> FileInfo, cwd: string, cmd: string, pathList: string, out: array<char>)
    returns (found: bool)
    requires '/' !in cmd
    requires var m := Match(expand, fs, cmd, pathList); m.Some? ==> Cleanable(cwd, m.value)
    modifies out
    ensures var m := Match(expand, fs, cmd, pathList);
            && found == m.Some?
            && Copied(out[..], if found then Clean(cwd, m.value) else "")
    ensures var m := Match(expand, fs, cmd, pathList);
            if found then
              && fs(m.value).File? && fs(m.value).executable
              && exists k: nat :: FoundAt(expand, fs, Split(pathList, ':'), cmd, m.value, k)
            else pathList != "" ==> FoundNowhere(expand, fs, Split(pathList, ':'), cmd)
    ensures var m := Match(expand, fs, cmd, pathList);
            found && |Clean(cwd, m.value)| < out.Length ==>
              && Holds(out[..], Clean(cwd, m.value))
              && (Absolute(m.value) || Settled(Names(cwd)) ==>
                    var here := if IsDirectory(cwd) then Here(cwd) else [];
                    Denote(here, Clean(cwd, m.value)) == Denote(here, m.value))
  {
    Zero(out);
    found := false;
    if pathList != "" {
      hide *;
      WholePath(pathList);
      MatchIs(expand, fs, cmd, pathList);
      var result, next := FindCommandInPath(expand, fs, cmd, pathList, 0);
      if result.Some? {
        CleanableIs(cwd, result.value);
        var cleaned := new char[RESULT_SIZE];
        CleanUp(cwd, result.value, cleaned);
        CleanWithout(cwd, result.value, '\0');
        CopyOut(cleaned, Clean(cwd, result.value), out);
        found := true;
        CopiedHolds(out[..], Clean(cwd, result.value));
        if Absolute(result.value) || Settled(Names(cwd)) {
          CleanDenotes(cwd, result.value);
        }
      }
    }
  }

  method Zero(out: array<char>)
    modifies out
    ensures Copied(out[..], "")
  {
    for k := 0 to out.Length
      invariant forall j :: 0 <= j < k ==> out[j] == '\0'
    {
      out[k] := '\0';
    }
  }

  /** strncpy */
  method CopyOut(cleaned: array<char>, ghost text: string, out: array<char>)
    requires Holds(cleaned[..], text) && '\0' !in text && out != cleaned
    modifies out
    ensures Copied(out[..], text)
  {
    var k := 0;
    while k < out.Length && cleaned[k] != '\0'
      invariant 0 <= k <= |text| && k <= out.Length
      invariant forall j :: 0 <= j < k ==> out[j] == text[j]
    {
      assert cleaned[..|text|][k] == text[k];
      out[k] := cleaned[k];
      k := k + 1;
    }
    if k < out.Length {
      assert k == |text|;
    }
    while k < out.Length
      invariant k <= out.Length && forall j :: 0 <= j < k && j < |text| ==> out[j] == text[j]
      invariant forall j :: |text| <= j < k ==> out[j] == '\0'
    {
      out[k] := '\0';
      k := k + 1;
    }
  }

  lemma CleanableIs(cwd: string, path: string)
    requires Cleanable(cwd, path)
    ensures '\0' !in path && '\0' !in cwd && (!Absolute(path) ==> IsDirectory(cwd))
    ensures |path| + (if Absolute(path) then 0 else |cwd|) < RESULT_SIZE
  {
  }

  lemma MatchIs(expand: Tilde.Expander, fs: string -> FileInfo, cmd: string, pathList: string)
    requires pathList != ""
    ensures Match(expand, fs, cmd, pathList) == FirstMatch(expand, fs, Split(pathList, ':'), cmd)
  {
  }

  lemma CopiedHolds(out: seq<char>, text: string)
    requires Copied(out, text)
    ensures |text| < |out| ==> Holds(out, text)
  {
  }

  // -------------------------------------------- cleaning adds no character

  predicate Without(pieces: seq<string>, c: char) {
    forall k :: 0 <= k < |pieces| ==> c !in pieces[k]
  }

  lemma {:induction false} SplitWithout(s: string, sep: char, c: char)
    requires c !in s
    ensures Without(Split(s, sep), c)
  {
    if s != "" {
      SplitWithout(Front(s), sep, c);
      assert Last(s) in s;
    }
  }

  lemma {:induction false} ResolveWithout(stack: seq<string>, pieces: seq<string>, c: char)
    requires Without(stack, c) && Without(pieces, c)
    ensures Without(Resolve(stack, pieces), c)
  {
    if pieces != [] {
      ResolveWithout(stack, Front(pieces), c);
    }
  }

  lemma {:induction false} TerminatedWithout(stack: seq<string>, c: char)
    requires Without(stack, c) && c != '/'
    ensures c !in Terminated(stack)
  {
    if stack != [] {
      TerminatedWithout(Front(stack), c);
    }
  }

  lemma CleanWithout(cwd: string, path: string, c: char)
    requires !Absolute(path) ==> IsDirectory(cwd)
    requires c !in path && c !in cwd && c != '/'
    ensures c !in Clean(cwd, path)
  {
    var base := Base(cwd, path);
    SplitWithout(path, '/', c);
    if !Absolute(path) && cwd != "/" {
      SplitWithout(cwd[1..|cwd| - 1], '/', c);
    }
    assert Without(base, c) && Without(Finished(path), c) && c !in Last(Split(path, '/'));
    ResolveWithout(base, Finished(path), c);
    TerminatedWithout(Resolve(base, Finished(path)), c);
    hide Split, Resolve, Terminated, Underflows, Names;
  }
}
