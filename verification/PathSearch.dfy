/** The search along PATH: bash.cpp's colon splitter and which.cpp's search loop. */
module PathSearch {
  import opened Wrappers
  import opened Buffers
  import opened Splitting
  import Tilde

  // ----------------------------------------------------------- file status

  datatype FileInfo = Missing | Directory | File(executable: bool, readable: bool)
  datatype Status = Exists | Execable | IsDir | Readable

  /** file_status, with the answers of stat and access given by `info`. */
  function FileStatus(info: FileInfo): set<Status> {
    match info
    case Missing => {}
    case Directory => {Exists, IsDir}
    case File(x, r) => {Exists} + (if x then {Execable} else {}) + (if r then {Readable} else {})
  }

  predicate Runnable(info: FileInfo) {
    info.File? && info.executable
  }

  // --------------------------------------------------------- specification

  /** The units still to come when the index stands at `index`. */
  function Remaining(s: string, index: nat): seq<string> {
    if index >= |s| then []
    else if index > 0 && s[index] == ':' then Split(s[index + 1..], ':')
    else Split(s[index..], ':')
  }

  /** After an empty unit, one adjacent empty unit is lost. */
  function Following(units: seq<string>): seq<string>
    requires units != []
  {
    if |units| > 1 && units[0] == "" && units[1] == "" then units[2..] else units[1..]
  }

  /** The units the splitter delivers, out of all there are. */
  function Delivered(units: seq<string>): seq<string> {
    if units == [] then [] else [units[0]] + Delivered(Following(units))
  }

  /** The file a PATH unit makes of a command name; an empty unit is ".". */
  function Candidate(expand: Tilde.Expander, unit: string, name: string): string {
    var element := if unit == "" then "." else unit;
    (if element[0] == '~' then Tilde.Expand(expand, element) else element) + "/" + name
  }

  /** The first executable candidate in the order of PATH (section 8.3 of IEEE Std
      1003.1-2004, Base Definitions). */
  function FirstMatch(expand: Tilde.Expander, fs: string -> FileInfo, units: seq<string>, name: string): Option<string> {
    if units == [] then None
    else if Runnable(fs(Candidate(expand, units[0], name))) then Some(Candidate(expand, units[0], name))
    else FirstMatch(expand, fs, units[1..], name)
  }

  /** The directory a unit stands for: "." for an empty one, expanded if it starts with a tilde. */
  function Within(expand: Tilde.Expander, unit: string): string {
    if unit == "" then "." else if unit[0] == '~' then Tilde.Expand(expand, unit) else unit
  }

  /** The unit's directory does not hold the name as an executable file. */
  predicate Lacks(expand: Tilde.Expander, fs: string -> FileInfo, unit: string, name: string) {
    var file := fs(Within(expand, unit) + "/" + name);
    !(file.File? && file.executable)
  }

  /** `file` is the name in the directory of unit k, and no earlier unit has one. */
  ghost predicate FoundAt(expand: Tilde.Expander, fs: string -> FileInfo, units: seq<string>, name: string, file: string, k: nat) {
    && k < |units|
    && file == Within(expand, units[k]) + "/" + name
    && fs(file).File? && fs(file).executable
    && FoundNowhere(expand, fs, units[..k], name)
  }

  ghost predicate FoundNowhere(expand: Tilde.Expander, fs: string -> FileInfo, units: seq<string>, name: string) {
    forall k :: 0 <= k < |units| ==> Lacks(expand, fs, units[k], name)
  }

  /** What the search answers, unit by unit. */
  lemma {:induction false} FirstMatchIs(expand: Tilde.Expander, fs: string -> FileInfo, units: seq<string>, name: string)
    ensures match FirstMatch(expand, fs, units, name)
      case Some(file) => exists k: nat :: FoundAt(expand, fs, units, name, file, k)
      case None => FoundNowhere(expand, fs, units, name)
  {
    if units != [] {
      assert Candidate(expand, units[0], name) == Within(expand, units[0]) + "/" + name;
      if !Lacks(expand, fs, units[0], name) {
        var file := Candidate(expand, units[0], name);
        var k: nat := 0;
        assert FirstMatch(expand, fs, units, name) == Some(file);
        assert FoundAt(expand, fs, units, name, file, k);
      } else {
        FirstMatchIs(expand, fs, units[1..], name);
        var rest := FirstMatch(expand, fs, units[1..], name);
        assert FirstMatch(expand, fs, units, name) == rest;
        hide *;
        if rest.Some? {
          var k: nat :| FoundAt(expand, fs, units[1..], name, rest.value, k);
          FoundLater(expand, fs, units, name, rest.value, k);
        } else {
          NowhereMore(expand, fs, units, name);
        }
      }
    }
  }

  lemma NowhereMore(expand: Tilde.Expander, fs: string -> FileInfo, units: seq<string>, name: string)
    requires units != [] && Lacks(expand, fs, units[0], name) && FoundNowhere(expand, fs, units[1..], name)
    ensures FoundNowhere(expand, fs, units, name)
  {
    hide Lacks;
    forall k | 0 <= k < |units| ensures Lacks(expand, fs, units[k], name) {
      if k > 0 { assert Lacks(expand, fs, units[1..][k - 1], name); }
    }
  }

  lemma FoundLater(expand: Tilde.Expander, fs: string -> FileInfo, units: seq<string>, name: string, file: string, k: nat)
    requires units != [] && FoundAt(expand, fs, units[1..], name, file, k) && Lacks(expand, fs, units[0], name)
    ensures FoundAt(expand, fs, units, name, file, k + 1)
  {
    hide Within, Lacks, FoundNowhere;
    assert units[..k + 1][1..] == units[1..][..k];
    NowhereMore(expand, fs, units[..k + 1], name);
  }

  // ------------------------------------------------------ the C functions

  method ExtractColonUnit(s: string, index: nat) returns (unit: Option<string>, next: nat)
    ensures index >= |s| ==> unit == None && next == index
    ensures index < |s| ==>
              && index < next <= |s|
              && Remaining(s, index) != []
              && unit == Some(Remaining(s, index)[0])
              && Remaining(s, next) == Following(Remaining(s, index))
  {
    if index >= |s| {
      return None, index;
    }
    var i := index;
    if i != 0 && s[i] == ':' {
      i := i + 1;
    }
    var start := i;
    while i < |s| && s[i] != ':'
      invariant start <= i <= |s| && ':' !in s[start..i]
    {
      i := i + 1;
    }
    next := i;
    FirstUnit(s, start, i);
    assert Remaining(s, index) == Split(s[start..], ':');
    if i == start {
      if i < |s| {
        next := next + 1;
        AfterEmpty(s, next);
      }
      unit := Some("");
    } else {
      unit := Some(s[start..i]);
      AfterText(s, start, i);
    }
  }

  /** The text up to the next colon is the first unit. */
  lemma FirstUnit(s: string, start: nat, i: nat)
    requires start <= i <= |s| && ':' !in s[start..i] && (i < |s| ==> s[i] == ':')
    ensures Split(s[start..], ':') == [s[start..i]] + if i < |s| then Split(s[i + 1..], ':') else []
  {
    hide *;
    SplitWhole(s[start..i], ':');
    if i < |s| {
      SplitConcat(s[start..i], s[i + 1..], ':');
      CutAt(s, start, i);
    } else {
      assert s[start..] == s[start..i];
    }
  }

  lemma CutAt(s: string, start: nat, i: nat)
    requires start <= i < |s|
    ensures s[start..] == s[start..i] + [s[i]] + s[i + 1..]
  {
  }

  lemma AfterText(s: string, start: nat, i: nat)
    requires start < i <= |s| && ':' !in s[start..i] && (i < |s| ==> s[i] == ':')
    ensures Remaining(s, i) == Following(Split(s[start..], ':'))
  {
    FirstUnit(s, start, i);
    assert s[start] in s[start..i];
  }

  lemma AfterEmpty(s: string, next: nat)
    requires 0 < next <= |s| && s[next - 1] == ':'
    ensures Remaining(s, next) == Following([""] + Split(s[next..], ':'))
  {
    var rest := s[next..];
    if next == |s| {
      assert rest == "";
    } else if s[next] == ':' {
      FirstUnit(s, next, next);
    } else {
      SplitHead(rest);
    }
  }

  /** Text that starts with something else than a colon has a non-empty first unit. */
  lemma {:induction false} SplitHead(s: string)
    requires s != "" && s[0] != ':'
    ensures Split(s, ':')[0] != ""
  {
    if |s| > 1 {
      SplitHead(Front(s));
    } else {
      SplitWhole(s, ':');
    }
  }

  method GetNextPathElement(s: string, index: nat) returns (element: Option<string>, next: nat)
    ensures index >= |s| ==> element == None && next == index
    ensures index < |s| ==>
              && index < next <= |s|
              && Remaining(s, index) != []
              && element == Some(if Remaining(s, index)[0] == "" then "." else Remaining(s, index)[0])
              && Remaining(s, next) == Following(Remaining(s, index))
  {
    element, next := ExtractColonUnit(s, index);
    if element == Some("") {
      element := Some(".");
    }
  }

  method MakeFullPathname(path: string, name: string) returns (full: string)
    ensures full == path + "/" + name
  {
    var buf := new char[2 + |path| + |name|];
    CopyInto(buf, 0, path);
    buf[|path|] := '/';
    CopyInto(buf, |path| + 1, name);
    full := buf[..|path| + 1 + |name|];
  }

  /** The search loop, for a name without a slash. */
  method FindCommandInPath(expand: Tilde.Expander, fs: string -> FileInfo, name: string, pathList: string, index: nat)
    returns (found: Option<string>, next: nat)
    requires '/' !in name && index <= |pathList|
    ensures index <= next <= |pathList|
    ensures found == FirstMatch(expand, fs, Remaining(pathList, index), name)
    ensures found == None ==> next == |pathList|
    ensures match found
      case Some(file) =>
        && fs(file).File? && fs(file).executable
        && exists k: nat :: FoundAt(expand, fs, Remaining(pathList, index), name, file, k)
      case None => FoundNowhere(expand, fs, Remaining(pathList, index), name)
  {
    FirstMatchIs(expand, fs, Remaining(pathList, index), name);
    found, next := SearchLoop(expand, fs, name, pathList, index);
  }

  method SearchLoop(expand: Tilde.Expander, fs: string -> FileInfo, name: string, pathList: string, index: nat)
    returns (found: Option<string>, next: nat)
    requires '/' !in name && index <= |pathList|
    ensures index <= next <= |pathList|
    ensures found == FirstMatch(expand, fs, Remaining(pathList, index), name)
    ensures found == None ==> next == |pathList|
  {
    hide Remaining, Following, Split, Tilde.Expand;
    NoneLeft(pathList);
    next := index;
    found := None;
    while next < |pathList|
      invariant index <= next <= |pathList|
      invariant FirstMatch(expand, fs, Remaining(pathList, index), name) == FirstMatch(expand, fs, Remaining(pathList, next), name)
      decreases |pathList| - next
    {
      ghost var units := Remaining(pathList, next);
      var element;
      element, next := GetNextPathElement(pathList, next);
      if element == None {
        break;
      }
      var path := element.value;
      if path != "" && path[0] == '~' {
        path := Tilde.TildeExpand(expand, path);
      }
      var full := MakeFullPathname(path, name);
      assert full == Candidate(expand, units[0], name);
      var status := FileStatus(fs(full));
      if Exists in status && Execable in status {
        return Some(full), next;
      }
      SkipEmpty(expand, fs, units, name);
    }
  }

  lemma NoneLeft(s: string)
    ensures Remaining(s, |s|) == []
  {
  }

  /** Losing an empty unit next to a failed one loses no match. */
  lemma SkipEmpty(expand: Tilde.Expander, fs: string -> FileInfo, units: seq<string>, name: string)
    requires units != [] && !Runnable(fs(Candidate(expand, units[0], name)))
    ensures FirstMatch(expand, fs, units, name) == FirstMatch(expand, fs, Following(units), name)
  {
    if |units| > 1 && units[0] == "" && units[1] == "" {
      assert units[1..][0] == "" && units[1..][1..] == units[2..];
    }
  }

  // ------------------------------------------------------------------ laws

  /** From the start of a non-empty PATH every unit is still to come. */
  lemma WholePath(pathList: string)
    requires pathList != ""
    ensures Remaining(pathList, 0) == Split(pathList, ':')
  {
    assert pathList[0..] == pathList;
  }

  /** Searching what is delivered finds what searching everything finds. */
  lemma {:induction false} DeliveredSuffices(expand: Tilde.Expander, fs: string -> FileInfo, units: seq<string>, name: string)
    ensures FirstMatch(expand, fs, Delivered(units), name) == FirstMatch(expand, fs, units, name)
    decreases |units|
  {
    if units != [] {
      var d := Delivered(units);
      assert d[0] == units[0] && d[1..] == Delivered(Following(units));
      DeliveredSuffices(expand, fs, Following(units), name);
      if !Runnable(fs(Candidate(expand, units[0], name))) {
        SkipEmpty(expand, fs, units, name);
      }
    }
  }

  function NonEmpty(units: seq<string>): seq<string> {
    if units == [] then []
    else (if units[0] == "" then [] else [units[0]]) + NonEmpty(units[1..])
  }

  /** Only empty units are ever lost. */
  lemma {:induction false} DeliveredKeeps(units: seq<string>)
    ensures NonEmpty(Delivered(units)) == NonEmpty(units)
    decreases |units|
  {
    if units != [] {
      var d := Delivered(units);
      assert d[1..] == Delivered(Following(units));
      DeliveredKeeps(Following(units));
      if |units| > 1 && units[0] == "" && units[1] == "" {
        assert units[1..][0] == "" && units[1..][1..] == units[2..];
      }
    }
  }

  predicate HasAdjacentEmpty(units: seq<string>) {
    exists k :: 0 <= k < |units| - 1 && units[k] == "" == units[k + 1]
  }

  /** The split is delivered whole exactly when no two empty units are adjacent. */
  lemma {:induction false} DeliveredWhole(units: seq<string>)
    ensures |Delivered(units)| <= |units|
    ensures Delivered(units) == units <==> !HasAdjacentEmpty(units)
    decreases |units|
  {
    if units != [] {
      DeliveredWhole(Following(units));
      if |units| > 1 && units[0] == "" && units[1] == "" {
        assert HasAdjacentEmpty(units);
      } else {
        var rest := units[1..];
        assert HasAdjacentEmpty(units) ==> HasAdjacentEmpty(rest) by {
          if HasAdjacentEmpty(units) {
            var k :| 0 <= k < |units| - 1 && units[k] == "" == units[k + 1];
            assert rest[k - 1] == "" == rest[k];
          }
        }
        assert HasAdjacentEmpty(rest) ==> HasAdjacentEmpty(units) by {
          if HasAdjacentEmpty(rest) {
            var k :| 0 <= k < |rest| - 1 && rest[k] == "" == rest[k + 1];
            assert units[k + 1] == "" == units[k + 2];
          }
        }
        assert units == [units[0]] + rest;
      }
    }
  }
}
