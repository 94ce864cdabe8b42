/** tilde.cpp: expansion of "~" and "~user" in a command line. */
module Tilde {
  import opened Buffers
  import opened Splitting

  /** What the process knows: $HOME (or the user's own entry) and the password database. */
  datatype Env = Env(home: string, users: map<string, string>)

  // --------------------------------------------------------- specification

  /** A tilde that starts a word: first in the text, or after a blank. */
  predicate Eligible(s: string, j: nat)
    requires j < |s|
  {
    s[j] == '~' && (j == 0 || s[j - 1] == ' ' || s[j - 1] == '\t')
  }

  function FirstTilde(s: string, from: nat): (k: nat)
    requires from <= |s|
    ensures from <= k <= |s|
    ensures k < |s| ==> Eligible(s, k)
    ensures forall j :: from <= j < k ==> !Eligible(s, j)
    decreases |s| - from
  {
    if from == |s| || Eligible(s, from) then from else FirstTilde(s, from + 1)
  }

  predicate EndsWord(c: char) {
    c == '/' || c == ' ' || c == '\n'
  }

  predicate InWord(s: string, j: nat)
    requires j < |s|
  {
    !EndsWord(s[j])
  }

  function WordEnd(s: string, from: nat): (e: nat)
    requires from <= |s|
    ensures from <= e <= |s|
    ensures e < |s| ==> !InWord(s, e)
    ensures forall j :: from <= j < e ==> InWord(s, j)
    decreases |s| - from
  {
    if from == |s| || !InWord(s, from) then from else WordEnd(s, from + 1)
  }

  function UserEnd(word: string, from: nat): (e: nat)
    requires from <= |word|
    ensures from <= e <= |word|
    decreases |word| - from
  {
    if from == |word| || word[from] == '/' then from else UserEnd(word, from + 1)
  }

  function ExpandWord(env: Env, word: string): string {
    if word == "" || word[0] != '~' then word
    else if |word| == 1 || word[1] == '/' then env.home + word[1..]
    else
      var e := UserEnd(word, 1);
      if word[1..e] in env.users then env.users[word[1..e]] + word[e..] else word
  }

  /** Any way of expanding a single word, as long as it makes nothing of nothing. */
  type Expander = expand: string -> string | expand("") == "" witness (word: string) => word

  /** The one that tilde_expand_word implements. */
  function ByUser(env: Env): Expander {
    word => ExpandWord(env, word)
  }

  /** What it makes of a word. */
  function Applied(expand: Expander, word: string): string {
    expand(word)
  }

  /** Literal text, then the expanded tilde word, then the rest likewise. */
  function Expand(expand: Expander, s: string): string
    decreases |s|
  {
    var k := FirstTilde(s, 0);
    if k == |s| then s
    else
      var e := WordEnd(s, k);
      s[..k] + Applied(expand, s[k..e]) + Expand(expand, s[e..])
  }

  // ------------------------------------------------------ the C functions

  method FindPrefix(s: string) returns (start: nat)
    ensures start == FirstTilde(s, 0) && start <= |s|
  {
    if s == "" || s[0] == '~' {
      return 0;
    }
    for i := 0 to |s|
      invariant forall j :: 0 <= j <= i && j < |s| ==> !Eligible(s, j)
    {
      if s[i] == ' ' && At(s, i + 1) == '~' {
        assert Eligible(s, i + 1);
        return i + 1;
      }
      if s[i] == '\t' && At(s, i + 1) == '~' {
        assert Eligible(s, i + 1);
        return i + 1;
      }
    }
    return |s|;
  }

  method FindSuffix(s: string) returns (end: nat)
    ensures end == WordEnd(s, 0) && end <= |s|
  {
    end := 0;
    while end < |s|
      invariant end <= |s| && WordEnd(s, 0) == WordEnd(s, end)
    {
      if s[end] == '/' {
        break;
      }
      if s[end] == ' ' || s[end] == '\n' {
        return;
      }
      end := end + 1;
    }
  }

  /** The user name, in a buffer of strlen(fname) bytes. */
  method IsolateTildePrefix(fname: string) returns (user: string, len: nat)
    requires fname != ""
    ensures len == UserEnd(fname, 1) && user == fname[1..len]
  {
    var ret := new char[|fname|];
    var i := 1;
    while i < |fname| && fname[i] != '/'
      invariant 1 <= i <= |fname| && UserEnd(fname, 1) == UserEnd(fname, i)
      invariant ret[..i - 1] == fname[1..i]
    {
      ret[i - 1] := fname[i];
      i := i + 1;
    }
    ret[i - 1] := '\0';
    user, len := ret[..i - 1], i;
  }

  method GluePrefixAndSuffix(prefix: string, suffix: string, suffind: nat) returns (glued: string)
    requires suffind <= |suffix|
    ensures glued == prefix + suffix[suffind..]
  {
    var ret := new char[|prefix| + (|suffix| - suffind) + 1];
    CopyInto(ret, 0, prefix);
    CopyInto(ret, |prefix|, suffix[suffind..]);
    glued := ret[..ret.Length - 1];
  }

  method TildeExpandWord(env: Env, filename: string) returns (r: string)
    ensures r == ExpandWord(env, filename) == ByUser(env)(filename)
  {
    if filename == "" || filename[0] != '~' {
      return filename;
    }
    if |filename| == 1 || filename[1] == '/' {
      r := GluePrefixAndSuffix(env.home, filename, 1);
      return;
    }
    var username, userLen := IsolateTildePrefix(filename);
    if username in env.users {
      r := GluePrefixAndSuffix(env.users[username], filename, userLen);
    } else {
      r := filename;
    }
  }

  /** realloc: a larger buffer with the same beginning. */
  method Grow(buf: array<char>, size: nat, keep: nat) returns (bigger: array<char>)
    requires keep <= buf.Length && keep <= size
    ensures fresh(bigger) && bigger.Length == size && bigger[..keep] == buf[..keep]
  {
    bigger := new char[size];
    for i := 0 to keep
      invariant bigger[..i] == buf[..i]
    {
      bigger[i] := buf[i];
    }
  }

  /** Makes room for `s` and a terminator, counting capacity the way the source does, and appends. */
  method Append(buf: array<char>, size: nat, index: nat, s: string)
    returns (buf': array<char>, size': nat, index': nat)
    requires index < size <= buf.Length
    modifies buf
    ensures buf' == buf || fresh(buf')
    ensures index' == index + |s| < size' <= buf'.Length
    ensures buf'[..index'] == old(buf[..index]) + s
  {
    buf', size', index' := buf, size, index + |s|;
    if index + |s| + 1 > size {
      size' := size + (|s| + 20);
      buf' := Grow(buf, 1 + size', index);
    }
    CopyInto(buf', index, s);
  }

  method TildeExpand(expand: Expander, text: string) returns (expanded: string)
    ensures expanded == Expand(expand, text)
  {
    hide *;
    var size := |text| + if '~' in text then 16 else 1;
    var result := new char[size];
    var index, pos := 0, 0;
    assert text[0..] == text && result[..0] + Expand(expand, text) == Expand(expand, text);
    while true
      invariant 0 <= pos <= |text| && 0 <= index < size <= result.Length
      invariant fresh(result)
      invariant result[..index] + Expand(expand, text[pos..]) == Expand(expand, text)
      decreases |text| - pos
    {
      ghost var before, rest := result[..index], text[pos..];
      var start := FindPrefix(text[pos..]);
      result, size, index := Append(result, size, index, text[pos..pos + start]);
      assert text[pos..pos + start] == rest[..start];
      pos := pos + start;
      var end := FindSuffix(text[pos..]);
      assert text[pos..] == rest[start..];
      Round(expand, rest, start, end);
      if start == 0 && end == 0 {
        break;
      }
      var tildeWord := text[pos..pos + end];
      pos := pos + end;
      var expansion := Applied(expand, tildeWord);
      result, size, index := Append(result, size, index, expansion);
      assert text[pos..] == rest[start + end..] && tildeWord == rest[start..start + end];
      Regroup(before, rest[..start], expansion, Expand(expand, text[pos..]));
    }
    assert text[pos..] == "";
    result[index] := '\0';
    expanded := result[..index];
  }

  lemma Regroup(a: string, b: string, c: string, d: string)
    ensures a + b + c + d == a + (b + c + d)
  {
  }

  /** Expand, unfolded once. */
  lemma Literal(expand: Expander, s: string)
    requires FirstTilde(s, 0) == |s|
    ensures Expand(expand, s) == s
  {
  }

  lemma Chop(expand: Expander, s: string, k: nat, e: nat)
    requires k < |s| && k == FirstTilde(s, 0) && e == WordEnd(s, k)
    ensures k < e <= |s| && Expand(expand, s) == s[..k] + Applied(expand, s[k..e]) + Expand(expand, s[e..])
  {
    WordNonEmpty(s, k);
  }

  /** One round of the scanner consumes literal text and one word. */
  lemma Round(expand: Expander, s: string, start: nat, end: nat)
    requires start == FirstTilde(s, 0) && start <= |s| && end == WordEnd(s[start..], 0)
    ensures start + end <= |s| && (s != "" ==> start + end > 0) && Expand(expand, "") == ""
    ensures Expand(expand, s) == s[..start] + Applied(expand, s[start..start + end]) + Expand(expand, s[start + end..])
  {
    assert Expand(expand, "") == "";
    hide *;
    if start == |s| {
      LastRound(expand, s, start, end);
    } else {
      WordRound(expand, s, start, end);
    }
  }

  lemma WordRound(expand: Expander, s: string, start: nat, end: nat)
    requires start == FirstTilde(s, 0) && start < |s| && end == WordEnd(s[start..], 0)
    ensures 0 < end && start + end <= |s|
    ensures Expand(expand, s) == s[..start] + Applied(expand, s[start..start + end]) + Expand(expand, s[start + end..])
  {
    hide *;
    ShiftEnd(s, s[start..], start, 0);
    Chop(expand, s, start, start + end);
  }

  /** The round that copies what is left. */
  lemma LastRound(expand: Expander, s: string, start: nat, end: nat)
    requires start == FirstTilde(s, 0) && start == |s| && end == WordEnd(s[start..], 0)
    ensures end == 0
    ensures Expand(expand, s) == s[..start] + Applied(expand, s[start..start + end]) + Expand(expand, s[start + end..])
  {
    Literal(expand, s);
    assert end == 0 && s[start..start + end] == "" && s[start + end..] == "";
    assert Expand(expand, "") == "" && Applied(expand, "") == "";
    hide *;
    assert s[..start] + "" + "" == s;
  }

  lemma {:induction false} ShiftEnd(whole: string, b: string, n: nat, from: nat)
    requires n <= |whole| && whole[n..] == b && from <= |b|
    ensures WordEnd(whole, n + from) == n + WordEnd(b, from)
    decreases |b| - from
  {
    if from < |b| {
      assert whole[n + from] == b[from];
      if !EndsWord(b[from]) {
        ShiftEnd(whole, b, n, from + 1);
      }
    }
  }

  // ------------------------------------------------------------------ laws

  /** Which tilde a word starts with: the first in front or after a space or a tab. */
  lemma FirstTildeIs(s: string)
    ensures var k := FirstTilde(s, 0);
      && (k < |s| ==> s[k] == '~' && (k == 0 || s[k - 1] == ' ' || s[k - 1] == '\t'))
      && forall j :: 0 <= j < k && s[j] == '~' ==> j > 0 && s[j - 1] != ' ' && s[j - 1] != '\t'
  {
    var k := FirstTilde(s, 0);
    forall j | 0 <= j < k && s[j] == '~' ensures j > 0 && s[j - 1] != ' ' && s[j - 1] != '\t' {
      assert !Eligible(s, j);
    }
  }

  /** Where a word ends: at the first slash, space or newline. */
  lemma WordEndIs(s: string)
    ensures var e := WordEnd(s, 0);
      && (e < |s| ==> s[e] == '/' || s[e] == ' ' || s[e] == '\n')
      && forall j :: 0 <= j < e ==> s[j] != '/' && s[j] != ' ' && s[j] != '\n'
  {
    var e := WordEnd(s, 0);
    forall j | 0 <= j < e ensures s[j] != '/' && s[j] != ' ' && s[j] != '\n' {
      assert InWord(s, j);
    }
  }

  /** What the expander does to "~", "~/rest", "~user" and "~user/rest", and to anything else. */
  lemma WordCases(env: Env, user: string, rest: string)
    requires '/' !in user && (rest == "" || rest[0] == '/')
    ensures ExpandWord(env, "~" + user + rest) ==
            if user == "" then env.home + rest
            else if user in env.users then env.users[user] + rest
            else "~" + user + rest
    ensures forall word :: word == "" || word[0] != '~' ==> ExpandWord(env, word) == word
  {
    var word := "~" + user + rest;
    if user == "" {
      assert word[1..] == rest;
    } else {
      UserEndIs(word, 1, user, rest);
      assert word[1..1 + |user|] == user && word[1 + |user|..] == rest;
      assert word[1] in user;
    }
  }

  lemma {:induction false} UserEndIs(word: string, from: nat, user: string, rest: string)
    requires from <= |word| && word[from..] == user + rest
    requires '/' !in user && (rest == "" || rest[0] == '/')
    ensures UserEnd(word, from) == from + |user|
    decreases |word| - from
  {
    if user != "" {
      assert word[from] == word[from..][0] == user[0] && user[0] in user;
      assert word[from + 1..] == word[from..][1..] == user[1..] + rest;
      UserEndIs(word, from + 1, user[1..], rest);
    } else if rest != "" {
      assert word[from] == word[from..][0];
    }
  }

  /** Text without an eligible tilde is left alone. */
  lemma ExpandIdentity(expand: Expander, s: string)
    requires forall j :: 0 <= j < |s| ==> !Eligible(s, j)
    ensures Expand(expand, s) == s
  {
  }

  /** A space separates expansions, whatever stands on either side of it. */
  lemma {:induction false} ExpandSpace(expand: Expander, a: string, b: string)
    ensures Expand(expand, a + " " + b) == Expand(expand, a) + " " + Expand(expand, b)
    decreases |a|
  {
    hide *;
    var whole := a + " " + b;
    var k := FirstTilde(a, 0);
    if k < |a| {
      var e := WordEnd(a, k);
      AfterSpace(a, b);
      TildeInside(whole, a);
      CutInside(a, b, k, e);
      Chop(expand, a, k, e);
      Chop(expand, whole, k, e);
      ExpandSpace(expand, a[e..], b);
      var p, w, r := a[..k], Applied(expand, a[k..e]), Expand(expand, a[e..]);
      assert (p + w) + (r + " " + Expand(expand, b)) == (p + w + r) + " " + Expand(expand, b);
    } else {
      LiteralPrefix(expand, a, b);
    }
  }

  /** A tilde word that starts in `a` ends there, whatever follows the space. */
  lemma TildeInside(whole: string, a: string)
    requires SpaceAfter(whole, a) && FirstTilde(a, 0) < |a|
    ensures FirstTilde(whole, 0) == FirstTilde(a, 0)
    ensures var k := FirstTilde(a, 0);
            WordEnd(whole, k) == WordEnd(a, k) > k
  {
    hide *;
    var k := FirstTilde(a, 0);
    SameTilde(whole, a, 0);
    SameEnd(whole, a, k);
    WordNonEmpty(a, k);
  }

  lemma WordNonEmpty(s: string, k: nat)
    requires k < |s| && Eligible(s, k)
    ensures WordEnd(s, k) > k
  {
  }

  lemma CutInside(a: string, b: string, k: nat, e: nat)
    requires k <= e <= |a|
    ensures var whole := a + " " + b;
            whole[..k] == a[..k] && whole[k..e] == a[k..e] && whole[e..] == a[e..] + " " + b
  {
  }

  lemma CutBeyond(a: string, b: string, k: nat, e: nat)
    requires k <= e <= |b|
    ensures var whole, n := a + " " + b, |a| + 1;
            whole[..n + k] == a + " " + b[..k] && whole[n + k..n + e] == b[k..e] && whole[n + e..] == b[e..]
  {
  }

  lemma {:induction false} SameTilde(whole: string, a: string, from: nat)
    requires SpaceAfter(whole, a) && from <= |a| && FirstTilde(a, from) < |a|
    ensures FirstTilde(whole, from) == FirstTilde(a, from)
    decreases |a| - from
  {
    if !Eligible(a, from) {
      SameTilde(whole, a, from + 1);
    }
  }

  /** A word that reaches the end of `a` is ended by the space after it. */
  lemma {:induction false} SameEnd(whole: string, a: string, from: nat)
    requires SpaceAfter(whole, a) && from <= |a|
    ensures WordEnd(whole, from) == WordEnd(a, from)
    decreases |a| - from
  {
    if from < |a| && !EndsWord(a[from]) {
      SameEnd(whole, a, from + 1);
    }
  }

  lemma LiteralPrefix(expand: Expander, a: string, b: string)
    requires FirstTilde(a, 0) == |a|
    ensures Expand(expand, a + " " + b) == Expand(expand, a) + " " + Expand(expand, b)
  {
    hide *;
    var whole, n := a + " " + b, |a| + 1;
    AfterSpace(a, b);
    assert |whole| == n + |b|;
    TildeBeyond(whole, a, b);
    Literal(expand, a);
    var k := FirstTilde(b, 0);
    if k < |b| {
      var e := WordEnd(b, k);
      ShiftEnd(whole, b, n, k);
      LiteralChop(expand, a, b, k, e);
    } else {
      Literal(expand, b);
      Literal(expand, whole);
    }
  }

  lemma LiteralChop(expand: Expander, a: string, b: string, k: nat, e: nat)
    requires k < |b| && k == FirstTilde(b, 0) && e == WordEnd(b, k)
    requires var whole, n := a + " " + b, |a| + 1; FirstTilde(whole, 0) == n + k && WordEnd(whole, n + k) == n + e
    ensures Expand(expand, a + " " + b) == a + " " + Expand(expand, b)
  {
    hide *;
    Chop(expand, b, k, e);
    Chop(expand, a + " " + b, |a| + 1 + k, |a| + 1 + e);
    CutBeyond(a, b, k, e);
    Recombine(a, b[..k], Applied(expand, b[k..e]), Expand(expand, b[e..]));
  }

  lemma Recombine(a: string, p: string, w: string, r: string)
    ensures (a + " " + p) + w + r == a + " " + (p + w + r)
  {
  }

  lemma TildeBeyond(whole: string, a: string, b: string)
    requires SpaceAfter(whole, a) && whole[|a| + 1..] == b && FirstTilde(a, 0) == |a|
    ensures FirstTilde(whole, 0) == |a| + 1 + FirstTilde(b, 0)
  {
    hide *;
    SpaceThere(whole, a);
    NoTildeBefore(whole, a);
    SkipTilde(whole, 0, |a| + 1);
    ShiftTilde(whole, b, |a| + 1, 0);
  }

  /** `whole` goes on with a space after `a`. */
  predicate SpaceAfter(whole: string, a: string) {
    |a| < |whole| && whole[|a|] == ' ' && forall j :: 0 <= j < |a| ==> whole[j] == a[j]
  }

  lemma SpaceThere(whole: string, a: string)
    requires SpaceAfter(whole, a)
    ensures |a| < |whole| && whole[|a|] == ' '
  {
  }

  lemma AfterSpace(a: string, b: string)
    ensures var whole, n := a + " " + b, |a| + 1;
            SpaceAfter(whole, a) && whole[n..] == b
  {
  }

  lemma NoTildeBefore(whole: string, a: string)
    requires SpaceAfter(whole, a) && FirstTilde(a, 0) == |a|
    ensures forall j :: 0 <= j < |a| + 1 ==> !Eligible(whole, j)
  {
    forall j | 0 <= j < |a| + 1 ensures !Eligible(whole, j) {
      if j < |a| {
        assert !Eligible(a, j);
      }
    }
  }

  lemma {:induction false} SkipTilde(s: string, from: nat, to: nat)
    requires from <= to <= |s| && forall j :: from <= j < to ==> !Eligible(s, j)
    ensures FirstTilde(s, from) == FirstTilde(s, to)
    decreases |s| - from
  {
    if from < to {
      SkipTilde(s, from + 1, to);
    }
  }

  lemma {:induction false} ShiftTilde(whole: string, b: string, n: nat, from: nat)
    requires 0 < n <= |whole| && whole[n..] == b && whole[n - 1] == ' ' && from <= |b|
    ensures FirstTilde(whole, n + from) == n + FirstTilde(b, from)
    decreases |b| - from
  {
    if from < |b| && !Eligible(b, from) {
      ShiftTilde(whole, b, n, from + 1);
    }
  }

  function ExpandEach(expand: Expander, words: seq<string>): (expanded: seq<string>)
    ensures |expanded| == |words|
  {
    if words == [] then [] else ExpandEach(expand, Front(words)) + [Expand(expand, Last(words))]
  }

  /** The promise made for programs that do no word splitting of their own: expanding
      a line is expanding each space-separated word by itself. */
  lemma {:induction false} ExpandByWord(expand: Expander, words: seq<string>)
    requires words != []
    ensures Expand(expand, Join(words, ' ')) == Join(ExpandEach(expand, words), ' ')
  {
    if |words| > 1 {
      ExpandByWord(expand, Front(words));
      ExpandSpace(expand, Join(Front(words), ' '), Last(words));
      JoinSnoc(ExpandEach(expand, Front(words)), Expand(expand, Last(words)), ' ');
    }
  }

  lemma ExpandLine(expand: Expander, line: string)
    ensures Expand(expand, line) == Join(ExpandEach(expand, Split(line, ' ')), ' ')
  {
    JoinSplit(line, ' ');
    ExpandByWord(expand, Split(line, ' '));
  }
}
