/** The dependency string of a libtool archive, as `load_deplibs` reads it in two passes
    (dice/libltdl/ltdl.c): search directories first, then the libraries to load. */
module Deplibs {
  import opened Wrappers
  import opened Text
  import SearchPath

  // ---------------------------------------------------------------- tokens

  predicate IsSpace(c: char)
  {
    c == ' ' || c == '\t' || c == '\n' || c == '\r' || c == '\U{000B}' || c == '\U{000C}'
  }

  /** The end of the token that `i` is in. */
  function TokenEnd(t: string, i: nat): (r: nat)
    requires i <= |t|
    ensures i <= r <= |t| && (r < |t| ==> IsSpace(t[r]))
    ensures forall j :: i <= j < r ==> !IsSpace(t[j])
    decreases |t| - i
  {
    if i == |t| || IsSpace(t[i]) then i else TokenEnd(t, i + 1)
  }

  /** The pieces between white space from position `i` on. */
  function Tokens(t: string, i: nat): seq<string>
    requires i <= |t|
    decreases |t| - i
  {
    if i == |t| then []
    else if IsSpace(t[i]) then Tokens(t, i + 1)
    else
      var end := TokenEnd(t, i + 1);
      [t[i..end]] + Tokens(t, end)
  }

  predicate HasPrefix(s: string, p: string)
  {
    |p| <= |s| && s[..|p|] == p
  }

  /** `-Ldir` and `-Rdir` name search directories. */
  predicate IsDirFlag(token: string)
  {
    HasPrefix(token, "-L") || HasPrefix(token, "-R")
  }

  function LibName(token: string): string
  {
    if HasPrefix(token, "-l") then "lib" + token[2..] else token
  }

  function NamesOf(tokens: seq<string>): seq<string>
  {
    if tokens == [] then []
    else (if IsDirFlag(tokens[0]) then [] else [LibName(tokens[0])]) + NamesOf(tokens[1..])
  }

  function DirsOf(tokens: seq<string>): seq<string>
  {
    if tokens == [] then []
    else (if IsDirFlag(tokens[0]) then [tokens[0][2..]] else []) + DirsOf(tokens[1..])
  }

  /** The libraries a dependency string asks for. */
  function Names(text: string): seq<string>
  {
    NamesOf(Tokens(text, 0))
  }

  function AddDirs(path: Option<string>, dirs: seq<string>): (r: Option<string>)
    ensures path.Some? ==> r.Some?
    decreases |dirs|
  {
    if dirs == [] then path else AddDirs(SearchPath.AddSearchDir(path, dirs[0]), dirs[1..])
  }

  /** The search path with the directories of a dependency string. */
  function Extend(path: Option<string>, text: string): (r: Option<string>)
    ensures path.Some? ==> r.Some?
  {
    AddDirs(path, DirsOf(Tokens(text, 0)))
  }

  // ---------------------------------------------------------------- what the tokens are

  predicate IsToken(s: string)
  {
    s != "" && forall i :: 0 <= i < |s| ==> !IsSpace(s[i])
  }

  /** `b` is the end of `t`, from `off` on. */
  predicate Tail(t: string, off: nat, b: string)
  {
    |t| == off + |b| && forall j :: 0 <= j < |b| ==> t[off + j] == b[j]
  }

  lemma TailSlice(t: string, off: nat, b: string, i: nat, end: nat)
    requires Tail(t, off, b) && i <= end <= |b|
    ensures |t| == off + |b| && t[off + i..off + end] == b[i..end]
    ensures i < |b| ==> t[off + i] == b[i]
  {
  }

  lemma {:induction false} TokenEndShift(t: string, off: nat, b: string, i: nat)
    requires Tail(t, off, b) && i <= |b|
    ensures TokenEnd(t, off + i) == off + TokenEnd(b, i)
    decreases |b| - i
  {
    if i < |b| && !IsSpace(b[i]) {
      TokenEndShift(t, off, b, i + 1);
    }
  }

  lemma {:induction false} TokensShift(t: string, off: nat, b: string, i: nat)
    requires Tail(t, off, b) && i <= |b|
    ensures Tokens(t, off + i) == Tokens(b, i)
    decreases |b| - i
  {
    hide Tail, TokenEnd, Tokens;
    TailSlice(t, off, b, i, i);
    TokensAt(b, i);
    TokensAt(t, off + i);
    if i < |b| {
      if IsSpace(b[i]) {
        TokensShift(t, off, b, i + 1);
      } else {
        var end := TokenEnd(b, i + 1);
        TokenEndShift(t, off, b, i + 1);
        TokensShift(t, off, b, end);
        TailSlice(t, off, b, i, end);
      }
    }
  }

  lemma TokensAt(t: string, i: nat)
    requires i <= |t|
    ensures i == |t| ==> Tokens(t, i) == []
    ensures i < |t| && IsSpace(t[i]) ==> Tokens(t, i) == Tokens(t, i + 1)
    ensures i < |t| && !IsSpace(t[i]) ==>
      var end := TokenEnd(t, i + 1); Tokens(t, i) == [t[i..end]] + Tokens(t, end)
  {
  }

  lemma {:induction false} TokenEndIs(t: string, i: nat, end: nat)
    requires i <= end <= |t| && (forall j :: i <= j < end ==> !IsSpace(t[j])) && (end < |t| ==> IsSpace(t[end]))
    ensures TokenEnd(t, i) == end
    decreases end - i
  {
    if i < end {
      TokenEndIs(t, i + 1, end);
    }
  }

  lemma FirstToken(token: string, rest: string)
    requires IsToken(token) && (rest == "" || IsSpace(rest[0]))
    ensures Tokens(token + rest, 0) == [token] + Tokens(rest, 0)
  {
    var t := token + rest;
    forall j | 0 <= j < |token| ensures !IsSpace(t[j]) { assert t[j] == token[j]; }
    TokenEndIs(t, 1, |token|);
    TokensShift(t, |token|, rest, 0);
    assert t[0..|token|] == token;
  }

  lemma BlankThen(rest: string)
    ensures Tokens([' '] + rest, 0) == Tokens(rest, 0)
  {
    hide Tokens;
    TokensAt([' '] + rest, 0);
    TokensShift([' '] + rest, 1, rest, 0);
  }

  lemma TokensOfWord(w: string)
    requires IsToken(w)
    ensures Tokens(w, 0) == [w]
  {
    hide Tokens;
    FirstToken(w, "");
    TokensAt("", 0);
    assert w + "" == w;
  }

  /** Splitting undoes joining: the tokens of words written with blanks between them. */
  lemma {:induction false} TokensOfJoin(words: seq<string>)
    requires forall w :: w in words ==> IsToken(w)
    ensures Tokens(Join(words, ' '), 0) == words
  {
    hide Tokens, IsToken;
    if words == [] {
      TokensAt("", 0);
    } else {
      var (w, tail) := (words[0], words[1..]);
      assert words == [w] + tail;
      JoinCons(w, tail, ' ');
      if tail == [] {
        TokensOfWord(w);
      } else {
        var rest := Join(tail, ' ');
        TokensOfJoin(tail);
        BlankThen(rest);
        FirstToken(w, [' '] + rest);
        assert w + [' '] + rest == w + ([' '] + rest);
      }
    }
  }

  // ---------------------------------------------------------------- the passes

  /** `b` holds the text of `n` characters and its terminator. */
  ghost predicate Holds(b: array<char>, text: string)
    reads b
  {
    |text| < b.Length && b[..|text|] == text && b[|text|] == EOS && EOS !in text
  }

  lemma ByteAt(b: array<char>, text: string, p: nat)
    requires Holds(b, text) && p <= |text|
    ensures b[p] == EOS <==> p == |text|
    ensures p < |text| ==> b[p] == text[p]
  {
    if p < |text| {
      assert b[..|text|][p] == text[p];
      assert text[p] in text;
    }
  }

  /** The C string at `from`. */
  method ReadFrom(b: array<char>, from: nat, ghost end: nat) returns (s: string)
    requires from <= end < b.Length && b[end] == EOS && EOS !in b[from..end]
    ensures s == b[from..end]
  {
    var i := from;
    s := "";
    while b[i] != EOS
      invariant from <= i <= end && s == b[from..i]
      decreases end - i
    {
      FirstEos(b, from, end, i);
      s := s + [b[i]];
      i := i + 1;
    }
    FirstEos(b, from, end, i);
  }

  lemma FirstEos(b: array<char>, from: nat, end: nat, i: nat)
    requires from <= i <= end < b.Length && b[end] == EOS && EOS !in b[from..end]
    ensures b[i] == EOS <==> i == end
  {
    if i < end {
      assert b[i] == b[from..end][i - from];
    }
  }

  /** The scan for the end of the token at `p`. */
  method FindEnd(b: array<char>, p: nat, ghost text: string) returns (end: nat)
    requires Holds(b, text) && p < |text|
    ensures end == TokenEnd(text, p + 1)
  {
    end := p + 1;
    while b[end] != EOS && !IsSpace(b[end])
      invariant p < end <= |text| && TokenEnd(text, end) == TokenEnd(text, p + 1)
      decreases |text| - end
    {
      ByteAt(b, text, end);
      end := end + 1;
    }
    ByteAt(b, text, end);
  }

  /** `strncmp (p, flag, 2) == 0` at a token. */
  method StartsWith(b: array<char>, p: nat, flag: string, ghost text: string) returns (r: bool)
    requires Holds(b, text) && p < |text| && !IsSpace(text[p]) && |flag| == 2
    requires !IsSpace(flag[0]) && !IsSpace(flag[1]) && EOS !in flag
    ensures r == HasPrefix(text[p..TokenEnd(text, p + 1)], flag)
  {
    ghost var token := text[p..TokenEnd(text, p + 1)];
    ByteAt(b, text, p);
    ByteAt(b, text, p + 1);
    r := b[p] == flag[0] && b[p + 1] == flag[1];
    assert flag == [flag[0], flag[1]];
    assert flag[1] in flag;
    if |token| >= 2 { assert token[..2] == [text[p], text[p + 1]]; }
  }

  /** Puts a terminator at `end`, reads the string at `from`, and puts the old byte back. */
  method TerminatedAt(b: array<char>, from: nat, end: nat, ghost text: string) returns (s: string)
    requires Holds(b, text) && from <= end <= |text|
    modifies b
    ensures Holds(b, text) && b[..] == old(b[..]) && s == text[from..end]
  {
    var save := b[end];
    b[end] := EOS;
    assert b[from..end] == text[from..end] by {
      forall i | from <= i < end ensures b[i] == text[i] { assert old(b[..|text|])[i] == text[i]; }
    }
    assert EOS !in text[from..end];
    s := ReadFrom(b, from, end);
    b[end] := save;
    assert b[..] == old(b[..]);
    assert b[..|text|] == old(b[..])[..|text|];
  }

  /** What is left to do at `i`, and one token further. */
  lemma TokenStep(t: string, i: nat)
    requires i < |t| && !IsSpace(t[i])
    ensures var end := TokenEnd(t, i + 1);
      var token := t[i..end];
      && Tokens(t, i) == [token] + Tokens(t, end)
      && NamesOf(Tokens(t, i)) == (if IsDirFlag(token) then [] else [LibName(token)]) + NamesOf(Tokens(t, end))
      && DirsOf(Tokens(t, i)) == (if IsDirFlag(token) then [token[2..]] else []) + DirsOf(Tokens(t, end))
  {
    var end := TokenEnd(t, i + 1);
    assert Tokens(t, i)[1..] == Tokens(t, end);
  }

  lemma SpaceStep(t: string, i: nat)
    requires i < |t| && IsSpace(t[i])
    ensures Tokens(t, i) == Tokens(t, i + 1)
  {
  }

  lemma NoTokens(t: string)
    ensures Tokens(t, |t|) == [] && NamesOf([]) == [] && DirsOf([]) == []
  {
  }

  lemma AddDirsCons(path: Option<string>, dir: string, dirs: seq<string>)
    ensures AddDirs(path, [dir] + dirs) == AddDirs(SearchPath.AddSearchDir(path, dir), dirs)
    ensures AddDirs(path, []) == path
  {
    assert ([dir] + dirs)[1..] == dirs;
  }

  /** First pass: search directories are added to the path, libraries counted. */
  method CountPass(deplibs: array<char>, path: SearchPath.Variable, ghost text: string) returns (depcount: nat)
    requires Holds(deplibs, text) && path.Valid()
    modifies deplibs, path
    ensures deplibs[..] == old(deplibs[..])
    ensures depcount == |Names(text)|
    ensures path.Valid() && path.userSearchPath == Extend(old(path.userSearchPath), text)
  {
    hide Tokens, NamesOf, DirsOf, AddDirs;
    depcount := 0;
    var p := 0;
    while deplibs[p] != EOS
      invariant p <= |text| && Holds(deplibs, text) && deplibs[..] == old(deplibs[..]) && path.Valid()
      invariant depcount + |NamesOf(Tokens(text, p))| == |Names(text)|
      invariant AddDirs(path.userSearchPath, DirsOf(Tokens(text, p))) == Extend(old(path.userSearchPath), text)
      decreases |text| - p
    {
      ByteAt(deplibs, text, p);
      if !IsSpace(deplibs[p]) {
        var end := FindEnd(deplibs, p, text);
        TokenStep(text, p);
        var isL := StartsWith(deplibs, p, "-L", text);
        var isR := StartsWith(deplibs, p, "-R", text);
        if isL || isR {
          var dir := TerminatedAt(deplibs, p + 2, end, text);
          assert text[p..end][2..] == dir;
          AddDirsCons(path.userSearchPath, dir, DirsOf(Tokens(text, end)));
          path.Add(dir);
        } else {
          assert DirsOf(Tokens(text, p)) == DirsOf(Tokens(text, end));
          depcount := depcount + 1;
        }
        p := end;
      } else {
        SpaceStep(text, p);
        p := p + 1;
      }
    }
    ByteAt(deplibs, text, p);
    NoTokens(text);
    AddDirsCons(path.userSearchPath, "", []);
  }

  /** The library name of the token from `p` to `end`. */
  method NameAt(deplibs: array<char>, p: nat, end: nat, ghost text: string) returns (name: string)
    requires Holds(deplibs, text) && p < |text| && !IsSpace(text[p]) && end == TokenEnd(text, p + 1)
    modifies deplibs
    ensures Holds(deplibs, text) && deplibs[..] == old(deplibs[..]) && name == LibName(text[p..end])
  {
    var isLib := StartsWith(deplibs, p, "-l", text);
    var rest := TerminatedAt(deplibs, if isLib then p + 2 else p, end, text);
    assert isLib ==> text[p..end][2..] == rest;
    name := if isLib then "lib" + rest else rest;
  }

  /** Second pass: the names of the libraries, into an array sized by the first pass. */
  method ExtractPass(deplibs: array<char>, names: array<string>, ghost text: string)
    requires Holds(deplibs, text) && names.Length == |Names(text)|
    modifies deplibs, names
    ensures deplibs[..] == old(deplibs[..])
    ensures names[..] == Names(text)
  {
    hide Tokens, NamesOf, DirsOf;
    var depcount, p := 0, 0;
    while deplibs[p] != EOS
      invariant p <= |text| && Holds(deplibs, text) && deplibs[..] == old(deplibs[..])
      invariant depcount + |NamesOf(Tokens(text, p))| == names.Length
      invariant names[..depcount] + NamesOf(Tokens(text, p)) == Names(text)
      decreases |text| - p
    {
      ByteAt(deplibs, text, p);
      if IsSpace(deplibs[p]) {
        SpaceStep(text, p);
        p := p + 1;
      } else {
        var end := FindEnd(deplibs, p, text);
        TokenStep(text, p);
        var isL := StartsWith(deplibs, p, "-L", text);
        var isR := StartsWith(deplibs, p, "-R", text);
        if !isL && !isR {
          var name := NameAt(deplibs, p, end, text);
          ghost var done := names[..depcount];
          names[depcount] := name;
          assert names[..depcount + 1] == done + [LibName(text[p..end])];
          depcount := depcount + 1;
        }
        p := end;
      }
    }
    ByteAt(deplibs, text, p);
    NoTokens(text);
    assert names[..depcount] == names[..];
  }
}
