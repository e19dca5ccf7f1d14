/** `foreach_dirinpath` (dice/libltdl/ltdl.c): canonicalize, split, and call back for every entry. */
module PathWalk {
  import opened Wrappers
  import opened Text
  import opened Canonical
  import opened CanonicalLaws
  import opened ArgzSpec
  import Argz

  // ---------------------------------------------------------------- the walk over a list

  /** What a walk did: the callback's last answer, the names it was called with, and whether the
      byte in front of the name buffer was read. */
  datatype Walk = Walk(result: int, calls: seq<string>, underrun: bool)

  function FileName(dir: string, base: string): string
    requires base != "" ==> dir != ""
  {
    if base == "" then dir
    else if dir[|dir| - 1] != SLASH then dir + [SLASH] + base
    else dir + base
  }

  /** The walk over `entries` after `calls`. */
  function WalkOver(entries: seq<string>, base: string, func: string -> int, calls: seq<string>): Walk
  {
    if entries == [] then Walk(0, calls, false)
    else if base != "" && entries[0] == "" then Walk(0, calls, true)
    else
      var name := FileName(entries[0], base);
      if func(name) != 0 then Walk(func(name), calls + [name], false)
      else WalkOver(entries[1..], base, func, calls + [name])
  }

  // ---------------------------------------------------------------- the entries of a path

  /** The entries `argz_next` enumerates, the empty ones left aside, are the directories. */
  lemma PipelineNames(p: string)
    requires EOS !in p
    ensures NonEmpty(Entries(CreateSep(Canon(p), COLON))) == Dirs(p)
  {
    CanonEosFree(p);
    CreateSepEntries(Canon(p), COLON);
    CanonNames(p);
  }

  lemma CanonEosFree(p: string)
    requires EOS !in p
    ensures EOS !in Canon(p)
  {
    CanonFromEosFree(p, false);
  }

  lemma {:induction false} CanonFromEosFree(p: string, started: bool)
    requires EOS !in p
    ensures EOS !in CanonFrom(p, started)
    decreases |p|
  {
    if p != "" {
      CanonFromEosFree(p[1..], started);
      CanonFromEosFree(p[1..], true);
    }
  }

  // ---------------------------------------------------------------- the empty entry

  lemma {:induction false} FoldedEmpty(comps: seq<string>)
    requires comps != []
    ensures "" in Folded(comps) <==> comps[|comps| - 1] == ""
  {
    if |comps| > 1 {
      FoldedEmpty(comps[1..]);
      assert comps[1..][|comps| - 2] == comps[|comps| - 1];
    }
  }

  predicate EndsInColon(s: string)
  {
    s != "" && s[|s| - 1] == COLON
  }

  lemma {:induction false} LastPiece(s: string)
    ensures var r := Split(s, COLON); r[|r| - 1] == "" <==> s == "" || EndsInColon(s)
  {
    if s != "" {
      LastPiece(s[1..]);
      var r := Split(s[1..], COLON);
      if |s| > 1 { assert s[1..][|s| - 2] == s[|s| - 1]; }
      if s[0] == COLON {
        assert ([""] + r)[|r|] == r[|r| - 1];
      } else if |r| > 1 {
        assert ([[s[0]] + r[0]] + r[1..])[|r| - 1] == r[|r| - 1];
      } else if |s| > 1 {
        assert r == [r[0]];
        JoinSplit(s[1..], COLON);
        assert r[0] == s[1..];
      }
    }
  }

  /** A component of slashes only, behind a named one, with nothing named after it. */
  predicate Dangling(comps: seq<string>, started: bool)
  {
    exists j :: 0 <= j < |comps| && DanglesAt(comps, started, j)
  }

  predicate DanglesAt(comps: seq<string>, started: bool, j: nat)
    requires j < |comps|
  {
    SlashOnly(comps[j]) && (started || NamedBefore(comps, j)) && UnnamedAfter(comps, j)
  }

  predicate UnnamedAfter(comps: seq<string>, j: nat)
  {
    forall k :: j < k < |comps| ==> !NamesSomething(comps[k])
  }

  lemma NamedBeforeCons(c: string, rest: seq<string>, j: nat)
    requires j <= |rest|
    ensures NamedBefore([c] + rest, j + 1) <==> NamesSomething(c) || NamedBefore(rest, j)
  {
    var comps := [c] + rest;
    if NamedBefore(rest, j) {
      var i :| 0 <= i < j && NamesSomething(rest[i]);
      assert comps[i + 1] == rest[i];
    }
    if NamesSomething(c) { assert comps[0] == c; }
    if NamedBefore(comps, j + 1) {
      var i :| 0 <= i < j + 1 && NamesSomething(comps[i]);
      if i > 0 { assert rest[i - 1] == comps[i]; }
    }
  }

  lemma UnnamedAfterCons(c: string, rest: seq<string>, j: nat)
    ensures UnnamedAfter([c] + rest, j + 1) <==> UnnamedAfter(rest, j)
  {
    var comps := [c] + rest;
    if UnnamedAfter(comps, j + 1) {
      forall k | j < k < |rest| ensures !NamesSomething(rest[k]) { assert comps[k + 1] == rest[k]; }
    }
  }

  lemma DanglingStep(c: string, rest: seq<string>, started: bool)
    ensures Dangling([c] + rest, started) <==>
      || Dangling(rest, started || NamesSomething(c))
      || (started && SlashOnly(c) && UnnamedAfter([c] + rest, 0))
  {
    hide UnnamedAfter, NamedBefore, SlashOnly, NamesSomething;
    var comps, started' := [c] + rest, started || NamesSomething(c);
    if Dangling(comps, started) {
      var j :| 0 <= j < |comps| && DanglesAt(comps, started, j);
      if j == 0 {
        NothingBefore(comps);
      } else {
        assert comps[j] == rest[j - 1];
        NamedBeforeCons(c, rest, j - 1);
        UnnamedAfterCons(c, rest, j - 1);
        assert DanglesAt(rest, started', j - 1);
      }
    }
    if Dangling(rest, started') {
      var j :| 0 <= j < |rest| && DanglesAt(rest, started', j);
      assert comps[j + 1] == rest[j];
      NamedBeforeCons(c, rest, j);
      UnnamedAfterCons(c, rest, j);
      assert DanglesAt(comps, started, j + 1);
    }
    if started && SlashOnly(c) && UnnamedAfter(comps, 0) { assert DanglesAt(comps, started, 0); }
  }

  lemma NothingBefore(comps: seq<string>)
    ensures !NamedBefore(comps, 0)
  {
  }

  lemma {:induction false} WrittenEmpty(comps: seq<string>)
    ensures Written(comps, false) == "" <==> forall k :: 0 <= k < |comps| ==> !NamesSomething(comps[k])
    ensures Written(comps, false) == "" <==> NonEmpty(CleanAll(comps)) == []
  {
    if comps != [] {
      WrittenEmpty(comps[1..]);
      CleanVanishes(comps[0]);
      SplitCleanAll(comps);
      assert forall k :: 0 < k < |comps| ==> comps[k] == comps[1..][k - 1];
    }
  }

  lemma {:induction false} WrittenEnd(comps: seq<string>, started: bool)
    requires forall c :: c in comps ==> COLON !in c
    ensures EndsInColon(Written(comps, started)) <==> Dangling(comps, started)
    decreases |comps|
  {
    if comps != [] {
      var c := Clean(comps[0]);
      var started' := started || c != "";
      var rest := Written(comps[1..], started');
      WrittenEnd(comps[1..], started');
      CleanVanishes(comps[0]);
      CleanKeepsOut(comps[0], COLON);
      assert comps == [comps[0]] + comps[1..];
      DanglingStep(comps[0], comps[1..], started);
      WrittenEndStep(comps, started);
    }
  }

  lemma WrittenEndStep(comps: seq<string>, started: bool)
    requires comps != [] && COLON !in Clean(comps[0])
    requires Clean(comps[0]) == "" <==> !NamesSomething(comps[0])
    requires forall c :: c in comps ==> COLON !in c
    ensures var rest := Written(comps[1..], started || Clean(comps[0]) != "");
      EndsInColon(Written(comps, started)) <==>
        || EndsInColon(rest)
        || (started && SlashOnly(comps[0]) && UnnamedAfter(comps, 0))
  {
    var c := Clean(comps[0]);
    var rest := Written(comps[1..], started || c != "");
    var sep := if started && comps[0] != "" then [COLON] else [];
    assert Written(comps, started) == sep + c + rest;
    SlashOnlyIff(comps[0]);
    if rest != "" {
      assert (sep + c + rest)[|sep + c + rest| - 1] == rest[|rest| - 1];
      if started && UnnamedAfter(comps, 0) {
        assert forall k :: 0 <= k < |comps[1..]| ==> comps[1..][k] == comps[k + 1];
        OnlyColons(comps[1..]);
      }
    } else if c != "" {
      assert (sep + c + rest)[|sep + c + rest| - 1] == c[|c| - 1];
      assert c[|c| - 1] in c;
    } else if started && comps[0] != "" {
      RestEmptyUnnamed(comps[1..], comps);
    }
  }

  lemma SlashOnlyIff(c: string)
    ensures SlashOnly(c) <==> c != "" && !NamesSomething(c)
  {
  }

  /** With something written, components that name nothing only add colons. */
  lemma {:induction false} OnlyColons(rest: seq<string>)
    requires forall k :: 0 <= k < |rest| ==> !NamesSomething(rest[k])
    ensures Written(rest, true) == "" || EndsInColon(Written(rest, true))
  {
    if rest != [] {
      OnlyColons(rest[1..]);
      CleanVanishes(rest[0]);
      var tail := Written(rest[1..], true);
      assert Clean(rest[0]) == "";
      if tail != "" { assert Written(rest, true)[|Written(rest, true)| - 1] == tail[|tail| - 1]; }
    }
  }

  lemma {:induction false} RestEmptyUnnamed(rest: seq<string>, comps: seq<string>)
    requires comps != [] && rest == comps[1..] && Written(rest, true) == ""
    ensures UnnamedAfter(comps, 0)
  {
    AllEmpty(rest);
    forall k | 0 < k < |comps| ensures !NamesSomething(comps[k]) { assert comps[k] == rest[k - 1]; }
  }

  lemma {:induction false} AllEmpty(rest: seq<string>)
    requires Written(rest, true) == ""
    ensures forall k :: 0 <= k < |rest| ==> rest[k] == ""
  {
    if rest != [] {
      AllEmpty(rest[1..]);
      forall k | 0 <= k < |rest| ensures rest[k] == "" { if k > 0 { assert rest[k] == rest[1..][k - 1]; } }
    }
  }

  /** Exactly when an empty entry is enumerated: the path names nothing, or a component made of
      slashes comes after the last one that names something. */
  lemma EmptyEntryIff(p: string)
    requires EOS !in p
    ensures "" in Entries(CreateSep(Canon(p), COLON)) <==> Dirs(p) == [] || Dangling(Split(p, COLON), false)
  {
    CanonEosFree(p);
    CreateSepEntries(Canon(p), COLON);
    FoldedEmpty(Split(Canon(p), COLON));
    LastPiece(Canon(p));
    CanonIsWritten(p);
    SplitFree(p, COLON);
    WrittenEnd(Split(p, COLON), false);
    WrittenEmpty(Split(p, COLON));
  }

  lemma FoldedStep(c: string, rest: seq<string>)
    requires rest != []
    ensures Folded([c] + rest) == (if c == "" then [] else [c]) + Folded(rest)
  {
    assert ([c] + rest)[1..] == rest;
  }

  lemma Regroup(a: seq<string>, b: seq<string>, c: seq<string>)
    ensures (a + b) + c == a + (b + c)
  {
  }

  lemma {:induction false} FoldedLast(comps: seq<string>)
    requires comps != []
    ensures Folded(comps) == NonEmpty(comps) + (if comps[|comps| - 1] == "" then [""] else [])
  {
    if |comps| > 1 {
      var (c, rest) := (comps[0], comps[1..]);
      var tail := if comps[|comps| - 1] == "" then [""] else [];
      FoldedLast(rest);
      assert rest[|rest| - 1] == comps[|comps| - 1];
      FoldedStep(c, rest);
      NonEmptyCons(c, rest);
      assert comps == [c] + rest;
      hide Folded, NonEmpty;
      Regroup(if c == "" then [] else [c], NonEmpty(rest), tail);
    } else {
      assert comps[1..] == [];
    }
  }

  /** Everything that is enumerated: the directories, and then an empty entry under that condition. */
  lemma EnumeratedEntries(p: string)
    requires EOS !in p
    ensures Entries(CreateSep(Canon(p), COLON)) ==
      Dirs(p) + (if Dirs(p) == [] || Dangling(Split(p, COLON), false) then [""] else [])
  {
    var comps := Split(Canon(p), COLON);
    CanonEosFree(p);
    CreateSepEntries(Canon(p), COLON);
    FoldedLast(comps);
    FoldedEmpty(comps);
    CanonNames(p);
    EmptyEntryIff(p);
  }

  /** The callback declines the directory. */
  predicate Declines(dir: string, base: string, func: string -> int)
    requires base != "" ==> dir != ""
  {
    func(FileName(dir, base)) == 0
  }

  /** A walk over directories, with an empty entry behind them or not. */
  lemma {:induction false} WalkUnderruns(dirs: seq<string>, empty: bool, base: string, func: string -> int, calls: seq<string>)
    requires "" !in dirs
    ensures var w, v := WalkOver(dirs + (if empty then [""] else []), base, func, calls), WalkOver(dirs, base, func, calls);
      && !v.underrun
      && (w.underrun <==> empty && base != "" && forall d :: d in dirs ==> Declines(d, base, func))
      && (!empty || base != "" ==> w.result == v.result && w.calls == v.calls)
    decreases |dirs|
  {
    var tail := if empty then [""] else [];
    if dirs == [] {
      assert dirs + tail == tail;
    } else {
      var d := dirs[0];
      assert d in dirs && (dirs + tail)[1..] == dirs[1..] + tail;
      assert forall x :: x in dirs <==> x == d || x in dirs[1..];
      if Declines(d, base, func) {
        WalkUnderruns(dirs[1..], empty, base, func, calls + [FileName(d, base)]);
      }
    }
  }

  /** Exactly when the byte in front of the name buffer is read: a base name is appended, the path
      names nothing or ends in a component of slashes, and the callback declines every directory. */
  lemma UnderrunIff(p: string, base: string, func: string -> int)
    requires EOS !in p
    ensures WalkOver(Entries(CreateSep(Canon(p), COLON)), base, func, []).underrun <==>
      && base != ""
      && (Dirs(p) == [] || Dangling(Split(p, COLON), false))
      && (forall d :: d in Dirs(p) ==> Declines(d, base, func))
  {
    EnumeratedEntries(p);
    WalkUnderruns(Dirs(p), Dirs(p) == [] || Dangling(Split(p, COLON), false), base, func, []);
  }

  /** With a base name the callback sees the directories once each, in order, until it answers, and
      nothing else; without one it sees them too, unless an empty entry follows. */
  lemma PipelineWalk(p: string, base: string, func: string -> int)
    requires EOS !in p
    requires base != "" || (Dirs(p) != [] && !Dangling(Split(p, COLON), false))
    ensures var w, v := WalkOver(Entries(CreateSep(Canon(p), COLON)), base, func, []), WalkOver(Dirs(p), base, func, []);
      && w.result == v.result && w.calls == v.calls && !v.underrun
      && (Dirs(p) != [] && !Dangling(Split(p, COLON), false) ==> w == v)
  {
    EnumeratedEntries(p);
    WalkUnderruns(Dirs(p), Dirs(p) == [] || Dangling(Split(p, COLON), false), base, func, []);
  }

  // ---------------------------------------------------------------- what the callback sees

  /** The base name in the directory, with a slash between them; without a base name the directory. */
  predicate NameIn(dir: string, base: string, name: string)
  {
    if base == "" then name == dir
    else if dir != "" && dir[|dir| - 1] == '/' then name == dir + base
    else name == dir + "/" + base
  }

  lemma FileNameIs(dir: string, base: string)
    requires base != "" ==> dir != ""
    ensures NameIn(dir, base, FileName(dir, base))
  {
  }

  /** The callback was called for the first `n` directories, in order; it declined all of them but
      perhaps the last, whose answer is the result.  Where it never answered, all were tried. */
  ghost predicate Sees(dirs: seq<string>, base: string, func: string -> int, w: Walk, n: nat)
  {
    && n <= |dirs| && |w.calls| == n
    && (forall k :: 0 <= k < n ==> NameIn(dirs[k], base, w.calls[k]))
    && (forall k :: 0 <= k < n - 1 ==> func(w.calls[k]) == 0)
    && (if w.result == 0 then n == |dirs| && (n > 0 ==> func(w.calls[n - 1]) == 0)
        else n > 0 && func(w.calls[n - 1]) == w.result)
  }

  lemma {:induction false} WalkAfter(entries: seq<string>, base: string, func: string -> int, calls: seq<string>)
    ensures var (w, v) := (WalkOver(entries, base, func, calls), WalkOver(entries, base, func, []));
      w == Walk(v.result, calls + v.calls, v.underrun)
  {
    if entries != [] && (base == "" || entries[0] != "") {
      var name := FileName(entries[0], base);
      if func(name) == 0 {
        WalkAfter(entries[1..], base, func, calls + [name]);
        WalkAfter(entries[1..], base, func, [] + [name]);
      }
    }
  }

  lemma {:induction false} WalkSees(dirs: seq<string>, base: string, func: string -> int) returns (n: nat)
    requires "" !in dirs
    ensures Sees(dirs, base, func, WalkOver(dirs, base, func, []), n)
  {
    n := 0;
    if dirs != [] {
      var (d, rest) := (dirs[0], dirs[1..]);
      assert d in dirs;
      var name := FileName(d, base);
      FileNameIs(d, base);
      if func(name) != 0 {
        n := 1;
      } else {
        var m := WalkSees(rest, base, func);
        n := m + 1;
        WalkAfter(rest, base, func, [] + [name]);
        SeesLater(d, rest, base, func, name, WalkOver(rest, base, func, []), m);
        assert [d] + rest == dirs && [] + [name] == [name];
      }
    }
  }

  lemma SeesLater(d: string, rest: seq<string>, base: string, func: string -> int, name: string, v: Walk, m: nat)
    requires Sees(rest, base, func, v, m) && NameIn(d, base, name) && func(name) == 0
    ensures Sees([d] + rest, base, func, Walk(v.result, [name] + v.calls, v.underrun), m + 1)
  {
    hide NameIn;
    var (dirs, calls) := ([d] + rest, [name] + v.calls);
    forall k | 0 <= k < m + 1 ensures NameIn(dirs[k], base, calls[k]) {
      if k > 0 { assert dirs[k] == rest[k - 1] && calls[k] == v.calls[k - 1]; }
    }
    forall k | 0 <= k < m ensures func(calls[k]) == 0 {
      if k > 0 { assert calls[k] == v.calls[k - 1]; }
    }
  }

  /** What `foreach_dirinpath` makes of a path. */
  lemma PathSees(p: string, base: string, func: string -> int) returns (n: nat)
    requires EOS !in p
    requires base != "" || (Dirs(p) != [] && !Dangling(Split(p, COLON), false))
    ensures Sees(Dirs(p), base, func, WalkOver(Entries(CreateSep(Canon(p), COLON)), base, func, []), n)
  {
    hide Dirs, Dangling, WalkOver, Canon, Entries;
    PipelineWalk(p, base, func);
    DirsNamed(p);
    n := WalkSees(Dirs(p), base, func);
  }

  lemma DirsNamed(p: string)
    ensures "" !in Dirs(p)
  {
  }

  // ---------------------------------------------------------------- the function itself

  lemma Cut(b: string, i: nat, n: nat)
    requires i <= n < |b| && b[n] == EOS
    ensures b[i..] == b[i..n] + [EOS] + b[n + 1..]
  {
  }

  lemma EntriesCut(b: string, i: nat, n: nat)
    requires i <= n < |b| && b[n] == EOS && EOS !in b[i..n]
    ensures Entries(b[i..]) == [b[i..n]] + Entries(b[n + 1..])
  {
    hide Entries;
    Cut(b, i, n);
    EntriesCons(b[i..n], b[n + 1..]);
  }

  /** The entries from offset `i` on. */
  lemma EntriesFrom(b: string, i: nat)
    requires i < |b| && EOS in b[i..]
    ensures Entries(b[i..]) == [b[i..NulFrom(b, i)]] + Entries(b[NulFrom(b, i) + 1..])
  {
    var n := NulFrom(b, i);
    hide NulFrom, Entries;
    EntriesCut(b, i, n);
  }

  /** The walk that is still to come from the entry at `dir`. */
  function WalkRest(b: string, dir: Option<nat>, base: string, func: string -> int, calls: seq<string>): Walk
    requires dir.Some? ==> dir.value <= |b|
  {
    if dir.None? then Walk(0, calls, false) else WalkOver(Entries(b[dir.value..]), base, func, calls)
  }

  /** The loop of `foreach_dirinpath`. */
  method WalkVector(argz: Argz.Vector, base: string, func: string -> int) returns (w: Walk)
    requires argz.Valid() && argz.len > 0 && argz.Contents()[argz.len - 1] == EOS
    ensures w == WalkOver(Entries(argz.Contents()), base, func, [])
  {
    hide WalkOver, Entries;
    ghost var b := argz.Contents();
    var calls := [];
    var dir := argz.Next(None);
    assert b[0..] == b;
    while dir.Some?
      invariant dir.Some? ==> dir.value < |b|
      invariant WalkRest(b, dir, base, func, calls) == WalkOver(Entries(b), base, func, [])
      decreases if dir.Some? then |b| - dir.value else 0
    {
      WalkAt(b, dir.value, base, func, calls);
      var name := argz.EntryAtOffset(dir.value);
      if base != "" && name == "" {
        return Walk(0, calls, true);
      }
      var file := FileName(name, base);
      var r := func(file);
      if r != 0 {
        return Walk(r, calls + [file], false);
      }
      calls := calls + [file];
      dir := argz.Next(dir);
    }
    w := Walk(0, calls, false);
  }

  /** `foreach_dirinpath`. */
  method ForeachDirInPath(path: Option<string>, base: string, func: string -> int) returns (w: Walk)
    requires path.Some? ==> EOS !in path.value
    ensures path.None? || path.value == "" ==> w == Walk(0, [], false)
    ensures path.Some? && path.value != "" ==>
      w == WalkOver(Entries(CreateSep(Canon(path.value), COLON)), base, func, [])
  {
    if path.None? || path.value == "" {
      return Walk(0, [], false);
    }
    var buffer := CanonicalizePath(path.value);
    var canonical := CString(buffer[..]);
    CanonEosFree(path.value);
    var argz := new Argz.Vector.CreateSep(canonical, COLON);
    CreateSepEnds(canonical, COLON);
    w := WalkVector(argz, base, func);
  }

  /** `FileName` where it is defined. */
  function FileNameOr(dir: string, base: string): string
  {
    if base != "" && dir == "" then "" else FileName(dir, base)
  }

  lemma WalkCons(name: string, rest: seq<string>, base: string, func: string -> int, calls: seq<string>)
    ensures WalkOver([name] + rest, base, func, calls) ==
      if base != "" && name == "" then Walk(0, calls, true)
      else if func(FileName(name, base)) != 0 then Walk(func(FileName(name, base)), calls + [FileName(name, base)], false)
      else WalkOver(rest, base, func, calls + [FileName(name, base)])
  {
    assert ([name] + rest)[1..] == rest;
  }

  lemma WalkNone(base: string, func: string -> int, calls: seq<string>)
    ensures WalkOver([], base, func, calls) == Walk(0, calls, false)
  {
  }

  lemma NoEntries(b: string, i: nat)
    ensures i == |b| ==> Entries(b[i..]) == []
  {
  }

  /** One round of the walk, at offset `i` of the vector. */
  lemma WalkAt(b: string, i: nat, base: string, func: string -> int, calls: seq<string>)
    requires i < |b| && b[|b| - 1] == EOS
    ensures EOS in b[i..]
    ensures var n := NulFrom(b, i);
      var name := b[i..n];
      WalkOver(Entries(b[i..]), base, func, calls) ==
        if base != "" && name == "" then Walk(0, calls, true)
        else if func(FileName(name, base)) != 0 then Walk(func(FileName(name, base)), calls + [FileName(name, base)], false)
        else WalkRest(b, if n + 1 < |b| then Some(n + 1) else None, base, func, calls + [FileName(name, base)])
  {
    hide NulFrom, Entries, WalkOver;
    EndsInNul(b, i);
    EntriesFrom(b, i);
    var n := NulFrom(b, i);
    NoEntries(b, n + 1);
    WalkCons(b[i..n], Entries(b[n + 1..]), base, func, calls);
    WalkNone(base, func, calls + [FileNameOr(b[i..n], base)]);
  }

  lemma EndsInNul(b: string, i: nat)
    requires i < |b| && b[|b| - 1] == EOS
    ensures EOS in b[i..]
  {
    assert b[i..][|b| - 1 - i] == EOS;
  }

  lemma {:induction false} BuildEnds(str: string, delim: char, acc: string)
    ensures var b := Build(str, delim, acc); b != "" && b[|b| - 1] == EOS
    decreases |str|
  {
    if str != "" {
      BuildEnds(str[1..], delim, if str[0] != delim then acc + [str[0]] else if acc != "" && acc[|acc| - 1] != EOS then acc + [EOS] else acc);
    }
  }

  lemma CreateSepEnds(str: string, delim: char)
    ensures var b := CreateSep(str, delim); b != "" && b[|b| - 1] == EOS
  {
    BuildEnds(str, delim, "");
  }
}
