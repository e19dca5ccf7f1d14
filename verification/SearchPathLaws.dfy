/** The search path behaves as a list of directories, as far as it does. */
module SearchPathLaws {
  import opened Wrappers
  import opened Text
  import opened Canonical
  import opened CanonicalLaws
  import opened ArgzSpec
  import opened SearchPath

  /** The directories of a text that is taken as it is. */
  function Names(text: string): seq<string>
  {
    NonEmpty(Split(text, COLON))
  }

  lemma EmptyNames()
    ensures Names("") == [] && Dirs("") == []
  {
    NonEmptyCons("", []);
    assert CleanAll([""]) == [""] + [];
  }

  // ---------------------------------------------------------------- splitting and stringifying

  lemma {:induction false} FoldedHead(comps: seq<string>)
    requires comps != []
    ensures Folded(comps) != [] && (Folded(comps)[0] == "" <==> NonEmpty(comps) == [])
    ensures Folded(comps)[0] == "" ==> |Folded(comps)| == 1
    ensures forall c :: c in Folded(comps) ==> c in comps
  {
    if |comps| > 1 {
      FoldedHead(comps[1..]);
      NonEmptyCons(comps[0], comps[1..]);
    } else {
      assert comps == [comps[0]] + [];
      NonEmptyCons(comps[0], []);
    }
  }

  /** Splitting and stringifying gives the text back exactly when no component but the last is
      empty. */
  lemma RoundTripIff(p: string)
    requires EOS !in p && Names(p) != []
    ensures CString(Stringify(CreateSep(p, COLON), COLON)) == p <==> Folded(Split(p, COLON)) == Split(p, COLON)
  {
    var comps := Split(p, COLON);
    var f := Folded(comps);
    CreateSepEntries(p, COLON);
    PiecesEosFree(p, COLON);
    FoldedHead(comps);
    StringifyJoins(f, COLON);
    JoinSplit(p, COLON);
    SplitFree(p, COLON);
    SplitJoin(f, COLON);
  }

  /** The folding changes nothing exactly when every component but the last has a character. */
  lemma {:induction false} UnfoldedIff(comps: seq<string>)
    requires comps != []
    ensures Folded(comps) == comps <==> forall i :: 0 <= i < |comps| - 1 ==> comps[i] != ""
  {
    if |comps| > 1 {
      UnfoldedIff(comps[1..]);
      FoldedShorter(comps[1..]);
      if comps[0] != "" {
        assert Folded(comps)[1..] == Folded(comps[1..]);
        assert comps == [comps[0]] + comps[1..];
        assert forall i :: 0 < i < |comps| ==> comps[i] == comps[1..][i - 1];
      }
    }
  }

  lemma {:induction false} FoldedShorter(comps: seq<string>)
    ensures |Folded(comps)| <= |comps|
  {
    if comps != [] {
      FoldedShorter(comps[1..]);
    }
  }

  // ---------------------------------------------------------------- adding

  lemma {:induction false} SplitConcat(a: string, b: string)
    ensures Split(a + [COLON] + b, COLON) == Split(a, COLON) + Split(b, COLON)
  {
    var s, rb := a + [COLON] + b, Split(b, COLON);
    if a == "" {
      assert s[1..] == b;
    } else {
      SplitConcat(a[1..], b);
      assert s[1..] == a[1..] + [COLON] + b;
      AssocPieces(a[0], Split(a[1..], COLON), rb);
    }
  }

  lemma AssocPieces(x: char, a: seq<string>, b: seq<string>)
    requires a != []
    ensures [""] + (a + b) == ([""] + a) + b
    ensures [[x] + (a + b)[0]] + (a + b)[1..] == ([[x] + a[0]] + a[1..]) + b
  {
    assert (a + b)[1..] == a[1..] + b;
  }

  lemma {:induction false} JoinAppend(es: seq<string>, e: string)
    requires es != []
    ensures Join(es + [e], COLON) == Join(es, COLON) + [COLON] + e
  {
    if |es| == 1 {
      assert (es + [e])[1..] == [e];
    } else {
      JoinAppend(es[1..], e);
      assert (es + [e])[1..] == es[1..] + [e];
    }
  }

  lemma AddText(p: string, dir: string)
    requires EOS !in p && EOS !in dir && dir != ""
    ensures var f := Folded(Split(p, COLON));
      AddSearchDir(Some(p), dir) == Some(if Names(p) == [] then "" else Join(f, COLON) + [COLON] + dir)
  {
    var comps := Split(p, COLON);
    var f := Folded(comps);
    CreateSepEntries(p, COLON);
    PiecesEosFree(p, COLON);
    FoldedHead(comps);
    AppendEntry(f, dir);
    StringifyJoins(f + [dir], COLON);
    JoinAppend(f, dir);
  }

  /** Exactly when adding a directory (or a colon-separated run of them) to a set path appends
      it: when the path names a directory at all. */
  lemma AddAppendsIff(p: string, dir: string)
    requires EOS !in p && EOS !in dir && dir != ""
    ensures var r := AddSearchDir(Some(p), dir);
      r.Some? && (Names(r.value) == Names(p) + Names(dir) <==> Names(p) != [] || Names(dir) == [])
  {
    var f := Folded(Split(p, COLON));
    AddText(p, dir);
    if Names(p) != [] {
      SplitConcat(Join(f, COLON), dir);
      NonEmptyConcat(Split(Join(f, COLON), COLON), Split(dir, COLON));
      FoldedHead(Split(p, COLON));
      SplitFree(p, COLON);
      SplitJoin(f, COLON);
      FoldedNonEmpty(Split(p, COLON));
    } else {
      EmptyNames();
      assert Names(p) + Names(dir) == Names(dir);
    }
  }

  /** A path set to slashes only is set but empty, and no directory can be added to it any more. */
  lemma LostDirectory(dir: string)
    requires EOS !in dir && dir != ""
    ensures SetSearchPath(Some("/")) == Some("")
    ensures AddSearchDir(SetSearchPath(Some("/")), dir) == Some("")
  {
    assert Canon("/") == "" by { assert "/"[1..] == ""; }
    EmptyNames();
    AddText("", dir);
  }

  // ---------------------------------------------------------------- the list

  /** A component of a clean path. */
  predicate IsDir(d: string)
  {
    d != "" && COLON !in d && EOS !in d
  }

  predicate AllDirs(ds: seq<string>)
  {
    forall d :: d in ds ==> IsDir(d)
  }

  /** The text stands for the list. */
  predicate Represents(path: Option<string>, ds: seq<string>)
  {
    && AllDirs(ds)
    && path == if ds == [] then None else Some(Join(ds, COLON))
  }

  lemma RepresentedText(ds: seq<string>)
    requires AllDirs(ds) && ds != []
    ensures var p := Join(ds, COLON);
      && EOS !in p && p != ""
      && Split(p, COLON) == ds && Folded(ds) == ds && Names(p) == ds
      && CreateSep(p, COLON) == Encode(ds) && |Encode(ds)| == |p| + 1
  {
    SplitJoin(ds, COLON);
    FoldedAll(ds);
    NonEmptyAll(ds);
    JoinChars(ds, COLON);
    var p := Join(ds, COLON);
    forall i | 0 <= i < |p| ensures p[i] != EOS { assert p[i] == if Encode(ds)[i] == EOS then COLON else Encode(ds)[i]; }
    CreateSepEntries(p, COLON);
    assert ds[0] in ds;
  }

  lemma AddAppends(ds: seq<string>, path: Option<string>, dir: string)
    requires Represents(path, ds) && IsDir(dir)
    ensures Represents(AddSearchDir(path, dir), ds + [dir])
  {
    if ds != [] {
      RepresentedText(ds);
      AddText(Join(ds, COLON), dir);
      JoinAppend(ds, dir);
    }
  }

  function CountColons(s: string): nat
  {
    if s == "" then 0 else CountColons(s[..|s| - 1]) + (if s[|s| - 1] == COLON then 1 else 0)
  }

  /** The component that a text offset lies in; a colon belongs to the component it ends. */
  function ComponentAt(text: string, offset: nat): nat
    requires offset <= |text|
  {
    CountColons(text[..offset])
  }

  lemma {:induction false} CountColonsConcat(a: string, b: string)
    ensures CountColons(a + b) == CountColons(a) + CountColons(b)
  {
    if b == "" {
      assert a + b == a;
    } else {
      CountColonsConcat(a, b[..|b| - 1]);
      assert (a + b)[..|a + b| - 1] == a + b[..|b| - 1];
    }
  }

  lemma {:induction false} NoColons(s: string)
    requires COLON !in s
    ensures CountColons(s) == 0
  {
    if s != "" {
      NoColons(s[..|s| - 1]);
    }
  }

  lemma {:induction false} EntryIsComponent(ds: seq<string>, i: nat)
    requires AllDirs(ds) && ds != [] && i <= |Join(ds, COLON)| && i <= |Encode(ds)|
    ensures EntryAt(ds, i) == ComponentAt(Join(ds, COLON), i)
    decreases |ds|
  {
    var d, p := ds[0], Join(ds, COLON);
    assert d in ds;
    if i <= |d| {
      assert p[..i] == d[..i];
      NoColons(d[..i]);
    } else {
      var rest, i' := Join(ds[1..], COLON), i - |d| - 1;
      assert p == d + [COLON] + rest;
      forall e | e in ds[1..] ensures IsDir(e) { assert e in ds; }
      assert EosFree(ds[1..]);
      JoinChars(ds[1..], COLON);
      EntryIsComponent(ds[1..], i');
      assert p[..i] == (d + [COLON]) + rest[..i'];
      CountColonsConcat(d + [COLON], rest[..i']);
      NoColons(d);
      assert (d + [COLON])[..|d|] == d;
    }
  }

  /** Inserting at an offset places the directory before the component the offset lies in. */
  lemma InsertPlaces(ds: seq<string>, path: Option<string>, before: nat, dir: string)
    requires Represents(path, ds) && IsDir(dir) && ValidOffset(path, before)
    ensures before <= |CreateSep(path.value, COLON)|
    ensures var k := ComponentAt(path.value, before);
      k < |ds| && Represents(InsertDir(path, Some(before), dir), InsertAt(ds, k, dir))
  {
    RepresentedText(ds);
    EntryIsComponent(ds, before);
    InsertEntry(ds, before, dir);
    var ds' := InsertAt(ds, EntryAt(ds, before), dir);
    assert AllDirs(ds');
    assert ds'[0] in ds';
    StringifyJoins(ds', COLON);
  }

  lemma SetReplaces(p: string)
    requires EOS !in p && !Stray(Split(p, COLON), false) && Dirs(p) != []
    ensures Represents(SetSearchPath(Some(p)), Dirs(p))
  {
    IdempotentIff(p);
    CanonTwice(p);
    var comps := Split(p, COLON);
    PiecesEosFree(p, COLON);
    SplitFree(p, COLON);
    forall d | d in Dirs(p) ensures IsDir(d) {
      var i :| 0 <= i < |comps| && Clean(comps[i]) == d;
      assert comps[i] in comps;
      CleanKeepsOut(comps[i], COLON);
      CleanKeepsOut(comps[i], EOS);
    }
    EmptyNames();
  }

  // ---------------------------------------------------------------- whole runs

  datatype PathOp =
    | AddOp(dir: string)
    | InsertOp(before: int, dir: string)
    | SetOp(path: Option<string>)

  /** Directories are single and non-empty; a path that is set names something and has no
      component of slashes behind a named one. */
  predicate Proper(op: PathOp)
  {
    match op
    case AddOp(dir) => dir == "" || IsDir(dir)
    case InsertOp(_, dir) => dir == "" || IsDir(dir)
    case SetOp(path) =>
      path.None? || path.value == ""
      || (EOS !in path.value && Dirs(path.value) != [] && !Stray(Split(path.value, COLON), false))
  }

  predicate Places(path: Option<string>, op: PathOp)
  {
    op.InsertOp? && op.dir != "" && ValidOffset(path, op.before)
  }

  function Apply(path: Option<string>, op: PathOp): Option<string>
    requires Places(path, op) ==> op.before <= |CreateSep(path.value, COLON)|
  {
    match op
    case AddOp(dir) => AddSearchDir(path, dir)
    case InsertOp(before, dir) => if Places(path, op) then InsertDir(path, Some(before), dir) else path
    case SetOp(p) => SetSearchPath(p)
  }

  function ApplyToList(ds: seq<string>, op: PathOp): seq<string>
  {
    match op
    case AddOp(dir) => if dir == "" then ds else ds + [dir]
    case InsertOp(before, dir) =>
      var text := Join(ds, COLON);
      if dir == "" || !(0 <= before < |text|) then ds
      else
        var k := ComponentAt(text, before);
        if k <= |ds| then InsertAt(ds, k, dir) else ds
    case SetOp(p) => if p.None? then [] else Dirs(p.value)
  }

  lemma ApplyRefines(path: Option<string>, ds: seq<string>, op: PathOp)
    requires Represents(path, ds) && Proper(op)
    ensures Places(path, op) ==> op.before <= |CreateSep(path.value, COLON)|
    ensures Represents(Apply(path, op), ApplyToList(ds, op))
  {
    match op {
      case AddOp(dir) => if dir != "" { AddAppends(ds, path, dir); }
      case InsertOp(before, dir) =>
        if Places(path, op) { InsertPlaces(ds, path, before, dir); }
      case SetOp(p) =>
        if p.Some? && p.value != "" { SetReplaces(p.value); }
        EmptyNames();
    }
  }

  /** The path after a run, from the text and from the list. */
  ghost predicate Reaches(path: Option<string>, ops: seq<PathOp>, path': Option<string>)
    decreases |ops|
  {
    if ops == [] then path' == path
    else
      && (Places(path, ops[0]) ==> ops[0].before <= |CreateSep(path.value, COLON)|)
      && Reaches(Apply(path, ops[0]), ops[1..], path')
  }

  function RunOnList(ds: seq<string>, ops: seq<PathOp>): seq<string>
    decreases |ops|
  {
    if ops == [] then ds else RunOnList(ApplyToList(ds, ops[0]), ops[1..])
  }

  lemma {:induction false} RunFromRefines(path: Option<string>, ds: seq<string>, ops: seq<PathOp>) returns (path': Option<string>)
    requires Represents(path, ds) && forall op :: op in ops ==> Proper(op)
    ensures Reaches(path, ops, path') && Represents(path', RunOnList(ds, ops))
    decreases |ops|
  {
    path' := path;
    if ops != [] {
      ApplyRefines(path, ds, ops[0]);
      path' := RunFromRefines(Apply(path, ops[0]), ApplyToList(ds, ops[0]), ops[1..]);
    }
  }

  /** Over every run of proper calls the text stands for the list. */
  lemma RunRefines(ops: seq<PathOp>)
    requires forall op :: op in ops ==> Proper(op)
    ensures exists path :: Reaches(None, ops, path) && Represents(path, RunOnList([], ops))
  {
    var path := RunFromRefines(None, [], ops);
  }
}
