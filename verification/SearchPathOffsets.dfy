/** Directories are added to the search path as they are given, so its text need not be canonical,
    and an offset into it need not point to the same place of the vector made of it
    (dice/libltdl/ltdl.c).  Exactly when it does. */
module SearchPathOffsets {
  import opened Wrappers
  import opened Text
  import opened Canonical
  import opened CanonicalLaws
  import opened ArgzSpec
  import opened Folding
  import opened SearchPath
  import opened SearchPathLaws

  // ---------------------------------------------------------------- canonical texts

  /** No colon at an end or beside another, and every slash directly followed by an ordinary
      character; `started` says that something comes before `d`. */
  predicate NothingToDrop(d: string, started: bool)
  {
    forall i :: 0 <= i < |d| ==> StaysAt(d, started, i)
  }

  predicate StaysAt(d: string, started: bool, i: nat)
    requires i < |d|
  {
    && (d[i] == COLON ==> (started || i > 0) && i + 1 < |d| && d[i + 1] != COLON)
    && (d[i] == SLASH ==> i + 1 < |d| && d[i + 1] != COLON && d[i + 1] != SLASH)
  }

  lemma {:induction false} CanonFromShorter(d: string, started: bool)
    ensures |CanonFrom(d, started)| <= |d|
    decreases |d|
  {
    if d != "" {
      CanonFromShorter(d[1..], started);
      CanonFromShorter(d[1..], true);
    }
  }

  lemma DroppedShorter(d: string, started: bool)
    requires d != "" && !StaysAt(d, started, 0)
    ensures |CanonFrom(d, started)| < |d|
  {
    CanonFromShorter(d[1..], started);
  }

  lemma NothingToDropCons(d: string, started: bool)
    requires d != ""
    ensures NothingToDrop(d, started) <==> StaysAt(d, started, 0) && NothingToDrop(d[1..], true)
  {
    forall i | 0 < i < |d| ensures StaysAt(d, started, i) <==> StaysAt(d[1..], true, i - 1) { }
    if StaysAt(d, started, 0) && NothingToDrop(d[1..], true) {
      forall i | 0 <= i < |d| ensures StaysAt(d, started, i) {
        if i > 0 { assert StaysAt(d[1..], true, i - 1); }
      }
    }
    if NothingToDrop(d, started) {
      forall i | 0 <= i < |d[1..]| ensures StaysAt(d[1..], true, i) { assert StaysAt(d, started, i + 1); }
    }
  }

  lemma {:induction false} CanonFromSameIff(d: string, started: bool)
    ensures CanonFrom(d, started) == d <==> NothingToDrop(d, started)
    decreases |d|
  {
    if d != "" {
      NothingToDropCons(d, started);
      CanonFromSameIff(d[1..], true);
      if StaysAt(d, started, 0) {
        assert CanonFrom(d, started) == [d[0]] + CanonFrom(d[1..], true);
        assert d == [d[0]] + d[1..];
      } else {
        DroppedShorter(d, started);
      }
    }
  }

  /** Exactly when a text is canonical. */
  lemma CanonicalIff(d: string)
    ensures Canon(d) == d <==> NothingToDrop(d, false)
  {
    CanonFromSameIff(d, false);
  }

  /** The first directory becomes the path as it is: the path is canonical exactly when the
      directory is. */
  lemma FirstEntryIff(dir: string)
    requires dir != ""
    ensures AddSearchDir(None, dir) == Some(dir)
    ensures Canon(AddSearchDir(None, dir).value) == AddSearchDir(None, dir).value <==> NothingToDrop(dir, false)
  {
    CanonicalIff(dir);
  }

  lemma JoinedIff(p: string, dir: string)
    requires p != "" && dir != "" && NothingToDrop(p, false)
    ensures NothingToDrop(p + [COLON] + dir, false) <==> NothingToDrop(dir, false)
  {
    var (r, n) := (p + [COLON] + dir, |p| + 1);
    assert StaysAt(p, false, |p| - 1);
    forall i | 0 <= i < |p| ensures StaysAt(r, false, i) {
      assert StaysAt(p, false, i);
    }
    forall i | 0 <= i < |dir| ensures r[n + i] == dir[i] { }
    if NothingToDrop(dir, false) {
      assert StaysAt(dir, false, 0);
      forall i | 0 <= i < |r| ensures StaysAt(r, false, i) {
        if i >= n { assert StaysAt(dir, false, i - n); }
      }
    }
    if NothingToDrop(r, false) {
      assert StaysAt(r, false, |p|);
      forall i | 0 <= i < |dir| ensures StaysAt(dir, false, i) { assert StaysAt(r, false, n + i); }
    }
  }

  /** Adding to a canonical path keeps it canonical exactly when the directory is. */
  lemma AddStaysCanonicalIff(p: string, dir: string)
    requires EOS !in p && EOS !in dir && dir != "" && p != "" && Canon(p) == p
    ensures AddSearchDir(Some(p), dir) == Some(p + [COLON] + dir)
    ensures Canon(p + [COLON] + dir) == p + [COLON] + dir <==> NothingToDrop(dir, false)
  {
    IdempotentIff(p);
    CanonTwice(p);
    assert Dirs(p) != [];
    SetReplaces(p);
    RepresentedText(Dirs(p));
    AddText(p, dir);
    CanonicalIff(p);
    JoinedIff(p, dir);
    CanonicalIff(p + [COLON] + dir);
  }

  /** A trailing slash stays, although the canonical form of the directory has none. */
  lemma UncanonicalEntry()
    ensures AddSearchDir(None, "a/") == Some("a/") && Canon("a/") == "a"
  {
    assert "a/"[1..] == "/" && "/"[1..] == "";
  }

  // ---------------------------------------------------------------- offsets behind the vector

  /** Exactly when an offset that is accepted lies inside the vector. */
  lemma OffsetInsideIff(p: string, before: int)
    requires EOS !in p && ValidOffset(Some(p), before)
    ensures before <= |CreateSep(p, COLON)| <==> before <= |p| + 1 - FoldedColons(p)
  {
    VectorLength(p);
  }

  /** Exactly when all of them do. */
  lemma OffsetsInsideIff(p: string)
    requires EOS !in p
    ensures (forall before :: ValidOffset(Some(p), before) ==> before <= |CreateSep(p, COLON)|) <==> FoldedColons(p) <= 2
  {
    VectorLength(p);
    if FoldedColons(p) > 2 {
      assert ValidOffset(Some(p), |p| - 1);
    }
  }

  /** Three colons too many put the last offset behind the vector. */
  lemma OffsetOutside()
    ensures AddSearchDir(None, "a::::b") == Some("a::::b")
    ensures ValidOffset(Some("a::::b"), 5) && |CreateSep("a::::b", COLON)| == 4
  {
    var p := "a::::b";
    assert p[1..] == "::::b" && "::::b"[1..] == ":::b" && ":::b"[1..] == "::b" && "::b"[1..] == ":b" && ":b"[1..] == "b";
    assert "b"[1..] == "";
    assert Dropped(":b", true) == 1;
    assert Dropped("::b", true) == 2;
    assert Dropped(":::b", true) == 3;
    assert Dropped("::::b", false) == 3;
    VectorLength(p);
  }

  // ---------------------------------------------------------------- where the directory lands

  lemma InsertAtTells(es: seq<string>, j: nat, k: nat, e: string)
    requires j <= |es| && k <= |es| && e !in es && j != k
    ensures InsertAt(es, j, e) != InsertAt(es, k, e)
  {
    var m := if j < k then j else k;
    assert es[m] in es;
    assert InsertAt(es, m, e)[m] == e && InsertAt(es, if j < k then k else j, e)[m] == es[m];
  }

  lemma InsertedPieces(f: seq<string>, j: nat, dir: string)
    requires j <= |f| && IsDir(dir) && EosFree(f) && forall c :: c in f ==> COLON !in c
    ensures EosFree(InsertAt(f, j, dir))
    ensures Split(Join(InsertAt(f, j, dir), COLON), COLON) == InsertAt(f, j, dir)
  {
    SplitJoin(InsertAt(f, j, dir), COLON);
  }

  /** The text after an insertion in front of entry `j`: the join, but the empty text when an empty
      entry stays in front. */
  lemma InsertedText(f: seq<string>, j: nat, dir: string)
    requires j <= |f| && IsDir(dir) && EosFree(f) && f != [] && (f[0] == "" ==> |f| == 1)
    ensures CString(Stringify(Encode(InsertAt(f, j, dir)), COLON)) ==
      if j == 0 || f[0] != "" then Join(InsertAt(f, j, dir), COLON) else ""
  {
    StringifyJoins(InsertAt(f, j, dir), COLON);
  }

  lemma FoldedPieces(p: string)
    requires EOS !in p
    ensures var f := Folded(Split(p, COLON));
      f != [] && EosFree(f) && (f[0] == "" ==> |f| == 1) && forall c :: c in f ==> COLON !in c
  {
    PiecesEosFree(p, COLON);
    SplitFree(p, COLON);
    FoldedHead(Split(p, COLON));
  }

  /** Exactly when an insertion at an offset places the directory before the component the offset
      lies in (for any text, and any offset that lies inside the vector): when the colons folded
      before the end of that component do not carry the offset past it.  The directory must be
      new, since between equal entries there is nothing to tell. */
  lemma LandsIff(p: string, before: nat, dir: string)
    requires EOS !in p && IsDir(dir) && ValidOffset(Some(p), before) && before <= |CreateSep(p, COLON)|
    requires dir !in Split(p, COLON)
    ensures var (f, k, x) := (Folded(Split(p, COLON)), DirsBefore(p, before), ComponentEnd(p, true, before));
      && k < |f|
      && (InsertDir(Some(p), Some(before), dir) == Some(Join(InsertAt(f, k, dir), COLON)) <==>
            before + FoldedColons(p[..x]) <= x)
  {
    hide Folded, ComponentEnd, EntryAt, FoldedColons, DirsBefore, Insert, InsertAt;
    var (f, k) := (Folded(Split(p, COLON)), DirsBefore(p, before));
    DirsBeforeIsKept(p, before);
    SameComponentIff(p, before);
    FoldedPieces(p);
    FoldedHead(Split(p, COLON));
    var j := EntryAt(f, before);
    InsertEntry(f, before, dir);
    InsertedText(f, j, dir);
    LandsAtTold(f, j, k, dir);
  }

  /** Two insertions read the same exactly when they are at the same place. */
  lemma LandsAtTold(f: seq<string>, j: nat, k: nat, dir: string)
    requires j <= |f| && k < |f| && IsDir(dir) && EosFree(f) && dir !in f
    requires (f[0] == "" ==> |f| == 1) && forall c :: c in f ==> COLON !in c
    ensures (if j == 0 || f[0] != "" then Join(InsertAt(f, j, dir), COLON) else "") == Join(InsertAt(f, k, dir), COLON)
       <==> j == k
  {
    InsertedPieces(f, j, dir);
    InsertedPieces(f, k, dir);
    if j != k {
      InsertAtTells(f, j, k, dir);
    }
    if f[0] == "" && j > 0 {
      assert Split("", COLON) == [""];
      assert |InsertAt(f, k, dir)| == 2;
    }
  }

  /** It does when no colon is folded up to the end of the component. */
  lemma NothingFoldedLands(p: string, before: nat, dir: string)
    requires EOS !in p && IsDir(dir) && ValidOffset(Some(p), before) && dir !in Split(p, COLON)
    requires FoldedColons(p[..ComponentEnd(p, true, before)]) == 0 && before <= |CreateSep(p, COLON)|
    ensures DirsBefore(p, before) < |Folded(Split(p, COLON))|
    ensures InsertDir(Some(p), Some(before), dir)
         == Some(Join(InsertAt(Folded(Split(p, COLON)), DirsBefore(p, before), dir), COLON))
  {
    LandsIff(p, before, dir);
  }

  lemma FoldedVector()
    ensures CreateSep(":a:b", COLON) == Encode(["a", "b"]) && |CreateSep(":a:b", COLON)| == 4
    ensures EntryAt(["a", "b"], 1) == 0 && EntryAt(["a", "b"], 2) == 1
  {
    var (p, f) := (":a:b", ["a", "b"]);
    assert p[1..] == "a:b" && "a:b"[1..] == ":b" && ":b"[1..] == "b" && "b"[1..] == "";
    assert f[1..] == ["b"] && ["b"][1..] == [];
    CreateSepIsBytes(p);
    assert Bytes("b", true) == "b" + [EOS];
    assert Bytes(":b", false) == [EOS] + Bytes("b", true);
    assert Bytes("a:b", true) == "a" + Bytes(":b", false);
    assert Encode(["b"]) == "b" + [EOS] + "";
  }

  /** But not only then: with a colon folded in front, the first character of a component still
      points into it, and the colon that ends it no longer does. */
  lemma FoldedInFront(dir: string)
    requires IsDir(dir)
    ensures |CreateSep(":a:b", COLON)| == 4
    ensures InsertDir(Some(":a:b"), Some(1), dir) == Some(Join([dir, "a", "b"], COLON))
    ensures InsertDir(Some(":a:b"), Some(2), dir) == Some(Join(["a", dir, "b"], COLON))
  {
    hide EntryAt, Encode, CreateSep, Insert, Stringify, CString, Join;
    var f := ["a", "b"];
    FoldedVector();
    InsertEntry(f, 1, dir);
    InsertEntry(f, 2, dir);
    InsertedText(f, 0, dir);
    InsertedText(f, 1, dir);
    assert InsertAt(f, 0, dir) == [dir, "a", "b"] && InsertAt(f, 1, dir) == ["a", dir, "b"];
  }
}
