/** What `canonicalize_path` preserves, and exactly when it is idempotent. */
module CanonicalLaws {
  import opened Text
  import opened Canonical

  predicate IsOrdinary(c: char)
  {
    c != COLON && c != SLASH
  }

  function Ordinary(s: string): string
  {
    if s == "" then "" else (if IsOrdinary(s[0]) then [s[0]] else []) + Ordinary(s[1..])
  }

  predicate SlashesInside(s: string)
  {
    forall i :: 0 <= i < |s| && s[i] == SLASH ==> i + 1 < |s| && IsOrdinary(s[i + 1])
  }

  // ---------------------------------------------------------------- the characters

  lemma {:induction false} CanonFromOrdinary(p: string, started: bool)
    ensures Ordinary(CanonFrom(p, started)) == Ordinary(p)
    decreases |p|
  {
    if p != "" {
      CanonFromOrdinary(p[1..], started);
      CanonFromOrdinary(p[1..], true);
      if CanonFrom(p, started) != CanonFrom(p[1..], started) {
        assert CanonFrom(p, started)[1..] == CanonFrom(p[1..], true);
      }
    }
  }

  /** The first character written. */
  lemma {:induction false} CanonFromHead(p: string, started: bool)
    ensures !started && CanonFrom(p, started) != "" ==> CanonFrom(p, started)[0] != COLON
    ensures p != "" && IsOrdinary(p[0]) ==> CanonFrom(p, started) == [p[0]] + CanonFrom(p[1..], true)
    decreases |p|
  {
    if p != "" && !started {
      CanonFromHead(p[1..], started);
    }
  }

  lemma SlashesInsideCons(x: char, s: string)
    requires SlashesInside(s)
    requires x == SLASH ==> s != "" && IsOrdinary(s[0])
    ensures SlashesInside([x] + s)
  {
    var r := [x] + s;
    forall i | 0 <= i < |r| && r[i] == SLASH ensures i + 1 < |r| && IsOrdinary(r[i + 1]) {
      if i > 0 { assert s[i - 1] == SLASH; }
    }
  }

  lemma {:induction false} CanonFromSlashes(p: string, started: bool)
    ensures SlashesInside(CanonFrom(p, started))
    decreases |p|
  {
    if p != "" {
      var rest := CanonFrom(p[1..], true);
      CanonFromSlashes(p[1..], started);
      CanonFromSlashes(p[1..], true);
      if CanonFrom(p, started) != CanonFrom(p[1..], started) {
        CanonFromHead(p[1..], true);
        SlashesInsideCons(p[0], rest);
        assert CanonFrom(p, started) == [p[0]] + rest;
      }
    }
  }

  /** Every slash is followed by an ordinary character, no separator comes first, and the
      ordinary characters are those of the path, in order. */
  lemma CanonShape(p: string)
    ensures SlashesInside(Canon(p))
    ensures Canon(p) != "" ==> Canon(p)[0] != COLON
    ensures Ordinary(Canon(p)) == Ordinary(p)
  {
    CanonFromSlashes(p, false);
    CanonFromHead(p, false);
    CanonFromOrdinary(p, false);
  }

  // ---------------------------------------------------------------- the names

  lemma SplitCleanAll(comps: seq<string>)
    requires comps != []
    ensures NonEmpty(CleanAll(comps)) == (if Clean(comps[0]) == "" then [] else [Clean(comps[0])]) + NonEmpty(CleanAll(comps[1..]))
  {
    NonEmptyCons(Clean(comps[0]), CleanAll(comps[1..]));
  }

  lemma SplitColon(x: string)
    ensures NonEmpty(Split([COLON] + x, COLON)) == NonEmpty(Split(x, COLON))
  {
    SplitCons("", x, COLON);
    assert "" + [COLON] + x == [COLON] + x;
    NonEmptyCons("", Split(x, COLON));
  }

  lemma WrittenHead(comps: seq<string>)
    ensures Written(comps, true) == "" || Written(comps, true)[0] == COLON
  {
    if comps != [] && comps[0] == "" {
      WrittenHead(comps[1..]);
    }
  }

  lemma WrittenOne(comps: seq<string>, started: bool)
    requires comps != []
    ensures var c := Clean(comps[0]);
      var rest := Written(comps[1..], started || c != "");
      Written(comps, started) == c + rest || Written(comps, started) == [COLON] + (c + rest)
  {
  }

  lemma {:induction false} WrittenNames(comps: seq<string>, started: bool)
    requires forall c :: c in comps ==> COLON !in c
    ensures NonEmpty(Split(Written(comps, started), COLON)) == NonEmpty(CleanAll(comps))
    decreases |comps|
  {
    if comps != [] {
      var c := Clean(comps[0]);
      var rest := Written(comps[1..], started || c != "");
      WrittenNames(comps[1..], started || c != "");
      SplitCleanAll(comps);
      CleanKeepsOut(comps[0], COLON);
      WrittenHead(comps[1..]);
      WrittenOne(comps, started);
      hide Written, Split, NonEmpty, CleanAll, Clean;
      SplitColon(c + rest);
      if c == "" {
        assert c + rest == rest;
      } else {
        SplitFront(c, rest, COLON);
      }
    }
  }

  /** The components of the canonical text, empty ones dropped, are the directories of the path. */
  lemma CanonNames(p: string)
    ensures NonEmpty(Split(Canon(p), COLON)) == Dirs(p)
  {
    CanonIsWritten(p);
    SplitFree(p, COLON);
    WrittenNames(Split(p, COLON), false);
  }

  // ---------------------------------------------------------------- stray colons

  /** The colons of the canonical text that no directory follows. */
  function StrayCount(comps: seq<string>, started: bool): nat
  {
    if comps == [] then 0
    else
      (if started && comps[0] != "" && Clean(comps[0]) == "" then 1 else 0)
      + StrayCount(comps[1..], started || Clean(comps[0]) != "")
  }

  function Flat(es: seq<string>): string
  {
    if es == [] then "" else [COLON] + es[0] + Flat(es[1..])
  }

  function Rejoin(es: seq<string>, started: bool): string
  {
    if started then Flat(es) else Join(es, COLON)
  }

  lemma {:induction false} JoinFlat(es: seq<string>)
    requires es != []
    ensures Join(es, COLON) == es[0] + Flat(es[1..])
  {
    if |es| > 1 {
      JoinFlat(es[1..]);
    }
  }

  lemma RejoinStep(e: string, es: seq<string>, started: bool)
    ensures Rejoin([e] + es, started) == (if started then [COLON] else []) + e + Rejoin(es, true)
  {
    assert ([e] + es)[1..] == es;
    JoinFlat([e] + es);
  }

  lemma {:induction false} WrittenLength(comps: seq<string>, started: bool)
    ensures |Written(comps, started)| == |Rejoin(NonEmpty(CleanAll(comps)), started)| + StrayCount(comps, started)
    ensures StrayCount(comps, started) == 0 ==>
      Written(comps, started) == Rejoin(NonEmpty(CleanAll(comps)), started)
    decreases |comps|
  {
    if comps != [] {
      var c := Clean(comps[0]);
      var es := NonEmpty(CleanAll(comps[1..]));
      WrittenLength(comps[1..], started || c != "");
      SplitCleanAll(comps);
      if c != "" {
        RejoinStep(c, es, started);
      } else {
        assert NonEmpty(CleanAll(comps)) == es;
      }
    }
  }

  /** Every component is empty or keeps a character. */
  lemma {:induction false} NoSlashOnly(comps: seq<string>, started: bool)
    requires forall c :: c in comps && c != "" ==> Clean(c) != ""
    ensures StrayCount(comps, started) == 0
    decreases |comps|
  {
    if comps != [] {
      NoSlashOnly(comps[1..], started || Clean(comps[0]) != "");
    }
  }

  lemma {:induction false} CleanedAlready(comps: seq<string>)
    requires forall c :: c in comps ==> Clean(c) == c
    ensures CleanAll(comps) == comps
  {
    if comps != [] {
      CleanedAlready(comps[1..]);
    }
  }

  lemma CanonPiecesClean(p: string)
    ensures forall c :: c in Split(Canon(p), COLON) ==> Clean(c) == c
  {
    CanonNames(p);
    forall c | c in Split(Canon(p), COLON) ensures Clean(c) == c {
      if c != "" {
        assert c in Dirs(p);
        var cleaned := CleanAll(Split(p, COLON));
        assert c in cleaned;
        var i :| 0 <= i < |cleaned| && cleaned[i] == c;
        CleanTwice(Split(p, COLON)[i]);
      }
    }
  }

  /** A second application always yields the directories joined by single colons. */
  lemma CanonTwice(p: string)
    ensures Canon(Canon(p)) == Join(Dirs(p), COLON)
    ensures Dirs(Canon(p)) == Dirs(p)
  {
    var comps := Split(Canon(p), COLON);
    CanonPiecesClean(p);
    CleanedAlready(comps);
    CanonNames(p);
    NoSlashOnly(comps, false);
    WrittenLength(comps, false);
    CanonIsWritten(Canon(p));
  }

  predicate SlashOnly(c: string)
  {
    c != "" && forall i :: 0 <= i < |c| ==> c[i] == SLASH
  }

  predicate NamesSomething(c: string)
  {
    exists i :: 0 <= i < |c| && c[i] != SLASH
  }

  /** A component made of slashes only, behind a component that names something. */
  predicate Stray(comps: seq<string>, started: bool)
  {
    exists j :: 0 <= j < |comps| && SlashOnly(comps[j]) && (started || NamedBefore(comps, j))
  }

  predicate NamedBefore(comps: seq<string>, j: nat)
    requires j <= |comps|
  {
    exists i :: 0 <= i < j && NamesSomething(comps[i])
  }

  lemma {:induction false} StrayCountZero(comps: seq<string>, started: bool)
    ensures StrayCount(comps, started) == 0 <==> !Stray(comps, started)
    decreases |comps|
  {
    if comps != [] {
      var rest, started' := comps[1..], started || Clean(comps[0]) != "";
      StrayCountZero(rest, started');
      CleanVanishes(comps[0]);
      if Stray(rest, started') {
        var j :| 0 <= j < |rest| && SlashOnly(rest[j]) && (started' || NamedBefore(rest, j));
        assert comps[j + 1] == rest[j];
        if !started' {
          var i :| 0 <= i < j && NamesSomething(rest[i]);
          assert comps[i + 1] == rest[i];
        } else if !started {
          assert NamesSomething(comps[0]);
        }
        assert started || NamedBefore(comps, j + 1);
        assert Stray(comps, started);
      }
      if Stray(comps, started) {
        var j :| 0 <= j < |comps| && SlashOnly(comps[j]) && (started || NamedBefore(comps, j));
        if j > 0 {
          assert rest[j - 1] == comps[j];
          if !started' {
            var i :| 0 <= i < j && NamesSomething(comps[i]);
            assert i > 0 && rest[i - 1] == comps[i];
          }
          assert started' || NamedBefore(rest, j - 1);
        }
      }
    }
  }

  /** Exactly when canonicalizing once is enough. */
  lemma IdempotentIff(p: string)
    ensures Canon(Canon(p)) == Canon(p) <==> !Stray(Split(p, COLON), false)
  {
    var comps := Split(p, COLON);
    CanonTwice(p);
    CanonIsWritten(p);
    WrittenLength(comps, false);
    StrayCountZero(comps, false);
  }
}
