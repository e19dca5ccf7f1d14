/** `canonicalize_path` (dice/libltdl/ltdl.c): its loop, and what the loop means for the
    colon-separated components of a path. */
module Canonical {
  import opened Text

  const COLON: char := ':'
  const SLASH: char := '/'

  // ---------------------------------------------------------------- the loop

  /** The characters the loop still copies when `p` is left; `started` says that some were. */
  function CanonFrom(p: string, started: bool): string
  {
    if p == "" then ""
    else
      var atEnd := |p| == 1 || p[1] == COLON;
      if p[0] == COLON then
        if !started || atEnd then CanonFrom(p[1..], started) else [COLON] + CanonFrom(p[1..], true)
      else if p[0] == SLASH then
        if atEnd || p[1] == SLASH then CanonFrom(p[1..], started) else [SLASH] + CanonFrom(p[1..], true)
      else
        [p[0]] + CanonFrom(p[1..], true)
  }

  function Canon(p: string): string
  {
    CanonFrom(p, false)
  }

  /** One round of the loop, at position `i` of the whole path. */
  lemma CanonStep(path: string, i: nat, started: bool)
    requires i < |path|
    ensures var last := i + 1 == |path| || path[i + 1] == COLON;
      CanonFrom(path[i..], started) ==
        if path[i] == COLON && (!started || last) then CanonFrom(path[i + 1..], started)
        else if path[i] != SLASH || (!last && path[i + 1] != SLASH) then [path[i]] + CanonFrom(path[i + 1..], true)
        else CanonFrom(path[i + 1..], started)
  {
    assert path[i..][1..] == path[i + 1..];
  }

  lemma CanonEnds(path: string, started: bool)
    ensures CanonFrom(path[|path|..], started) == ""
  {
  }

  /** `canonicalize_path`; reading at `|path|` meets the terminator. */
  method CanonicalizePath(path: string) returns (canonical: array<char>)
    requires EOS !in path
    ensures fresh(canonical) && canonical.Length == 1 + |path|
    ensures CString(canonical[..]) == Canon(path)
  {
    hide CString, CanonFrom, Canon;
    CanonStart(path);
    canonical := new char[1 + |path|](_ => EOS);
    var dest, src := 0, 0;
    ghost var written := "";
    while src < |path|
      invariant dest <= src <= |path|
      invariant |written| == dest && canonical[..dest] == written && EOS !in written
      invariant written + CanonFrom(path[src..], dest != 0) == Canon(path)
    {
      var last := src + 1 == |path| || path[src + 1] == COLON;
      CanonStep(path, src, dest != 0);
      if path[src] == COLON && (dest == 0 || last) {
        src := src + 1;
        continue;
      }
      if path[src] != SLASH {
        canonical[dest] := path[src];
        dest := dest + 1;
        Appended(written, path[src], CanonFrom(path[src + 1..], true));
        written := written + [path[src]];
      } else if !last && path[src + 1] != SLASH {
        canonical[dest] := SLASH;
        dest := dest + 1;
        Appended(written, SLASH, CanonFrom(path[src + 1..], true));
        written := written + [SLASH];
      }
      src := src + 1;
    }
    CanonEnds(path, dest != 0);
    canonical[dest] := EOS;
    assert canonical[..][..dest] == written;
    CStringAt(canonical[..], dest);
  }

  lemma CanonStart(path: string)
    ensures "" + CanonFrom(path[0..], false) == Canon(path)
  {
    assert path[0..] == path;
  }

  lemma Appended(s: string, c: char, rest: string)
    ensures s + ([c] + rest) == (s + [c]) + rest
  {
  }

  // ---------------------------------------------------------------- components

  /** A component without the slashes that are followed by a slash or by its end. */
  function Clean(c: string): (r: string)
    ensures c == "" ==> r == ""
  {
    if c == "" then ""
    else if c[0] == SLASH && (|c| == 1 || c[1] == SLASH) then Clean(c[1..])
    else [c[0]] + Clean(c[1..])
  }

  function CleanAll(comps: seq<string>): (r: seq<string>)
    ensures |r| == |comps| && forall i :: 0 <= i < |r| ==> r[i] == Clean(comps[i])
  {
    if comps == [] then [] else [Clean(comps[0])] + CleanAll(comps[1..])
  }

  /** The directories a path text names: its components, cleaned, the empty ones dropped. */
  function Dirs(path: string): seq<string>
  {
    NonEmpty(CleanAll(Split(path, COLON)))
  }

  /** `names` joined by slashes, behind a slash if `rooted`. */
  function Rejoined(rooted: bool, names: seq<string>): string
  {
    if names == [] then "" else (if rooted then [SLASH] else []) + Join(names, SLASH)
  }

  predicate Rooted(c: string)
  {
    c != "" && c[0] == SLASH
  }

  /** Cleaning is what it is meant to be: the file names between the slashes, joined by single
      slashes, behind a slash if the component began with one. */
  lemma {:induction false} CleanMeaning(c: string)
    ensures Clean(c) == Rejoined(Rooted(c), NonEmpty(Split(c, SLASH)))
  {
    if c != "" {
      CleanMeaning(c[1..]);
      FirstPiece(c[1..], SLASH);
      var r := Split(c[1..], SLASH);
      NonEmptyCons(r[0], r[1..]);
      assert r == [r[0]] + r[1..];
      if c[0] == SLASH {
        NonEmptyCons("", r);
        assert Split(c, SLASH) == [""] + r;
        assert NonEmpty(Split(c, SLASH)) == NonEmpty(r);
      } else {
        NonEmptyCons([c[0]] + r[0], r[1..]);
        SplitFree(c[1..], SLASH);
        assert r[0] in r;
        assert r[0] == "" ==> NonEmpty(r) == NonEmpty(r[1..]);
        assert Clean(c) == [c[0]] + Rejoined(Rooted(c[1..]), NonEmpty(r));
        RejoinedStep(c[0], r[0], NonEmpty(r[1..]));
      }
    }
  }

  lemma RejoinedStep(x: char, first: string, names: seq<string>)
    ensures Rejoined(false, [[x] + first] + names)
         == [x] + (if first == "" then Rejoined(true, names) else Rejoined(false, [first] + names))
  {
    hide Join;
    RejoinedCons(false, [x] + first, names);
    RejoinedCons(false, first, names);
    PushFront(x, first, Join(names, SLASH));
  }

  lemma RejoinedCons(rooted: bool, p: string, names: seq<string>)
    ensures Rejoined(rooted, [p] + names) ==
      (if rooted then [SLASH] else []) + (if names == [] then p else p + [SLASH] + Join(names, SLASH))
  {
    JoinCons(p, names, SLASH);
  }

  lemma PushFront(x: char, first: string, rest: string)
    ensures ([x] + first) + [SLASH] + rest == [x] + (first + [SLASH] + rest)
    ensures first == "" ==> ([x] + first) + [SLASH] + rest == [x] + ([SLASH] + rest) && [x] + first == [x]
    ensures forall s: string :: [] + s == s
  {
  }

  lemma {:induction false} CleanVanishes(c: string)
    ensures Clean(c) == "" <==> forall i :: 0 <= i < |c| ==> c[i] == SLASH
  {
    if c != "" {
      CleanVanishes(c[1..]);
      if Clean(c) == "" {
        forall i | 0 <= i < |c| ensures c[i] == SLASH {
          if i > 0 { assert c[i] == c[1..][i - 1]; }
        }
      }
    }
  }

  lemma {:induction false} CleanTwice(c: string)
    ensures Clean(Clean(c)) == Clean(c)
    ensures Clean(c) != "" && c[0] != SLASH ==> Clean(c)[0] == c[0]
  {
    if c != "" {
      CleanTwice(c[1..]);
      if c[0] != SLASH || (|c| > 1 && c[1] != SLASH) {
        assert Clean(c)[1..] == Clean(c[1..]);
      }
    }
  }

  lemma {:induction false} CleanKeepsOut(c: string, x: char)
    requires x !in c
    ensures x !in Clean(c)
  {
    if c != "" {
      CleanKeepsOut(c[1..], x);
    }
  }

  // ---------------------------------------------------------------- the loop, component by component

  /** What the loop writes for `comps` with the separators in front of them: a colon only when
      something is written already and the component has a character. */
  function Written(comps: seq<string>, started: bool): string
  {
    if comps == [] then ""
    else
      (if started && comps[0] != "" then [COLON] else [])
      + Clean(comps[0])
      + Written(comps[1..], started || Clean(comps[0]) != "")
  }

  /** `Written` once the component at hand is cut short to `c`. */
  function WrittenFrom(c: string, rest: seq<string>, started: bool): string
  {
    Clean(c) + Written(rest, started || Clean(c) != "")
  }

  lemma CopyStep(x: char, c: string, rest: seq<string>, started: bool)
    requires x != SLASH || (c != "" && c[0] != SLASH)
    ensures WrittenFrom([x] + c, rest, started) == [x] + WrittenFrom(c, rest, true)
  {
    assert ([x] + c)[1..] == c;
    assert Clean([x] + c) == [x] + Clean(c);
  }

  lemma DropStep(c: string, rest: seq<string>, started: bool)
    requires c == "" || c[0] == SLASH
    ensures WrittenFrom([SLASH] + c, rest, started) == WrittenFrom(c, rest, started)
  {
    assert ([SLASH] + c)[1..] == c;
  }

  lemma {:induction false} CanonFromComponents(p: string, started: bool)
    ensures CanonFrom(p, started) == WrittenFrom(Split(p, COLON)[0], Split(p, COLON)[1..], started)
    decreases |p|
  {
    if p != "" {
      SplitStep(p, COLON);
      FirstPiece(p[1..], COLON);
      var r := Split(p[1..], COLON);
      CanonFromComponents(p[1..], started);
      CanonFromComponents(p[1..], true);
      if p[0] == COLON {
        WrittenStep(r, started);
      } else if p[0] == SLASH && (r[0] == "" || r[0][0] == SLASH) {
        DropStep(r[0], r[1..], started);
      } else {
        CopyStep(p[0], r[0], r[1..], started);
      }
    }
  }

  lemma WrittenStep(comps: seq<string>, started: bool)
    requires comps != []
    ensures Written(comps, started)
         == (if started && comps[0] != "" then [COLON] else []) + WrittenFrom(comps[0], comps[1..], started)
  {
  }

  /** The loop in terms of components. */
  lemma CanonIsWritten(p: string)
    ensures Canon(p) == Written(Split(p, COLON), false)
  {
    CanonFromComponents(p, false);
  }
}
