/** Offsets into a path text and into the vector made of it (dice/libltdl/ltdl.c): splitting drops
    the colons that no component ends with, so the two drift apart. */
module Folding {
  import opened Text
  import opened Canonical
  import opened ArgzSpec

  // ---------------------------------------------------------------- colons that are dropped

  /** The colons of `p` with nothing but a colon, or nothing at all, in front of them; `start`
      says that nothing or a colon comes before `p`. */
  function Dropped(p: string, start: bool): (r: nat)
    ensures r <= |p|
  {
    if p == "" then 0
    else (if p[0] == COLON && start then 1 else 0) + Dropped(p[1..], p[0] == COLON)
  }

  /** The other colons: each ends a component. */
  function Kept(p: string, start: bool): (r: nat)
  {
    if p == "" then 0
    else (if p[0] == COLON && !start then 1 else 0) + Kept(p[1..], p[0] == COLON)
  }

  /** How many colons `argz_create_sep` folds away. */
  function FoldedColons(p: string): (r: nat)
    ensures r <= |p|
  {
    Dropped(p, true)
  }

  /** What the loop of `argz_create_sep` writes for `p`. */
  function Bytes(p: string, start: bool): string
  {
    if p == "" then [EOS]
    else if p[0] == COLON then (if start then [] else [EOS]) + Bytes(p[1..], true)
    else [p[0]] + Bytes(p[1..], false)
  }

  lemma {:induction false} BuildIsBytes(p: string, acc: string)
    requires EOS !in p
    ensures Build(p, COLON, acc) == acc + Bytes(p, AtEntry(acc))
    decreases |p|
  {
    if p != "" {
      var acc' := if p[0] == COLON then (if AtEntry(acc) then acc else acc + [EOS]) else acc + [p[0]];
      BuildIsBytes(p[1..], acc');
      assert AtEntry(acc') == (p[0] == COLON);
      if acc' != acc {
        assert (acc + [acc'[|acc|]]) + Bytes(p[1..], p[0] == COLON) == acc + ([acc'[|acc|]] + Bytes(p[1..], p[0] == COLON));
      }
    }
  }

  lemma CreateSepIsBytes(p: string)
    requires EOS !in p
    ensures CreateSep(p, COLON) == Bytes(p, true)
  {
    BuildIsBytes(p, "");
  }

  lemma {:induction false} BytesEnd(p: string, start: bool)
    ensures var b := Bytes(p, start); b != "" && b[|b| - 1] == EOS
  {
    if p != "" {
      BytesEnd(p[1..], p[0] == COLON);
    }
  }

  lemma {:induction false} BytesLength(p: string, start: bool)
    ensures |Bytes(p, start)| == |p| + 1 - Dropped(p, start)
  {
    if p != "" {
      BytesLength(p[1..], p[0] == COLON);
    }
  }

  /** The vector is as long as the text with its terminator, less the folded colons. */
  lemma VectorLength(p: string)
    requires EOS !in p
    ensures |CreateSep(p, COLON)| == |p| + 1 - FoldedColons(p)
  {
    CreateSepIsBytes(p);
    BytesLength(p, true);
  }

  // ---------------------------------------------------------------- positions

  function CountEos(b: string): nat
  {
    if b == "" then 0 else (if b[0] == EOS then 1 else 0) + CountEos(b[1..])
  }

  lemma {:induction false} CountEosConcat(a: string, b: string)
    ensures CountEos(a + b) == CountEos(a) + CountEos(b)
  {
    if a == "" {
      assert a + b == b;
    } else {
      CountEosConcat(a[1..], b);
      assert (a + b)[1..] == a[1..] + b;
    }
  }

  lemma CountEosGrows(b: string, i: nat, j: nat)
    requires i <= j <= |b|
    ensures CountEos(b[..i]) <= CountEos(b[..j])
    ensures i < j && b[i] == EOS ==> CountEos(b[..i]) < CountEos(b[..j])
  {
    assert b[..j] == b[..i] + b[i..j];
    CountEosConcat(b[..i], b[i..j]);
  }

  lemma {:induction false} NoEos(s: string)
    requires EOS !in s
    ensures CountEos(s) == 0
  {
    if s != "" {
      NoEos(s[1..]);
    }
  }

  /** The entry a byte belongs to is told by the NULs in front of it. */
  lemma {:induction false} EntryAtCounts(es: seq<string>, i: nat)
    requires EosFree(es) && i <= |Encode(es)|
    ensures EntryAt(es, i) == CountEos(Encode(es)[..i])
    decreases |es|
  {
    var b := Encode(es);
    if es == [] || i <= |es[0]| {
      if es != [] {
        assert es[0] in es;
        assert b[..i] == es[0][..i];
      }
      NoEos(b[..i]);
    } else {
      var e, j := es[0], i - |es[0]| - 1;
      assert e in es;
      EntryAtCounts(es[1..], j);
      assert b[..i] == (e + [EOS]) + Encode(es[1..])[..j];
      CountEosConcat(e + [EOS], Encode(es[1..])[..j]);
      CountEosConcat(e, [EOS]);
      NoEos(e);
    }
  }

  /** The prefix of one character more. */
  lemma PrefixStep(p: string, start: bool, x: nat)
    requires 0 < x <= |p|
    ensures var q := p[1..][..x - 1];
      && Dropped(p[..x], start) == (if p[0] == COLON && start then 1 else 0) + Dropped(q, p[0] == COLON)
      && Kept(p[..x], start) == (if p[0] == COLON && !start then 1 else 0) + Kept(q, p[0] == COLON)
  {
    assert p[..x][1..] == p[1..][..x - 1] && p[..x][0] == p[0];
  }

  lemma BytesStep(p: string, start: bool)
    requires p != "" && EOS !in p
    ensures var (b, rest) := (Bytes(p, start), Bytes(p[1..], p[0] == COLON));
      if p[0] == COLON && start then b == rest
      else b == [if p[0] == COLON then EOS else p[0]] + rest && p[0] != EOS
  {
    assert p[0] in p;
  }

  lemma CountEosCons(c: char, b: string, v: nat)
    requires v <= |b|
    ensures ([c] + b)[..v + 1] == [c] + b[..v]
    ensures CountEos(([c] + b)[..v + 1]) == (if c == EOS then 1 else 0) + CountEos(b[..v])
  {
    assert ([c] + b)[..v + 1] == [c] + b[..v];
    assert ([c] + b[..v])[1..] == b[..v];
  }

  /** Where character `x` of the text ends up. */
  lemma {:induction false} BytePosition(p: string, start: bool, x: nat)
    requires EOS !in p && x <= |p|
    ensures var v := x - Dropped(p[..x], start);
      0 <= v <= |Bytes(p, start)| && CountEos(Bytes(p, start)[..v]) == Kept(p[..x], start)
    ensures var v := x - Dropped(p[..x], start);
      EndsComponent(p, start, x) ==> v < |Bytes(p, start)| && Bytes(p, start)[v] == EOS
    decreases |p|
  {
    if x > 0 {
      var (q, inner) := (p[1..], p[0] == COLON);
      BytePosition(q, inner, x - 1);
      PrefixStep(p, start, x);
      BytesStep(p, start);
      EndsLater(p, start, x);
      var v := (x - 1) - Dropped(q[..x - 1], inner);
      hide Bytes, Dropped, Kept, CountEos, EndsComponent;
      if !(inner && start) { CountEosCons(if inner then EOS else p[0], Bytes(q, inner), v); }
    } else {
      assert p[..0] == "";
    }
  }

  lemma EndsLater(p: string, start: bool, x: nat)
    requires 0 < x <= |p|
    ensures EndsComponent(p, start, x) <==> EndsComponent(p[1..], p[0] == COLON, x - 1)
  {
  }

  /** A kept colon, or the end of the text, is at `x`. */
  predicate EndsComponent(p: string, start: bool, x: nat)
    requires x <= |p|
  {
    x == |p| || (p[x] == COLON && !(if x == 0 then start else p[x - 1] == COLON))
  }

  /** The first kept colon at or after `o`, or the end of the text. */
  function ComponentEnd(p: string, start: bool, o: nat): (x: nat)
    requires o <= |p|
    ensures o <= x <= |p| && EndsComponent(p, start, x)
    ensures forall y :: o <= y < x ==> !EndsComponent(p, start, y)
    decreases |p| - o
  {
    if EndsComponent(p, start, o) then o else ComponentEnd(p, start, o + 1)
  }

  lemma {:induction false} KeptSnoc(p: string, start: bool, x: nat)
    requires x < |p|
    ensures Kept(p[..x + 1], start) == Kept(p[..x], start) + (if EndsComponent(p, start, x) then 1 else 0)
    decreases x
  {
    assert p[..x + 1][1..] == p[1..][..x] && p[..x + 1][0] == p[0];
    if x > 0 {
      KeptSnoc(p[1..], p[0] == COLON, x - 1);
      assert p[..x][1..] == p[1..][..x - 1] && p[..x][0] == p[0];
    }
  }

  lemma {:induction false} KeptUntilEnd(p: string, start: bool, o: nat, x: nat)
    requires o <= x <= |p| && forall y :: o <= y < x ==> !EndsComponent(p, start, y)
    ensures Kept(p[..x], start) == Kept(p[..o], start)
    decreases x - o
  {
    if o < x {
      KeptSnoc(p, start, o);
      KeptUntilEnd(p, start, o + 1, x);
    }
  }

  /** In the bytes `b`, whose first `v` hold `n` NULs and whose NUL at `w` is the next one. */
  lemma CountBetween(b: string, v: nat, o: nat, w: nat, n: nat)
    requires v <= o <= |b| && w < |b| && b[w] == EOS
    requires CountEos(b[..v]) == n == CountEos(b[..w])
    ensures CountEos(b[..o]) == n <==> o <= w
    ensures n < CountEos(b)
  {
    CountEosGrows(b, v, o);
    CountEosGrows(b, w, |b|);
    assert b[..|b|] == b;
    if o <= w { CountEosGrows(b, o, w); } else { CountEosGrows(b, w, o); }
  }

  lemma CountIff(p: string, o: nat)
    requires EOS !in p && o <= |p| && o <= |Bytes(p, true)|
    ensures var x := ComponentEnd(p, true, o);
      CountEos(Bytes(p, true)[..o]) == Kept(p[..o], true) <==> o + FoldedColons(p[..x]) <= x
    ensures Kept(p[..o], true) < CountEos(Bytes(p, true))
  {
    hide Bytes, CountEos, Kept, Dropped;
    var x := ComponentEnd(p, true, o);
    BytePosition(p, true, o);
    BytePosition(p, true, x);
    KeptUntilEnd(p, true, o, x);
    CountBetween(Bytes(p, true), o - FoldedColons(p[..o]), o, x - FoldedColons(p[..x]), Kept(p[..o], true));
  }

  /** Exactly when an offset of the text points into the same component of the vector: when the
      colons dropped before the end of its component do not carry it past that end. */
  lemma SameComponentIff(p: string, o: nat)
    requires EOS !in p && o <= |p| && o <= |CreateSep(p, COLON)|
    ensures var f := Folded(Split(p, COLON));
      CreateSep(p, COLON) == Encode(f) && Kept(p[..o], true) < |f|
    ensures var (f, x) := (Folded(Split(p, COLON)), ComponentEnd(p, true, o));
      EntryAt(f, o) == Kept(p[..o], true) <==> o + FoldedColons(p[..x]) <= x
  {
    hide Bytes, CountEos, Kept, Folded, Encode, EntryAt, ComponentEnd, CreateSep;
    var f := Folded(Split(p, COLON));
    CreateSepIsBytes(p);
    CreateSepEntries(p, COLON);
    PiecesEosFree(p, COLON);
    FoldedNonEmpty(Split(p, COLON));
    EntryAtCounts(f, o);
    CountIff(p, o);
    EncodeCounts(f);
  }

  lemma {:induction false} EncodeCounts(es: seq<string>)
    requires EosFree(es)
    ensures CountEos(Encode(es)) == |es|
  {
    if es != [] {
      var e := es[0];
      assert e in es;
      EncodeCounts(es[1..]);
      CountEosConcat(e + [EOS], Encode(es[1..]));
      CountEosConcat(e, [EOS]);
      NoEos(e);
    }
  }

  /** The pieces between the first and the last. */
  function Middle(pieces: seq<string>): seq<string>
    requires |pieces| > 1
  {
    pieces[1..|pieces| - 1]
  }

  lemma MiddleCons(p: string, r: seq<string>)
    requires r != []
    ensures |r| == 1 ==> Middle([p] + r) == []
    ensures |r| > 1 ==> Middle([p] + r) == [r[0]] + Middle(r) && Middle([p] + r[1..]) == Middle(r)
  {
    if |r| > 1 {
      MiddleOf([p], r);
      assert r == [r[0]] + r[1..];
      MiddleOf([p], r[1..]);
      MiddleOf([r[0]], r[1..]);
    }
  }

  /** Behind a first piece, everything but the last is in the middle. */
  lemma MiddleOf(first: seq<string>, rest: seq<string>)
    requires |first| == 1 && rest != []
    ensures Middle(first + rest) == rest[..|rest| - 1]
  {
    var s := first + rest;
    assert s[1..] == rest;
    assert s[1..|s| - 1] == s[1..][..|rest| - 1];
  }

  /** The kept colons before an offset count the directories that end before it. */
  lemma {:induction false} KeptMeaning(q: string, start: bool)
    ensures var pieces := Split(q, COLON);
      Kept(q, start) == if |pieces| == 1 then 0
        else (if pieces[0] != "" || !start then 1 else 0) + |NonEmpty(Middle(pieces))|
  {
    if q != "" {
      var r := Split(q[1..], COLON);
      KeptMeaning(q[1..], q[0] == COLON);
      if q[0] == COLON {
        assert Split(q, COLON) == [""] + r;
        MiddleCons("", r);
      } else {
        assert Split(q, COLON) == [[q[0]] + r[0]] + r[1..];
        MiddleCons([q[0]] + r[0], r);
      }
      hide Split, Middle;
      if |r| > 1 { NonEmptyCons(r[0], Middle(r)); }
    }
  }

  /** How many directories of `p` end before offset `o`. */
  function DirsBefore(p: string, o: nat): nat
    requires o <= |p|
  {
    var pieces := Split(p[..o], COLON);
    |NonEmpty(pieces[..|pieces| - 1])|
  }

  lemma DirsBeforeIsKept(p: string, o: nat)
    requires o <= |p|
    ensures DirsBefore(p, o) == Kept(p[..o], true)
  {
    var pieces := Split(p[..o], COLON);
    KeptMeaning(p[..o], true);
    if |pieces| > 1 {
      assert pieces[..|pieces| - 1] == [pieces[0]] + Middle(pieces);
      NonEmptyCons(pieces[0], Middle(pieces));
    } else {
      assert pieces[..0] == [];
    }
  }
}
