/** The directory listing of `lt_dlforeachfile` (dice/libltdl/ltdl.c): file names cut to what
    `lt_dlopenext` takes, kept in one sorted argz vector without duplicates. */
module DirListing {
  import opened Wrappers
  import opened Text
  import opened ArgzSpec
  import Argz

  // ---------------------------------------------------------------- the order of strcmp

  /** `strcmp`: negative, zero or positive. */
  function Strcmp(a: string, b: string): (r: int)
    ensures r == 0 <==> a == b
  {
    if a == "" then (if b == "" then 0 else -1)
    else if b == "" then 1
    else if a[0] < b[0] then -1
    else if a[0] > b[0] then 1
    else
      assert a[1..] == b[1..] ==> a == [a[0]] + a[1..] == b;
      Strcmp(a[1..], b[1..])
  }

  predicate Less(a: string, b: string)
  {
    Strcmp(a, b) < 0
  }

  /** Where `a` and `b` part: they agree up to `k`, and there `a` ends or has the smaller character. */
  predicate PartsBelow(a: string, b: string, k: nat)
  {
    k <= |a| && k < |b| && a[..k] == b[..k] && (k == |a| || a[k] < b[k])
  }

  /** `strcmp` orders strings by the first character in which they differ. */
  lemma {:induction false} LessIff(a: string, b: string)
    ensures Less(a, b) <==> exists k: nat :: PartsBelow(a, b, k)
  {
    if a == "" {
      assert b != "" ==> PartsBelow(a, b, 0);
    } else if b != "" {
      if a[0] < b[0] {
        assert PartsBelow(a, b, 0);
      } else if a[0] == b[0] {
        LessIff(a[1..], b[1..]);
        forall k: nat | PartsBelow(a[1..], b[1..], k) ensures PartsBelow(a, b, k + 1) {
          assert a[..k + 1] == [a[0]] + a[1..][..k] && b[..k + 1] == [b[0]] + b[1..][..k];
        }
        forall k: nat | PartsBelow(a, b, k) ensures k > 0 && PartsBelow(a[1..], b[1..], k - 1) {
          assert a[..k][1..] == a[1..][..k - 1] && b[..k][1..] == b[1..][..k - 1];
        }
      } else {
        forall k: nat ensures !PartsBelow(a, b, k) { }
      }
    }
  }

  lemma {:induction false} LessTransitive(a: string, b: string, c: string)
    requires Less(a, b) && Less(b, c)
    ensures Less(a, c)
  {
    if a != "" && a[0] == b[0] == c[0] {
      LessTransitive(a[1..], b[1..], c[1..]);
    }
  }

  lemma {:induction false} StrcmpSwap(a: string, b: string)
    ensures Less(a, b) <==> Strcmp(b, a) > 0
  {
    if a != "" && b != "" && a[0] == b[0] {
      StrcmpSwap(a[1..], b[1..]);
    }
  }

  ghost predicate Ascending(es: seq<string>)
  {
    forall i, j :: 0 <= i < j < |es| ==> Less(es[i], es[j])
  }

  // ---------------------------------------------------------------- sorted insertion

  /** What `lt_argz_insertinorder` does to the list of entries. */
  function InsertSorted(es: seq<string>, e: string): (r: seq<string>)
    ensures forall x :: x in r <==> x in es || x == e
  {
    if es == [] then [e]
    else if Strcmp(e, es[0]) < 0 then [e] + es
    else if Strcmp(e, es[0]) == 0 then es
    else
      assert es == [es[0]] + es[1..];
      [es[0]] + InsertSorted(es[1..], e)
  }

  lemma AscendingCons(x: string, es: seq<string>)
    requires Ascending(es) && forall y :: y in es ==> Less(x, y)
    ensures Ascending([x] + es)
  {
  }

  lemma {:induction false} InsertSortedAscends(es: seq<string>, e: string)
    requires Ascending(es)
    ensures Ascending(InsertSorted(es, e))
  {
    if es != [] {
      StrcmpSwap(es[0], e);
      if Less(e, es[0]) {
        forall y | y in es ensures Less(e, y) {
          if y != es[0] { LessTransitive(e, es[0], y); }
        }
        AscendingCons(e, es);
      } else if e != es[0] {
        InsertSortedAscends(es[1..], e);
        AscendingCons(es[0], InsertSorted(es[1..], e));
      }
    }
  }

  // ---------------------------------------------------------------- positions in the vector

  function Offset(es: seq<string>, k: nat): nat
    requires k <= |es|
  {
    |Encode(es[..k])|
  }

  lemma SliceAt(b: string, pre: string, e: string, post: string)
    requires b == pre + e + [EOS] + post
    ensures b[|pre|..|pre| + |e|] == e && b[|pre| + |e|] == EOS
  {
  }

  lemma EncodeAround(es: seq<string>, k: nat)
    requires k < |es|
    ensures Encode(es) == Encode(es[..k]) + es[k] + [EOS] + Encode(es[k + 1..])
    ensures Offset(es, k + 1) == Offset(es, k) + |es[k]| + 1
  {
    assert es == es[..k] + ([es[k]] + es[k + 1..]);
    assert es[..k + 1] == es[..k] + ([es[k]] + []);
    EncodeConcat(es[..k], [es[k]] + es[k + 1..]);
    EncodeConcat(es[..k], [es[k]] + []);
    EncodeOne(es[k], es[k + 1..]);
    EncodeOne(es[k], []);
  }

  lemma EncodeEmpty(es: seq<string>)
    ensures Encode(es) == "" <==> es == []
  {
  }

  lemma OffsetStep(es: seq<string>, k: nat)
    requires EosFree(es) && k < |es|
    ensures var b, o := Encode(es), Offset(es, k);
      && o + |es[k]| < |b| && EOS in b[o..] && NulFrom(b, o) == o + |es[k]|
      && b[o..o + |es[k]|] == es[k]
      && Offset(es, k + 1) == o + |es[k]| + 1
      && (o + |es[k]| + 1 < |b| <==> k + 1 < |es|)
  {
    hide Encode, NulFrom;
    EncodeAround(es, k);
    EncodeEmpty(es[k + 1..]);
    assert es[k] in es;
    SliceAt(Encode(es), Encode(es[..k]), es[k], Encode(es[k + 1..]));
    NulFromIs(Encode(es), Offset(es, k), Offset(es, k) + |es[k]|);
  }

  lemma {:induction false} EntryAtOffset(es: seq<string>, k: nat)
    requires k < |es|
    ensures Offset(es, k) <= |Encode(es)| && EntryAt(es, Offset(es, k)) == k
    decreases k
  {
    assert es == es[..k] + es[k..];
    EncodeConcat(es[..k], es[k..]);
    if k > 0 {
      EntryAtOffset(es[1..], k - 1);
      assert es[..k] == [es[0]] + es[1..][..k - 1];
      EncodeOne(es[0], es[1..][..k - 1]);
    }
  }

  /** `lt_argz_insertinorder`. */
  method InsertInOrder(argz: Argz.Vector, entry: string, ghost es: seq<string>)
    requires argz.Valid() && argz.Contents() == Encode(es) && EosFree(es) && EOS !in entry
    modifies argz
    ensures argz.Valid() && (fresh(argz.data) || argz.data == old(argz.data))
    ensures argz.Contents() == Encode(InsertSorted(es, entry))
  {
    hide Encode, InsertSorted, NulFrom;
    ghost var k := 0;
    FirstOffset(es, entry);
    var before := argz.Next(None);
    while before.Some?
      invariant argz.Valid() && argz.Contents() == Encode(es) && argz.data == old(argz.data)
      invariant k <= |es|
      invariant before == if k < |es| then Some(Offset(es, k)) else None
      invariant InsertSorted(es, entry) == es[..k] + InsertSorted(es[k..], entry)
      decreases |es| - k
    {
      OffsetStep(es, k);
      var here := argz.EntryAtOffset(before.value);
      var cmp := Strcmp(entry, here);
      if cmp < 0 {
        break;
      }
      if cmp == 0 {
        StopAtEqual(es, k, entry);
        return;
      }
      before := argz.Next(before);
      PassEntry(es, k, entry);
      k := k + 1;
    }
    if before.Some? {
      StopBefore(es, k, entry);
      InsertInside(Encode(es), "", before.value, entry);
      var _ := argz.Insert(before.value, "", entry);
    } else {
      StopAtEnd(es, entry);
      argz.Append(entry);
    }
  }

  lemma FirstOffset(es: seq<string>, entry: string)
    ensures Offset(es, 0) == 0 && (|Encode(es)| > 0 <==> es != [])
    ensures InsertSorted(es, entry) == es[..0] + InsertSorted(es[0..], entry)
  {
    assert es[0..] == es;
  }

  lemma StopAtEqual(es: seq<string>, k: nat, entry: string)
    requires k < |es| && Strcmp(entry, es[k]) == 0
    requires InsertSorted(es, entry) == es[..k] + InsertSorted(es[k..], entry)
    ensures InsertSorted(es, entry) == es
  {
    assert es[..k] + es[k..] == es;
  }

  lemma StopBefore(es: seq<string>, k: nat, entry: string)
    requires EosFree(es) && k < |es| && Strcmp(entry, es[k]) < 0
    requires InsertSorted(es, entry) == es[..k] + InsertSorted(es[k..], entry)
    ensures Offset(es, k) <= |Encode(es)|
    ensures Insert(Encode(es), Offset(es, k), entry) == Encode(InsertSorted(es, entry))
  {
    hide Encode, Insert, EntryAt, Offset, Strcmp;
    EntryAtOffset(es, k);
    InsertEntry(es, Offset(es, k), entry);
    assert InsertSorted(es[k..], entry) == [entry] + es[k..];
    hide InsertSorted;
    assert InsertAt(es, k, entry) == es[..k] + ([entry] + es[k..]);
  }

  lemma StopAtEnd(es: seq<string>, entry: string)
    requires InsertSorted(es, entry) == es[..|es|] + InsertSorted(es[|es|..], entry)
    ensures Append(Encode(es), entry) == Encode(InsertSorted(es, entry))
  {
    assert es[..|es|] == es && InsertSorted(es[|es|..], entry) == [entry];
    AppendEntry(es, entry);
  }

  lemma PassEntry(es: seq<string>, k: nat, entry: string)
    requires k < |es| && Strcmp(entry, es[k]) > 0
    ensures es[..k] + InsertSorted(es[k..], entry) == es[..k + 1] + InsertSorted(es[k + 1..], entry)
  {
    assert es[k..][1..] == es[k + 1..];
    assert es[..k + 1] == es[..k] + [es[k]];
  }

  // ---------------------------------------------------------------- extensionless names

  predicate VersionChar(c: char)
  {
    c == '.' || '0' <= c <= '9'
  }

  /** Back over version characters, but never onto the first character. */
  function VersionStart(name: string, p: nat): (r: nat)
    requires p <= |name|
    ensures r <= p
  {
    if p > 1 && VersionChar(name[p - 1]) then VersionStart(name, p - 1) else p
  }

  /** The last dot before `end`, the first character left aside; `end` if there is none. */
  function ExtensionStart(name: string, end: nat, p: nat): (r: nat)
    requires p <= end <= |name|
    ensures r <= end
  {
    if p <= 1 then end else if name[p - 1] == '.' then p - 1 else ExtensionStart(name, end, p - 1)
  }

  /** The name without version numbers and extension. */
  function Stem(name: string): string
  {
    var v := VersionStart(name, |name|);
    var end := if v < |name| && name[v] == '.' then v else |name|;
    name[..ExtensionStart(name, end, end)]
  }

  /** The two backward scans of `lt_argz_insertdir`. */
  method ComputeStem(name: string) returns (stem: string)
    ensures stem == Stem(name)
  {
    var end: nat := |name|;
    var p: nat := end;
    while p > 1 && VersionChar(name[p - 1])
      invariant p <= |name| && VersionStart(name, p) == VersionStart(name, |name|)
    {
      p := p - 1;
    }
    if p < |name| && name[p] == '.' {
      end := p;
    }
    ghost var e := end;
    p := end;
    while p > 1
      invariant p <= end == e && ExtensionStart(name, e, p) == ExtensionStart(name, e, e)
    {
      if name[p - 1] == '.' {
        end := p - 1;
        break;
      }
      p := p - 1;
    }
    stem := name[..end];
  }

  // ---------------------------------------------------------------- what the scans find

  /** The version numbers begin at `v`: dots and digits up to the end, and no more in front, the first
      character left aside. */
  ghost predicate VersionAt(name: string, v: nat)
  {
    && v <= |name| && (name != "" ==> v > 0)
    && (forall i :: v <= i < |name| ==> name[i] in ".0123456789")
    && (v > 1 ==> name[v - 1] !in ".0123456789")
  }

  /** `d` is the last dot in front of `end` other than the first character, or `end` without one. */
  ghost predicate LastDot(name: string, end: nat, d: nat)
  {
    && d <= end <= |name|
    && (d < end ==> d > 0 && name[d] == '.')
    && (forall i :: d < i < end && i > 0 ==> name[i] != '.')
    && (d == end ==> forall i :: 0 < i < end ==> name[i] != '.')
  }

  /** Version numbers count only behind a dot, then the extension goes with the last dot. */
  ghost predicate IsStem(name: string, stem: string)
  {
    exists v: nat, d: nat :: VersionAt(name, v) && LastDot(name, VersionEnd(name, v), d) && d <= |name| && stem == name[..d]
  }

  function VersionEnd(name: string, v: nat): (r: nat)
  {
    if v < |name| && name[v] == '.' then v else |name|
  }

  lemma {:induction false} VersionStartIs(name: string, p: nat)
    requires p <= |name|
    ensures var v := VersionStart(name, p);
      && (p > 0 ==> v > 0)
      && (forall i :: v <= i < p ==> name[i] in ".0123456789")
      && (v > 1 ==> name[v - 1] !in ".0123456789")
  {
    if p > 1 && VersionChar(name[p - 1]) { VersionStartIs(name, p - 1); }
  }

  lemma {:induction false} ExtensionStartIs(name: string, end: nat, p: nat)
    requires p <= end <= |name| && forall i :: 0 < i < end && p <= i ==> name[i] != '.'
    ensures LastDot(name, end, ExtensionStart(name, end, p))
  {
    if p > 1 && name[p - 1] != '.' { ExtensionStartIs(name, end, p - 1); }
  }

  lemma VersionUnique(name: string, v: nat, w: nat)
    requires VersionAt(name, v) && VersionAt(name, w)
    ensures v == w
  {
  }

  lemma LastDotUnique(name: string, end: nat, d: nat, e: nat)
    requires LastDot(name, end, d) && LastDot(name, end, e)
    ensures d == e
  {
  }

  /** The two scans find, in every name, exactly the stem. */
  lemma StemIff(name: string, stem: string)
    ensures stem == Stem(name) <==> IsStem(name, stem)
  {
    hide VersionAt, LastDot, VersionStart, ExtensionStart;
    var v := VersionStart(name, |name|);
    var end := VersionEnd(name, v);
    var d := ExtensionStart(name, end, end);
    StemParts(name, v, end, d);
    if IsStem(name, stem) {
      var v': nat, d': nat :| VersionAt(name, v') && LastDot(name, VersionEnd(name, v'), d') && d' <= |name| && stem == name[..d'];
      VersionUnique(name, v, v');
      LastDotUnique(name, end, d, d');
    }
  }

  lemma StemParts(name: string, v: nat, end: nat, d: nat)
    requires v == VersionStart(name, |name|) && end == VersionEnd(name, v) && d == ExtensionStart(name, end, end)
    ensures VersionAt(name, v) && LastDot(name, end, d) && Stem(name) == name[..d]
  {
    VersionStartIs(name, |name|);
    ExtensionStartIs(name, end, end);
  }

  lemma {:induction false} VersionStartAt(name: string, p: nat, v: nat)
    requires 1 <= v <= p <= |name| && (forall i :: v <= i < p ==> VersionChar(name[i]))
    requires v > 1 ==> !VersionChar(name[v - 1])
    ensures VersionStart(name, p) == v
    decreases p
  {
    if v < p {
      VersionStartAt(name, p - 1, v);
    }
  }

  lemma {:induction false} ExtensionStartAt(name: string, end: nat, p: nat, dot: nat)
    requires 0 < dot < p <= end <= |name| && name[dot] == '.'
    requires forall i :: dot < i < p ==> name[i] != '.'
    ensures ExtensionStart(name, end, p) == dot
    decreases p
  {
    if dot < p - 1 {
      ExtensionStartAt(name, end, p - 1, dot);
    }
  }

  /** Every name of the form stem, dot, extension, version maps to its stem, dots in it or not. */
  lemma StemOf(stem: string, ext: string, version: string)
    requires stem != ""
    requires ext != "" && '.' !in ext && !VersionChar(ext[|ext| - 1])
    requires version != "" ==> version[0] == '.' && forall i :: 0 <= i < |version| ==> VersionChar(version[i])
    ensures Stem(stem + ['.'] + ext + version) == stem
  {
    var name := stem + ['.'] + ext + version;
    var dot, v := |stem|, |stem| + 1 + |ext|;
    assert name[v - 1] == ext[|ext| - 1];
    assert name[dot] == '.';
    forall i | v <= i < |name| ensures VersionChar(name[i]) { assert name[i] == version[i - v]; }
    VersionStartAt(name, |name|, v);
    forall i | dot < i < v ensures name[i] != '.' { assert name[i] == ext[i - dot - 1]; assert name[i] in ext; }
    ExtensionStartAt(name, v, v, dot);
    assert name[..dot] == stem;
    if version != "" { assert name[v] == version[0]; }
  }

  // ---------------------------------------------------------------- the listing

  predicate Listed(name: string)
  {
    name == "" || name[0] != '.'
  }

  function Entry(dir: string, name: string): string
  {
    dir + ['/'] + Stem(name)
  }

  /** The list after the names of a directory were inserted one by one. */
  function Listing(dir: string, names: seq<string>): seq<string>
  {
    if names == [] then []
    else
      var es := Listing(dir, names[..|names| - 1]);
      var last := names[|names| - 1];
      if Listed(last) then InsertSorted(es, Entry(dir, last)) else es
  }

  /** The listing is the set of the extensionless names, in strictly ascending order. */
  lemma {:induction false} ListingIsSortedSet(dir: string, names: seq<string>)
    ensures Ascending(Listing(dir, names))
    ensures forall x :: x in Listing(dir, names) <==> exists n :: n in names && Listed(n) && x == Entry(dir, n)
  {
    if names != [] {
      var init, last := names[..|names| - 1], names[|names| - 1];
      ListingIsSortedSet(dir, init);
      assert names == init + [last];
      if Listed(last) {
        InsertSortedAscends(Listing(dir, init), Entry(dir, last));
      }
      forall x ensures x in Listing(dir, names) <==> exists n :: n in names && Listed(n) && x == Entry(dir, n) {
        if x in Listing(dir, init) {
          var n :| n in init && Listed(n) && x == Entry(dir, n);
          assert n in names;
        }
        if x in Listing(dir, names) && x !in Listing(dir, init) {
          assert last in names && Listed(last) && x == Entry(dir, last);
        }
        if exists n :: n in names && Listed(n) && x == Entry(dir, n) {
          var n :| n in names && Listed(n) && x == Entry(dir, n);
          if n != last { assert n in init; }
        }
      }
    }
  }

  /** It holds directory, slash and stem of every name that does not begin with a dot. */
  lemma ListingHolds(dir: string, names: seq<string>, x: string)
    ensures x in Listing(dir, names) <==>
      exists n, s :: n in names && (n == "" || n[0] != '.') && IsStem(n, s) && x == dir + "/" + s
  {
    ListingIsSortedSet(dir, names);
    hide Stem, IsStem;
    if x in Listing(dir, names) {
      var n :| n in names && Listed(n) && x == Entry(dir, n);
      StemIff(n, Stem(n));
    }
    if n, s :| n in names && (n == "" || n[0] != '.') && IsStem(n, s) && x == dir + "/" + s {
      StemIff(n, s);
      assert x == Entry(dir, n);
    }
  }

  /** A strictly ascending list is fixed by its set: the listing does not depend on the order
      in which the names are read. */
  lemma {:induction false} AscendingIsUnique(a: seq<string>, b: seq<string>)
    requires Ascending(a) && Ascending(b) && forall x :: x in a <==> x in b
    ensures a == b
    decreases |a|
  {
    if a == [] || b == [] {
      EmptyIff(a);
      EmptyIff(b);
    } else {
      SameLeast(a, b);
      SameLeast(b, a);
      StrcmpSwap(a[0], b[0]);
      assert a == [a[0]] + a[1..] && b == [b[0]] + b[1..];
      forall x ensures x in a[1..] <==> x in b[1..] {
        if x in a[1..] { assert x in a && Less(a[0], x); }
        if x in b[1..] { assert x in b && Less(b[0], x); }
      }
      AscendingIsUnique(a[1..], b[1..]);
    }
  }

  lemma SameLeast(a: seq<string>, b: seq<string>)
    requires Ascending(a) && a != [] && b != [] && b[0] in a
    ensures a[0] == b[0] || Less(a[0], b[0])
  {
  }

  /** `list_files_by_dir` over the names that `readdir` yields. */
  method ListFilesByDir(dir: string, names: seq<string>) returns (argz: Argz.Vector)
    requires EOS !in dir && EosFree(names)
    ensures argz.Valid() && argz.Contents() == Encode(Listing(dir, names))
  {
    argz := new Argz.Vector.Empty();
    assert Listing(dir, names[..0]) == [];
    for i := 0 to |names|
      invariant fresh(argz) && argz.Valid()
      invariant argz.Contents() == Encode(Listing(dir, names[..i]))
      invariant EosFree(Listing(dir, names[..i]))
    {
      ghost var es := Listing(dir, names[..i]);
      assert names[..i + 1][..i] == names[..i];
      if names[i] == "" || names[i][0] != '.' {
        var stem := ComputeStem(names[i]);
        var buf := dir + ['/'] + stem;
        assert EOS !in buf by { assert names[i] in names; }
        InsertInOrder(argz, buf, es);
        assert EosFree(InsertSorted(es, buf));
      }
    }
    assert names[..|names|] == names;
  }
}
