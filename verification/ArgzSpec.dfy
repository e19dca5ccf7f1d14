/** argz vectors: strings laid end to end in one buffer, each closed by a NUL.  The operations of
    dice/libltdl/ltdl.c on the buffer, and the list operations they stand for. */
module ArgzSpec {
  import opened Wrappers
  import opened Text

  // ---------------------------------------------------------------- vectors and lists

  function Encode(es: seq<string>): string
  {
    if es == [] then "" else es[0] + [EOS] + Encode(es[1..])
  }

  /** The position of the first NUL at or after `i`. */
  function NulFrom(b: string, i: nat): (r: nat)
    requires i <= |b| && EOS in b[i..]
    ensures i <= r < |b| && b[r] == EOS && EOS !in b[i..r]
    decreases |b| - i
  {
    if b[i] == EOS then i
    else
      assert b[i..] == [b[i]] + b[i + 1..];
      NulFrom(b, i + 1)
  }

  lemma NulFromStep(b: string, i: nat)
    requires i < |b| && EOS in b[i..]
    ensures b[i] == EOS ==> NulFrom(b, i) == i
    ensures b[i] != EOS ==> i + 1 < |b| && EOS in b[i + 1..] && NulFrom(b, i) == NulFrom(b, i + 1)
  {
    assert b[i..] == [b[i]] + b[i + 1..];
  }

  /** The entries of a vector, in order. */
  function Entries(b: string): seq<string>
  {
    if b == "" then []
    else if EOS !in b then [b]
    else
      assert b[0..] == b;
      var n := NulFrom(b, 0);
      [b[..n]] + Entries(b[n + 1..])
  }

  predicate EosFree(es: seq<string>)
  {
    forall e :: e in es ==> EOS !in e
  }

  lemma {:induction false} NulFromIs(b: string, i: nat, n: nat)
    requires i <= n < |b| && b[n] == EOS && EOS !in b[i..n]
    ensures EOS in b[i..] && NulFrom(b, i) == n
    decreases n - i
  {
    assert b[i..][n - i] == EOS;
    if i < n {
      assert b[i] in b[i..n];
      assert b[i + 1..n] == b[i..n][1..];
      NulFromIs(b, i + 1, n);
    }
  }

  lemma EntriesCons(e: string, b: string)
    requires EOS !in e
    ensures Entries(e + [EOS] + b) == [e] + Entries(b)
  {
    var v := e + [EOS] + b;
    assert v[0..|e|] == e;
    NulFromIs(v, 0, |e|);
    assert v[0..] == v;
    assert v[|e| + 1..] == b;
  }

  lemma {:induction false} EntriesEncode(es: seq<string>)
    requires EosFree(es)
    ensures Entries(Encode(es)) == es
  {
    if es != [] {
      EntriesEncode(es[1..]);
      EntriesCons(es[0], Encode(es[1..]));
    }
  }

  lemma {:induction false} EncodeConcat(a: seq<string>, b: seq<string>)
    ensures Encode(a + b) == Encode(a) + Encode(b)
  {
    if a == [] {
      assert a + b == b;
    } else {
      EncodeConcat(a[1..], b);
      assert (a + b)[1..] == a[1..] + b;
    }
  }

  // ---------------------------------------------------------------- argz_create_sep

  /** The loop of `argz_create_sep` with `acc` written: leading delimiters are ignored and runs
      of them folded into one NUL. */
  function Build(str: string, delim: char, acc: string): string
  {
    if str == "" then acc + [EOS]
    else if str[0] == delim then
      Build(str[1..], delim, if acc != "" && acc[|acc| - 1] != EOS then acc + [EOS] else acc)
    else
      Build(str[1..], delim, acc + [str[0]])
  }

  function CreateSep(str: string, delim: char): string
  {
    Build(str, delim, "")
  }

  /** The entries the loop produces for `comps`: the non-empty ones, and an empty last one when
      the last component is empty. */
  function Folded(comps: seq<string>): (r: seq<string>)
  {
    if comps == [] then []
    else if comps[0] == "" && |comps| > 1 then Folded(comps[1..])
    else [comps[0]] + Folded(comps[1..])
  }

  /** Between entries the loop starts over. */
  predicate AtEntry(acc: string)
  {
    acc == "" || acc[|acc| - 1] == EOS
  }

  /** What is written in the end when `comps` are left and `acc` is written. */
  function Completed(comps: seq<string>, acc: string): string
    requires comps != []
  {
    if AtEntry(acc) then acc + Encode(Folded(comps))
    else acc + comps[0] + [EOS] + Encode(Folded(comps[1..]))
  }

  lemma CompletedChar(x: char, c: string, rest: seq<string>, acc: string)
    requires x != EOS
    ensures Completed([[x] + c] + rest, acc) == Completed([c] + rest, acc + [x])
  {
    assert ([[x] + c] + rest)[1..] == rest && ([c] + rest)[1..] == rest;
    assert acc + ([x] + c) == (acc + [x]) + c;
    if AtEntry(acc) {
      EncodeOne([x] + c, Folded(rest));
      assert acc + (([x] + c) + [EOS] + Encode(Folded(rest))) == (acc + [x]) + c + [EOS] + Encode(Folded(rest));
    }
  }

  lemma CompletedDelim(comps: seq<string>, acc: string)
    requires comps != []
    ensures Completed([""] + comps, acc) == Completed(comps, if AtEntry(acc) then acc else acc + [EOS])
  {
    assert ([""] + comps)[1..] == comps;
    if !AtEntry(acc) {
      assert acc + "" == acc;
    }
  }

  lemma {:induction false} BuildFolds(str: string, delim: char, acc: string)
    requires EOS !in str && delim != EOS
    ensures Build(str, delim, acc) == Completed(Split(str, delim), acc)
    decreases |str|
  {
    if str == "" {
      EncodeOne("", []);
      assert Folded([""]) == [""] + [];
      assert acc + ("" + [EOS] + "") == acc + [EOS] == acc + "" + [EOS] + "";
    } else {
      var r := Split(str[1..], delim);
      assert r == [r[0]] + r[1..];
      if str[0] == delim {
        BuildFolds(str[1..], delim, if AtEntry(acc) then acc else acc + [EOS]);
        CompletedDelim(r, acc);
      } else {
        BuildFolds(str[1..], delim, acc + [str[0]]);
        CompletedChar(str[0], r[0], r[1..], acc);
      }
    }
  }

  lemma {:induction false} FoldedNonEmpty(comps: seq<string>)
    ensures NonEmpty(Folded(comps)) == NonEmpty(comps)
    ensures EosFree(comps) ==> EosFree(Folded(comps))
    ensures comps != [] ==> Folded(comps) != []
  {
    if comps != [] {
      FoldedNonEmpty(comps[1..]);
      NonEmptyCons(comps[0], Folded(comps[1..]));
    }
  }

  /** `argz_create_sep` makes a vector of the components, with separator runs folded. */
  lemma CreateSepEntries(str: string, delim: char)
    requires EOS !in str && delim != EOS
    ensures CreateSep(str, delim) == Encode(Folded(Split(str, delim)))
    ensures Entries(CreateSep(str, delim)) == Folded(Split(str, delim))
    ensures NonEmpty(Entries(CreateSep(str, delim))) == NonEmpty(Split(str, delim))
  {
    BuildFolds(str, delim, "");
    assert "" + Encode(Folded(Split(str, delim))) == Encode(Folded(Split(str, delim)));
    PiecesEosFree(str, delim);
    FoldedNonEmpty(Split(str, delim));
    EntriesEncode(Folded(Split(str, delim)));
  }

  lemma {:induction false} PiecesEosFree(str: string, delim: char)
    requires EOS !in str
    ensures EosFree(Split(str, delim))
  {
    if str != "" {
      PiecesEosFree(str[1..], delim);
      var r := Split(str[1..], delim);
      assert EOS !in r[0] by { assert r[0] in r; }
    }
  }

  lemma {:induction false} FoldedAll(comps: seq<string>)
    requires "" !in comps
    ensures Folded(comps) == comps
  {
    if comps != [] {
      FoldedAll(comps[1..]);
    }
  }

  // ---------------------------------------------------------------- argz_append, argz_insert

  function Append(b: string, entry: string): string
  {
    b + entry + [EOS]
  }

  /** Back to the start of the entry that `i` points into. */
  function ScanBack(b: string, i: nat): (r: nat)
    requires i <= |b|
    ensures r <= i
  {
    if i == 0 || b[i - 1] == EOS then i else ScanBack(b, i - 1)
  }

  lemma ScanBackStep(b: string, i: nat)
    requires i <= |b|
    ensures ScanBack(b, i) == if i == 0 || b[i - 1] == EOS then i else ScanBack(b, i - 1)
  {
  }

  function Insert(b: string, before: nat, entry: string): string
    requires before <= |b|
  {
    var k := ScanBack(b, before);
    b[..k] + entry + [EOS] + b[k..]
  }

  /** `argz_insert` at an offset that may lie behind the vector, in a block that goes on with the
      bytes `behind`: the scan back reads them; when it stops among them, the length that is then
      moved wraps around. */
  function InsertFrom(b: string, behind: string, before: nat, entry: string): Option<string>
    requires before <= |b| + |behind|
  {
    var k := ScanBack(b + behind, before);
    if k > |b| then None else Some(b[..k] + entry + [EOS] + b[k..])
  }

  lemma {:induction false} ScanBackPrefix(b: string, behind: string, i: nat)
    requires i <= |b|
    ensures ScanBack(b + behind, i) == ScanBack(b, i)
  {
    if i > 0 {
      assert (b + behind)[i - 1] == b[i - 1];
      ScanBackPrefix(b, behind, i - 1);
    }
  }

  lemma InsertInside(b: string, behind: string, before: nat, entry: string)
    requires before <= |b|
    ensures InsertFrom(b, behind, before, entry) == Some(Insert(b, before, entry))
  {
    ScanBackPrefix(b, behind, before);
  }

  /** Behind a vector the scan comes back to its end exactly when it reads no NUL on the way. */
  lemma {:induction false} ScanBehind(b: string, behind: string, i: nat)
    requires b != "" && b[|b| - 1] == EOS && |b| <= i <= |b| + |behind|
    ensures ScanBack(b + behind, i) == |b| <==> EOS !in behind[..i - |b|]
    ensures ScanBack(b + behind, i) >= |b|
  {
    if i > |b| {
      var (n, c) := (i - |b|, behind[i - |b| - 1]);
      assert (b + behind)[i - 1] == c && behind[..n] == behind[..n - 1] + [c];
      ScanBehind(b, behind, i - 1);
    }
  }

  /** Exactly when an insertion behind the vector goes wrong; otherwise it appends. */
  lemma InsertBehindIff(b: string, behind: string, before: nat, entry: string)
    requires b != "" && b[|b| - 1] == EOS && |b| < before <= |b| + |behind|
    ensures InsertFrom(b, behind, before, entry) ==
      if EOS in behind[..before - |b|] then None else Some(Append(b, entry))
  {
    ScanBehind(b, behind, before);
    assert b[..|b|] == b && b[|b|..] == "";
    assert b + entry + [EOS] + "" == b + entry + [EOS];
  }

  /** The entry that byte `i` of the vector belongs to; a NUL belongs to the entry it closes. */
  function EntryAt(es: seq<string>, i: nat): (k: nat)
    requires i <= |Encode(es)|
    ensures k <= |es| && (i < |Encode(es)| ==> k < |es|)
  {
    if es == [] || i <= |es[0]| then 0 else 1 + EntryAt(es[1..], i - |es[0]| - 1)
  }

  lemma {:induction false} ScanBackWithin(b: string, lo: nat, i: nat)
    requires lo <= i <= |b| && EOS !in b[lo..i] && (lo == 0 || b[lo - 1] == EOS)
    ensures ScanBack(b, i) == lo
    decreases i
  {
    if lo < i {
      assert b[i - 1] in b[lo..i];
      assert b[lo..i - 1] == b[lo..i][..i - 1 - lo];
      ScanBackWithin(b, lo, i - 1);
    }
  }

  lemma {:induction false} ScanBackShift(a: string, b: string, i: nat)
    requires i <= |b| && a != "" && a[|a| - 1] == EOS
    ensures ScanBack(a + b, |a| + i) == |a| + ScanBack(b, i)
    decreases i
  {
    if i > 0 && b[i - 1] != EOS {
      assert (a + b)[|a| + i - 1] == b[i - 1];
      ScanBackShift(a, b, i - 1);
    }
  }

  lemma InsertFirst(es: seq<string>, i: nat, entry: string)
    requires EosFree(es) && i <= |Encode(es)| && (es == [] || i <= |es[0]|)
    ensures Insert(Encode(es), i, entry) == Encode([entry] + es)
  {
    var b := Encode(es);
    if es != [] {
      assert b[0..i] == es[0][..i];
      assert es[0] in es;
    }
    ScanBackWithin(b, 0, i);
    EncodeOne(entry, es);
    assert b[..0] + entry == entry;
    assert b[0..] == b;
  }

  /** Inserting into a vector is inserting into the list, before the entry pointed into. */
  lemma {:induction false} InsertEntry(es: seq<string>, i: nat, entry: string)
    requires EosFree(es) && i <= |Encode(es)|
    ensures Insert(Encode(es), i, entry) == Encode(InsertAt(es, EntryAt(es, i), entry))
    decreases |es|
  {
    hide Insert, InsertAt, ScanBack;
    if es == [] || i <= |es[0]| {
      InsertFirst(es, i, entry);
      InsertAtFront(es, entry);
    } else {
      var e, rest, j := es[0], es[1..], i - |es[0]| - 1;
      InsertEntry(rest, j, entry);
      InsertLater(e, rest, j, EntryAt(rest, j), entry);
      assert [e] + rest == es;
    }
  }

  lemma InsertLater(e: string, es: seq<string>, i: nat, k: nat, entry: string)
    requires i <= |Encode(es)| && k <= |es|
    requires Insert(Encode(es), i, entry) == Encode(InsertAt(es, k, entry))
    ensures Encode([e] + es) == (e + [EOS]) + Encode(es)
    ensures Insert(Encode([e] + es), |e| + 1 + i, entry) == Encode(InsertAt([e] + es, k + 1, entry))
  {
    EncodeOne(e, es);
    InsertShift(e + [EOS], Encode(es), i, entry);
    EncodeOne(e, InsertAt(es, k, entry));
    assert InsertAt([e] + es, k + 1, entry) == [e] + InsertAt(es, k, entry);
  }

  function InsertAt(es: seq<string>, k: nat, entry: string): seq<string>
    requires k <= |es|
  {
    es[..k] + [entry] + es[k..]
  }

  lemma InsertAtFront(es: seq<string>, entry: string)
    ensures InsertAt(es, 0, entry) == [entry] + es
  {
  }

  lemma EncodeOne(e: string, es: seq<string>)
    ensures Encode([e] + es) == e + [EOS] + Encode(es)
  {
    assert ([e] + es)[1..] == es;
  }

  lemma InsertShift(a: string, b: string, i: nat, entry: string)
    requires i <= |b| && a != "" && a[|a| - 1] == EOS
    ensures Insert(a + b, |a| + i, entry) == a + Insert(b, i, entry)
  {
    ScanBackShift(a, b, i);
    var k := ScanBack(b, i);
    assert (a + b)[..|a| + k] == a + b[..k];
    assert (a + b)[|a| + k..] == b[k..];
  }

  lemma AppendEntry(es: seq<string>, entry: string)
    ensures Append(Encode(es), entry) == Encode(es + [entry])
  {
    EncodeConcat(es, [entry]);
    EncodeOne(entry, []);
    assert [entry] + [] == [entry];
    assert Append(Encode(es), entry) == Encode(es) + (entry + [EOS] + "");
  }

  // ---------------------------------------------------------------- argz_stringify

  /** `argz_stringify`: every NUL but the last, and but one at the very front, becomes `sep`. */
  function Stringify(b: string, sep: char): (r: string)
    ensures |r| == |b|
    ensures forall i :: 0 <= i < |b| ==> r[i] == if 0 < i < |b| - 1 && b[i] == EOS then sep else b[i]
  {
    seq(|b|, i requires 0 <= i < |b| => if 0 < i < |b| - 1 && b[i] == EOS then sep else b[i])
  }

  lemma JoinCharsStep(e: string, rest: string, j: string, sep: char)
    requires EOS !in e && |j| + 1 == |rest| && rest[|rest| - 1] == EOS
    requires forall i :: 0 <= i < |rest| - 1 ==> j[i] == if rest[i] == EOS then sep else rest[i]
    ensures var (b, s) := (e + [EOS] + rest, e + [sep] + j);
      && |s| + 1 == |b| && b[|b| - 1] == EOS
      && forall i :: 0 <= i < |b| - 1 ==> s[i] == if b[i] == EOS then sep else b[i]
  {
    var (b, s) := (e + [EOS] + rest, e + [sep] + j);
    forall i | 0 <= i < |b| - 1 ensures s[i] == if b[i] == EOS then sep else b[i] {
      if i < |e| {
        assert e[i] in e;
      } else if i > |e| {
        assert b[i] == rest[i - |e| - 1] && s[i] == j[i - |e| - 1];
      }
    }
  }

  /** The vector with every NUL but the last replaced. */
  lemma {:induction false} JoinChars(es: seq<string>, sep: char)
    requires es != [] && EosFree(es)
    ensures |Join(es, sep)| + 1 == |Encode(es)| && Encode(es)[|Encode(es)| - 1] == EOS
    ensures forall i :: 0 <= i < |Encode(es)| - 1 ==>
      Join(es, sep)[i] == if Encode(es)[i] == EOS then sep else Encode(es)[i]
  {
    var e := es[0];
    if |es| == 1 {
      assert Encode(es) == e + [EOS] + "";
      forall i | 0 <= i < |e| ensures e[i] != EOS { assert e[i] in e; }
    } else {
      JoinChars(es[1..], sep);
      var rest, j := Encode(es[1..]), Join(es[1..], sep);
      assert Encode(es) == e + [EOS] + rest;
      assert Join(es, sep) == e + [sep] + j;
      assert EOS !in e by { assert e in es; }
      JoinCharsStep(e, rest, j, sep);
    }
  }

  /** Read as a C string afterwards, the vector is its entries joined by the separator, unless
      its first entry is empty: then the NUL in front stays and the string reads as empty. */
  lemma StringifyJoins(es: seq<string>, sep: char)
    requires es != [] && EosFree(es) && sep != EOS
    ensures CString(Stringify(Encode(es), sep)) == if es[0] != "" || |es| == 1 then Join(es, sep) else ""
  {
    var b := Encode(es);
    var r := Stringify(b, sep);
    JoinChars(es, sep);
    if es[0] == "" {
      assert b[0] == EOS;
      CStringAt(r, 0);
      assert r[..0] == "";
      if |es| == 1 { assert Join(es, sep) == ""; }
    } else {
      var n := |b| - 1;
      assert b[0] == es[0][0] && es[0][0] in es[0];
      assert r[..n] == Join(es, sep) by {
        forall i | 0 <= i < n ensures r[i] == Join(es, sep)[i] { }
      }
      forall i | 0 <= i < n ensures r[i] != EOS { }
      CStringAt(r, n);
    }
  }
}
