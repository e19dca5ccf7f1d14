/** Strings as C sees them: splitting and joining at a separator, and NUL-terminated prefixes. */
module Text {
  const EOS: char := '\0'

  predicate Free(s: string, c: char)
  {
    c !in s
  }

  /** The pieces of `s` between separators; always at least one. */
  function Split(s: string, sep: char): (r: seq<string>)
    ensures |r| > 0
  {
    if s == "" then [""]
    else
      var r := Split(s[1..], sep);
      if s[0] == sep then [""] + r else [[s[0]] + r[0]] + r[1..]
  }

  function Join(parts: seq<string>, sep: char): string
  {
    if parts == [] then ""
    else if |parts| == 1 then parts[0]
    else parts[0] + [sep] + Join(parts[1..], sep)
  }

  lemma JoinCons(p: string, parts: seq<string>, sep: char)
    ensures Join([p] + parts, sep) == if parts == [] then p else p + [sep] + Join(parts, sep)
  {
    assert ([p] + parts)[1..] == parts;
  }

  function NonEmpty(parts: seq<string>): (r: seq<string>)
    ensures forall p :: p in r <==> p in parts && p != ""
  {
    if parts == [] then []
    else (if parts[0] == "" then [] else [parts[0]]) + NonEmpty(parts[1..])
  }

  /** What a C function reads from a buffer: everything before the first NUL. */
  function CString(b: string): (r: string)
    ensures EOS !in r && |r| <= |b| && r == b[..|r|]
    ensures |r| < |b| ==> b[|r|] == EOS
  {
    if b == "" || b[0] == EOS then "" else [b[0]] + CString(b[1..])
  }

  // ---------------------------------------------------------------- lemmas

  lemma {:induction false} CStringAt(b: string, n: nat)
    requires n < |b| && b[n] == EOS && EOS !in b[..n]
    ensures CString(b) == b[..n]
  {
    if n > 0 {
      assert b[0] in b[..n];
      assert b[1..][..n - 1] == b[..n][1..];
      CStringAt(b[1..], n - 1);
    }
  }

  lemma {:induction false} SplitFree(s: string, sep: char)
    ensures forall p :: p in Split(s, sep) ==> sep !in p
  {
    if s != "" {
      SplitFree(s[1..], sep);
      var r := Split(s[1..], sep);
      forall p | p in Split(s, sep) ensures sep !in p {
        if s[0] != sep && p == [s[0]] + r[0] {
          assert r[0] in r;
        }
      }
    }
  }

  /** Splitting `a` followed by a separator and `b`. */
  lemma {:induction false} SplitCons(a: string, b: string, sep: char)
    requires sep !in a
    ensures Split(a + [sep] + b, sep) == [a] + Split(b, sep)
  {
    var s := a + [sep] + b;
    if a == "" {
      assert s[1..] == b;
    } else {
      assert s[1..] == a[1..] + [sep] + b;
      SplitCons(a[1..], b, sep);
      assert [a[0]] + a[1..] == a;
    }
  }

  /** The first character of `s` is either a separator or the front of the first piece. */
  lemma SplitStep(s: string, sep: char)
    requires s != ""
    ensures s[0] == sep ==> Split(s, sep)[0] == "" && Split(s, sep)[1..] == Split(s[1..], sep)
    ensures s[0] != sep ==> Split(s, sep)[0] == [s[0]] + Split(s[1..], sep)[0]
    ensures s[0] != sep ==> Split(s, sep)[1..] == Split(s[1..], sep)[1..]
  {
  }

  lemma FirstPiece(s: string, sep: char)
    ensures Split(s, sep)[0] == "" <==> s == "" || s[0] == sep
    ensures Split(s, sep)[0] != "" ==> Split(s, sep)[0][0] == s[0]
  {
  }

  lemma {:induction false} SplitSingle(a: string, sep: char)
    requires sep !in a
    ensures Split(a, sep) == [a]
  {
    if a != "" {
      SplitSingle(a[1..], sep);
      assert [a[0]] + a[1..] == a;
    }
  }

  lemma {:induction false} SplitJoin(parts: seq<string>, sep: char)
    requires parts != [] && forall p :: p in parts ==> sep !in p
    ensures Split(Join(parts, sep), sep) == parts
  {
    if |parts| == 1 {
      SplitSingle(parts[0], sep);
    } else {
      SplitJoin(parts[1..], sep);
      SplitCons(parts[0], Join(parts[1..], sep), sep);
    }
  }

  /** Joining when the first piece gets one more character in front. */
  lemma JoinPush(x: char, parts: seq<string>, sep: char)
    requires parts != []
    ensures Join([[x] + parts[0]] + parts[1..], sep) == [x] + Join(parts, sep)
  {
    var (p, rest) := (parts[0], parts[1..]);
    assert parts == [p] + rest;
    JoinCons(p, rest, sep);
    JoinCons([x] + p, rest, sep);
    hide Join;
    PushedText(x, p, [sep] + Join(rest, sep));
    PushedText(x, p, "");
  }

  lemma PushedText(x: char, p: string, tail: string)
    ensures ([x] + p) + tail == [x] + (p + tail)
    ensures p + "" == p && ([x] + p) + "" == [x] + p
  {
  }

  lemma {:induction false} JoinSplit(s: string, sep: char)
    ensures Join(Split(s, sep), sep) == s
  {
    if s != "" {
      var r := Split(s[1..], sep);
      JoinSplit(s[1..], sep);
      JoinCons("", r, sep);
      JoinPush(s[0], r, sep);
      assert s == [s[0]] + s[1..];
      hide Join;
      assert "" + [sep] + s[1..] == [sep] + s[1..];
    }
  }

  lemma NonEmptyCons(p: string, parts: seq<string>)
    ensures NonEmpty([p] + parts) == (if p == "" then [] else [p]) + NonEmpty(parts)
  {
    assert ([p] + parts)[1..] == parts;
  }

  lemma {:induction false} NonEmptyAll(parts: seq<string>)
    requires "" !in parts
    ensures NonEmpty(parts) == parts
  {
    if parts != [] {
      NonEmptyAll(parts[1..]);
    }
  }

  lemma {:induction false} NonEmptyConcat(a: seq<string>, b: seq<string>)
    ensures NonEmpty(a + b) == NonEmpty(a) + NonEmpty(b)
  {
    if a == [] {
      assert a + b == b;
    } else {
      NonEmptyConcat(a[1..], b);
      NonEmptyCons(a[0], a[1..] + b);
      assert a + b == [a[0]] + (a[1..] + b);
      var head := if a[0] == "" then [] else [a[0]];
      assert head + (NonEmpty(a[1..]) + NonEmpty(b)) == (head + NonEmpty(a[1..])) + NonEmpty(b);
    }
  }

  /** A non-empty separator-free `a` in front of nothing or of a separator. */
  lemma SplitFront(a: string, x: string, sep: char)
    requires sep !in a && a != ""
    requires x == "" || x[0] == sep
    ensures NonEmpty(Split(a + x, sep)) == [a] + NonEmpty(Split(x, sep))
  {
    if x == "" {
      assert a + x == a;
      SplitSingle(a, sep);
    } else {
      assert a + x == a + [sep] + x[1..];
      SplitCons(a, x[1..], sep);
      NonEmptyCons(a, Split(x[1..], sep));
      NonEmptyCons("", Split(x[1..], sep));
    }
  }
}
