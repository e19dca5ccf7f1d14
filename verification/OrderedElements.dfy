/** The ordered element lists of classes and files (dice/src/be/BEClass.cpp,
    dice/src/be/BEFile.cpp): insertion by source location. */
module OrderedElements {
  datatype Element = Element(id: int, line: nat, column: nat)

  /** `location::operator>` for classes; files compare the lines only. */
  predicate Greater(columns: bool, a: Element, b: Element)
  {
    a.line > b.line || (columns && a.line == b.line && a.column > b.column)
  }

  /** On the same line, and in the same column where columns count. */
  predicate SamePlace(columns: bool, a: Element, b: Element)
  {
    a.line == b.line && (columns ==> a.column == b.column)
  }

  /** On an earlier line, or on the same and in no later column where columns count. */
  predicate NotAfter(columns: bool, a: Element, b: Element)
  {
    a.line < b.line || (a.line == b.line && (columns ==> a.column <= b.column))
  }

  ghost predicate Sorted(columns: bool, es: seq<Element>)
  {
    forall i, j :: 0 <= i < j < |es| ==> NotAfter(columns, es[i], es[j])
  }

  /** The elements of `es` at the place of `e`, in order. */
  function At(columns: bool, es: seq<Element>, e: Element): seq<Element>
  {
    if es == [] then [] else (if SamePlace(columns, es[0], e) then [es[0]] else []) + At(columns, es[1..], e)
  }

  /** `InsertOrderedElement`: before the first element with a greater location. */
  function Insert(columns: bool, es: seq<Element>, e: Element): seq<Element>
  {
    if es == [] then [e]
    else if Greater(columns, es[0], e) then [e] + es
    else [es[0]] + Insert(columns, es[1..], e)
  }

  /** `CreateOrderedElementList` over the concatenated member vectors. */
  function Create(columns: bool, members: seq<Element>): seq<Element>
  {
    if members == [] then []
    else Insert(columns, Create(columns, members[..|members| - 1]), members[|members| - 1])
  }

  method InsertOrderedElement(columns: bool, es: seq<Element>, e: Element) returns (r: seq<Element>)
    ensures r == Insert(columns, es, e)
  {
    hide Insert;
    var i := 0;
    assert es[0..] == es;
    while i < |es|
      invariant i <= |es|
      invariant Insert(columns, es, e) == es[..i] + Insert(columns, es[i..], e)
    {
      InsertStep(columns, es, i, e);
      if Greater(columns, es[i], e) {
        return es[..i] + [e] + es[i..];
      }
      i := i + 1;
    }
    InsertLast(columns, es, e);
    r := es + [e];
  }

  lemma InsertStep(columns: bool, es: seq<Element>, i: nat, e: Element)
    requires i < |es|
    ensures es[..i] + Insert(columns, es[i..], e) ==
      if Greater(columns, es[i], e) then es[..i] + [e] + es[i..] else es[..i + 1] + Insert(columns, es[i + 1..], e)
  {
    var rest := es[i..];
    assert rest[1..] == es[i + 1..] && es[..i + 1] == es[..i] + [es[i]];
    assert es[..i] + ([es[i]] + Insert(columns, es[i + 1..], e)) == (es[..i] + [es[i]]) + Insert(columns, es[i + 1..], e);
  }

  lemma InsertLast(columns: bool, es: seq<Element>, e: Element)
    ensures es[..|es|] + Insert(columns, es[|es|..], e) == es + [e]
  {
  }

  method CreateOrderedElementList(columns: bool, members: seq<Element>) returns (r: seq<Element>)
    ensures r == Create(columns, members)
  {
    r := [];
    for i := 0 to |members|
      invariant r == Create(columns, members[..i])
    {
      assert members[..i + 1][..i] == members[..i];
      r := InsertOrderedElement(columns, r, members[i]);
    }
    assert members[..|members|] == members;
  }

  lemma {:induction false} InsertAdds(columns: bool, es: seq<Element>, e: Element)
    ensures multiset(Insert(columns, es, e)) == multiset(es) + multiset{e}
    ensures forall x :: x in Insert(columns, es, e) <==> x in es || x == e
  {
    if es != [] && !Greater(columns, es[0], e) {
      InsertAdds(columns, es[1..], e);
      assert es == [es[0]] + es[1..];
    }
  }

  lemma SortedCons(columns: bool, x: Element, es: seq<Element>)
    ensures Sorted(columns, [x] + es) <==> Sorted(columns, es) && forall y :: y in es ==> NotAfter(columns, x, y)
  {
    var s := [x] + es;
    if Sorted(columns, s) {
      forall i, j | 0 <= i < j < |es| ensures NotAfter(columns, es[i], es[j]) { assert s[i + 1] == es[i] && s[j + 1] == es[j]; }
      forall y | y in es ensures NotAfter(columns, x, y) {
        var k :| 0 <= k < |es| && es[k] == y;
        assert s[0] == x && s[k + 1] == y;
      }
    }
  }

  lemma {:induction false} InsertSorts(columns: bool, es: seq<Element>, e: Element)
    requires Sorted(columns, es)
    ensures Sorted(columns, Insert(columns, es, e))
  {
    if es == [] {
    } else {
      assert es == [es[0]] + es[1..];
      SortedCons(columns, es[0], es[1..]);
      SortedCons(columns, e, es);
      InsertSorts(columns, es[1..], e);
      InsertAdds(columns, es[1..], e);
      SortedCons(columns, es[0], Insert(columns, es[1..], e));
    }
  }

  lemma AtCons(columns: bool, x: Element, es: seq<Element>, p: Element)
    ensures At(columns, [x] + es, p) == (if SamePlace(columns, x, p) then [x] else []) + At(columns, es, p)
  {
    assert ([x] + es)[1..] == es;
  }

  lemma {:induction false} NothingAt(columns: bool, es: seq<Element>, p: Element)
    requires forall x :: x in es ==> Greater(columns, x, p)
    ensures At(columns, es, p) == []
  {
    if es != [] {
      assert es[0] in es;
      NothingAt(columns, es[1..], p);
    }
  }

  lemma AllBehind(columns: bool, es: seq<Element>, e: Element, p: Element)
    requires Sorted(columns, es) && es != [] && Greater(columns, es[0], e) && SamePlace(columns, e, p)
    ensures At(columns, es, p) == []
  {
    forall x | x in es ensures Greater(columns, x, p) {
      var k :| 0 <= k < |es| && es[k] == x;
      assert NotAfter(columns, es[0], x) || k == 0;
    }
    NothingAt(columns, es, p);
  }

  lemma Regroup(a: seq<Element>, b: seq<Element>, c: seq<Element>)
    ensures (a + b) + c == a + (b + c)
  {
  }

  lemma {:induction false} InsertIsStable(columns: bool, es: seq<Element>, e: Element, p: Element)
    requires Sorted(columns, es)
    ensures At(columns, Insert(columns, es, e), p) == At(columns, es, p) + (if SamePlace(columns, e, p) then [e] else [])
  {
    if es == [] {
      AtCons(columns, e, [], p);
      assert [e] + [] == [e];
    } else if Greater(columns, es[0], e) {
      AtCons(columns, e, es, p);
      if SamePlace(columns, e, p) { AllBehind(columns, es, e, p); }
    } else {
      var x, rest := es[0], es[1..];
      InsertIsStable(columns, rest, e, p);
      AtCons(columns, x, Insert(columns, rest, e), p);
      AtCons(columns, x, rest, p);
      assert es == [x] + rest;
      hide At, Insert, Sorted, SamePlace;
      Regroup(if SamePlace(columns, x, p) then [x] else [], At(columns, rest, p), if SamePlace(columns, e, p) then [e] else []);
    }
  }

  /** The list is a stable sort of the members: a permutation, in ascending order of location,
      with the members of one location in the order in which they came. */
  lemma {:induction false} CreateIsStableSort(columns: bool, members: seq<Element>)
    ensures Sorted(columns, Create(columns, members))
    ensures multiset(Create(columns, members)) == multiset(members)
    ensures forall p :: At(columns, Create(columns, members), p) == At(columns, members, p)
  {
    if members != [] {
      var init, last := members[..|members| - 1], members[|members| - 1];
      CreateIsStableSort(columns, init);
      InsertSorts(columns, Create(columns, init), last);
      InsertAdds(columns, Create(columns, init), last);
      assert members == init + [last];
      forall p ensures At(columns, Create(columns, members), p) == At(columns, members, p) {
        InsertIsStable(columns, Create(columns, init), last, p);
        AtSnoc(columns, init, last, p);
      }
    }
  }

  lemma {:induction false} AtSnoc(columns: bool, es: seq<Element>, e: Element, p: Element)
    ensures At(columns, es + [e], p) == At(columns, es, p) + (if SamePlace(columns, e, p) then [e] else [])
  {
    if es == [] {
      AtCons(columns, e, [], p);
      assert [] + [e] == [e] == [e] + [];
    } else {
      AtSnoc(columns, es[1..], e, p);
      assert es + [e] == [es[0]] + (es[1..] + [e]);
      AtCons(columns, es[0], es[1..] + [e], p);
    }
  }
}
