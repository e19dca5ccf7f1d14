/** The pointers a dice server keeps to free after its reply (dice/include/dice/dice.h): a fixed
    array with a fill count. */
module PointerArray {
  /** `r` is `s` without the first occurrence of `p`. */
  ghost predicate WithoutFirst(s: seq<int>, p: int, r: seq<int>)
  {
    exists i :: 0 <= i < |s| && s[i] == p && p !in s[..i] && r == s[..i] + s[i + 1..]
  }

  /** Pointers are numbers here, the null pointer is 0. */
  class Environment {
    const ptrs: array<int>
    var cur: nat

    ghost predicate Valid()
      reads this, ptrs
    {
      cur <= ptrs.Length && forall i :: 0 <= i < cur ==> ptrs[i] != 0
    }

    ghost function Contents(): seq<int>
      reads this, ptrs
      requires Valid()
    {
      ptrs[..cur]
    }

    /** Every slot behind the stored pointers is null. */
    ghost predicate NullTail()
      reads this, ptrs
    {
      forall i :: cur <= i < ptrs.Length ==> ptrs[i] == 0
    }

    constructor (capacity: nat)
      ensures Valid() && NullTail() && fresh(ptrs) && ptrs.Length == capacity && Contents() == []
    {
      ptrs := new int[capacity](_ => 0);
      cur := 0;
    }

    /** `dice_set_ptr`. */
    method SetPtr(p: int) returns (error: int)
      requires Valid()
      modifies this, ptrs
      ensures Valid() && (old(NullTail()) ==> NullTail())
      ensures error == if p == 0 || |old(Contents())| == ptrs.Length then 1 else 0
      ensures Contents() == if error == 0 then old(Contents()) + [p] else old(Contents())
    {
      if p == 0 || cur >= ptrs.Length {
        return 1;
      }
      ptrs[cur] := p;
      cur := cur + 1;
      error := 0;
    }

    /** `dice_get_last_ptr`. */
    method GetLastPtr() returns (p: int)
      requires Valid()
      modifies this, ptrs
      ensures Valid() && (old(NullTail()) ==> NullTail())
      ensures old(Contents()) == [] ==> p == 0 && Contents() == []
      ensures old(Contents()) != [] ==> old(Contents()) == Contents() + [p]
    {
      if cur == 0 {
        return 0;
      }
      cur := cur - 1;
      p := ptrs[cur];
      ptrs[cur] := 0;
    }

    /** The loop of both removals.  Its last round copies the slot behind the stored pointers;
        with a full array that is the memory behind the array, which holds `beyond`. */
    method MoveDown(i: nat, beyond: int)
      requires cur <= ptrs.Length && i < cur
      modifies ptrs
      ensures forall j :: 0 <= j < i || cur <= j < ptrs.Length ==> ptrs[j] == old(ptrs[j])
      ensures forall j :: i <= j < cur - 1 ==> ptrs[j] == old(ptrs[j + 1])
      ensures ptrs[cur - 1] == if cur < ptrs.Length then old(ptrs[cur]) else beyond
    {
      var k := i;
      while k < cur
        invariant i <= k <= cur
        invariant forall j :: 0 <= j < i || k <= j < ptrs.Length ==> ptrs[j] == old(ptrs[j])
        invariant forall j :: i <= j < k && j + 1 < ptrs.Length ==> ptrs[j] == old(ptrs[j + 1])
        invariant k == ptrs.Length ==> ptrs[k - 1] == beyond
      {
        ptrs[k] := if k + 1 < ptrs.Length then ptrs[k + 1] else beyond;
        k := k + 1;
      }
    }

    /** The end of both removals. */
    method CloseGap(i: nat, beyond: int)
      requires Valid() && i < cur
      modifies this, ptrs
      ensures Valid() && Contents() == old(Contents())[..i] + old(Contents())[i + 1..]
      ensures old(NullTail()) ==> (NullTail() <==> old(cur) < ptrs.Length || beyond == 0)
    {
      MoveDown(i, beyond);
      cur := cur - 1;
      assert Contents() == old(Contents())[..i] + old(Contents())[i + 1..];
      assert old(cur) < ptrs.Length || ptrs[cur] == beyond;
    }

    /** `dice_get_nth_ptr`. */
    method GetNthPtr(i: int, beyond: int) returns (p: int)
      requires Valid()
      modifies this, ptrs
      ensures Valid()
      ensures 0 <= i < |old(Contents())| ==>
        p == old(Contents())[i] && Contents() == old(Contents())[..i] + old(Contents())[i + 1..]
      ensures !(0 <= i < |old(Contents())|) ==> p == 0 && Contents() == old(Contents())
      ensures old(NullTail()) ==>
        (NullTail() <==> !(0 <= i < |old(Contents())|) || |old(Contents())| < ptrs.Length || beyond == 0)
    {
      if i < 0 || i >= cur {
        return 0;
      }
      p := ptrs[i];
      CloseGap(i, beyond);
    }

    /** `dice_get_ptr`: the first occurrence of `p` is taken out. */
    method GetPtr(p: int, beyond: int) returns (found: int)
      requires Valid()
      modifies this, ptrs
      ensures Valid()
      ensures p !in old(Contents()) ==> found == 0 && Contents() == old(Contents())
      ensures p in old(Contents()) ==> found == p && WithoutFirst(old(Contents()), p, Contents())
      ensures old(NullTail()) ==>
        (NullTail() <==> p !in old(Contents()) || |old(Contents())| < ptrs.Length || beyond == 0)
    {
      var i := 0;
      while i < cur && ptrs[i] != p
        invariant i <= cur && p !in ptrs[..i]
      {
        i := i + 1;
      }
      if i == cur {
        return 0;
      }
      assert Contents()[i] == p && Contents()[..i] == ptrs[..i];
      CloseGap(i, beyond);
      found := p;
    }
  }
}
