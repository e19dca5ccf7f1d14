/** The argz routines of dice/libltdl/ltdl.c, on a buffer changed in place. */
module Argz {
  import opened Wrappers
  import opened Text
  import opened ArgzSpec

  /** A vector: the first `len` bytes of an allocated block. */
  class Vector {
    var data: array<char>
    var len: nat

    ghost predicate Valid()
      reads this
    {
      len <= data.Length
    }

    ghost function Contents(): string
      reads this, data
      requires Valid()
    {
      data[..len]
    }

    /** The empty vector, a NULL pointer in the original. */
    constructor Empty()
      ensures Valid() && fresh(data) && Contents() == ""
    {
      data := new char[0];
      len := 0;
    }

    /** `argz_create_sep`. */
    constructor CreateSep(str: string, delim: char)
      requires EOS !in str && delim != EOS
      ensures Valid() && fresh(data) && Contents() == ArgzSpec.CreateSep(str, delim)
    {
      var argzLen := 1 + |str|;
      var argz := new char[argzLen](_ => EOS);
      var p, q := 0, 0;
      while p < |str|
        invariant p <= |str| && argzLen == 1 + q + (|str| - p) <= argz.Length
        invariant Build(str[p..], delim, argz[..q]) == ArgzSpec.CreateSep(str, delim)
      {
        assert str[p..][1..] == str[p + 1..];
        ghost var acc := argz[..q];
        if str[p] == delim {
          if q > 0 && argz[q - 1] != EOS {
            argz[q] := EOS;
            q := q + 1;
            assert argz[..q] == acc + [EOS];
          } else {
            argzLen := argzLen - 1;
          }
        } else {
          argz[q] := str[p];
          q := q + 1;
          assert argz[..q] == acc + [str[p]];
        }
        p := p + 1;
      }
      ghost var acc := argz[..q];
      argz[q] := EOS;
      assert argz[..argzLen] == acc + [EOS];
      data, len := argz, argzLen;
    }

    /** `realloc` to `size` bytes: a block that starts with the old one's contents. */
    method Realloc(size: nat) returns (block: array<char>)
      requires Valid() && len <= size
      ensures fresh(block) && block.Length == size && block[..len] == Contents()
    {
      block := new char[size](_ => EOS);
      for i := 0 to len
        invariant forall j :: 0 <= j < i ==> block[j] == data[j]
      {
        block[i] := data[i];
      }
    }

    /** `argz_append` of `entry` with its NUL. */
    method Append(entry: string)
      requires Valid()
      modifies this
      ensures Valid() && fresh(data) && Contents() == ArgzSpec.Append(old(Contents()), entry)
    {
      var block := Realloc(len + |entry| + 1);
      ghost var was := Contents();
      forall i | 0 <= i < |entry| { block[len + i] := entry[i]; }
      block[len + |entry|] := EOS;
      assert block[..] == was + entry + [EOS];
      data, len := block, len + |entry| + 1;
    }

    /** The second half of `argz_insert`: the bytes from `offset` on move up to make room. */
    method OpenGap(offset: nat, entry: string)
      requires Valid() && offset <= len
      modifies this
      ensures Valid() && fresh(data)
      ensures Contents() == old(Contents())[..offset] + entry + [EOS] + old(Contents())[offset..]
    {
      ghost var was := Contents();
      var entryLen := |entry| + 1;
      var block := Realloc(len + entryLen);
      assert block[..offset] == was[..offset];
      forall i | offset <= i < len { block[i + entryLen] := block[i]; }
      forall i | 0 <= i < |entry| { block[offset + i] := entry[i]; }
      block[offset + |entry|] := EOS;
      GapFilled(was, offset, entry, block[..]);
      data, len := block, len + entryLen;
    }

    /** The first half of `argz_insert`: back to the start of the entry that `before` points into.
        The block goes on with the bytes `behind`. */
    method EntryStart(before: nat, behind: string) returns (offset: nat)
      requires Valid() && before <= len + |behind|
      ensures offset == ScanBack(Contents() + behind, before) && offset <= before
    {
      hide ScanBack;
      ghost var was := Contents();
      offset := before;
      while offset > 0 && (if offset <= len then data[offset - 1] else behind[offset - 1 - len]) != EOS
        invariant offset <= before && was == Contents()
        invariant ScanBack(was + behind, offset) == ScanBack(was + behind, before)
      {
        ScanBackStep(was + behind, offset);
        offset := offset - 1;
      }
      ScanBackStep(was + behind, offset);
    }

    /** `argz_insert`; `wrapped` says that the length to move wrapped around, and then nothing
        more is said. */
    method Insert(before: nat, behind: string, entry: string) returns (wrapped: bool)
      requires Valid() && before <= len + |behind|
      modifies this
      ensures Valid() && (fresh(data) || data == old(data))
      ensures wrapped == InsertFrom(old(Contents()), behind, before, entry).None?
      ensures !wrapped ==> Contents() == InsertFrom(old(Contents()), behind, before, entry).value
    {
      var offset := EntryStart(before, behind);
      wrapped := offset > len;
      if !wrapped {
        OpenGap(offset, entry);
      }
    }

    /** `argz_next`: the start of the vector, or the entry behind the one at `entry`. */
    method Next(entry: Option<nat>) returns (r: Option<nat>)
      requires Valid()
      requires entry.Some? ==> entry.value < len && EOS in Contents()[entry.value..]
      ensures entry.None? ==> r == if len > 0 then Some(0) else None
      ensures entry.Some? ==>
        var n := NulFrom(Contents(), entry.value); r == if n + 1 < len then Some(n + 1) else None
    {
      if entry.None? {
        return if len > 0 then Some(0) else None;
      }
      hide NulFrom;
      var n := entry.value;
      while data[n] != EOS
        invariant entry.value <= n < len && EOS in Contents()[n..]
        invariant NulFrom(Contents(), n) == NulFrom(Contents(), entry.value)
        decreases len - n
      {
        NulFromStep(Contents(), n);
        n := n + 1;
      }
      NulFromStep(Contents(), n);
      r := if n + 1 < len then Some(n + 1) else None;
    }

    /** The entry at `i`, read as a C string. */
    method EntryAtOffset(i: nat) returns (e: string)
      requires Valid() && i < len && EOS in Contents()[i..]
      ensures e == Contents()[i..NulFrom(Contents(), i)]
    {
      hide NulFrom;
      var n := i;
      e := "";
      while data[n] != EOS
        invariant i <= n < len && EOS in Contents()[n..]
        invariant NulFrom(Contents(), n) == NulFrom(Contents(), i)
        invariant e == Contents()[i..n]
        decreases len - n
      {
        NulFromStep(Contents(), n);
        e := e + [data[n]];
        n := n + 1;
      }
      NulFromStep(Contents(), n);
    }

    /** `argz_stringify`; on fewer than two bytes its counter would wrap around. */
    method Stringify(sep: char)
      requires Valid() && len >= 2 && sep != EOS
      modifies data
      ensures Valid() && Contents() == ArgzSpec.Stringify(old(Contents()), sep)
    {
      ghost var was := Contents();
      var i: nat := len - 2;
      while i > 0
        invariant i <= len - 2
        invariant forall j :: 0 <= j < len ==>
          data[j] == if i < j < len - 1 && was[j] == EOS then sep else was[j]
      {
        if data[i] == EOS {
          data[i] := sep;
        }
        i := i - 1;
      }
      assert data[..len] == ArgzSpec.Stringify(was, sep);
    }
  }

  /** Bytes that agree with the parts of the result make up the result. */
  lemma GapFilled(was: string, offset: nat, entry: string, b: string)
    requires offset <= |was| && |b| == |was| + |entry| + 1 && b[offset + |entry|] == EOS
    requires forall i :: 0 <= i < offset ==> b[i] == was[i]
    requires forall i :: 0 <= i < |entry| ==> b[offset + i] == entry[i]
    requires forall i :: offset <= i < |was| ==> b[i + (|entry| + 1)] == was[i]
    ensures b == was[..offset] + entry + [EOS] + was[offset..]
  {
    var r := was[..offset] + entry + [EOS] + was[offset..];
    forall i | 0 <= i < |b| ensures b[i] == r[i] {
      if i > offset + |entry| { assert b[(i - |entry| - 1) + (|entry| + 1)] == was[i - |entry| - 1]; }
    }
  }
}
