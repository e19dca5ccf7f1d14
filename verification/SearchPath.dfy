/** The user search path of libltdl (dice/libltdl/ltdl.c): one colon-separated text in a global
    variable, unset at first. */
module SearchPath {
  import opened Wrappers
  import opened Text
  import opened Canonical
  import opened ArgzSpec
  import opened Folding
  import Argz

  // ---------------------------------------------------------------- the operations on the text

  /** `lt_dlpath_insertdir`: split, insert, stringify.  Only an unset path takes `dir` as it is. */
  function InsertDir(path: Option<string>, before: Option<nat>, dir: string): (r: Option<string>)
    requires before.Some? ==> path.Some? && before.value <= |CreateSep(path.value, COLON)|
    ensures r.Some?
  {
    if path.None? then Some(dir)
    else
      var argz := CreateSep(path.value, COLON);
      var argz' := if before.None? then Append(argz, dir) else Insert(argz, before.value, dir);
      Some(CString(Stringify(argz', COLON)))
  }

  /** `lt_dladdsearchdir`. */
  function AddSearchDir(path: Option<string>, dir: string): (r: Option<string>)
    ensures path.Some? ==> r.Some?
  {
    if dir == "" then path else InsertDir(path, None, dir)
  }

  /** The offset `lt_dlinsertsearchdir` accepts. */
  predicate ValidOffset(path: Option<string>, before: int)
  {
    path.Some? && 0 <= before < |path.value|
  }

  /** `lt_dlsetsearchpath`. */
  function SetSearchPath(path: Option<string>): Option<string>
  {
    if path.None? || path.value == "" then None else Some(Canon(path.value))
  }

  // ---------------------------------------------------------------- the variable

  class Variable {
    var userSearchPath: Option<string>

    ghost predicate Valid()
      reads this
    {
      userSearchPath.Some? ==> EOS !in userSearchPath.value
    }

    constructor ()
      ensures Valid() && userSearchPath == None
    {
      userSearchPath := None;
    }

    /** `lt_dlpath_insertdir`.  The block of the vector goes on with the bytes `behind`; `wrapped` says
        that an offset among them made the length to move wrap around. */
    method PathInsertDir(before: Option<nat>, behind: string, dir: string) returns (wrapped: bool)
      requires Valid() && dir != "" && EOS !in dir
      requires before.Some? ==>
        userSearchPath.Some? && before.value <= |CreateSep(userSearchPath.value, COLON)| + |behind|
      modifies this
      ensures Valid()
      ensures before.None? ==> !wrapped && userSearchPath == InsertDir(old(userSearchPath), None, dir)
      ensures before.Some? ==>
        var b := CreateSep(old(userSearchPath).value, COLON);
        if before.value <= |b| then !wrapped && userSearchPath == InsertDir(old(userSearchPath), before, dir)
        else
          && wrapped == (EOS in behind[..before.value - |b|])
          && userSearchPath == if wrapped then old(userSearchPath) else InsertDir(old(userSearchPath), None, dir)
    {
      wrapped := false;
      if userSearchPath.None? {
        userSearchPath := Some(dir);
        return;
      }
      ghost var b := CreateSep(userSearchPath.value, COLON);
      var argz := new Argz.Vector.CreateSep(userSearchPath.value, COLON);
      if before.None? {
        argz.Append(dir);
      } else {
        InsertOutcome(b, behind, before.value, userSearchPath.value, dir);
        wrapped := argz.Insert(before.value, behind, dir);
        if wrapped {
          return;
        }
      }
      argz.Stringify(COLON);
      var text := TakeCString(argz.data, argz.len);
      userSearchPath := Some(text);
    }

    /** `lt_dladdsearchdir`. */
    method Add(dir: string)
      requires Valid() && EOS !in dir
      modifies this
      ensures Valid() && userSearchPath == AddSearchDir(old(userSearchPath), dir)
    {
      if dir != "" {
        var _ := PathInsertDir(None, "", dir);
      }
    }

    /** `lt_dlinsertsearchdir`.  An accepted offset may lie behind the vector, which is shorter than
        the text by the folded colons; the block of the vector goes on with as many bytes. */
    method InsertBefore(before: Option<int>, behind: string, dir: string) returns (errors: nat, wrapped: bool)
      requires Valid() && EOS !in dir
      requires userSearchPath.Some? ==> |behind| == FoldedColons(userSearchPath.value)
      modifies this
      ensures Valid()
      ensures errors == if before.Some? && !ValidOffset(old(userSearchPath), before.value) then 1 else 0
      ensures errors == 1 || dir == "" ==> !wrapped && userSearchPath == old(userSearchPath)
      ensures errors == 0 && dir != "" && before.None? ==>
        !wrapped && userSearchPath == InsertDir(old(userSearchPath), None, dir)
      ensures errors == 0 && dir != "" && before.Some? ==>
        var b := CreateSep(old(userSearchPath).value, COLON);
        if before.value <= |b| then !wrapped && userSearchPath == InsertDir(old(userSearchPath), Some(before.value), dir)
        else
          && before.value - |b| <= |behind|
          && wrapped == (EOS in behind[..before.value - |b|])
          && userSearchPath == if wrapped then old(userSearchPath) else InsertDir(old(userSearchPath), None, dir)
    {
      wrapped := false;
      if before.Some? {
        if userSearchPath.None? || before.value < 0 || before.value >= |userSearchPath.value| {
          return 1, false;
        }
        VectorLength(userSearchPath.value);
      }
      if dir != "" {
        wrapped := PathInsertDir(if before.Some? then Some(before.value) else None, behind, dir);
      }
      errors := 0;
    }

    /** `lt_dlsetsearchpath`. */
    method Set(path: Option<string>)
      requires Valid() && (path.Some? ==> EOS !in path.value)
      modifies this
      ensures Valid() && userSearchPath == SetSearchPath(path)
    {
      userSearchPath := None;
      if path.None? || path.value == "" {
        return;
      }
      var canonical := CanonicalizePath(path.value);
      var text := TakeCString(canonical, canonical.Length);
      assert canonical[..canonical.Length] == canonical[..];
      userSearchPath := Some(text);
    }
  }

  /** Inside the vector the insertion is `Insert`, behind it an append or none. */
  lemma InsertOutcome(b: string, behind: string, before: nat, path: string, dir: string)
    requires b == CreateSep(path, COLON) && EOS !in path && before <= |b| + |behind|
    ensures before <= |b| ==> InsertFrom(b, behind, before, dir) == Some(Insert(b, before, dir))
    ensures before > |b| ==>
      InsertFrom(b, behind, before, dir) == if EOS in behind[..before - |b|] then None else Some(Append(b, dir))
  {
    hide Insert, InsertFrom, Append;
    if before <= |b| {
      InsertInside(b, behind, before, dir);
    } else {
      VectorEnds(path);
      InsertBehindIff(b, behind, before, dir);
    }
  }

  lemma VectorEnds(path: string)
    requires EOS !in path
    ensures var b := CreateSep(path, COLON); b != "" && b[|b| - 1] == EOS
  {
    CreateSepIsBytes(path);
    BytesEnd(path, true);
  }

  /** The text a `char *` to the buffer denotes. */
  method TakeCString(b: array<char>, len: nat) returns (s: string)
    requires len <= b.Length
    ensures s == CString(b[..len])
  {
    var i := 0;
    s := "";
    while i < len && b[i] != EOS
      invariant i <= len && |s| == i && s == b[..i] && EOS !in s
    {
      s := s + [b[i]];
      i := i + 1;
    }
    if i < len {
      assert b[..len][..i] == b[..i];
      CStringAt(b[..len], i);
    } else {
      assert b[..len] == s;
      CStringWhole(s);
    }
  }

  lemma {:induction false} CStringWhole(s: string)
    requires EOS !in s
    ensures CString(s) == s
  {
    if s != "" {
      CStringWhole(s[1..]);
    }
  }
}
