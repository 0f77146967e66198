/**
 The LFS object store of one repository (crates/jeryu-gitd/src/lfs.rs): object
 names, and one put on its own, with every way the file system may fail it.
 */
module LfsStore {
  import opened Common
  import opened Utf8

  const TEMP_NAME_ATTEMPTS: nat := 64

  // ----- object names -----

  function NormalizeOid(oid: string): (r: Option<string>)
    ensures r.Some? ==> |r.value| == 64
  {
    if |oid| != 64 || exists c :: c in oid && !IsHexDigit(c) then None else Some(Lower(oid))
  }

  /** An object id is 64 hexadecimal digits, kept in lower case. */
  lemma NormalizesExactlyWhen(oid: string)
    ensures NormalizeOid(oid).Some? <==> |oid| == 64 && forall c | c in oid :: IsHexDigit(c)
    ensures NormalizeOid(oid).Some? ==> NormalizeOid(oid).value == Lower(oid)
  {
  }

  /** The components of an object's path below the root of the store. */
  function ObjectPath(oid: string): Option<seq<string>> {
    match NormalizeOid(oid)
    case None => None
    case Some(o) => Some([o[0..2], o[2..4], o])
  }

  lemma LowerHex(c: char)
    requires IsHexDigit(c)
    ensures IsHexDigit(LowerChar(c)) && LowerChar(LowerChar(c)) == LowerChar(c)
  {
    if 'A' <= c <= 'F' {
      assert (c - 'A') as int == c as int - 65;
      assert LowerChar(c) as int == c as int + 32;
    }
  }

  /** The path names the object up to case, and is two directories and a file below the root. */
  lemma ObjectPathNamesTheObject(a: string, b: string)
    requires NormalizeOid(a).Some? && NormalizeOid(b).Some?
    ensures ObjectPath(a).Some?
    ensures ObjectPath(a) == ObjectPath(b) <==> Lower(a) == Lower(b)
    ensures var path := ObjectPath(a).value;
      && |path| == 3 && |path[0]| == 2 && |path[1]| == 2 && |path[2]| == 64
      && forall k, c | 0 <= k < 3 && c in path[k] :: IsHexDigit(c) && LowerChar(c) == c
    ensures NormalizeOid(NormalizeOid(a).value) == NormalizeOid(a)
  {
    var o := Lower(a);
    assert forall c | c in a :: IsHexDigit(c);
    forall k | 0 <= k < |a| ensures IsHexDigit(o[k]) && LowerChar(o[k]) == o[k] {
      assert a[k] in a && IsHexDigit(a[k]);
      LowerHex(a[k]);
    }
    assert forall c | c in o :: IsHexDigit(c) && LowerChar(c) == c;
    assert Lower(o) == o;
    assert ObjectPath(a).value[2] == o && ObjectPath(b).value[2] == Lower(b);
  }

  // ----- one put, whose reader yields `chunks` and then ends -----

  /** A final object, or a temporary sibling of it. */
  datatype Path = Final(oid: string) | Temp(oid: string, pid: nat, now: nat, unique: nat)

  datatype PutError =
    | BadOid | TooLarge | NoDirectory | OpenFailed | NoFreshName
    | ReadFailed | WriteFailed | SyncFailed | SizeMismatch | HashMismatch
    | UnlinkFailed | RenameFailed | DirectoryNotSynced

  /** Which calls to the file system fail, and how many openings, readings and writings come before one that does. */
  datatype Faults = Faults(
    directory: bool, opensUntil: nat, readsUntil: nat, writesUntil: nat, sync: bool, unlink: bool, rename: bool,
    syncDirectory: bool)

  function Join(chunks: seq<bytes>): bytes {
    if chunks == [] then [] else Join(chunks[..|chunks| - 1]) + chunks[|chunks| - 1]
  }

  lemma {:induction false} JoinGrows(chunks: seq<bytes>, n: nat)
    requires n <= |chunks|
    ensures |Join(chunks[..n])| <= |Join(chunks)|
    decreases |chunks|
  {
    if n < |chunks| {
      assert chunks[..n] == chunks[..|chunks| - 1][..n];
      JoinGrows(chunks[..|chunks| - 1], n);
    } else {
      assert chunks[..n] == chunks;
    }
  }

  /** What the bytes must satisfy to be published. */
  predicate Matches(hash: bytes -> string, oid: string, expected: Option<nat>, max: nat, data: bytes) {
    && |data| <= max && (expected.Some? ==> |data| == expected.value) && hash(data) == oid
  }

  class Store {
    const hash: bytes -> string
    var files: map<Path, bytes>

    constructor (hash: bytes -> string)
      ensures this.hash == hash && files == map[]
    {
      this.hash, files := hash, map[];
    }

    /**
     `create_new`: the first of the proposed names that no file has, within 64
     attempts. An opening that fails for another reason ends the search.
     */
    method CreateTempFile(names: seq<Path>, opensUntil: nat) returns (tmp: Result<Path, PutError>)
      modifies this
      ensures tmp.Ok? ==> tmp.value in names && tmp.value !in old(files) && files == old(files)[tmp.value := []]
      ensures tmp.Err? ==> files == old(files) && tmp.error in {OpenFailed, NoFreshName}
      ensures tmp.Ok? <==> exists k :: 0 <= k < |names| && k < 64 && k < opensUntil
                                       && names[k] !in old(files)
    {
      var attempt := 0;
      while attempt < TEMP_NAME_ATTEMPTS && attempt < |names|
        invariant 0 <= attempt <= |names| && attempt <= opensUntil && files == old(files)
        invariant forall k | 0 <= k < attempt :: names[k] in files
      {
        if attempt >= opensUntil {
          return Err(OpenFailed);
        }
        if names[attempt] !in files {
          files := files[names[attempt] := []];
          return Ok(names[attempt]);
        }
        attempt := attempt + 1;
      }
      tmp := Err(NoFreshName);
    }

    /** The reading loop: hash and write chunk by chunk, never past the limit. */
    method Receive(tmp: Path, max: nat, chunks: seq<bytes>, faults: Faults) returns (r: Result<bytes, PutError>)
      requires tmp in files && files[tmp] == []
      modifies this
      ensures tmp in files && files == old(files)[tmp := files[tmp]]
      ensures r.Ok? <==> |chunks| <= faults.readsUntil && |chunks| <= faults.writesUntil && |Join(chunks)| <= max
      ensures r.Ok? ==> r.value == Join(chunks) && files[tmp] == Join(chunks)
      ensures r.Err? ==> r.error in {ReadFailed, TooLarge, WriteFailed}
    {
      var seen: bytes := [];
      for i := 0 to |chunks|
        invariant i <= faults.readsUntil && i <= faults.writesUntil
        invariant seen == Join(chunks[..i]) && |seen| <= max
        invariant tmp in files && files == old(files)[tmp := seen]
      {
        if i >= faults.readsUntil {
          return Err(ReadFailed);
        }
        assert chunks[..i + 1][..i] == chunks[..i];
        JoinGrows(chunks, i + 1);
        if |seen| + |chunks[i]| > max {
          return Err(TooLarge);
        }
        if i >= faults.writesUntil {
          return Err(WriteFailed);
        }
        seen := seen + chunks[i];
        files := files[tmp := files[tmp] + chunks[i]];
      }
      assert chunks[..|chunks|] == chunks;
      r := Ok(seen);
    }

    /** The whole body after the temporary file exists, up to the clean-up of a failure. */
    method Publish(oid: string, tmp: Path, expected: Option<nat>, max: nat, chunks: seq<bytes>, faults: Faults)
      returns (r: Result<nat, PutError>)
      requires tmp.Temp? && tmp in files && files[tmp] == []
      modifies this
      ensures r.Ok? ==> Matches(hash, oid, expected, max, Join(chunks)) && r.value == |Join(chunks)|
      ensures r.Ok? || r == Err(DirectoryNotSynced) ==> files == if Final(oid) in old(files) then old(files) - {tmp}
                else (old(files) - {tmp})[Final(oid) := Join(chunks)]
      ensures r == Err(DirectoryNotSynced) ==> Final(oid) !in old(files)
      ensures r == Err(DirectoryNotSynced) ==> Matches(hash, oid, expected, max, Join(chunks))
      ensures r.Err? && r.error != DirectoryNotSynced ==> tmp in files && files == old(files)[tmp := files[tmp]]
      ensures r.Ok? <==>
        && |chunks| <= faults.readsUntil && |chunks| <= faults.writesUntil && !faults.sync
        && Matches(hash, oid, expected, max, Join(chunks))
        && if Final(oid) in old(files) then !faults.unlink else !faults.rename && !faults.syncDirectory
    {
      var received := Receive(tmp, max, chunks, faults);
      if received.Err? {
        return Err(received.error);
      }
      var data := received.value;
      if faults.sync {
        return Err(SyncFailed);
      }
      if expected.Some? && |data| != expected.value {
        return Err(SizeMismatch);
      }
      if hash(data) != oid {
        return Err(HashMismatch);
      }
      if Final(oid) in files {
        if faults.unlink {
          return Err(UnlinkFailed);
        }
        files := files - {tmp};
        return Ok(|data|);
      }
      if faults.rename {
        return Err(RenameFailed);
      }
      files := (files - {tmp})[Final(oid) := files[tmp]];
      if faults.syncDirectory {
        return Err(DirectoryNotSynced);
      }
      r := Ok(|data|);
    }

    /**
     A put succeeds exactly when the name is an oid, a fresh temporary name is
     found, no call fails and the bytes match. It then leaves the object and no
     temporary file, and an object already there as it was.
     */
    method PutReaderWithLimit(name: string, expected: Option<nat>, max: nat, chunks: seq<bytes>, names: seq<Path>,
                              faults: Faults)
      returns (r: Result<nat, PutError>)
      requires forall k | 0 <= k < |names| :: names[k].Temp?
      modifies this
      ensures r.Ok? ==> NormalizeOid(name).Some?
      ensures r.Ok? ==> Matches(hash, NormalizeOid(name).value, expected, max, Join(chunks))
      ensures r.Ok? ==> r.value == |Join(chunks)|
      ensures r.Ok? ==> files == if Final(NormalizeOid(name).value) in old(files) then old(files)
                else old(files)[Final(NormalizeOid(name).value) := Join(chunks)]
      ensures r.Err? && !faults.unlink && r.error != DirectoryNotSynced ==> files == old(files)
      ensures r == Err(DirectoryNotSynced) ==> NormalizeOid(name).Some?
      ensures r == Err(DirectoryNotSynced) ==> files == old(files)[Final(NormalizeOid(name).value) := Join(chunks)]
      ensures forall oid | Final(oid) in old(files) ::
        Final(oid) in files && files[Final(oid)] == old(files)[Final(oid)]
      ensures r.Ok? <==>
        && NormalizeOid(name).Some? && (expected.Some? ==> expected.value <= max)
        && !faults.directory
        && (exists k :: 0 <= k < |names| && k < 64 && k < faults.opensUntil && names[k] !in old(files))
        && |chunks| <= faults.readsUntil && |chunks| <= faults.writesUntil && !faults.sync
        && |Join(chunks)| <= max && (expected.Some? ==> |Join(chunks)| == expected.value)
        && hash(Join(chunks)) == Lower(name)
        && if Final(NormalizeOid(name).value) in old(files) then !faults.unlink
           else !faults.rename && !faults.syncDirectory
    {
      var normalized := NormalizeOid(name);
      if normalized.None? {
        return Err(BadOid);
      }
      var oid := normalized.value;
      if expected.Some? && expected.value > max {
        return Err(TooLarge);
      }
      if faults.directory {
        return Err(NoDirectory);
      }
      var tmp := CreateTempFile(names, faults.opensUntil);
      if tmp.Err? {
        return Err(tmp.error);
      }
      r := Publish(oid, tmp.value, expected, max, chunks, faults);
      if r.Err? && !faults.unlink {
        files := files - {tmp.value};
      }
      assert old(files)[tmp.value := []] - {tmp.value} == old(files);
    }
  }
}
