/** The list of mount points: lookup takes the first prefix that matches. */
module MountPoints {

  type Path = seq<nat>

  datatype Mount = Mount(prefix: Path, base: nat, addedByApplication: bool)

  datatype Outcome = Success | AlreadyExists | InsufficientResources

  const PREFIX_BYTES := 16

  /** The first mount point whose prefix the path has; the length of the list if there is none. */
  function Find(mounts: seq<Mount>, path: Path): (i: nat)
    ensures i <= |mounts| && (i < |mounts| ==> mounts[i].prefix <= path)
    ensures forall j :: 0 <= j < i ==> !(mounts[j].prefix <= path)
  {
    if mounts == [] || mounts[0].prefix <= path then 0 else 1 + Find(mounts[1..], path)
  }

  /** No prefix is a prefix of a later one. */
  ghost predicate Apart(mounts: seq<Mount>) {
    forall i, j :: 0 <= i < j < |mounts| ==> !(mounts[i].prefix <= mounts[j].prefix)
  }

  /** The mount point is the one with the longest prefix that the path has. */
  ghost predicate Longest(mounts: seq<Mount>, path: Path, i: nat) {
    && i < |mounts| && mounts[i].prefix <= path
    && forall j :: 0 <= j < |mounts| && j != i && mounts[j].prefix <= path ==> |mounts[j].prefix| < |mounts[i].prefix|
  }

  lemma Nested(a: Path, b: Path, path: Path)
    requires a <= path && b <= path
    ensures |a| <= |b| ==> a <= b
  {
  }

  /** The first match is the longest one. */
  lemma FirstIsLongest(mounts: seq<Mount>, path: Path)
    requires Apart(mounts) && Find(mounts, path) < |mounts|
    ensures Longest(mounts, path, Find(mounts, path))
  {
    var i := Find(mounts, path);
    forall j | 0 <= j < |mounts| && j != i && mounts[j].prefix <= path ensures |mounts[j].prefix| < |mounts[i].prefix| {
      Nested(mounts[i].prefix, mounts[j].prefix, path);
    }
  }

  /** The path has no prefix in the list. */
  predicate Free(mounts: seq<Mount>, path: Path) { Find(mounts, path) == |mounts| }

  lemma FindIs(mounts: seq<Mount>, path: Path, i: nat)
    requires i <= |mounts| && (i < |mounts| ==> mounts[i].prefix <= path)
             && forall j :: 0 <= j < i ==> !(mounts[j].prefix <= path)
    ensures Find(mounts, path) == i
  {
  }

  /** Adding a mount point leaves every earlier lookup as it was, and answers only for paths that had no mount point. */
  lemma AddedFinds(mounts: seq<Mount>, mount: Mount, path: Path)
    ensures Find(mounts + [mount], path) ==
            if !Free(mounts, path) then Find(mounts, path) else if mount.prefix <= path then |mounts| else |mounts| + 1
  {
    var i := if !Free(mounts, path) then Find(mounts, path)
      else if mount.prefix <= path then |mounts| else |mounts| + 1;
    FindIs(mounts + [mount], path, i);
  }

  class Table {
    var mounts: seq<Mount>

    ghost predicate Valid()
      reads this
    {
      Apart(mounts)
    }

    constructor ()
      ensures Valid() && mounts == []
    {
      mounts := [];
    }

    /** `NodeFindMountPoint`; without the mutex only permanent mount points may be asked for. */
    method FindMountPoint(path: Path, mutexTaken: bool) returns (found: bool, result: Mount)
      requires Valid()
      requires mutexTaken || Free(mounts, path) || !mounts[Find(mounts, path)].addedByApplication
      ensures found == !Free(mounts, path)
      ensures found ==> exists i: nat :: Longest(mounts, path, i) && result == mounts[i]
    {
      found, result := false, Mount([], 0, false);
      var i := 0;
      while i < |mounts|
        invariant i <= |mounts| && forall j :: 0 <= j < i ==> !(mounts[j].prefix <= path)
      {
        if mounts[i].prefix <= path {
          FindIs(mounts, path, i);
          FirstIsLongest(mounts, path);
          return true, mounts[i];
        }
        i := i + 1;
      }
      FindIs(mounts, path, i);
    }

    /** `MountPointAdd`; `shared` and `stored` say whether the handle could be shared and the list extended. */
    method Add(prefix: Path, base: nat, addedByApplication: bool, shared: bool, stored: bool) returns (outcome: Outcome)
      requires Valid() && (Free(mounts, prefix) ==> |prefix| < PREFIX_BYTES)
      modifies this
      ensures Valid()
      ensures outcome == if !Free(old(mounts), prefix) then AlreadyExists
              else if shared && stored then Success else InsufficientResources
      ensures mounts == if outcome == Success then old(mounts) + [Mount(prefix, base, addedByApplication)]
              else old(mounts)
    {
      var duplicate, _ := FindMountPoint(prefix, true);
      if duplicate {
        return AlreadyExists;
      }
      if !shared || !stored {
        return InsufficientResources;
      }
      mounts := mounts + [Mount(prefix, base, addedByApplication)];
      return Success;
    }

    /** `EsMountPointRemove`: what is removed is the longest match; it must have been added by the application. */
    method Remove(path: Path) returns (found: bool)
      requires Valid()
      requires Free(mounts, path) || mounts[Find(mounts, path)].addedByApplication
      modifies this
      ensures Valid() && found == !Free(old(mounts), path)
      ensures !found ==> mounts == old(mounts)
      ensures found ==> exists i: nat :: Longest(old(mounts), path, i)
                                         && mounts == old(mounts)[..i] + old(mounts)[i + 1..]
    {
      found := false;
      var i := 0;
      while i < |mounts|
        invariant i <= |mounts| && mounts == old(mounts) && forall j :: 0 <= j < i ==> !(mounts[j].prefix <= path)
      {
        if mounts[i].prefix <= path {
          FindIs(mounts, path, i);
          FirstIsLongest(mounts, path);
          mounts := mounts[..i] + mounts[i + 1..];
          return true;
        }
        i := i + 1;
      }
      FindIs(mounts, path, i);
    }

    /** Removing what was just added restores the list. */
    method AddThenRemove(prefix: Path, base: nat) returns (removed: bool)
      requires Valid() && |prefix| < PREFIX_BYTES && Free(mounts, prefix)
      modifies this
      ensures removed && mounts == old(mounts)
    {
      var outcome := Add(prefix, base, true, true, true);
      AddedFinds(old(mounts), Mount(prefix, base, true), prefix);
      ghost var added := mounts;
      FirstIsLongest(added, prefix);
      removed := Remove(prefix);
    }
  }
}
