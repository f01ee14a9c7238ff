/** Choosing which snapshots to delete (`get_snapshot_children`). The
    listing is parsed into (id, name) pairs; the root id is the id of the
    last pair whose name equals the requested root name ignoring case; the
    subtree is every pair whose id starts with the root id as a string; a
    pair of the subtree whose name contains a protected string, ignoring
    case, is left out, and if any was left out the root itself is left out
    as well. The functions state what the selection is; the methods compute
    it with the loops of the source. */
module Selection {
  import opened Wrappers
  import opened Text
  import opened Listing

  datatype Error = RootNotFound(rootName: string)

  /** `snapshot_name.lower() == root_snapshot_name.lower()` */
  predicate NameMatches(name: string, rootName: string)
  {
    Lower(name) == Lower(rootName)
  }

  /** `snapshotid.startswith(root_snapshotid)`: ancestry is a string prefix,
      so the root is in its own subtree and `SnapshotName-1` also covers
      `SnapshotName-10`. */
  predicate InSubtree(s: Snapshot, rootId: string)
  {
    rootId <= s.id
  }

  /** `any(p.lower() in name.lower() for p in protected)` */
  predicate Protected(name: string, protected: seq<string>)
  {
    exists p | p in protected :: Contains(Lower(name), Lower(p))
  }

  /** Some pair of the subtree, the root included, is protected. */
  predicate AnyProtected(snaps: seq<Snapshot>, rootId: string, protected: seq<string>)
  {
    exists k | 0 <= k < |snaps| :: InSubtree(snaps[k], rootId) && Protected(snaps[k].name, protected)
  }

  /** A pair that is selected: in the subtree, unprotected, and not the root
      when the root has to be kept. */
  predicate Eligible(s: Snapshot, rootId: string, protected: seq<string>, dropRoot: bool)
  {
    InSubtree(s, rootId) && !Protected(s.name, protected) && !(dropRoot && s.id == rootId)
  }

  /** The id of the last pair whose name matches: the loop that overwrites
      `root_snapshotid` has no `break`. */
  function LastMatch(snaps: seq<Snapshot>, rootName: string): Option<string>
  {
    if snaps == [] then None
    else if NameMatches(snaps[|snaps| - 1].name, rootName) then Some(snaps[|snaps| - 1].id)
    else LastMatch(snaps[..|snaps| - 1], rootName)
  }

  /** The eligible pairs, in listing order. */
  function Eligibles(snaps: seq<Snapshot>, rootId: string, protected: seq<string>, dropRoot: bool): seq<Snapshot>
  {
    if snaps == [] then []
    else
      var prefix := Eligibles(snaps[..|snaps| - 1], rootId, protected, dropRoot);
      if Eligible(snaps[|snaps| - 1], rootId, protected, dropRoot) then prefix + [snaps[|snaps| - 1]]
      else prefix
  }

  /** The selection below a resolved root id. */
  function Select(snaps: seq<Snapshot>, rootId: string, protected: seq<string>): seq<Snapshot>
  {
    Eligibles(snaps, rootId, protected, AnyProtected(snaps, rootId, protected))
  }

  /** What `get_snapshot_children` returns for a listing, or the error it
      raises when the root name matches no snapshot. */
  function SnapshotChildren(listing: string, rootName: string, protected: seq<string>): Result<seq<Snapshot>, Error>
  {
    var snaps := ParseListing(listing);
    match LastMatch(snaps, rootName)
    case None => Err(RootNotFound(rootName))
    case Some(rootId) =>
      if rootId == [] then Err(RootNotFound(rootName)) else Ok(Select(snaps, rootId, protected))
  }

  /** `idx` picks the elements of `a` out of `b`, in order and each position
      of `b` at most once. */
  ghost predicate Embedding<T>(idx: seq<nat>, a: seq<T>, b: seq<T>)
  {
    |idx| == |a| &&
    (forall k :: 0 <= k < |idx| ==> idx[k] < |b| && a[k] == b[idx[k]]) &&
    (forall k, l :: 0 <= k < l < |idx| ==> idx[k] < idx[l])
  }

  /** `a` is `b` with some elements removed: nothing reordered, duplicated or
      invented. */
  ghost predicate IsSubsequence<T>(a: seq<T>, b: seq<T>)
  {
    exists idx :: Embedding(idx, a, b)
  }

  // ---------------------------------------------------------------------
  // The loops of get_snapshot_children

  /** The loop that resolves the root id. */
  method ResolveRootId(snaps: seq<Snapshot>, rootName: string) returns (rootId: Option<string>)
    ensures rootId == LastMatch(snaps, rootName)
  {
    rootId := None;
    for i := 0 to |snaps|
      invariant rootId == LastMatch(snaps[..i], rootName)
    {
      assert snaps[..i + 1][..i] == snaps[..i];
      if Lower(snaps[i].name) == Lower(rootName) {
        rootId := Some(snaps[i].id);
      }
    }
    assert snaps[..|snaps|] == snaps;
  }

  /** The loop that collects the unprotected pairs of the subtree and notes
      whether any pair of it was protected. */
  method CollectChildren(snaps: seq<Snapshot>, rootId: string, protected: seq<string>)
    returns (children: seq<Snapshot>, dependantChild: bool)
    ensures children == Eligibles(snaps, rootId, protected, false)
    ensures dependantChild == AnyProtected(snaps, rootId, protected)
  {
    children, dependantChild := [], false;
    for i := 0 to |snaps|
      invariant children == Eligibles(snaps[..i], rootId, protected, false)
      invariant dependantChild <==>
                exists k :: 0 <= k < i && InSubtree(snaps[k], rootId) && Protected(snaps[k].name, protected)
    {
      assert snaps[..i + 1][..i] == snaps[..i];
      if rootId <= snaps[i].id {
        if !Protected(snaps[i].name, protected) {
          children := children + [snaps[i]];
        } else {
          dependantChild := true;
        }
      }
    }
    assert snaps[..|snaps|] == snaps;
  }

  /** `get_snapshot_children` with the listing passed in. */
  method GetSnapshotChildren(listing: string, rootName: string, protected: seq<string>)
    returns (r: Result<seq<Snapshot>, Error>)
    ensures r == SnapshotChildren(listing, rootName, protected)
  {
    var snaps := ParseListing(listing);
    var rootId := ResolveRootId(snaps, rootName);
    if rootId.None? || rootId.value == [] {
      return Err(RootNotFound(rootName));
    }
    var children, dependantChild := CollectChildren(snaps, rootId.value, protected);
    if dependantChild {
      // the list comprehension that removes the root
      EligiblesAreEligible(snaps, rootId.value, protected, false);
      var kept := [];
      for i := 0 to |children|
        invariant kept == Eligibles(children[..i], rootId.value, protected, true)
      {
        assert children[..i + 1][..i] == children[..i];
        if children[i].id != rootId.value {
          kept := kept + [children[i]];
        }
      }
      assert children[..|children|] == children;
      EligiblesTwice(snaps, rootId.value, protected);
      children := kept;
    }
    return Ok(children);
  }

  // ---------------------------------------------------------------------
  // Properties

  /** The resolved root is the last pair whose name matches; there is none
      exactly when no name matches. */
  lemma {:induction false} LastMatchSpec(snaps: seq<Snapshot>, rootName: string)
    ensures LastMatch(snaps, rootName).None? <==>
            forall k :: 0 <= k < |snaps| ==> !NameMatches(snaps[k].name, rootName)
    ensures LastMatch(snaps, rootName).Some? ==>
            exists k :: 0 <= k < |snaps| && snaps[k].id == LastMatch(snaps, rootName).value &&
                        NameMatches(snaps[k].name, rootName) &&
                        forall j :: k < j < |snaps| ==> !NameMatches(snaps[j].name, rootName)
  {
    if snaps != [] {
      var n := |snaps| - 1;
      var init := snaps[..n];
      if NameMatches(snaps[n].name, rootName) {
        assert LastMatch(snaps, rootName) == Some(snaps[n].id);
      } else {
        LastMatchSpec(init, rootName);
        assert LastMatch(snaps, rootName) == LastMatch(init, rootName);
        assert forall k :: 0 <= k < n ==> init[k] == snaps[k];
        if LastMatch(init, rootName).Some? {
          var k :| 0 <= k < n && init[k].id == LastMatch(init, rootName).value &&
                   NameMatches(init[k].name, rootName) &&
                   forall j :: k < j < n ==> !NameMatches(init[j].name, rootName);
          assert snaps[k] == init[k];
        }
      }
    }
  }

  /** The filter exactly: the positions it keeps are the eligible ones, in
      increasing order. */
  lemma {:induction false} EligiblesExact(snaps: seq<Snapshot>, rootId: string, protected: seq<string>, dropRoot: bool)
    returns (idx: seq<nat>)
    ensures Embedding(idx, Eligibles(snaps, rootId, protected, dropRoot), snaps)
    ensures forall k :: 0 <= k < |snaps| ==> (k in idx <==> Eligible(snaps[k], rootId, protected, dropRoot))
  {
    if snaps == [] {
      idx := [];
    } else {
      var n := |snaps| - 1;
      var init := snaps[..n];
      var prev := EligiblesExact(init, rootId, protected, dropRoot);
      assert forall k :: 0 <= k < n ==> init[k] == snaps[k];
      if Eligible(snaps[n], rootId, protected, dropRoot) {
        idx := prev + [n];
      } else {
        idx := prev;
      }
    }
  }

  lemma EligiblesAreEligible(snaps: seq<Snapshot>, rootId: string, protected: seq<string>, dropRoot: bool)
    ensures forall k :: 0 <= k < |Eligibles(snaps, rootId, protected, dropRoot)| ==>
              Eligible(Eligibles(snaps, rootId, protected, dropRoot)[k], rootId, protected, dropRoot)
  {
  }

  /** Removing the root from the collected children is the same as
      selecting with the root dropped from the start. */
  lemma {:induction false} EligiblesTwice(snaps: seq<Snapshot>, rootId: string, protected: seq<string>)
    ensures Eligibles(Eligibles(snaps, rootId, protected, false), rootId, protected, true) ==
            Eligibles(snaps, rootId, protected, true)
  {
    if snaps != [] {
      var n := |snaps| - 1;
      EligiblesTwice(snaps[..n], rootId, protected);
      var kept := Eligibles(snaps[..n], rootId, protected, false);
      if Eligible(snaps[n], rootId, protected, false) {
        assert (kept + [snaps[n]])[..|kept|] == kept;
      }
    }
  }

  /** The selection is a subsequence of the listing: listing order, no
      duplicates, nothing invented. */
  lemma SelectIsSubsequence(snaps: seq<Snapshot>, rootId: string, protected: seq<string>)
    ensures IsSubsequence(Select(snaps, rootId, protected), snaps)
  {
    var idx := EligiblesExact(snaps, rootId, protected, AnyProtected(snaps, rootId, protected));
  }

  /** Every selected pair lies in the subtree and is unprotected. */
  lemma SelectedAreUnprotectedDescendants(snaps: seq<Snapshot>, rootId: string, protected: seq<string>)
    ensures forall x :: x in Select(snaps, rootId, protected) ==>
              x in snaps && rootId <= x.id && !Protected(x.name, protected)
  {
    var dropRoot := AnyProtected(snaps, rootId, protected);
    var idx := EligiblesExact(snaps, rootId, protected, dropRoot);
    var r := Select(snaps, rootId, protected);
    forall x | x in r ensures x in snaps && rootId <= x.id && !Protected(x.name, protected) {
      var k :| 0 <= k < |r| && r[k] == x;
      assert idx[k] in idx;
    }
  }

  /** Apart from the root, every unprotected pair of the subtree is
      selected. */
  lemma UnprotectedDescendantsSelected(snaps: seq<Snapshot>, rootId: string, protected: seq<string>)
    ensures forall k :: 0 <= k < |snaps| && rootId <= snaps[k].id && snaps[k].id != rootId &&
                        !Protected(snaps[k].name, protected) ==>
              snaps[k] in Select(snaps, rootId, protected)
  {
    var dropRoot := AnyProtected(snaps, rootId, protected);
    var idx := EligiblesExact(snaps, rootId, protected, dropRoot);
    var r := Select(snaps, rootId, protected);
    forall k | 0 <= k < |snaps| && rootId <= snaps[k].id && snaps[k].id != rootId &&
               !Protected(snaps[k].name, protected)
      ensures snaps[k] in r
    {
      var m :| 0 <= m < |idx| && idx[m] == k;
      assert r[m] == snaps[k];
    }
  }

  /** The root is selected exactly when nothing in its subtree, the root
      included, is protected. */
  lemma RootSelectedIffNothingProtected(snaps: seq<Snapshot>, rootId: string, protected: seq<string>)
    requires exists k :: 0 <= k < |snaps| && snaps[k].id == rootId
    ensures (exists x :: x in Select(snaps, rootId, protected) && x.id == rootId) <==>
            !AnyProtected(snaps, rootId, protected)
  {
    var dropRoot := AnyProtected(snaps, rootId, protected);
    var idx := EligiblesExact(snaps, rootId, protected, dropRoot);
    var r := Select(snaps, rootId, protected);
    if dropRoot {
      forall x | x in r ensures x.id != rootId {
        var k :| 0 <= k < |r| && r[k] == x;
        assert idx[k] in idx;
      }
    } else {
      var k :| 0 <= k < |snaps| && snaps[k].id == rootId;
      assert Eligible(snaps[k], rootId, protected, false);
      var m :| 0 <= m < |idx| && idx[m] == k;
      assert r[m] == snaps[k];
    }
  }

  /** `get_snapshot_children` fails exactly when no parsed name matches the
      root name; otherwise it selects below the id of the last match. */
  lemma SnapshotChildrenOutcome(listing: string, rootName: string, protected: seq<string>)
    ensures var snaps := ParseListing(listing);
            SnapshotChildren(listing, rootName, protected).Err? <==>
            forall k :: 0 <= k < |snaps| ==> !NameMatches(snaps[k].name, rootName)
    ensures var snaps := ParseListing(listing);
            SnapshotChildren(listing, rootName, protected).Ok? ==>
            exists k :: 0 <= k < |snaps| && NameMatches(snaps[k].name, rootName) &&
                        (forall j :: k < j < |snaps| ==> !NameMatches(snaps[j].name, rootName)) &&
                        SnapshotChildren(listing, rootName, protected).value == Select(snaps, snaps[k].id, protected)
  {
    var snaps := ParseListing(listing);
    LastMatchSpec(snaps, rootName);
    ParsedAreWellFormed(Split(listing, '\n'));
  }

  /** A listing whose ancestors come before their descendants keeps that
      order in the selection. */
  ghost predicate ParentsFirst(snaps: seq<Snapshot>)
  {
    forall i, j :: 0 <= i < j < |snaps| ==> !(snaps[j].id < snaps[i].id)
  }

  lemma SelectKeepsParentsFirst(snaps: seq<Snapshot>, rootId: string, protected: seq<string>)
    requires ParentsFirst(snaps)
    ensures ParentsFirst(Select(snaps, rootId, protected))
  {
    var idx := EligiblesExact(snaps, rootId, protected, AnyProtected(snaps, rootId, protected));
    var r := Select(snaps, rootId, protected);
    forall i, j | 0 <= i < j < |r| ensures !(r[j].id < r[i].id) {
      assert r[i] == snaps[idx[i]] && r[j] == snaps[idx[j]] && idx[i] < idx[j];
    }
  }

  /** Ancestry is a string prefix, not a path segment: below
      `SnapshotName-1` the sibling `SnapshotName-10` is selected too. */
  lemma PrefixIsNotPathSegment()
    ensures var one := Snapshot("SnapshotName-1", "Snapshot 1");
            var ten := Snapshot("SnapshotName-10", "Snapshot 10");
            Select([one, ten], "SnapshotName-1", []) == [one, ten]
  {
    var one := Snapshot("SnapshotName-1", "Snapshot 1");
    var ten := Snapshot("SnapshotName-10", "Snapshot 10");
    assert !AnyProtected([one, ten], "SnapshotName-1", []);
    assert [one, ten][..1] == [one];
    assert [one][..0] == [];
    assert Eligible(one, "SnapshotName-1", [], false);
    assert Eligible(ten, "SnapshotName-1", [], false) by {
      assert ten.id == "SnapshotName-1" + "0";
    }
    assert Eligibles([one], "SnapshotName-1", [], false) == [one];
    assert Eligibles([one, ten], "SnapshotName-1", [], false) == [one, ten];
  }
}
