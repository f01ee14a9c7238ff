/** The decision logic of `delete_snapshot_and_children`: nothing happens
    for an empty selection; otherwise the VM state is queried (only to print
    a warning) and the user is asked to confirm; only an answer that
    lower-cases to "y" leads to deletions, one attempt per selected
    snapshot, last selected first, and a failed attempt does not stop the
    ones after it. The user's answer and the deleter's outcomes are inputs;
    the run is described by what was queried, asked and attempted. */
module Cleanup {
  import opened Wrappers
  import opened Text
  import opened Listing
  import opened Selection

  /** `--root_snapshot` when it is not given. */
  const DEFAULT_ROOT_SNAPSHOT: string := ""

  /** `--protected_snapshots` when it is not given. */
  const DEFAULT_PROTECTED_SNAPSHOTS: string := "clean,done"

  /** The list the `--protected_snapshots` argument becomes: `s.split(",")`. */
  function ProtectedList(arg: string): seq<string>
  {
    Split(arg, ',')
  }

  /** `answer.lower() == "y"` */
  predicate Confirmed(answer: string)
  {
    Lower(answer) == "y"
  }

  /** One call of the deleter, on the snapshot's name, and whether it
      succeeded. */
  datatype Attempt = Attempt(target: Snapshot, succeeded: bool)

  /** What one run did: the snapshots it selected, whether it queried the VM
      state, whether it asked for confirmation, and the deletions it
      attempted, in order. */
  datatype Run = Run(selected: seq<Snapshot>, stateQueried: bool, prompted: bool, attempts: seq<Attempt>)

  /** `reversed(snaps_to_delete)` */
  function DeletionOrder(selected: seq<Snapshot>): (r: seq<Snapshot>)
    ensures |r| == |selected|
    ensures forall k :: 0 <= k < |r| ==> r[k] == selected[|selected| - 1 - k]
  {
    if selected == [] then [] else DeletionOrder(selected[1..]) + [selected[0]]
  }

  /** The outcome the deleter reports for the `k`-th attempt; an attempt
      without an entry fails. */
  function Outcome(deleteSucceeds: seq<bool>, k: nat): bool
  {
    k < |deleteSucceeds| && deleteSucceeds[k]
  }

  /** `delete_snapshot_and_children` with the listing, the user's answer and
      the deleter's outcomes passed in. */
  method DeleteSnapshotAndChildren(listing: string, rootName: string, protected: seq<string>,
                                   answer: string, deleteSucceeds: seq<bool>)
    returns (r: Result<Run, Error>)
    ensures r.Err? <==> SnapshotChildren(listing, rootName, protected).Err?
    ensures r.Ok? ==>
              var sel := SnapshotChildren(listing, rootName, protected).value;
              var run := r.value;
              run.selected == sel &&
              run.stateQueried == (sel != []) &&
              run.prompted == (sel != []) &&
              |run.attempts| == (if sel != [] && Confirmed(answer) then |sel| else 0) &&
              forall k :: 0 <= k < |run.attempts| ==>
                run.attempts[k] == Attempt(DeletionOrder(sel)[k], Outcome(deleteSucceeds, k))
  {
    var children := GetSnapshotChildren(listing, rootName, protected);
    if children.Err? {
      return Err(children.error);
    }
    var snaps := children.value;
    if snaps == [] {
      return Ok(Run(snaps, false, false, []));
    }
    var attempts: seq<Attempt> := [];
    if Lower(answer) == "y" {
      var i := |snaps|;
      while i > 0
        invariant 0 <= i <= |snaps|
        invariant |attempts| == |snaps| - i
        invariant forall k :: 0 <= k < |attempts| ==>
                    attempts[k] == Attempt(snaps[|snaps| - 1 - k], Outcome(deleteSucceeds, k))
      {
        i := i - 1;
        var ok := Outcome(deleteSucceeds, |attempts|);
        attempts := attempts + [Attempt(snaps[i], ok)];
      }
    }
    return Ok(Run(snaps, true, true, attempts));
  }

  // ---------------------------------------------------------------------
  // Properties

  /** An answer confirms exactly when it is "y" or "Y". */
  lemma ConfirmedIff(answer: string)
    ensures Confirmed(answer) <==> answer == "y" || answer == "Y"
  {
  }

  /** Deleting in reverse selection order deletes every descendant before
      its ancestor, provided the listing names ancestors first. */
  ghost predicate ChildrenFirst(order: seq<Snapshot>)
  {
    forall i, j :: 0 <= i < j < |order| ==> !(order[i].id < order[j].id)
  }

  lemma ChildrenDeletedFirst(listing: string, rootName: string, protected: seq<string>)
    requires ParentsFirst(ParseListing(listing))
    requires SnapshotChildren(listing, rootName, protected).Ok?
    ensures ChildrenFirst(DeletionOrder(SnapshotChildren(listing, rootName, protected).value))
  {
    var snaps := ParseListing(listing);
    var rootId := LastMatch(snaps, rootName).value;
    SelectKeepsParentsFirst(snaps, rootId, protected);
    var sel := Select(snaps, rootId, protected);
    var order := DeletionOrder(sel);
    forall i, j | 0 <= i < j < |order| ensures !(order[i].id < order[j].id) {
      assert order[i] == sel[|sel| - 1 - i] && order[j] == sel[|sel| - 1 - j];
    }
  }

  /** The default protected list is "clean" and "done". */
  lemma DefaultProtectedList()
    ensures ProtectedList(DEFAULT_PROTECTED_SNAPSHOTS) == ["clean", "done"]
  {
    assert DEFAULT_PROTECTED_SNAPSHOTS == "clean" + [','] + "done";
    SplitAtSeparator("clean", ',', "done");
    SplitWithoutSeparator("done", ',');
  }

  /** `--protected_snapshots ""` becomes `[""]`, and the empty string occurs
      in every name, so nothing is selected at all. */
  lemma EmptyProtectedArgumentSelectsNothing(listing: string, rootName: string)
    ensures ProtectedList("") == [""]
    ensures SnapshotChildren(listing, rootName, ProtectedList("")).Err? ||
            SnapshotChildren(listing, rootName, ProtectedList("")).value == []
  {
    var protected := ProtectedList("");
    var snaps := ParseListing(listing);
    if LastMatch(snaps, rootName).Some? {
      var rootId := LastMatch(snaps, rootName).value;
      SelectedAreUnprotectedDescendants(snaps, rootId, protected);
      var sel := Select(snaps, rootId, protected);
      if sel != [] {
        assert Contains(Lower(sel[0].name), Lower(""));
        assert Protected(sel[0].name, protected);
      }
    }
  }

  /** The default empty root name is matched like any other name: it finds a
      root only if some snapshot's name is empty. */
  lemma EmptyRootNameNeedsEmptyName(listing: string, protected: seq<string>)
    ensures SnapshotChildren(listing, DEFAULT_ROOT_SNAPSHOT, protected).Ok? <==>
            exists k :: 0 <= k < |ParseListing(listing)| && ParseListing(listing)[k].name == []
  {
    var snaps := ParseListing(listing);
    SnapshotChildrenOutcome(listing, DEFAULT_ROOT_SNAPSHOT, protected);
    forall k | 0 <= k < |snaps| ensures NameMatches(snaps[k].name, DEFAULT_ROOT_SNAPSHOT) <==> snaps[k].name == [] {
      assert |Lower(snaps[k].name)| == |snaps[k].name|;
    }
  }
}
