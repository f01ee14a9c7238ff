# vbox-clean-snapshots, modelled in Dafny

`vbox-clean-snapshots.py` deletes a VirtualBox VM's snapshots below a chosen
root snapshot, keeping every snapshot whose name contains a protected string.
It reads `VBoxManage snapshot <vm> list --machinereadable`. Lines of the form
`SnapshotName-1-1="Snapshot 2"` give each snapshot an id that encodes its
position in the tree and a display name.

This project models the two functions that make the decisions:

- `get_snapshot_children` (module `Selection`). It parses the listing
  (module `Listing`). It resolves the root name, ignoring case, to the id of
  the last snapshot with that name. It keeps every snapshot whose id starts
  with the root id and whose name contains no protected string, ignoring
  case. If any snapshot of that subtree is protected, it also drops the
  root. Pure functions say what the selection is. Methods compute it with
  the loops of the source: the root-resolving loop, the collecting loop and
  the comprehension that drops the root.
- `delete_snapshot_and_children` (module `Cleanup`). If the selection is
  empty, nothing is queried, asked or deleted. Otherwise the VM state is
  queried, the user is asked to confirm, and only an answer that lower-cases
  to `y` leads to deletions. There is one attempt per selected snapshot, in
  reverse selection order, and a failed attempt does not stop the next ones.

Module `Text` holds ASCII lower-casing, substring search and `str.split`
with its inverse `Join`. Module `Wrappers` holds `Option` and `Result`.

Modelling assumptions:

- The listing is a parameter instead of the output of `run_vboxmanage`.
- The user's answer is a parameter instead of `input()`.
- The deleter's outcome for the k-th attempt is the k-th entry of a
  sequence of booleans. A missing entry counts as a failure.
- `str.lower()` is modelled as ASCII lower-casing, and the regular
  expression's `\d` as ASCII digits.
- The regular expression `(^SnapshotName(?:-\d+)*)=\"(.*?)\"` with `re.M` is
  modelled as one hand-written scan per `\n`-separated line. A match starts
  at a line start and cannot cross a `\n`, so each line yields at most one
  snapshot. The id suffix is the longest run of `-` and digit characters
  after the key. It must have the form `(-\d+)*` and be followed by `="`.
  The name is the text up to the next `"`.

## Behaviour kept as coded

The help text and the usage examples describe some cases
differently from the code. The model follows the code, and lemmas state
what the code does:

- An empty `--root_snapshot`, which is the default, is meant to select the
  whole tree (help text at virtualbox/vbox-clean-snapshots.py:157). The code
  compares it like any other name. So it finds a root only if some snapshot
  has an empty name; otherwise the run fails
  (`Cleanup.EmptyRootNameNeedsEmptyName`).
- `--protected_snapshots ""` is meant to delete all snapshots (usage example
  at :145). The code turns it into `[""]`, and the empty string occurs in
  every name, so nothing is ever selected
  (`Cleanup.EmptyProtectedArgumentSelectsNothing`).
- Ancestry is a string prefix, not a path segment. The subtree of
  `SnapshotName-1` therefore also contains `SnapshotName-10`
  (`Selection.PrefixIsNotPathSegment`).
- When several snapshots have the root name, the last one wins, because the
  loop has no `break` (`Selection.LastMatchSpec`).
- Protection removes the root only, not any ancestor between the root and
  the protected snapshot.

## Model

| member | source | states |
|---|---|---|
| Text.Lower | virtualbox/vbox-clean-snapshots.py:76 | `lower()` keeps the length and lower-cases each character in place |
| Text.ContainsIffOccurs | virtualbox/vbox-clean-snapshots.py:76 | `p in name` holds exactly when some position of the name starts with `p`; the empty string occurs everywhere |
| Text.Split | virtualbox/vbox-clean-snapshots.py:162 | `split(",")` always yields at least one piece, and no piece contains the separator |
| Text.JoinSplit | virtualbox/vbox-clean-snapshots.py:162 | joining the pieces with the separator gives back the argument |
| Text.SplitJoin | virtualbox/vbox-clean-snapshots.py:57-58 | splitting a join of separator-free lines gives the lines back |
| Listing.IdCharSpan | virtualbox/vbox-clean-snapshots.py:57 | the id suffix scan stops at the first character that is neither `-` nor a digit |
| Listing.QuoteSpan | virtualbox/vbox-clean-snapshots.py:57 | the name scan stops at the first `"`, or at the end of the line |
| Listing.IdLengthSound | virtualbox/vbox-clean-snapshots.py:57 | an id found at the line start is well formed (`SnapshotName(-\d+)*`) and is followed by `="` |
| Listing.IdLengthComplete | virtualbox/vbox-clean-snapshots.py:57 | a line that starts with a well-formed id followed by `="` is recognised with exactly that id |
| Listing.QuotedValueIff | virtualbox/vbox-clean-snapshots.py:57 | the lazy `(.*?)"` yields a name exactly when the name has no quote and is followed by `"` |
| Listing.ParseLineIff | virtualbox/vbox-clean-snapshots.py:57-58 | a line yields (id, name) exactly when it begins with `<id>="<name>"` with a well-formed id and a quote-free name; the rest of the line is ignored |
| Listing.MetadataLineIgnored | virtualbox/vbox-clean-snapshots.py:38-48 | `SnapshotUUID…` and `CurrentSnapshot…` lines yield nothing |
| Listing.ParsedAreWellFormed | virtualbox/vbox-clean-snapshots.py:57-58 | every parsed id is a well-formed, non-empty snapshot id and no parsed name contains a quote |
| Listing.ParseRender | virtualbox/vbox-clean-snapshots.py:57-58 | parsing a listing made only of snapshot lines gives the snapshots back, in order |
| Listing.ParseLinesAppend | virtualbox/vbox-clean-snapshots.py:57-58 | parsing the lines of two consecutive parts of a listing gives the first part's snapshots followed by the second's |
| Listing.SkipsOtherLines | virtualbox/vbox-clean-snapshots.py:37-58 | lines that hold no snapshot can be put in front of any lines without changing what is parsed |
| Listing.ParseInterleave | virtualbox/vbox-clean-snapshots.py:37-58 | snapshot lines, each followed by any lines that hold no snapshot, parse to exactly the snapshots, in order |
| Listing.UuidLineIgnored | virtualbox/vbox-clean-snapshots.py:39-41 | a `SnapshotUUID<suffix>="<uuid>"` line yields nothing |
| Listing.CurrentLinesIgnored | virtualbox/vbox-clean-snapshots.py:42-44 | the `CurrentSnapshotName`, `CurrentSnapshotUUID` and `CurrentSnapshotNode` lines yield nothing |
| Listing.ParseMachineReadable | virtualbox/vbox-clean-snapshots.py:37-58 | parsing the full machine-readable listing, where every snapshot line is followed by its UUID line and the current snapshot's lines follow its own, gives the snapshots back, in order |
| Selection.ResolveRootId | virtualbox/vbox-clean-snapshots.py:63-66 | the loop computes the id of the last snapshot whose name matches, ignoring case |
| Selection.LastMatchSpec | virtualbox/vbox-clean-snapshots.py:63-66 | no root is found exactly when no name matches; otherwise the root id is that of a matching snapshot after which no name matches (last match wins) |
| Selection.CollectChildren | virtualbox/vbox-clean-snapshots.py:72-80 | the loop collects, in listing order, exactly the snapshots whose id starts with the root id and that are unprotected; the flag is set exactly when some snapshot of the subtree is protected |
| Selection.GetSnapshotChildren | virtualbox/vbox-clean-snapshots.py:25-90 | the method returns the specified selection, or the root-not-found error when no name matches; when something was protected, its comprehension keeps exactly the collected snapshots whose id differs from the root id |
| Selection.EligiblesExact | virtualbox/vbox-clean-snapshots.py:72-87 | the selection is picked from the listing in increasing positions, and the picked positions are exactly the eligible ones |
| Selection.EligiblesTwice | virtualbox/vbox-clean-snapshots.py:83-87 | dropping the root from the collected children equals selecting with the root excluded from the start |
| Selection.SelectIsSubsequence | virtualbox/vbox-clean-snapshots.py:72-87 | the selection is a subsequence of the parsed listing: nothing reordered, duplicated or invented |
| Selection.SelectedAreUnprotectedDescendants | virtualbox/vbox-clean-snapshots.py:73-78 | every selected snapshot is in the listing, its id starts with the root id, and no protected string occurs in its name, ignoring case |
| Selection.UnprotectedDescendantsSelected | virtualbox/vbox-clean-snapshots.py:73-87 | every unprotected snapshot of the subtree other than the root is selected |
| Selection.RootSelectedIffNothingProtected | virtualbox/vbox-clean-snapshots.py:72-87 | the root is selected exactly when no snapshot of its subtree, the root included, is protected |
| Selection.SnapshotChildrenOutcome | virtualbox/vbox-clean-snapshots.py:63-69 | the selection fails exactly when no parsed name matches the root name; otherwise it is the selection below the last matching snapshot |
| Selection.SelectKeepsParentsFirst | virtualbox/vbox-clean-snapshots.py:73-87 | if the listing names ancestors before descendants, so does the selection |
| Selection.PrefixIsNotPathSegment | virtualbox/vbox-clean-snapshots.py:74 | below `SnapshotName-1` the snapshot `SnapshotName-10` is selected too |
| Cleanup.DeletionOrder | virtualbox/vbox-clean-snapshots.py:110-112 | `reversed` keeps the length and puts the k-th last snapshot at position k |
| Cleanup.DeleteSnapshotAndChildren | virtualbox/vbox-clean-snapshots.py:93-121 | the run fails exactly when selection fails; the state is queried and the user asked exactly when the selection is non-empty; with a confirming answer there is one attempt per selected snapshot, in reverse order, whatever the outcomes; otherwise none |
| Cleanup.ConfirmedIff | virtualbox/vbox-clean-snapshots.py:107-108 | the answer confirms exactly when it is `y` or `Y` |
| Cleanup.ChildrenDeletedFirst | virtualbox/vbox-clean-snapshots.py:110-112 | if the listing names ancestors before descendants, no snapshot is deleted before one of its descendants |
| Cleanup.DefaultProtectedList | virtualbox/vbox-clean-snapshots.py:159-164 | the default protected list is `clean` and `done` |
| Cleanup.EmptyProtectedArgumentSelectsNothing | virtualbox/vbox-clean-snapshots.py:162 | `--protected_snapshots ""` becomes `[""]`, and then the selection is empty or the run fails |
| Cleanup.EmptyRootNameNeedsEmptyName | virtualbox/vbox-clean-snapshots.py:154-158 | with the default empty root name, selection succeeds exactly when some snapshot has an empty name |

## Left out

- `run_vboxmanage` for the listing (:55) and for each deletion (:114): process calls into `vboxcommon`, which is not part of this model. They become the listing parameter and the outcome sequence.
- `get_vm_state` (:101) and the warning it drives (:102-105): the state only affects console output, so the model records only that it was queried.
- `input()` (:107): the answer is a parameter.
- All console output (:84, :97-99, :109, :115, :117, :119, :121).
- Argument parsing in `main` (:124-169), apart from the `split(",")` of `--protected_snapshots` and the two defaults.
- The wrapping of every exception at :89-90. The only error modelled is the missing root (:68-69). Listing failures happen in `run_vboxmanage` and are not modelled. The message text at :69 is not modelled either.
- Full Unicode `str.lower()` and Unicode `\d`: ASCII only.
- The "current snapshot" mentioned in the comment at :82: the code does not implement it.
- Cleanup.DeleteSnapshotAndChildren: each attempt records the (id, name) pair, but the deleter receives only the name. The outcome of an attempt is looked up by its position, not by the name.
