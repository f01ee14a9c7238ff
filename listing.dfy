/** Parsing the machine-readable snapshot listing that
    `VBoxManage snapshot <vm> list --machinereadable` prints. The only lines
    that matter have the shape

      SnapshotName-1-1="Snapshot 2"

    where the key `SnapshotName` followed by zero or more `-<digits>` groups is
    the snapshot's id (its position in the tree) and the quoted text is its
    name. The source finds them with one multi-line regular expression; here
    the text is cut into lines at '\n' and each line is scanned by hand. A
    match of that expression starts at a line start and cannot run past a
    '\n', so there is at most one snapshot per line. Digits are ASCII digits. */
module Listing {
  import opened Wrappers
  import opened Text

  /** One snapshot of the tree: its hierarchical id and its display name. */
  datatype Snapshot = Snapshot(id: string, name: string)

  /** The key every snapshot id starts with. */
  const NAME_KEY: string := "SnapshotName"

  /** What separates the key from the quoted name. */
  const KEY_END: string := "=\""

  predicate IsDigit(c: char) { '0' <= c <= '9' }

  /** A character that may occur in an id suffix. */
  predicate IsIdChar(c: char) { c == '-' || IsDigit(c) }

  /** `(-\d+)*`: nothing, or groups of a dash followed by at least one digit. */
  predicate IsIdSuffix(t: string)
  {
    (forall i :: 0 <= i < |t| ==> IsIdChar(t[i])) &&
    (t != [] ==> t[0] == '-') &&
    (forall i :: 0 <= i < |t| && t[i] == '-' ==> i + 1 < |t| && IsDigit(t[i + 1]))
  }

  /** `SnapshotName(-\d+)*`: a well-formed snapshot id. */
  predicate IsSnapshotId(id: string)
  {
    NAME_KEY <= id && IsIdSuffix(id[|NAME_KEY|..])
  }

  /** Length of the longest prefix of `s` made of id characters. */
  function IdCharSpan(s: string): (n: nat)
    ensures n <= |s|
    ensures forall i :: 0 <= i < n ==> IsIdChar(s[i])
    ensures n < |s| ==> !IsIdChar(s[n])
  {
    if s != [] && IsIdChar(s[0]) then 1 + IdCharSpan(s[1..]) else 0
  }

  /** Position of the first double quote in `s`, or `|s|` if there is none. */
  function QuoteSpan(s: string): (n: nat)
    ensures n <= |s|
    ensures forall i :: 0 <= i < n ==> s[i] != '"'
    ensures n < |s| ==> s[n] == '"'
  {
    if s != [] && s[0] != '"' then 1 + QuoteSpan(s[1..]) else 0
  }

  /** The id at the start of a line, as its length, when it is followed by
      `="`. The id characters after the key can only be followed by `="` at
      the end of their longest run, so no backtracking is needed. */
  function IdLength(line: string): Option<nat>
  {
    if !(NAME_KEY <= line) then None
    else
      var m := |NAME_KEY| + IdCharSpan(line[|NAME_KEY|..]);
      if IsIdSuffix(line[|NAME_KEY|..m]) && KEY_END <= line[m..] then Some(m) else None
  }

  /** `(.*?)"`: the text up to the first quote, when there is one. */
  function QuotedValue(v: string): Option<string>
  {
    var q := QuoteSpan(v);
    if q == |v| then None else Some(v[..q])
  }

  /** The regular expression `(^SnapshotName(?:-\d+)*)=\"(.*?)\"` applied at
      the start of one line. */
  function ParseLine(line: string): Option<Snapshot>
  {
    match IdLength(line)
    case None => None
    case Some(m) =>
      match QuotedValue(line[m + |KEY_END|..])
      case None => None
      case Some(name) => Some(Snapshot(line[..m], name))
  }

  /** The line a lister prints for one snapshot. */
  function RenderLine(s: Snapshot): string
  {
    s.id + KEY_END + s.name + "\""
  }

  /** One (id, name) pair per matching line, in listing order. */
  function ParseLines(lines: seq<string>): seq<Snapshot>
  {
    if lines == [] then []
    else
      match ParseLine(lines[0])
      case Some(s) => [s] + ParseLines(lines[1..])
      case None => ParseLines(lines[1..])
  }

  /** `re.findall` of the snapshot pattern over the whole listing. */
  function ParseListing(listing: string): seq<Snapshot>
  {
    ParseLines(Split(listing, '\n'))
  }

  /** A snapshot the lister can print and the parser can read back. */
  predicate Printable(s: Snapshot)
  {
    IsSnapshotId(s.id) && '"' !in s.name && '\n' !in s.name
  }

  /** A listing made only of snapshot lines, one per snapshot. */
  function Render(snaps: seq<Snapshot>): string
  {
    Join(RenderLines(snaps), '\n')
  }

  function RenderLines(snaps: seq<Snapshot>): (r: seq<string>)
    ensures |r| == |snaps|
    ensures forall k :: 0 <= k < |snaps| ==> r[k] == RenderLine(snaps[k])
  {
    if snaps == [] then [] else [RenderLine(snaps[0])] + RenderLines(snaps[1..])
  }

  /** A line yields a snapshot exactly when it begins with a well-formed id,
      `="`, a quote-free name and a closing quote; whatever follows the
      closing quote is ignored. */
  lemma ParseLineIff(line: string, s: Snapshot)
    ensures ParseLine(line) == Some(s) <==>
            IsSnapshotId(s.id) && '"' !in s.name && RenderLine(s) <= line
  {
    if ParseLine(line) == Some(s) {
      ParseLineSound(line, s);
    }
    if IsSnapshotId(s.id) && '"' !in s.name && RenderLine(s) <= line {
      ParseLineComplete(line, s);
    }
  }

  lemma IdLengthSound(line: string, m: nat)
    requires IdLength(line) == Some(m)
    ensures m <= |line| && IsSnapshotId(line[..m]) && line[..m] + KEY_END <= line
  {
  }

  lemma IdLengthComplete(line: string, id: string)
    requires IsSnapshotId(id) && id + KEY_END <= line
    ensures IdLength(line) == Some(|id|)
  {
    var n := |NAME_KEY|;
    var suffix := id[n..];
    var rest := line[n..];
    assert rest[..|suffix|] == suffix;
    assert rest[|suffix|] == '=';
    var k := IdCharSpan(rest);
    assert k == |suffix|;
    assert line[n..n + k] == suffix;
    assert line[n + k..][..2] == KEY_END;
  }

  lemma QuotedValueIff(v: string, name: string)
    ensures QuotedValue(v) == Some(name) <==> '"' !in name && name + "\"" <= v
  {
    var q := QuoteSpan(v);
    if QuotedValue(v) == Some(name) {
      assert name == v[..q];
      assert forall i :: 0 <= i < |name| ==> name[i] == v[i];
    }
    if '"' !in name && name + "\"" <= v {
      assert v[|name|] == '"';
      assert q == |name|;
      assert v[..q] == name;
    }
  }

  lemma ParseLineSound(line: string, s: Snapshot)
    requires ParseLine(line) == Some(s)
    ensures IsSnapshotId(s.id) && '"' !in s.name && RenderLine(s) <= line
  {
    IdLengthSound(line, |s.id|);
  }

  lemma ParseLineComplete(line: string, s: Snapshot)
    requires IsSnapshotId(s.id) && '"' !in s.name && RenderLine(s) <= line
    ensures ParseLine(line) == Some(s)
  {
    assert s.id + KEY_END <= line;
    IdLengthComplete(line, s.id);
    assert line[..|s.id|] == s.id;
    var v := line[|s.id| + 2..];
    assert s.name + "\"" <= v;
    QuotedValueIff(v, s.name);
  }

  /** Lines that do not begin with the name key yield nothing: the UUID and
      current-snapshot lines of the listing are ignored. */
  lemma MetadataLineIgnored(line: string)
    requires "SnapshotUUID" <= line || "CurrentSnapshot" <= line
    ensures ParseLine(line) == None
  {
    if "SnapshotUUID" <= line {
      assert line[8] == 'U';
    } else {
      assert line[0] == 'C';
    }
  }

  /** Every parsed id is a well-formed snapshot id, so none is empty, and no
      parsed name holds a quote. */
  lemma {:induction false} ParsedAreWellFormed(lines: seq<string>)
    ensures forall k :: 0 <= k < |ParseLines(lines)| ==>
              IsSnapshotId(ParseLines(lines)[k].id) && ParseLines(lines)[k].id != [] &&
              '"' !in ParseLines(lines)[k].name
  {
    if lines != [] {
      ParsedAreWellFormed(lines[1..]);
      match ParseLine(lines[0])
      case Some(s) =>
        ParseLineIff(lines[0], s);
      case None =>
    }
  }

  lemma {:induction false} ParseRenderLines(snaps: seq<Snapshot>)
    requires forall k :: 0 <= k < |snaps| ==> Printable(snaps[k])
    ensures ParseLines(RenderLines(snaps)) == snaps
  {
    if snaps != [] {
      ParseLineIff(RenderLine(snaps[0]), snaps[0]);
      assert RenderLines(snaps)[1..] == RenderLines(snaps[1..]);
      ParseRenderLines(snaps[1..]);
    }
  }

  /** Parsing a listing made only of snapshot lines gives the snapshots
      back, in order. */
  lemma ParseRender(snaps: seq<Snapshot>)
    requires forall k :: 0 <= k < |snaps| ==> Printable(snaps[k])
    ensures ParseListing(Render(snaps)) == snaps
  {
    var lines := RenderLines(snaps);
    if snaps == [] {
      assert Render(snaps) == [];
    } else {
      forall k | 0 <= k < |lines| ensures '\n' !in lines[k] {
        var s := snaps[k];
        assert lines[k] == s.id + KEY_END + s.name + "\"";
        IdHasNoNewline(s.id);
      }
      SplitJoin(lines, '\n');
      ParseRenderLines(snaps);
    }
  }

  // ---------------------------------------------------------------------
  // The full machine-readable listing: every snapshot line is followed by
  // its UUID line, and the current snapshot's lines come after it.

  /** `SnapshotUUID<suffix>="<uuid>"`, the line after a snapshot's line: its
      key is the id with `SnapshotName` replaced by `SnapshotUUID`. */
  function UuidLine(s: Snapshot, uuid: string): string
  {
    var suffix := if NAME_KEY <= s.id then s.id[|NAME_KEY|..] else s.id;
    "SnapshotUUID" + suffix + KEY_END + uuid + "\""
  }

  /** The three lines naming the current snapshot. */
  function CurrentLines(s: Snapshot, uuid: string): seq<string>
  {
    ["CurrentSnapshotName=\"" + s.name + "\"",
     "CurrentSnapshotUUID=\"" + uuid + "\"",
     "CurrentSnapshotNode=\"" + s.id + "\""]
  }

  /** Each snapshot line followed by the lines that belong to it. */
  function Interleave(snaps: seq<Snapshot>, extras: seq<seq<string>>): (r: seq<string>)
    requires |extras| == |snaps|
    ensures r == [] <==> snaps == []
  {
    if snaps == [] then [] else [RenderLine(snaps[0])] + extras[0] + Interleave(snaps[1..], extras[1..])
  }

  /** The lines after one snapshot's line: its UUID line, then the
      current-snapshot lines when it is the current one. */
  function Following(s: Snapshot, uuid: string, isCurrent: bool): seq<string>
  {
    [UuidLine(s, uuid)] + (if isCurrent then CurrentLines(s, uuid) else [])
  }

  /** The lines that follow each snapshot in the machine-readable listing. */
  function FollowingLines(snaps: seq<Snapshot>, uuids: seq<string>, current: Option<nat>): (r: seq<seq<string>>)
    requires |uuids| == |snaps|
    ensures |r| == |snaps|
    ensures forall k :: 0 <= k < |snaps| ==> r[k] == Following(snaps[k], uuids[k], current == Some(k))
  {
    seq(|snaps|, k requires 0 <= k < |snaps| => Following(snaps[k], uuids[k], current == Some(k)))
  }

  /** What `VBoxManage snapshot <vm> list --machinereadable` prints for the
      snapshots in tree order, their UUIDs and the position of the current
      snapshot, if any. */
  function MachineReadable(snaps: seq<Snapshot>, uuids: seq<string>, current: Option<nat>): string
    requires |uuids| == |snaps|
  {
    Join(Interleave(snaps, FollowingLines(snaps, uuids, current)), '\n')
  }

  /** The first line contributes its snapshot, if any, ahead of the rest. */
  lemma ParseLinesHead(lines: seq<string>)
    requires lines != []
    ensures ParseLines(lines) ==
            (if ParseLine(lines[0]).Some? then [ParseLine(lines[0]).value] else []) + ParseLines(lines[1..])
  {
  }

  /** Parsing distributes over concatenation of line sequences. */
  lemma {:induction false} ParseLinesAppend(a: seq<string>, b: seq<string>)
    ensures ParseLines(a + b) == ParseLines(a) + ParseLines(b)
  {
    var ab := a + b;
    if a == [] {
      assert ab == b;
    } else {
      assert ab[0] == a[0] && ab[1..] == a[1..] + b;
      ParseLinesAppend(a[1..], b);
      match ParseLine(a[0])
      case Some(s) =>
        assert ParseLines(ab) == [s] + ParseLines(ab[1..]);
      case None =>
        assert ParseLines(ab) == ParseLines(ab[1..]);
    }
  }

  /** Lines that yield nothing can be placed anywhere without changing what
      is parsed. */
  lemma {:induction false} SkipsOtherLines(others: seq<string>, lines: seq<string>)
    requires forall k :: 0 <= k < |others| ==> ParseLine(others[k]) == None
    ensures ParseLines(others + lines) == ParseLines(lines)
  {
    if others == [] {
      assert others + lines == lines;
    } else {
      assert (others + lines)[0] == others[0] && (others + lines)[1..] == others[1..] + lines;
      SkipsOtherLines(others[1..], lines);
      ParseLinesHead(others + lines);
    }
  }

  /** Snapshot lines with arbitrary lines that yield nothing after each of
      them parse to the snapshots alone. */
  lemma {:induction false} ParseInterleave(snaps: seq<Snapshot>, extras: seq<seq<string>>)
    requires |extras| == |snaps|
    requires forall k :: 0 <= k < |snaps| ==> Printable(snaps[k])
    requires forall k, j :: 0 <= k < |extras| && 0 <= j < |extras[k]| ==> ParseLine(extras[k][j]) == None
    ensures ParseLines(Interleave(snaps, extras)) == snaps
  {
    if snaps != [] {
      var rest := Interleave(snaps[1..], extras[1..]);
      var tail := extras[0] + rest;
      assert Interleave(snaps, extras) == [RenderLine(snaps[0])] + tail;
      ParseInterleave(snaps[1..], extras[1..]);
      assert forall j :: 0 <= j < |extras[0]| ==> ParseLine(extras[0][j]) == None;
      SkipsOtherLines(extras[0], rest);
      ParseRenderedLine(snaps[0], tail);
    }
  }

  /** A rendered snapshot line at the front contributes exactly its
      snapshot. */
  lemma ParseRenderedLine(s: Snapshot, rest: seq<string>)
    requires Printable(s)
    ensures ParseLines([RenderLine(s)] + rest) == [s] + ParseLines(rest)
  {
    var lines := [RenderLine(s)] + rest;
    ParseLineIff(RenderLine(s), s);
    assert lines[0] == RenderLine(s) && lines[1..] == rest;
  }

  /** A well-formed id has no line break. */
  lemma IdHasNoNewline(id: string)
    requires IsSnapshotId(id)
    ensures '\n' !in id
  {
    forall i | 0 <= i < |id| ensures id[i] != '\n' {
      if i >= |NAME_KEY| {
        assert id[i] == id[|NAME_KEY|..][i - |NAME_KEY|];
      } else {
        assert id[i] == NAME_KEY[i];
      }
    }
  }

  /** A snapshot's UUID line yields nothing and holds no line break. */
  lemma UuidLineIgnored(s: Snapshot, uuid: string)
    requires Printable(s) && '\n' !in uuid
    ensures ParseLine(UuidLine(s, uuid)) == None && '\n' !in UuidLine(s, uuid)
  {
    IdHasNoNewline(s.id);
    var suffix := s.id[|NAME_KEY|..];
    assert '\n' !in suffix by {
      forall i | 0 <= i < |suffix| ensures suffix[i] != '\n' {
        assert suffix[i] == s.id[|NAME_KEY| + i];
      }
    }
    var line := UuidLine(s, uuid);
    assert line == "SnapshotUUID" + suffix + KEY_END + uuid + "\"";
    assert "SnapshotUUID" <= line;
    MetadataLineIgnored(line);
  }

  /** The current-snapshot lines yield nothing and hold no line break. */
  lemma CurrentLinesIgnored(s: Snapshot, uuid: string)
    requires Printable(s) && '\n' !in uuid
    ensures forall j :: 0 <= j < |CurrentLines(s, uuid)| ==>
              ParseLine(CurrentLines(s, uuid)[j]) == None && '\n' !in CurrentLines(s, uuid)[j]
  {
    IdHasNoNewline(s.id);
    var lines := CurrentLines(s, uuid);
    forall j | 0 <= j < 3 ensures ParseLine(lines[j]) == None && '\n' !in lines[j] {
      assert "CurrentSnapshot" <= lines[j];
      MetadataLineIgnored(lines[j]);
    }
  }

  /** The UUID and current-snapshot lines after a printable snapshot yield
      nothing and hold no line break. */
  lemma FollowingIgnored(s: Snapshot, uuid: string, isCurrent: bool)
    requires Printable(s) && '\n' !in uuid
    ensures forall j :: 0 <= j < |Following(s, uuid, isCurrent)| ==>
              ParseLine(Following(s, uuid, isCurrent)[j]) == None && '\n' !in Following(s, uuid, isCurrent)[j]
  {
    UuidLineIgnored(s, uuid);
    CurrentLinesIgnored(s, uuid);
    var lines := Following(s, uuid, isCurrent);
    forall j | 0 <= j < |lines| ensures ParseLine(lines[j]) == None && '\n' !in lines[j] {
      if j > 0 {
        assert lines[j] == CurrentLines(s, uuid)[j - 1];
      }
    }
  }

  lemma FollowingLinesIgnored(snaps: seq<Snapshot>, uuids: seq<string>, current: Option<nat>)
    requires |uuids| == |snaps|
    requires forall k :: 0 <= k < |snaps| ==> Printable(snaps[k]) && '\n' !in uuids[k]
    ensures forall k, j :: 0 <= k < |snaps| && 0 <= j < |FollowingLines(snaps, uuids, current)[k]| ==>
              ParseLine(FollowingLines(snaps, uuids, current)[k][j]) == None &&
              '\n' !in FollowingLines(snaps, uuids, current)[k][j]
  {
    var extras := FollowingLines(snaps, uuids, current);
    forall k | 0 <= k < |snaps|
      ensures forall j :: 0 <= j < |extras[k]| ==> ParseLine(extras[k][j]) == None && '\n' !in extras[k][j]
    {
      FollowingIgnored(snaps[k], uuids[k], current == Some(k));
    }
  }

  /** Parsing the full machine-readable listing gives the snapshots back, in
      order: the UUID and current-snapshot lines are ignored. */
  lemma ParseMachineReadable(snaps: seq<Snapshot>, uuids: seq<string>, current: Option<nat>)
    requires |uuids| == |snaps|
    requires forall k :: 0 <= k < |snaps| ==> Printable(snaps[k]) && '\n' !in uuids[k]
    ensures ParseListing(MachineReadable(snaps, uuids, current)) == snaps
  {
    var extras := FollowingLines(snaps, uuids, current);
    var lines := Interleave(snaps, extras);
    FollowingLinesIgnored(snaps, uuids, current);
    ParseInterleave(snaps, extras);
    if snaps == [] {
      assert MachineReadable(snaps, uuids, current) == [];
    } else {
      InterleaveHasNoNewline(snaps, extras);
      SplitJoin(lines, '\n');
    }
  }

  lemma {:induction false} InterleaveHasNoNewline(snaps: seq<Snapshot>, extras: seq<seq<string>>)
    requires |extras| == |snaps|
    requires forall k :: 0 <= k < |snaps| ==> Printable(snaps[k])
    requires forall k, j :: 0 <= k < |extras| && 0 <= j < |extras[k]| ==> '\n' !in extras[k][j]
    ensures forall k :: 0 <= k < |Interleave(snaps, extras)| ==> '\n' !in Interleave(snaps, extras)[k]
  {
    if snaps != [] {
      InterleaveHasNoNewline(snaps[1..], extras[1..]);
      IdHasNoNewline(snaps[0].id);
      var line := RenderLine(snaps[0]);
      assert line == snaps[0].id + KEY_END + snaps[0].name + "\"";
      var rest := Interleave(snaps[1..], extras[1..]);
      var lines := [line] + extras[0] + rest;
      assert Interleave(snaps, extras) == lines;
      forall k | 0 <= k < |lines| ensures '\n' !in lines[k] {
        if k == 0 {
          assert lines[k] == line;
        } else if k <= |extras[0]| {
          assert lines[k] == extras[0][k - 1];
        } else {
          assert lines[k] == rest[k - 1 - |extras[0]|];
        }
      }
    }
  }
}
