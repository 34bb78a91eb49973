/** The human-readable migration notes written next to each new schema
    version: one line per reported change of a field, in the differ's order. */
module MigrationNotes {
  import opened Common

  /** The kinds of change the structural differ reports: a property added,
      a property deleted, a value edited, and a change inside an array. */
  datatype ChangeKind = New | Deleted | Edited | ArrayChange

  /** One step of a change's path: a property name or an array index. */
  datatype PathKey = Key(name: string) | Index(i: nat)

  datatype Change = Change(kind: ChangeKind, path: seq<PathKey>)

  /** A path step as `Array.prototype.join` prints it. */
  function StepText(k: PathKey): string
  {
    match k
    case Key(name) => name
    case Index(i) => NatToString(i)
  }

  /** `path.join('.')`. */
  function PathText(path: seq<PathKey>): string
  {
    Join(seq(|path|, i requires 0 <= i < |path| => StepText(path[i])), ".")
  }

  const AddedPrefix := "Added field: '"
  const RemovedPrefix := "Removed field: '"
  const ChangedPrefix := "Changed field type: '"

  /** Whether a change of this kind gets a note line. */
  predicate IsNoted(kind: ChangeKind)
  {
    kind != ArrayChange
  }

  /** The note line of a change whose kind is noted. */
  function NoteText(c: Change): string
    requires IsNoted(c.kind)
  {
    (match c.kind
     case New => AddedPrefix
     case Deleted => RemovedPrefix
     case Edited => ChangedPrefix) + PathText(c.path) + "'"
  }

  /** The note lines of a list of changes, in list order. */
  function NoteLines(changes: seq<Change>): (lines: seq<string>)
    ensures |lines| <= |changes|
  {
    if |changes| == 0 then []
    else
      var c := changes[|changes| - 1];
      NoteLines(changes[..|changes| - 1]) + (if IsNoted(c.kind) then [NoteText(c)] else [])
  }

  /** The loop that collects the note lines and joins them with newlines. */
  method GenerateMigrationNotes(changes: seq<Change>) returns (notes: string)
    ensures notes == Join(NoteLines(changes), "\n")
  {
    var lines: seq<string> := [];
    for k := 0 to |changes|
      invariant lines == NoteLines(changes[..k])
    {
      var c := changes[k];
      if c.kind == New {
        lines := lines + ["Added field: '" + PathText(c.path) + "'"];
      } else if c.kind == Deleted {
        lines := lines + ["Removed field: '" + PathText(c.path) + "'"];
      } else if c.kind == Edited {
        lines := lines + ["Changed field type: '" + PathText(c.path) + "'"];
      }
      assert changes[..k + 1][..k] == changes[..k];
    }
    assert changes[..|changes|] == changes;
    notes := Join(lines, "\n");
  }

  /** Notes of a concatenation are the notes of the parts, concatenated. */
  lemma {:induction false} NoteLinesAppend(a: seq<Change>, b: seq<Change>)
    ensures NoteLines(a + b) == NoteLines(a) + NoteLines(b)
  {
    if |b| == 0 {
      assert a + b == a;
    } else {
      var b' := b[..|b| - 1];
      assert (a + b)[..|a + b| - 1] == a + b';
      NoteLinesAppend(a, b');
    }
  }

  /** Changes inside arrays never produce a line. */
  lemma {:induction false} ArrayChangesSilent(changes: seq<Change>)
    requires forall k :: 0 <= k < |changes| ==> changes[k].kind == ArrayChange
    ensures NoteLines(changes) == []
  {
    if |changes| > 0 {
      ArrayChangesSilent(changes[..|changes| - 1]);
    }
  }

  /** When every change is of a noted kind, line `k` is the note of change `k`. */
  lemma {:induction false} OneLinePerChange(changes: seq<Change>)
    requires forall k :: 0 <= k < |changes| ==> IsNoted(changes[k].kind)
    ensures |NoteLines(changes)| == |changes|
    ensures forall k :: 0 <= k < |changes| ==> NoteLines(changes)[k] == NoteText(changes[k])
  {
    if |changes| > 0 {
      OneLinePerChange(changes[..|changes| - 1]);
    }
  }

  /** A path without newlines in its names prints without newlines. */
  lemma PathTextHasNoNewline(path: seq<PathKey>)
    requires forall k :: 0 <= k < |path| ==> path[k].Key? ==> '\n' !in path[k].name
    ensures '\n' !in PathText(path)
  {
    var steps := seq(|path|, i requires 0 <= i < |path| => StepText(path[i]));
    forall k | 0 <= k < |steps| ensures '\n' !in steps[k] {
      if path[k].Index? {
        var t := NatToString(path[k].i);
        assert forall j :: 0 <= j < |t| ==> t[j] != '\n';
      }
    }
    JoinExcludes(steps, ".", '\n');
  }

  /** Splitting the notes at newlines gives the note lines back, as long as
      there is at least one line and no property name holds a newline. */
  lemma NotesSplitIntoLines(changes: seq<Change>)
    requires |NoteLines(changes)| >= 1
    requires forall c, k :: c in changes && 0 <= k < |c.path| && c.path[k].Key? ==> '\n' !in c.path[k].name
    ensures Split(Join(NoteLines(changes), "\n"), '\n') == NoteLines(changes)
  {
    NoteLinesHaveNoNewline(changes);
    SplitOfJoin(NoteLines(changes), '\n');
  }

  lemma {:induction false} NoteLinesHaveNoNewline(changes: seq<Change>)
    requires forall c, k :: c in changes && 0 <= k < |c.path| && c.path[k].Key? ==> '\n' !in c.path[k].name
    ensures forall k :: 0 <= k < |NoteLines(changes)| ==> '\n' !in NoteLines(changes)[k]
  {
    if |changes| > 0 {
      var c := changes[|changes| - 1];
      var init := changes[..|changes| - 1];
      assert forall x :: x in init ==> x in changes;
      NoteLinesHaveNoNewline(init);
      if IsNoted(c.kind) {
        PathTextHasNoNewline(c.path);
      }
    }
  }

  /** The differ locates a change by array position and property, so an
      edited `type` of the first field reads `0.type`; the array change in
      between gives no line. */
  lemma NotesExample()
    ensures Join(NoteLines([
        Change(Edited, [Index(0), Key("type")]),
        Change(ArrayChange, [Index(2)]),
        Change(Deleted, [Index(1), Key("name")])]), "\n")
      == "Changed field type: '0.type'\nRemoved field: '1.name'"
  {
    var c1 := Change(Edited, [Index(0), Key("type")]);
    var c2 := Change(ArrayChange, [Index(2)]);
    var c3 := Change(Deleted, [Index(1), Key("name")]);
    ExampleLines(c1, c2, c3);
    JoinTwo("Changed field type: '0.type'", "Removed field: '1.name'", "\n");
  }

  lemma ExampleLines(c1: Change, c2: Change, c3: Change)
    requires c1 == Change(Edited, [Index(0), Key("type")])
    requires c2 == Change(ArrayChange, [Index(2)])
    requires c3 == Change(Deleted, [Index(1), Key("name")])
    ensures NoteLines([c1, c2, c3]) == ["Changed field type: '0.type'", "Removed field: '1.name'"]
  {
    PathExample(0, "type");
    PathExample(1, "name");
    assert [DigitChar(0)] == "0" && [DigitChar(1)] == "1";
    assert NoteText(c1) == "Changed field type: '0.type'";
    assert NoteText(c3) == "Removed field: '1.name'";
    NoteLinesAppend([c1], [c2]);
    NoteLinesAppend([c1, c2], [c3]);
    assert [c1] + [c2] == [c1, c2];
    assert [c1, c2] + [c3] == [c1, c2, c3];
    assert NoteLines([c1]) == [NoteText(c1)];
    assert NoteLines([c2]) == [] by { assert [c2][..0] == []; }
    assert NoteLines([c3]) == [NoteText(c3)];
  }

  lemma PathExample(d: nat, name: string)
    requires d < 10
    ensures PathText([Index(d), Key(name)]) == [DigitChar(d)] + "." + name
  {
    var path := [Index(d), Key(name)];
    var steps := seq(2, i requires 0 <= i < 2 => StepText(path[i]));
    assert NatToString(d) == [DigitChar(d)];
    assert steps == [[DigitChar(d)], name];
    assert steps[1..] == [name];
    assert Join(steps[1..], ".") == name;
    assert Join(steps, ".") == steps[0] + "." + Join(steps[1..], ".");
  }
}
