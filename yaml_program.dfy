/**
 * `Main` of Backup/Program.cs: each scene is handed to the YAML library,
 * the keys of its first component are listed, and the root GameObject,
 * which nothing ever adds to, is dumped.
 */
module YamlProgram {
  import opened Wrappers
  import opened Streams
  import opened GameObjectTree

  /** One entry of the first component's mapping, as the two casts to YamlScalarNode see it. */
  datatype Entry =
    | Scalars(key: string, value: string)   // both casts succeed
    | NotScalar                             // a cast throws InvalidCastException

  /**
   * What the YAML library yields for one scene file: the entries of the
   * first component, or None when loading or one of the casts and indexings
   * before the loop throws.
   */
  type Component = Option<seq<Entry>>

  predicate AllScalar(entries: seq<Entry>) {
    forall k :: 0 <= k < |entries| ==> entries[k].Scalars?
  }

  /** The values the loop prints as `GameObject: <value>`, up to the first entry whose cast throws. */
  function Reported(entries: seq<Entry>): seq<string> {
    if entries == [] || entries[0].NotScalar? then []
    else (if entries[0].key == "GameObject" then [entries[0].value] else []) + Reported(entries[1..])
  }

  lemma {:induction false} ReportedAppend(entries: seq<Entry>, e: Entry)
    requires AllScalar(entries)
    ensures Reported(entries + [e]) == Reported(entries) + Reported([e])
  {
    if entries == [] {
      assert entries + [e] == [e];
    } else {
      assert (entries + [e])[1..] == entries[1..] + [e];
      ReportedAppend(entries[1..], e);
    }
  }

  /** Every reported value is the value of a `GameObject` key, and there are no more reports than entries. */
  lemma {:induction false} ReportedComeFromGameObjectKeys(entries: seq<Entry>)
    ensures |Reported(entries)| <= |entries|
    ensures forall s :: s in Reported(entries) ==> Scalars("GameObject", s) in entries
  {
    if entries != [] && entries[0].Scalars? {
      ReportedComeFromGameObjectKeys(entries[1..]);
      assert forall e :: e in entries[1..] ==> e in entries;
    }
  }

  /** What a prefix without failing casts reports is the start of the whole report. */
  lemma {:induction false} ReportedPrefix(before: seq<Entry>, after: seq<Entry>)
    requires AllScalar(before)
    ensures Reported(before) <= Reported(before + after)
  {
    if before != [] {
      assert (before + after)[1..] == before[1..] + after;
      forall k | 0 <= k < |before[1..]|
        ensures before[1..][k].Scalars?
      {
        assert before[1..][k] == before[k + 1];
      }
      ReportedPrefix(before[1..], after);
    }
  }

  /**
   * The converse of ReportedComeFromGameObjectKeys: a `GameObject` entry
   * with no failing cast before it is reported, after the values reported
   * for the entries in front of it.
   */
  lemma ReportedInOrder(before: seq<Entry>, e: Entry, after: seq<Entry>)
    requires AllScalar(before)
    requires e.Scalars? && e.key == "GameObject"
    ensures Reported(before) + [e.value] <= Reported(before + [e] + after)
  {
    ReportedAppend(before, e);
    assert Reported([e]) == [e.value] by {
      assert [e][1..] == [];
    }
    forall j | 0 <= j < |before + [e]|
      ensures (before + [e])[j].Scalars?
    {
      if j < |before| {
        assert (before + [e])[j] == before[j];
      }
    }
    ReportedPrefix(before + [e], after);
  }

  /**
   * One iteration of the loop over scene files: a fresh root, the YAML pass,
   * which never touches the root, then the dump of the root. An exception
   * in the YAML pass ends `Main` before the dump file is created.
   */
  method ProcessScene(component: Component) returns (reported: seq<string>, dump: Option<string>)
    ensures component.None? ==> reported == [] && dump == None
    ensures component.Some? ==> reported == Reported(component.value)
    ensures component.Some? ==> dump == if AllScalar(component.value) then Some("Name" + NewLine) else None
  {
    var rootGameObject := NewGameObject();
    reported := [];
    if component.None? {
      return reported, None;
    }
    var entries := component.value;
    var i := 0;
    while i < |entries|
      invariant i <= |entries| && AllScalar(entries[..i])
      invariant reported == Reported(entries[..i])
    {
      if entries[i].NotScalar? {
        ReportedStopsAt(entries, i);
        return reported, None;
      }
      ReportedAppend(entries[..i], entries[i]);
      assert entries[..i + 1] == entries[..i] + [entries[i]];
      if entries[i].key == "GameObject" {
        reported := reported + [entries[i].value];
      }
      i := i + 1;
    }
    assert entries[..i] == entries;
    var outputFile := new TextWriter();
    WriteToFile(rootGameObject, outputFile, 0);
    DumpOfLeaf(rootGameObject, 0);
    RenderOne("Name");
    assert outputFile.text == "" + Render(["Name"]);
    assert outputFile.text == "Name" + NewLine;
    dump := Some(outputFile.text);
  }

  /** The first entry whose cast throws ends the report and rules out the dump. */
  lemma {:induction false} ReportedStopsAt(entries: seq<Entry>, i: nat)
    requires i < |entries| && entries[i].NotScalar? && AllScalar(entries[..i])
    ensures Reported(entries) == Reported(entries[..i]) && !AllScalar(entries)
  {
    if i > 0 {
      assert entries[..i][1..] == entries[1..][..i - 1];
      ReportedStopsAt(entries[1..], i - 1);
    }
  }

  /** Whether the YAML pass over a scene runs to completion. */
  predicate Loads(component: Component) {
    component.Some? && AllScalar(component.value)
  }

  /** The number of leading scenes the YAML pass gets through: `Main` stops at the first it does not. */
  function LoadedBeforeFailure(components: seq<Component>): (n: nat)
    ensures n <= |components|
    ensures forall i :: 0 <= i < n ==> Loads(components[i])
    ensures n < |components| ==> !Loads(components[n])
  {
    if components == [] || !Loads(components[0]) then 0 else 1 + LoadedBeforeFailure(components[1..])
  }

  /**
   * The `for` loop over all scene files: the dump of every scene is the
   * single line `Name`, until the first scene the YAML pass fails on.
   */
  method DumpScenes(components: seq<Component>) returns (dumps: seq<string>)
    ensures |dumps| == LoadedBeforeFailure(components)
    ensures forall i :: 0 <= i < |dumps| ==> dumps[i] == "Name" + NewLine
  {
    dumps := [];
    var i := 0;
    while i < |components|
      invariant i == |dumps| <= LoadedBeforeFailure(components)
      invariant forall j :: 0 <= j < i ==> dumps[j] == "Name" + NewLine
    {
      var reported, dump := ProcessScene(components[i]);
      if dump.None? {
        return;
      }
      dumps := dumps + [dump.value];
      i := i + 1;
    }
  }
}
