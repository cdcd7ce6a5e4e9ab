/**
 * `Main` of Backup/Program_no_lib.cs: for each scene file, scan its lines
 * for GameObject and Transform records, then dump the root GameObject.
 */
module NoLibProgram {
  import opened Wrappers
  import opened Streams
  import opened GameObjectTree
  import opened SceneScan
  import opened SceneReading

  /**
   * The nested `while ((line = reader.ReadLine()) != null)` loops. The reader
   * is one cursor shared by both loops, and `gameObject` is declared null
   * afresh at the top of every outer iteration.
   */
  method ScanScene(lines: seq<string>) returns (outcome: Outcome)
    ensures outcome == Scan(NoLib, lines)
  {
    var reader := new LineReader(lines);
    var records: seq<Record> := [];
    ghost var whole := Scan(NoLib, lines);
    ScanStepStart(NoLib, lines);
    while true
      invariant reader.Valid() && reader.lines == lines
      invariant ScanResumesAt(NoLib, whole, lines, records, reader.pos)
      decreases |lines| - reader.pos
    {
      ghost var here := reader.pos;
      var line := reader.ReadLine();
      if line.None? {
        break;
      }
      var gameObject: Option<GameObject> := None;
      if IsGameObjectHeader(line.value) {
        gameObject := Some(NewGameObject());
        // line.Split(' ')[2], then int.Parse of it without its first character
        var gameObjectIdInt;
        match HeaderId(line.value) {
          case Err(fault) =>
            ScanStepCrash(NoLib, whole, lines, records, here);
            return Outcome(records, Crash(fault));
          case Ok(id) =>
            gameObjectIdInt := id;
        }
        ghost var nameStart := reader.pos;
        var search := SearchName(NoLib, reader);
        if search.Named? {
          // the name as NameValue cuts it from the m_Name line
          gameObject := Some(gameObject.value.(name := Some(search.name)));
        }
        ScanStepGameObject(NoLib, whole, lines, records, here, Record(gameObjectIdInt, search), reader.pos - nameStart);
        records := records + [Record(gameObjectIdInt, search)];
      } else if IsTransformHeader(line.value) {
        if gameObject == None {
          ScanStepTransform(NoLib, whole, lines, records, here);
          return Outcome(records, TransformWithoutGameObject);
        }
        // The id parse, the m_Father search and `Children.Add` below the test are dead code.
        assert false;
      } else {
        ScanStepInert(NoLib, whole, lines, records, here);
      }
    }
    ScanStepEnd(NoLib, whole, lines, records);
    outcome := Outcome(records, EndOfInput);
  }

  /**
   * One iteration of the loop over scene files: a fresh root, the scan, then
   * the dump of the root, which the scan never changes. An exception in
   * the scan ends `Main` before the dump file is created.
   */
  method ProcessScene(lines: seq<string>) returns (outcome: Outcome, dump: Option<string>)
    ensures outcome == Scan(NoLib, lines)
    ensures dump == if outcome.stop.Crash? then None else Some("Name" + NewLine)
  {
    var rootGameObject := NewGameObject();
    outcome := ScanScene(lines);
    if outcome.stop.Crash? {
      return outcome, None;
    }
    var outputFile := new TextWriter();
    WriteToFile(rootGameObject, outputFile, 0);
    DumpOfLeaf(rootGameObject, 0);
    RenderOne("Name");
    assert outputFile.text == "" + Render(["Name"]);
    assert outputFile.text == "Name" + NewLine;
    dump := Some(outputFile.text);
  }

  /**
   * The `for` loop over all scene files: one dump per file, each the single
   * line `Name`, until the first file whose scan throws.
   */
  method DumpScenes(scenes: seq<seq<string>>) returns (dumps: seq<string>)
    ensures |dumps| == ScenesBeforeCrash(NoLib, scenes)
    ensures forall i :: 0 <= i < |dumps| ==> dumps[i] == "Name" + NewLine
  {
    dumps := [];
    var i := 0;
    while i < |scenes|
      invariant i == |dumps| <= ScenesBeforeCrash(NoLib, scenes)
      invariant forall j :: 0 <= j < i ==> dumps[j] == "Name" + NewLine
    {
      var outcome, dump := ProcessScene(scenes[i]);
      if dump.None? {
        return;
      }
      dumps := dumps + [dump.value];
      i := i + 1;
    }
  }
}
