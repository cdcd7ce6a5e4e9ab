/**
 * `Main` of tool/Program.cs: the same scanner as the NoLib program, with its
 * own record shapes, the name cut as `line[10..]`, and the dump file
 * created before the scan and never written to.
 */
module ToolProgram {
  import opened Wrappers
  import opened Streams
  import opened SceneScan
  import opened SceneReading

  /** `class Transform`: a file id and an optional list of child Transforms. */
  datatype Transform = Transform(fileId: int, children: Option<seq<Transform>>)

  /** `class GameObject` of this program: an optional name and an optional list of components. */
  datatype GameObject = GameObject(name: Option<string>, components: Option<seq<Transform>>)

  /** `new GameObject()`: both properties null. */
  function NewGameObject(): GameObject {
    GameObject(None, None)
  }

  /**
   * The nested `while ((line = reader.ReadLine()) != null)` loops. Besides
   * the outcome it returns the `gameObjects` list, which nothing ever adds to.
   */
  method ScanScene(lines: seq<string>) returns (outcome: Outcome, gameObjects: seq<GameObject>)
    ensures outcome == Scan(Tool, lines)
    ensures gameObjects == []
  {
    gameObjects := [];
    var reader := new LineReader(lines);
    var records: seq<Record> := [];
    ghost var whole := Scan(Tool, lines);
    ScanStepStart(Tool, lines);
    while true
      invariant reader.Valid() && reader.lines == lines
      invariant ScanResumesAt(Tool, whole, lines, records, reader.pos)
      decreases |lines| - reader.pos
    {
      ghost var here := reader.pos;
      var line := reader.ReadLine();
      if line.None? {
        break;
      }
      var gameObject: Option<GameObject> := None;
      if IsGameObjectHeader(line.value) {
        gameObject := Some(NewGameObject());
        // line.Split(' ')[2], then int.Parse of it without its first character
        var gameObjectIdInt;
        match HeaderId(line.value) {
          case Err(fault) =>
            ScanStepCrash(Tool, whole, lines, records, here);
            return Outcome(records, Crash(fault)), gameObjects;
          case Ok(id) =>
            gameObjectIdInt := id;
        }
        ghost var nameStart := reader.pos;
        var search := SearchName(Tool, reader);
        if search.Named? {
          // the name as NameValue cuts it from the m_Name line
          gameObject := Some(gameObject.value.(name := Some(search.name)));
        }
        ScanStepGameObject(Tool, whole, lines, records, here, Record(gameObjectIdInt, search), reader.pos - nameStart);
        records := records + [Record(gameObjectIdInt, search)];
      } else if IsTransformHeader(line.value) {
        if gameObject == None {
          ScanStepTransform(Tool, whole, lines, records, here);
          return Outcome(records, TransformWithoutGameObject), gameObjects;
        }
        // `new Transform()`, the id parse and the m_Children search below the test are dead code.
        assert false;
      } else {
        ScanStepInert(Tool, whole, lines, records, here);
      }
    }
    ScanStepEnd(Tool, whole, lines, records);
    outcome := Outcome(records, EndOfInput);
  }

  /**
   * One iteration of the loop over scene files. The dump file is created
   * before the scan, and the only WriteLine into it is in the dead Transform
   * branch, so it always ends up empty, even when the scan throws.
   */
  method ProcessScene(lines: seq<string>) returns (outcome: Outcome, dump: string)
    ensures outcome == Scan(Tool, lines)
    ensures dump == ""
  {
    var outputFile := new TextWriter();
    var gameObjects;
    outcome, gameObjects := ScanScene(lines);
    dump := outputFile.text;
  }

  /**
   * The `for` loop over all scene files: an empty dump per file up to and
   * including the first file whose scan throws, then nothing more.
   */
  method DumpScenes(scenes: seq<seq<string>>) returns (dumps: seq<string>)
    ensures |dumps| == if ScenesBeforeCrash(Tool, scenes) < |scenes| then ScenesBeforeCrash(Tool, scenes) + 1 else |scenes|
    ensures forall i :: 0 <= i < |dumps| ==> dumps[i] == ""
  {
    dumps := [];
    var i := 0;
    while i < |scenes|
      invariant i == |dumps| <= ScenesBeforeCrash(Tool, scenes)
      invariant forall j :: 0 <= j < i ==> dumps[j] == ""
    {
      var outcome, dump := ProcessScene(scenes[i]);
      dumps := dumps + [dump];
      if outcome.stop.Crash? {
        return;
      }
      i := i + 1;
    }
  }
}
