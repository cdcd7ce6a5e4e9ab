/**
 * The inner `while ((line = reader.ReadLine()) != null)` loop both scanners
 * run after a GameObject header: read on through the shared reader until a
 * record boundary or an m_Name line, consuming that line too.
 */
module SceneReading {
  import opened Wrappers
  import opened Streams
  import opened SceneScan

  /** The search for m_Name: what it found, with the reader left just past the line that ended it. */
  method SearchName(v: Version, reader: LineReader) returns (search: NameSearch)
    requires reader.Valid()
    modifies reader
    ensures reader.Valid()
    ensures search == SeekName(v, reader.lines[old(reader.pos)..]).0
    ensures reader.pos == old(reader.pos) + SeekName(v, reader.lines[old(reader.pos)..]).1
  {
    ghost var start := reader.pos;
    while true
      invariant reader.Valid() && start <= reader.pos
      invariant forall k :: start <= k < reader.pos ==> IsFieldFiller(reader.lines[k])
      decreases |reader.lines| - reader.pos
    {
      ghost var here := reader.pos;
      var line := reader.ReadLine();
      if line.None? {
        SeekSkipsFillers(v, reader.lines, start, here);
        SeekStepStop(v, reader.lines, here);
        return HitEnd;
      }
      if IsBoundary(line.value) {
        SeekSkipsFillers(v, reader.lines, start, here);
        SeekStepStop(v, reader.lines, here);
        return HitBoundary;
      }
      if IsNameLine(line.value) {
        SeekSkipsFillers(v, reader.lines, start, here);
        SeekStepStop(v, reader.lines, here);
        return Named(NameValue(v, line.value));
      }
    }
  }
}
