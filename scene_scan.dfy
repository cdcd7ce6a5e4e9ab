/**
 * What the line scanner inside `Main` computes, written as functions over
 * the lines the shared reader has not yet returned. Backup/Program_no_lib.cs
 * and tool/Program.cs run the same loop and differ only in how they cut the
 * name out of an `m_Name` line; `Version` picks one of the two.
 */
module SceneScan {
  import opened Wrappers
  import opened Text

  /** Start of a GameObject record; the trailing space keeps `--- !u!114 ` out. */
  const GameObjectHeader: string := "--- !u!1 "
  /** Start of a Transform record; the trailing space keeps `--- !u!43 ` out. */
  const TransformHeader: string := "--- !u!4 "
  /** Start of any record: where the search for a field gives up. */
  const RecordBoundary: string := "--- !u!"
  /** The name field line; exactly 10 characters long. */
  const NameField: string := "  m_Name: "
  /** The parent field line of a Transform record. */
  const FatherField: string := "  m_Father: {fileID: "

  datatype Version = NoLib | Tool

  /** Why a header line makes `Main` throw. */
  datatype Fault =
    | IdTokenMissing   // `lineSplit[2]`: IndexOutOfRangeException
    | IdTokenEmpty     // `gameObjectId[1..]` on "": ArgumentOutOfRangeException
    | IdNotInteger     // int.Parse: FormatException or OverflowException

  /** How the search for the m_Name field of one GameObject ended. */
  datatype NameSearch =
    | Named(name: string)   // "Found GameObject: <name>"
    | HitBoundary           // "... does not contain m_Name. Leaving file..."
    | HitEnd                // input ran out first; nothing is printed

  /** One GameObject header the scanner accepted, as its diagnostics report it. */
  datatype Record = Record(id: int, name: NameSearch)

  /** Why the scan of one file ended. */
  datatype Stop =
    | EndOfInput                  // ReadLine returned null
    | TransformWithoutGameObject  // "Transform does not belong to a GameObject. Leaving file..."
    | Crash(fault: Fault)         // an exception escapes Main

  datatype Outcome = Outcome(records: seq<Record>, stop: Stop)

  function Prepend(records: seq<Record>, o: Outcome): Outcome {
    Outcome(records + o.records, o.stop)
  }

  predicate IsGameObjectHeader(line: string) { StartsWith(line, GameObjectHeader) }
  predicate IsTransformHeader(line: string) { StartsWith(line, TransformHeader) }
  predicate IsBoundary(line: string) { StartsWith(line, RecordBoundary) }
  predicate IsNameLine(line: string) { StartsWith(line, NameField) }

  /** A line the outer loop passes over: neither header prefix. */
  predicate IsInert(line: string) { !IsGameObjectHeader(line) && !IsTransformHeader(line) }

  /** A line the name search passes over: neither a boundary nor an m_Name line. */
  predicate IsFieldFiller(line: string) { !IsBoundary(line) && !IsNameLine(line) }

  /**
   * A character outside the Basic Multilingual Plane: two UTF-16 code units
   * in a C# string, one character here.
   */
  predicate IsSupplementary(c: char) {
    c >= '\U{10000}'
  }

  /**
   * `int.Parse(line.Split(' ')[2][1..])`: the third space-separated token
   * without its first UTF-16 code unit. When the token starts with a
   * supplementary character, `[1..]` removes only its high surrogate, and
   * the lone low surrogate left in front makes int.Parse throw.
   */
  function HeaderId(line: string): Result<int, Fault> {
    var tokens := Split(line, ' ');
    if |tokens| < 3 then Err(IdTokenMissing)
    else if tokens[2] == "" then Err(IdTokenEmpty)
    else if IsSupplementary(tokens[2][0]) then Err(IdNotInteger)
    else match ParseInt32(tokens[2][1..])
      case None => Err(IdNotInteger)
      case Some(n) => Ok(n)
  }

  /**
   * The name cut from an m_Name line. NoLib: `line.Split(":")[1].Trim()`,
   * so anything after a second colon is lost. Tool: `line[10..]`, the rest
   * of the line as it is.
   */
  function NameValue(v: Version, line: string): string
    requires IsNameLine(line)
  {
    match v
    case NoLib =>
      SplitAtSeparator(line, ':', 8);
      Trim(Split(line, ':')[1])
    case Tool => line[|NameField|..]
  }

  /**
   * The inner loop: consume lines until the first boundary or m_Name line
   * (the terminating line is consumed too). Returns how it ended and how many
   * lines it read.
   */
  function SeekName(v: Version, rest: seq<string>): (r: (NameSearch, nat))
    ensures r.1 <= |rest|
  {
    if rest == [] then (HitEnd, 0)
    else if IsBoundary(rest[0]) then (HitBoundary, 1)
    else if IsNameLine(rest[0]) then (Named(NameValue(v, rest[0])), 1)
    else
      var (r, k) := SeekName(v, rest[1..]);
      (r, k + 1)
  }

  /**
   * What the name search read: only filler lines before the one that ended
   * it, which is a boundary for HitBoundary and an m_Name line (that is not
   * a boundary) for Named, whose name it carries; HitEnd read everything.
   */
  lemma {:induction false} SeekNameStops(v: Version, rest: seq<string>)
    ensures var (r, n) := SeekName(v, rest);
            && (forall k :: 0 <= k < (if r.HitEnd? then n else n - 1) ==> IsFieldFiller(rest[k]))
            && (r.HitEnd? ==> n == |rest|)
            && (r.HitBoundary? ==> n >= 1 && IsBoundary(rest[n - 1]))
            && (r.Named? ==> n >= 1 && !IsBoundary(rest[n - 1]) && IsNameLine(rest[n - 1])
                             && r.name == NameValue(v, rest[n - 1]))
  {
    if rest != [] && IsFieldFiller(rest[0]) {
      var (r, n) := SeekName(v, rest);
      SeekNameStops(v, rest[1..]);
      assert (r, n - 1) == SeekName(v, rest[1..]);
      forall k | 0 <= k < (if r.HitEnd? then n else n - 1)
        ensures IsFieldFiller(rest[k])
      {
        if k > 0 {
          assert rest[k] == rest[1..][k - 1];
        }
      }
      if !r.HitEnd? {
        assert rest[n - 1] == rest[1..][n - 2];
      }
    }
  }


  /** The outer loop over the lines the reader has not yet returned. */
  function Scan(v: Version, rest: seq<string>): Outcome
    decreases |rest|
  {
    if rest == [] then Outcome([], EndOfInput)
    else if IsGameObjectHeader(rest[0]) then
      match HeaderId(rest[0])
      case Err(f) => Outcome([], Crash(f))
      case Ok(id) =>
        var (name, k) := SeekName(v, rest[1..]);
        Prepend([Record(id, name)], Scan(v, rest[1 + k..]))
    else if IsTransformHeader(rest[0]) then
      // `gameObject` was declared null at the top of this iteration.
      Outcome([], TransformWithoutGameObject)
    else Scan(v, rest[1..])
  }

  /** The number of leading files whose scan does not throw: `Main` stops at the first that does. */
  function ScenesBeforeCrash(v: Version, scenes: seq<seq<string>>): (n: nat)
    ensures n <= |scenes|
    ensures forall i :: 0 <= i < n ==> !Scan(v, scenes[i]).stop.Crash?
    ensures n < |scenes| ==> Scan(v, scenes[n]).stop.Crash?
  {
    if scenes == [] then 0
    else if Scan(v, scenes[0]).stop.Crash? then 0
    else 1 + ScenesBeforeCrash(v, scenes[1..])
  }

  // ---------------------------------------------------------------------------
  // One step of each loop, seen from a reader positioned at `p`

  /** The search result for the lines from `p` on, with `already` lines read before `p` counted in. */
  function Consumed(r: (NameSearch, nat), already: nat): (NameSearch, nat) {
    (r.0, r.1 + already)
  }

  /** Lines that are neither boundaries nor m_Name lines only add to the count of lines the name search reads. */
  lemma {:induction false} SeekSkipsFillers(v: Version, lines: seq<string>, start: nat, p: nat)
    requires start <= p <= |lines|
    requires forall k :: start <= k < p ==> IsFieldFiller(lines[k])
    ensures SeekName(v, lines[start..]) == Consumed(SeekName(v, lines[p..]), p - start)
    decreases p - start
  {
    if start < p {
      assert lines[start..][1..] == lines[start + 1..];
      SeekSkipsFillers(v, lines, start + 1, p);
    }
  }

  /** The name search ends on a boundary or an m_Name line, having read it, or at the end of the input. */
  lemma SeekStepStop(v: Version, lines: seq<string>, p: nat)
    requires p <= |lines| && (p < |lines| ==> !IsFieldFiller(lines[p]))
    ensures SeekName(v, lines[p..])
         == if p == |lines| then (HitEnd, 0)
            else if IsBoundary(lines[p]) then (HitBoundary, 1)
            else (Named(NameValue(v, lines[p])), 1)
  {
  }

  lemma PrependAppend(a: seq<Record>, b: seq<Record>, o: Outcome)
    ensures Prepend(a + b, o) == Prepend(a, Prepend(b, o))
  {
    assert a + b + o.records == a + (b + o.records);
  }

  /**
   * The loop state the outer loop keeps: the scan of the whole file, `whole`,
   * is `records` followed by the scan of the lines from `p` on.
   */
  predicate ScanResumesAt(v: Version, whole: Outcome, lines: seq<string>, records: seq<Record>, p: nat)
    requires p <= |lines|
  {
    Prepend(records, Scan(v, lines[p..])) == whole
  }

  /** Before the first line is read the scan resumes at the start with no records. */
  lemma ScanStepStart(v: Version, lines: seq<string>)
    ensures ScanResumesAt(v, Scan(v, lines), lines, [], 0)
  {
    assert lines[0..] == lines;
  }

  /** The outer loop passes over a line that matches neither header. */
  lemma ScanStepInert(v: Version, whole: Outcome, lines: seq<string>, records: seq<Record>, p: nat)
    requires p < |lines| && IsInert(lines[p])
    requires ScanResumesAt(v, whole, lines, records, p)
    ensures ScanResumesAt(v, whole, lines, records, p + 1)
  {
    assert lines[p..][1..] == lines[p + 1..];
  }

  /** A GameObject header whose id token does not parse ends the scan with that fault. */
  lemma ScanStepCrash(v: Version, whole: Outcome, lines: seq<string>, records: seq<Record>, p: nat)
    requires p < |lines| && IsGameObjectHeader(lines[p]) && HeaderId(lines[p]).Err?
    requires ScanResumesAt(v, whole, lines, records, p)
    ensures whole == Outcome(records, Crash(HeaderId(lines[p]).error))
  {
  }

  /** A GameObject header: its record, then the scan resumes after the `k` lines the name search read. */
  lemma ScanStepGameObject(v: Version, whole: Outcome, lines: seq<string>, records: seq<Record>, p: nat, r: Record, k: nat)
    requires p < |lines| && IsGameObjectHeader(lines[p]) && HeaderId(lines[p]).Ok?
    requires (r.name, k) == SeekName(v, lines[p + 1..]) && r.id == HeaderId(lines[p]).value
    requires ScanResumesAt(v, whole, lines, records, p)
    ensures p + 1 + k <= |lines|
    ensures ScanResumesAt(v, whole, lines, records + [r], p + 1 + k)
  {
    assert lines[p..][1..] == lines[p + 1..];
    ScanAtGameObject(v, lines[p..], r.id, r, k);
    var q := p + 1 + k;
    assert lines[p..][1 + k..] == lines[q..];
    ResumeAfter(whole, records, r, Scan(v, lines[p..]), Scan(v, lines[q..]));
  }

  lemma ResumeAfter(whole: Outcome, records: seq<Record>, r: Record, here: Outcome, next: Outcome)
    requires Prepend(records, here) == whole && here == Prepend([r], next)
    ensures Prepend(records + [r], next) == whole
  {
    PrependAppend(records, [r], next);
  }

  lemma ScanAtGameObject(v: Version, rest: seq<string>, id: int, r: Record, k: nat)
    requires rest != [] && IsGameObjectHeader(rest[0]) && HeaderId(rest[0]) == Ok(id)
    requires k == SeekName(v, rest[1..]).1 && r == Record(id, SeekName(v, rest[1..]).0)
    ensures 1 + k <= |rest| && Scan(v, rest) == Prepend([r], Scan(v, rest[1 + k..]))
  {
  }

  /** A Transform header ends the scan. */
  lemma ScanStepTransform(v: Version, whole: Outcome, lines: seq<string>, records: seq<Record>, p: nat)
    requires p < |lines| && !IsGameObjectHeader(lines[p]) && IsTransformHeader(lines[p])
    requires ScanResumesAt(v, whole, lines, records, p)
    ensures whole == Outcome(records, TransformWithoutGameObject)
  {
  }

  /** Nothing left to read ends the scan. */
  lemma ScanStepEnd(v: Version, whole: Outcome, lines: seq<string>, records: seq<Record>)
    requires ScanResumesAt(v, whole, lines, records, |lines|)
    ensures whole == Outcome(records, EndOfInput)
  {
    assert lines[|lines|..] == [];
  }

  // ---------------------------------------------------------------------------
  // Header recognition and the record id

  /**
   * Only the exact kind numbers 1 and 4 start a record the scanner reads:
   * MonoBehaviour (`!u!114`) and other kinds such as `!u!43` are neither,
   * although every header is a record boundary.
   */
  lemma HeaderKinds(rest: string)
    ensures !IsGameObjectHeader("--- !u!114 " + rest) && !IsTransformHeader("--- !u!114 " + rest)
    ensures !IsGameObjectHeader("--- !u!43 " + rest) && !IsTransformHeader("--- !u!43 " + rest)
    ensures IsBoundary("--- !u!114 " + rest) && IsBoundary("--- !u!43 " + rest)
    ensures IsGameObjectHeader(GameObjectHeader + rest) && IsBoundary(GameObjectHeader + rest)
    ensures IsTransformHeader(TransformHeader + rest) && IsBoundary(TransformHeader + rest)
  {
    var mono, other := "--- !u!114 " + rest, "--- !u!43 " + rest;
    assert mono[7] == '1' && mono[8] == '1' && GameObjectHeader[8] == ' ' && TransformHeader[7] == '4';
    assert other[7] == '4' && other[8] == '3' && TransformHeader[8] == ' ' && GameObjectHeader[7] == '1';
    assert mono[..|RecordBoundary|] == RecordBoundary && other[..|RecordBoundary|] == RecordBoundary;
    assert (GameObjectHeader + rest)[..|RecordBoundary|] == RecordBoundary;
    assert (TransformHeader + rest)[..|RecordBoundary|] == RecordBoundary;
  }

  /** The tokens of a header line: `---`, the kind, then the pieces of what follows the header. */
  lemma HeaderTokens(line: string)
    requires IsGameObjectHeader(line) || IsTransformHeader(line)
    ensures Split(line, ' ') == [line[..3], line[4..8]] + Split(line[9..], ' ')
  {
    assert line[..9] == GameObjectHeader || line[..9] == TransformHeader;
    assert line == line[..3] + [' '] + (line[4..8] + [' '] + line[9..]);
    assert ' ' !in line[..3] && ' ' !in line[4..8];
    SplitFirst(line[..3], line[4..8] + [' '] + line[9..], ' ');
    SplitFirst(line[4..8], line[9..], ' ');
  }

  /** A header line always has a third token, so `lineSplit[2]` never throws. */
  lemma HeaderHasThirdToken(line: string)
    requires IsGameObjectHeader(line) || IsTransformHeader(line)
    ensures |Split(line, ' ')| >= 3
    ensures HeaderId(line) != Err(IdTokenMissing)
  {
    HeaderTokens(line);
  }

  /**
   * The id of a header whose third token is a first character `mark` (`&`
   * in Unity files) followed by `digits`, and then nothing or a space: what
   * int.Parse makes of `digits`, unless `mark` is a supplementary character,
   * whose low surrogate int.Parse then rejects.
   */
  lemma HeaderIdOfToken(header: string, mark: char, digits: string, tail: string)
    requires header == GameObjectHeader || header == TransformHeader
    requires mark != ' ' && ' ' !in digits
    requires tail == "" || tail[0] == ' '
    ensures HeaderId(header + [mark] + digits + tail)
         == if IsSupplementary(mark) then Err(IdNotInteger)
            else match ParseInt32(digits) case None => Err(IdNotInteger) case Some(n) => Ok(n)
  {
    var line := header + [mark] + digits + tail;
    assert line[..9] == header;
    HeaderTokens(line);
    var token := [mark] + digits;
    assert line[9..] == token + tail;
    SplitLeading(token, tail, ' ');
    assert token[1..] == digits;
  }

  /**
   * A well-formed Unity header `--- !u!1 &<id>` gives back its id; with a
   * supplementary character in place of `&` it throws instead.
   */
  lemma HeaderIdOfWellFormed(header: string, mark: char, n: nat, tail: string)
    requires header == GameObjectHeader || header == TransformHeader
    requires mark != ' ' && n <= MaxInt32
    requires tail == "" || tail[0] == ' '
    ensures HeaderId(header + [mark] + Digits(n) + tail)
         == if IsSupplementary(mark) then Err(IdNotInteger) else Ok(n)
  {
    var d := Digits(n);
    assert ' ' !in d by {
      assert forall k :: 0 <= k < |d| ==> IsDigit(d[k]);
    }
    HeaderIdOfToken(header, mark, d, tail);
    ParseDigits(n);
  }

  /** An id above MaxInt32 makes int.Parse throw OverflowException. */
  lemma HeaderIdOverflows(header: string, mark: char, n: nat, tail: string)
    requires header == GameObjectHeader || header == TransformHeader
    requires mark != ' ' && n > MaxInt32
    requires tail == "" || tail[0] == ' '
    ensures HeaderId(header + [mark] + Digits(n) + tail) == Err(IdNotInteger)
  {
    var d := Digits(n);
    assert ' ' !in d by {
      assert forall k :: 0 <= k < |d| ==> IsDigit(d[k]);
    }
    HeaderIdOfToken(header, mark, d, tail);
    ParseDigits(n);
  }

  /** A header with nothing, or a second space, after the kind has an empty third token: `[1..]` throws. */
  lemma HeaderIdEmptyToken(header: string, tail: string)
    requires header == GameObjectHeader || header == TransformHeader
    requires tail == "" || tail[0] == ' '
    ensures HeaderId(header + tail) == Err(IdTokenEmpty)
  {
    var line := header + tail;
    assert line[..9] == header;
    HeaderTokens(line);
    assert line[9..] == [] + tail;
    SplitLeading([], tail, ' ');
  }

  // ---------------------------------------------------------------------------
  // The name field

  /**
   * NoLib keeps the text between the first and the second colon, trimmed:
   * `  m_Name: a` gives Trim(a), and `  m_Name: a:b` gives Trim(a) too.
   */
  lemma NoLibName(a: string, tail: string)
    requires ':' !in a
    requires tail == "" || tail[0] == ':'
    ensures NameValue(NoLib, NameField + a + tail) == Trim(a)
  {
    var key := "  m_Name";
    assert NameField == key + [':'] + [' '];
    assert NameField + a + tail == key + [':'] + ([' '] + a) + tail;
    SplitSecond(key, [' '] + a, tail, ':');
    TrimLeadingBlank(a);
  }

  /** Tool keeps everything after the 10-character prefix, white space included. */
  lemma ToolName(a: string)
    ensures NameValue(Tool, NameField + a) == a
  {
  }

  /** For a name without colons or surrounding white space both versions agree on the name. */
  lemma PlainName(v: Version, name: string)
    requires ':' !in name
    requires name != [] ==> !IsWhiteSpace(name[0]) && !IsWhiteSpace(name[|name| - 1])
    ensures IsNameLine(NameField + name) && NameValue(v, NameField + name) == name
  {
    assert IsNameLine(NameField + name) by {
      assert (NameField + name)[..|NameField|] == NameField;
    }
    if v == NoLib {
      calc {
        NameValue(NoLib, NameField + name);
        == { assert NameField + name == NameField + name + ""; NoLibName(name, ""); }
        Trim(name);
        == { assert [] + name + [] == name; TrimMargins([], name, []); }
        name;
      }
    }
  }


  // ---------------------------------------------------------------------------
  // The inner loop

  /** The name search reads up to and including the first m_Name line when no boundary comes before it. */
  lemma {:induction false} SeekFindsName(v: Version, filler: seq<string>, nameLine: string, tail: seq<string>)
    requires forall k :: 0 <= k < |filler| ==> IsFieldFiller(filler[k])
    requires IsNameLine(nameLine)
    ensures SeekName(v, filler + [nameLine] + tail) == (Named(NameValue(v, nameLine)), |filler| + 1)
  {
    if filler != [] {
      assert (filler + [nameLine] + tail)[1..] == filler[1..] + [nameLine] + tail;
      SeekFindsName(v, filler[1..], nameLine, tail);
    } else {
      NameLineIsNoBoundary(nameLine);
      assert filler + [nameLine] + tail == [nameLine] + tail;
    }
  }

  /** An m_Name line starts with a blank, a boundary with a dash. */
  lemma NameLineIsNoBoundary(line: string)
    requires IsNameLine(line)
    ensures !IsBoundary(line)
  {
    assert line[0] == NameField[0] == ' ';
  }

  /** The name search consumes the first boundary line when it comes before any m_Name line. */
  lemma {:induction false} SeekHitsBoundary(v: Version, filler: seq<string>, boundary: string, tail: seq<string>)
    requires forall k :: 0 <= k < |filler| ==> IsFieldFiller(filler[k])
    requires IsBoundary(boundary)
    ensures SeekName(v, filler + [boundary] + tail) == (HitBoundary, |filler| + 1)
  {
    if filler != [] {
      assert (filler + [boundary] + tail)[1..] == filler[1..] + [boundary] + tail;
      SeekHitsBoundary(v, filler[1..], boundary, tail);
    }
  }

  /** Without a boundary or m_Name line the name search reads to the end of the input. */
  lemma {:induction false} SeekHitsEnd(v: Version, filler: seq<string>)
    requires forall k :: 0 <= k < |filler| ==> IsFieldFiller(filler[k])
    ensures SeekName(v, filler) == (HitEnd, |filler|)
  {
    if filler != [] {
      SeekHitsEnd(v, filler[1..]);
    }
  }

  // ---------------------------------------------------------------------------
  // The outer loop

  /** Lines matching neither header prefix are passed over without effect. */
  lemma {:induction false} InertLinesSkipped(v: Version, inert: seq<string>, tail: seq<string>)
    requires forall k :: 0 <= k < |inert| ==> IsInert(inert[k])
    ensures Scan(v, inert + tail) == Scan(v, tail)
  {
    if inert != [] {
      assert (inert + tail)[1..] == inert[1..] + tail;
      InertLinesSkipped(v, inert[1..], tail);
    } else {
      assert inert + tail == tail;
    }
  }

  /**
   * The first Transform header the outer loop sees ends the scan of the
   * file, wherever it stands and whatever follows it.
   */
  lemma TransformEndsScan(v: Version, inert: seq<string>, transform: string, tail: seq<string>)
    requires forall k :: 0 <= k < |inert| ==> IsInert(inert[k])
    requires IsTransformHeader(transform)
    ensures Scan(v, inert + [transform] + tail) == Outcome([], TransformWithoutGameObject)
  {
    assert inert + [transform] + tail == inert + ([transform] + tail);
    InertLinesSkipped(v, inert, [transform] + tail);
    assert TransformHeader[7] != GameObjectHeader[7];
  }

  /** A GameObject record with an m_Name field reports that name; scanning resumes after the m_Name line. */
  lemma NamedRecord(v: Version, header: string, filler: seq<string>, nameLine: string, tail: seq<string>)
    requires IsGameObjectHeader(header) && HeaderId(header).Ok?
    requires forall k :: 0 <= k < |filler| ==> IsFieldFiller(filler[k])
    requires IsNameLine(nameLine)
    ensures Scan(v, [header] + filler + [nameLine] + tail)
         == Prepend([Record(HeaderId(header).value, Named(NameValue(v, nameLine)))], Scan(v, tail))
  {
    var lines := [header] + filler + [nameLine] + tail;
    assert lines[1..] == filler + [nameLine] + tail;
    SeekFindsName(v, filler, nameLine, tail);
    assert lines[1 + |filler| + 1..] == tail;
  }

  /**
   * A GameObject record without an m_Name field: the boundary line that ends
   * it is consumed by the name search and never examined by the outer loop,
   * so the record it starts is lost whatever kind it is.
   */
  lemma NamelessRecordSwallowsBoundary(v: Version, header: string, filler: seq<string>, boundary: string, tail: seq<string>)
    requires IsGameObjectHeader(header) && HeaderId(header).Ok?
    requires forall k :: 0 <= k < |filler| ==> IsFieldFiller(filler[k])
    requires IsBoundary(boundary)
    ensures Scan(v, [header] + filler + [boundary] + tail)
         == Prepend([Record(HeaderId(header).value, HitBoundary)], Scan(v, tail))
  {
    var lines := [header] + filler + [boundary] + tail;
    assert lines[1..] == filler + [boundary] + tail;
    SeekHitsBoundary(v, filler, boundary, tail);
    assert lines[1 + |filler| + 1..] == tail;
  }

  /** A GameObject record cut off by the end of the file reports no name and ends the scan normally. */
  lemma RecordAtEndOfInput(v: Version, header: string, filler: seq<string>)
    requires IsGameObjectHeader(header) && HeaderId(header).Ok?
    requires forall k :: 0 <= k < |filler| ==> IsFieldFiller(filler[k])
    ensures Scan(v, [header] + filler) == Outcome([Record(HeaderId(header).value, HitEnd)], EndOfInput)
  {
    var lines := [header] + filler;
    assert lines[1..] == filler;
    SeekHitsEnd(v, filler);
    assert lines[1 + |filler|..] == [];
  }

  /** Every reported record comes from a GameObject header line of the input, with that line's id. */
  lemma {:induction false} RecordsComeFromHeaders(v: Version, rest: seq<string>)
    ensures forall r :: r in Scan(v, rest).records ==>
              exists k :: 0 <= k < |rest| && IsGameObjectHeader(rest[k]) && HeaderId(rest[k]) == Ok(r.id)
    decreases |rest|
  {
    if rest != [] {
      if IsGameObjectHeader(rest[0]) {
        if HeaderId(rest[0]).Ok? {
          var (name, k) := SeekName(v, rest[1..]);
          var after := rest[1 + k..];
          RecordsComeFromHeaders(v, after);
          forall r | r in Scan(v, after).records
            ensures exists k :: 0 <= k < |rest| && IsGameObjectHeader(rest[k]) && HeaderId(rest[k]) == Ok(r.id)
          {
            var j :| 0 <= j < |after| && IsGameObjectHeader(after[j]) && HeaderId(after[j]) == Ok(r.id);
            assert after[j] == rest[1 + k + j];
          }
        }
      } else if !IsTransformHeader(rest[0]) {
        RecordsComeFromHeaders(v, rest[1..]);
        forall r | r in Scan(v, rest[1..]).records
          ensures exists k :: 0 <= k < |rest| && IsGameObjectHeader(rest[k]) && HeaderId(rest[k]) == Ok(r.id)
        {
          var j :| 0 <= j < |rest[1..]| && IsGameObjectHeader(rest[1..][j]) && HeaderId(rest[1..][j]) == Ok(r.id);
          assert rest[1..][j] == rest[1 + j];
        }
      }
    }
  }

  /** A scan that throws was stopped by a GameObject header whose id does not parse. */
  lemma {:induction false} CrashComesFromHeader(v: Version, rest: seq<string>)
    requires Scan(v, rest).stop.Crash?
    ensures exists k :: 0 <= k < |rest| && IsGameObjectHeader(rest[k]) && HeaderId(rest[k]) == Err(Scan(v, rest).stop.fault)
    decreases |rest|
  {
    if IsGameObjectHeader(rest[0]) {
      if HeaderId(rest[0]).Ok? {
        var (name, k) := SeekName(v, rest[1..]);
        var after := rest[1 + k..];
        CrashComesFromHeader(v, after);
        var j :| 0 <= j < |after| && IsGameObjectHeader(after[j]) && HeaderId(after[j]) == Err(Scan(v, after).stop.fault);
        assert after[j] == rest[1 + k + j];
      }
    } else {
      CrashComesFromHeader(v, rest[1..]);
      var j :| 0 <= j < |rest[1..]| && IsGameObjectHeader(rest[1..][j]) && HeaderId(rest[1..][j]) == Err(Scan(v, rest[1..]).stop.fault);
      assert rest[1..][j] == rest[1 + j];
    }
  }

  // ---------------------------------------------------------------------------
  // The unreachable m_Father extraction

  /**
   * What `int.Parse(line.Split(":")[1].Trim()[..^1])` would compute for a
   * parent-field line, if the code after the always-taken `break` ran.
   */
  function FatherFieldId(line: string): Option<int> {
    var pieces := Split(line, ':');
    if |pieces| < 2 then None
    else
      var id := Trim(pieces[1]);
      if id == "" then None else ParseInt32(id[..|id| - 1])
  }

  /**
   * Every m_Father line fails to parse: the piece after the first colon is
   * ` {fileID`, which is not a number, so the parent lookup could never have
   * run even if the Transform branch were reachable.
   */
  lemma FatherFieldNeverParses(rest: string)
    ensures FatherFieldId(FatherField + rest) == None
  {
    var key, piece := "  m_Father", "{fileID";
    var tail := [':'] + [' '] + rest;
    assert FatherField == key + [':'] + ([' '] + piece) + [':'] + [' '];
    assert FatherField + rest == key + [':'] + ([' '] + piece) + tail;
    SplitSecond(key, [' '] + piece, tail, ':');
    TrimLeadingBlank(piece);
    FatherIdToken(piece);
  }

  /** The field's own `{fileID` survives Trim and, less its last character, is not a number. */
  lemma FatherIdToken(piece: string)
    requires piece == "{fileID"
    ensures Trim(piece) == piece && ParseInt32(piece[..|piece| - 1]) == None
  {
    assert [] + piece + [] == piece;
    TrimMargins([], piece, []);
    ParseNeedsDigits(piece[..|piece| - 1], 0);
  }
}
