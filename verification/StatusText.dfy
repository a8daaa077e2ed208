/**
 The text form in which a component status is stored in a ConfigMap, and the
 parser that reads it back.
 */
module StatusText {
  import opened Wrappers

  datatype Status = Status(version: string, status: string, jobName: string, message: string)

  // ----- The library functions the source uses

  /** White space as `unicode.IsSpace` defines it. */
  predicate IsSpace(c: char) {
    || c == ' ' || '\U{9}' <= c <= '\U{D}' || c == '\U{85}' || c == '\U{A0}' || c == '\U{1680}'
    || '\U{2000}' <= c <= '\U{200A}' || c == '\U{2028}' || c == '\U{2029}'
    || c == '\U{202F}' || c == '\U{205F}' || c == '\U{3000}'
  }

  function TrimLeft(s: string): string {
    if s != "" && IsSpace(s[0]) then TrimLeft(s[1..]) else s
  }

  function TrimRight(s: string): string {
    if s != "" && IsSpace(s[|s| - 1]) then TrimRight(s[..|s| - 1]) else s
  }

  function TrimSpace(s: string): string {
    TrimRight(TrimLeft(s))
  }

  /** The lines of a text: always at least one. */
  function Lines(s: string): (lines: seq<string>)
    ensures |lines| > 0
  {
    if s == "" then [""]
    else
      var rest := Lines(s[1..]);
      if s[0] == '\n' then [""] + rest else [[s[0]] + rest[0]] + rest[1..]
  }

  /** The position of the first colon followed by a blank. */
  function FindSeparator(line: string): (r: Option<nat>)
    ensures r.Some? ==> r.value + 2 <= |line|
  {
    if |line| < 2 then None
    else if line[0] == ':' && line[1] == ' ' then Some(0)
    else match FindSeparator(line[1..])
      case None => None
      case Some(i) => Some(i + 1)
  }

  // ----- Printing and parsing

  function Line(key: string, value: string): string {
    key + ": " + value
  }

  function Serialize(s: Status): string {
    Line("version", s.version) + "\n" + (Line("status", s.status) + "\n" + (Line("jobName", s.jobName) +
      (if s.message == "" then "" else "\n" + Line("message", s.message))))
  }

  /** Unknown keys are ignored. */
  function Put(st: Status, key: string, value: string): Status {
    if key == "version" then st.(version := value)
    else if key == "status" then st.(status := value)
    else if key == "jobName" then st.(jobName := value)
    else if key == "message" then st.(message := value)
    else st
  }

  function ReadLine(st: Status, line: string): Status {
    match FindSeparator(line)
    case None => st
    case Some(i) => Put(st, TrimSpace(line[..i]), TrimSpace(line[i + 2..]))
  }

  function ReadLines(st: Status, lines: seq<string>): Status
    decreases |lines|
  {
    if lines == [] then st else ReadLines(ReadLine(st, lines[0]), lines[1..])
  }

  const EMPTY := Status("", "", "", "")

  /** The parsed status, or None when the text gives no status field. */
  function Parse(data: string): Option<Status> {
    var st := ReadLines(EMPTY, Lines(data));
    if st.status == "" then None else Some(st)
  }

  method ParseComponentStatus(data: string) returns (r: Option<Status>)
    ensures r == Parse(data)
    ensures r.Some? ==> WellFormed(r.value)
  {
    var st := EMPTY;
    var lines := Lines(data);
    for i := 0 to |lines|
      invariant ReadLines(st, lines[i..]) == ReadLines(EMPTY, lines)
    {
      assert lines[i..][1..] == lines[i + 1..];
      var at := FindSeparator(lines[i]);
      if at.None? { continue; }
      var key, value := TrimSpace(lines[i][..at.value]), TrimSpace(lines[i][at.value + 2..]);
      match key {
        case "version" => st := st.(version := value);
        case "status" => st := st.(status := value);
        case "jobName" => st := st.(jobName := value);
        case "message" => st := st.(message := value);
        case _ =>
      }
    }
    ParseIsWellFormed(data);
    if st.status == "" { return None; }
    return Some(st);
  }

  // ----- Which statuses the text can carry

  ghost predicate Trimmed(s: string) {
    s == "" || (!IsSpace(s[0]) && !IsSpace(s[|s| - 1]))
  }

  ghost predicate Clean(s: string) {
    Trimmed(s) && '\n' !in s
  }

  ghost predicate CleanFields(s: Status) {
    Clean(s.version) && Clean(s.status) && Clean(s.jobName) && Clean(s.message)
  }

  ghost predicate WellFormed(s: Status) {
    s.status != "" && CleanFields(s)
  }

  lemma {:induction false} TrimLeftResult(s: string)
    ensures TrimLeft(s) != "" ==> !IsSpace(TrimLeft(s)[0])
    ensures '\n' !in s ==> '\n' !in TrimLeft(s)
  {
    if s != "" && IsSpace(s[0]) {
      TrimLeftResult(s[1..]);
    }
  }

  lemma {:induction false} TrimRightResult(s: string)
    ensures TrimRight(s) != "" ==> !IsSpace(TrimRight(s)[|TrimRight(s)| - 1]) && TrimRight(s)[0] == s[0]
    ensures TrimRight(s) <= s
  {
    if s != "" && IsSpace(s[|s| - 1]) {
      TrimRightResult(s[..|s| - 1]);
    }
  }

  lemma TrimSpaceIsTrimmed(s: string)
    ensures Trimmed(TrimSpace(s))
    ensures '\n' !in s ==> '\n' !in TrimSpace(s)
    ensures Trimmed(s) ==> TrimSpace(s) == s
  {
    TrimLeftResult(s);
    TrimRightResult(TrimLeft(s));
  }

  lemma {:induction false} LinesHaveNoNewline(s: string)
    ensures forall i :: 0 <= i < |Lines(s)| ==> '\n' !in Lines(s)[i]
  {
    if s != "" {
      LinesHaveNoNewline(s[1..]);
    }
  }

  lemma ReadLineKeepsClean(st: Status, line: string)
    requires CleanFields(st) && '\n' !in line
    ensures CleanFields(ReadLine(st, line))
  {
    var at := FindSeparator(line);
    if at.Some? {
      var value := TrimSpace(line[at.value + 2..]);
      assert Clean(value) by { TrimSpaceIsTrimmed(line[at.value + 2..]); }
    }
  }

  lemma {:induction false} ReadLinesKeepClean(st: Status, lines: seq<string>)
    requires CleanFields(st) && forall i :: 0 <= i < |lines| ==> '\n' !in lines[i]
    ensures CleanFields(ReadLines(st, lines))
    decreases |lines|
  {
    if lines != [] {
      ReadLineKeepsClean(st, lines[0]);
      ReadLinesKeepClean(ReadLine(st, lines[0]), lines[1..]);
    }
  }

  /** Whatever the text, a parsed status has trimmed one-line fields and a status. */
  lemma ParseIsWellFormed(data: string)
    ensures Parse(data).Some? ==> WellFormed(Parse(data).value)
  {
    LinesHaveNoNewline(data);
    ReadLinesKeepClean(EMPTY, Lines(data));
  }

  // ----- The round trip

  lemma {:induction false} FirstLine(line: string, rest: string)
    requires '\n' !in line
    ensures Lines(line + "\n" + rest) == [line] + Lines(rest)
    ensures Lines(line) == [line]
  {
    if line == "" {
      assert line + "\n" + rest == "\n" + rest;
      assert ("\n" + rest)[1..] == rest;
    } else {
      FirstLine(line[1..], rest);
      assert (line + "\n" + rest)[1..] == line[1..] + "\n" + rest;
      assert line[0] != '\n' && [line[0]] + line[1..] == line;
      assert ([line[1..]] + Lines(rest))[1..] == Lines(rest);
    }
  }

  lemma {:induction false} SeparatorAfterKey(key: string, value: string)
    requires ':' !in key
    ensures FindSeparator(Line(key, value)) == Some(|key|)
  {
    if key == "" {
      assert key + ": " + value == ": " + value;
    } else {
      SeparatorAfterKey(key[1..], value);
      assert (key + ": " + value)[1..] == key[1..] + ": " + value;
    }
  }

  /** A line made of a key and a clean value is split into exactly these two. */
  lemma ReadKeyValue(st: Status, key: string, value: string, rest: seq<string>)
    requires ':' !in key && Trimmed(key) && Trimmed(value)
    ensures ReadLines(st, [Line(key, value)] + rest) == ReadLines(Put(st, key, value), rest)
  {
    var line := Line(key, value);
    SeparatorAfterKey(key, value);
    assert line[..|key|] == key && line[|key| + 2..] == value;
    TrimSpaceIsTrimmed(key);
    TrimSpaceIsTrimmed(value);
    assert ([line] + rest)[1..] == rest;
  }

  function LastLines(s: Status): seq<string> {
    [Line("jobName", s.jobName)] + if s.message == "" then [] else [Line("message", s.message)] + []
  }

  lemma LastSerializedLines(s: Status)
    requires CleanFields(s)
    ensures Lines(Line("jobName", s.jobName) + (if s.message == "" then "" else "\n" + Line("message", s.message))) ==
      LastLines(s)
  {
    var job, msg := Line("jobName", s.jobName), Line("message", s.message);
    FirstLine(msg, "");
    FirstLine(job, msg);
    assert job + "" == job && job + "\n" + msg == job + ("\n" + msg);
    assert [job] + [] == [job] && [msg] + [] == [msg];
  }

  lemma SerializedLines(s: Status)
    requires CleanFields(s)
    ensures Lines(Serialize(s)) == [Line("version", s.version)] + ([Line("status", s.status)] + LastLines(s))
  {
    var tail := Line("jobName", s.jobName) + if s.message == "" then "" else "\n" + Line("message", s.message);
    LastSerializedLines(s);
    FirstLine(Line("status", s.status), tail);
    FirstLine(Line("version", s.version), Line("status", s.status) + "\n" + tail);
  }

  lemma ReadSerialized(s: Status)
    requires CleanFields(s)
    ensures ReadLines(EMPTY, [Line("version", s.version)] + ([Line("status", s.status)] + LastLines(s))) == s
  {
    var last := if s.message == "" then [] else [Line("message", s.message)] + [];
    var s1 := Put(EMPTY, "version", s.version);
    var s2 := Put(s1, "status", s.status);
    var s3 := Put(s2, "jobName", s.jobName);
    ReadKeyValue(EMPTY, "version", s.version, [Line("status", s.status)] + LastLines(s));
    ReadKeyValue(s1, "status", s.status, LastLines(s));
    ReadKeyValue(s2, "jobName", s.jobName, last);
    ReadKeyValue(s3, "message", s.message, []);
  }

  /** A status survives printing and parsing exactly when it is well-formed; fields may contain the separator. */
  lemma RoundTripExactly(s: Status)
    ensures Parse(Serialize(s)) == Some(s) <==> WellFormed(s)
  {
    if Parse(Serialize(s)) == Some(s) {
      ParseIsWellFormed(Serialize(s));
    }
    if WellFormed(s) {
      SerializedLines(s);
      ReadSerialized(s);
    }
  }

  // ----- What a text says about each field

  ghost predicate Blank(s: string) {
    forall i :: 0 <= i < |s| ==> IsSpace(s[i])
  }

  lemma {:induction false} TrimLeftSplits(s: string) returns (lead: string)
    ensures Blank(lead) && s == lead + TrimLeft(s)
  {
    lead := "";
    if s != "" && IsSpace(s[0]) {
      var more := TrimLeftSplits(s[1..]);
      lead := [s[0]] + more;
    }
  }

  lemma {:induction false} TrimRightSplits(s: string) returns (trail: string)
    ensures Blank(trail) && s == TrimRight(s) + trail
  {
    trail := "";
    if s != "" && IsSpace(s[|s| - 1]) {
      var more := TrimRightSplits(s[..|s| - 1]);
      trail := more + [s[|s| - 1]];
    }
  }

  /** Trimming takes away white space at the two ends, all of it and nothing else. */
  lemma TrimSpaceExactly(s: string) returns (lead: string, trail: string)
    ensures Blank(lead) && Blank(trail) && s == lead + TrimSpace(s) + trail && Trimmed(TrimSpace(s))
  {
    lead := TrimLeftSplits(s);
    trail := TrimRightSplits(TrimLeft(s));
    TrimSpaceIsTrimmed(s);
  }

  ghost predicate SeparatorAt(line: string, i: int) {
    0 <= i && i + 2 <= |line| && line[i] == ':' && line[i + 1] == ' '
  }

  lemma {:induction false} SeparatorIsFirst(line: string)
    ensures FindSeparator(line).None? ==> forall i :: !SeparatorAt(line, i)
    ensures FindSeparator(line).Some? ==>
      && SeparatorAt(line, FindSeparator(line).value)
      && forall i :: 0 <= i < FindSeparator(line).value ==> !SeparatorAt(line, i)
  {
    if |line| >= 2 && !SeparatorAt(line, 0) {
      SeparatorIsFirst(line[1..]);
      forall i | 0 < i < |line|
        ensures SeparatorAt(line, i) <==> SeparatorAt(line[1..], i - 1)
      {
      }
    }
  }

  /** The line gives the key a value: what stands around its first colon and blank, trimmed. */
  ghost predicate Says(line: string, key: string, value: string) {
    exists i ::
      && SeparatorAt(line, i) && (forall j :: 0 <= j < i ==> !SeparatorAt(line, j))
      && TrimSpace(line[..i]) == key && TrimSpace(line[i + 2..]) == value
  }

  datatype Key = Version | State | Job | Message {
    function Text(): string {
      match this
      case Version => "version"
      case State => "status"
      case Job => "jobName"
      case Message => "message"
    }
  }

  ghost function Field(st: Status, key: Key): string {
    match key
    case Version => st.version
    case State => st.status
    case Job => st.jobName
    case Message => st.message
  }

  lemma PutField(st: Status, name: string, value: string, key: Key)
    ensures Field(Put(st, name, value), key) == if name == key.Text() then value else Field(st, key)
  {
  }

  lemma ReadLineSays(st: Status, line: string, key: Key)
    ensures var value := Field(ReadLine(st, line), key);
      Says(line, key.Text(), value) || (value == Field(st, key) && forall v :: !Says(line, key.Text(), v))
  {
    SeparatorIsFirst(line);
    var at := FindSeparator(line);
    if at.Some? {
      PutField(st, TrimSpace(line[..at.value]), TrimSpace(line[at.value + 2..]), key);
    }
  }

  /** The last line that says something about the key, if any, decides. */
  ghost predicate Decides(lines: seq<string>, name: string, j: int, value: string) {
    && 0 <= j < |lines| && Says(lines[j], name, value)
    && forall i, v :: j < i < |lines| ==> !Says(lines[i], name, v)
  }

  ghost predicate Silent(lines: seq<string>, name: string) {
    forall i, v :: 0 <= i < |lines| ==> !Says(lines[i], name, v)
  }

  /** The lines leave the field as it was, or one of them decides it. */
  ghost predicate Explained(lines: seq<string>, name: string, before: string, value: string) {
    (exists j :: Decides(lines, name, j, value)) || (value == before && Silent(lines, name))
  }

  lemma ExplainedFirst(lines: seq<string>, name: string, before: string, mid: string, value: string)
    requires lines != [] && Explained(lines[1..], name, mid, value)
    requires Says(lines[0], name, mid) || (mid == before && forall v :: !Says(lines[0], name, v))
    ensures Explained(lines, name, before, value)
  {
    var rest := lines[1..];
    assert forall i :: 0 < i < |lines| ==> lines[i] == rest[i - 1];
    if j :| Decides(rest, name, j, value) {
      assert Decides(lines, name, j + 1, value);
    } else if Says(lines[0], name, mid) {
      assert Decides(lines, name, 0, value);
    }
  }

  lemma {:induction false} LastLineDecides(st: Status, lines: seq<string>, key: Key)
    ensures Explained(lines, key.Text(), Field(st, key), Field(ReadLines(st, lines), key))
    decreases |lines|
  {
    if lines != [] {
      var next := ReadLine(st, lines[0]);
      ReadLineSays(st, lines[0], key);
      LastLineDecides(next, lines[1..], key);
      ExplainedFirst(lines, key.Text(), Field(st, key), Field(next, key), Field(ReadLines(st, lines), key));
    }
  }

  /** Each field of a parsed text is what the last line for it says, and empty when no line does. */
  lemma ParsedFields(data: string, key: Key)
    requires Parse(data).Some?
    ensures Explained(Lines(data), key.Text(), "", Field(Parse(data).value, key))
  {
    LastLineDecides(EMPTY, Lines(data), key);
  }

  lemma SaysOneValue(line: string, name: string, v: string, w: string)
    requires Says(line, name, v) && Says(line, name, w)
    ensures v == w
  {
  }

  lemma DecidedOnce(lines: seq<string>, name: string, i: nat, v: string, value: string)
    requires Decides(lines, name, i, v) && Explained(lines, name, "", value)
    ensures v == value
  {
    assert !Silent(lines, name);
    var j :| Decides(lines, name, j, value);
    assert i == j;
    SaysOneValue(lines[i], name, v, value);
  }

  ghost predicate GivesStatus(lines: seq<string>) {
    exists j, v :: v != "" && Decides(lines, "status", j, v)
  }

  lemma StatusGiven(lines: seq<string>)
    ensures ReadLines(EMPTY, lines).status != "" <==> GivesStatus(lines)
  {
    LastLineDecides(EMPTY, lines, State);
    if i, v :| v != "" && Decides(lines, "status", i, v) {
      DecidedOnce(lines, "status", i, v, ReadLines(EMPTY, lines).status);
    }
  }

  /** A text is rejected exactly when no line gives the status, or the last that does leaves it empty. */
  lemma ParsedExactly(data: string)
    ensures Parse(data).Some? <==> GivesStatus(Lines(data))
  {
    StatusGiven(Lines(data));
  }
}
