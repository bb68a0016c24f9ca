/** The CSV export of `src/audit/mod.rs` and a decoder for it, in the style of section 2 of
    RFC 4180 with LF as the record end and CR an ordinary character. */
module Csv {
  import opened Wrappers
  import opened Text
  import opened AuditEntry
  import opened Policy
  import Json

  /** `str::replace` of one quote by two. */
  function DoubleQuotes(s: string): string {
    if s == "" then ""
    else (if s[0] == '"' then "\"\"" else [s[0]]) + DoubleQuotes(s[1..])
  }

  function CsvEscape(value: string): string {
    if ',' in value || '"' in value || '\n' in value then "\"" + DoubleQuotes(value) + "\""
    else value
  }

  function Line(fields: seq<string>): string
    requires fields != []
  {
    if |fields| == 1 then CsvEscape(fields[0]) + "\n"
    else CsvEscape(fields[0]) + "," + Line(fields[1..])
  }

  ghost predicate Filled(records: seq<seq<string>>) {
    forall k :: 0 <= k < |records| ==> records[k] != []
  }

  ghost function Lines(records: seq<seq<string>>): string
    requires Filled(records)
  {
    if records == [] then "" else Line(records[0]) + Lines(records[1..])
  }

  // ---------- the export ----------

  /** How ids, scores, times and metadata are written. */
  datatype Formats = Formats(
    id: Uuid -> string,
    risk: real -> string,
    time: int -> string,
    json: Json.Value -> string)

  /** The score is written without escaping: its text has no comma, quote or line feed. */
  ghost predicate PlainScores(f: Formats) {
    forall x :: ',' !in f.risk(x) && '"' !in f.risk(x) && '\n' !in f.risk(x)
  }

  function Header(): (names: seq<string>)
    ensures |names| == 12
  {
    ["id", "session_id", "workspace_id", "agent_id", "action", "resource", "resource_id", "decision",
     "reason", "risk_score", "ts", "metadata"]
  }

  function OrEmpty(text: Option<string>): string {
    if text.Some? then text.value else ""
  }

  function IdOrEmpty(f: Formats, id: Option<Uuid>): string {
    if id.Some? then f.id(id.value) else ""
  }

  /** The twelve texts of one row. */
  function Fields(f: Formats, e: Entry): (fields: seq<string>)
    ensures |fields| == 12
  {
    [f.id(e.id), IdOrEmpty(f, e.sessionId), f.id(e.workspaceId), IdOrEmpty(f, e.agentId), e.action, e.resource,
     OrEmpty(e.resourceId), e.decision, OrEmpty(e.reason), f.risk(e.riskScore), f.time(e.ts), f.json(e.metadata)]
  }

  /** The text of a value that may be missing. */
  ghost predicate TellsOptional(text: string, value: Option<string>) {
    match value
    case None => text == ""
    case Some(s) => text == s
  }

  ghost predicate TellsId(f: Formats, text: string, value: Option<Uuid>) {
    match value
    case None => text == ""
    case Some(id) => text == f.id(id)
  }

  /** The record tells every field of the entry, in the order of the columns. */
  ghost predicate Tells(f: Formats, record: seq<string>, e: Entry) {
    |record| == 12 &&
    record[0] == f.id(e.id) && TellsId(f, record[1], e.sessionId) &&
    record[2] == f.id(e.workspaceId) && TellsId(f, record[3], e.agentId) &&
    record[4] == e.action && record[5] == e.resource && TellsOptional(record[6], e.resourceId) &&
    record[7] == e.decision && TellsOptional(record[8], e.reason) &&
    record[9] == f.risk(e.riskScore) && record[10] == f.time(e.ts) && record[11] == f.json(e.metadata)
  }

  lemma {:induction false} RecordsTell(f: Formats, entries: seq<Entry>)
    ensures |Records(f, entries)| == |entries|
    ensures forall k :: 0 <= k < |entries| ==> Tells(f, Records(f, entries)[k], entries[k])
  {
    if entries != [] {
      RecordsTell(f, entries[..|entries| - 1]);
    }
  }

  function Records(f: Formats, entries: seq<Entry>): (records: seq<seq<string>>)
    ensures forall k :: 0 <= k < |records| ==> |records[k]| == 12
  {
    if entries == [] then [] else Records(f, entries[..|entries| - 1]) + [Fields(f, entries[|entries| - 1])]
  }

  /** The decoder finds in the text written the names of the columns, then for every entry, in
      order, its twelve texts: an id, reason or resource id that is not there is empty. */
  method ExportCsv(f: Formats, entries: seq<Entry>) returns (out: string)
    requires PlainScores(f)
    ensures out == Lines([Header()] + Records(f, entries))
    ensures Decode(out, []).Some?
    ensures var records := Decode(out, []).value;
            |records| == 1 + |entries| &&
            records[0] == ["id", "session_id", "workspace_id", "agent_id", "action", "resource", "resource_id",
                           "decision", "reason", "risk_score", "ts", "metadata"] &&
            forall k :: 0 <= k < |entries| ==> Tells(f, records[1 + k], entries[k])
  {
    out := "id" + "," + "session_id" + "," + "workspace_id" + "," + "agent_id" + "," + "action" + ","
      + "resource" + "," + "resource_id" + "," + "decision" + "," + "reason" + "," + "risk_score" + "," + "ts" + ","
      + "metadata" + "\n";
    HeaderLine();
    hide CsvEscape, Header, Line, Lines, Records, Fields, Decode, Tells;
    RecordsNone(f, entries);
    for k := 0 to |entries|
      invariant out == Lines([Header()] + Records(f, entries[..k]))
    {
      var e := entries[k];
      var line := CsvEscape(f.id(e.id)) + "," + CsvEscape(IdOrEmpty(f, e.sessionId)) + ","
        + CsvEscape(f.id(e.workspaceId)) + "," + CsvEscape(IdOrEmpty(f, e.agentId)) + ","
        + CsvEscape(e.action) + "," + CsvEscape(e.resource) + "," + CsvEscape(OrEmpty(e.resourceId)) + ","
        + CsvEscape(e.decision) + "," + CsvEscape(OrEmpty(e.reason)) + "," + f.risk(e.riskScore) + ","
        + CsvEscape(f.time(e.ts)) + "," + CsvEscape(f.json(e.metadata)) + "\n";
      RowLine(f, e);
      out := out + line;
      RecordsSnoc(f, entries, k);
      LinesSnoc([Header()] + Records(f, entries[..k]), Fields(f, e));
    }
    assert entries[..|entries|] == entries;
    CsvRoundTrip(f, entries);
    RecordsTell(f, entries);
    HeaderTexts();
  }

  lemma HeaderTexts()
    ensures Header() == ["id", "session_id", "workspace_id", "agent_id", "action", "resource", "resource_id",
                         "decision", "reason", "risk_score", "ts", "metadata"]
  {
  }

  lemma RowLine(f: Formats, e: Entry)
    requires PlainScores(f)
    ensures Line(Fields(f, e)) == CsvEscape(f.id(e.id)) + "," + CsvEscape(IdOrEmpty(f, e.sessionId)) + ","
        + CsvEscape(f.id(e.workspaceId)) + "," + CsvEscape(IdOrEmpty(f, e.agentId)) + ","
        + CsvEscape(e.action) + "," + CsvEscape(e.resource) + "," + CsvEscape(OrEmpty(e.resourceId)) + ","
        + CsvEscape(e.decision) + "," + CsvEscape(OrEmpty(e.reason)) + "," + f.risk(e.riskScore) + ","
        + CsvEscape(f.time(e.ts)) + "," + CsvEscape(f.json(e.metadata)) + "\n"
  {
    hide CsvEscape, Line;
    TwelveFields(Fields(f, e));
    PlainText(f.risk(e.riskScore));
  }

  lemma RecordsNone(f: Formats, entries: seq<Entry>)
    ensures [Header()] + Records(f, entries[..0]) == [Header()]
  {
    hide Header;
  }

  lemma RecordsSnoc(f: Formats, entries: seq<Entry>, k: nat)
    requires k < |entries|
    ensures [Header()] + Records(f, entries[..k + 1]) ==
            ([Header()] + Records(f, entries[..k])) + [Fields(f, entries[k])]
  {
    assert entries[..k + 1][..k] == entries[..k];
  }

  lemma PlainText(s: string)
    requires ',' !in s && '"' !in s && '\n' !in s
    ensures CsvEscape(s) == s
  {
  }

  lemma LineStep(before: string, s: seq<string>)
    requires |s| > 1
    ensures before + Line(s) == before + CsvEscape(s[0]) + "," + Line(s[1..])
  {
    hide CsvEscape;
    var field, rest := CsvEscape(s[0]), Line(s[1..]);
    assert Line(s) == field + "," + rest;
    Regroup(before, field, ",", rest);
  }

  lemma Regroup(a: string, b: string, c: string, d: string)
    ensures a + (b + c + d) == a + b + c + d
  {
  }

  /** The format string of the export writes the line of twelve fields. */
  lemma TwelveFields(s: seq<string>)
    requires |s| == 12
    ensures Line(s) == CsvEscape(s[0]) + "," + CsvEscape(s[1]) + "," + CsvEscape(s[2]) + "," + CsvEscape(s[3]) + ","
              + CsvEscape(s[4]) + "," + CsvEscape(s[5]) + "," + CsvEscape(s[6]) + "," + CsvEscape(s[7]) + ","
              + CsvEscape(s[8]) + "," + CsvEscape(s[9]) + "," + CsvEscape(s[10]) + "," + CsvEscape(s[11]) + "\n"
  {
    hide CsvEscape, Line;
    var a1 := CsvEscape(s[0]) + ",";
    assert Line(s) == "" + Line(s);
    LineStep("", s);
    assert "" + CsvEscape(s[0]) + "," == a1;
    var a3 := TwoSteps(a1, s, 1);
    var a5 := TwoSteps(a3, s, 3);
    var a7 := TwoSteps(a5, s, 5);
    var a9 := TwoSteps(a7, s, 7);
    var a11 := TwoSteps(a9, s, 9);
    LastStep(a11, s[11..]);
  }

  lemma TwoSteps(before: string, s: seq<string>, k: nat) returns (after: string)
    requires k + 2 < |s|
    ensures after == before + CsvEscape(s[k]) + "," + CsvEscape(s[k + 1]) + ","
    ensures before + Line(s[k..]) == after + Line(s[k + 2..])
  {
    hide CsvEscape, Line;
    after := before + CsvEscape(s[k]) + "," + CsvEscape(s[k + 1]) + ",";
    LineStep(before, s[k..]);
    assert s[k..][1..] == s[k + 1..];
    LineStep(before + CsvEscape(s[k]) + ",", s[k + 1..]);
    assert s[k + 1..][1..] == s[k + 2..];
  }

  lemma LastStep(before: string, s: seq<string>)
    requires |s| == 1
    ensures before + Line(s) == before + CsvEscape(s[0]) + "\n"
  {
    hide CsvEscape;
  }

  lemma PlainName(s: string)
    requires forall i :: 0 <= i < |s| ==> 'a' <= s[i] <= 'z' || s[i] == '_'
    ensures CsvEscape(s) == s
  {
    PlainText(s);
  }

  lemma HeaderNames()
    ensures forall k :: 0 <= k < |Header()| ==> CsvEscape(Header()[k]) == Header()[k]
  {
    hide CsvEscape;
    forall k | 0 <= k < |Header()|
      ensures CsvEscape(Header()[k]) == Header()[k]
    {
      PlainName(Header()[k]);
    }
  }

  lemma HeaderLine()
    ensures Lines([Header()]) ==
      "id" + "," + "session_id" + "," + "workspace_id" + "," + "agent_id" + "," + "action" + ","
      + "resource" + "," + "resource_id" + "," + "decision" + "," + "reason" + "," + "risk_score" + "," + "ts" + ","
      + "metadata" + "\n"
  {
    hide CsvEscape, Line;
    TwelveFields(Header());
    HeaderNames();
    assert Lines([Header()]) == Line(Header()) + Lines([]);
  }

  lemma {:induction false} LinesSnoc(records: seq<seq<string>>, r: seq<string>)
    requires r != [] && Filled(records)
    ensures Lines(records + [r]) == Lines(records) + Line(r)
  {
    if records == [] {
      assert records + [r] == [r];
      assert Lines([r]) == Line(r) + Lines([]);
    } else {
      assert (records + [r])[1..] == records[1..] + [r];
      LinesSnoc(records[1..], r);
    }
  }

  // ---------- the decoder ----------

  /** One field and what follows it. */
  datatype Field = Field(text: string, rest: string)

  /** Reads up to the closing quote; two quotes in a row stand for one. */
  function ReadQuoted(s: string): (r: Option<Field>)
    ensures r.Some? ==> |r.value.rest| < |s|
  {
    if s == "" then None
    else if s[0] != '"' then
      match ReadQuoted(s[1..])
      case None => None
      case Some(f) => Some(Field([s[0]] + f.text, f.rest))
    else if |s| > 1 && s[1] == '"' then
      match ReadQuoted(s[2..])
      case None => None
      case Some(f) => Some(Field("\"" + f.text, f.rest))
    else Some(Field("", s[1..]))
  }

  function ReadField(s: string): (r: Option<Field>)
    ensures r.Some? ==> |r.value.rest| <= |s|
  {
    if s != "" && s[0] == '"' then ReadQuoted(s[1..])
    else
      var n := Until(s, {',', '\n'});
      Some(Field(s[..n], s[n..]))
  }

  /** The records of a text; every record ends in a line feed. `done` are the fields of the
      record being read. */
  function Decode(s: string, done: seq<string>): Option<seq<seq<string>>>
    decreases |s|
  {
    if s == "" then (if done == [] then Some([]) else None)
    else
      match ReadField(s)
      case None => None
      case Some(Field(text, rest)) =>
        if rest == "" then None
        else if rest[0] == ',' then Decode(rest[1..], done + [text])
        else if rest[0] == '\n' then
          var more := Decode(rest[1..], []);
          if more.None? then None else Some([done + [text]] + more.value)
        else None
  }

  lemma ReadClosing(rest: string)
    requires rest == "" || rest[0] != '"'
    ensures ReadQuoted("\"" + rest) == Some(Field("", rest))
  {
  }

  lemma ReadEscaped(c: char, tail: string)
    requires ReadQuoted(tail).Some?
    ensures var quoted := if c == '"' then "\"\"" else [c];
            ReadQuoted(quoted + tail) == Some(Field([c] + ReadQuoted(tail).value.text, ReadQuoted(tail).value.rest))
  {
    if c == '"' {
      assert ("\"\"" + tail)[2..] == tail;
    } else {
      assert ([c] + tail)[1..] == tail;
    }
  }

  lemma {:induction false} ReadQuotedBack(value: string, rest: string)
    requires rest == "" || rest[0] != '"'
    ensures ReadQuoted(DoubleQuotes(value) + ("\"" + rest)) == Some(Field(value, rest))
  {
    hide ReadQuoted;
    if value == "" {
      assert DoubleQuotes(value) + ("\"" + rest) == "\"" + rest;
      ReadClosing(rest);
    } else {
      var c, tail := value[0], DoubleQuotes(value[1..]) + ("\"" + rest);
      ReadQuotedBack(value[1..], rest);
      assert value == [c] + value[1..];
      assert DoubleQuotes(value) + ("\"" + rest) == (if c == '"' then "\"\"" else [c]) + tail;
      ReadEscaped(c, tail);
    }
  }

  lemma ReadFieldBack(value: string, rest: string)
    requires rest != "" && (rest[0] == ',' || rest[0] == '\n')
    ensures ReadField(CsvEscape(value) + rest) == Some(Field(value, rest))
  {
    var s := CsvEscape(value) + rest;
    if ',' in value || '"' in value || '\n' in value {
      assert s == "\"" + (DoubleQuotes(value) + ("\"" + rest));
      assert s[1..] == DoubleQuotes(value) + ("\"" + rest);
      ReadQuotedBack(value, rest);
    } else {
      UntilAt(value, rest, {',', '\n'});
      assert s[..|value|] == value && s[|value|..] == rest;
      if value != "" {
        assert s[0] == value[0] && value[0] in value;
      }
    }
  }

  lemma {:induction false} DecodeLine(fields: seq<string>, done: seq<string>, rest: string)
    requires fields != []
    ensures Decode(Line(fields) + rest, done) ==
            if Decode(rest, []).None? then None else Some([done + fields] + Decode(rest, []).value)
    decreases |fields|
  {
    var value := fields[0];
    var s := Line(fields) + rest;
    if |fields| == 1 {
      var tail := "\n" + rest;
      assert s == CsvEscape(value) + tail;
      ReadFieldBack(value, tail);
      assert tail[1..] == rest && fields == [value];
    } else {
      var tail := "," + (Line(fields[1..]) + rest);
      assert s == CsvEscape(value) + tail;
      ReadFieldBack(value, tail);
      assert tail[1..] == Line(fields[1..]) + rest;
      DecodeLine(fields[1..], done + [value], rest);
      assert done + [value] + fields[1..] == done + fields;
    }
  }

  lemma {:induction false} DecodeLines(records: seq<seq<string>>)
    requires Filled(records)
    ensures Decode(Lines(records), []) == Some(records)
  {
    if records != [] {
      DecodeLines(records[1..]);
      DecodeLine(records[0], [], Lines(records[1..]));
      assert [] + records[0] == records[0] && [records[0]] + records[1..] == records;
    }
  }

  /** The exported text decodes to the header and the twelve texts of every row, whatever commas,
      quotes and line feeds they hold. */
  lemma CsvRoundTrip(f: Formats, entries: seq<Entry>)
    ensures Decode(Lines([Header()] + Records(f, entries)), []) == Some([Header()] + Records(f, entries))
  {
    DecodeLines([Header()] + Records(f, entries));
  }
}
