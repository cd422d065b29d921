/** The Flask back end: its response sanitizer, the conversation file codec
    (which keeps tool messages but forgets their call ids), the
    `/api/conversation` view, and the chat and image routes. */
module ApiServer {
  import opened Strings
  import opened Messages
  import opened Tools
  import Agent

  // ---------------------------------------------------------------------
  // extract_final_response

  const ThoughtMarkers: seq<string> := ["thought", "reasoning", "step", "analyz", "hmm"]

  /** A line that mentions a chain-of-thought marker in any letter case. */
  predicate Marked(line: string) {
    ContainsAny(Lower(line), ThoughtMarkers)
  }

  lemma MarkersShape()
    ensures forall k :: 0 <= k < |ThoughtMarkers| ==> ThoughtMarkers[k] != [] && NoSpace(ThoughtMarkers[k])
  {}

  /** Cutting whitespace off a line never creates a marker, and stripping a
      line keeps it free of line breaks. */
  lemma KeepOne(line: string)
    ensures Stripped(Strip(line))
    ensures !Marked(line) ==> !Marked(Strip(line))
    ensures NoBreak(line) ==> NoBreak(Strip(line))
  {
    var i, j := StripShape(line);
    if Marked(Strip(line)) {
      LowerSlice(line, i, j);
      ContainsAnyInSlice(Lower(line), i, j, ThoughtMarkers);
    }
    if NoBreak(line) {
      forall k | 0 <= k < |Strip(line)| ensures !IsLineBreak(Strip(line)[k]) {
        assert Strip(line)[k] == line[i + k];
      }
    }
  }

  /** The loop's `filtered` list: every unmarked line, stripped, in order. */
  function KeptLines(lines: seq<string>): (r: seq<string>)
    ensures |r| <= |lines|
    decreases |lines|
  {
    if lines == [] then []
    else
      var last := lines[|lines| - 1];
      KeptLines(lines[..|lines| - 1]) + (if Marked(last) then [] else [Strip(last)])
  }

  /** Every kept line is stripped and free of markers. */
  lemma {:induction false} KeptClean(lines: seq<string>)
    ensures forall k :: 0 <= k < |KeptLines(lines)| ==>
              Stripped(KeptLines(lines)[k]) && !Marked(KeptLines(lines)[k])
    decreases |lines|
  {
    if lines != [] {
      var last := lines[|lines| - 1];
      KeepOne(last);
      KeptClean(lines[..|lines| - 1]);
    }
  }

  /** Kept lines of break-free lines are break-free. */
  lemma {:induction false} KeptNoBreak(lines: seq<string>)
    requires forall k :: 0 <= k < |lines| ==> NoBreak(lines[k])
    ensures forall k :: 0 <= k < |KeptLines(lines)| ==> NoBreak(KeptLines(lines)[k])
    decreases |lines|
  {
    if lines != [] {
      var init := lines[..|lines| - 1];
      var last := lines[|lines| - 1];
      KeepOne(last);
      assert forall k :: 0 <= k < |init| ==> init[k] == lines[k];
      KeptNoBreak(init);
    }
  }

  lemma KeptStep(lines: seq<string>)
    requires lines != []
    ensures KeptLines(lines) == KeptLines(lines[..|lines| - 1]) +
              (if Marked(lines[|lines| - 1]) then [] else [Strip(lines[|lines| - 1])])
  {}

  /** `"\n".join(filtered).strip()` */
  function Filtered(content: string): string {
    Strip(Join("\n", KeptLines(SplitLines(content))))
  }

  /** What extract_final_response returns. */
  function FinalResponse(content: string): string {
    if content == [] then []
    else
      var f := Filtered(content);
      if f != [] then f else Strip(content)
  }

  method ExtractFinalResponse(content: string) returns (r: string)
    ensures r == FinalResponse(content)
  {
    if content == [] {
      return "";
    }
    var lines := SplitLines(content);
    var filtered: seq<string> := [];
    var i := 0;
    while i < |lines|
      invariant 0 <= i <= |lines|
      invariant filtered == KeptLines(lines[..i])
    {
      var line := lines[i];
      assert lines[..i + 1][..i] == lines[..i];
      KeptStep(lines[..i + 1]);
      if !Marked(line) {
        filtered := filtered + [Strip(line)];
      }
      i := i + 1;
    }
    assert lines[..|lines|] == lines;
    var result := Strip(Join("\n", filtered));
    r := if result != [] then result else Strip(content);
  }

  // ---------------------------------------------------------------------
  // Blank lines at the ends of the joined text

  /** Drops the leading empty strings. */
  function DropLeading(parts: seq<string>): seq<string>
    decreases |parts|
  {
    if parts != [] && parts[0] == [] then DropLeading(parts[1..]) else parts
  }

  /** Drops the trailing empty strings. */
  function DropTrailing(parts: seq<string>): seq<string>
    decreases |parts|
  {
    if parts != [] && parts[|parts| - 1] == [] then DropTrailing(parts[..|parts| - 1]) else parts
  }

  /** DropLeading keeps a suffix of the parts. */
  lemma {:induction false} DropLeadingSuffix(parts: seq<string>)
    ensures var r := DropLeading(parts); |r| <= |parts| && r == parts[|parts| - |r|..]
    decreases |parts|
  {
    if parts != [] && parts[0] == [] {
      var t := parts[1..];
      DropLeadingSuffix(t);
      assert t[|t| - |DropLeading(t)|..] == parts[|parts| - |DropLeading(t)|..];
    }
  }

  /** What DropLeading removes is empty, and it stops at a non-empty part. */
  lemma {:induction false} DropLeadingBlank(parts: seq<string>)
    ensures var r := DropLeading(parts);
      |r| <= |parts| && (forall k :: 0 <= k < |parts| - |r| ==> parts[k] == []) && (r == [] || r[0] != [])
    decreases |parts|
  {
    if parts != [] && parts[0] == [] {
      var t := parts[1..];
      DropLeadingBlank(t);
      assert forall k :: 0 <= k < |t| ==> t[k] == parts[k + 1];
    }
  }

  /** DropTrailing keeps a prefix of the parts. */
  lemma {:induction false} DropTrailingPrefix(parts: seq<string>)
    ensures var r := DropTrailing(parts); |r| <= |parts| && r == parts[..|r|]
    decreases |parts|
  {
    if parts != [] && parts[|parts| - 1] == [] {
      var t := parts[..|parts| - 1];
      DropTrailingPrefix(t);
      assert t[..|DropTrailing(t)|] == parts[..|DropTrailing(t)|];
    }
  }

  /** What DropTrailing removes is empty, and it stops at a non-empty part. */
  lemma {:induction false} DropTrailingBlank(parts: seq<string>)
    ensures var r := DropTrailing(parts);
      |r| <= |parts| && (forall k :: |r| <= k < |parts| ==> parts[k] == []) && (r == [] || r[|r| - 1] != [])
    decreases |parts|
  {
    if parts != [] && parts[|parts| - 1] == [] {
      var t := parts[..|parts| - 1];
      DropTrailingBlank(t);
      assert forall k :: 0 <= k < |t| ==> t[k] == parts[k];
    }
  }

  /** The kept lines without the blank ones at either end. */
  function TrimBlank(parts: seq<string>): seq<string> {
    DropTrailing(DropLeading(parts))
  }

  predicate AllStripped(parts: seq<string>) {
    forall k :: 0 <= k < |parts| ==> Stripped(parts[k])
  }

  lemma JoinHead(parts: seq<string>)
    requires parts != [] && parts[0] != []
    ensures Join("\n", parts) != [] && Join("\n", parts)[0] == parts[0][0]
  {}

  lemma {:induction false} LStripJoin(parts: seq<string>)
    requires AllStripped(parts)
    ensures LStrip(Join("\n", parts)) == Join("\n", DropLeading(parts))
    decreases |parts|
  {
    if parts == [] {
    } else if parts[0] == [] {
      if |parts| == 1 {
        assert DropLeading(parts) == DropLeading([]);
      } else {
        var rest := Join("\n", parts[1..]);
        assert Join("\n", parts) == "\n" + rest;
        LStripPadded("\n", rest);
        LStripJoin(parts[1..]);
      }
    } else {
      var j := Join("\n", parts);
      JoinHead(parts);
      LStripUnique(j, 0);
    }
  }

  lemma JoinTail(parts: seq<string>)
    requires parts != [] && parts[|parts| - 1] != []
    ensures Join("\n", parts) != []
    ensures Join("\n", parts)[|Join("\n", parts)| - 1] == parts[|parts| - 1][|parts[|parts| - 1]| - 1]
  {
    if |parts| > 1 {
      var init := parts[..|parts| - 1];
      assert parts == init + [parts[|parts| - 1]];
      JoinSnoc("\n", init, parts[|parts| - 1]);
    }
  }

  lemma {:induction false} RStripJoin(parts: seq<string>)
    requires AllStripped(parts)
    ensures RStrip(Join("\n", parts)) == Join("\n", DropTrailing(parts))
    decreases |parts|
  {
    if parts == [] {
    } else if parts[|parts| - 1] == [] {
      var init := parts[..|parts| - 1];
      if |parts| == 1 {
        assert DropTrailing(parts) == DropTrailing([]);
      } else {
        assert parts == init + [[]];
        JoinSnoc("\n", init, []);
        assert Join("\n", parts) == Join("\n", init) + "\n";
        RStripPadded(Join("\n", init), "\n");
        RStripJoin(init);
      }
    } else {
      var j := Join("\n", parts);
      JoinTail(parts);
      RStripUnique(j, |j|);
      assert j[..|j|] == j;
    }
  }

  /** Stripping the joined kept lines removes exactly the blank lines at both ends. */
  lemma StripJoin(parts: seq<string>)
    requires AllStripped(parts)
    ensures Strip(Join("\n", parts)) == Join("\n", TrimBlank(parts))
  {
    LStripJoin(parts);
    var d := DropLeading(parts);
    DropLeadingSuffix(parts);
    assert AllStripped(d);
    RStripJoin(d);
  }

  /** TrimBlank keeps a contiguous run of the lines. */
  lemma TrimBlankRun(parts: seq<string>) returns (i: nat)
    ensures var t := TrimBlank(parts);
      i + |t| <= |parts| && forall k :: 0 <= k < |t| ==> t[k] == parts[i + k]
  {
    var d := DropLeading(parts);
    DropLeadingSuffix(parts);
    DropTrailingPrefix(d);
    i := |parts| - |d|;
  }

  /** The last line TrimBlank keeps is not empty. */
  lemma TrimBlankLast(parts: seq<string>)
    ensures var t := TrimBlank(parts); t == [] || t[|t| - 1] != []
  {
    DropTrailingBlank(DropLeading(parts));
  }

  /** Joined and split again, the trimmed kept lines come back unchanged. */
  lemma TrimmedLines(kept: seq<string>)
    requires forall k :: 0 <= k < |kept| ==> Stripped(kept[k]) && !Marked(kept[k]) && NoBreak(kept[k])
    requires Join("\n", TrimBlank(kept)) != []
    ensures SplitLines(Join("\n", TrimBlank(kept))) == TrimBlank(kept)
    ensures forall k :: 0 <= k < |TrimBlank(kept)| ==>
              Stripped(TrimBlank(kept)[k]) && !Marked(TrimBlank(kept)[k])
  {
    var t := TrimBlank(kept);
    var i := TrimBlankRun(kept);
    TrimBlankLast(kept);
    assert t != [];
    SplitLinesJoin(t);
  }

  /** The lines of a filtered response are the kept lines minus the blank
      lines at either end: each one stripped and free of every marker. */
  lemma FilteredLines(content: string)
    requires Filtered(content) != []
    ensures FinalResponse(content) == Filtered(content)
    ensures SplitLines(Filtered(content)) == TrimBlank(KeptLines(SplitLines(content)))
    ensures forall k :: 0 <= k < |SplitLines(Filtered(content))| ==>
              var line := SplitLines(Filtered(content))[k];
              Stripped(line) && !Marked(line)
  {
    var lines := SplitLines(content);
    var kept := KeptLines(lines);
    KeptClean(lines);
    SplitLinesNoBreak(content);
    KeptNoBreak(lines);
    StripJoin(kept);
    TrimmedLines(kept);
  }

  // ---------------------------------------------------------------------
  // Lines that the filter cannot turn into output

  /** A line the filter drops or strips to nothing. */
  predicate Dull(line: string) {
    Marked(line) || AllSpace(line)
  }

  predicate AllDull(lines: seq<string>) {
    forall k :: 0 <= k < |lines| ==> Dull(lines[k])
  }

  lemma DullTrim(a: string, s: string, b: string)
    requires AllSpace(a) && AllSpace(b) && Dull(a + s + b)
    ensures Dull(s)
  {
    if Marked(a + s + b) {
      LowerAppend(a + s, b);
      LowerAppend(a, s);
      LowerSpaces(a);
      LowerSpaces(b);
      MarkersShape();
      ContainsAnyPadded(Lower(a), Lower(s), Lower(b), ThoughtMarkers);
    } else {
      forall i | 0 <= i < |s| ensures IsSpace(s[i]) { assert s[i] == (a + s + b)[|a| + i]; }
    }
  }

  lemma DullTrimFirst(c: char, s: string)
    requires IsSpace(c) && Dull([c] + s)
    ensures Dull(s)
  {
    assert [c] + s + [] == [c] + s;
    DullTrim([c], s, []);
  }

  lemma DullTrimLast(s: string, c: char)
    requires IsSpace(c) && Dull(s + [c])
    ensures Dull(s)
  {
    assert [] + s + [c] == s + [c];
    DullTrim([], s, [c]);
  }

  predicate AllEmpty(parts: seq<string>) {
    forall k :: 0 <= k < |parts| ==> parts[k] == []
  }

  lemma AllEmptyAppend(a: seq<string>, b: seq<string>)
    ensures AllEmpty(a + b) <==> AllEmpty(a) && AllEmpty(b)
  {
    assert forall k :: 0 <= k < |b| ==> (a + b)[|a| + k] == b[k];
    assert forall k :: 0 <= k < |a| ==> (a + b)[k] == a[k];
  }

  lemma AllDullSnoc(lines: seq<string>)
    requires lines != []
    ensures AllDull(lines) <==> AllDull(lines[..|lines| - 1]) && Dull(lines[|lines| - 1])
  {
    assert forall k :: 0 <= k < |lines| - 1 ==> lines[..|lines| - 1][k] == lines[k];
  }

  lemma {:induction false} KeptBlankIffDull(lines: seq<string>)
    ensures AllEmpty(KeptLines(lines)) <==> AllDull(lines)
    decreases |lines|
  {
    if lines != [] {
      var init := lines[..|lines| - 1];
      var last := lines[|lines| - 1];
      KeptStep(lines);
      KeptBlankIffDull(init);
      AllDullSnoc(lines);
      if Marked(last) {
        assert KeptLines(init) + [] == KeptLines(init);
      } else {
        AllEmptyAppend(KeptLines(init), [Strip(last)]);
        assert [Strip(last)][0] == Strip(last);
        StripAllSpace(last);
      }
    }
  }

  /** The filter yields nothing exactly when every line of the content is dull. */
  lemma FilteredEmptyIffDull(content: string)
    ensures Filtered(content) == [] <==> AllDull(SplitLines(content))
  {
    var kept := KeptLines(SplitLines(content));
    var j := Join("\n", kept);
    KeptClean(SplitLines(content));
    KeptBlankIffDull(SplitLines(content));
    StripAllSpace(j);
    if AllDull(SplitLines(content)) {
      JoinAllSpace("\n", kept);
    }
    if Filtered(content) == [] {
      JoinSpaceParts("\n", kept);
      forall k | 0 <= k < |kept| ensures kept[k] == [] {
        assert Stripped(kept[k]) && AllSpace(kept[k]);
      }
      assert AllEmpty(kept);
    }
  }

  lemma SplitLinesAllSpace(s: string)
    requires AllSpace(s)
    ensures AllDull(SplitLines(s))
    decreases |s|
  {
    if s != [] {
      var i := LineEnd(s);
      if i < |s| {
        var t := s[NextLineStart(s, i)..];
        assert forall k :: 0 <= k < |t| ==> t[k] == s[NextLineStart(s, i) + k];
        SplitLinesAllSpace(t);
        assert forall k :: 0 <= k < i ==> s[..i][k] == s[k];
      }
    }
  }

  /** Dropping one leading whitespace character keeps every line dull. */
  lemma DullDropFirst(c: char, q: string)
    requires IsSpace(c) && AllDull(SplitLines([c] + q))
    ensures AllDull(SplitLines(q))
  {
    LinesDropFirst(c, q);
    var l, m := SplitLines([c] + q), SplitLines(q);
    if m != l && |m| == |l| {
      assert Dull(l[0]);
      DullTrimFirst(c, m[0]);
    }
  }

  lemma DullDropPrefix(p: string, q: string)
    requires AllSpace(p) && AllDull(SplitLines(p + q))
    ensures AllDull(SplitLines(q))
    decreases |p|
  {
    if p != [] {
      SpaceHead(p, q);
      DullDropFirst(p[0], p[1..] + q);
      DullDropPrefix(p[1..], q);
    } else {
      AppendEmpty(q);
    }
  }

  /** Dropping one trailing whitespace character keeps every line dull. */
  lemma DullDropLast(q: string, c: char)
    requires IsSpace(c) && AllDull(SplitLines(q + [c]))
    ensures AllDull(SplitLines(q))
  {
    LinesDropLast(q, c);
    var l, n := SplitLines(q + [c]), SplitLines(q);
    if n != l {
      forall k | 0 <= k < |n| ensures Dull(n[k]) {
        if k < |n| - 1 || |n| + 1 == |l| {
          assert n[k] == l[k];
        } else {
          assert Dull(l[k]);
          DullTrimLast(n[k], c);
        }
      }
    }
  }

  lemma DullDropSuffix(q: string, p: string)
    requires AllSpace(p) && AllDull(SplitLines(q + p))
    ensures AllDull(SplitLines(q))
    decreases |p|
  {
    if p != [] {
      var n := |p| - 1;
      SpaceLast(q, p);
      DullDropLast(q + p[..n], p[n]);
      DullDropSuffix(q, p[..n]);
    } else {
      AppendEmpty(q);
    }
  }

  lemma DullStrip(x: string)
    requires AllDull(SplitLines(x))
    ensures AllDull(SplitLines(Strip(x)))
  {
    var a, b := StripPad(x);
    DullDropPrefix(a, Strip(x) + b);
    DullDropSuffix(Strip(x), b);
  }

  // ---------------------------------------------------------------------
  // Properties of extract_final_response

  /** The response is empty exactly when the content is all whitespace. */
  lemma FinalEmptyIffBlank(content: string)
    ensures FinalResponse(content) == [] <==> AllSpace(content)
  {
    FilteredEmptyIffDull(content);
    StripAllSpace(content);
    if AllSpace(content) {
      SplitLinesAllSpace(content);
    }
  }

  /** A filtered response passes through the filter unchanged. */
  lemma FilteredFixed(content: string)
    requires Filtered(content) != []
    ensures Filtered(Filtered(content)) == Filtered(content)
  {
    var r := Filtered(content);
    var kept := KeptLines(SplitLines(content));
    KeptClean(SplitLines(content));
    StripJoin(kept);
    FilteredLines(content);
    KeptOfClean(SplitLines(r));
    StripIdempotent(Join("\n", kept));
  }

  /** When nothing survives the filter, nothing survives it in the stripped content either. */
  lemma FallbackFixed(content: string)
    requires Filtered(content) == []
    ensures Filtered(Strip(content)) == []
  {
    FilteredEmptyIffDull(content);
    DullStrip(content);
    FilteredEmptyIffDull(Strip(content));
  }

  /** Sanitizing a sanitized response changes nothing. */
  lemma FinalIdempotent(content: string)
    ensures FinalResponse(FinalResponse(content)) == FinalResponse(content)
  {
    if content != [] {
      if Filtered(content) != [] {
        FilteredFixed(content);
      } else {
        FallbackFixed(content);
        StripIdempotent(content);
      }
    }
  }

  lemma {:induction false} KeptOfClean(lines: seq<string>)
    requires forall k :: 0 <= k < |lines| ==> Stripped(lines[k]) && !Marked(lines[k])
    ensures KeptLines(lines) == lines
    decreases |lines|
  {
    if lines != [] {
      var init := lines[..|lines| - 1];
      var last := lines[|lines| - 1];
      assert forall k :: 0 <= k < |init| ==> init[k] == lines[k];
      KeptStep(lines);
      KeptOfClean(init);
      StripOfStripped(last);
      assert lines == init + [last];
    }
  }

  // ---------------------------------------------------------------------
  // conversation.json: save_conversation and load_conversation

  /** The record save_conversation writes for one message: "type" and
      "content" only; message kinds other than the three are skipped. */
  function SavedRecord(m: Msg): seq<Record> {
    match m
    case Human(c) => [Record(Some("human"), Some(c), None)]
    case AI(c) => [Record(Some("ai"), Some(c), None)]
    case Tool(c, _) => [Record(Some("tool"), Some(c), None)]
    case Other(_, _) => []
  }

  function SavedRecords(ms: seq<Msg>): seq<Record> {
    Encode(ms, SavedRecord)
  }

  /** save_conversation: the file afterwards holds the records of the
      messages, in order. */
  method SaveConversation(messages: seq<Msg>) returns (file: Stored)
    ensures file == Saved(SavedRecords(messages))
  {
    var serializable: seq<Record> := [];
    for i := 0 to |messages|
      invariant serializable == SavedRecords(messages[..i])
    {
      var m := messages[i];
      assert messages[..i + 1][..i] == messages[..i];
      if m.Human? {
        serializable := serializable + [Record(Some("human"), Some(m.content), None)];
      } else if m.AI? {
        serializable := serializable + [Record(Some("ai"), Some(m.content), None)];
      } else if m.Tool? {
        serializable := serializable + [Record(Some("tool"), Some(m.content), None)];
      }
    }
    assert messages[..|messages|] == messages;
    file := Saved(serializable);
  }

  /** `m.get("type", "")` */
  function TypeOf(r: Record): string {
    if r.kind.Some? then r.kind.value else ""
  }

  predicate KnownType(r: Record) {
    TypeOf(r) == "human" || TypeOf(r) == "ai" || TypeOf(r) == "tool"
  }

  /** What one record contributes to the loaded list: nothing for an
      unknown type, None when `m["content"]` raises KeyError. */
  function LoadedRecord(r: Record): Option<seq<Msg>> {
    var t := TypeOf(r);
    if !KnownType(r) then Some([])
    else if r.content.None? then None
    else if t == "human" then Some([Human(r.content.value)])
    else if t == "ai" then Some([AI(r.content.value)])
    else Some([Tool(r.content.value, if r.toolCallId.Some? then r.toolCallId.value else "")])
  }

  /** What load_conversation returns. */
  function Loaded(file: Stored): seq<Msg> {
    Load(file, LoadedRecord)
  }

  /** load_conversation: [] for a missing or unreadable file, and for a file
      any of whose records raises. */
  method LoadConversation(file: Stored) returns (messages: seq<Msg>)
    ensures messages == Loaded(file)
  {
    if !file.Saved? {
      return [];
    }
    var raw := file.records;
    messages := [];
    for i := 0 to |raw|
      invariant Decode(raw[..i], LoadedRecord) == Some(messages)
    {
      var m := raw[i];
      DecodeStep(raw, i, LoadedRecord, messages);
      var t := if m.kind.Some? then m.kind.value else "";
      if t == "human" || t == "ai" || t == "tool" {
        if m.content.None? {
          DecodeFails(raw[..i], m, raw[i + 1..], LoadedRecord);
          assert raw[..i] + [m] + raw[i + 1..] == raw;
          return [];
        }
        if t == "human" {
          messages := messages + [Human(m.content.value)];
        } else if t == "ai" {
          messages := messages + [AI(m.content.value)];
        } else {
          messages := messages + [Tool(m.content.value, if m.toolCallId.Some? then m.toolCallId.value else "")];
        }
      } else {
        AppendNothing(messages);
      }
    }
    assert raw[..|raw|] == raw;
  }

  /** A record of a known type without "content" empties the whole load,
      wherever it stands. */
  lemma MissingContentEmptiesLoad(a: seq<Record>, r: Record, b: seq<Record>)
    requires KnownType(r) && r.content.None?
    ensures Loaded(Saved(a + [r] + b)) == []
  {
    DecodeFails(a, r, b, LoadedRecord);
  }

  /** A record of any other type, or without a type, is skipped. */
  lemma UnknownRecordSkipped(a: seq<Record>, r: Record, b: seq<Record>)
    requires !KnownType(r)
    ensures Loaded(Saved(a + [r] + b)) == Loaded(Saved(a + b))
  {
    DecodeSkips(a, r, b, LoadedRecord);
  }

  /** What a save followed by a load keeps of one message: its kind and
      content, with a tool call id reset to ""; other kinds are dropped. */
  function ReloadedOne(m: Msg): seq<Msg> {
    match m
    case Tool(c, _) => [Tool(c, "")]
    case Other(_, _) => []
    case _ => [m]
  }

  function Reloaded(ms: seq<Msg>): seq<Msg> {
    Expand(ms, ReloadedOne)
  }

  lemma RecordRoundTrip(m: Msg)
    ensures Decode(SavedRecord(m), LoadedRecord) == Some(ReloadedOne(m))
  {
    if SavedRecord(m) != [] {
      DecodeOne(SavedRecord(m)[0], LoadedRecord);
    }
  }

  /** load(save(log)) keeps kinds, contents and order but forgets tool call
      ids and other message kinds. */
  lemma RoundTrip(ms: seq<Msg>)
    ensures Loaded(Saved(SavedRecords(ms))) == Reloaded(ms)
  {
    forall m { RecordRoundTrip(m); }
    RoundTripBy(ms, SavedRecord, LoadedRecord, ReloadedOne);
  }

  /** No saved record carries a tool call id, and each has a type the loader
      knows and a content. */
  lemma {:induction false} SavedShape(ms: seq<Msg>)
    ensures forall k :: 0 <= k < |SavedRecords(ms)| ==>
      var r := SavedRecords(ms)[k]; r.toolCallId.None? && KnownType(r) && r.content.Some?
    decreases |ms|
  {
    if ms != [] {
      SavedShape(ms[..|ms| - 1]);
      assert SavedRecords(ms) == SavedRecords(ms[..|ms| - 1]) + SavedRecord(ms[|ms| - 1]);
    }
  }

  // ---------------------------------------------------------------------
  // GET /api/conversation

  /** One entry of the view: its "type" ("user" or "ai") and "content". */
  datatype Entry = Entry(kind: string, content: string)

  function EntryOf(m: Msg): seq<Entry> {
    match m
    case Human(c) => [Entry("user", c)]
    case AI(c) => [Entry("ai", FinalResponse(c))]
    case _ => []
  }

  function ConversationView(ms: seq<Msg>): seq<Entry>
    decreases |ms|
  {
    if ms == [] then [] else ConversationView(ms[..|ms| - 1]) + EntryOf(ms[|ms| - 1])
  }

  /** get_conversation: human messages as "user" entries, ai messages
      sanitized, in order; tool and other messages are omitted. */
  method GetConversation(file: Stored) returns (entries: seq<Entry>)
    ensures entries == ConversationView(Loaded(file))
  {
    var conversation := LoadConversation(file);
    entries := [];
    for i := 0 to |conversation|
      invariant entries == ConversationView(conversation[..i])
    {
      var msg := conversation[i];
      ViewStep(conversation, i);
      if msg.Human? {
        entries := entries + [Entry("user", msg.content)];
      } else if msg.AI? {
        var clean := ExtractFinalResponse(msg.content);
        entries := entries + [Entry("ai", clean)];
      }
    }
    assert conversation[..|conversation|] == conversation;
  }

  lemma ViewStep(ms: seq<Msg>, i: nat)
    requires i < |ms|
    ensures ConversationView(ms[..i + 1]) == ConversationView(ms[..i]) + EntryOf(ms[i])
  {
    assert ms[..i + 1][..i] == ms[..i];
  }

  /** One message's view: a human message is a "user" entry holding its
      content verbatim, an ai message an "ai" entry holding its sanitized
      content, and any other message nothing. With ViewAppend this fixes
      the view of every log. */
  lemma ViewOne(m: Msg)
    ensures ConversationView([m]) ==
      (match m
       case Human(c) => [Entry("user", c)]
       case AI(c) => [Entry("ai", FinalResponse(c))]
       case _ => [])
  {
    assert [m][..0] == [];
  }

  /** Every entry is "user" or "ai", and every "ai" entry is already
      sanitized. */
  lemma {:induction false} ViewSanitized(ms: seq<Msg>)
    ensures forall k :: 0 <= k < |ConversationView(ms)| ==>
      var e := ConversationView(ms)[k];
      (e.kind == "user" || e.kind == "ai") && (e.kind == "ai" ==> FinalResponse(e.content) == e.content)
    decreases |ms|
  {
    if ms != [] {
      ViewSanitized(ms[..|ms| - 1]);
      var m := ms[|ms| - 1];
      if m.AI? {
        FinalIdempotent(m.content);
      }
    }
  }

  /** The view does not see what a save and load lose: tool call ids and
      other message kinds. */
  lemma {:induction false} ViewSurvivesReload(ms: seq<Msg>)
    ensures ConversationView(Reloaded(ms)) == ConversationView(ms)
    decreases |ms|
  {
    if ms != [] {
      var init := ms[..|ms| - 1];
      var m := ms[|ms| - 1];
      ViewSurvivesReload(init);
      ViewAppend(Reloaded(init), ReloadedOne(m));
    }
  }

  lemma ViewAppend(a: seq<Msg>, b: seq<Msg>)
    ensures ConversationView(a + b) == ConversationView(a) + ConversationView(b)
    decreases |b|
  {
    if b == [] {
      assert a + b == a;
    } else {
      assert (a + b)[..|a + b| - 1] == a + b[..|b| - 1];
      ViewAppend(a, b[..|b| - 1]);
    }
  }

  // ---------------------------------------------------------------------
  // POST /api/chat

  /** A JSON response: the HTTP status, "success", and the "response" text
      (on success) or the "error" text. */
  datatype Response = Response(status: nat, success: bool, text: string)

  const EmptyMessageError: string := "Message cannot be empty."
  const NoResponseMessage: string := "\U{26A0}\U{FE0F} No response generated."
  const ChatFailurePrefix: string := "Chat processing failed: "

  /** The sanitized latest ai message, or the fallback text. */
  function LatestReply(ms: seq<Msg>): string {
    match LastMatch(ms, IsAI)
    case Some(i) => FinalResponse(ms[i].content)
    case None => NoResponseMessage
  }

  /** The chat route. `message` is the request's "message" ("" when absent);
      `agent` stands for `agent.invoke`, which may raise. */
  method Chat(message: string, file: Stored, agent: seq<Msg> -> Call<seq<Msg>>)
    returns (response: Response, saved: Stored)
    ensures Strip(message) == [] ==> response == Response(400, false, EmptyMessageError) && saved == file
    ensures Strip(message) != [] ==>
      var result := agent(Loaded(file) + [Human(Strip(message))]);
      (result.Raised? ==> response == Response(500, false, ChatFailurePrefix + result.error) && saved == file)
      && (result.Returned? ==>
            response == Response(200, true, LatestReply(result.value))
            && saved == Saved(SavedRecords(result.value)))
  {
    var userMessage := Strip(message);
    if userMessage == [] {
      return Response(400, false, EmptyMessageError), file;
    }
    var conversation := LoadConversation(file);
    conversation := conversation + [Human(userMessage)];
    var result := agent(conversation);
    if result.Raised? {
      return Response(500, false, ChatFailurePrefix + result.error), file;
    }
    conversation := result.value;
    saved := SaveConversation(conversation);
    var last := FindLast(conversation, IsAI);
    var aiReply := NoResponseMessage;
    if last.Some? {
      aiReply := ExtractFinalResponse(conversation[last.value].content);
    }
    response := Response(200, true, aiReply);
  }

  /** With the agent's own node behind it, a plain (non-command) message
      adds exactly its human record and one ai record to the reloaded file,
      and the reply is the sanitized chat answer. */
  lemma ChatTurnWithAgent<A>(file: Stored, text: string, c: Agent.Collaborators<A>)
    requires !Agent.IsCommand(text)
    ensures var state := Loaded(file) + [Human(text)];
      var after := state + Agent.Reply(state, c);
      |Agent.Reply(state, c)| == 1
      && SavedRecords(after) == SavedRecords(Loaded(file)) + [Record(Some("human"), Some(text), None)]
           + SavedRecords(Agent.Reply(state, c))
      && LatestReply(after) == FinalResponse(Agent.Reply(state, c)[0].content)
  {
    var state := Loaded(file) + [Human(text)];
    assert LastMatch(state, IsHuman) == Some(|state| - 1);
    var reply := Agent.Reply(state, c);
    assert |reply| == 1 && reply == [reply[0]];
    var after := state + reply;
    EncodeAppend(state, reply, SavedRecord);
    EncodeAppend(Loaded(file), [Human(text)], SavedRecord);
    assert [Human(text)][..0] == [];
    assert LastMatch(after, IsAI) == Some(|after| - 1);
  }

  // ---------------------------------------------------------------------
  // POST /api/analyze-image

  const InvalidImageError: string := "Invalid or missing image data"
  const AnalysisFailurePrefix: string := "Image analysis failed: "
  const RouteFailurePrefix: string := "\U{274C} Image analysis failed: "
  const UploadNotePrefix: string := "User uploaded image for analysis: "

  /** The three messages a successful upload appends to the conversation. */
  function UploadTurn(tmpPath: string, rendered: string, explanation: string): seq<Msg> {
    [Human(UploadNotePrefix + tmpPath), Tool(rendered, Agent.AnalyzeToolId), AI(explanation)]
  }

  /** The image route's outcome when the vision tool is handed `argument`:
      the data URL's payload is decoded (which may raise), the image is
      written to `tmpPath`, analysed and explained, and the turn is
      appended to the conversation. */
  function ImageRoute<B>(image: Option<string>, tmpPath: string, argument: string,
                         decode: string -> Call<B>, analyze: string -> Call<Analysis>,
                         render: Analysis -> string, explain: Analysis -> Call<string>,
                         file: Stored): (Response, Stored)
  {
    if image.None? || image.value == [] || ',' !in image.value then
      (Response(400, false, InvalidImageError), file)
    else
      var payload := Payload(image.value);
      match decode(payload)
      case Raised(e) => (Response(500, false, RouteFailurePrefix + e), file)
      case Returned(_) =>
        match analyze(argument)
        case Raised(e) => (Response(500, false, RouteFailurePrefix + e), file)
        case Returned(analysis) =>
          if analysis.Unopenable? then (Response(500, false, AnalysisFailurePrefix + analysis.error), file)
          else
            match explain(analysis)
            case Raised(e) => (Response(500, false, RouteFailurePrefix + e), file)
            case Returned(explanation) =>
              (Response(200, true, FinalResponse(explanation)),
               Saved(SavedRecords(Loaded(file) + UploadTurn(tmpPath, render(analysis), explanation))))
  }

  /** `image_data.split(",")[1]` */
  function Payload(image: string): string
    requires ',' in image
  {
    SplitHasSecond(image);
    Split(image, ",")[1]
  }

  lemma SplitHasSecond(image: string)
    requires ',' in image
    ensures |Split(image, ",")| >= 2
  {
    SingleCharContains(image, ',');
    assert Find(image, ",") >= 0;
  }

  /** The upload steps shared by both versions of the route. */
  method Upload<B>(image: Option<string>, tmpPath: string, argument: string,
                   decode: string -> Call<B>, analyze: string -> Call<Analysis>,
                   render: Analysis -> string, explain: Analysis -> Call<string>,
                   file: Stored) returns (response: Response, saved: Stored)
    ensures (response, saved) == ImageRoute(image, tmpPath, argument, decode, analyze, render, explain, file)
    ensures response.success ==> saved == Saved(SavedRecords(Loaded(file) + UploadTurn(tmpPath,
      render(analyze(argument).value), explain(analyze(argument).value).value)))
    ensures !response.success ==> saved == file
  {
    if image.None? || image.value == [] || ',' !in image.value {
      return Response(400, false, InvalidImageError), file;
    }
    var imageBytes := decode(Payload(image.value));
    if imageBytes.Raised? {
      return Response(500, false, RouteFailurePrefix + imageBytes.error), file;
    }
    var analysis := analyze(argument);
    if analysis.Raised? {
      return Response(500, false, RouteFailurePrefix + analysis.error), file;
    }
    if analysis.value.Unopenable? {
      return Response(500, false, AnalysisFailurePrefix + analysis.value.error), file;
    }
    var explanation := explain(analysis.value);
    if explanation.Raised? {
      return Response(500, false, RouteFailurePrefix + explanation.error), file;
    }
    var aiResponse := explanation.value;
    var conversation := LoadConversation(file);
    conversation := conversation + [Human(UploadNotePrefix + tmpPath)];
    conversation := conversation + [Tool(render(analysis.value), Agent.AnalyzeToolId)];
    conversation := conversation + [AI(aiResponse)];
    assert conversation == Loaded(file) + UploadTurn(tmpPath, render(analysis.value), aiResponse);
    saved := SaveConversation(conversation);
    var clean := ExtractFinalResponse(aiResponse);
    response := Response(200, true, clean);
  }

  /** The route as written: the vision tool receives the whole command
      string, not the path of the file just written. */
  method AnalyzeImageRoute<B>(image: Option<string>, tmpPath: string,
                              decode: string -> Call<B>, analyze: string -> Call<Analysis>,
                              render: Analysis -> string, explain: Analysis -> Call<string>,
                              file: Stored) returns (response: Response, saved: Stored)
    ensures (response, saved) ==
      ImageRoute(image, tmpPath, Agent.CommandPrefix + " " + tmpPath, decode, analyze, render, explain, file)
  {
    response, saved := Upload(image, tmpPath, Agent.CommandPrefix + " " + tmpPath,
      decode, analyze, render, explain, file);
  }

  /** The route as intended: the vision tool receives the uploaded file's path. */
  method AnalyzeImageRouteFixed<B>(image: Option<string>, tmpPath: string,
                                   decode: string -> Call<B>, analyze: string -> Call<Analysis>,
                                   render: Analysis -> string, explain: Analysis -> Call<string>,
                                   file: Stored) returns (response: Response, saved: Stored)
    ensures (response, saved) == ImageRoute(image, tmpPath, tmpPath, decode, analyze, render, explain, file)
  {
    response, saved := Upload(image, tmpPath, tmpPath, decode, analyze, render, explain, file);
  }

  /** As written, an upload of a decodable image can never succeed when the
      only openable file is the one just written: the vision tool is asked
      to open "ANALYZE_IMAGE: <path>", reports an error, and nothing is
      saved. */
  lemma AsWrittenUploadFails<B, I>(image: string, tmpPath: string, decode: string -> Call<B>,
                                   open: string -> Call<I>, clip: I -> Probs,
                                   analyze: string -> Call<Analysis>,
                                   render: Analysis -> string, explain: Analysis -> Call<string>,
                                   file: Stored)
    requires ',' in image && decode(Payload(image)).Returned?
    requires forall p :: analyze(p) == Returned(AnalyzeImage(p, open, clip))
    requires forall p :: open(p).Returned? <==> p == tmpPath
    ensures var out := ImageRoute(Some(image), tmpPath, Agent.CommandPrefix + " " + tmpPath,
                                  decode, analyze, render, explain, file);
      out.0.status == 500 && !out.0.success && StartsWith(out.0.text, AnalysisFailurePrefix) && out.1 == file
  {
    var arg := Agent.CommandPrefix + " " + tmpPath;
    assert |arg| > |tmpPath|;
    assert open(arg).Raised?;
    var a := AnalyzeImage(arg, open, clip);
    assert a.Unopenable?;
    var text := AnalysisFailurePrefix + a.error;
    assert text[..|AnalysisFailurePrefix|] == AnalysisFailurePrefix;
  }

  /** Corrected, the same upload succeeds: the file gains exactly the human
      note, the tool record and the explanation, in that order, after the
      conversation loaded before, and the reply is the sanitized explanation. */
  lemma FixedUploadSucceeds<B, I>(image: string, tmpPath: string, decode: string -> Call<B>,
                                  open: string -> Call<I>, clip: I -> Probs,
                                  analyze: string -> Call<Analysis>,
                                  render: Analysis -> string, explain: Analysis -> Call<string>,
                                  file: Stored, explanation: string)
    requires ',' in image && decode(Payload(image)).Returned?
    requires forall p :: analyze(p) == Returned(AnalyzeImage(p, open, clip))
    requires forall p :: open(p).Returned? <==> p == tmpPath
    requires explain(AnalyzeImage(tmpPath, open, clip)) == Returned(explanation)
    ensures var a := AnalyzeImage(tmpPath, open, clip);
      var out := ImageRoute(Some(image), tmpPath, tmpPath, decode, analyze, render, explain, file);
      a.Scored? && out.0 == Response(200, true, FinalResponse(explanation))
      && out.1 == Saved(SavedRecords(Loaded(file)) + UploadRecords(tmpPath, render(a), explanation))
  {
    var a := AnalyzeImage(tmpPath, open, clip);
    assert open(tmpPath).Returned?;
    assert analyze(tmpPath) == Returned(a);
    UploadSaved(Loaded(file), tmpPath, render(a), explanation);
  }

  /** The records of the three messages of an upload turn. */
  function UploadRecords(tmpPath: string, rendered: string, explanation: string): seq<Record> {
    [Record(Some("human"), Some(UploadNotePrefix + tmpPath), None),
     Record(Some("tool"), Some(rendered), None),
     Record(Some("ai"), Some(explanation), None)]
  }

  lemma UploadSaved(before: seq<Msg>, tmpPath: string, rendered: string, explanation: string)
    ensures SavedRecords(before + UploadTurn(tmpPath, rendered, explanation))
      == SavedRecords(before) + UploadRecords(tmpPath, rendered, explanation)
  {
    var turn := UploadTurn(tmpPath, rendered, explanation);
    EncodeAppend(before, turn, SavedRecord);
    assert turn[..2][..1] == [turn[0]] && turn[..2] == [turn[0], turn[1]] && [turn[0]][..0] == [];
    assert SavedRecords([turn[0]]) == SavedRecords([]) + SavedRecord(turn[0]);
    assert SavedRecords(turn[..2]) == SavedRecord(turn[0]) + SavedRecord(turn[1]);
    assert SavedRecords(turn) == SavedRecord(turn[0]) + SavedRecord(turn[1]) + SavedRecord(turn[2]);
  }
}
