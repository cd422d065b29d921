/** The command-line chat entry point (chat_api.py): its own response
    sanitizer (case-sensitive reasoning markers and openers, with a
    long-paragraph fallback), a conversation codec that keeps only human
    and ai messages, and `main`. */
module ChatApi {
  import opened Strings
  import opened Messages

  // ---------------------------------------------------------------------
  // extract_final_response

  const Markers: seq<string> :=
    ["I need to", "Let me think", "I should", "Based on the", "Looking at", "I'll analyze",
     "First, I", "The user is asking"]

  const ReasoningOpeners: seq<string> :=
    ["I need", "Let me", "I should", "Based on", "Looking at", "I'll", "First,"]

  predicate StartsWithAny(s: string, prefixes: seq<string>) {
    exists k | 0 <= k < |prefixes| :: StartsWith(s, prefixes[k])
  }

  /** A stripped line that survives the filter. */
  predicate Shown(line: string) {
    line != [] && !ContainsAny(line, Markers) && !StartsWithAny(line, ReasoningOpeners)
  }

  /** What one raw line contributes to response_lines. */
  function KeptLine(line: string): seq<string> {
    var l := Strip(line);
    if Shown(l) then [l] else []
  }

  function ResponseLines(lines: seq<string>): seq<string>
    decreases |lines|
  {
    if lines == [] then [] else ResponseLines(lines[..|lines| - 1]) + KeptLine(lines[|lines| - 1])
  }

  /** The position of the last paragraph whose stripped length exceeds 50. */
  function LastSubstantial(paragraphs: seq<string>): (r: Option<nat>)
    ensures r.Some? ==> r.value < |paragraphs| && |Strip(paragraphs[r.value])| > 50
    ensures r.Some? ==> forall j :: r.value < j < |paragraphs| ==> |Strip(paragraphs[j])| <= 50
    ensures r.None? ==> forall j :: 0 <= j < |paragraphs| ==> |Strip(paragraphs[j])| <= 50
    decreases |paragraphs|
  {
    if paragraphs == [] then None
    else if |Strip(paragraphs[|paragraphs| - 1])| > 50 then Some(|paragraphs| - 1)
    else LastSubstantial(paragraphs[..|paragraphs| - 1])
  }

  /** The last substantial paragraph is the substantial one with none after it. */
  lemma LastSubstantialAt(paragraphs: seq<string>, i: nat)
    requires i < |paragraphs| && |Strip(paragraphs[i])| > 50
    requires forall j :: i < j < |paragraphs| ==> |Strip(paragraphs[j])| <= 50
    ensures LastSubstantial(paragraphs) == Some(i)
  {}

  /** What extract_final_response returns. */
  function ChatFinalResponse(content: string): string {
    var kept := ResponseLines(Split(content, "\n"));
    if kept != [] then Join("\n", kept) else Fallback(content)
  }

  /** The result when no line survives. */
  function Fallback(content: string): string {
    PickParagraph(Split(content, "\n\n"), content)
  }

  function PickParagraph(paragraphs: seq<string>, otherwise: string): string {
    match LastSubstantial(paragraphs)
    case Some(i) => Strip(paragraphs[i])
    case None => otherwise
  }

  method ExtractFinalResponse(content: string) returns (r: string)
    ensures r == ChatFinalResponse(content)
  {
    var lines := Split(content, "\n");
    var responseLines: seq<string> := [];
    for i := 0 to |lines|
      invariant responseLines == ResponseLines(lines[..i])
    {
      var line := Strip(lines[i]);
      assert lines[..i + 1][..i] == lines[..i];
      if line != [] && !ContainsAny(line, Markers) {
        if !StartsWithAny(line, ReasoningOpeners) {
          responseLines := responseLines + [line];
        }
      }
    }
    assert lines[..|lines|] == lines;
    if responseLines != [] {
      return Join("\n", responseLines);
    }
    r := LongParagraphFallback(content);
  }

  /** The reversed scan over the paragraphs, with its early return. */
  method LongParagraphFallback(content: string) returns (r: string)
    ensures r == Fallback(content)
  {
    var paragraphs := Split(content, "\n\n");
    var i := |paragraphs|;
    while i > 0
      invariant 0 <= i <= |paragraphs|
      invariant forall j :: i <= j < |paragraphs| ==> |Strip(paragraphs[j])| <= 50
    {
      i := i - 1;
      if |Strip(paragraphs[i])| > 50 {
        LastSubstantialAt(paragraphs, i);
        return Strip(paragraphs[i]);
      }
    }
    return content;
  }

  /** Every kept line is stripped and passes the filter. */
  lemma {:induction false} ResponseLinesClean(lines: seq<string>)
    ensures forall k :: 0 <= k < |ResponseLines(lines)| ==>
      Shown(ResponseLines(lines)[k]) && Stripped(ResponseLines(lines)[k])
    decreases |lines|
  {
    if lines != [] {
      ResponseLinesClean(lines[..|lines| - 1]);
      StripIsStripped(lines[|lines| - 1]);
    }
  }

  lemma NoBreakInStrip(s: string)
    requires '\n' !in s
    ensures '\n' !in Strip(s)
  {
    var i, j := StripShape(s);
    assert forall k :: 0 <= k < j - i ==> s[i..j][k] == s[i + k];
  }

  lemma {:induction false} ResponseLinesNoBreak(lines: seq<string>)
    requires forall k :: 0 <= k < |lines| ==> '\n' !in lines[k]
    ensures forall k :: 0 <= k < |ResponseLines(lines)| ==> '\n' !in ResponseLines(lines)[k]
    decreases |lines|
  {
    if lines != [] {
      ResponseLinesNoBreak(lines[..|lines| - 1]);
      NoBreakInStrip(lines[|lines| - 1]);
    }
  }

  /** In the filtered case the output's lines are exactly the kept lines,
      in their original order. */
  lemma OutputLines(content: string)
    requires ResponseLines(Split(content, "\n")) != []
    ensures Split(ChatFinalResponse(content), "\n") == ResponseLines(Split(content, "\n"))
  {
    var lines := Split(content, "\n");
    SplitPieces(content, "\n");
    forall k | 0 <= k < |lines| ensures '\n' !in lines[k] {
      SingleCharContains(lines[k], '\n');
    }
    ResponseLinesNoBreak(lines);
    SplitJoin(ResponseLines(lines), '\n');
  }

  lemma ResponseLinesAppend(a: seq<string>, b: seq<string>)
    ensures ResponseLines(a + b) == ResponseLines(a) + ResponseLines(b)
    decreases |b|
  {
    if b == [] {
      assert a + b == a;
    } else {
      assert (a + b)[..|a + b| - 1] == a + b[..|b| - 1];
      ResponseLinesAppend(a, b[..|b| - 1]);
    }
  }

  lemma ResponseLinesOne(line: string)
    ensures ResponseLines([line]) == KeptLine(line)
  {
    assert [line][..0] == [];
  }

  lemma KeptLineDropped(line: string)
    requires !Shown(Strip(line))
    ensures ResponseLines([line]) == []
  {
    ResponseLinesOne(line);
  }

  /** A line the filter rejects leaves no trace. */
  lemma DroppedLine(a: seq<string>, line: string, b: seq<string>)
    requires !Shown(Strip(line))
    ensures ResponseLines(a + [line] + b) == ResponseLines(a + b)
  {
    KeptLineDropped(line);
    DropSilent(a, line, b);
  }

  lemma DropSilent(a: seq<string>, line: string, b: seq<string>)
    requires ResponseLines([line]) == []
    ensures ResponseLines(a + [line] + b) == ResponseLines(a + b)
  {
    ResponseLinesAppend(a, [line]);
    ResponseLinesAppend(a + [line], b);
    ResponseLinesAppend(a, b);
  }

  /** A line the filter accepts is kept, stripped, in its place. */
  lemma KeptLineStays(a: seq<string>, line: string, b: seq<string>)
    requires Shown(Strip(line))
    ensures ResponseLines(a + [line] + b) == ResponseLines(a) + [Strip(line)] + ResponseLines(b)
  {
    ResponseLinesOne(line);
    assert ResponseLines([line]) == [Strip(line)];
    ResponseLinesAppend(a + [line], b);
    ResponseLinesAppend(a, [line]);
  }

  /** With nothing kept, the result is the last paragraph whose stripped
      length exceeds 50, stripped, or else the content unchanged. */
  lemma FallbackCases(content: string)
    ensures var ps, r := Split(content, "\n\n"), Fallback(content);
      match LastSubstantial(ps)
      case None => r == content && forall j :: 0 <= j < |ps| ==> |Strip(ps[j])| <= 50
      case Some(i) => i < |ps| && r == Strip(ps[i]) && |Strip(ps[i])| > 50
                      && forall j :: i < j < |ps| ==> |Strip(ps[j])| <= 50
  {
    var ps := Split(content, "\n\n");
    assert Fallback(content) == PickParagraph(ps, content);
  }

  // ---------------------------------------------------------------------
  // conversation.json, human and ai messages only

  function SavedRecord(m: Msg): seq<Record> {
    match m
    case Human(c) => [Record(Some("human"), Some(c), None)]
    case AI(c) => [Record(Some("ai"), Some(c), None)]
    case _ => []
  }

  function SavedRecords(ms: seq<Msg>): seq<Record> {
    Encode(ms, SavedRecord)
  }

  /** save_conversation: tool and other messages are not written. */
  method SaveConversation(messages: seq<Msg>) returns (file: Stored)
    ensures file == Saved(SavedRecords(messages))
  {
    var serializable: seq<Record> := [];
    for i := 0 to |messages|
      invariant serializable == SavedRecords(messages[..i])
    {
      var m := messages[i];
      assert messages[..i + 1][..i] == messages[..i];
      if m.Human? {
        serializable := serializable + [Record(Some("human"), Some(m.content), None)];
      } else if m.AI? {
        serializable := serializable + [Record(Some("ai"), Some(m.content), None)];
      }
    }
    assert messages[..|messages|] == messages;
    file := Saved(serializable);
  }

  /** One record: `m["type"]` raises KeyError when absent, and so does
      `m["content"]` for a human or ai record; other types are skipped. */
  function LoadedRecord(r: Record): Option<seq<Msg>> {
    if r.kind.None? then None
    else if r.kind.value != "human" && r.kind.value != "ai" then Some([])
    else if r.content.None? then None
    else if r.kind.value == "human" then Some([Human(r.content.value)])
    else Some([AI(r.content.value)])
  }

  function Loaded(file: Stored): seq<Msg> {
    Load(file, LoadedRecord)
  }

  method LoadConversation(file: Stored) returns (messages: seq<Msg>)
    ensures messages == Loaded(file)
  {
    if !file.Saved? {
      return [];
    }
    var raw := file.records;
    messages := [];
    for i := 0 to |raw|
      invariant Decode(raw[..i], LoadedRecord) == Some(messages)
    {
      var m := raw[i];
      DecodeStep(raw, i, LoadedRecord, messages);
      if m.kind.None? || ((m.kind.value == "human" || m.kind.value == "ai") && m.content.None?) {
        DecodeFails(raw[..i], m, raw[i + 1..], LoadedRecord);
        assert raw[..i] + [m] + raw[i + 1..] == raw;
        return [];
      }
      if m.kind.value == "human" {
        messages := messages + [Human(m.content.value)];
      } else if m.kind.value == "ai" {
        messages := messages + [AI(m.content.value)];
      } else {
        AppendNothing(messages);
      }
    }
    assert raw[..|raw|] == raw;
  }

  /** What survives a save and a load of one message. */
  function ChatOnly(m: Msg): seq<Msg> {
    if m.Human? || m.AI? then [m] else []
  }

  lemma RecordRoundTrip(m: Msg)
    ensures Decode(SavedRecord(m), LoadedRecord) == Some(ChatOnly(m))
  {
    if SavedRecord(m) != [] {
      DecodeOne(SavedRecord(m)[0], LoadedRecord);
    }
  }

  /** load(save(log)) is the log without its tool and other messages. */
  lemma RoundTrip(ms: seq<Msg>)
    ensures Loaded(Saved(SavedRecords(ms))) == Expand(ms, ChatOnly)
  {
    forall m { RecordRoundTrip(m); }
    RoundTripBy(ms, SavedRecord, LoadedRecord, ChatOnly);
  }

  /** A single record without "type" empties the whole load. */
  lemma MissingTypeEmptiesLoad(a: seq<Record>, r: Record, b: seq<Record>)
    requires r.kind.None?
    ensures Loaded(Saved(a + [r] + b)) == []
  {
    DecodeFails(a, r, b, LoadedRecord);
  }

  /** Tool records and any other type are skipped. */
  lemma OtherTypeSkipped(a: seq<Record>, r: Record, b: seq<Record>)
    requires r.kind.Some? && r.kind.value != "human" && r.kind.value != "ai"
    ensures Loaded(Saved(a + [r] + b)) == Loaded(Saved(a + b))
  {
    DecodeSkips(a, r, b, LoadedRecord);
  }

  // ---------------------------------------------------------------------
  // main

  const NoMessageError: string := "Error: No message provided"
  const ProcessingErrorPrefix: string := "Error processing message: "

  /** The sanitized content of the latest ai message, or "". */
  function LatestAnswer(ms: seq<Msg>): string {
    match LastMatch(ms, IsAI)
    case Some(i) => ChatFinalResponse(ms[i].content)
    case None => ""
  }

  /** main: `argv[1]` is appended as a human message to the loaded log, the
      agent (which may raise) answers, the log is saved and the latest ai
      answer printed. */
  method RunChat(argv: seq<string>, file: Stored, agent: seq<Msg> -> Call<seq<Msg>>)
    returns (outcome: Outcome, saved: Stored)
    ensures |argv| < 2 ==> outcome == Outcome(1, "", NoMessageError) && saved == file
    ensures |argv| >= 2 ==>
      var result := agent(Loaded(file) + [Human(argv[1])]);
      (result.Raised? ==> outcome == Outcome(1, "", ProcessingErrorPrefix + result.error) && saved == file)
      && (result.Returned? ==>
            outcome == Outcome(0, LatestAnswer(result.value) + "\n", "")
            && saved == Saved(SavedRecords(result.value)))
  {
    if |argv| < 2 {
      return Outcome(1, "", NoMessageError), file;
    }
    var userMessage := argv[1];
    var conversation := LoadConversation(file);
    conversation := conversation + [Human(userMessage)];
    var result := agent(conversation);
    if result.Raised? {
      return Outcome(1, "", ProcessingErrorPrefix + result.error), file;
    }
    conversation := result.value;
    saved := SaveConversation(conversation);
    var latestAiMessage := "";
    var last := FindLast(conversation, IsAI);
    if last.Some? {
      latestAiMessage := ExtractFinalResponse(conversation[last.value].content);
    }
    outcome := Outcome(0, latestAiMessage + "\n", "");
  }
}
