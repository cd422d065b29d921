/** The Streamlit front end (app.py): its lossless conversation codec, which
    keeps tool call ids and turns foreign message kinds into ai messages, and
    the session whose conversation the buttons and the chat box update. */
module App {
  import opened Strings
  import opened Messages

  // ---------------------------------------------------------------------
  // conversation.json

  /** The record save_conversation writes: tool messages keep their call id,
      any other kind is written as "unknown" with its str(). */
  function SavedRecord(m: Msg): seq<Record> {
    match m
    case Human(c) => [Record(Some("human"), Some(c), None)]
    case AI(c) => [Record(Some("ai"), Some(c), None)]
    case Tool(c, id) => [Record(Some("tool"), Some(c), Some(id))]
    case Other(_, repr) => [Record(Some("unknown"), Some(repr), None)]
  }

  function SavedRecords(ms: seq<Msg>): seq<Record> {
    Encode(ms, SavedRecord)
  }

  method SaveConversation(messages: seq<Msg>) returns (file: Stored)
    ensures file == Saved(SavedRecords(messages))
  {
    var serializable: seq<Record> := [];
    for i := 0 to |messages|
      invariant serializable == SavedRecords(messages[..i])
    {
      var m := messages[i];
      assert messages[..i + 1][..i] == messages[..i];
      match m {
        case Human(c) => serializable := serializable + [Record(Some("human"), Some(c), None)];
        case AI(c) => serializable := serializable + [Record(Some("ai"), Some(c), None)];
        case Tool(c, id) => serializable := serializable + [Record(Some("tool"), Some(c), Some(id))];
        case Other(_, repr) => serializable := serializable + [Record(Some("unknown"), Some(repr), None)];
      }
    }
    assert messages[..|messages|] == messages;
    file := Saved(serializable);
  }

  /** One record: `m["type"]` and `m["content"]` raise KeyError when absent;
      any type other than the three loads as an ai message. */
  function LoadedRecord(r: Record): Option<seq<Msg>> {
    if r.kind.None? || r.content.None? then None
    else if r.kind.value == "human" then Some([Human(r.content.value)])
    else if r.kind.value == "ai" then Some([AI(r.content.value)])
    else if r.kind.value == "tool" then
      Some([Tool(r.content.value, if r.toolCallId.Some? then r.toolCallId.value else "")])
    else Some([AI(r.content.value)])
  }

  function Loaded(file: Stored): seq<Msg> {
    Load(file, LoadedRecord)
  }

  method LoadConversation(file: Stored) returns (messages: seq<Msg>)
    ensures messages == Loaded(file)
  {
    if !file.Saved? {
      return [];
    }
    var raw := file.records;
    messages := [];
    for i := 0 to |raw|
      invariant Decode(raw[..i], LoadedRecord) == Some(messages)
    {
      var m := raw[i];
      DecodeStep(raw, i, LoadedRecord, messages);
      if m.kind.None? || m.content.None? {
        DecodeFails(raw[..i], m, raw[i + 1..], LoadedRecord);
        assert raw[..i] + [m] + raw[i + 1..] == raw;
        return [];
      }
      if m.kind.value == "human" {
        messages := messages + [Human(m.content.value)];
      } else if m.kind.value == "ai" {
        messages := messages + [AI(m.content.value)];
      } else if m.kind.value == "tool" {
        messages := messages + [Tool(m.content.value, if m.toolCallId.Some? then m.toolCallId.value else "")];
      } else {
        messages := messages + [AI(m.content.value)];
      }
    }
    assert raw[..|raw|] == raw;
  }

  /** What a save and a load make of one message: foreign kinds come back
      as ai messages holding their str(); the rest come back unchanged. */
  function Normalized(m: Msg): seq<Msg> {
    match m
    case Other(_, repr) => [AI(repr)]
    case _ => [m]
  }

  lemma RecordRoundTrip(m: Msg)
    ensures Decode(SavedRecord(m), LoadedRecord) == Some(Normalized(m))
  {
    DecodeOne(SavedRecord(m)[0], LoadedRecord);
  }

  lemma RoundTrip(ms: seq<Msg>)
    ensures Loaded(Saved(SavedRecords(ms))) == Expand(ms, Normalized)
  {
    forall m { RecordRoundTrip(m); }
    RoundTripBy(ms, SavedRecord, LoadedRecord, Normalized);
  }

  predicate NoForeign(ms: seq<Msg>) {
    forall k :: 0 <= k < |ms| ==> !ms[k].Other?
  }

  /** For a log of human, ai and tool messages the codec is lossless,
      tool call ids included. */
  lemma LosslessRoundTrip(ms: seq<Msg>)
    requires NoForeign(ms)
    ensures Loaded(Saved(SavedRecords(ms))) == ms
  {
    RoundTrip(ms);
    ExpandFixed(ms, Normalized);
  }

  /** A loaded log never holds a foreign kind. */
  lemma {:induction false} DecodedKinds(rs: seq<Record>)
    ensures Decode(rs, LoadedRecord).Some? ==> NoForeign(Decode(rs, LoadedRecord).value)
    decreases |rs|
  {
    if rs != [] {
      DecodedKinds(rs[..|rs| - 1]);
    }
  }

  lemma LoadedKinds(file: Stored)
    ensures NoForeign(Loaded(file))
  {
    if file.Saved? {
      DecodedKinds(file.records);
    }
  }

  /** A record of an unknown type, such as the "unknown" records written for
      foreign messages, loads as an ai message with its content. */
  lemma ForeignLoadsAsAI(a: seq<Record>, r: Record, b: seq<Record>)
    requires Decode(a, LoadedRecord).Some? && Decode(b, LoadedRecord).Some?
    requires r.kind.Some? && r.content.Some?
    requires r.kind.value != "human" && r.kind.value != "ai" && r.kind.value != "tool"
    ensures Loaded(Saved(a + [r] + b))
      == Loaded(Saved(a)) + [AI(r.content.value)] + Loaded(Saved(b))
  {
    DecodeMiddle(a, r, b, LoadedRecord);
  }

  /** A tool record without "tool_call_id" loads with the id "". */
  lemma ToolWithoutId(a: seq<Record>, content: string, b: seq<Record>)
    requires Decode(a, LoadedRecord).Some? && Decode(b, LoadedRecord).Some?
    ensures Loaded(Saved(a + [Record(Some("tool"), Some(content), None)] + b))
      == Loaded(Saved(a)) + [Tool(content, "")] + Loaded(Saved(b))
  {
    DecodeMiddle(a, Record(Some("tool"), Some(content), None), b, LoadedRecord);
  }

  // ---------------------------------------------------------------------
  // The session

  /** `st.session_state["conversation"]` and the conversation file. `agent`
      below stands for `agent.invoke`, which may raise. */
  class Session {
    var conversation: seq<Msg>
    var file: Stored

    /** The file reloads to the session's conversation, up to the foreign
        kinds the codec turns into ai messages. */
    predicate Synced()
      reads this
    {
      Loaded(file) == Expand(conversation, Normalized)
    }

    /** State initialization: the session starts from the loaded file. */
    constructor(stored: Stored)
      ensures file == stored && conversation == Loaded(stored) && Synced()
    {
      var loaded := LoadConversation(stored);
      conversation := loaded;
      file := stored;
      LoadedKinds(stored);
      ExpandFixed(loaded, Normalized);
    }

    /** clear_conversation: the conversation is emptied and the file removed,
        so the next load gives []. */
    method Clear()
      modifies this
      ensures conversation == [] && file == Missing && Loaded(file) == [] && Synced()
    {
      conversation := [];
      file := Missing;
    }

    /** The "Analyze Image" button: append the command, invoke the agent
        and save; when the agent raises the command stays in the session
        but nothing is saved. */
    method AnalyzeImage(tmpPath: string, agent: seq<Msg> -> Call<seq<Msg>>)
      modifies this
      ensures var sent := old(conversation) + [Human("ANALYZE_IMAGE: " + tmpPath)];
        (agent(sent).Returned? ==>
           conversation == agent(sent).value && file == Saved(SavedRecords(conversation)) && Synced())
        && (agent(sent).Raised? ==> conversation == sent && file == old(file))
    {
      conversation := conversation + [Human("ANALYZE_IMAGE: " + tmpPath)];
      var result := agent(conversation);
      if result.Returned? {
        conversation := result.value;
        file := SaveConversation(conversation);
        RoundTrip(conversation);
      }
    }

    /** The chat box: a non-empty entry is appended stripped, then the agent
        is invoked and the result saved, as for the button. */
    method Ask(userText: string, agent: seq<Msg> -> Call<seq<Msg>>)
      modifies this
      ensures userText == [] ==> conversation == old(conversation) && file == old(file)
      ensures userText != [] ==>
        var sent := old(conversation) + [Human(Strip(userText))];
        (agent(sent).Returned? ==>
           conversation == agent(sent).value && file == Saved(SavedRecords(conversation)) && Synced())
        && (agent(sent).Raised? ==> conversation == sent && file == old(file))
    {
      if userText == [] {
        return;
      }
      conversation := conversation + [Human(Strip(userText))];
      var result := agent(conversation);
      if result.Returned? {
        conversation := result.value;
        file := SaveConversation(conversation);
        RoundTrip(conversation);
      }
    }
  }
}
