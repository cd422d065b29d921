/** The single graph node of the agent: it finds the latest human message,
    routes an `ANALYZE_IMAGE: <path>` command to the vision tool and the
    explanation tool, and sends everything else to the general chat tool. */
module Agent {
  import opened Strings
  import opened Messages
  import Tools

  const CommandPrefix: string := "ANALYZE_IMAGE:"
  const AnalyzeToolId: string := "analyze_image"
  const ImageErrorPrefix: string := "Error during image analysis: "
  const ChatErrorPrefix: string := "Error generating reply: "

  /** The three tools the node calls, each of which may raise.  `A` is the
      vision tool's result; `render` is str() of it.  `explain` stands for
      `explain_result.invoke({"result": a})["result"]` and `chat` for
      `general_chat.invoke({"user_text": t})["result"]`. */
  datatype Collaborators<!A> = Collaborators(
    analyze: string -> Call<A>,
    render: A -> string,
    explain: A -> Call<string>,
    chat: string -> Call<string>)

  // ---------------------------------------------------------------------
  // Command detection and path parsing

  /** `content.strip().upper().startswith("ANALYZE_IMAGE:")` */
  predicate IsCommand(content: string) {
    StartsWith(Upper(Strip(content)), CommandPrefix)
  }

  lemma PrefixColon()
    ensures |CommandPrefix| == 14 && CommandPrefix[13] == ':'
  {}

  lemma CommandHasColon(content: string)
    requires IsCommand(content)
    ensures ':' in content
  {
    var a, b := StripPad(content);
    var t := Strip(content);
    PrefixColon();
    StartsWithAt(Upper(t), CommandPrefix, 13);
    assert t[13] == ':';
    assert content[|a| + 13] == t[13];
  }

  /** `content.split(":", 1)[1].strip()`: the text after the first colon,
      stripped.  The split unpacks into two parts only when a colon exists. */
  function ImageReference(content: string): (r: string)
    requires ':' in content
    ensures Stripped(r)
  {
    var k := IndexOf(content, ':');
    StripIsStripped(content[k + 1..]);
    Strip(content[k + 1..])
  }

  // ---------------------------------------------------------------------
  // What the node appends

  /** The latest human message holds an image command. */
  predicate IsImageTurn(state: seq<Msg>) {
    var h := LastMatch(state, IsHuman);
    h.Some? && IsCommand(state[h.value].content)
  }

  /** The text handed to the chat tool: the latest human message, or "". */
  function ChatInput(state: seq<Msg>): string {
    var h := LastMatch(state, IsHuman);
    if h.Some? then state[h.value].content else ""
  }

  /** The messages appended on the image path. */
  function ImageReply<A>(path: string, c: Collaborators<A>): (r: seq<Msg>)
    ensures 1 <= |r| <= 2 && r[|r| - 1].AI?
    ensures |r| == 2 ==> r[0].Tool? && r[0].toolCallId == AnalyzeToolId
  {
    match c.analyze(path)
    case Raised(e) => [AI(ImageErrorPrefix + e)]
    case Returned(a) =>
      var tool := Tool(c.render(a), AnalyzeToolId);
      match c.explain(a)
      case Raised(e) => [tool, AI(ImageErrorPrefix + e)]
      case Returned(x) => [tool, AI(x)]
  }

  /** The message appended on the chat path. */
  function ChatReply<A>(text: string, c: Collaborators<A>): (r: seq<Msg>)
    ensures |r| == 1 && r[0].AI?
  {
    match c.chat(text)
    case Returned(x) => [AI(x)]
    case Raised(e) => [AI(ChatErrorPrefix + e)]
  }

  /** The image command the latest human message carries. */
  function LatestCommand(state: seq<Msg>): (r: string)
    requires IsImageTurn(state)
    ensures ':' in r
  {
    var content := state[LastMatch(state, IsHuman).value].content;
    CommandHasColon(content);
    content
  }

  /** Everything one call of the node appends to the state. */
  function Reply<A>(state: seq<Msg>, c: Collaborators<A>): (r: seq<Msg>)
    ensures 1 <= |r| <= 2 && r[|r| - 1].AI?
    ensures |r| == 2 ==> r[0].Tool? && r[0].toolCallId == AnalyzeToolId && IsImageTurn(state)
  {
    if IsImageTurn(state) then ImageReply(ImageReference(LatestCommand(state)), c)
    else ChatReply(ChatInput(state), c)
  }

  /** Kept as a lemma: stated as an assert inside ProcessNode, this
      sequence identity makes that method's proof obligation several times
      larger. */
  lemma AppendTwo(s: seq<Msg>, x: Msg, y: Msg)
    ensures s + [x] + [y] == s + [x, y]
  {}

  /** `process_node`: copy the state, find the last human message with a
      backward scan, and append the reply of the branch it selects. */
  method ProcessNode<A>(state: seq<Msg>, c: Collaborators<A>) returns (messages: seq<Msg>)
    ensures messages == state + Reply(state, c)
    ensures |state| < |messages| <= |state| + 2 && messages[..|state|] == state
    ensures messages[|messages| - 1].AI?
  {
    messages := state;
    var lastHuman := FindLast(messages, IsHuman);
    if lastHuman.Some? && IsCommand(messages[lastHuman.value].content) {
      var content := messages[lastHuman.value].content;
      CommandHasColon(content);
      var imagePath := ImageReference(content);
      assert IsImageTurn(state);
      assert Reply(state, c) == ImageReply(imagePath, c);
      var analysis := c.analyze(imagePath);
      if analysis.Raised? {
        messages := messages + [AI(ImageErrorPrefix + analysis.error)];
        return;
      }
      var toolMsg := Tool(c.render(analysis.value), AnalyzeToolId);
      messages := messages + [toolMsg];
      var explanation := c.explain(analysis.value);
      if explanation.Raised? {
        messages := messages + [AI(ImageErrorPrefix + explanation.error)];
        AppendTwo(state, toolMsg, AI(ImageErrorPrefix + explanation.error));
        return;
      }
      messages := messages + [AI(explanation.value)];
      AppendTwo(state, toolMsg, AI(explanation.value));
      return;
    }
    assert !IsImageTurn(state);
    assert Reply(state, c) == ChatReply(ChatInput(state), c);
    var reply := c.chat(if lastHuman.Some? then messages[lastHuman.value].content else "");
    match reply {
      case Returned(x) => messages := messages + [AI(x)];
      case Raised(e) => messages := messages + [AI(ChatErrorPrefix + e)];
    }
  }

  // ---------------------------------------------------------------------
  // Properties of command detection

  lemma LStripUpper(s: string)
    ensures LStrip(Upper(s)) == Upper(LStrip(s))
  {
    var k := LeadingSpace(s);
    LStripShape(s);
    var u := Upper(s)[..k];
    forall i | 0 <= i < k ensures IsSpace(u[i]) {
      assert s[..k][i] == s[i];
      CaseKeepsSpace(s[i]);
    }
    if k < |s| {
      CaseKeepsSpace(s[k]);
    }
    LStripUnique(Upper(s), k);
    UpperSlice(s, k, |s|);
  }

  lemma RStripUpper(s: string)
    ensures RStrip(Upper(s)) == Upper(RStrip(s))
  {
    var k := RStripKept(s);
    RStripShape(s);
    var u := Upper(s)[k..];
    forall i | 0 <= i < |s| - k ensures IsSpace(u[i]) {
      assert s[k..][i] == s[k + i];
      CaseKeepsSpace(s[k + i]);
    }
    if k > 0 {
      CaseKeepsSpace(s[k - 1]);
    }
    RStripUnique(Upper(s), k);
    UpperSlice(s, 0, k);
    assert s[0..k] == s[..k];
  }

  /** Upper-casing commutes with strip. */
  lemma StripUpper(s: string)
    ensures Strip(Upper(s)) == Upper(Strip(s))
  {
    LStripUpper(s);
    RStripUpper(LStrip(s));
  }

  /** The command test ignores letter case: it sees only the upper-cased text. */
  lemma CommandIgnoresCase(c1: string, c2: string)
    requires Upper(c1) == Upper(c2)
    ensures IsCommand(c1) == IsCommand(c2)
  {
    StripUpper(c1);
    StripUpper(c2);
  }

  lemma UpperOfLower(s: string)
    ensures Upper(Lower(s)) == Upper(s)
  {}

  /** In particular a lower-cased command is still a command. */
  lemma LowerCaseCommand(content: string)
    ensures IsCommand(Lower(content)) == IsCommand(content)
  {
    UpperOfLower(content);
    CommandIgnoresCase(Lower(content), content);
  }

  /** The command test ignores surrounding whitespace. */
  lemma CommandIgnoresPadding(a: string, content: string, b: string)
    requires AllSpace(a) && AllSpace(b)
    ensures IsCommand(a + content + b) == IsCommand(content)
  {
    StripPadded(a, content, b);
  }

  lemma TailPadded(a: string, content: string, b: string, n: nat)
    requires n <= |content|
    ensures (a + content + b)[|a| + n..] == content[n..] + b
  {}

  /** Leading whitespace moves the first colon by its length. */
  lemma FirstColonPadded(a: string, content: string, b: string)
    requires AllSpace(a) && ':' in content
    ensures ':' in a + content + b && IndexOf(a + content + b, ':') == |a| + IndexOf(content, ':')
  {
    var x := a + content + b;
    var k := IndexOf(content, ':');
    IndexOfFirst(content, ':');
    var n := |a| + k;
    assert x[n] == ':';
    forall j | 0 <= j < n ensures x[j] != ':' {
      if j < |a| {
        assert x[j] == a[j];
      } else {
        assert x[j] == content[..k][j - |a|];
      }
    }
    assert forall j :: 0 <= j < n ==> x[..n][j] == x[j];
    IndexOfUnique(x, ':', |a| + k);
  }

  lemma ReferenceOf(x: string)
    requires ':' in x
    ensures ImageReference(x) == Strip(x[IndexOf(x, ':') + 1..])
  {
    var k := IndexOf(x, ':');
    var r := ImageReference(x);
    assert r == Strip(x[k + 1..]);
  }

  /** The reference is the stripped text after the first colon. */
  lemma ReferenceAt(x: string, k: nat)
    requires k < |x| && x[k] == ':' && ':' !in x[..k]
    ensures ':' in x && ImageReference(x) == Strip(x[k + 1..])
  {
    IndexOfUnique(x, ':', k);
  }

  /** Two commands whose texts after the first colon strip alike carry the same reference. */
  lemma ReferenceSuffix(x: string, content: string, t: string, b: string)
    requires ':' in x && ':' in content
    requires x[IndexOf(x, ':') + 1..] == t + b && t == content[IndexOf(content, ':') + 1..]
    requires Strip(t + b) == Strip(t)
    ensures ImageReference(x) == ImageReference(content)
  {
    ReferenceOf(x);
    ReferenceOf(content);
  }

  /** Leading whitespace and trailing whitespace do not change the parsed path. */
  lemma ReferenceIgnoresPadding(a: string, content: string, b: string)
    requires AllSpace(a) && AllSpace(b) && ':' in content
    ensures ':' in a + content + b
    ensures ImageReference(a + content + b) == ImageReference(content)
  {
    var k := IndexOf(content, ':');
    FirstColonPadded(a, content, b);
    TailPadded(a, content, b, k + 1);
    StripTrailing(content[k + 1..], b);
    ReferenceSuffix(a + content + b, content, content[k + 1..], b);
  }

  lemma CommandShape(path: string)
    ensures var c := "ANALYZE_IMAGE: " + path;
      |c| == |path| + 15 && c[..14] == CommandPrefix && c[13] == ':' && ':' !in c[..13] &&
      !IsSpace(c[0]) && !IsSpace(c[13]) && c[14..] == " " + path
  {
    var c := "ANALYZE_IMAGE: " + path;
    assert c[..13] == "ANALYZE_IMAGE";
    assert c[..14] == CommandPrefix;
    assert c[14..] == " " + path;
  }

  lemma StripOfCommand(path: string)
    ensures var c := "ANALYZE_IMAGE: " + path;
      |Strip(c)| >= 14 && Strip(c)[..14] == CommandPrefix
  {
    var c := "ANALYZE_IMAGE: " + path;
    CommandShape(path);
    LStripUnique(c, 0);
    assert c[0..] == c;
    RStripKeeps(c, 13);
    var r := RStrip(c);
    assert r[..14] == c[..14];
  }

  lemma CommandDetected(path: string)
    ensures IsCommand("ANALYZE_IMAGE: " + path)
  {
    var c := "ANALYZE_IMAGE: " + path;
    StripOfCommand(path);
    var t := Strip(c);
    var u := Upper(t)[..14];
    forall i | 0 <= i < 14 ensures u[i] == CommandPrefix[i] {
      assert t[i] == t[..14][i];
    }
    assert u == CommandPrefix;
  }

  /** A colon at 13 with none before it, then a space and the path. */
  lemma ReferenceAfterSpace(c: string, path: string)
    requires |c| == |path| + 15 && c[13] == ':' && ':' !in c[..13] && c[14..] == " " + path
    ensures ':' in c && ImageReference(c) == Strip(path)
  {
    ReferenceAt(c, 13);
    StripPadded(" ", path, "");
    assert " " + path + "" == " " + path;
  }

  lemma CommandParsed(path: string)
    ensures ':' in "ANALYZE_IMAGE: " + path
    ensures ImageReference("ANALYZE_IMAGE: " + path) == Strip(path)
  {
    CommandShape(path);
    ReferenceAfterSpace("ANALYZE_IMAGE: " + path, path);
  }

  /** The command string the front ends build parses back to the stripped path. */
  lemma CommandRoundTrip(path: string)
    ensures IsCommand("ANALYZE_IMAGE: " + path)
    ensures ':' in "ANALYZE_IMAGE: " + path
    ensures ImageReference("ANALYZE_IMAGE: " + path) == Strip(path)
  {
    CommandDetected(path);
    CommandParsed(path);
  }

  // ---------------------------------------------------------------------
  // Properties of the routing

  /** A plain turn goes to the chat tool and never to the vision tools. */
  lemma PlainTurnAppendsOneReply<A>(state: seq<Msg>, c: Collaborators<A>,
                                     analyze: string -> Call<A>, explain: A -> Call<string>)
    requires !IsImageTurn(state)
    ensures Reply(state, c) == ChatReply(ChatInput(state), c)
    ensures Reply(state, c.(analyze := analyze, explain := explain)) == Reply(state, c)
    ensures |Reply(state, c)| == 1
    ensures c.chat(ChatInput(state)).Returned? ==> Reply(state, c) == [AI(c.chat(ChatInput(state)).value)]
    ensures c.chat(ChatInput(state)).Raised? ==>
              Reply(state, c) == [AI(ChatErrorPrefix + c.chat(ChatInput(state)).error)]
  {}

  /** With no human message at all the chat tool receives "". */
  lemma NoHumanChatsEmpty<A>(state: seq<Msg>, c: Collaborators<A>)
    requires forall i :: 0 <= i < |state| ==> !state[i].Human?
    ensures !IsImageTurn(state) && ChatInput(state) == ""
    ensures Reply(state, c) == ChatReply("", c)
  {}

  /** The chat tool sees the latest human message, not an earlier one. */
  lemma ChatSeesLatestHuman(state: seq<Msg>, i: nat)
    requires i < |state| && state[i].Human?
    requires forall j :: i < j < |state| ==> !state[j].Human?
    ensures ChatInput(state) == state[i].content
    ensures IsImageTurn(state) == IsCommand(state[i].content)
  {
    var h := LastMatch(state, IsHuman);
    assert h.Some?;
  }

  /** Image turn, both tools return: a Tool message then the explanation. */
  lemma ImageTurnSucceeds<A>(state: seq<Msg>, c: Collaborators<A>, i: nat, a: A, x: string)
    requires i < |state| && state[i].Human? && IsCommand(state[i].content)
    requires forall j :: i < j < |state| ==> !state[j].Human?
    requires ':' in state[i].content
    requires c.analyze(ImageReference(state[i].content)) == Returned(a)
    requires c.explain(a) == Returned(x)
    ensures Reply(state, c) == [Tool(c.render(a), AnalyzeToolId), AI(x)]
  {
    ChatSeesLatestHuman(state, i);
  }

  /** Image turn, the explanation raises: the Tool message stays, then the error. */
  lemma ImageTurnExplainFails<A>(state: seq<Msg>, c: Collaborators<A>, i: nat, a: A, e: string)
    requires i < |state| && state[i].Human? && IsCommand(state[i].content)
    requires forall j :: i < j < |state| ==> !state[j].Human?
    requires ':' in state[i].content
    requires c.analyze(ImageReference(state[i].content)) == Returned(a)
    requires c.explain(a) == Raised(e)
    ensures Reply(state, c) == [Tool(c.render(a), AnalyzeToolId), AI(ImageErrorPrefix + e)]
  {
    ChatSeesLatestHuman(state, i);
  }

  /** Image turn, the vision tool raises: one error message and nothing else. */
  lemma ImageTurnAnalyzeFails<A>(state: seq<Msg>, c: Collaborators<A>, i: nat, e: string)
    requires i < |state| && state[i].Human? && IsCommand(state[i].content)
    requires forall j :: i < j < |state| ==> !state[j].Human?
    requires ':' in state[i].content
    requires c.analyze(ImageReference(state[i].content)) == Raised(e)
    ensures Reply(state, c) == [AI(ImageErrorPrefix + e)]
  {
    ChatSeesLatestHuman(state, i);
  }

  /** With the real vision and explanation tools behind it, an image that
      cannot be opened does not reach the error branch: its error record is
      stored as the Tool message and explained like any other result. */
  lemma UnopenableImageExplained<I>(state: seq<Msg>, c: Collaborators<Tools.Analysis>, i: nat,
                                    open: string -> Call<I>, clip: I -> Tools.Probs,
                                    model: Tools.Analysis -> Call<string>, e: string, x: string)
    requires i < |state| && state[i].Human? && IsCommand(state[i].content)
    requires forall j :: i < j < |state| ==> !state[j].Human?
    requires ':' in state[i].content
    requires forall p :: c.analyze(p) == Returned(Tools.AnalyzeImage(p, open, clip))
    requires forall a :: c.explain(a) == Tools.Explained(a, model)
    requires open(ImageReference(state[i].content)) == Raised(e)
    requires model(Tools.Unopenable("Unable to open image: " + e)) == Returned(x)
    ensures var a := Tools.Unopenable("Unable to open image: " + e);
      Reply(state, c) == [Tool(c.render(a), AnalyzeToolId), AI(Tools.WithDisclaimer(x))]
  {
    var a := Tools.Unopenable("Unable to open image: " + e);
    assert c.analyze(ImageReference(state[i].content)) == Returned(a);
    ImageTurnSucceeds(state, c, i, a, Tools.WithDisclaimer(x));
  }

  /** A command appended as the newest message sends the node to the vision
      tool with the stripped path. */
  lemma SubmittedCommand<A>(history: seq<Msg>, path: string, c: Collaborators<A>)
    ensures var state := history + [Human("ANALYZE_IMAGE: " + path)];
      IsImageTurn(state) && Reply(state, c) == ImageReply(Strip(path), c)
  {
    var x := "ANALYZE_IMAGE: " + path;
    var state := history + [Human(x)];
    CommandRoundTrip(path);
    ChatSeesLatestHuman(state, |state| - 1);
    assert LatestCommand(state) == x;
  }
}
