/** The tools the agent calls (tools.py): the record built from CLIP's label
    probabilities, the disclaimer rule applied to the model's explanation,
    and the numbered citations, context and References block of the
    retrieval query. The models themselves (CLIP, the chat model, the
    retriever) are parameters. */
module Tools {
  import opened Messages
  import opened Strings

  // ---------------------------------------------------------------------
  // analyze_image

  /** The candidate labels, in the order CLIP scores them. */
  const Labels: seq<string> :=
    ["normal tissue", "suspicious lesion", "malignant tumor", "artifact / poor quality"]

  const LabelSet: set<string> := {Labels[0], Labels[1], Labels[2], Labels[3]}

  /** The softmax probabilities CLIP assigns to the four labels. */
  type Probs = p: seq<real> | |p| == 4 witness [0.0, 0.0, 0.0, 0.0]

  /** The dict analyze_image returns: `{"error": ...}` or
      `{"prediction", "confidence", "scores"}`. */
  datatype Analysis =
    | Unopenable(error: string)
    | Scored(prediction: string, confidence: real, scores: map<string, real>)

  lemma LabelsDistinct()
    ensures forall i, j :: 0 <= i < j < 4 ==> Labels[i] != Labels[j]
  {
    assert Labels[0][0] == 'n' && Labels[1][0] == 's' && Labels[2][0] == 'm' && Labels[3][0] == 'a';
  }

  /** numpy's `argmax`: scanning left to right, a later score replaces the
      best so far only when strictly larger. */
  function ArgMax(p: seq<real>): (i: nat)
    requires p != []
    ensures i < |p|
    decreases |p|
  {
    if |p| == 1 then 0
    else
      var j := ArgMax(p[..|p| - 1]);
      if p[|p| - 1] > p[j] then |p| - 1 else j
  }

  /** ArgMax finds the first index of a largest score. */
  lemma {:induction false} ArgMaxFirst(p: seq<real>)
    requires p != []
    ensures forall j :: 0 <= j < |p| ==> p[j] <= p[ArgMax(p)]
    ensures forall j :: 0 <= j < ArgMax(p) ==> p[j] < p[ArgMax(p)]
    decreases |p|
  {
    if |p| > 1 {
      var q := p[..|p| - 1];
      ArgMaxFirst(q);
      assert forall j :: 0 <= j < |q| ==> q[j] == p[j];
    }
  }

  /** The first largest index is the only index with those two properties. */
  lemma ArgMaxUnique(p: seq<real>, i: nat)
    requires i < |p|
    requires forall j :: 0 <= j < |p| ==> p[j] <= p[i]
    requires forall j :: 0 <= j < i ==> p[j] < p[i]
    ensures ArgMax(p) == i
  {
    ArgMaxFirst(p);
  }

  /** `{labels[i]: float(probs[i]) for i in range(len(labels))}` */
  function ScoresOf(p: Probs): map<string, real> {
    map[Labels[0] := p[0], Labels[1] := p[1], Labels[2] := p[2], Labels[3] := p[3]]
  }

  lemma ScoresAt(p: Probs)
    ensures ScoresOf(p).Keys == LabelSet
    ensures forall i :: 0 <= i < 4 ==> ScoresOf(p)[Labels[i]] == p[i]
  {
    LabelsDistinct();
  }

  /** analyze_image: an image that cannot be opened yields an error record;
      otherwise the record names the best label, its probability and all
      four scores. */
  function AnalyzeImage<I>(path: string, open: string -> Call<I>, clip: I -> Probs): (r: Analysis)
    ensures r.Unopenable? <==> open(path).Raised?
    ensures r.Scored? ==> r.scores.Keys == LabelSet && r.prediction in r.scores
    ensures r.Scored? ==> r.scores[r.prediction] == r.confidence
    ensures r.Scored? ==> forall l :: l in r.scores ==> r.scores[l] <= r.confidence
  {
    match open(path)
    case Raised(e) => Unopenable("Unable to open image: " + e)
    case Returned(image) =>
      var p := clip(image);
      var i := ArgMax(p);
      ArgMaxFirst(p);
      ScoresAt(p);
      Scored(Labels[i], p[i], ScoresOf(p))
  }

  /** The prediction is the label of the first largest probability. */
  lemma PredictionIsFirstBest<I>(path: string, open: string -> Call<I>, clip: I -> Probs, image: I)
    requires open(path) == Returned(image)
    ensures var r, p := AnalyzeImage(path, open, clip), clip(image);
      exists i :: 0 <= i < 4 && r.prediction == Labels[i] && r.confidence == p[i]
        && (forall j :: 0 <= j < 4 ==> p[j] <= p[i])
        && (forall j :: 0 <= j < i ==> p[j] < p[i])
  {
    var p := clip(image);
    ArgMaxFirst(p);
    var i := ArgMax(p);
    assert AnalyzeImage(path, open, clip).prediction == Labels[i];
  }

  // ---------------------------------------------------------------------
  // explain_result

  const DoctorPhrase: string := "not a doctor"

  /** The appended disclaimer, written in pieces each of which starts with a
      character that the phrase above does not contain. */
  const DisclaimerHead: string := "\n\n**Disc" + "laimer:** " + "I am not a " + "medical "
  const DisclaimerMiddle: string := "pro" + "fessional. " + "Please cons"
  const DisclaimerEnd: string := "ult a qua" + "lified cl" + "inician."
  const DisclaimerRest: string := DisclaimerMiddle + DisclaimerEnd
  const ExplainDisclaimer: string := DisclaimerHead + DisclaimerRest

  /** The disclaimer rule applied to the model's reply. */
  function WithDisclaimer(content: string): string {
    if !Contains(Lower(content), DoctorPhrase) then content + ExplainDisclaimer else content
  }

  /** explain_result: ask the model (which sees the analysis in its prompt)
      and append the disclaimer when the reply does not already say
      "not a doctor". */
  method ExplainResult(result: Analysis, model: Analysis -> Call<string>) returns (r: Call<string>)
    ensures model(result).Raised? ==> r == model(result)
    ensures model(result).Returned? ==> r == Returned(WithDisclaimer(model(result).value))
  {
    var reply := model(result);
    if reply.Raised? {
      return reply;
    }
    var content := reply.value;
    if !Contains(Lower(content), DoctorPhrase) {
      content := content + ExplainDisclaimer;
    }
    r := Returned(content);
  }

  /** The outcome ExplainResult computes, for use where a function is needed. */
  function Explained(result: Analysis, model: Analysis -> Call<string>): Call<string> {
    match model(result)
    case Raised(e) => Raised(e)
    case Returned(content) => Returned(WithDisclaimer(content))
  }

  /** The reply is always kept as a prefix; it is returned unchanged exactly
      when it already contains the phrase. */
  lemma DisclaimerRule(content: string)
    ensures StartsWith(WithDisclaimer(content), content)
    ensures WithDisclaimer(content) == content <==> Contains(Lower(content), DoctorPhrase)
  {
    var r := WithDisclaimer(content);
    assert r[..|content|] == content;
    assert |ExplainDisclaimer| > 0;
  }

  lemma HeadLacksPhrase()
    ensures !Contains(Lower(DisclaimerHead), DoctorPhrase)
  {
    var p := DoctorPhrase;
    LowerFree("\n\n**Disc", "laimer:** ", p);
    LowerFree("\n\n**Disc" + "laimer:** ", "I am not a ", p);
    LowerFree("\n\n**Disc" + "laimer:** " + "I am not a ", "medical ", p);
  }

  lemma MiddleLacksPhrase()
    ensures !Contains(Lower(DisclaimerMiddle), DoctorPhrase)
  {
    LowerFree("pro", "fessional. ", DoctorPhrase);
    LowerFree("pro" + "fessional. ", "Please cons", DoctorPhrase);
  }

  lemma EndLacksPhrase()
    ensures !Contains(Lower(DisclaimerEnd), DoctorPhrase)
  {
    LowerFree("ult a qua", "lified cl", DoctorPhrase);
    LowerFree("ult a qua" + "lified cl", "inician.", DoctorPhrase);
  }

  lemma RestLacksPhrase()
    ensures !Contains(Lower(DisclaimerRest), DoctorPhrase)
  {
    MiddleLacksPhrase();
    EndLacksPhrase();
    assert DisclaimerEnd[0] == 'u';
    LowerFree(DisclaimerMiddle, DisclaimerEnd, DoctorPhrase);
  }

  /** The disclaimer says "not a medical professional", never "not a doctor". */
  lemma DisclaimerLacksPhrase()
    ensures !Contains(Lower(ExplainDisclaimer), DoctorPhrase)
  {
    HeadLacksPhrase();
    RestLacksPhrase();
    assert DisclaimerRest[0] == 'p';
    LowerFree(DisclaimerHead, DisclaimerRest, DoctorPhrase);
  }

  /** Hence the rule is not idempotent: applied to its own output it
      appends the disclaimer a second time. */
  lemma DisclaimerTwice(content: string)
    requires !Contains(Lower(content), DoctorPhrase)
    ensures WithDisclaimer(WithDisclaimer(content)) == content + ExplainDisclaimer + ExplainDisclaimer
  {
    DisclaimerLacksPhrase();
    assert ExplainDisclaimer[0] == '\n';
    LowerFree(content, ExplainDisclaimer, DoctorPhrase);
  }

  // ---------------------------------------------------------------------
  // rag_query

  /** A retrieved chunk: its page_content and its metadata "links" list
      (absent links read as the empty list). */
  datatype Doc = Doc(content: string, links: seq<string>)

  const NoDocumentsMessage: string := "\U{26A0}\U{FE0F} No relevant documents found."

  const ReferencesHeading: string := "\n\n---\n**References:**\n"

  /** The inline citation of the i-th document: linked to its first link
      when it has one. */
  function Citation(i: nat, links: seq<string>): string {
    if links != [] then "[" + NatToString(i) + "](" + links[0] + ")" else "[" + NatToString(i) + "]"
  }

  /** The citation starts with the bracketed number and, when there are
      links, ends with the first one in parentheses. */
  lemma CitationShape(i: nat, links: seq<string>)
    ensures StartsWith(Citation(i, links), "[" + NatToString(i) + "]")
    ensures links != [] ==> EndsWith(Citation(i, links), "(" + links[0] + ")")
    ensures links == [] ==> Citation(i, links) == "[" + NatToString(i) + "]"
  {
    if links != [] {
      BracketedLink(NatToString(i), links[0]);
    }
  }

  lemma BracketedLink(d: string, link: string)
    ensures StartsWith("[" + d + "](" + link + ")", "[" + d + "]")
    ensures EndsWith("[" + d + "](" + link + ")", "(" + link + ")")
  {
    var n := "[" + d + "]";
    var t := "(" + link + ")";
    assert "[" + d + "](" + link + ")" == n + t;
    assert (n + t)[..|n|] == n;
    assert (n + t)[|n|..] == t;
  }

  function ContextPart(i: nat, d: Doc): string {
    Strip(d.content) + " " + Citation(i, d.links)
  }

  /** The context parts, one per document, numbered from 1. */
  function ContextParts(docs: seq<Doc>): seq<string> {
    seq(|docs|, k requires 0 <= k < |docs| => ContextPart(k + 1, docs[k]))
  }

  /** numbered_refs: each document's 1-based number with its links. */
  function Numbered(docs: seq<Doc>): seq<(nat, seq<string>)> {
    seq(|docs|, k requires 0 <= k < |docs| => (k + 1, docs[k].links))
  }

  /** `', '.join(f'[{link}]({link})' for link in links)` */
  function LinkList(links: seq<string>): string {
    Join(", ", seq(|links|, k requires 0 <= k < |links| => "[" + links[k] + "](" + links[k] + ")"))
  }

  /** The References line of document i. */
  function RefLine(i: nat, links: seq<string>): string {
    "[" + NatToString(i) + "]: " + (if links != [] then LinkList(links) else "No link available")
  }

  /** refs_text: the generator join over numbered_refs. */
  function RefsText(numbered: seq<(nat, seq<string>)>): string {
    Join("\n", seq(|numbered|, k requires 0 <= k < |numbered| => RefLine(numbered[k].0, numbered[k].1)))
  }

  function RagPrompt(question: string, context: string): string {
    "Question: " + question + "\n\nContext:\n" + context
  }

  /** What rag_query returns for the retrieved documents, given the model. */
  function RagAnswer(question: string, docs: seq<Doc>, model: string -> Call<string>): Call<string> {
    if docs == [] then Returned(NoDocumentsMessage)
    else
      match model(RagPrompt(question, Join("\n\n", ContextParts(docs))))
      case Raised(e) => Raised(e)
      case Returned(answer) => Returned(answer + ReferencesHeading + RefsText(Numbered(docs)))
  }

  /** The loop of rag_query: one context part and one numbered reference
      per document, numbered from 1. */
  method NumberDocuments(docs: seq<Doc>) returns (contextParts: seq<string>, numberedRefs: seq<(nat, seq<string>)>)
    ensures contextParts == ContextParts(docs) && numberedRefs == Numbered(docs)
  {
    contextParts := [];
    numberedRefs := [];
    var parts := ContextParts(docs);
    var numbered := Numbered(docs);
    for i := 0 to |docs|
      invariant contextParts == parts[..i] && numberedRefs == numbered[..i]
    {
      var links := docs[i].links;
      var citation := Citation(i + 1, links);
      var part := Strip(docs[i].content) + " " + citation;
      assert part == parts[i];
      assert parts[..i + 1] == parts[..i] + [part];
      assert numbered[..i + 1] == numbered[..i] + [(i + 1, links)];
      numberedRefs := numberedRefs + [(i + 1, links)];
      contextParts := contextParts + [part];
    }
    assert parts[..|docs|] == parts && numbered[..|docs|] == numbered;
  }

  /** rag_query after retrieval: number the documents, build the context,
      ask the model and append the References block. No documents means
      no model call. */
  method RagQuery(question: string, docs: seq<Doc>, model: string -> Call<string>) returns (r: Call<string>)
    ensures r == RagAnswer(question, docs, model)
    ensures docs == [] ==> r == Returned(NoDocumentsMessage)
  {
    if |docs| == 0 {
      return Returned(NoDocumentsMessage);
    }
    var contextParts, numberedRefs := NumberDocuments(docs);
    var context := Join("\n\n", contextParts);
    var reply := model(RagPrompt(question, context));
    if reply.Raised? {
      return Raised(reply.error);
    }
    var refsText := RefsText(numberedRefs);
    r := Returned(reply.value + ReferencesHeading + refsText);
  }

  /** Two models give the same answer when there is nothing to ask about. */
  lemma NoDocumentsNoModelCall(question: string, m1: string -> Call<string>, m2: string -> Call<string>)
    ensures RagAnswer(question, [], m1) == RagAnswer(question, [], m2) == Returned(NoDocumentsMessage)
  {}

  lemma RefLineHasNoBreak(i: nat, links: seq<string>)
    requires forall k :: 0 <= k < |links| ==> '\n' !in links[k]
    ensures '\n' !in RefLine(i, links)
  {
    var items := seq(|links|, k requires 0 <= k < |links| => "[" + links[k] + "](" + links[k] + ")");
    forall k | 0 <= k < |items| ensures '\n' !in items[k] {
      assert items[k] == "[" + links[k] + "](" + links[k] + ")";
    }
    JoinFree('\n', ", ", items);
  }

  /** With newline-free links, the References block has exactly one line per
      retrieved document, in retrieval order, numbered from 1. */
  lemma ReferencesOnePerDoc(docs: seq<Doc>)
    requires docs != []
    requires forall d, k :: d in docs && 0 <= k < |d.links| ==> '\n' !in d.links[k]
    ensures var lines := Split(RefsText(Numbered(docs)), "\n");
      |lines| == |docs| && forall k :: 0 <= k < |docs| ==> lines[k] == RefLine(k + 1, docs[k].links)
  {
    var n := Numbered(docs);
    var lines := seq(|n|, k requires 0 <= k < |n| => RefLine(n[k].0, n[k].1));
    forall k | 0 <= k < |lines| ensures '\n' !in lines[k] {
      assert docs[k] in docs;
      RefLineHasNoBreak(k + 1, docs[k].links);
    }
    SplitJoin(lines, '\n');
  }

  lemma SpaceBracket(s: string, d: string)
    ensures s + " " + ("[" + d + "]") == s + " [" + d + "]"
  {}

  /** Every context part carries its document's 1-based citation, linked to
      the first link exactly when the document has links. */
  lemma ContextCites(docs: seq<Doc>, k: nat)
    requires k < |docs|
    ensures var part := ContextParts(docs)[k];
      StartsWith(part, Strip(docs[k].content) + " [" + NatToString(k + 1) + "]")
      && (docs[k].links != [] ==> EndsWith(part, "(" + docs[k].links[0] + ")"))
      && (docs[k].links == [] ==> part == Strip(docs[k].content) + " [" + NatToString(k + 1) + "]")
  {
    var s := Strip(docs[k].content);
    var d := NatToString(k + 1);
    var c := Citation(k + 1, docs[k].links);
    CitationShape(k + 1, docs[k].links);
    assert ContextParts(docs)[k] == s + " " + c;
    PrefixAfter(s + " ", c, "[" + d + "]");
    SpaceBracket(s, d);
    if docs[k].links != [] {
      SuffixAfter(s + " ", c, "(" + docs[k].links[0] + ")");
    }
  }
}
