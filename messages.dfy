/** The LangChain message kinds the conversation log holds, the JSON records
    they are persisted as, and the backward search for the latest message of
    a given kind that several entry points perform. */
module Messages {

  datatype Option<T> = None | Some(value: T)

  /** HumanMessage, AIMessage, ToolMessage, or any other BaseMessage
      subclass (a SystemMessage, say); `repr` is what str() gives for it. */
  datatype Msg =
    | Human(content: string)
    | AI(content: string)
    | Tool(content: string, toolCallId: string)
    | Other(content: string, repr: string)

  /** The outcome of a call that may raise; `error` is str() of the exception. */
  datatype Call<T> = Returned(value: T) | Raised(error: string)

  /** One persisted JSON object: its "type", "content" and "tool_call_id"
      keys, each absent or holding a string. */
  datatype Record = Record(kind: Option<string>, content: Option<string>, toolCallId: Option<string>)

  /** The conversation file: absent, unreadable (bad JSON or an I/O error),
      or a stored list of records. */
  datatype Stored = Missing | Unreadable | Saved(records: seq<Record>)

  /** How a command-line entry point ends: its exit code, what it printed
      to stdout, and the error message it printed to stderr before exiting
      ("" when it ends normally). */
  datatype Outcome = Outcome(code: nat, stdout: string, diagnostic: string)

  predicate IsHuman(m: Msg) { m.Human? }

  predicate IsAI(m: Msg) { m.AI? }

  predicate NotHuman(m: Msg) { !m.Human? }

  /** The index of the last message satisfying p, if any. */
  function LastMatch(ms: seq<Msg>, p: Msg -> bool): (r: Option<nat>)
    ensures r.Some? ==> r.value < |ms| && p(ms[r.value])
    ensures r.Some? ==> forall j :: r.value < j < |ms| ==> !p(ms[j])
    ensures r.None? ==> forall j :: 0 <= j < |ms| ==> !p(ms[j])
    decreases |ms|
  {
    if ms == [] then None
    else if p(ms[|ms| - 1]) then Some(|ms| - 1)
    else LastMatch(ms[..|ms| - 1], p)
  }

  /** `for m in reversed(messages): if p(m): ...; break` */
  method FindLast(ms: seq<Msg>, p: Msg -> bool) returns (r: Option<nat>)
    ensures r == LastMatch(ms, p)
  {
    var i := |ms|;
    while i > 0
      invariant 0 <= i <= |ms|
      invariant forall j :: i <= j < |ms| ==> !p(ms[j])
    {
      i := i - 1;
      if p(ms[i]) {
        r := Some(i);
        return;
      }
    }
    r := None;
  }

  /** The content of the latest message that is not a human message. */
  function LastReply(ms: seq<Msg>): Option<string> {
    match LastMatch(ms, NotHuman)
    case Some(i) => Some(ms[i].content)
    case None => None
  }

  /** `for msg in reversed(messages): if not isinstance(msg, HumanMessage):
      ai_response = msg.content; break` */
  method PickReply(ms: seq<Msg>) returns (reply: Option<string>)
    ensures reply == LastReply(ms)
  {
    reply := None;
    var i := |ms|;
    while i > 0
      invariant 0 <= i <= |ms|
      invariant forall j :: i <= j < |ms| ==> ms[j].Human?
      invariant LastMatch(ms, NotHuman) == LastMatch(ms[..i], NotHuman)
    {
      i := i - 1;
      assert ms[..i + 1][..i] == ms[..i];
      if !ms[i].Human? {
        assert ms[..i + 1][i] == ms[i];
        reply := Some(ms[i].content);
        return;
      }
    }
  }

  /** A log extended by messages ending in an ai message answers with
      that message. */
  lemma ReplyOfFinalAI(state: seq<Msg>, reply: seq<Msg>)
    requires reply != [] && reply[|reply| - 1].AI?
    ensures LastReply(state + reply) == Some(reply[|reply| - 1].content)
  {
    var ms := state + reply;
    assert ms[|ms| - 1] == reply[|reply| - 1];
    assert LastMatch(ms, NotHuman) == Some(|ms| - 1);
  }

  // ---------------------------------------------------------------------
  // Record codecs: each entry point encodes a log message by message and
  // decodes it record by record; they differ only in the per-item step.

  /** The records of a log, each message encoded by `enc` in order. */
  function Encode(ms: seq<Msg>, enc: Msg -> seq<Record>): seq<Record>
    decreases |ms|
  {
    if ms == [] then [] else Encode(ms[..|ms| - 1], enc) + enc(ms[|ms| - 1])
  }

  /** The messages of a record list, each record decoded by `dec` in order;
      None as soon as one record raises. */
  function Decode(rs: seq<Record>, dec: Record -> Option<seq<Msg>>): Option<seq<Msg>>
    decreases |rs|
  {
    if rs == [] then Some([])
    else
      match Decode(rs[..|rs| - 1], dec)
      case None => None
      case Some(ms) =>
        match dec(rs[|rs| - 1])
        case None => None
        case Some(m) => Some(ms + m)
  }

  /** A log loaded from the file: [] when the file is missing or unreadable
      or a record raises. */
  function Load(file: Stored, dec: Record -> Option<seq<Msg>>): seq<Msg> {
    match file
    case Saved(rs) => (match Decode(rs, dec) case Some(ms) => ms case None => [])
    case _ => []
  }

  /** Each message replaced by the messages f gives for it. */
  function Expand(ms: seq<Msg>, f: Msg -> seq<Msg>): seq<Msg>
    decreases |ms|
  {
    if ms == [] then [] else Expand(ms[..|ms| - 1], f) + f(ms[|ms| - 1])
  }

  lemma EncodeAppend(a: seq<Msg>, b: seq<Msg>, enc: Msg -> seq<Record>)
    ensures Encode(a + b, enc) == Encode(a, enc) + Encode(b, enc)
    decreases |b|
  {
    if b == [] {
      assert a + b == a;
    } else {
      assert (a + b)[..|a + b| - 1] == a + b[..|b| - 1];
      EncodeAppend(a, b[..|b| - 1], enc);
    }
  }

  lemma ExpandAppend(a: seq<Msg>, b: seq<Msg>, f: Msg -> seq<Msg>)
    ensures Expand(a + b, f) == Expand(a, f) + Expand(b, f)
    decreases |b|
  {
    if b == [] {
      assert a + b == a;
    } else {
      assert (a + b)[..|a + b| - 1] == a + b[..|b| - 1];
      ExpandAppend(a, b[..|b| - 1], f);
    }
  }

  /** Decoding a concatenation decodes each half in turn. */
  lemma {:induction false} DecodeAppend(a: seq<Record>, b: seq<Record>, dec: Record -> Option<seq<Msg>>)
    ensures Decode(a + b, dec) ==
      (match Decode(a, dec)
       case None => None
       case Some(x) => (match Decode(b, dec) case None => None case Some(y) => Some(x + y)))
    decreases |b|
  {
    if b == [] {
      assert a + b == a;
      if Decode(a, dec).Some? {
        assert Decode(a, dec).value + [] == Decode(a, dec).value;
      }
    } else {
      var b0 := b[..|b| - 1];
      assert (a + b)[..|a + b| - 1] == a + b0;
      assert (a + b)[|a + b| - 1] == b[|b| - 1];
      DecodeAppend(a, b0, dec);
      if Decode(a, dec).Some? && Decode(b0, dec).Some? {
        var x, y := Decode(a, dec).value, Decode(b0, dec).value;
        if dec(b[|b| - 1]).Some? {
          var m := dec(b[|b| - 1]).value;
          assert x + y + m == x + (y + m);
        }
      }
    }
  }

  /** One record that raises empties the whole load, wherever it stands. */
  lemma DecodeFails(a: seq<Record>, r: Record, b: seq<Record>, dec: Record -> Option<seq<Msg>>)
    requires dec(r).None?
    ensures Decode(a + [r] + b, dec).None?
  {
    DecodeAppend(a, [r], dec);
    assert [r][..0] == [];
    DecodeAppend(a + [r], b, dec);
  }

  /** A record the step skips can be left out. */
  lemma DecodeSkips(a: seq<Record>, r: Record, b: seq<Record>, dec: Record -> Option<seq<Msg>>)
    requires dec(r) == Some([])
    ensures Decode(a + [r] + b, dec) == Decode(a + b, dec)
  {
    DecodeAppend(a, [r], dec);
    assert [r][..0] == [];
    DecodeAppend(a + [r], b, dec);
    DecodeAppend(a, b, dec);
    if Decode(a, dec).Some? {
      assert Decode(a, dec).value + [] == Decode(a, dec).value;
    }
  }

  /** A step-wise round trip lifts to whole logs: when decoding the records
      of one message gives f of it, decoding the records of a log gives the
      log expanded by f. */
  lemma {:induction false} RoundTripBy(ms: seq<Msg>, enc: Msg -> seq<Record>,
                                       dec: Record -> Option<seq<Msg>>, f: Msg -> seq<Msg>)
    requires forall m :: Decode(enc(m), dec) == Some(f(m))
    ensures Decode(Encode(ms, enc), dec) == Some(Expand(ms, f))
    decreases |ms|
  {
    if ms != [] {
      var init := ms[..|ms| - 1];
      RoundTripBy(init, enc, dec, f);
      DecodeAppend(Encode(init, enc), enc(ms[|ms| - 1]), dec);
    }
  }

  /** Decoding a single record is the step itself. */
  lemma DecodeOne(r: Record, dec: Record -> Option<seq<Msg>>)
    ensures Decode([r], dec) == (match dec(r) case None => None case Some(m) => Some(m))
  {
    assert [r][..0] == [];
    if dec(r).Some? {
      assert [] + dec(r).value == dec(r).value;
    }
  }

  /** One more record decoded by the loads' loops. */
  lemma DecodeStep(rs: seq<Record>, i: nat, dec: Record -> Option<seq<Msg>>, ms: seq<Msg>)
    requires i < |rs| && Decode(rs[..i], dec) == Some(ms)
    ensures Decode(rs[..i + 1], dec) == (match dec(rs[i]) case None => None case Some(x) => Some(ms + x))
  {
    assert rs[..i + 1][..i] == rs[..i];
  }

  lemma AppendNothing(ms: seq<Msg>)
    ensures ms + [] == ms
  {}

  /** A record between two decodable runs contributes its own messages in
      its place. */
  lemma DecodeMiddle(a: seq<Record>, r: Record, b: seq<Record>, dec: Record -> Option<seq<Msg>>)
    requires Decode(a, dec).Some? && dec(r).Some? && Decode(b, dec).Some?
    ensures Decode(a + [r] + b, dec) == Some(Decode(a, dec).value + dec(r).value + Decode(b, dec).value)
  {
    DecodeAppend(a, [r], dec);
    DecodeOne(r, dec);
    DecodeAppend(a + [r], b, dec);
  }

  /** Expanding by a step that keeps every message of the log changes nothing. */
  lemma {:induction false} ExpandFixed(ms: seq<Msg>, f: Msg -> seq<Msg>)
    requires forall k :: 0 <= k < |ms| ==> f(ms[k]) == [ms[k]]
    ensures Expand(ms, f) == ms
    decreases |ms|
  {
    if ms != [] {
      var init := ms[..|ms| - 1];
      assert forall k :: 0 <= k < |init| ==> init[k] == ms[k];
      ExpandFixed(init, f);
      assert init + [ms[|ms| - 1]] == ms;
    }
  }
}
