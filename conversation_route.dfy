/** The read-only conversation listing of the web front end
    (src/app/api/conversation/route.ts): stored records with non-blank
    content, numbered from 1, flagged as the user's when their type is
    "human". */
module ConversationRoute {
  import opened Messages

  /** The characters String.prototype.trim removes: ECMAScript WhiteSpace
      and LineTerminator. */
  predicate IsJsSpace(c: char) {
    c == '\t' || c == '\n' || c == '\U{000B}' || c == '\U{000C}' || c == '\r' || c == ' '
    || c == '\U{00A0}' || c == '\U{1680}' || ('\U{2000}' <= c <= '\U{200A}')
    || c == '\U{2028}' || c == '\U{2029}' || c == '\U{202F}' || c == '\U{205F}'
    || c == '\U{3000}' || c == '\U{FEFF}'
  }

  /** `msg.content && msg.content.trim()` is truthy. */
  predicate Shown(r: Record) {
    r.content.Some? && exists k | 0 <= k < |r.content.value| :: !IsJsSpace(r.content.value[k])
  }

  /** One entry of the response; the timestamp is left out. */
  datatype Entry = Entry(id: nat, message: string, isUser: bool)

  datatype Listing = Listing(success: bool, messages: seq<Entry>)

  /** The filter step, in order. */
  function Kept(rs: seq<Record>): seq<Record>
    decreases |rs|
  {
    if rs == [] then []
    else Kept(rs[..|rs| - 1]) + (if Shown(rs[|rs| - 1]) then [rs[|rs| - 1]] else [])
  }

  /** The map step over the kept records. */
  function Entries(kept: seq<Record>): seq<Entry>
    requires forall k :: 0 <= k < |kept| ==> kept[k].content.Some?
  {
    seq(|kept|, i requires 0 <= i < |kept| =>
      Entry(i + 1, kept[i].content.value, kept[i].kind == Some("human")))
  }

  lemma {:induction false} KeptShown(rs: seq<Record>)
    ensures forall k :: 0 <= k < |Kept(rs)| ==> Shown(Kept(rs)[k])
    decreases |rs|
  {
    if rs != [] {
      KeptShown(rs[..|rs| - 1]);
    }
  }

  /** GET: a missing file and a read or parse failure both answer success
      with no messages. */
  function Get(file: Stored): (r: Listing)
    ensures r.success
    ensures !file.Saved? ==> r.messages == []
  {
    match file
    case Saved(rs) =>
      KeptShown(rs);
      Listing(true, Entries(Kept(rs)))
    case _ => Listing(true, [])
  }

  /** The filter keeps exactly the shown records, in their order. */
  lemma {:induction false} KeptAppend(a: seq<Record>, b: seq<Record>)
    ensures Kept(a + b) == Kept(a) + Kept(b)
    decreases |b|
  {
    if b == [] {
      assert a + b == a;
    } else {
      var init := b[..|b| - 1];
      assert (a + b)[..|a + b| - 1] == a + init;
      assert (a + b)[|a + b| - 1] == b[|b| - 1];
      KeptAppend(a, init);
    }
  }

  lemma KeptOne(r: Record)
    ensures Kept([r]) == (if Shown(r) then [r] else [])
  {
    assert [r][..0] == [];
  }

  /** Every entry of a stored list: ids 1..n in order, the stored content
      unchanged, and `isUser` exactly for "human" records. */
  lemma EntriesShape(rs: seq<Record>)
    ensures var l := Get(Saved(rs)).messages; var kept := Kept(rs);
      |l| == |kept|
      && forall k :: 0 <= k < |l| ==>
           l[k].id == k + 1 && Some(l[k].message) == kept[k].content
           && (l[k].isUser <==> kept[k].kind == Some("human"))
  {}

  /** A blank or missing content is never listed; any other is. */
  lemma BlankDropped(a: seq<Record>, r: Record, b: seq<Record>)
    ensures |Get(Saved(a + [r] + b)).messages|
      == |Get(Saved(a)).messages| + (if Shown(r) then 1 else 0) + |Get(Saved(b)).messages|
  {
    KeptAppend(a + [r], b);
    KeptAppend(a, [r]);
    KeptOne(r);
  }
}
