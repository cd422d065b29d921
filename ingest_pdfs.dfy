/** Ingestion of the PDF library (ingest_pdfs.py): every page of every
    ".pdf" file is split into chunks, and each chunk becomes a document
    carrying its file name and the page links that occur in it. */
module IngestPdfs {
  import opened Strings
  import opened Messages

  const TextsDir: string := "texts"
  const NoDocumentsError: string := "\U{26A0}\U{FE0F} No PDF documents found to ingest."

  /** `fname.lower().endswith(".pdf")` */
  predicate IsPdf(fname: string) {
    EndsWith(Lower(fname), ".pdf")
  }

  // ---------------------------------------------------------------------
  // re.findall(r"https?://\S+", text)

  /** The length of the run of non-whitespace characters s starts with:
      the run is greedy, ending only at whitespace or at the end of s. */
  function NonSpaceRun(s: string): (n: nat)
    ensures n <= |s|
    ensures n == |s| || IsSpace(s[n])
    decreases |s|
  {
    if s == [] || IsSpace(s[0]) then 0 else 1 + NonSpaceRun(s[1..])
  }

  lemma {:induction false} NonSpaceRunShape(s: string)
    ensures NoSpace(s[..NonSpaceRun(s)])
    decreases |s|
  {
    if s != [] && !IsSpace(s[0]) {
      NonSpaceRunShape(s[1..]);
      assert s[..NonSpaceRun(s)] == [s[0]] + s[1..][..NonSpaceRun(s[1..])];
    }
  }

  /** The pattern matches at the start of s: a scheme, then at least one
      non-whitespace character; the match runs to the next whitespace. */
  predicate LinkStart(s: string) {
    (StartsWith(s, "http://") && NonSpaceRun(s) > 7) || (StartsWith(s, "https://") && NonSpaceRun(s) > 8)
  }

  /** The non-overlapping matches, scanning left to right. */
  function Links(s: string): seq<string>
    decreases |s|
  {
    if s == [] then []
    else if LinkStart(s) then [s[..NonSpaceRun(s)]] + Links(s[NonSpaceRun(s)..])
    else Links(s[1..])
  }

  predicate IsLink(l: string) {
    (StartsWith(l, "http://") || StartsWith(l, "https://")) && NoSpace(l)
  }

  /** A prefix longer than a scheme keeps the scheme. */
  lemma PrefixKeeps(s: string, n: nat, p: string)
    requires StartsWith(s, p) && |p| <= n <= |s|
    ensures StartsWith(s[..n], p)
  {
    assert s[..n][..|p|] == s[..|p|];
  }

  /** Every extracted link starts with a scheme, holds no whitespace and
      occurs in the page text. */
  lemma {:induction false} LinksShape(s: string)
    ensures forall k :: 0 <= k < |Links(s)| ==> IsLink(Links(s)[k]) && Contains(s, Links(s)[k])
    decreases |s|
  {
    if s == [] {
    } else if LinkStart(s) {
      var n := NonSpaceRun(s);
      var l := s[..n];
      var rest := s[n..];
      NonSpaceRunShape(s);
      if StartsWith(s, "http://") { PrefixKeeps(s, n, "http://"); } else { PrefixKeeps(s, n, "https://"); }
      assert MatchAt(s, l, 0);
      LinksShape(rest);
      forall k | 0 <= k < |Links(rest)| ensures Contains(s, Links(rest)[k]) {
        assert s[n..|s|] == rest;
        ContainsInSlice(s, n, |s|, Links(rest)[k]);
      }
      assert Links(s) == [l] + Links(rest);
    } else {
      LinksShape(s[1..]);
      forall k | 0 <= k < |Links(s[1..])| ensures Contains(s, Links(s[1..])[k]) {
        assert s[1..|s|] == s[1..];
        ContainsInSlice(s, 1, |s|, Links(s[1..])[k]);
      }
    }
  }

  /** A whitespace character ends the non-whitespace run. */
  lemma {:induction false} NonSpaceRunStops(a: string, c: char, b: string)
    requires IsSpace(c)
    ensures NonSpaceRun(a + [c] + b) == NonSpaceRun(a)
    decreases |a|
  {
    if a == [] {
      assert (a + [c] + b)[0] == c;
    } else {
      assert (a + [c] + b)[0] == a[0];
      if !IsSpace(a[0]) {
        assert (a + [c] + b)[1..] == a[1..] + [c] + b;
        NonSpaceRunStops(a[1..], c, b);
      }
    }
  }

  /** Whether a link starts here is decided before the next whitespace. */
  lemma LinkStartStops(a: string, c: char, b: string)
    requires IsSpace(c)
    ensures LinkStart(a + [c] + b) == LinkStart(a)
  {
    var s := a + [c] + b;
    NonSpaceRunStops(a, c, b);
    var n := NonSpaceRun(a);
    if n > 7 {
      assert s[..7] == a[..7];
      if n > 8 {
        assert s[..8] == a[..8];
      }
    }
  }

  /** The matches come in text order: the links of a text that has a
      whitespace character at some position are the links before it
      followed by the links after it. */
  lemma {:induction false} LinksInOrder(a: string, c: char, b: string)
    requires IsSpace(c)
    ensures Links(a + [c] + b) == Links(a) + Links(b)
    decreases |a|
  {
    var s := a + [c] + b;
    LinkStartStops(a, c, b);
    if a == [] {
      assert !LinkStart(a);
      assert s[1..] == b;
    } else if LinkStart(a) {
      NonSpaceRunStops(a, c, b);
      var n := NonSpaceRun(a);
      assert s[..n] == a[..n];
      assert s[n..] == a[n..] + [c] + b;
      LinksInOrder(a[n..], c, b);
    } else {
      assert s[1..] == a[1..] + [c] + b;
      LinksInOrder(a[1..], c, b);
    }
  }

  // ---------------------------------------------------------------------
  // Pages, chunks and documents

  datatype Page = Page(text: string, links: seq<string>)

  /** A LangChain Document with metadata {"source", "links"}. */
  datatype Document = Document(content: string, source: string, links: seq<string>)

  /** extract_text_and_links over the page texts the reader gives
      (`page.extract_text() or ""`). */
  function PagesOf(texts: seq<string>): seq<Page> {
    seq(|texts|, i requires 0 <= i < |texts| => Page(texts[i], Links(texts[i])))
  }

  method ExtractTextAndLinks(texts: seq<string>) returns (results: seq<Page>)
    ensures results == PagesOf(texts)
  {
    results := [];
    for i := 0 to |texts|
      invariant results == PagesOf(texts[..i])
    {
      var text := texts[i];
      results := results + [Page(text, Links(text))];
    }
    assert texts[..|texts|] == texts;
  }

  /** `[url for url in page_links if url in chunk]` */
  function ChunkLinks(pageLinks: seq<string>, chunk: string): seq<string>
    decreases |pageLinks|
  {
    if pageLinks == [] then []
    else
      var url := pageLinks[|pageLinks| - 1];
      ChunkLinks(pageLinks[..|pageLinks| - 1], chunk) + (if Contains(chunk, url) then [url] else [])
  }

  lemma {:induction false} ChunkLinksAppend(a: seq<string>, b: seq<string>, chunk: string)
    ensures ChunkLinks(a + b, chunk) == ChunkLinks(a, chunk) + ChunkLinks(b, chunk)
    decreases |b|
  {
    if b == [] {
      assert a + b == a;
    } else {
      var init := b[..|b| - 1];
      assert (a + b)[..|a + b| - 1] == a + init;
      assert (a + b)[|a + b| - 1] == b[|b| - 1];
      ChunkLinksAppend(a, init, chunk);
    }
  }

  /** The filter keeps a link exactly when it occurs in the chunk, in page
      order and with repetitions: with ChunkLinksAppend this determines the
      result. */
  lemma ChunkLinksOne(url: string, chunk: string)
    ensures ChunkLinks([url], chunk) == (if Contains(chunk, url) then [url] else [])
  {
    assert [url][..0] == [];
  }

  lemma {:induction false} ChunkLinksSound(pageLinks: seq<string>, chunk: string)
    ensures forall k :: 0 <= k < |ChunkLinks(pageLinks, chunk)| ==> Contains(chunk, ChunkLinks(pageLinks, chunk)[k])
    decreases |pageLinks|
  {
    if pageLinks != [] {
      ChunkLinksSound(pageLinks[..|pageLinks| - 1], chunk);
    }
  }

  lemma {:induction false} ChunkLinksComplete(pageLinks: seq<string>, chunk: string)
    ensures forall k :: 0 <= k < |pageLinks| && Contains(chunk, pageLinks[k]) ==>
      pageLinks[k] in ChunkLinks(pageLinks, chunk)
    decreases |pageLinks|
  {
    if pageLinks != [] {
      var init := pageLinks[..|pageLinks| - 1];
      ChunkLinksComplete(init, chunk);
      assert forall k :: 0 <= k < |init| ==> init[k] == pageLinks[k];
    }
  }

  /** The documents of one page: one per chunk, in chunk order. */
  function PageDocs(fname: string, page: Page, split: string -> seq<string>): seq<Document> {
    var chunks := split(page.text);
    seq(|chunks|, i requires 0 <= i < |chunks| => Document(chunks[i], fname, ChunkLinks(page.links, chunks[i])))
  }

  /** The documents of one file, page after page. */
  function FileDocs(fname: string, pages: seq<Page>, split: string -> seq<string>): seq<Document>
    decreases |pages|
  {
    if pages == [] then []
    else FileDocs(fname, pages[..|pages| - 1], split) + PageDocs(fname, pages[|pages| - 1], split)
  }

  /** The documents of the listed files in order, skipping non-PDF names;
      `reader` stands for PdfReader on the joined path and may raise. */
  function AllDocs(fnames: seq<string>, reader: string -> Call<seq<string>>,
                   split: string -> seq<string>): Call<seq<Document>>
    decreases |fnames|
  {
    if fnames == [] then Returned([])
    else
      var fname := fnames[|fnames| - 1];
      match AllDocs(fnames[..|fnames| - 1], reader, split)
      case Raised(e) => Raised(e)
      case Returned(docs) =>
        if !IsPdf(fname) then Returned(docs)
        else
          match reader(TextsDir + "/" + fname)
          case Raised(e) => Raised(e)
          case Returned(texts) => Returned(docs + FileDocs(fname, PagesOf(texts), split))
  }

  /** build_vectorstore up to the embedding step: no documents at all is
      a RuntimeError. */
  function Ingested(fnames: seq<string>, reader: string -> Call<seq<string>>,
                    split: string -> seq<string>): (r: Call<seq<Document>>)
    ensures r.Returned? ==> r.value != []
  {
    match AllDocs(fnames, reader, split)
    case Raised(e) => Raised(e)
    case Returned(docs) => if docs == [] then Raised(NoDocumentsError) else Returned(docs)
  }

  /** The two inner loops: over the pages of one file and the chunks of
      each page. */
  method FileDocuments(fname: string, pages: seq<Page>, split: string -> seq<string>)
    returns (docs: seq<Document>)
    ensures docs == FileDocs(fname, pages, split)
  {
    docs := [];
    for i := 0 to |pages|
      invariant docs == FileDocs(fname, pages[..i], split)
    {
      var page := pages[i];
      var chunks := split(page.text);
      var before := docs;
      for j := 0 to |chunks|
        invariant docs == before + PageDocs(fname, page, split)[..j]
      {
        var chunk := chunks[j];
        var chunkLinks := ChunkLinks(page.links, chunk);
        docs := docs + [Document(chunk, fname, chunkLinks)];
        assert PageDocs(fname, page, split)[..j + 1] == PageDocs(fname, page, split)[..j] + [Document(chunk, fname, chunkLinks)];
      }
      assert PageDocs(fname, page, split)[..|chunks|] == PageDocs(fname, page, split);
      assert pages[..i + 1][..i] == pages[..i];
    }
    assert pages[..|pages|] == pages;
  }

  method BuildVectorstore(fnames: seq<string>, reader: string -> Call<seq<string>>,
                          split: string -> seq<string>)
    returns (r: Call<seq<Document>>)
    ensures r == Ingested(fnames, reader, split)
  {
    var allDocs: seq<Document> := [];
    for i := 0 to |fnames|
      invariant AllDocs(fnames[..i], reader, split) == Returned(allDocs)
    {
      var fname := fnames[i];
      assert fnames[..i + 1][..i] == fnames[..i];
      if !IsPdf(fname) {
        continue;
      }
      var text := reader(TextsDir + "/" + fname);
      if text.Raised? {
        RaisedStays(fnames, i + 1, reader, split);
        assert fnames[..|fnames|] == fnames;
        return Raised(text.error);
      }
      var pages := ExtractTextAndLinks(text.value);
      var docs := FileDocuments(fname, pages, split);
      allDocs := allDocs + docs;
    }
    assert fnames[..|fnames|] == fnames;
    if allDocs == [] {
      return Raised(NoDocumentsError);
    }
    r := Returned(allDocs);
  }

  /** Once a file raises, the whole ingestion raises with its error. */
  lemma {:induction false} RaisedStays(fnames: seq<string>, i: nat, reader: string -> Call<seq<string>>,
                                       split: string -> seq<string>)
    requires i <= |fnames| && AllDocs(fnames[..i], reader, split).Raised?
    ensures AllDocs(fnames, reader, split) == AllDocs(fnames[..i], reader, split)
    decreases |fnames| - i
  {
    if i < |fnames| {
      assert fnames[..i + 1][..i] == fnames[..i];
      RaisedStays(fnames, i + 1, reader, split);
    } else {
      assert fnames[..i] == fnames;
    }
  }

  // ---------------------------------------------------------------------
  // Properties of the documents

  /** A document from a listed PDF whose links all occur in its text. */
  predicate WellFormed(d: Document, fnames: seq<string>) {
    d.source in fnames && IsPdf(d.source) && forall k :: 0 <= k < |d.links| ==> Contains(d.content, d.links[k])
  }

  lemma {:induction false} FileDocsWellFormed(fname: string, pages: seq<Page>, split: string -> seq<string>,
                                              fnames: seq<string>)
    requires fname in fnames && IsPdf(fname)
    ensures forall k :: 0 <= k < |FileDocs(fname, pages, split)| ==> WellFormed(FileDocs(fname, pages, split)[k], fnames)
    decreases |pages|
  {
    if pages != [] {
      FileDocsWellFormed(fname, pages[..|pages| - 1], split, fnames);
      var page := pages[|pages| - 1];
      var chunks := split(page.text);
      forall i | 0 <= i < |chunks| {
        ChunkLinksSound(page.links, chunks[i]);
      }
    }
  }

  /** Every document names the PDF it came from, and carries only links
      that occur in its own text. */
  lemma {:induction false} DocumentsWellFormed(fnames: seq<string>, reader: string -> Call<seq<string>>,
                                               split: string -> seq<string>)
    ensures var r := AllDocs(fnames, reader, split);
      r.Returned? ==> forall k :: 0 <= k < |r.value| ==> WellFormed(r.value[k], fnames)
    decreases |fnames|
  {
    if fnames != [] {
      var init := fnames[..|fnames| - 1];
      var fname := fnames[|fnames| - 1];
      DocumentsWellFormed(init, reader, split);
      var prev := AllDocs(init, reader, split);
      if prev.Returned? {
        forall k | 0 <= k < |prev.value| ensures WellFormed(prev.value[k], fnames) {
          assert WellFormed(prev.value[k], init);
          assert prev.value[k].source in fnames;
        }
        if IsPdf(fname) && reader(TextsDir + "/" + fname).Returned? {
          FileDocsWellFormed(fname, PagesOf(reader(TextsDir + "/" + fname).value), split, fnames);
        }
      }
    }
  }

  /** A directory without PDF files ends in the RuntimeError. */
  lemma {:induction false} NoPdfNoDocuments(fnames: seq<string>, reader: string -> Call<seq<string>>,
                                            split: string -> seq<string>)
    requires forall k :: 0 <= k < |fnames| ==> !IsPdf(fnames[k])
    ensures AllDocs(fnames, reader, split) == Returned([])
    ensures Ingested(fnames, reader, split) == Raised(NoDocumentsError)
    decreases |fnames|
  {
    if fnames != [] {
      var init := fnames[..|fnames| - 1];
      assert forall k :: 0 <= k < |init| ==> init[k] == fnames[k];
      NoPdfNoDocuments(init, reader, split);
    }
  }
}
