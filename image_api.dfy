/** The one-shot image entry point (image_api.py): validate the path, send
    the router the image command, print the latest non-human reply. */
module ImageApi {
  import opened Strings
  import opened Messages
  import Agent

  const NoPathError: string := "Error: No image path provided"
  const NotFoundError: string := "Error: Image file not found."
  const FormatError: string := "Error: Unsupported image format. Please upload JPG, PNG, DICOM, or TIFF files."
  const NoResponseError: string := "Error: No response generated from image analysis"
  const AnalysisErrorPrefix: string := "Error analyzing mammogram: "

  const ValidExtensions: seq<string> := [".jpg", ".jpeg", ".png", ".dcm", ".dicom", ".tiff", ".bmp"]

  // ---------------------------------------------------------------------
  // os.path.splitext (POSIX)

  /** str.rfind for one character: its last index, or -1. */
  function RFind(s: string, c: char): (r: int)
    ensures -1 <= r < |s|
    decreases |s|
  {
    if s == [] then -1 else if s[|s| - 1] == c then |s| - 1 else RFind(s[..|s| - 1], c)
  }

  lemma {:induction false} RFindLast(s: string, c: char)
    ensures RFind(s, c) >= 0 ==> s[RFind(s, c)] == c
    ensures forall j :: RFind(s, c) < j < |s| ==> s[j] != c
    decreases |s|
  {
    if s != [] && s[|s| - 1] != c {
      RFindLast(s[..|s| - 1], c);
    }
  }

  /** A character that lowercasing fixes is found at the same place in the
      lowercased text. */
  lemma {:induction false} RFindLower(s: string, c: char)
    requires LowerChar(c) == c && forall x :: LowerChar(x) == c ==> x == c
    ensures RFind(Lower(s), c) == RFind(s, c)
    decreases |s|
  {
    if s != [] {
      LowerSlice(s, 0, |s| - 1);
      RFindLower(s[..|s| - 1], c);
    }
  }

  /** The file name has a character other than '.' before the dot at `dot`,
      after the separator at `sep`. */
  predicate HasStem(p: string, sep: int, dot: int)
    requires -1 <= sep && dot <= |p|
  {
    exists k | sep + 1 <= k < dot :: p[k] != '.'
  }

  /** `os.path.splitext(p)[1]`: from the last '.' of the last path component,
      unless that component is only dots up to it; otherwise "". */
  function Extension(p: string): (r: string)
    ensures r == [] || EndsWith(p, r)
  {
    var sep := RFind(p, '/');
    var dot := RFind(p, '.');
    if dot > sep && HasStem(p, sep, dot) then p[dot..] else []
  }

  predicate Accepted(path: string) {
    Lower(Extension(path)) in ValidExtensions
  }

  /** A non-empty extension is a dot followed by neither dots nor separators. */
  lemma ExtensionShape(p: string)
    ensures var e := Extension(p);
      e == [] || (e[0] == '.' && forall k :: 1 <= k < |e| ==> e[k] != '.' && e[k] != '/')
  {
    RFindLast(p, '/');
    RFindLast(p, '.');
    var e := Extension(p);
    if e != [] {
      var dot := RFind(p, '.');
      assert forall k :: 1 <= k < |e| ==> e[k] == p[dot + k];
    }
  }

  /** "stem.ext" with a plain stem and a plain extension splits at the dot. */
  lemma ExtensionOfName(dir: string, stem: string, ext: string)
    requires stem != [] && stem[0] != '.'
    requires forall k :: 0 <= k < |stem| ==> stem[k] != '.' && stem[k] != '/'
    requires forall k :: 0 <= k < |ext| ==> ext[k] != '.' && ext[k] != '/'
    ensures Extension(dir + "/" + stem + "." + ext) == "." + ext
  {
    var p := dir + "/" + stem + "." + ext;
    var sep := |dir|;
    var dot := |dir| + 1 + |stem|;
    assert p[dot] == '.' && p[sep] == '/';
    assert forall j :: dot < j < |p| ==> p[j] == ext[j - dot - 1];
    assert forall j :: sep < j < dot ==> p[j] == stem[j - sep - 1];
    RFindLast(p, '.');
    RFindLast(p, '/');
    assert RFind(p, '.') == dot;
    assert RFind(p, '/') == sep;
    assert p[sep + 1] != '.';
    assert p[dot..] == "." + ext;
  }

  /** Lowercasing keeps the separators and dots where they are... */
  lemma LowerKeepsMarks(p: string)
    ensures RFind(Lower(p), '/') == RFind(p, '/') && RFind(Lower(p), '.') == RFind(p, '.')
    ensures forall k :: 0 <= k < |p| ==> (Lower(p)[k] == '.' <==> p[k] == '.')
  {
    RFindLower(p, '/');
    RFindLower(p, '.');
  }

  /** ...so the extension of the lowercased path is the lowercased extension. */
  lemma ExtensionLower(p: string)
    ensures Extension(Lower(p)) == Lower(Extension(p))
  {
    var q := Lower(p);
    LowerKeepsMarks(p);
    var sep := RFind(p, '/');
    var dot := RFind(p, '.');
    assert HasStem(q, sep, dot) <==> HasStem(p, sep, dot);
    if dot > sep && HasStem(p, sep, dot) {
      LowerSlice(p, dot, |p|);
    }
  }

  /** The whitelist test ignores case: only the lowercased path matters. */
  lemma AcceptanceIgnoresCase(p: string)
    ensures Accepted(Lower(p)) <==> Accepted(p)
  {
    ExtensionLower(p);
    LowerTwice(Extension(p));
  }

  /** For example "scans/scan.PNG" is accepted. */
  lemma UpperCaseAccepted()
    ensures Accepted("scans" + "/" + "scan" + "." + "PNG")
  {
    ExtensionOfName("scans", "scan", "PNG");
    var e := "." + "PNG";
    assert |Lower(e)| == 4;
    assert Lower(e)[0] == '.' && Lower(e)[1] == 'p' && Lower(e)[2] == 'n' && Lower(e)[3] == 'g';
    assert Lower(e) == ValidExtensions[2];
  }

  // ---------------------------------------------------------------------
  // main

  /** The command image_api.py sends, which the router classifies as an
      image turn for the stripped path. */
  lemma CommandClassified<A>(path: string, c: Agent.Collaborators<A>)
    ensures Agent.IsImageTurn([Human("ANALYZE_IMAGE: " + path)])
    ensures Agent.Reply([Human("ANALYZE_IMAGE: " + path)], c) == Agent.ImageReply(Strip(path), c)
  {
    Agent.SubmittedCommand([], path, c);
    assert [] + [Human("ANALYZE_IMAGE: " + path)] == [Human("ANALYZE_IMAGE: " + path)];
  }

  /** main: `pathExists` stands for os.path.exists; the agent may raise. */
  method Run(argv: seq<string>, pathExists: string -> bool, agent: seq<Msg> -> Call<seq<Msg>>)
    returns (outcome: Outcome)
    ensures |argv| < 2 ==> outcome == Outcome(1, "", NoPathError)
    ensures |argv| >= 2 && !pathExists(argv[1]) ==> outcome == Outcome(1, "", NotFoundError)
    ensures |argv| >= 2 && pathExists(argv[1]) && !Accepted(argv[1]) ==> outcome == Outcome(1, "", FormatError)
    ensures |argv| >= 2 && pathExists(argv[1]) && Accepted(argv[1]) ==>
      var result := agent([Human("ANALYZE_IMAGE: " + argv[1])]);
      (result.Raised? ==> outcome == Outcome(1, "", AnalysisErrorPrefix + result.error))
      && (result.Returned? ==>
            var reply := LastReply(result.value);
            (reply.None? || reply.value == [] ==> outcome == Outcome(1, "", NoResponseError))
            && (reply.Some? && reply.value != [] ==> outcome == Outcome(0, reply.value + "\n", "")))
    ensures outcome.code == 0 || outcome.code == 1
  {
    if |argv| < 2 {
      return Outcome(1, "", NoPathError);
    }
    var imagePath := argv[1];
    if !pathExists(imagePath) {
      return Outcome(1, "", NotFoundError);
    }
    var fileExt := Lower(Extension(imagePath));
    if fileExt !in ValidExtensions {
      return Outcome(1, "", FormatError);
    }
    var result := agent([Human("ANALYZE_IMAGE: " + imagePath)]);
    if result.Raised? {
      return Outcome(1, "", AnalysisErrorPrefix + result.error);
    }
    var aiResponse := PickReply(result.value);
    if aiResponse.None? || aiResponse.value == [] {
      return Outcome(1, "", NoResponseError);
    }
    outcome := Outcome(0, aiResponse.value + "\n", "");
  }
}
