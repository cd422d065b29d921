/** Python string primitives the core relies on: whitespace, ASCII case
    mapping, strip, substring search, startswith/endswith, str.split with a
    separator, str.splitlines, str.join and decimal rendering of naturals. */
module Strings {

  /** Python's str.isspace() character set. */
  predicate IsSpace(c: char) {
    c == ' ' || ('\t' <= c <= '\r') || ('\U{1C}' <= c <= '\U{1F}') ||
    c == '\U{85}' || c == '\U{A0}' || c == '\U{1680}' ||
    ('\U{2000}' <= c <= '\U{200A}') || c == '\U{2028}' || c == '\U{2029}' ||
    c == '\U{202F}' || c == '\U{205F}' || c == '\U{3000}'
  }

  /** The line boundaries of Python's str.splitlines(). */
  predicate IsLineBreak(c: char) {
    ('\n' <= c <= '\r') || ('\U{1C}' <= c <= '\U{1E}') ||
    c == '\U{85}' || c == '\U{2028}' || c == '\U{2029}'
  }

  lemma LineBreakIsSpace(c: char)
    ensures IsLineBreak(c) ==> IsSpace(c)
  {}

  predicate AllSpace(s: string) {
    forall i :: 0 <= i < |s| ==> IsSpace(s[i])
  }

  predicate NoSpace(s: string) {
    forall i :: 0 <= i < |s| ==> !IsSpace(s[i])
  }

  predicate NoBreak(s: string) {
    forall i :: 0 <= i < |s| ==> !IsLineBreak(s[i])
  }

  // ---------------------------------------------------------------------
  // ASCII case mapping (str.lower / str.upper restricted to ASCII)

  function LowerChar(c: char): char {
    if 'A' <= c <= 'Z' then (c as int + 32) as char else c
  }

  function UpperChar(c: char): char {
    if 'a' <= c <= 'z' then (c as int - 32) as char else c
  }

  function Lower(s: string): (r: string)
    ensures |r| == |s| && forall i :: 0 <= i < |s| ==> r[i] == LowerChar(s[i])
  {
    seq(|s|, i requires 0 <= i < |s| => LowerChar(s[i]))
  }

  function Upper(s: string): (r: string)
    ensures |r| == |s| && forall i :: 0 <= i < |s| ==> r[i] == UpperChar(s[i])
  {
    seq(|s|, i requires 0 <= i < |s| => UpperChar(s[i]))
  }

  lemma CaseKeepsSpace(c: char)
    ensures IsSpace(LowerChar(c)) == IsSpace(c) && IsSpace(UpperChar(c)) == IsSpace(c)
  {}

  lemma LowerAppend(a: string, b: string)
    ensures Lower(a + b) == Lower(a) + Lower(b)
  {
    assert forall i :: 0 <= i < |a + b| ==> Lower(a + b)[i] == (Lower(a) + Lower(b))[i];
  }

  lemma LowerTwice(s: string)
    ensures Lower(Lower(s)) == Lower(s)
  {}

  lemma LowerSlice(s: string, a: int, b: int)
    requires 0 <= a <= b <= |s|
    ensures Lower(s[a..b]) == Lower(s)[a..b]
  {}

  lemma UpperSlice(s: string, a: int, b: int)
    requires 0 <= a <= b <= |s|
    ensures Upper(s[a..b]) == Upper(s)[a..b]
  {}

  lemma LowerSpaces(w: string)
    requires AllSpace(w)
    ensures AllSpace(Lower(w))
  {
    forall i | 0 <= i < |w| ensures IsSpace(Lower(w)[i]) { CaseKeepsSpace(w[i]); }
  }

  lemma UpperSpaces(w: string)
    requires AllSpace(w)
    ensures AllSpace(Upper(w))
  {
    forall i | 0 <= i < |w| ensures IsSpace(Upper(w)[i]) { CaseKeepsSpace(w[i]); }
  }

  // ---------------------------------------------------------------------
  // strip

  /** How many characters str.lstrip() drops from the front. */
  function LeadingSpace(s: string): (n: nat)
    ensures n <= |s|
    decreases |s|
  {
    if s != [] && IsSpace(s[0]) then 1 + LeadingSpace(s[1..]) else 0
  }

  /** How many characters str.rstrip() keeps at the front. */
  function RStripKept(s: string): (n: nat)
    ensures n <= |s|
    decreases |s|
  {
    if s != [] && IsSpace(s[|s| - 1]) then RStripKept(s[..|s| - 1]) else |s|
  }

  /** str.lstrip(): drops the leading whitespace. */
  function LStrip(s: string): string {
    s[LeadingSpace(s)..]
  }

  /** str.rstrip(): drops the trailing whitespace. */
  function RStrip(s: string): string {
    s[..RStripKept(s)]
  }

  /** str.strip(). */
  function Strip(s: string): string {
    RStrip(LStrip(s))
  }

  /** A string that strip() leaves unchanged. */
  predicate Stripped(s: string) {
    s == [] || (!IsSpace(s[0]) && !IsSpace(s[|s| - 1]))
  }

  /** lstrip() drops a run of whitespace that ends at a non-space or at the end. */
  lemma {:induction false} LStripShape(s: string)
    ensures AllSpace(s[..LeadingSpace(s)])
    ensures LeadingSpace(s) == |s| || !IsSpace(s[LeadingSpace(s)])
    decreases |s|
  {
    if s != [] && IsSpace(s[0]) {
      var t := s[1..];
      LStripShape(t);
      var k := LeadingSpace(t);
      var u := s[..k + 1];
      forall i | 0 <= i < k + 1 ensures IsSpace(u[i]) {
        if i > 0 {
          assert u[i] == t[..k][i - 1];
        }
      }
      if k < |t| {
        assert s[k + 1] == t[k];
      }
    }
  }

  /** rstrip() drops a run of whitespace that starts after a non-space or at the start. */
  lemma {:induction false} RStripShape(s: string)
    ensures AllSpace(s[RStripKept(s)..])
    ensures RStripKept(s) == 0 || !IsSpace(s[RStripKept(s) - 1])
    decreases |s|
  {
    if s != [] && IsSpace(s[|s| - 1]) {
      var n := |s| - 1;
      var t := s[..n];
      RStripShape(t);
      var k := RStripKept(t);
      forall i | 0 <= i < |s| - k ensures IsSpace(s[k..][i]) {
        if i < n - k {
          assert s[k..][i] == t[k..][i];
        } else {
          assert s[k..][i] == s[n];
        }
      }
      if k > 0 {
        assert s[k - 1] == t[k - 1];
      }
    }
  }

  /** rstrip() keeps every character up to the last non-space. */
  lemma RStripKeeps(s: string, i: nat)
    requires i < |s| && !IsSpace(s[i])
    ensures i < RStripKept(s)
  {
    RStripShape(s);
  }

  lemma {:induction false} LeadingSpaceUnique(s: string, k: nat)
    requires k <= |s| && AllSpace(s[..k]) && (k == |s| || !IsSpace(s[k]))
    ensures LeadingSpace(s) == k
    decreases k
  {
    if k > 0 {
      assert IsSpace(s[0]) by { assert s[..k][0] == s[0]; }
      var t := s[1..];
      var u := t[..k - 1];
      forall i | 0 <= i < k - 1 ensures IsSpace(u[i]) { assert u[i] == s[..k][i + 1]; }
      if k < |s| {
        assert t[k - 1] == s[k];
      }
      LeadingSpaceUnique(t, k - 1);
    }
  }

  lemma {:induction false} RStripKeptUnique(s: string, k: nat)
    requires k <= |s| && AllSpace(s[k..]) && (k == 0 || !IsSpace(s[k - 1]))
    ensures RStripKept(s) == k
    decreases |s| - k
  {
    if k < |s| {
      var n := |s| - 1;
      assert IsSpace(s[n]) by { assert s[k..][n - k] == s[n]; }
      var t := s[..n];
      forall i | 0 <= i < n - k ensures IsSpace(t[k..][i]) { assert t[k..][i] == s[k..][i]; }
      if k > 0 {
        assert t[k - 1] == s[k - 1];
      }
      RStripKeptUnique(t, k);
    }
  }

  lemma LStripUnique(s: string, k: nat)
    requires k <= |s| && AllSpace(s[..k]) && (k == |s| || !IsSpace(s[k]))
    ensures LStrip(s) == s[k..]
  {
    LeadingSpaceUnique(s, k);
  }

  lemma RStripUnique(s: string, k: nat)
    requires k <= |s| && AllSpace(s[k..]) && (k == 0 || !IsSpace(s[k - 1]))
    ensures RStrip(s) == s[..k]
  {
    RStripKeptUnique(s, k);
  }

  /** strip() yields a stripped slice of its argument, with only whitespace cut away. */
  lemma StripShape(s: string) returns (i: nat, j: nat)
    ensures i <= j <= |s| && Strip(s) == s[i..j]
    ensures AllSpace(s[..i]) && AllSpace(s[j..]) && Stripped(Strip(s))
  {
    var l := LStrip(s);
    var m := RStripKept(l);
    LStripShape(s);
    RStripShape(l);
    i, j := LeadingSpace(s), LeadingSpace(s) + m;
    assert Strip(s) == l[..m];
    assert s[i..j] == l[..m];
    assert s[j..] == l[m..];
    if m > 0 {
      assert Strip(s)[0] == s[i];
      assert Strip(s)[m - 1] == l[m - 1];
    }
  }

  lemma SliceAround(s: string, i: nat, j: nat)
    requires i <= j <= |s|
    ensures s == s[..i] + (s[i..j] + s[j..])
  {}

  /** s is its strip() between two runs of whitespace. */
  lemma StripPad(s: string) returns (a: string, b: string)
    ensures AllSpace(a) && AllSpace(b) && s == a + (Strip(s) + b)
  {
    var i, j := StripShape(s);
    SliceAround(s, i, j);
    a, b := s[..i], s[j..];
  }

  lemma StripIsStripped(s: string)
    ensures Stripped(Strip(s))
  {
    var _, _ := StripShape(s);
  }

  lemma StripOfStripped(s: string)
    requires Stripped(s)
    ensures Strip(s) == s
  {
    LStripUnique(s, 0);
    RStripUnique(s, |s|);
  }

  lemma StripIdempotent(s: string)
    ensures Strip(Strip(s)) == Strip(s)
  {
    var _, _ := StripShape(s);
    StripOfStripped(Strip(s));
  }

  lemma LStripHead(x: string)
    requires x != [] && IsSpace(x[0])
    ensures LStrip(x) == LStrip(x[1..])
  {
    assert x[1 + LeadingSpace(x[1..])..] == x[1..][LeadingSpace(x[1..])..];
  }

  lemma {:induction false} LeadingSpacePadded(a: string, s: string)
    requires AllSpace(a)
    ensures LeadingSpace(a + s) == |a| + LeadingSpace(s)
    decreases |a|
  {
    if a == [] {
      assert a + s == s;
    } else {
      var x := a + s;
      assert x[0] == a[0];
      assert x[1..] == a[1..] + s;
      assert AllSpace(a[1..]) by {
        forall i | 0 <= i < |a| - 1 ensures IsSpace(a[1..][i]) { assert a[1..][i] == a[i + 1]; }
      }
      LeadingSpacePadded(a[1..], s);
    }
  }

  lemma LStripPadded(a: string, s: string)
    requires AllSpace(a)
    ensures LStrip(a + s) == LStrip(s)
  {
    LeadingSpacePadded(a, s);
    assert (a + s)[|a| + LeadingSpace(s)..] == s[LeadingSpace(s)..];
  }

  lemma {:induction false} RStripKeptPadded(s: string, b: string)
    requires AllSpace(b)
    ensures RStripKept(s + b) == RStripKept(s)
    decreases |b|
  {
    if b == [] {
      assert s + b == s;
    } else {
      var x := s + b;
      var n := |b| - 1;
      assert x[|x| - 1] == b[n];
      assert x[..|x| - 1] == s + b[..n];
      assert AllSpace(b[..n]) by {
        forall i | 0 <= i < n ensures IsSpace(b[..n][i]) { assert b[..n][i] == b[i]; }
      }
      RStripKeptPadded(s, b[..n]);
    }
  }

  lemma RStripPadded(s: string, b: string)
    requires AllSpace(b)
    ensures RStrip(s + b) == RStrip(s)
  {
    RStripKeptPadded(s, b);
    assert (s + b)[..RStripKept(s)] == s[..RStripKept(s)];
  }

  lemma LStripAllSpace(b: string)
    requires AllSpace(b)
    ensures LStrip(b) == []
  {
    assert b[..|b|] == b;
    LeadingSpaceUnique(b, |b|);
  }

  lemma {:induction false} LStripThenPad(s: string, b: string)
    requires AllSpace(b)
    ensures RStrip(LStrip(s + b)) == RStrip(LStrip(s))
    decreases |s|
  {
    if s == [] {
      assert s + b == b;
      LStripAllSpace(b);
    } else if IsSpace(s[0]) {
      assert (s + b)[0] == s[0];
      assert (s + b)[1..] == s[1..] + b;
      LStripHead(s + b);
      LStripHead(s);
      LStripThenPad(s[1..], b);
    } else {
      assert (s + b)[0] == s[0];
      assert LStrip(s + b) == s + b;
      RStripPadded(s, b);
    }
  }

  /** Whitespace around a string does not change what strip() returns. */
  lemma StripPadded(a: string, s: string, b: string)
    requires AllSpace(a) && AllSpace(b)
    ensures Strip(a + s + b) == Strip(s)
  {
    var x := a + s + b;
    var y := s + b;
    assert x == a + y;
    LStripPadded(a, y);
    assert LStrip(x) == LStrip(y);
    LStripThenPad(s, b);
  }

  lemma StripTrailing(s: string, b: string)
    requires AllSpace(b)
    ensures Strip(s + b) == Strip(s)
  {
    StripPadded([], s, b);
    assert [] + s + b == s + b;
  }

  lemma StripAllSpace(s: string)
    ensures Strip(s) == [] <==> AllSpace(s)
  {
    var i, j := StripShape(s);
    if Strip(s) == [] {
      assert s == s[..i] + s[i..];
    } else {
      assert !IsSpace(s[i]);
    }
  }

  // ---------------------------------------------------------------------
  // prefixes, suffixes and substrings

  predicate StartsWith(s: string, p: string) {
    |p| <= |s| && s[..|p|] == p
  }

  lemma StartsWithAt(s: string, p: string, i: nat)
    requires StartsWith(s, p) && i < |p|
    ensures i < |s| && s[i] == p[i]
  {
    assert s[..|p|][i] == s[i];
  }

  predicate EndsWith(s: string, p: string) {
    |p| <= |s| && s[|s| - |p|..] == p
  }

  /** p occurs in s at index i. */
  predicate MatchAt(s: string, p: string, i: int) {
    0 <= i && i + |p| <= |s| && s[i..i + |p|] == p
  }

  /** Python's `p in s`. */
  predicate Contains(s: string, p: string) {
    exists i | 0 <= i <= |s| - |p| :: MatchAt(s, p, i)
  }

  /** An occurrence inside a slice is an occurrence in the whole string. */
  lemma ContainsInSlice(s: string, a: int, b: int, p: string)
    requires 0 <= a <= b <= |s| && Contains(s[a..b], p)
    ensures Contains(s, p)
  {
    var i :| 0 <= i <= b - a - |p| && MatchAt(s[a..b], p, i);
    var t := s[a..b];
    assert forall k :: 0 <= k < |t| ==> t[k] == s[a + k];
    assert s[a + i..a + i + |p|] == t[i..i + |p|];
    assert MatchAt(s, p, a + i);
  }

  /** A pattern free of whitespace cannot reach into whitespace padding. */
  lemma ContainsPadded(a: string, s: string, b: string, p: string)
    requires AllSpace(a) && AllSpace(b) && NoSpace(p) && p != []
    requires Contains(a + s + b, p)
    ensures Contains(s, p)
  {
    var x := a + s + b;
    var i :| 0 <= i <= |x| - |p| && MatchAt(x, p, i);
    assert !IsSpace(x[i]) by { assert x[i] == x[i..i + |p|][0]; }
    assert !IsSpace(x[i + |p| - 1]) by { assert x[i + |p| - 1] == x[i..i + |p|][|p| - 1]; }
    assert |a| <= i && i + |p| <= |a| + |s|;
    assert x[i..i + |p|] == s[i - |a|..i - |a| + |p|];
    assert MatchAt(s, p, i - |a|);
  }

  /** `any(w in s for w in words)` */
  predicate ContainsAny(s: string, words: seq<string>) {
    exists k | 0 <= k < |words| :: Contains(s, words[k])
  }

  lemma ContainsAnyInSlice(s: string, a: int, b: int, words: seq<string>)
    requires 0 <= a <= b <= |s| && ContainsAny(s[a..b], words)
    ensures ContainsAny(s, words)
  {
    var k :| 0 <= k < |words| && Contains(s[a..b], words[k]);
    ContainsInSlice(s, a, b, words[k]);
  }

  lemma ContainsAnyPadded(a: string, s: string, b: string, words: seq<string>)
    requires AllSpace(a) && AllSpace(b)
    requires forall k :: 0 <= k < |words| ==> NoSpace(words[k]) && words[k] != []
    requires ContainsAny(a + s + b, words)
    ensures ContainsAny(s, words)
  {
    var k :| 0 <= k < |words| && Contains(a + s + b, words[k]);
    ContainsPadded(a, s, b, words[k]);
  }

  /** Occurrences in s[1..] are the occurrences in s shifted by one. */
  lemma MatchAtTail(s: string, p: string, j: int)
    requires |s| > 0 && 0 <= j
    ensures MatchAt(s[1..], p, j) <==> MatchAt(s, p, j + 1)
  {
    if 0 <= j && j + 1 + |p| <= |s| { assert s[1..][j..j + |p|] == s[j + 1..j + 1 + |p|]; }
  }

  /** Gluing two strings free of p cannot create p when the second starts
      with a character p lacks: any straddling occurrence would cover it. */
  lemma AppendFree(a: string, b: string, p: string)
    requires !Contains(a, p) && !Contains(b, p) && b != [] && b[0] !in p
    ensures !Contains(a + b, p)
  {
    var s := a + b;
    forall i | 0 <= i <= |s| - |p| ensures !MatchAt(s, p, i) {
      if i + |p| <= |a| {
        assert s[i..i + |p|] == a[i..i + |p|];
        assert !MatchAt(a, p, i);
      } else if i >= |a| {
        assert s[i..i + |p|] == b[i - |a|..i - |a| + |p|];
        assert !MatchAt(b, p, i - |a|);
      } else {
        assert s[i..i + |p|][|a| - i] == b[0];
        assert p[|a| - i] in p;
      }
    }
  }

  /** The same, for the lowercased text. */
  lemma LowerFree(a: string, b: string, p: string)
    requires !Contains(Lower(a), p) && !Contains(Lower(b), p) && b != [] && LowerChar(b[0]) !in p
    ensures !Contains(Lower(a + b), p)
  {
    LowerAppend(a, b);
    AppendFree(Lower(a), Lower(b), p);
  }

  lemma PrefixAfter(h: string, c: string, n: string)
    requires StartsWith(c, n)
    ensures StartsWith(h + c, h + n)
  {
    assert (h + c)[..|h| + |n|] == h + c[..|n|];
  }

  lemma SuffixAfter(h: string, c: string, t: string)
    requires EndsWith(c, t)
    ensures EndsWith(h + c, t)
  {
    assert (h + c)[|h + c| - |t|..] == c[|c| - |t|..];
  }

  /** p occurs in any string that has it as a middle piece. */
  lemma ContainsMiddle(x: string, p: string, y: string)
    ensures Contains(x + p + y, p)
  {
    assert (x + p + y)[|x|..|x| + |p|] == p;
    assert MatchAt(x + p + y, p, |x|);
  }

  /** str.find(p): the first index of p in s, or -1. */
  function Find(s: string, p: string): (r: int)
    ensures r == -1 || 0 <= r <= |s| - |p|
    ensures r >= 0 ==> MatchAt(s, p, r) && forall j :: 0 <= j < r ==> !MatchAt(s, p, j)
    ensures r == -1 <==> !Contains(s, p)
    decreases |s|
  {
    if |s| < |p| then -1
    else if s[..|p|] == p then (assert MatchAt(s, p, 0); 0)
    else
      var k := Find(s[1..], p);
      FindStep(s, p, k);
      if k < 0 then -1 else k + 1
  }

  lemma FindStep(s: string, p: string, k: int)
    requires |p| <= |s| && s[..|p|] != p
    requires k == -1 || 0 <= k <= |s| - 1 - |p|
    requires k >= 0 ==> MatchAt(s[1..], p, k) && forall j :: 0 <= j < k ==> !MatchAt(s[1..], p, j)
    requires k == -1 <==> !Contains(s[1..], p)
    ensures k >= 0 ==> MatchAt(s, p, k + 1) && forall j :: 0 <= j < k + 1 ==> !MatchAt(s, p, j)
    ensures k == -1 <==> !Contains(s, p)
  {
    assert !MatchAt(s, p, 0);
    if k >= 0 {
      MatchAtTail(s, p, k);
      forall j | 0 <= j < k + 1 ensures !MatchAt(s, p, j) {
        if j > 0 { MatchAtTail(s, p, j - 1); }
      }
    } else {
      if Contains(s, p) {
        var j :| 0 <= j <= |s| - |p| && MatchAt(s, p, j);
        assert j > 0;
        MatchAtTail(s, p, j - 1);
        assert Contains(s[1..], p);
      }
    }
  }

  /** s.index(c): the position of the first c in s. */
  function IndexOf(s: string, c: char): (r: nat)
    requires c in s
    ensures r < |s| && s[r] == c
    decreases |s|
  {
    if s[0] == c then 0
    else
      assert c in s[1..] by {
        var i :| 0 <= i < |s| && s[i] == c;
        assert s[1..][i - 1] == c;
      }
      IndexOf(s[1..], c) + 1
  }

  /** No c comes before the one IndexOf finds. */
  lemma {:induction false} IndexOfFirst(s: string, c: char)
    requires c in s
    ensures c !in s[..IndexOf(s, c)]
    decreases |s|
  {
    if s[0] != c {
      var k := IndexOf(s[1..], c);
      IndexOfFirst(s[1..], c);
      assert s[..k + 1] == [s[0]] + s[1..][..k];
    }
  }

  /** The first position of c is the one with no c before it. */
  lemma IndexOfUnique(s: string, c: char, k: nat)
    requires k < |s| && s[k] == c && c !in s[..k]
    ensures c in s && IndexOf(s, c) == k
  {
    assert s[k] in s;
    IndexOfFirst(s, c);
  }

  // ---------------------------------------------------------------------
  // str.split(sep), str.join, str.splitlines()

  /** Python's s.split(sep) for a non-empty separator: the pieces between the
      leftmost non-overlapping occurrences of sep. */
  function Split(s: string, sep: string): (r: seq<string>)
    requires sep != []
    ensures r != []
    decreases |s|
  {
    var i := Find(s, sep);
    if i < 0 then [s] else [s[..i]] + Split(s[i + |sep|..], sep)
  }

  /** No piece of a split contains the separator. */
  lemma {:induction false} SplitPieces(s: string, sep: string)
    requires sep != []
    ensures forall k :: 0 <= k < |Split(s, sep)| ==> !Contains(Split(s, sep)[k], sep)
    decreases |s|
  {
    var i := Find(s, sep);
    if i >= 0 {
      FindFirst(s, sep);
      SplitPieces(s[i + |sep|..], sep);
    }
  }

  /** Nothing before the first occurrence matches. */
  lemma FindFirst(s: string, p: string)
    requires p != [] && Find(s, p) >= 0
    ensures !Contains(s[..Find(s, p)], p)
  {
    var i := Find(s, p);
    forall j | 0 <= j <= i - |p| ensures !MatchAt(s[..i], p, j) {
      assert !MatchAt(s, p, j);
      assert s[..i][j..j + |p|] == s[j..j + |p|];
    }
  }

  /** sep.join(parts). */
  function Join(sep: string, parts: seq<string>): string {
    if |parts| == 0 then ""
    else if |parts| == 1 then parts[0]
    else parts[0] + sep + Join(sep, parts[1..])
  }

  lemma JoinSnoc(sep: string, parts: seq<string>, x: string)
    requires parts != []
    ensures Join(sep, parts + [x]) == Join(sep, parts) + sep + x
    decreases |parts|
  {
    if |parts| > 1 {
      assert (parts + [x])[1..] == parts[1..] + [x];
      JoinSnoc(sep, parts[1..], x);
    }
  }

  /** A character absent from the separator and from every part is absent
      from the join. */
  lemma JoinFree(c: char, sep: string, parts: seq<string>)
    requires c !in sep && forall k :: 0 <= k < |parts| ==> c !in parts[k]
    ensures c !in Join(sep, parts)
    decreases |parts|
  {
    if |parts| > 1 { JoinFree(c, sep, parts[1..]); }
  }

  lemma JoinAllSpace(sep: string, parts: seq<string>)
    requires AllSpace(sep) && forall k :: 0 <= k < |parts| ==> AllSpace(parts[k])
    ensures AllSpace(Join(sep, parts))
    decreases |parts|
  {
    if |parts| > 1 { JoinAllSpace(sep, parts[1..]); }
  }

  /** Every part of an all-whitespace join is all whitespace. */
  lemma JoinSpaceParts(sep: string, parts: seq<string>)
    requires AllSpace(Join(sep, parts))
    ensures forall k :: 0 <= k < |parts| ==> AllSpace(parts[k])
    decreases |parts|
  {
    if |parts| > 1 {
      var rest := Join(sep, parts[1..]);
      var j := Join(sep, parts);
      assert j == parts[0] + sep + rest;
      forall i | 0 <= i < |parts[0]| ensures IsSpace(parts[0][i]) { assert j[i] == parts[0][i]; }
      forall i | 0 <= i < |rest| ensures IsSpace(rest[i]) { assert j[|parts[0]| + |sep| + i] == rest[i]; }
      JoinSpaceParts(sep, parts[1..]);
      forall k | 0 <= k < |parts| ensures AllSpace(parts[k]) {
        if k > 0 { assert parts[k] == parts[1..][k - 1]; }
      }
    }
  }

  lemma SingleCharContains(s: string, c: char)
    ensures Contains(s, [c]) <==> c in s
  {
    if c in s {
      var i :| 0 <= i < |s| && s[i] == c;
      assert MatchAt(s, [c], i);
    }
    if Contains(s, [c]) {
      var i :| 0 <= i <= |s| - 1 && MatchAt(s, [c], i);
      assert s[i] == s[i..i + 1][0];
    }
  }

  /** Splitting on a one-character separator undoes joining with it. */
  lemma {:induction false} SplitJoin(parts: seq<string>, c: char)
    requires parts != [] && forall k :: 0 <= k < |parts| ==> c !in parts[k]
    ensures Split(Join([c], parts), [c]) == parts
  {
    var s := Join([c], parts);
    SingleCharContains(parts[0], c);
    if |parts| == 1 {
      assert Find(s, [c]) == -1;
    } else {
      var rest := Join([c], parts[1..]);
      assert s == parts[0] + [c] + rest;
      var n := |parts[0]|;
      assert MatchAt(s, [c], n);
      forall j | 0 <= j < n ensures !MatchAt(s, [c], j) {
        assert s[j] == parts[0][j];
      }
      assert Find(s, [c]) == n;
      assert s[n + 1..] == rest;
      assert s[..n] == parts[0];
      SplitJoin(parts[1..], c);
    }
  }

  /** The index of the first line boundary of s, or |s| when there is none. */
  function LineEnd(s: string): (i: nat)
    ensures i <= |s|
    decreases |s|
  {
    if s == [] then 0
    else if IsLineBreak(s[0]) then 0
    else LineEnd(s[1..]) + 1
  }

  /** The first line ends at the first boundary, or at the end of the text. */
  lemma {:induction false} LineEndShape(s: string)
    ensures NoBreak(s[..LineEnd(s)]) && (LineEnd(s) < |s| ==> IsLineBreak(s[LineEnd(s)]))
    decreases |s|
  {
    if s != [] && !IsLineBreak(s[0]) {
      var t := s[1..];
      LineEndShape(t);
      var k := LineEnd(t);
      assert s[..k + 1] == [s[0]] + t[..k];
      if k < |t| {
        assert s[k + 1] == t[k];
      }
    }
  }

  lemma LineEndUnique(s: string, i: nat)
    requires i <= |s| && NoBreak(s[..i]) && (i < |s| ==> IsLineBreak(s[i]))
    ensures LineEnd(s) == i
  {
    var j := LineEnd(s);
    LineEndShape(s);
    assert forall k :: 0 <= k < i ==> !IsLineBreak(s[k]) by {
      forall k | 0 <= k < i ensures !IsLineBreak(s[k]) { assert s[..i][k] == s[k]; }
    }
    assert forall k :: 0 <= k < j ==> !IsLineBreak(s[k]) by {
      forall k | 0 <= k < j ensures !IsLineBreak(s[k]) { assert s[..j][k] == s[k]; }
    }
  }

  /** Where the next line starts after the boundary at i: "\r\n" counts as one. */
  function NextLineStart(s: string, i: nat): (j: nat)
    requires i < |s|
    ensures i < j <= |s|
  {
    if s[i] == '\r' && i + 1 < |s| && s[i + 1] == '\n' then i + 2 else i + 1
  }

  /** Python's s.splitlines(): no boundary characters are kept, and a final
      boundary does not start an empty last line. */
  function SplitLines(s: string): seq<string>
    decreases |s|
  {
    if s == [] then []
    else
      var i := LineEnd(s);
      if i == |s| then [s] else [s[..i]] + SplitLines(s[NextLineStart(s, i)..])
  }

  /** No line holds a boundary character. */
  lemma {:induction false} SplitLinesNoBreak(s: string)
    ensures forall k :: 0 <= k < |SplitLines(s)| ==> NoBreak(SplitLines(s)[k])
    decreases |s|
  {
    if s != [] {
      var i := LineEnd(s);
      LineEndShape(s);
      if i == |s| {
        assert s[..i] == s;
      } else {
        SplitLinesNoBreak(s[NextLineStart(s, i)..]);
      }
    }
  }

  lemma SplitLinesNonEmpty(s: string)
    ensures s != [] <==> SplitLines(s) != []
  {}

  /** The first line boundary of s, when there is one, splits off the first line. */
  lemma LinesAt(s: string, k: nat)
    requires k < |s| && LineEnd(s) == k
    ensures SplitLines(s) == [s[..k]] + SplitLines(s[NextLineStart(s, k)..])
  {}

  lemma LinesFrontBreak(c: char, q: string)
    requires IsLineBreak(c)
    ensures var l, m := SplitLines([c] + q), SplitLines(q);
      m == l || (l != [] && m == l[1..])
  {
    var s := [c] + q;
    assert LineEnd(s) == 0;
    LinesAt(s, 0);
    if c == '\r' && q != [] && q[0] == '\n' {
      assert s[2..] == q[1..];
      assert LineEnd(q) == 0;
      LinesAt(q, 0);
      assert SplitLines(q) == [[]] + SplitLines(q[1..]);
    } else {
      assert s[1..] == q;
    }
  }

  /** A non-boundary character put in front joins the first line. */
  lemma LinesConsChar(c: char, q: string, k: nat)
    requires !IsLineBreak(c) && k == LineEnd(q) < |q|
    ensures SplitLines([c] + q) == [[c] + q[..k]] + SplitLines(q[NextLineStart(q, k)..])
  {
    var s := [c] + q;
    assert s[1..] == q;
    assert LineEnd(s) == k + 1;
    var m := NextLineStart(q, k);
    assert NextLineStart(s, k + 1) == m + 1;
    SliceCons(c, q, k, m);
    LinesAt(s, k + 1);
  }

  lemma LinesFrontCharBreak(c: char, q: string)
    requires !IsLineBreak(c) && LineEnd(q) < |q|
    ensures var l, m := SplitLines([c] + q), SplitLines(q);
      l != [] && m != [] && l[0] == [c] + m[0] && m[1..] == l[1..]
  {
    var k := LineEnd(q);
    LinesConsChar(c, q, k);
    LinesAt(q, k);
  }

  lemma LinesFrontCharWhole(c: char, q: string)
    requires !IsLineBreak(c) && LineEnd(q) == |q|
    ensures SplitLines([c] + q) == [[c] + q]
    ensures q != [] ==> SplitLines(q) == [q]
  {
    var s := [c] + q;
    assert s[1..] == q;
    assert LineEnd(s) == |s|;
  }

  lemma LinesFrontChar(c: char, q: string)
    requires !IsLineBreak(c)
    ensures var l, m := SplitLines([c] + q), SplitLines(q);
      l != [] && l[0] == [c] + (if m == [] then [] else m[0]) &&
      (m == [] ==> l == [[c]]) && (m != [] ==> m[1..] == l[1..])
  {
    if LineEnd(q) < |q| {
      LinesFrontCharBreak(c, q);
    } else {
      LinesFrontCharWhole(c, q);
      var l := SplitLines([c] + q);
      assert l[1..] == [];
      if q != [] {
        assert SplitLines(q)[1..] == [];
      } else {
        assert [c] + q == [c];
      }
    }
  }

  /** How the lines change when one character is put in front: they stay the
      same (a carriage return before a line feed), lose an empty first line
      (a line break), or the first line loses that character. */
  lemma LinesDropFirst(c: char, q: string)
    ensures var l, m := SplitLines([c] + q), SplitLines(q);
      m == l ||
      (|m| + 1 == |l| && forall k :: 0 <= k < |m| ==> m[k] == l[k + 1]) ||
      (|m| == |l| && m != [] && l[0] == [c] + m[0] && forall k :: 0 < k < |m| ==> m[k] == l[k])
  {
    var l, m := SplitLines([c] + q), SplitLines(q);
    if IsLineBreak(c) {
      LinesFrontBreak(c, q);
      if m != l {
        assert forall k :: 0 <= k < |m| ==> m[k] == l[1..][k];
      }
    } else {
      LinesFrontChar(c, q);
      if m != [] {
        assert forall k :: 0 < k < |m| ==> m[k] == m[1..][k - 1] == l[1..][k - 1];
      }
    }
  }

  /** The lines of a string with no boundary but the last character. */
  lemma LinesBackSingle(q: string, c: char)
    requires NoBreak(q)
    ensures IsLineBreak(c) ==> SplitLines(q + [c]) == [q]
    ensures !IsLineBreak(c) ==> SplitLines(q + [c]) == [q + [c]]
  {
    var s := q + [c];
    assert s[..|q|] == q;
    if IsLineBreak(c) {
      LineEndUnique(s, |q|);
      assert NextLineStart(s, |q|) == |s|;
      assert s[|s|..] == [];
      LinesAt(s, |q|);
    } else {
      assert s[..|s|] == s;
      assert NoBreak(s) by {
        forall j | 0 <= j < |s| ensures !IsLineBreak(s[j]) {
          if j < |q| { assert s[j] == q[j]; }
        }
      }
      LineEndUnique(s, |s|);
    }
  }

  lemma ConsIndex<T>(h: T, l: seq<T>)
    ensures |[h] + l| == |l| + 1 && ([h] + l)[0] == h
    ensures forall j :: 0 <= j < |l| ==> ([h] + l)[j + 1] == l[j]
  {}

  lemma SliceCons(c: char, q: string, k: nat, m: nat)
    requires k <= |q| && m <= |q|
    ensures ([c] + q)[m + 1..] == q[m..] && ([c] + q)[..k + 1] == [c] + q[..k]
  {}

  /** Peels the first character off a whitespace prefix. */
  lemma SpaceHead(p: string, q: string)
    requires p != [] && AllSpace(p)
    ensures p + q == [p[0]] + (p[1..] + q) && IsSpace(p[0]) && AllSpace(p[1..])
  {
    assert forall k :: 0 <= k < |p| - 1 ==> p[1..][k] == p[k + 1];
  }

  /** Peels the last character off a whitespace suffix. */
  lemma SpaceLast(q: string, p: string)
    requires p != [] && AllSpace(p)
    ensures var n := |p| - 1; q + p == (q + p[..n]) + [p[n]] && IsSpace(p[n]) && AllSpace(p[..n])
  {
    assert forall k :: 0 <= k < |p| - 1 ==> p[..|p| - 1][k] == p[k];
  }

  lemma AppendEmpty(s: string)
    ensures [] + s == s && s + [] == s
  {}

  lemma DropSnoc(q: string, c: char, m: nat)
    requires m <= |q|
    ensures (q + [c])[m..] == q[m..] + [c]
  {}

  /** A line feed after a final carriage return adds no line. */
  lemma LinesBackCrLf(q: string, k: nat)
    requires k + 1 == |q| && LineEnd(q) == k && q[k] == '\r'
    ensures SplitLines(q + ['\n']) == SplitLines(q)
  {
    var s := q + ['\n'];
    LineEndShape(q);
    assert s[..k] == q[..k];
    LineEndUnique(s, k);
    LinesAt(s, k);
    LinesAt(q, k);
    assert NextLineStart(s, k) == |s|;
    assert s[|s|..] == [];
    assert q[k + 1..] == [];
  }

  /** Lines before the first boundary of q are not affected by what follows. */
  lemma LinesBackSplit(q: string, c: char, k: nat)
    requires k < |q| && LineEnd(q) == k && !(q[k] == '\r' && k + 1 == |q| && c == '\n')
    ensures var m := NextLineStart(q, k);
      SplitLines(q + [c]) == [q[..k]] + SplitLines(q[m..] + [c]) &&
      SplitLines(q) == [q[..k]] + SplitLines(q[m..])
  {
    var s := q + [c];
    var m := NextLineStart(q, k);
    LineEndShape(q);
    assert s[..k] == q[..k];
    LineEndUnique(s, k);
    LinesAt(s, k);
    LinesAt(q, k);
    assert NextLineStart(s, k) == m;
    DropSnoc(q, c, m);
  }

  /** l is n after one character c was put at the end of the text: the
      same lines, one more line, or the last line grown by c. */
  predicate LinesGrow(n: seq<string>, l: seq<string>, c: char) {
    n == l ||
    (|n| + 1 == |l| && forall k :: 0 <= k < |n| ==> n[k] == l[k]) ||
    (|n| == |l| && n != [] && l[|l| - 1] == n[|n| - 1] + [c] &&
     forall k :: 0 <= k < |n| - 1 ==> n[k] == l[k])
  }

  /** A common first line keeps the relation. */
  lemma LinesGrowCons(h: string, n: seq<string>, l: seq<string>, c: char)
    requires LinesGrow(n, l, c)
    ensures LinesGrow([h] + n, [h] + l, c)
  {
    var n', l' := [h] + n, [h] + l;
    if n == l {
      assert n' == l';
    } else if |n| + 1 == |l| && forall k :: 0 <= k < |n| ==> n[k] == l[k] {
      forall j | 0 <= j < |n'| ensures n'[j] == l'[j] {
        if j > 0 { assert n'[j] == n[j - 1] && l'[j] == l[j - 1]; }
      }
    } else {
      assert l'[|l'| - 1] == l[|l| - 1] && n'[|n'| - 1] == n[|n| - 1];
      forall j | 0 <= j < |n'| - 1 ensures n'[j] == l'[j] {
        if j > 0 { assert n'[j] == n[j - 1] && l'[j] == l[j - 1]; }
      }
    }
  }

  /** How the lines change when one character is put at the end. */
  lemma {:induction false} LinesDropLast(q: string, c: char)
    ensures SplitLines(q + [c]) != []
    ensures LinesGrow(SplitLines(q), SplitLines(q + [c]), c)
    decreases |q|
  {
    SplitLinesNonEmpty(q + [c]);
    var k := LineEnd(q);
    if k == |q| {
      LineEndShape(q);
      assert q[..k] == q;
      LinesBackSingle(q, c);
      if q != [] {
        assert SplitLines(q) == [q];
      }
    } else {
      var m := NextLineStart(q, k);
      if q[k] == '\r' && k + 1 == |q| && c == '\n' {
        LinesBackCrLf(q, k);
      } else {
        LinesBackSplit(q, c, k);
        LinesDropLast(q[m..], c);
        LinesGrowCons(q[..k], SplitLines(q[m..]), SplitLines(q[m..] + [c]), c);
      }
    }
  }

  lemma JoinNonEmpty(sep: string, parts: seq<string>)
    requires parts != [] && parts[|parts| - 1] != []
    ensures Join(sep, parts) != []
    decreases |parts|
  {
    if |parts| > 1 { JoinNonEmpty(sep, parts[1..]); }
  }

  /** Lines joined with "\n" split back into the same lines. */
  lemma {:induction false} SplitLinesJoin(parts: seq<string>)
    requires parts != [] && parts[|parts| - 1] != []
    requires forall k :: 0 <= k < |parts| ==> NoBreak(parts[k])
    ensures SplitLines(Join("\n", parts)) == parts
  {
    var s := Join("\n", parts);
    if |parts| == 1 {
      LineEndUnique(s, |s|);
    } else {
      var rest := Join("\n", parts[1..]);
      assert s == parts[0] + "\n" + rest;
      var n := |parts[0]|;
      assert s[..n] == parts[0];
      LineEndUnique(s, n);
      JoinNonEmpty("\n", parts[1..]);
      assert NextLineStart(s, n) == n + 1;
      assert s[n + 1..] == rest;
      SplitLinesJoin(parts[1..]);
    }
  }

  // ---------------------------------------------------------------------
  // decimal rendering of naturals (Python's f"{i}")

  function DigitChar(d: nat): char
    requires d < 10
  {
    "0123456789"[d]
  }

  function NatToString(n: nat): (r: string)
    ensures r != [] && forall i :: 0 <= i < |r| ==> '0' <= r[i] <= '9'
    decreases n
  {
    if n < 10 then [DigitChar(n)] else NatToString(n / 10) + [DigitChar(n % 10)]
  }

  /** The number a string of decimal digits denotes, most significant first. */
  function DigitsValue(s: string): nat
    requires forall i :: 0 <= i < |s| ==> '0' <= s[i] <= '9'
    decreases |s|
  {
    if s == [] then 0
    else DigitsValue(s[..|s| - 1]) * 10 + ((s[|s| - 1] as int) - ('0' as int))
  }

  lemma DigitCharValue(d: nat)
    requires d < 10
    ensures (DigitChar(d) as int) - ('0' as int) == d
  {}

  /** NatToString is the decimal form of n: its digits denote n, and it has
      no leading zero unless n is 0. */
  lemma {:induction false} NatToStringValue(n: nat)
    ensures DigitsValue(NatToString(n)) == n
    ensures NatToString(n)[0] == '0' ==> n == 0
    decreases n
  {
    var r := NatToString(n);
    if n < 10 {
      DigitCharValue(n);
      assert r[..0] == [];
    } else {
      var q := NatToString(n / 10);
      NatToStringValue(n / 10);
      DigitCharValue(n % 10);
      assert r == q + [DigitChar(n % 10)];
      assert r[..|r| - 1] == q;
      assert r[0] == q[0];
    }
  }
}
