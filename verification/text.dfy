/** String primitives with the semantics of the Python and C/Arduino library calls the
    system relies on: whitespace stripping, splitting on a separator, substring search,
    and taking the first whitespace-delimited token. */
module Text {
  import opened Wrappers

  /** Whose notion of white space applies: Python's str methods or C's isspace. */
  datatype Charset = Py | C

  /** White space as Python's str methods (Py) or C's isspace in the "C" locale (C) sees
      it. Python's set is the ASCII controls \t..\r and 0x1C..0x1F, the space, and the
      Unicode separators 0x85, 0xA0, 0x1680, 0x2000..0x200A, 0x2028, 0x2029, 0x202F,
      0x205F and 0x3000. */
  predicate IsSpace(cs: Charset, c: char) {
    match cs
    case C => '\t' <= c <= '\r' || c == ' '
    case Py =>
      || '\t' <= c <= '\r' || '\U{1C}' <= c <= '\U{1F}' || c == ' '
      || c == '\U{85}' || c == '\U{A0}' || c == '\U{1680}' || '\U{2000}' <= c <= '\U{200A}'
      || c == '\U{2028}' || c == '\U{2029}' || c == '\U{202F}' || c == '\U{205F}' || c == '\U{3000}'
  }

  predicate IsDigit(c: char) {
    '0' <= c <= '9'
  }

  predicate AllSpace(cs: Charset, s: string) {
    forall i :: 0 <= i < |s| ==> IsSpace(cs, s[i])
  }

  predicate NoSpace(cs: Charset, s: string) {
    forall i :: 0 <= i < |s| ==> !IsSpace(cs, s[i])
  }

  /** Neither starts nor ends with white space. */
  predicate IsStripped(cs: Charset, s: string) {
    |s| == 0 || (!IsSpace(cs, s[0]) && !IsSpace(cs, s[|s| - 1]))
  }

  /** Python's str.startswith and C's strncmp(s, p, |p|) == 0. */
  predicate StartsWith(s: string, p: string) {
    |p| <= |s| && s[..|p|] == p
  }

  /** Number of white-space characters at the front of `s`. */
  function LeadingSpaces(cs: Charset, s: string): (n: nat)
    ensures n <= |s|
    ensures AllSpace(cs, s[..n])
    ensures n < |s| ==> !IsSpace(cs, s[n])
  {
    if |s| == 0 || !IsSpace(cs, s[0]) then 0
    else
      var n' := LeadingSpaces(cs, s[1..]);
      assert s[..n' + 1] == [s[0]] + s[1..][..n'];
      n' + 1
  }

  /** Number of white-space characters at the end of `s`. */
  function TrailingSpaces(cs: Charset, s: string): (n: nat)
    ensures n <= |s|
    ensures AllSpace(cs, s[|s| - n..])
    ensures n < |s| ==> !IsSpace(cs, s[|s| - n - 1])
  {
    if |s| == 0 || !IsSpace(cs, s[|s| - 1]) then 0
    else
      var init := s[..|s| - 1];
      var n' := TrailingSpaces(cs, init);
      assert s[|s| - (n' + 1)..] == init[|init| - n'..] + [s[|s| - 1]];
      n' + 1
  }

  /** `r` sits at offset `i` of `s` with only white space before and after it. */
  predicate Surrounds(cs: Charset, s: string, i: int, r: string) {
    0 <= i <= |s| - |r| && s[i..i + |r|] == r && AllSpace(cs, s[..i]) && AllSpace(cs, s[i + |r|..])
  }

  /** Python's str.strip() (Py) and Arduino's String::trim() (C): the text between the
      white space at both ends. */
  function Strip(cs: Charset, s: string): (r: string)
    ensures IsStripped(cs, r)
    ensures exists i :: Surrounds(cs, s, i, r)
  {
    var i := LeadingSpaces(cs, s);
    var t := s[i..];
    var k := TrailingSpaces(cs, t);
    var r := t[..|t| - k];
    assert |r| > 0 ==> r[0] == s[i] && r[|r| - 1] == t[|t| - k - 1];
    assert s[i..i + |r|] == r;
    assert s[i + |r|..] == t[|t| - k..];
    assert AllSpace(cs, s[i + |r|..]);
    assert Surrounds(cs, s, i, r);
    r
  }

  lemma {:induction false} LeadingSpacesOfConcat(cs: Charset, a: string, x: string)
    requires AllSpace(cs, a)
    requires |x| == 0 || !IsSpace(cs, x[0])
    ensures LeadingSpaces(cs, a + x) == |a|
    decreases |a|
  {
    var s := a + x;
    if |a| == 0 {
      assert s == x;
    } else {
      assert s[0] == a[0];
      assert s[1..] == a[1..] + x;
      LeadingSpacesOfConcat(cs, a[1..], x);
    }
  }

  lemma {:induction false} TrailingSpacesOfConcat(cs: Charset, x: string, b: string)
    requires AllSpace(cs, b)
    requires |x| == 0 || !IsSpace(cs, x[|x| - 1])
    ensures TrailingSpaces(cs, x + b) == |b|
    decreases |b|
  {
    if |b| > 0 {
      assert (x + b)[..|x + b| - 1] == x + b[..|b| - 1];
      TrailingSpacesOfConcat(cs, x, b[..|b| - 1]);
    }
  }

  /** Stripping text that neither starts nor ends with white space changes nothing. */
  lemma StripOfStripped(cs: Charset, t: string)
    requires IsStripped(cs, t)
    ensures Strip(cs, t) == t
  {
    StripSurrounded(cs, [], t, []);
    assert [] + t + [] == t;
  }

  /** Stripping recovers exactly the text that white space surrounds. */
  lemma {:induction false} StripSurrounded(cs: Charset, a: string, t: string, b: string)
    requires AllSpace(cs, a) && AllSpace(cs, b) && IsStripped(cs, t)
    ensures Strip(cs, a + t + b) == t
  {
    var s := a + t + b;
    if |t| == 0 {
      assert s == a + b;
      assert AllSpace(cs, s);
      assert LeadingSpaces(cs, s) == |s|;
    } else {
      assert s == a + (t + b);
      LeadingSpacesOfConcat(cs, a, t + b);
      assert s[|a|..] == t + b;
      TrailingSpacesOfConcat(cs, t, b);
      assert (t + b)[..|t|] == t;
    }
  }

  /** Joins `parts` with `sep` between consecutive parts: the inverse of Split. */
  function Join(parts: seq<string>, sep: char): string
    requires |parts| >= 1
  {
    if |parts| == 1 then parts[0] else parts[0] + [sep] + Join(parts[1..], sep)
  }

  /** Position of the first `c` in `s`. */
  function IndexOfChar(s: string, c: char): (i: nat)
    requires c in s
    ensures i < |s| && s[i] == c && c !in s[..i]
  {
    if s[0] == c then 0
    else
      var i' := IndexOfChar(s[1..], c);
      assert s[..i' + 1] == [s[0]] + s[1..][..i'];
      i' + 1
  }

  /** Python's s.split(sep) for a one-character separator: the separator-free pieces
      between consecutive separators; always at least one piece. */
  function Split(s: string, sep: char): (parts: seq<string>)
    ensures |parts| >= 1
    ensures forall i :: 0 <= i < |parts| ==> sep !in parts[i]
    ensures Join(parts, sep) == s
    decreases |s|
  {
    if sep !in s then [s]
    else
      var i := IndexOfChar(s, sep);
      var rest := Split(s[i + 1..], sep);
      assert ([s[..i]] + rest)[1..] == rest;
      assert s == s[..i] + [sep] + s[i + 1..];
      [s[..i]] + rest
  }

  /** A separator-free first piece is split off unchanged. */
  lemma {:induction false} SplitCons(a: string, sep: char, b: string)
    requires sep !in a
    ensures Split(a + [sep] + b, sep) == [a] + Split(b, sep)
  {
    var s := a + [sep] + b;
    assert s[|a|] == sep;
    var i := IndexOfChar(s, sep);
    assert s[..i] == a;
    assert s[i + 1..] == b;
  }

  /** Splitting at a separator that no part contains gives the parts back. */
  lemma {:induction false} SplitJoin(parts: seq<string>, sep: char)
    requires |parts| >= 1
    requires forall i :: 0 <= i < |parts| ==> sep !in parts[i]
    ensures Split(Join(parts, sep), sep) == parts
    decreases |parts|
  {
    if |parts| > 1 {
      SplitJoin(parts[1..], sep);
      SplitCons(parts[0], sep, Join(parts[1..], sep));
      assert [parts[0]] + parts[1..] == parts;
    }
  }

  /** Whether `p` occurs in `s` starting at index `i`. */
  predicate OccursAt(s: string, p: string, i: nat) {
    i + |p| <= |s| && s[i..i + |p|] == p
  }

  /** The first index at or after `from` where `p` occurs in `s` (Python's str.find). */
  function FindFrom(s: string, p: string, from: nat): (r: Option<nat>)
    ensures r.Some? ==> from <= r.value && OccursAt(s, p, r.value)
    ensures r.Some? ==> forall j :: from <= j < r.value ==> !OccursAt(s, p, j)
    ensures r.None? ==> forall j :: from <= j ==> !OccursAt(s, p, j)
    decreases |s| - from
  {
    if from + |p| > |s| then None
    else if s[from..from + |p|] == p then Some(from)
    else FindFrom(s, p, from + 1)
  }

  /** Python's `p in s`. */
  predicate Contains(s: string, p: string) {
    FindFrom(s, p, 0).Some?
  }

  /** A stretch of `s` without the first character of `p` holds no occurrence start. */
  lemma {:induction false} FindSkips(s: string, p: string, from: nat, to: nat)
    requires |p| > 0 && from <= to <= |s|
    requires p[0] !in s[from..to]
    ensures FindFrom(s, p, from) == FindFrom(s, p, to)
    decreases |s| - from
  {
    if from < to {
      assert s[from..to][0] == s[from];
      if from + |p| <= |s| {
        assert s[from..from + |p|][0] != p[0];
      }
      assert s[from + 1..to] == s[from..to][1..];
      FindSkips(s, p, from + 1, to);
    }
  }

  /** `s.split(p)[1]` in Python: the text between the first occurrence of `p` and the next
      one (or the end of `s`); None exactly when `p` does not occur, where Python's
      indexing would raise. */
  function AfterFirst(s: string, p: string): (r: Option<string>)
    requires |p| > 0
    ensures r.None? <==> !Contains(s, p)
    ensures r.Some? ==>
              var start := FindFrom(s, p, 0).value + |p|;
              && start + |r.value| <= |s|
              && s[start..start + |r.value|] == r.value
              && (start + |r.value| == |s| || OccursAt(s, p, start + |r.value|))
              && forall j :: start <= j < start + |r.value| ==> !OccursAt(s, p, j)
  {
    match FindFrom(s, p, 0)
    case None => None
    case Some(i) =>
      var start := i + |p|;
      match FindFrom(s, p, start)
      case None => Some(s[start..])
      case Some(j) => Some(s[start..j])
  }

  /** Length of the run of non-space characters at the front of `s`. */
  function TokenLength(s: string): (n: nat)
    ensures n <= |s|
    ensures NoSpace(Py, s[..n])
    ensures n < |s| ==> IsSpace(Py, s[n])
  {
    if |s| == 0 || IsSpace(Py, s[0]) then 0
    else
      var n' := TokenLength(s[1..]);
      assert s[..n' + 1] == [s[0]] + s[1..][..n'];
      n' + 1
  }

  /** `s.split()[0]` in Python: the first maximal run of non-space characters; None when
      `s` is all white space, where Python's indexing would raise. */
  function FirstToken(s: string): (r: Option<string>)
    ensures r.None? <==> AllSpace(Py, s)
    ensures r.Some? ==> |r.value| > 0 && NoSpace(Py, r.value)
    ensures r.Some? ==>
              var k := LeadingSpaces(Py, s);
              && k + |r.value| <= |s|
              && s[k..k + |r.value|] == r.value
              && (k + |r.value| == |s| || IsSpace(Py, s[k + |r.value|]))
  {
    var k := LeadingSpaces(Py, s);
    var t := s[k..];
    if |t| == 0 then
      assert s[..k] == s;
      None
    else
      var n := TokenLength(t);
      assert !AllSpace(Py, s) by { assert !IsSpace(Py, s[k]); }
      Some(t[..n])
  }

  lemma {:induction false} TokenLengthOfConcat(t: string, b: string)
    requires NoSpace(Py, t)
    requires |b| == 0 || IsSpace(Py, b[0])
    ensures TokenLength(t + b) == |t|
    decreases |t|
  {
    var s := t + b;
    if |t| == 0 {
      assert s == b;
    } else {
      assert s[0] == t[0];
      assert s[1..] == t[1..] + b;
      TokenLengthOfConcat(t[1..], b);
    }
  }

  /** The first token of white space, a space-free word and a space-led rest is the word. */
  lemma {:induction false} FirstTokenOf(a: string, t: string, b: string)
    requires AllSpace(Py, a) && |t| > 0 && NoSpace(Py, t)
    requires |b| == 0 || IsSpace(Py, b[0])
    ensures FirstToken(a + t + b) == Some(t)
  {
    var s := a + t + b;
    assert s == a + (t + b);
    LeadingSpacesOfConcat(Py, a, t + b);
    assert s[|a|..] == t + b;
    TokenLengthOfConcat(t, b);
    assert (t + b)[..|t|] == t;
  }

  /** When the first character of `p` appears nowhere else, the text after the only
      occurrence of `p` is everything that follows it. */
  lemma {:induction false} AfterFirstOfUnique(s: string, pre: string, p: string, post: string)
    requires |p| > 0 && s == pre + p + post
    requires p[0] !in pre && p[0] !in post
    ensures Contains(s, p) && AfterFirst(s, p) == Some(post)
  {
    assert s[..|pre|] == pre;
    FindSkips(s, p, 0, |pre|);
    assert OccursAt(s, p, |pre|) by {
      assert s[|pre|..|pre| + |p|] == p;
    }
    var start := |pre| + |p|;
    assert s[start..] == post;
    FindSkips(s, p, start, |s|);
  }
}
