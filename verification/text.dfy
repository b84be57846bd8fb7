/** String operations the tool borrows from JavaScript: `endsWith`, splitting
    on the regular expression `/,|\n/`, and `trim`. */
module Text {

  /** `s.endsWith(suffix)`. */
  predicate EndsWith(s: string, suffix: string) {
    |suffix| <= |s| && s[|s| - |suffix|..] == suffix
  }

  /** Every string ends with whatever was appended to it last. */
  lemma EndsWithAppend(p: string, suffix: string)
    ensures EndsWith(p + suffix, suffix)
  {
    assert (p + suffix)[|p|..] == suffix;
  }

  /** A string ends with `suffix` exactly when it is something followed by
      `suffix`. */
  lemma EndsWithMeans(s: string, suffix: string)
    ensures EndsWith(s, suffix) <==> |suffix| <= |s| && s == s[..|s| - |suffix|] + suffix
  {
    if |suffix| <= |s| {
      assert s == s[..|s| - |suffix|] + s[|s| - |suffix|..];
    }
  }

  // ---------------------------------------------------------------------------
  // Splitting on "," or "\n"
  // ---------------------------------------------------------------------------

  /** A character the recipient textarea splits on. */
  predicate IsSeparator(c: char) {
    c == ',' || c == '\n'
  }

  predicate SeparatorFree(s: string) {
    forall k :: 0 <= k < |s| ==> !IsSeparator(s[k])
  }

  /** `s.split(/,|\n/)`: the maximal separator-free runs of `s`, one more than
      the number of separators; the empty string splits into one empty piece. */
  function Split(s: string): (pieces: seq<string>)
    ensures |pieces| >= 1
    ensures forall k :: 0 <= k < |pieces| ==> SeparatorFree(pieces[k])
    decreases |s|
  {
    if |s| == 0 then [""]
    else
      var rest := Split(s[1..]);
      if IsSeparator(s[0]) then [""] + rest
      else [[s[0]] + rest[0]] + rest[1..]
  }

  /** The separators of `s`, in order. */
  function Separators(s: string): (seps: string)
    ensures forall k :: 0 <= k < |seps| ==> IsSeparator(seps[k])
    ensures |seps| <= |s|
    decreases |s|
  {
    if |s| == 0 then []
    else (if IsSeparator(s[0]) then [s[0]] else []) + Separators(s[1..])
  }

  /** Interleaves pieces with separators: `p0 + sep0 + p1 + ... + pn`. */
  function Join(pieces: seq<string>, seps: string): string
    requires |pieces| == |seps| + 1
    decreases |seps|
  {
    if |seps| == 0 then pieces[0]
    else pieces[0] + [seps[0]] + Join(pieces[1..], seps[1..])
  }

  /** Splitting yields exactly one piece more than there are separators. */
  lemma {:induction false} SplitCount(s: string)
    ensures |Split(s)| == |Separators(s)| + 1
    decreases |s|
  {
    if |s| > 0 {
      SplitCount(s[1..]);
    }
  }

  lemma {:induction false} JoinConsHead(c: char, pieces: seq<string>, seps: string)
    requires |pieces| == |seps| + 1
    ensures Join([[c] + pieces[0]] + pieces[1..], seps) == [c] + Join(pieces, seps)
  {
    var moved := [[c] + pieces[0]] + pieces[1..];
    assert moved[1..] == pieces[1..];
  }

  /** Splitting loses nothing: re-inserting the separators gives `s` back. */
  lemma {:induction false} SplitJoin(s: string)
    ensures |Split(s)| == |Separators(s)| + 1
    ensures Join(Split(s), Separators(s)) == s
    decreases |s|
  {
    SplitCount(s);
    if |s| > 0 {
      var rest := Split(s[1..]);
      SplitJoin(s[1..]);
      assert s == [s[0]] + s[1..];
      if IsSeparator(s[0]) {
        var pieces := [""] + rest;
        assert pieces[1..] == rest;
        assert Separators(s) == [s[0]] + Separators(s[1..]);
        assert Separators(s)[1..] == Separators(s[1..]);
      } else {
        assert Separators(s) == Separators(s[1..]);
        JoinConsHead(s[0], rest, Separators(s[1..]));
      }
    }
  }

  lemma {:induction false} SplitSeparatorFree(p: string)
    requires SeparatorFree(p)
    ensures Split(p) == [p]
    decreases |p|
  {
    if |p| > 0 {
      SplitSeparatorFree(p[1..]);
      assert p == [p[0]] + p[1..];
    }
  }

  lemma {:induction false} SplitAfterPiece(p: string, c: char, t: string)
    requires SeparatorFree(p) && IsSeparator(c)
    ensures Split(p + [c] + t) == [p] + Split(t)
    decreases |p|
  {
    var s := p + [c] + t;
    if |p| == 0 {
      assert s == [c] + t;
      assert s[1..] == t;
    } else {
      assert s[1..] == p[1..] + [c] + t;
      SplitAfterPiece(p[1..], c, t);
      assert p == [p[0]] + p[1..];
    }
  }

  /** Splitting undoes joining: separator-free pieces joined with separators
      split back into the same pieces. */
  lemma {:induction false} JoinSplit(pieces: seq<string>, seps: string)
    requires |pieces| == |seps| + 1
    requires forall k :: 0 <= k < |pieces| ==> SeparatorFree(pieces[k])
    requires forall k :: 0 <= k < |seps| ==> IsSeparator(seps[k])
    ensures Split(Join(pieces, seps)) == pieces
    decreases |seps|
  {
    if |seps| == 0 {
      SplitSeparatorFree(pieces[0]);
      assert pieces == [pieces[0]];
    } else {
      JoinSplit(pieces[1..], seps[1..]);
      SplitAfterPiece(pieces[0], seps[0], Join(pieces[1..], seps[1..]));
      assert pieces == [pieces[0]] + pieces[1..];
    }
  }

  // ---------------------------------------------------------------------------
  // String.prototype.trim
  // ---------------------------------------------------------------------------

  /** ECMAScript WhiteSpace and LineTerminator code points, which `trim`
      strips: tab, vertical tab, form feed, space, no-break space, the byte
      order mark, the space separators of Unicode category Zs, line feed,
      carriage return, line separator and paragraph separator. */
  predicate IsWhitespace(c: char) {
    || c == '\t' || c == '\n' || c == '\U{B}' || c == '\U{C}' || c == '\r'
    || c == ' ' || c == '\U{A0}' || c == '\U{1680}'
    || ('\U{2000}' <= c <= '\U{200A}')
    || c == '\U{2028}' || c == '\U{2029}' || c == '\U{202F}' || c == '\U{205F}'
    || c == '\U{3000}' || c == '\U{FEFF}'
  }

  predicate AllWhitespace(s: string) {
    forall k :: 0 <= k < |s| ==> IsWhitespace(s[k])
  }

  /** Neither the first nor the last character is whitespace. */
  predicate NoOuterWhitespace(s: string) {
    |s| == 0 || (!IsWhitespace(s[0]) && !IsWhitespace(s[|s| - 1]))
  }

  /** Length of the leading whitespace run. */
  function LeadingWhitespace(s: string): (k: nat)
    ensures k <= |s|
    ensures AllWhitespace(s[..k])
    ensures k < |s| ==> !IsWhitespace(s[k])
    decreases |s|
  {
    if |s| > 0 && IsWhitespace(s[0]) then 1 + LeadingWhitespace(s[1..]) else 0
  }

  /** Index where the trailing whitespace run starts. */
  function TrailingWhitespace(s: string): (k: nat)
    ensures k <= |s|
    ensures AllWhitespace(s[k..])
    ensures 0 < k ==> !IsWhitespace(s[k - 1])
    decreases |s|
  {
    if |s| > 0 && IsWhitespace(s[|s| - 1]) then
      var k := TrailingWhitespace(s[..|s| - 1]);
      assert s[k..] == s[..|s| - 1][k..] + [s[|s| - 1]];
      k
    else |s|
  }

  /** `s.trim()`: `s` is the trimmed string wrapped in whitespace on both
      sides, and the trimmed string has no whitespace at either end. */
  function Trim(s: string): (t: string)
    ensures NoOuterWhitespace(t)
    ensures var a := LeadingWhitespace(s);
      && a + |t| <= |s|
      && s[a..a + |t|] == t
      && AllWhitespace(s[..a]) && AllWhitespace(s[a + |t|..])
  {
    var a := LeadingWhitespace(s);
    var rest := s[a..];
    var b := TrailingWhitespace(rest);
    assert |rest| > 0 ==> b > 0;
    assert s[a + b..] == rest[b..];
    rest[..b]
  }

  /** `trim` is determined by its contract: whatever whitespace surrounds a
      core without outer whitespace, trimming returns exactly that core. */
  lemma TrimUnique(w1: string, core: string, w2: string)
    requires AllWhitespace(w1) && AllWhitespace(w2) && NoOuterWhitespace(core)
    ensures Trim(w1 + core + w2) == core
  {
    var s := w1 + core + w2;
    var t := Trim(s);
    var a := LeadingWhitespace(s);
    if |core| == 0 {
      assert AllWhitespace(s);
      assert a == |s|;
    } else {
      assert s[|w1|] == core[0];
      assert a == |w1|;
      assert t == s[a..a + |t|];
      assert core == s[|w1|..|w1| + |core|];
    }
  }

  /** Trimming twice is trimming once. */
  lemma TrimIdempotent(s: string)
    ensures Trim(Trim(s)) == Trim(s)
  {
    TrimUnique("", Trim(s), "");
    assert "" + Trim(s) + "" == Trim(s);
  }
}
