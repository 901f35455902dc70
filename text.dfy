/** String normalisation used when a guess is compared with the current word:
    `toUpperCase` restricted to ASCII letters and `trim` with JavaScript's set of
    white-space and line-terminator characters. */
module Text {

  /** The characters String.prototype.trim removes: WhiteSpace (TAB, VT, FF, SPACE,
      NO-BREAK SPACE, ZERO WIDTH NO-BREAK SPACE and the Zs category) and
      LineTerminator (LF, CR, LINE SEPARATOR, PARAGRAPH SEPARATOR). */
  predicate IsWhitespace(c: char) {
    c == '\t' || c == '\n' || c == '\U{B}' || c == '\U{C}' || c == '\r' || c == ' '
    || c == '\U{A0}' || c == '\U{1680}' || ('\U{2000}' <= c <= '\U{200A}')
    || c == '\U{2028}' || c == '\U{2029}' || c == '\U{202F}' || c == '\U{205F}'
    || c == '\U{3000}' || c == '\U{FEFF}'
  }

  predicate AllWhitespace(s: string) {
    forall i :: 0 <= i < |s| ==> IsWhitespace(s[i])
  }

  /** Upper-casing of one character, over ASCII: 'a'..'z' become 'A'..'Z'. */
  function UpperChar(c: char): (u: char)
    ensures 'a' <= c <= 'z' ==> 'A' <= u <= 'Z' && u as int == c as int - 32
    ensures !('a' <= c <= 'z') ==> u == c
  {
    if 'a' <= c <= 'z' then (c as int - 32) as char else c
  }

  /** String.prototype.toUpperCase over ASCII: every letter upper-cased in place,
      nothing else changed. */
  function ToUpper(s: string): (r: string)
    ensures |r| == |s|
    ensures forall i :: 0 <= i < |s| ==> r[i] == UpperChar(s[i])
  {
    seq(|s|, i requires 0 <= i < |s| => UpperChar(s[i]))
  }

  /** The length of the run of white space `s` starts with. */
  function LeadingWhitespace(s: string): (n: nat)
    ensures n <= |s|
    ensures forall i :: 0 <= i < n ==> IsWhitespace(s[i])
    ensures n < |s| ==> !IsWhitespace(s[n])
  {
    if s != [] && IsWhitespace(s[0]) then 1 + LeadingWhitespace(s[1..]) else 0
  }

  /** The length of the run of white space `s` ends with. */
  function TrailingWhitespace(s: string): (n: nat)
    ensures n <= |s|
    ensures forall i :: |s| - n <= i < |s| ==> IsWhitespace(s[i])
    ensures n < |s| ==> !IsWhitespace(s[|s| - n - 1])
  {
    if s != [] && IsWhitespace(s[|s| - 1]) then 1 + TrailingWhitespace(s[..|s| - 1]) else 0
  }

  /** String.prototype.trim: the white space at the start is dropped, then the white
      space at the end. The result is the slice of `s` that starts after the leading
      run of white space, with only white space after it, and it neither starts nor
      ends with white space. */
  function Trim(s: string): (r: string)
    ensures var a := LeadingWhitespace(s);
      && a + |r| <= |s|
      && (forall i :: 0 <= i < |r| ==> r[i] == s[a + i])
      && (forall i :: a + |r| <= i < |s| ==> IsWhitespace(s[i]))
    ensures r != [] ==> !IsWhitespace(r[0]) && !IsWhitespace(r[|r| - 1])
  {
    var t := s[LeadingWhitespace(s)..];
    t[..|t| - TrailingWhitespace(t)]
  }

  /** The normalisation a guess goes through before it is compared:
      `toUpperCase()` and then `trim()`. */
  function Normalize(guess: string): string {
    Trim(ToUpper(guess))
  }

  lemma {:induction false} ToUpperConcat(a: string, b: string)
    ensures ToUpper(a + b) == ToUpper(a) + ToUpper(b)
  {
    var l, r := ToUpper(a + b), ToUpper(a) + ToUpper(b);
    assert |l| == |r|;
    forall i | 0 <= i < |l| ensures l[i] == r[i] {
      if i < |a| {
        assert (a + b)[i] == a[i];
      } else {
        assert (a + b)[i] == b[i - |a|];
      }
    }
  }

  /** Upper-casing leaves white space alone. */
  lemma ToUpperKeepsWhitespace(p: string)
    requires AllWhitespace(p)
    ensures ToUpper(p) == p
  {
    assert forall i :: 0 <= i < |p| ==> ToUpper(p)[i] == p[i];
  }

  /** Upper-casing does not create or remove white space. */
  lemma UpperCharWhitespace(c: char)
    ensures IsWhitespace(UpperChar(c)) <==> IsWhitespace(c)
  {
  }

  /** Upper-casing commutes with taking a slice. */
  lemma ToUpperSlice(s: string, lo: nat, hi: nat)
    requires lo <= hi <= |s|
    ensures ToUpper(s)[lo..hi] == ToUpper(s[lo..hi])
  {
  }

  lemma {:induction false} LeadingWhitespaceUpper(s: string)
    ensures LeadingWhitespace(ToUpper(s)) == LeadingWhitespace(s)
    decreases |s|
  {
    if s != [] {
      UpperCharWhitespace(s[0]);
      ToUpperSlice(s, 1, |s|);
      LeadingWhitespaceUpper(s[1..]);
    }
  }

  lemma {:induction false} TrailingWhitespaceUpper(s: string)
    ensures TrailingWhitespace(ToUpper(s)) == TrailingWhitespace(s)
    decreases |s|
  {
    if s != [] {
      UpperCharWhitespace(s[|s| - 1]);
      ToUpperSlice(s, 0, |s| - 1);
      TrailingWhitespaceUpper(s[..|s| - 1]);
    }
  }

  /** Upper-casing and trimming commute: `toUpperCase().trim()` gives the same
      string as `trim().toUpperCase()`, since upper-casing neither creates nor
      removes white space. */
  lemma UpperThenTrimIsTrimThenUpper(g: string)
    ensures Trim(ToUpper(g)) == ToUpper(Trim(g))
  {
    var a := LeadingWhitespace(g);
    LeadingWhitespaceUpper(g);
    var t := g[a..];
    ToUpperSlice(g, a, |g|);
    assert ToUpper(g)[a..] == ToUpper(t);
    var k := |t| - TrailingWhitespace(t);
    TrailingWhitespaceUpper(t);
    ToUpperSlice(t, 0, k);
    assert Trim(ToUpper(g)) == ToUpper(t)[..k];
    assert Trim(g) == t[..k];
  }

  /** Trimming a word padded with white space on either side gives the word back,
      provided the word itself has no white space at its ends. */
  lemma TrimPadded(p: string, w: string, q: string)
    requires AllWhitespace(p) && AllWhitespace(q)
    requires w != [] ==> !IsWhitespace(w[0]) && !IsWhitespace(w[|w| - 1])
    ensures Trim(p + w + q) == w
  {
    var s := p + w + q;
    var r := Trim(s);
    var a := LeadingWhitespace(s);
    assert forall i :: 0 <= i < |p| ==> s[i] == p[i];
    assert forall i :: 0 <= i < |q| ==> s[|p| + |w| + i] == q[i];
    if w == [] {
      assert AllWhitespace(s);
      assert a == |s|;
    } else {
      assert s[|p|] == w[0];
      assert a == |p|;
      assert s[|p| + |w| - 1] == w[|w| - 1];
      assert |r| == |w|;
      assert forall i :: 0 <= i < |w| ==> r[i] == s[|p| + i] == w[i];
    }
  }

  /** A guess matches `w` whatever its letter case and whatever white space the
      player typed around it, as long as `w` is upper-case and is not itself padded. */
  lemma GuessMatchesIgnoringCaseAndPadding(p: string, g: string, q: string, w: string)
    requires AllWhitespace(p) && AllWhitespace(q)
    requires ToUpper(g) == w
    requires w != [] ==> !IsWhitespace(w[0]) && !IsWhitespace(w[|w| - 1])
    ensures Normalize(p + g + q) == w
  {
    ToUpperConcat(p + g, q);
    ToUpperConcat(p, g);
    ToUpperKeepsWhitespace(p);
    ToUpperKeepsWhitespace(q);
    TrimPadded(p, w, q);
  }

  /** A word that starts or ends with white space equals no normalised guess. */
  lemma PaddedWordNeverMatches(w: string, g: string)
    requires w != [] && (IsWhitespace(w[0]) || IsWhitespace(w[|w| - 1]))
    ensures Normalize(g) != w
  {
  }
}
