/** Whitespace trimming and the word count the check-in handler applies to a
    submitted contribution (`content.trim().split(/\s+/).length`), with the
    inclusive 50..1312 acceptance range. */
module Words {

  /** The characters JavaScript's `trim` removes and the class `\s` matches:
      the ECMAScript WhiteSpace and LineTerminator code points. */
  predicate IsSpace(c: char) {
    || c == '\t' || c == '\n' || c == '\U{000B}' || c == '\U{000C}' || c == '\r'
    || c == ' ' || c == '\U{00A0}' || c == '\U{1680}' || ('\U{2000}' <= c <= '\U{200A}')
    || c == '\U{2028}' || c == '\U{2029}' || c == '\U{202F}' || c == '\U{205F}'
    || c == '\U{3000}' || c == '\U{FEFF}'
  }

  predicate AllSpace(s: string) {
    forall i :: 0 <= i < |s| ==> IsSpace(s[i])
  }

  /** A word: a non-empty run of non-whitespace characters. */
  predicate IsWord(w: string) {
    w != [] && forall i :: 0 <= i < |w| ==> !IsSpace(w[i])
  }

  const MinWords: nat := 50
  const MaxWords: nat := 1312

  predicate InRange(count: nat) {
    MinWords <= count <= MaxWords
  }

  /** Length of the whitespace run that starts s. */
  function LeadingSpace(s: string): (n: nat)
    ensures n <= |s| && AllSpace(s[..n])
    ensures n < |s| ==> !IsSpace(s[n])
  {
    if s == [] || !IsSpace(s[0]) then 0 else 1 + LeadingSpace(s[1..])
  }

  /** Length of the whitespace run that ends s. */
  function TrailingSpace(s: string): (n: nat)
    ensures n <= |s| && AllSpace(s[|s| - n..])
    ensures n < |s| ==> !IsSpace(s[|s| - n - 1])
  {
    if s == [] || !IsSpace(s[|s| - 1]) then 0 else 1 + TrailingSpace(s[..|s| - 1])
  }

  /** Length of the non-whitespace run that starts s. */
  function WordLength(s: string): (n: nat)
    ensures n <= |s|
    ensures forall i :: 0 <= i < n ==> !IsSpace(s[i])
    ensures n < |s| ==> IsSpace(s[n])
  {
    if s == [] || IsSpace(s[0]) then 0 else 1 + WordLength(s[1..])
  }

  /** r is s with some whitespace removed from each end. */
  ghost predicate Stripped(s: string, r: string) {
    exists i :: 0 <= i <= |s| - |r| && s[i..i + |r|] == r && AllSpace(s[..i]) && AllSpace(s[i + |r|..])
  }

  lemma StrippedByRuns(s: string, i: nat, m: nat)
    requires i <= |s| && AllSpace(s[..i])
    requires m <= |s| - i && AllSpace(s[i..][|s| - i - m..])
    ensures Stripped(s, s[i..][..|s| - i - m])
  {
    var r := s[i..][..|s| - i - m];
    assert s[i..i + |r|] == r;
    assert s[i + |r|..] == s[i..][|s| - i - m..];
  }

  /** `String.prototype.trim`: s without its whitespace ends. */
  function Trim(s: string): (r: string)
    ensures r == [] <==> AllSpace(s)
    ensures r != [] ==> !IsSpace(r[0]) && !IsSpace(r[|r| - 1])
    ensures Stripped(s, r)
  {
    var i := LeadingSpace(s);
    var m := TrailingSpace(s[i..]);
    TrimShape(s, i, m);
    StrippedByRuns(s, i, m);
    s[i..][..|s| - i - m]
  }

  /** Cutting a maximal whitespace run from each end leaves nothing exactly
      for blank text, and otherwise text with no whitespace at either end. */
  lemma TrimShape(s: string, i: nat, m: nat)
    requires i <= |s| && AllSpace(s[..i]) && (i < |s| ==> !IsSpace(s[i]))
    requires m <= |s| - i && AllSpace(s[i..][|s| - i - m..])
    requires m < |s| - i ==> !IsSpace(s[i..][|s| - i - m - 1])
    ensures var r := s[i..][..|s| - i - m];
      (r == [] <==> AllSpace(s)) && (r != [] ==> !IsSpace(r[0]) && !IsSpace(r[|r| - 1]))
  {
    var t := s[i..];
    if i < |s| {
      assert m < |t| by {
        assert t[0] == s[i];
      }
      assert !AllSpace(s) by {
        assert !IsSpace(s[i]);
      }
    } else {
      assert s[..i] == s;
    }
  }

  /** No whitespace at all (the empty string included). */
  predicate SpaceFree(w: string) {
    forall j :: 0 <= j < |w| ==> !IsSpace(w[j])
  }

  /** `s.split(/\s+/)`: the pieces between maximal whitespace runs, with an
      empty first or last piece when s starts or ends with whitespace. */
  function Split(s: string): (r: seq<string>)
    ensures r != []
    ensures forall i :: 0 <= i < |r| ==> SpaceFree(r[i])
    ensures forall i :: 0 < i < |r| - 1 ==> r[i] != []
    ensures s != [] && !IsSpace(s[0]) ==> r[0] != []
    decreases |s|
  {
    var n := WordLength(s);
    if n == |s| then [s]
    else
      var rest := s[n..];
      [s[..n]] + Split(rest[LeadingSpace(rest)..])
  }

  /** The maximal whitespace-separated tokens of s, in order. */
  function Tokens(s: string): (r: seq<string>)
    ensures forall i :: 0 <= i < |r| ==> IsWord(r[i])
    decreases |s|
  {
    var t := s[LeadingSpace(s)..];
    if t == [] then []
    else
      var n := WordLength(t);
      [t[..n]] + Tokens(t[n..])
  }

  /** The count the check-in handler computes. Blank text still counts one
      (the single empty piece), which is why the handler refuses it first. */
  function WordCount(content: string): (n: nat)
    ensures n >= 1
    ensures AllSpace(content) ==> n == 1
  {
    |Split(Trim(content))|
  }

  /** Words joined by single spaces. */
  function Join(ws: seq<string>): string
    requires ws != []
  {
    if |ws| == 1 then ws[0] else ws[0] + " " + Join(ws[1..])
  }

  /** On text without surrounding whitespace, splitting on whitespace runs
      yields exactly the maximal tokens. */
  lemma {:induction false} SplitOfTrimmed(t: string)
    requires t != [] && !IsSpace(t[0]) && !IsSpace(t[|t| - 1])
    ensures Split(t) == Tokens(t)
    decreases |t|
  {
    assert LeadingSpace(t) == 0;
    assert t[LeadingSpace(t)..] == t;
    var n := WordLength(t);
    if n < |t| {
      var rest := t[n..];
      var u := rest[LeadingSpace(rest)..];
      assert rest[|rest| - 1] == t[|t| - 1];
      assert LeadingSpace(rest) < |rest|;
      assert u[|u| - 1] == t[|t| - 1];
      SplitOfTrimmed(u);
      assert Tokens(rest) == Tokens(u) by {
        assert LeadingSpace(u) == 0;
        assert u[LeadingSpace(u)..] == u;
      }
    } else {
      assert t[..n] == t;
      assert t[n..] == [];
      assert Tokens(t[n..]) == [];
    }
  }

  /** Whitespace appended to a text does not change its tokens. */
  lemma {:induction false} TokensIgnoreTrailingSpace(a: string, b: string)
    requires AllSpace(b)
    ensures Tokens(a + b) == Tokens(a)
    decreases |a|
  {
    if AllSpace(a) {
      assert AllSpace(a + b);
      AllSpaceTokens(a + b);
      AllSpaceTokens(a);
    } else {
      var lead := LeadingSpace(a);
      LeadingSpaceAppend(a, b);
      var t := a[lead..];
      assert (a + b)[lead..] == t + b;
      var n := WordLength(t);
      WordLengthAppend(t, b);
      assert (t + b)[..n] == t[..n];
      assert (t + b)[n..] == t[n..] + b;
      TokensIgnoreTrailingSpace(t[n..], b);
    }
  }

  lemma {:induction false} AllSpaceTokens(s: string)
    requires AllSpace(s)
    ensures Tokens(s) == []
  {
    assert s[LeadingSpace(s)..] == [];
  }

  lemma {:induction false} LeadingSpaceAppend(a: string, b: string)
    requires !AllSpace(a)
    ensures LeadingSpace(a + b) == LeadingSpace(a) < |a|
    decreases |a|
  {
    if IsSpace(a[0]) {
      assert (a + b)[1..] == a[1..] + b;
      LeadingSpaceAppend(a[1..], b);
    }
  }

  lemma {:induction false} WordLengthAppend(a: string, b: string)
    requires AllSpace(b)
    ensures WordLength(a + b) == WordLength(a)
    decreases |a|
  {
    if a == [] {
      assert a + b == b;
    } else if !IsSpace(a[0]) {
      assert (a + b)[1..] == a[1..] + b;
      WordLengthAppend(a[1..], b);
    }
  }

  /** The word count is the number of maximal whitespace-separated tokens of
      the submitted text whenever that text is not whitespace only. */
  lemma WordCountIsTokenCount(content: string)
    requires !AllSpace(content)
    ensures WordCount(content) == |Tokens(content)|
  {
    SplitOfTrimmed(Trim(content));
    TokensOfTrim(content);
  }

  /** Trimming does not change the tokens. */
  lemma TokensOfTrim(content: string)
    requires !AllSpace(content)
    ensures Tokens(Trim(content)) == Tokens(content)
  {
    var t := content[LeadingSpace(content)..];
    var r := Trim(content);
    assert t == r + t[|t| - TrailingSpace(t)..];
    TokensIgnoreTrailingSpace(r, t[|t| - TrailingSpace(t)..]);
    assert Tokens(content) == Tokens(t) by {
      assert t != [] by {
        assert content[..LeadingSpace(content)] != content;
      }
      assert t[LeadingSpace(t)..] == t;
    }
  }

  /** Joining words by single spaces and tokenising gives the words back. */
  lemma {:induction false} TokensOfJoin(ws: seq<string>)
    requires ws != [] && forall i :: 0 <= i < |ws| ==> IsWord(ws[i])
    ensures Tokens(Join(ws)) == ws
    decreases |ws|
  {
    if |ws| == 1 {
      TokensOfJoinOne(ws);
    } else {
      TokensOfJoin(ws[1..]);
      JoinStartsWithWord(ws[1..]);
      TokensOfJoinCons(ws);
    }
  }

  lemma TokensOfJoinOne(ws: seq<string>)
    requires |ws| == 1 && IsWord(ws[0])
    ensures Tokens(Join(ws)) == ws
  {
    TokensOfWordThen(ws[0], []);
    assert ws[0] + [] == ws[0];
    assert Tokens([]) == [];
  }

  lemma TokensOfJoinCons(ws: seq<string>)
    requires |ws| >= 2 && IsWord(ws[0])
    requires var j := Join(ws[1..]); j != [] && !IsSpace(j[0]) && Tokens(j) == ws[1..]
    ensures Tokens(Join(ws)) == ws
  {
    var j := Join(ws[1..]);
    assert Join(ws) == ws[0] + (" " + j);
    TokensOfWordThen(ws[0], " " + j);
    TokensSkipSpace(j);
    assert [ws[0]] + ws[1..] == ws;
  }

  /** A word followed by nothing or by whitespace is the first token. */
  lemma TokensOfWordThen(w: string, rest: string)
    requires IsWord(w) && (rest == [] || IsSpace(rest[0]))
    ensures Tokens(w + rest) == [w] + Tokens(rest)
  {
    var s := w + rest;
    assert s[0] == w[0];
    assert LeadingSpace(s) == 0;
    assert s[LeadingSpace(s)..] == s;
    assert forall i :: 0 <= i < |w| ==> s[i] == w[i];
    if rest == [] {
      WordLengthOfWord(s);
    } else {
      assert s[|w|] == rest[0];
      WordLengthStopsAtSpace(s, |w|);
    }
    assert s[..|w|] == w;
    assert s[|w|..] == rest;
  }

  /** One leading space does not change the tokens. */
  lemma TokensSkipSpace(j: string)
    requires j != [] && !IsSpace(j[0])
    ensures Tokens(" " + j) == Tokens(j)
  {
    var s := " " + j;
    assert s[1..] == j;
    assert LeadingSpace(s) == 1;
    assert j[LeadingSpace(j)..] == j;
  }

  lemma {:induction false} WordLengthOfWord(s: string)
    requires forall i :: 0 <= i < |s| ==> !IsSpace(s[i])
    ensures WordLength(s) == |s|
    decreases |s|
  {
    if s != [] {
      WordLengthOfWord(s[1..]);
    }
  }

  lemma {:induction false} WordLengthStopsAtSpace(s: string, k: nat)
    requires k < |s| && IsSpace(s[k])
    requires forall i :: 0 <= i < k ==> !IsSpace(s[i])
    ensures WordLength(s) == k
    decreases k
  {
    if k > 0 {
      WordLengthStopsAtSpace(s[1..], k - 1);
    }
  }

  lemma {:induction false} JoinStartsWithWord(ws: seq<string>)
    requires ws != [] && forall i :: 0 <= i < |ws| ==> IsWord(ws[i])
    ensures var s := Join(ws); s != [] && !IsSpace(s[0]) && !IsSpace(s[|s| - 1])
    decreases |ws|
  {
    if |ws| > 1 {
      JoinStartsWithWord(ws[1..]);
    }
  }

  /** A text of k words separated by single spaces counts k words: so 50 and
      1312 such words are accepted, 49 and 1313 are not. */
  lemma WordCountOfJoin(ws: seq<string>)
    requires ws != [] && forall i :: 0 <= i < |ws| ==> IsWord(ws[i])
    ensures WordCount(Join(ws)) == |ws|
    ensures InRange(WordCount(Join(ws))) <==> MinWords <= |ws| <= MaxWords
  {
    JoinStartsWithWord(ws);
    var s := Join(ws);
    assert !AllSpace(s) by {
      assert !IsSpace(s[0]);
    }
    WordCountIsTokenCount(s);
    TokensOfJoin(ws);
  }
}
