/** `generateFilename(title, storyId)` of the content-store adapter: the story
    title lower-cased, every run of characters outside `[a-z0-9]` replaced by
    one `-`, leading and trailing `-` removed, then framed as
    `story-<id>-<slug>.md`. */
module Filename {
  import opened Wrappers
  import Decimal

  predicate IsSlugChar(c: char) {
    'a' <= c <= 'z' || '0' <= c <= '9'
  }

  predicate SlugOrDash(s: string) {
    forall i :: 0 <= i < |s| ==> IsSlugChar(s[i]) || s[i] == '-'
  }

  predicate NoDoubleDash(s: string) {
    forall i :: 0 <= i < |s| - 1 ==> !(s[i] == '-' && s[i + 1] == '-')
  }

  /** A cleaned title: letters, digits and single inner dashes only. */
  predicate IsSlug(s: string) {
    SlugOrDash(s) && NoDoubleDash(s) && (s != [] ==> s[0] != '-' && s[|s| - 1] != '-')
  }

  /** `toLowerCase` of one character. Exact for ASCII and for the two code
      points whose lower case contains an ASCII letter (U+0130 and the Kelvin
      sign U+212A); every other character is kept, and since neither it nor
      its real lower case is in `[a-z0-9]`, the next step replaces it all the
      same. */
  function LowerChar(c: char): (r: string)
    ensures r != [] && forall k :: 0 <= k < |r| ==> !('A' <= r[k] <= 'Z')
    ensures c != '\U{0130}' ==> |r| == 1
    ensures 'A' <= c <= 'Z' ==> |r| == 1 && 'a' <= r[0] <= 'z' && r[0] as int - 'a' as int == c as int - 'A' as int
    ensures !('A' <= c <= 'Z') && c != '\U{0130}' && c != '\U{212A}' ==> r == [c]
  {
    if 'A' <= c <= 'Z' then [(c as int + 32) as char]
    else if c == '\U{0130}' then ['i', '\U{0307}']
    else if c == '\U{212A}' then ['k']
    else [c]
  }

  /** `toLowerCase`: each character in turn. Only U+0130 lengthens the text. */
  function Lower(s: string): (r: string)
    ensures |r| >= |s|
    ensures forall k :: 0 <= k < |r| ==> !('A' <= r[k] <= 'Z')
  {
    if s == [] then [] else LowerChar(s[0]) + Lower(s[1..])
  }

  /** Without U+0130, lower-casing keeps the length, and each character
      becomes its own lower case at the same position. */
  lemma {:induction false} LowerCharwise(s: string)
    requires forall i :: 0 <= i < |s| ==> s[i] != '\U{0130}'
    ensures |Lower(s)| == |s|
    ensures forall i :: 0 <= i < |s| ==> [Lower(s)[i]] == LowerChar(s[i])
    decreases |s|
  {
    if s != [] {
      LowerCharwise(s[1..]);
      assert forall i :: 1 <= i < |s| ==> s[1..][i - 1] == s[i];
    }
  }

  /** Lower-casing works character by character, so it distributes over
      concatenation. */
  lemma {:induction false} LowerOfAppend(a: string, b: string)
    ensures Lower(a + b) == Lower(a) + Lower(b)
    decreases |a|
  {
    if a == [] {
      assert a + b == b;
    } else {
      assert (a + b)[0] == a[0] && (a + b)[1..] == a[1..] + b;
      LowerOfAppend(a[1..], b);
    }
  }

  /** Length of the run of characters outside `[a-z0-9]` that starts s. */
  function OtherRun(s: string): (n: nat)
    ensures n <= |s|
    ensures forall i :: 0 <= i < n ==> !IsSlugChar(s[i])
    ensures n < |s| ==> IsSlugChar(s[n])
  {
    if s == [] || IsSlugChar(s[0]) then 0 else 1 + OtherRun(s[1..])
  }

  /** `s.replace(/[^a-z0-9]+/g, '-')`. */
  function CollapseRuns(s: string): (r: string)
    ensures SlugOrDash(r) && NoDoubleDash(r)
    ensures s != [] && IsSlugChar(s[0]) ==> r != [] && r[0] == s[0]
    decreases |s|
  {
    if s == [] then []
    else if IsSlugChar(s[0]) then [s[0]] + CollapseRuns(s[1..])
    else ['-'] + CollapseRuns(s[OtherRun(s)..])
  }

  /** Length of the run of dashes that starts s. */
  function LeadingDashes(s: string): (n: nat)
    ensures n <= |s| && (n < |s| ==> s[n] != '-')
    ensures forall i :: 0 <= i < n ==> s[i] == '-'
  {
    if s == [] || s[0] != '-' then 0 else 1 + LeadingDashes(s[1..])
  }

  /** Length of the run of dashes that ends s. */
  function TrailingDashes(s: string): (n: nat)
    ensures n <= |s| && (n < |s| ==> s[|s| - n - 1] != '-')
    ensures forall i :: |s| - n <= i < |s| ==> s[i] == '-'
  {
    if s == [] || s[|s| - 1] != '-' then 0 else 1 + TrailingDashes(s[..|s| - 1])
  }

  predicate AllDash(s: string) {
    forall i :: 0 <= i < |s| ==> s[i] == '-'
  }

  /** r is s with a run of dashes removed from each end. */
  ghost predicate DashStripped(s: string, r: string) {
    exists i :: 0 <= i <= |s| - |r| && s[i..i + |r|] == r && AllDash(s[..i]) && AllDash(s[i + |r|..])
  }

  lemma DashStrippedByRuns(s: string, i: nat, m: nat)
    requires i <= |s| && AllDash(s[..i])
    requires m <= |s| - i && AllDash(s[i..][|s| - i - m..])
    ensures DashStripped(s, s[i..][..|s| - i - m])
  {
    var r := s[i..][..|s| - i - m];
    assert s[i..i + |r|] == r;
    assert s[i + |r|..] == s[i..][|s| - i - m..];
  }

  /** The whole of s is dashes exactly when stripping both runs leaves nothing. */
  lemma TrimDashesShape(s: string, i: nat, m: nat)
    requires i <= |s| && AllDash(s[..i]) && (i < |s| ==> s[i] != '-')
    requires m <= |s| - i && AllDash(s[i..][|s| - i - m..])
    requires m < |s| - i ==> s[i..][|s| - i - m - 1] != '-'
    ensures var r := s[i..][..|s| - i - m];
      (r == [] <==> AllDash(s)) && (r != [] ==> r[0] != '-' && r[|r| - 1] != '-')
  {
    var t := s[i..];
    if i < |s| {
      assert m < |t| by { assert t[0] == s[i]; }
      assert !AllDash(s) by { assert s[i] != '-'; }
    } else {
      assert s[..i] == s;
    }
  }

  /** A piece of a string without double dashes has none either. */
  lemma SliceKeepsDashes(s: string, i: nat, n: nat)
    requires i <= |s| && n <= |s| - i
    ensures SlugOrDash(s) && NoDoubleDash(s) ==> SlugOrDash(s[i..][..n]) && NoDoubleDash(s[i..][..n])
  {
    assert forall k :: 0 <= k < n ==> s[i..][..n][k] == s[i + k];
  }

  /** `s.replace(/^-+|-+$/g, '')`. */
  function TrimDashes(s: string): (r: string)
    ensures DashStripped(s, r)
    ensures r == [] <==> AllDash(s)
    ensures r != [] ==> r[0] != '-' && r[|r| - 1] != '-'
    ensures SlugOrDash(s) && NoDoubleDash(s) ==> IsSlug(r)
  {
    var i := LeadingDashes(s);
    var t := s[i..];
    var m := TrailingDashes(t);
    TrimDashesShape(s, i, m);
    DashStrippedByRuns(s, i, m);
    SliceKeepsDashes(s, i, |t| - m);
    t[..|t| - m]
  }

  /** The cleaned title. */
  function Clean(title: string): (r: string)
    ensures IsSlug(r)
  {
    TrimDashes(CollapseRuns(Lower(title)))
  }

  /** The characters a generated filename may contain. */
  predicate FileChars(s: string) {
    forall i :: 0 <= i < |s| ==> IsSlugChar(s[i]) || s[i] == '-' || s[i] == '.'
  }

  lemma FileCharsAppend(a: string, b: string)
    requires FileChars(a) && FileChars(b)
    ensures FileChars(a + b)
  {
    assert forall i :: 0 <= i < |a| ==> (a + b)[i] == a[i];
    assert forall i :: |a| <= i < |a + b| ==> (a + b)[i] == b[i - |a|];
  }

  /** `story-<id>-<slug>.md` for a non-empty id: its characters, its
      prefix and its extension. */
  lemma Framed(id: string, slug: string)
    requires id != [] && FileChars(id) && FileChars(slug)
    ensures var r := "story-" + id + "-" + slug + ".md";
      FileChars(r) && |r| >= 9 && r[..6] == "story-" && r[|r| - 3..] == ".md"
  {
    FileCharsAppend("story-", id);
    FileCharsAppend("story-" + id, "-");
    FileCharsAppend("story-" + id + "-", slug);
    var m := "story-" + id + "-" + slug;
    FileCharsAppend(m, ".md");
    assert (m + ".md")[..6] == m[..6] == "story-";
    assert (m + ".md")[|m| + 3 - 3..] == ".md";
  }

  function GenerateFilename(title: string, storyId: nat): (r: string)
    ensures FileChars(r)
    ensures |r| >= 9 && r[..6] == "story-" && r[|r| - 3..] == ".md"
  {
    var id := Decimal.Show(storyId);
    var slug := Clean(title);
    assert FileChars(id) && FileChars(slug);
    Framed(id, slug);
    "story-" + id + "-" + slug + ".md"
  }

  /** The story id a generated filename was made for: the digits right
      after the `story-` prefix. */
  function StoryIdOf(filename: string): Option<nat> {
    if |filename| < 6 || filename[..6] != "story-" then None
    else
      var rest := filename[6..];
      var n := Decimal.LeadingDigits(rest);
      if n == 0 then None else Some(Decimal.Value(rest[..n]))
  }

  /** The id can be read back from the filename, whatever the title. */
  lemma FilenameNamesItsStory(title: string, storyId: nat)
    ensures StoryIdOf(GenerateFilename(title, storyId)) == Some(storyId)
  {
    FramedNamesItsStory(storyId, Clean(title));
  }

  lemma FramedNamesItsStory(storyId: nat, slug: string)
    ensures StoryIdOf("story-" + Decimal.Show(storyId) + "-" + slug + ".md") == Some(storyId)
  {
    var f := "story-" + Decimal.Show(storyId) + "-" + slug + ".md";
    var id := Decimal.Show(storyId);
    var tail := "-" + slug + ".md";
    var rest := id + tail;
    assert f == "story-" + rest;
    assert f[..6] == "story-" && f[6..] == rest;
    Decimal.LeadingNumeral(storyId, tail);
  }

  /** Two different stories never share a file, even with equal titles. */
  lemma DistinctStoriesDistinctFiles(title1: string, id1: nat, title2: string, id2: nat)
    requires id1 != id2
    ensures GenerateFilename(title1, id1) != GenerateFilename(title2, id2)
  {
    FilenameNamesItsStory(title1, id1);
    FilenameNamesItsStory(title2, id2);
  }

  lemma {:induction false} LowerKeepsSlugs(s: string)
    requires SlugOrDash(s)
    ensures Lower(s) == s
    decreases |s|
  {
    if s != [] {
      LowerKeepsSlugs(s[1..]);
    }
  }

  lemma {:induction false} CollapseKeepsSlugs(s: string)
    requires SlugOrDash(s) && NoDoubleDash(s) && (s != [] ==> s[|s| - 1] != '-')
    ensures CollapseRuns(s) == s
    decreases |s|
  {
    if s != [] {
      if !IsSlugChar(s[0]) {
        assert |s| > 1 && s[1] != '-';
        assert OtherRun(s) == 1;
      }
      CollapseKeepsSlugs(s[1..]);
    }
  }

  /** A title that is already a slug comes out unchanged. */
  lemma CleanKeepsSlugs(s: string)
    requires IsSlug(s)
    ensures Clean(s) == s
  {
    LowerKeepsSlugs(s);
    CollapseKeepsSlugs(s);
    assert s[0..] == s;
    assert s[..|s| - 0] == s;
  }

  /** Cleaning is idempotent. */
  lemma CleanIdempotent(title: string)
    ensures Clean(Clean(title)) == Clean(title)
  {
    CleanKeepsSlugs(Clean(title));
  }

  /** The letters and digits of s, in order. */
  function Kept(s: string): (r: string)
    ensures forall i :: 0 <= i < |r| ==> IsSlugChar(r[i])
  {
    if s == [] then []
    else if IsSlugChar(s[0]) then [s[0]] + Kept(s[1..])
    else Kept(s[1..])
  }

  lemma {:induction false} KeptSkipsOthers(s: string, n: nat)
    requires n <= |s| && forall i :: 0 <= i < n ==> !IsSlugChar(s[i])
    ensures Kept(s[n..]) == Kept(s)
    decreases n
  {
    if n > 0 {
      assert s[1..][n - 1..] == s[n..];
      KeptSkipsOthers(s[1..], n - 1);
    }
  }

  lemma {:induction false} KeptOfCollapse(s: string)
    ensures Kept(CollapseRuns(s)) == Kept(s)
    decreases |s|
  {
    if s != [] {
      if IsSlugChar(s[0]) {
        KeptOfCollapse(s[1..]);
      } else {
        KeptOfCollapse(s[OtherRun(s)..]);
        KeptSkipsOthers(s, OtherRun(s));
      }
    }
  }

  lemma {:induction false} KeptOfAppend(a: string, b: string)
    ensures Kept(a + b) == Kept(a) + Kept(b)
    decreases |a|
  {
    if a == [] {
      assert a + b == b;
    } else {
      assert (a + b)[1..] == a[1..] + b;
      KeptOfAppend(a[1..], b);
    }
  }

  lemma {:induction false} KeptOfDashes(s: string)
    requires forall i :: 0 <= i < |s| ==> s[i] == '-'
    ensures Kept(s) == []
    decreases |s|
  {
    if s != [] {
      KeptOfDashes(s[1..]);
    }
  }

  lemma KeptDropsTrailing(t: string, m: nat)
    requires m <= |t| && forall i :: |t| - m <= i < |t| ==> t[i] == '-'
    ensures Kept(t[..|t| - m]) == Kept(t)
  {
    var r := t[..|t| - m];
    assert t == r + t[|t| - m..];
    KeptOfAppend(r, t[|t| - m..]);
    KeptOfDashes(t[|t| - m..]);
  }

  lemma KeptOfTrimDashes(c: string)
    ensures Kept(TrimDashes(c)) == Kept(c)
  {
    var k := LeadingDashes(c);
    KeptSkipsOthers(c, k);
    var t := c[k..];
    KeptDropsTrailing(t, TrailingDashes(t));
  }

  /** A non-empty run of letters and digits. */
  predicate Word(w: string) {
    w != [] && forall i :: 0 <= i < |w| ==> IsSlugChar(w[i])
  }

  /** Length of the run of letters and digits that starts s. */
  function SlugRun(s: string): (n: nat)
    ensures n <= |s|
    ensures forall i :: 0 <= i < n ==> IsSlugChar(s[i])
    ensures n < |s| ==> !IsSlugChar(s[n])
  {
    if s == [] || !IsSlugChar(s[0]) then 0 else 1 + SlugRun(s[1..])
  }

  /** The maximal runs of letters and digits of s, in order. */
  function Runs(s: string): seq<string>
    decreases |s|
  {
    if s == [] then []
    else if IsSlugChar(s[0]) then [s[..SlugRun(s)]] + Runs(s[SlugRun(s)..])
    else Runs(s[OtherRun(s)..])
  }

  lemma WordsCons(w: string, ws: seq<string>)
    requires Word(w) && forall k :: 0 <= k < |ws| ==> Word(ws[k])
    ensures forall k :: 0 <= k < |[w] + ws| ==> Word(([w] + ws)[k])
  {
    assert forall k :: 1 <= k < |[w] + ws| ==> ([w] + ws)[k] == ws[k - 1];
  }

  /** Every run is a non-empty stretch of letters and digits. */
  lemma {:induction false} RunsAreWords(s: string)
    ensures forall k :: 0 <= k < |Runs(s)| ==> Word(Runs(s)[k])
    decreases |s|
  {
    if s != [] {
      if IsSlugChar(s[0]) {
        var n := SlugRun(s);
        RunsAreWords(s[n..]);
        assert Runs(s) == [s[..n]] + Runs(s[n..]);
        WordsCons(s[..n], Runs(s[n..]));
      } else {
        RunsAreWords(s[OtherRun(s)..]);
      }
    }
  }

  /** The words joined by single dashes. */
  function JoinDash(ws: seq<string>): string {
    if ws == [] then [] else if |ws| == 1 then ws[0] else ws[0] + "-" + JoinDash(ws[1..])
  }

  /** Joined words are empty only when there are none, and otherwise start
      and end with a letter or digit. */
  lemma {:induction false} JoinDashEnds(ws: seq<string>)
    requires forall k :: 0 <= k < |ws| ==> Word(ws[k])
    ensures JoinDash(ws) == [] <==> ws == []
    ensures ws != [] ==> IsSlugChar(JoinDash(ws)[0]) && IsSlugChar(JoinDash(ws)[|JoinDash(ws)| - 1])
  {
    if |ws| > 1 {
      assert Word(ws[0]);
      JoinDashEnds(ws[1..]);
    } else if ws != [] {
      assert Word(ws[0]);
    }
  }

  function Edge(dash: bool): string {
    if dash then "-" else ""
  }

  /** Letters and digits pass through unchanged. */
  lemma {:induction false} CollapseWordPrefix(w: string, u: string)
    requires forall i :: 0 <= i < |w| ==> IsSlugChar(w[i])
    ensures CollapseRuns(w + u) == w + CollapseRuns(u)
    decreases |w|
  {
    if w == [] {
      assert w + u == u;
    } else {
      var x := w + u;
      assert x[0] == w[0] && x[1..] == w[1..] + u;
      CollapseWordPrefix(w[1..], u);
      assert [w[0]] + w[1..] == w;
      Regroup3([w[0]], w[1..], CollapseRuns(u));
    }
  }

  /** For text that starts with a letter or digit (or is empty), the
      replacement gives its runs joined by single dashes, plus one dash when
      the text ends with a separator. */
  lemma {:induction false} CollapseFromWord(s: string)
    requires s == [] || IsSlugChar(s[0])
    ensures CollapseRuns(s) == JoinDash(Runs(s)) + Edge(s != [] && !IsSlugChar(s[|s| - 1]))
    decreases |s|
  {
    if s != [] {
      var m := SlugRun(s);
      var w := s[..m];
      var u := s[m..];
      assert s == w + u;
      CollapseWordPrefix(w, u);
      assert Runs(s) == [w] + Runs(u);
      if u == [] {
        assert w == s && Runs(s) == [w];
        assert CollapseRuns(s) == w + [];
      } else {
        var v := u[OtherRun(u)..];
        assert CollapseRuns(u) == "-" + CollapseRuns(v);
        assert Runs(u) == Runs(v);
        CollapseFromWord(v);
        if v == [] {
          assert Runs(s) == [w];
          assert u[|u| - 1] == s[|s| - 1] && !IsSlugChar(u[|u| - 1]);
          assert CollapseRuns(s) == w + "-";
        } else {
          var j := JoinDash(Runs(v));
          var e := Edge(!IsSlugChar(v[|v| - 1]));
          assert v[|v| - 1] == s[|s| - 1];
          assert Runs(v) != [];
          assert ([w] + Runs(v))[1..] == Runs(v);
          assert JoinDash(Runs(s)) == w + "-" + j;
          Regroup(w, "-", j, e);
        }
      }
    }
  }

  lemma LastOfSuffix(s: string, n: nat)
    requires n < |s|
    ensures s[n..][|s| - n - 1] == s[|s| - 1]
  {
  }

  lemma Regroup3(a: string, b: string, c: string)
    ensures a + (b + c) == a + b + c
  {
  }

  lemma Regroup(a: string, b: string, c: string, d: string)
    ensures a + (b + (c + d)) == a + b + c + d
  {
  }

  lemma CollapseFromLetter(s: string)
    requires s != [] && IsSlugChar(s[0])
    ensures CollapseRuns(s) == Edge(s != [] && !IsSlugChar(s[0])) + JoinDash(Runs(s))
      + Edge(s != [] && Runs(s) != [] && !IsSlugChar(s[|s| - 1]))
  {
    CollapseFromWord(s);
    assert Runs(s) != [];
    assert Edge(false) + JoinDash(Runs(s)) == JoinDash(Runs(s));
  }

  /** Text that starts with a separator becomes one dash followed by the
      replacement of the rest. */
  lemma CollapseFromSeparator(s: string)
    requires s != [] && !IsSlugChar(s[0])
    ensures CollapseRuns(s) == Edge(s != [] && !IsSlugChar(s[0])) + JoinDash(Runs(s))
      + Edge(s != [] && Runs(s) != [] && !IsSlugChar(s[|s| - 1]))
  {
    var n := OtherRun(s);
    var v := s[n..];
    assert CollapseRuns(s) == "-" + CollapseRuns(v);
    assert Runs(s) == Runs(v);
    CollapseFromWord(v);
    if v == [] {
      assert Runs(s) == [];
    } else {
      LastOfSuffix(s, n);
      Regroup3("-", JoinDash(Runs(v)), Edge(!IsSlugChar(v[|v| - 1])));
    }
  }

  /** `s.replace(/[^a-z0-9]+/g, '-')` is the runs of letters and digits of s
      joined by single dashes, with a dash in front when s starts with a
      separator and a dash behind when a run is followed by a separator at
      the end. Text of separators only becomes a single dash. */
  lemma CollapseIsJoinedRuns(s: string)
    ensures CollapseRuns(s) == Edge(s != [] && !IsSlugChar(s[0])) + JoinDash(Runs(s))
      + Edge(s != [] && Runs(s) != [] && !IsSlugChar(s[|s| - 1]))
  {
    if s == [] {
    } else if IsSlugChar(s[0]) {
      CollapseFromLetter(s);
    } else {
      CollapseFromSeparator(s);
    }
  }

  lemma {:induction false} LeadingDashesPast(d: string, y: string)
    requires AllDash(d) && (y != [] ==> y[0] != '-')
    ensures LeadingDashes(d + y) == |d|
    decreases |d|
  {
    if d == [] {
      assert d + y == y;
    } else {
      assert (d + y)[0] == '-' && (d + y)[1..] == d[1..] + y;
      LeadingDashesPast(d[1..], y);
    }
  }

  lemma {:induction false} TrailingDashesPast(y: string, e: string)
    requires AllDash(e) && (y != [] ==> y[|y| - 1] != '-')
    ensures TrailingDashes(y + e) == |e|
    decreases |e|
  {
    if e == [] {
      assert y + e == y;
    } else {
      var x := y + e;
      assert x[|x| - 1] == '-' && x[..|x| - 1] == y + e[..|e| - 1];
      TrailingDashesPast(y, e[..|e| - 1]);
    }
  }

  /** Stripping the dash runs around a word-bounded middle gives the middle. */
  lemma TrimFramed(lead: bool, j: string, trail: bool)
    requires j != [] ==> j[0] != '-' && j[|j| - 1] != '-'
    ensures TrimDashes(Edge(lead) + j + Edge(trail)) == j
  {
    if j == [] {
      TrimOnlyDashes(Edge(lead), Edge(trail));
      assert Edge(lead) + j + Edge(trail) == Edge(lead) + Edge(trail);
    } else {
      TrimAround(Edge(lead), j, Edge(trail));
    }
  }

  lemma TrimOnlyDashes(d: string, e: string)
    requires AllDash(d) && AllDash(e)
    ensures TrimDashes(d + e) == []
  {
    assert AllDash(d + e);
  }

  lemma TrimAround(d: string, j: string, e: string)
    requires AllDash(d) && AllDash(e)
    requires j != [] && j[0] != '-' && j[|j| - 1] != '-'
    ensures TrimDashes(d + j + e) == j
  {
    var x := d + j + e;
    assert x == d + (j + e);
    LeadingDashesPast(d, j + e);
    assert x[|d|..] == j + e;
    TrailingDashesPast(j, e);
    assert (j + e)[..|j + e| - |e|] == j;
  }

  /** The cleaned title is the maximal runs of letters and digits of the
      lower-cased title, joined by single dashes. */
  lemma CleanIsJoinedRuns(title: string)
    ensures Clean(title) == JoinDash(Runs(Lower(title)))
  {
    CollapseThenTrim(Lower(title));
  }

  lemma CollapseThenTrim(s: string)
    ensures TrimDashes(CollapseRuns(s)) == JoinDash(Runs(s))
  {
    CollapseIsJoinedRuns(s);
    RunsAreWords(s);
    JoinDashEnds(Runs(s));
    TrimFramed(s != [] && !IsSlugChar(s[0]), JoinDash(Runs(s)), s != [] && Runs(s) != [] && !IsSlugChar(s[|s| - 1]));
  }

  /** Cleaning loses no letter or digit of the lower-cased title and
      reorders none: only the separators change. */
  lemma CleanKeepsLettersAndDigits(title: string)
    ensures Kept(Clean(title)) == Kept(Lower(title))
  {
    KeptOfCollapse(Lower(title));
    KeptOfTrimDashes(CollapseRuns(Lower(title)));
  }
}
