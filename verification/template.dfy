/** The two Markdown documents the system writes to the content store: the
    initial story file (`formatStoryContent`) and a story file with one more
    contribution appended by a check-in. */
module Template {
  import Decimal

  /** The story fields shown at the top of a story file. An empty
      `initialPlot` stands for a missing one (both are falsy in the source). */
  datatype StoryCard = StoryCard(
    title: string, genre: string, language: string, creator: string,
    theme: string, initialPlot: string)

  const PlotHeading: string := "## Initial Plot\n"
  const ContentHeading: string := "---\n\n## Story Content\n\n"
  const ContributionBanner: string := "\n\n---\n\n### Contribution by "

  /** The title line. */
  function TitleLine(card: StoryCard): string {
    "# " + card.title + "\n\n"
  }

  /** Genre, language, creator and theme lines. */
  function Details(card: StoryCard): string {
    "**Genre:** " + card.genre + "\n**Language:** " + card.language
      + "\n**Created by:** " + card.creator + "\n\n## Theme\n" + card.theme + "\n\n"
  }

  function Preamble(card: StoryCard): string {
    TitleLine(card) + Details(card)
  }

  function PlotSection(plot: string): string {
    if plot == "" then "" else PlotHeading + plot + "\n\n"
  }

  lemma Split2<T>(a: seq<T>, b: seq<T>)
    ensures a <= a + b && (a + b)[|a|..] == b
  {
  }

  lemma EndsWithAppend<T>(a: seq<T>, s: seq<T>, t: seq<T>)
    requires |t| <= |s| && s[|s| - |t|..] == t
    ensures |t| <= |a + s| && (a + s)[|a + s| - |t|..] == t
  {
    assert (a + s)[|a + s| - |t|..] == s[|s| - |t|..];
  }

  lemma PrefixTrans<T>(a: seq<T>, b: seq<T>, c: seq<T>)
    requires a <= b && b <= c
    ensures a <= c
  {
    assert c[..|a|] == c[..|b|][..|a|];
  }

  /** Where the parts of `pre + (mid + tail)` sit, for a tail that ends with
      `content`. */
  lemma Layout<T>(pre: seq<T>, mid: seq<T>, tail: seq<T>, content: seq<T>)
    requires |content| <= |tail| && tail[|tail| - |content|..] == content
    ensures var r := pre + (mid + tail);
      && pre <= r && r[|pre|..] == mid + tail && mid <= r[|pre|..]
      && |tail| <= |r| && r[|r| - |tail|..] == tail
      && |content| <= |r| && r[|r| - |content|..] == content
  {
    Split2(pre, mid + tail);
    Split2(mid, tail);
    EndsWithAppend(mid, tail, tail);
    EndsWithAppend(pre, mid + tail, tail);
    EndsWithAppend(mid, tail, content);
    EndsWithAppend(pre, mid + tail, content);
  }

  /** What follows the preamble opens with the plot heading exactly when
      there is a plot. */
  lemma PlotOpens(plot: string, after: string, tail: string)
    requires PlotSection(plot) <= after
    requires tail != [] && tail[0] == '-' && (plot == "" ==> after == tail)
    ensures plot != "" <==> PlotHeading <= after
    ensures plot != "" ==> PlotHeading + plot + "\n\n" <= after
  {
    if plot != "" {
      Split2(PlotHeading, plot);
      Split2(PlotHeading + plot, "\n\n");
      PrefixTrans(PlotHeading, PlotHeading + plot, PlotSection(plot));
      PrefixTrans(PlotHeading, PlotSection(plot), after);
    } else {
      assert after[0] == '-' != PlotHeading[0];
    }
  }

  /** The initial content of a story file. */
  function FormatStoryContent(card: StoryCard, content: string): (r: string)
    ensures TitleLine(card) <= r && Preamble(card) <= r
    ensures |content| <= |r| && r[|r| - |content|..] == content
    ensures |ContentHeading + content| <= |r| && r[|r| - |ContentHeading + content|..] == ContentHeading + content
    ensures |Preamble(card)| <= |r|
    ensures card.initialPlot != "" <==> PlotHeading <= r[|Preamble(card)|..]
    ensures card.initialPlot != "" ==> PlotHeading + card.initialPlot + "\n\n" <= r[|Preamble(card)|..]
    ensures card.initialPlot == "" ==> r == Preamble(card) + (ContentHeading + content)
  {
    var pre := Preamble(card);
    var plot := PlotSection(card.initialPlot);
    var tail := ContentHeading + content;
    Split2(TitleLine(card), Details(card));
    Split2(ContentHeading, content);
    Layout(pre, plot, tail, content);
    var r := pre + (plot + tail);
    PrefixTrans(TitleLine(card), pre, r);
    PlotOpens(card.initialPlot, r[|pre|..], tail);
    r
  }

  /** The line that opens a contribution, up to its word count. */
  function Byline(author: string, date: string): string {
    ContributionBanner + author + " (" + date + ")\nWords: "
  }

  /** The heading a check-in puts between the stored text and the new text. */
  function ContributionHeader(author: string, date: string, count: nat): string {
    Byline(author, date) + Decimal.Show(count) + "\n\n"
  }

  /** The merged story file a check-in writes back. */
  function AppendContribution(previous: string, author: string, date: string, count: nat, text: string): (r: string)
    ensures previous <= r
    ensures |previous| + |text| < |r| && r[|r| - |text|..] == text
    ensures ContributionBanner + author + " (" + date + ")\n" <= r[|previous|..]
  {
    var header := ContributionHeader(author, date, count);
    var r := previous + header + text;
    Split2(previous, header + text);
    assert r == previous + (header + text);
    Split2(previous + header, text);
    var opening := ContributionBanner + author + " (" + date + ")\n";
    assert Byline(author, date) == opening + "Words: ";
    assert header + text == opening + ("Words: " + Decimal.Show(count) + "\n\n" + text);
    Split2(opening, "Words: " + Decimal.Show(count) + "\n\n" + text);
    r
  }

  /** The word count printed in the merged file is read back from the line
      just above the contributed text. */
  lemma ContributionReportsCount(previous: string, author: string, date: string, count: nat, text: string)
    ensures var r := AppendContribution(previous, author, date, count, text);
      var head := r[..|r| - |text| - 2];
      Decimal.TrailingDigits(head) == |Decimal.Show(count)|
      && Decimal.Value(head[|head| - |Decimal.Show(count)|..]) == count
  {
    var r := AppendContribution(previous, author, date, count, text);
    var before := previous + Byline(author, date);
    var digits := Decimal.Show(count);
    assert before[|before| - 1] == ' ';
    assert r == (before + digits) + ("\n\n" + text);
    Split2(before + digits, "\n\n" + text);
    assert r[..|r| - |text| - 2] == before + digits;
    Decimal.TrailingNumeral(before, count);
  }
}
