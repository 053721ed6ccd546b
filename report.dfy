/**
 * The Markdown text both `generate_readme` functions start with: a title
 * naming the CSV file, a fixed overview paragraph, the findings (the summary
 * returned by the LLM, or the text `None` when there is none) and the
 * Visualizations heading. What follows that heading differs per script.
 */
module Report {
  import opened Wrappers
  import opened PyStrings

  const Title: string := "# Analysis of "
  const Overview: string := "\n\n## Overview\n\nThis analysis was conducted using an automated pipeline. Below are the key insights and visualizations.\n\n"
  const FindingsHeading: string := "## Key Findings\n\n"
  const VisualsHeading: string := "\n\n## Visualizations\n\n"

  /** Everything before the findings text. */
  function FindingsPrefix(name: string): string {
    Title + name + Overview + FindingsHeading
  }

  /** The f-string up to and including the Visualizations heading. */
  function Heading(name: string, summary: Option<string>): string {
    FindingsPrefix(name) + Format(summary) + VisualsHeading
  }

  /** Whatever follows the heading, the README starts with the title line. */
  lemma HeadingStartsWithTitle(name: string, summary: Option<string>, rest: string)
    ensures StartsWith(Heading(name, summary) + rest, Title + name)
  {
    var tail := Overview + FindingsHeading;
    assert FindingsPrefix(name) == (Title + name) + tail;
    assert Title + name <= FindingsPrefix(name);
    assert FindingsPrefix(name) <= Heading(name, summary) + rest;
  }

  /** Whatever follows the heading, the findings sit right after their own
      heading and right before the Visualizations heading. */
  lemma HeadingHoldsFindings(name: string, summary: Option<string>, rest: string)
    ensures OccursAt(Heading(name, summary) + rest, Format(summary), |FindingsPrefix(name)|)
    ensures OccursAt(Heading(name, summary) + rest, FindingsHeading, |FindingsPrefix(name)| - |FindingsHeading|)
    ensures OccursAt(Heading(name, summary) + rest, VisualsHeading, |FindingsPrefix(name)| + |Format(summary)|)
  {
    var s := Heading(name, summary) + rest;
    var p := FindingsPrefix(name);
    var f := Format(summary);
    assert s == p + f + (VisualsHeading + rest);
    OccursInConcat(p, f, VisualsHeading + rest);
    assert s == (p + f) + VisualsHeading + rest;
    OccursInConcat(p + f, VisualsHeading, rest);
    var q := Title + name + Overview;
    assert p == q + FindingsHeading + [];
    OccursInConcat(q, FindingsHeading, []);
    assert s[..|p|] == p;
  }

  /** The findings can be read back from the text: the template is a
      one-hole template whose hole is the rendered summary. */
  lemma HeadingFindings(name: string, summary: Option<string>, rest: string)
    ensures Between(Heading(name, summary) + rest, FindingsPrefix(name), VisualsHeading + rest)
            == Some(Format(summary))
  {
    assert Heading(name, summary) + rest == FindingsPrefix(name) + Format(summary) + (VisualsHeading + rest);
    BetweenFill(FindingsPrefix(name), Format(summary), VisualsHeading + rest);
  }

  /** A missing summary is indistinguishable from the summary text `None`. */
  lemma MissingSummaryReadsNone(name: string)
    ensures Heading(name, None) == Heading(name, Some("None"))
  {
  }

}
