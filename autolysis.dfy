/**
 * The deterministic part of autolysis.py: the extraction loop and guard of
 * `extract_and_execute_functions`, the program text it builds from the
 * snippets, and the README text of `generate_readme`, whose chart list comes
 * from the sorted directory listing. The HTTP requests, `exec` and the file
 * I/O are not modelled; the reply, the summary and the listing come in as
 * parameters.
 */
module Autolysis {
  import opened Wrappers
  import opened PyStrings
  import opened StringOrder
  import opened Extraction
  import opened Report
  import opened Workdir

  const BlankLine: string := "\n\n"

  /** Where `extract_and_execute_functions` goes next. */
  datatype Step =
    | NoCode                   // the function returns None
    | Execute(program: string) // the program text is run and summarised

  /** The program text: `"\n\n".join(code_blocks)`. */
  function ProgramText(codeBlocks: seq<string>): string {
    Join(codeBlocks, BlankLine)
  }

  /** `extract_and_execute_functions` up to the `exec`. The extraction loop is
      the same as in autolysis_new.py but written out inline; a missing reply
      makes `None.split` raise, and the enclosing `except Exception` turns
      that into None. */
  method ExtractAndExecuteFunctions(llmResponse: Option<string>) returns (step: Step)
    ensures step.NoCode? <==> llmResponse.None? || ReplyBlocks(llmResponse.value) == []
    ensures step.Execute? ==> llmResponse.Some? && step.program == ProgramText(ReplyBlocks(llmResponse.value))
  {
    if llmResponse.None? {
      return NoCode;
    }
    var codeBlocks := [];
    var segments := Split(llmResponse.value, Fence);
    for i := 0 to |segments|
      invariant codeBlocks == PythonBlocks(segments[..i])
    {
      var block := segments[i];
      assert segments[..i + 1][..i] == segments[..i];
      if StartsWith(Strip(block), Marker) {
        codeBlocks := codeBlocks + [Strip(Strip(block)[|Marker|..])];
      }
    }
    assert segments[..|segments|] == segments;
    if |codeBlocks| == 0 {
      return NoCode;
    }
    var codeToExecute := Join(codeBlocks, BlankLine);
    return Execute(codeToExecute);
  }

  /** The program is as long as its snippets plus one blank-line separator
      between each neighbouring pair. */
  lemma ProgramTextLength(codeBlocks: seq<string>)
    requires |codeBlocks| >= 1
    ensures |ProgramText(codeBlocks)| == SumLengths(codeBlocks) + 2 * (|codeBlocks| - 1)
  {
    JoinLength(codeBlocks, BlankLine);
  }

  /** Every snippet appears in the program, in order: snippet k starts at
      its offset, and snippet k + 1 starts after it and a blank line. */
  lemma ProgramTextHoldsBlocks(codeBlocks: seq<string>, k: nat)
    requires k < |codeBlocks|
    ensures OccursAt(ProgramText(codeBlocks), codeBlocks[k], JoinOffset(codeBlocks, BlankLine, k))
    ensures k + 1 < |codeBlocks| ==>
              JoinOffset(codeBlocks, BlankLine, k + 1) == JoinOffset(codeBlocks, BlankLine, k) + |codeBlocks[k]| + 2
  {
    JoinPartAt(codeBlocks, BlankLine, k);
    if k + 1 < |codeBlocks| {
      JoinOffsetsIncrease(codeBlocks, BlankLine, k);
    }
  }

  /** Splitting the program at blank lines gives the snippets back when none
      of them holds a blank line of its own. Snippets are stripped, so none
      ends in a newline that could merge with the separator. */
  lemma ProgramTextSplits(codeBlocks: seq<string>)
    requires |codeBlocks| >= 1
    requires AllStripped(codeBlocks)
    requires forall k :: 0 <= k < |codeBlocks| ==> !Contains(codeBlocks[k], BlankLine)
    ensures Split(ProgramText(codeBlocks), BlankLine) == codeBlocks
  {
    forall k | 0 <= k < |codeBlocks| - 1
      ensures |codeBlocks[k]| == 0 || codeBlocks[k][|codeBlocks[k]| - 1] !in BlankLine
    {
      if |codeBlocks[k]| > 0 {
        assert IsStripped(codeBlocks[k]);
        assert !IsSpace(codeBlocks[k][|codeBlocks[k]| - 1]);
      }
    }
    JoinSplit(codeBlocks, BlankLine);
  }

  /** For the snippets of a reply: the program splits back into them when
      none holds a blank line. */
  lemma ReplyProgramSplits(reply: string)
    requires ReplyBlocks(reply) != []
    requires forall k :: 0 <= k < |ReplyBlocks(reply)| ==> !Contains(ReplyBlocks(reply)[k], BlankLine)
    ensures Split(ProgramText(ReplyBlocks(reply)), BlankLine) == ReplyBlocks(reply)
  {
    PythonBlocksStripped(Split(reply, Fence));
    ProgramTextSplits(ReplyBlocks(reply));
  }

  /** A snippet with a blank line of its own does not come back whole: the
      program text does not record where one snippet ends. */
  lemma BlankLineInsideSnippet()
    ensures Split(ProgramText(["x = 1\n\ny = 2"]), BlankLine) == ["x = 1", "y = 2"]
  {
    var parts := ["x = 1", "y = 2"];
    assert Join(parts, BlankLine) == "x = 1\n\ny = 2";
    forall k | 0 <= k < |parts| ensures !Contains(parts[k], BlankLine) {
      forall i | 0 <= i && i + |BlankLine| <= |parts[k]| ensures !OccursAt(parts[k], BlankLine, i) {
        assert parts[k][i..i + |BlankLine|][0] == parts[k][i];
      }
    }
    JoinSplit(parts, BlankLine);
  }

  // ------------------------------------------------------------ the README

  const ChartsIntro: string := "The following charts were generated and saved in the current directory:\n\n"
  const ChartSuffix: string := ".png"

  /** `chart.endswith(".png")`: case-sensitive, and only at the very end. */
  predicate IsChart(name: string) {
    EndsWith(name, ChartSuffix)
  }

  /** The Markdown image line for one chart. */
  function Bullet(chart: string): string {
    "- ![" + chart + "](" + chart + ")\n"
  }

  /** The names that are charts, in listing order. */
  function Charts(names: seq<string>): seq<string>
    decreases |names|
  {
    if |names| == 0 then []
    else
      var last := names[|names| - 1];
      Charts(names[..|names| - 1]) + (if IsChart(last) then [last] else [])
  }

  /** One bullet per chart, in order. */
  function Bullets(charts: seq<string>): string
    decreases |charts|
  {
    if |charts| == 0 then ""
    else Bullets(charts[..|charts| - 1]) + Bullet(charts[|charts| - 1])
  }

  /** The README text of `generate_readme(csv_file, llm_response)` for a
      directory whose `os.listdir` gave `listing`. */
  function ReadmeContent(csvFile: string, llmResponse: Option<string>, listing: seq<string>): string {
    Heading(csvFile, llmResponse) + ChartsSection(listing)
  }

  /** What follows the Visualizations heading: the charts sentence and one
      bullet per chart of the sorted listing. */
  function ChartsSection(listing: seq<string>): string {
    ChartsIntro + Bullets(Charts(SortStrings(listing)))
  }

  /** The README opens with the title line and holds the findings between
      their heading and the Visualizations heading; after that heading come
      the charts sentence and the bullets, and nothing else. */
  lemma ReadmeContentShape(csvFile: string, llmResponse: Option<string>, listing: seq<string>)
    ensures StartsWith(ReadmeContent(csvFile, llmResponse, listing), Title + csvFile)
    ensures OccursAt(ReadmeContent(csvFile, llmResponse, listing), FindingsHeading,
                     |FindingsPrefix(csvFile)| - |FindingsHeading|)
    ensures OccursAt(ReadmeContent(csvFile, llmResponse, listing), Format(llmResponse), |FindingsPrefix(csvFile)|)
    ensures OccursAt(ReadmeContent(csvFile, llmResponse, listing), VisualsHeading,
                     |FindingsPrefix(csvFile)| + |Format(llmResponse)|)
    ensures EndsWith(ReadmeContent(csvFile, llmResponse, listing), ChartsSection(listing))
  {
    HeadingStartsWithTitle(csvFile, llmResponse, ChartsSection(listing));
    HeadingHoldsFindings(csvFile, llmResponse, ChartsSection(listing));
  }

  /** The summary can be read back from the README text. */
  lemma ReadmeFindingsRecoverable(csvFile: string, llmResponse: Option<string>, listing: seq<string>)
    ensures Between(ReadmeContent(csvFile, llmResponse, listing), FindingsPrefix(csvFile),
                    VisualsHeading + ChartsSection(listing))
            == Some(Format(llmResponse))
  {
    HeadingFindings(csvFile, llmResponse, ChartsSection(listing));
  }

  /** For one listing, different summaries give different README texts,
      except that a missing summary and the summary text `None` look the
      same; two present summaries that give the same README are equal. */
  lemma ReadmeInjective(csvFile: string, s1: Option<string>, s2: Option<string>, listing: seq<string>)
    requires ReadmeContent(csvFile, s1, listing) == ReadmeContent(csvFile, s2, listing)
    ensures Format(s1) == Format(s2)
    ensures s1.Some? && s2.Some? ==> s1 == s2
  {
    ReadmeFindingsRecoverable(csvFile, s1, listing);
    ReadmeFindingsRecoverable(csvFile, s2, listing);
  }

  /** The loop of `generate_readme`: for every name of the sorted listing
      that is a chart, append its bullet to the text built so far. */
  method AppendChartBullets(readmeContent: string, names: seq<string>) returns (content: string)
    ensures content == readmeContent + Bullets(Charts(names))
  {
    content := readmeContent;
    for i := 0 to |names|
      invariant content == readmeContent + Bullets(Charts(names[..i]))
    {
      var chart := names[i];
      BulletsStep(names, i);
      if EndsWith(chart, ChartSuffix) {
        content := content + Bullet(chart);
      }
    }
    assert names[..|names|] == names;
  }

  /** `generate_readme`: fill the template, append the bullets of the sorted
      listing, and write the text to README.md in mode "w". */
  method GenerateReadme(cwd: Directory, csvFile: string, llmResponse: Option<string>, listing: seq<string>)
    returns (after: Directory)
    ensures after == WriteFile(cwd, ReadmeName, ReadmeContent(csvFile, llmResponse, listing))
  {
    var readmeContent := Heading(csvFile, llmResponse) + ChartsIntro;
    readmeContent := AppendChartBullets(readmeContent, SortStrings(listing));
    ReadmeContentAssembled(csvFile, llmResponse, listing);
    after := WriteFile(cwd, ReadmeName, readmeContent);
  }

  /** The filled template followed by the bullets is the README text. */
  lemma ReadmeContentAssembled(csvFile: string, llmResponse: Option<string>, listing: seq<string>)
    ensures Heading(csvFile, llmResponse) + ChartsIntro + Bullets(Charts(SortStrings(listing)))
            == ReadmeContent(csvFile, llmResponse, listing)
  {
    var head := Heading(csvFile, llmResponse);
    var bullets := Bullets(Charts(SortStrings(listing)));
    assert ChartsSection(listing) == ChartsIntro + bullets;
    assert head + ChartsIntro + bullets == head + (ChartsIntro + bullets);
  }

  /** One more listing entry adds its bullet when it is a chart, and nothing otherwise. */
  lemma BulletsStep(names: seq<string>, i: nat)
    requires i < |names|
    ensures Bullets(Charts(names[..i + 1]))
            == Bullets(Charts(names[..i])) + (if IsChart(names[i]) then Bullet(names[i]) else "")
  {
    assert names[..i + 1][..i] == names[..i];
    if IsChart(names[i]) {
      var charts := Charts(names[..i]) + [names[i]];
      assert charts[..|charts| - 1] == Charts(names[..i]);
    } else {
      assert Charts(names[..i + 1]) == Charts(names[..i]);
    }
  }

  /** Charts keeps exactly the chart names, each as often as it is listed. */
  lemma {:induction false} ChartsCount(names: seq<string>, name: string)
    ensures multiset(Charts(names))[name] == if IsChart(name) then multiset(names)[name] else 0
    decreases |names|
  {
    if |names| > 0 {
      var n := |names| - 1;
      ChartsCount(names[..n], name);
      assert names == names[..n] + [names[n]];
    }
  }

  /** Every chart comes from the listing. */
  lemma ChartFromListing(names: seq<string>, c: string)
    requires c in Charts(names)
    ensures c in names
  {
    assert c in multiset(Charts(names));
    ChartsCount(names, c);
  }

  /** Charts of a sorted listing are sorted. */
  lemma {:induction false} ChartsSorted(names: seq<string>)
    requires Sorted(names)
    ensures Sorted(Charts(names))
    decreases |names|
  {
    if |names| > 0 {
      var n := |names| - 1;
      var init := names[..n];
      assert Sorted(init);
      ChartsSorted(init);
      var earlier := Charts(init);
      if IsChart(names[n]) {
        forall j | 0 <= j < |earlier| ensures Below(earlier[j], names[n]) {
          ChartFromListing(init, earlier[j]);
          var i :| 0 <= i < n && init[i] == earlier[j];
          assert names[i] == earlier[j];
        }
        SortedSnoc(earlier, names[n]);
      } else {
        assert Charts(names) == earlier;
      }
    }
  }

  /** Sorting the listing and then keeping the charts gives the sorted
      charts: the bullets are the chart names in ascending order. */
  lemma ChartsOfSorted(listing: seq<string>)
    ensures Charts(SortStrings(listing)) == SortStrings(Charts(listing))
  {
    var a := Charts(SortStrings(listing));
    ChartsSorted(SortStrings(listing));
    forall name ensures multiset(a)[name] == multiset(Charts(listing))[name] {
      ChartsCount(SortStrings(listing), name);
      ChartsCount(listing, name);
    }
    assert multiset(a) == multiset(Charts(listing));
    SortedUnique(a, SortStrings(Charts(listing)));
  }

  /** The charts section has one bullet per chart of the listing, in
      ascending order of name. */
  lemma ChartsSectionSorted(listing: seq<string>)
    ensures ChartsSection(listing) == ChartsIntro + Bullets(SortStrings(Charts(listing)))
  {
    ChartsOfSorted(listing);
  }

  /** The README depends on the listing only through the multiset of chart
      names: the order of `os.listdir` and every other file do not matter. */
  lemma ReadmeDependsOnChartsOnly(csvFile: string, llmResponse: Option<string>, l1: seq<string>, l2: seq<string>)
    requires multiset(Charts(l1)) == multiset(Charts(l2))
    ensures ReadmeContent(csvFile, llmResponse, l1) == ReadmeContent(csvFile, llmResponse, l2)
  {
    ChartsOfSorted(l1);
    ChartsOfSorted(l2);
    SortStringsPermutation(Charts(l1), Charts(l2));
  }

  /** Which names count as charts. */
  lemma ChartSuffixExamples()
    ensures IsChart("chart.png")
    ensures !IsChart("a.PNG")
    ensures !IsChart("x.png.bak")
    ensures !IsChart(ReadmeName)
  {
  }

  /** Writing the README does not change which charts a listing shows:
      README.md is not a chart. */
  lemma WriteKeepsCharts(cwd: Directory, content: string, first: seq<string>, second: seq<string>)
    requires IsListing(first, cwd)
    requires IsListing(second, WriteFile(cwd, ReadmeName, content))
    ensures multiset(Charts(first)) == multiset(Charts(second))
  {
    forall name ensures multiset(Charts(first))[name] == multiset(Charts(second))[name] {
      ChartsCount(first, name);
      ChartsCount(second, name);
      if IsChart(name) {
        ListingMultiset(first, cwd, name);
        ListingMultiset(second, WriteFile(cwd, ReadmeName, content), name);
        assert name != ReadmeName by { ChartSuffixExamples(); }
      }
    }
  }

  /** Running `generate_readme` a second time with the same inputs and the
      same other files writes the same README, and the directory is the
      same as after the first run. */
  lemma RerunIdempotent(cwd: Directory, csvFile: string, llmResponse: Option<string>,
                        first: seq<string>, second: seq<string>)
    requires IsListing(first, cwd)
    requires IsListing(second, WriteFile(cwd, ReadmeName, ReadmeContent(csvFile, llmResponse, first)))
    ensures ReadmeContent(csvFile, llmResponse, second) == ReadmeContent(csvFile, llmResponse, first)
    ensures WriteFile(WriteFile(cwd, ReadmeName, ReadmeContent(csvFile, llmResponse, first)),
                      ReadmeName, ReadmeContent(csvFile, llmResponse, second))
            == WriteFile(cwd, ReadmeName, ReadmeContent(csvFile, llmResponse, first))
  {
    var content := ReadmeContent(csvFile, llmResponse, first);
    WriteKeepsCharts(cwd, content, first, second);
    ReadmeDependsOnChartsOnly(csvFile, llmResponse, first, second);
    WriteFileTwice(cwd, ReadmeName, content);
  }

}
