/**
 * The deterministic part of autolysis_new.py: `extract_python_code_blocks`,
 * the empty-result guard of `process_and_run_code`, and the README text of
 * `generate_readme`. The HTTP request, `exec` of the snippets and the
 * summary request are not modelled; the reply text and the summary come in
 * as parameters.
 */
module AutolysisNew {
  import opened Wrappers
  import opened PyStrings
  import opened Extraction
  import opened Report
  import opened Workdir

  /** `extract_python_code_blocks(text)`: one pass over the fence-split
      segments, appending the body of every python segment. */
  method ExtractPythonCodeBlocks(text: string) returns (codeBlocks: seq<string>)
    ensures codeBlocks == ReplyBlocks(text)
  {
    codeBlocks := [];
    var segments := Split(text, Fence);
    for i := 0 to |segments|
      invariant codeBlocks == PythonBlocks(segments[..i])
    {
      var block := segments[i];
      assert segments[..i + 1][..i] == segments[..i];
      if StartsWith(Strip(block), Marker) {
        codeBlocks := codeBlocks + [Strip(Strip(block)[|Marker|..])];
      }
    }
    assert segments[..|segments|] == segments;
  }

  /** Where `process_and_run_code` goes next. */
  datatype Step =
    | Crash           // an exception escapes and ends the script
    | NoCode          // "No Python code found", the function returns None
    | Execute(codeBlocks: seq<string>)  // the snippets are run and summarised

  /** `process_and_run_code` as written: a missing reply (the request failed
      and `fetch_llm_response` returned None) reaches `None.split`, whose
      AttributeError nothing catches. */
  method ProcessAndRunCode(llmResponse: Option<string>) returns (step: Step)
    ensures step.Crash? <==> llmResponse.None?
    ensures step.NoCode? <==> llmResponse.Some? && ReplyBlocks(llmResponse.value) == []
    ensures step.Execute? ==> llmResponse.Some? && step.codeBlocks == ReplyBlocks(llmResponse.value)
    ensures step.Execute? ==> |step.codeBlocks| > 0
  {
    if llmResponse.None? {
      return Crash;
    }
    var codeBlocks := ExtractPythonCodeBlocks(llmResponse.value);
    if |codeBlocks| == 0 {
      return NoCode;
    }
    return Execute(codeBlocks);
  }

  /** `process_and_run_code` with a missing reply treated like a reply that
      holds no code: it never crashes, and it runs snippets exactly when the
      reply holds some. */
  method ProcessAndRunCodeChecked(llmResponse: Option<string>) returns (step: Step)
    ensures !step.Crash?
    ensures step.NoCode? <==> llmResponse.None? || ReplyBlocks(llmResponse.value) == []
    ensures step.Execute? ==> llmResponse.Some? && step.codeBlocks == ReplyBlocks(llmResponse.value)
    ensures step.Execute? ==> |step.codeBlocks| > 0
  {
    if llmResponse.None? {
      return NoCode;
    }
    var codeBlocks := ExtractPythonCodeBlocks(llmResponse.value);
    if |codeBlocks| == 0 {
      return NoCode;
    }
    return Execute(codeBlocks);
  }

  const ChartsNote: string := "Generated charts are saved in the current directory.\n"

  /** The README text of `generate_readme(file_path, insights)`. */
  function ReadmeContent(filePath: string, insights: Option<string>): string {
    Heading(filePath, insights) + ChartsNote
  }

  /** The README opens with the title line, holds the findings between
      their heading and the Visualizations heading, and ends with the note
      on the charts. */
  lemma ReadmeContentShape(filePath: string, insights: Option<string>)
    ensures StartsWith(ReadmeContent(filePath, insights), Title + filePath)
    ensures OccursAt(ReadmeContent(filePath, insights), FindingsHeading, |FindingsPrefix(filePath)| - |FindingsHeading|)
    ensures OccursAt(ReadmeContent(filePath, insights), Format(insights), |FindingsPrefix(filePath)|)
    ensures OccursAt(ReadmeContent(filePath, insights), VisualsHeading, |FindingsPrefix(filePath)| + |Format(insights)|)
    ensures EndsWith(ReadmeContent(filePath, insights), ChartsNote)
  {
    HeadingStartsWithTitle(filePath, insights, ChartsNote);
    HeadingHoldsFindings(filePath, insights, ChartsNote);
  }

  /** The insights can be read back from the README text. */
  lemma ReadmeFindingsRecoverable(filePath: string, insights: Option<string>)
    ensures Between(ReadmeContent(filePath, insights), FindingsPrefix(filePath), VisualsHeading + ChartsNote)
            == Some(Format(insights))
  {
    HeadingFindings(filePath, insights, ChartsNote);
  }

  /** Different insights give different README texts, except that a missing
      summary and the summary text `None` look the same; two present
      summaries that give the same README are equal. */
  lemma ReadmeInjective(filePath: string, s1: Option<string>, s2: Option<string>)
    requires ReadmeContent(filePath, s1) == ReadmeContent(filePath, s2)
    ensures Format(s1) == Format(s2)
    ensures s1.Some? && s2.Some? ==> s1 == s2
  {
    ReadmeFindingsRecoverable(filePath, s1);
    ReadmeFindingsRecoverable(filePath, s2);
  }

  /** `generate_readme`: write the text to README.md in mode "w". */
  function GenerateReadme(cwd: Directory, filePath: string, insights: Option<string>): Directory {
    WriteFile(cwd, ReadmeName, ReadmeContent(filePath, insights))
  }

  /** Running `generate_readme` again with the same inputs leaves the same
      files: the README is a function of the two inputs alone, and the
      second write replaces the first. */
  lemma GenerateReadmeTwice(cwd: Directory, filePath: string, insights: Option<string>)
    ensures GenerateReadme(GenerateReadme(cwd, filePath, insights), filePath, insights)
            == GenerateReadme(cwd, filePath, insights)
  {
    WriteFileTwice(cwd, ReadmeName, ReadmeContent(filePath, insights));
  }

}
