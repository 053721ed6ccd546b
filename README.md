# autolysis: the deterministic core of the two analysis scripts

`autolysis.py` and `autolysis_new.py` send a CSV summary to an LLM, extract
the Python snippets from its reply, run them, ask for a narrative summary,
and write a `README.md` report. Most of that is network, `exec` and pandas.
This project models the string logic between those calls and proves what it
does:

- **Snippet extraction.** Both scripts cut the reply at every triple-backtick
  fence. They keep each segment whose stripped text starts with the
  case-sensitive marker `python`, remove that marker once, and strip the rest.
  The shared specification is `Extraction.ReplyBlocks`. Each script has its
  own loop, because the source writes it twice:
  - `AutolysisNew.ExtractPythonCodeBlocks`;
  - the inline loop in `Autolysis.ExtractAndExecuteFunctions`.
- **The empty-result guards.** `AutolysisNew.ProcessAndRunCode` and
  `Autolysis.ExtractAndExecuteFunctions` decide between "no code, return
  None" and "execute". autolysis.py then joins the snippets with a blank line
  into one program (`Autolysis.ProgramText`).
- **The README text.**
  - autolysis_new.py fills a fixed template (`AutolysisNew.ReadmeContent`).
  - autolysis.py fills the same head, then appends one Markdown image bullet
    per `.png` name of the sorted directory listing (`Autolysis.ReadmeContent`,
    built by the loop in `Autolysis.AppendChartBullets`).
  - The shared head is `Report.Heading`.

Python's string operations are modelled in `PyStrings`:
- `str.split` cuts at each leftmost, non-overlapping occurrence;
- `str.strip` uses the full `str.isspace` set;
- `startswith`, `endswith`, `find`, `count` and `join` are modelled too;
- an f-string renders `None` as the text `None`.

`StringOrder` models `sorted()` on `str`: ascending code-point order, with a
proper prefix first. `Workdir` models the working directory as a map from
names to contents. `os.listdir` is an input sequence naming every file once.

Three behaviours of the code are easy to miss:
- A reply with no fence at all still yields one snippet when its stripped
  text starts with `python` (`Extraction.UnfencedExample`). A reply that is
  just `python` yields one empty snippet, and the guards still go on to
  execute it (`Extraction.MarkerOnlyExample`).
- Every fence-delimited segment is tested, including the prose between
  blocks (`Extraction.PythonIndicesExact`). So prose that begins with the
  word `python` after a closing fence is taken as a snippet.
- A missing reply crashes autolysis_new.py (see Findings). autolysis.py
  catches the same error and returns None.

## Model

| member | source | states |
|---|---|---|
| Extraction.ReplyBlocks | autolysis_new.py:70-74 | the snippets of a reply: the python segments of its fence split, each with the marker removed once and stripped, in order (characterised by the lemmas below) |
| Extraction.IsPythonSegment | autolysis_new.py:72 | `block.strip().startswith("python")`: the segment's stripped text begins with the marker, case-sensitively (the same test is at autolysis.py:67) |
| Extraction.BlockBody | autolysis_new.py:73 | the snippet taken from a python segment has no white space at either end |
| Extraction.PythonBlocks | autolysis_new.py:70-74 | there are never more snippets than segments |
| Extraction.PythonBlocksInOrder | autolysis_new.py:71-74 | snippet k is the marker-stripped body of the k-th python segment, and there is one snippet per python segment |
| Extraction.PythonIndicesIncrease | autolysis_new.py:71-74 | the segments that yield snippets are taken left to right, so snippets keep reply order |
| Extraction.PythonIndicesExact | autolysis_new.py:72 | a segment yields a snippet if and only if its stripped text starts with `python` |
| Extraction.PythonBlocksStripped | autolysis_new.py:73 | no returned snippet has leading or trailing white space |
| Extraction.PythonBlocksEmpty | autolysis_new.py:71-74 | the result is empty if and only if no segment is a python segment |
| Extraction.SegmentsCoverReply | autolysis_new.py:71 | joining the fence-split segments with the fence gives the reply back exactly, and no segment contains a fence |
| Extraction.ReplyBlocksBound | autolysis_new.py:71-74 | at most one more snippet than there are non-overlapping fences |
| Extraction.PythonSegmentHasMarker | autolysis_new.py:72 | a python segment contains the text `python` |
| Extraction.NoMarkerNoBlocks | autolysis_new.py:71-74 | a reply in which `python` never occurs yields no snippets |
| Extraction.UnfencedReply | autolysis_new.py:71-73 | a reply without a fence yields exactly one snippet (its stripped body) when its stripped text starts with `python`, and none otherwise |
| Extraction.UnfencedExample | autolysis_new.py:71-73 | `python print(1)`, which has no fence, yields the snippet `print(1)` |
| Extraction.MarkedSegment | autolysis_new.py:72-73 | white space, `python`, white space, a stripped snippet and white space form a python segment whose body is exactly that snippet, even if the snippet starts with `python` |
| Extraction.MarkerRemovedOnce | autolysis_new.py:73 | `python python x` yields `python x`: the marker is removed once |
| Extraction.MarkerCaseSensitive | autolysis_new.py:72 | a segment starting `Python` is dropped |
| Extraction.FencedReply | autolysis_new.py:71-74 | a reply made by joining fence-free segments with the fence yields the snippets of exactly those segments |
| Extraction.BacktickFreeSegments | autolysis_new.py:71 | segments without backticks, joined with the fence, split back into themselves |
| Extraction.MarkerOnlyExample | autolysis_new.py:71-73 | a reply that is just `python` yields one empty snippet |
| Extraction.FencedExample | autolysis_new.py:71-74 | prose, one fenced `python` block and prose yield exactly that block's code |
| PyStrings.Split | autolysis_new.py:71 | `s.split(sep)`: cut at each leftmost non-overlapping occurrence of `sep`; there is always at least one piece |
| PyStrings.Strip | autolysis_new.py:73 | `s.strip()`: drop the longest white-space prefix, then the longest white-space suffix, with white space as `str.isspace` defines it |
| PyStrings.Join | autolysis.py:74 | `sep.join(parts)`: the parts with one separator between neighbours, the empty string for no parts |
| PyStrings.Format | autolysis.py:205 | an f-string renders a `str` as itself and `None` as the text `None` |
| PyStrings.IsSpace | autolysis_new.py:73 | the characters `str.strip()` removes: the ASCII white space, the separators U+001C..U+001F and the Unicode spaces `str.isspace` accepts |
| PyStrings.StartsWith | autolysis_new.py:72 | `s.startswith(prefix)`: `prefix` is a prefix of `s` |
| PyStrings.EndsWith | autolysis.py:214 | `s.endswith(suffix)`: the last characters of `s` are `suffix` |
| PyStrings.Count | autolysis_new.py:71 | `s.count(sep)`: the occurrences found scanning left to right, each search resuming after the previous match |
| PyStrings.SplitJoin | autolysis_new.py:71 | `sep.join(s.split(sep)) == s` |
| PyStrings.SplitCount | autolysis_new.py:71 | `len(s.split(sep)) == s.count(sep) + 1` |
| PyStrings.SplitPiecesFree | autolysis_new.py:71 | no piece of a split contains the separator |
| PyStrings.SplitLeftmost | autolysis_new.py:71 | every cut is at the leftmost occurrence: each piece but the last, followed by the separator, first contains the separator at its end |
| PyStrings.JoinSplit | autolysis.py:74 | joining parts that hold no separator (and do not end in one of its characters), then splitting, gives the parts back |
| PyStrings.StripBounds | autolysis_new.py:73 | `s.strip()` is an infix of `s`, only white space is cut on either side, and the result has no white space at either end |
| PyStrings.StripUnique | autolysis_new.py:73 | an infix with only white space around it and none at its own ends is the strip of the text |
| PyStrings.StripIdempotent | autolysis_new.py:73 | stripping twice is stripping once |
| PyStrings.FindFrom | autolysis_new.py:71 | `find` returns the leftmost occurrence at or after the start, or -1 when there is none |
| StringOrder.SortStrings | autolysis.py:213 | `sorted()` returns an ascending permutation of the names |
| StringOrder.SortedUnique | autolysis.py:213 | two ascending lists with the same elements are equal |
| StringOrder.SortStringsPermutation | autolysis.py:213 | `sorted()` depends only on the multiset of names |
| StringOrder.Below | autolysis.py:213 | the `str` `<=` that `sorted()` uses: code-point order on the first difference, a proper prefix first |
| StringOrder.BelowTotal | autolysis.py:213 | any two names are comparable under `<=` |
| StringOrder.BelowTransitive | autolysis.py:213 | string `<=` is transitive |
| StringOrder.BelowAntisymmetric | autolysis.py:213 | names that are `<=` each other are equal |
| Workdir.WriteFile | autolysis.py:217-218 | writing in mode "w" sets README.md to the text and leaves every other file as it was |
| Workdir.WriteFileTwice | autolysis_new.py:235-236 | writing the same text twice leaves the same directory as writing it once |
| Workdir.ListingMultiset | autolysis.py:213 | a listing names each file of the directory exactly once and nothing else |
| Workdir.IsListing | autolysis.py:213 | a possible result of `os.listdir`: the directory's names, each once, in some order |
| Report.Heading | autolysis.py:197-208 | the template both scripts share (also autolysis_new.py:220-231), from `# Analysis of ` and the name through the findings to the Visualizations heading and the blank line after it |
| Report.HeadingStartsWithTitle | autolysis.py:197 | the README starts with `# Analysis of ` followed by the CSV name |
| Report.HeadingHoldsFindings | autolysis.py:203-207 | the findings sit right after `## Key Findings` and a blank line, right before a blank line and `## Visualizations` |
| Report.HeadingFindings | autolysis.py:203-207 | the rendered summary can be read back from between the findings heading and the Visualizations heading |
| Report.MissingSummaryReadsNone | autolysis.py:205 | a missing summary is written as the text `None`, indistinguishable from a summary reading `None` |
| AutolysisNew.ExtractPythonCodeBlocks | autolysis_new.py:70-74 | the loop returns exactly the snippets the specification assigns to the reply |
| AutolysisNew.ProcessAndRunCode | autolysis_new.py:113-118 | a missing reply crashes; a reply without snippets returns None; otherwise execution gets exactly the reply's non-empty snippet list |
| AutolysisNew.ProcessAndRunCodeChecked | autolysis_new.py:113-118 | never crashes; returns None exactly when the reply is missing or has no snippets; otherwise it executes exactly the reply's snippets |
| AutolysisNew.ReadmeContent | autolysis_new.py:220-233 | the README text: the shared template with `file_path` and `insights`, then the sentence that charts are saved in the current directory |
| AutolysisNew.ReadmeContentShape | autolysis_new.py:220-233 | the README starts with `# Analysis of ` and the file path, has the findings between `## Key Findings` and `## Visualizations`, and ends with the charts note |
| AutolysisNew.ReadmeFindingsRecoverable | autolysis_new.py:220-233 | the insights can be read back from the README text |
| AutolysisNew.ReadmeInjective | autolysis_new.py:228 | two READMEs for the same file path are equal only if the insights render the same; two present insights giving the same README are equal |
| AutolysisNew.GenerateReadme | autolysis_new.py:212-236 | README.md in the working directory is set to the README text in mode "w" |
| AutolysisNew.GenerateReadmeTwice | autolysis_new.py:220-236 | a second run with the same inputs leaves the same files as the first |
| Autolysis.ExtractAndExecuteFunctions | autolysis.py:64-74 | no program when the reply is missing or yields no snippets; otherwise the program is the reply's snippets joined with a blank line |
| Autolysis.ProgramText | autolysis.py:74 | the program text: the snippets joined with a blank line |
| Autolysis.ProgramTextLength | autolysis.py:74 | the program is as long as the snippets plus 2·(n−1) |
| Autolysis.ProgramTextHoldsBlocks | autolysis.py:74 | every snippet appears in the program at its offset, and the next one starts two characters after it ends |
| Autolysis.ProgramTextSplits | autolysis.py:74 | splitting the program at blank lines recovers the stripped snippets when none contains a blank line |
| Autolysis.ReplyProgramSplits | autolysis.py:65-74 | for the snippets of any reply, splitting the program at blank lines recovers them when none contains a blank line |
| Autolysis.BlankLineInsideSnippet | autolysis.py:74 | a snippet containing a blank line comes back as two pieces: the program does not record snippet boundaries |
| Autolysis.Bullet | autolysis.py:215 | the Markdown image line `- ![name](name)` and a newline |
| Autolysis.Charts | autolysis.py:214 | the names of a listing that end in `.png`, in listing order |
| Autolysis.IsChart | autolysis.py:214 | `chart.endswith(".png")`: case-sensitive, and only at the very end |
| Autolysis.Bullets | autolysis.py:213-215 | the text the `readme_content +=` loop appends: one bullet per chart, in order |
| Autolysis.ChartsSection | autolysis.py:209-215 | the text after the Visualizations heading: the charts sentence, then one bullet per `.png` name of the sorted listing |
| Autolysis.ReadmeContent | autolysis.py:197-215 | the README text: the shared template with `csv_file` and `llm_response`, then the charts section |
| Autolysis.AppendChartBullets | autolysis.py:213-215 | the loop appends exactly the bullets of the chart names, in listing order |
| Autolysis.GenerateReadme | autolysis.py:193-218 | README.md is set to the template followed by the bullets of the sorted listing, and no other file changes |
| Autolysis.ReadmeContentShape | autolysis.py:197-215 | the README starts with `# Analysis of ` and the CSV name, holds the findings between their headings, and ends with the charts sentence and the bullets |
| Autolysis.ReadmeFindingsRecoverable | autolysis.py:197-215 | the summary can be read back from the README text |
| Autolysis.ReadmeInjective | autolysis.py:205 | for one listing, two READMEs are equal only if the summaries render the same; two present summaries giving the same README are equal |
| Autolysis.ReadmeContentAssembled | autolysis.py:197-215 | the filled template followed by the charts sentence and the bullets is exactly the README text |
| Autolysis.ChartsCount | autolysis.py:214 | the bullet list holds each `.png` name as often as the listing does, and no other name |
| Autolysis.ChartsSorted | autolysis.py:213-214 | filtering a sorted listing keeps it sorted |
| Autolysis.ChartsOfSorted | autolysis.py:213-214 | filtering the sorted listing is the same as sorting the filtered names |
| Autolysis.ChartsSectionSorted | autolysis.py:209-215 | the section after the Visualizations heading is the charts sentence plus one bullet per `.png` name, in ascending order |
| Autolysis.ReadmeDependsOnChartsOnly | autolysis.py:213-215 | the README depends on the listing only through the multiset of `.png` names, not their order or the other files |
| Autolysis.ChartSuffixExamples | autolysis.py:214 | `chart.png` is a chart; `a.PNG`, `x.png.bak` and `README.md` are not |
| Autolysis.WriteKeepsCharts | autolysis.py:213-218 | writing README.md does not change which `.png` names a later listing shows |
| Autolysis.RerunIdempotent | autolysis.py:193-218 | a second run with the same inputs and the same other files writes the same README and leaves the same directory |

## Left out

- The LLM clients `chat_with_model` and `fetch_llm_response` are left out: they are network I/O with a token read from the environment. Their replies, and the summary a second request returns, are parameters (`Option<string>`, None for a failed request).
- `execute_code_snippets` and the `exec` in `extract_and_execute_functions` are left out: they run arbitrary generated code. The model stops at the decision to execute and at the exact snippets or program handed over.
- The summarisation prompts are left out: they are static prose around the execution output.
- CSV loading and the pandas summaries are left out. So are the analysis prompt, the command-line and token checks, and `sys.exit`: these are foreign library calls and process plumbing.
- Printed diagnostics are left out, and so is the commented-out plotting code: it is dead code and floating-point work.
- `os.getcwd`, `os.path.join`, `os.listdir` and `open` are not called. The directory is a map and the listing an input sequence. Directory entries that are not regular files are treated as plain names.
- Exceptions other than the missing-reply case are left out. In autolysis.py, a malformed response to the summary request (autolysis.py:102) raises inside the `try` at autolysis.py:64-106, so `extract_and_execute_functions` returns None. A malformed response to the analysis request (autolysis.py:188) raises KeyError at autolysis.py:57. The handler at autolysis.py:59 catches only request errors, so that KeyError ends the script.
- Characters are Unicode scalar values, so strings with lone surrogates, which Python allows, are not modelled.

## Findings

| source | as written | input that shows it | evidently intended | confidence | as-written member | corrected member |
|---|---|---|---|---|---|---|
| autolysis_new.py:113 | `process_and_run_code` passes the reply straight to `extract_python_code_blocks`. A failed request makes `fetch_llm_response` return None (autolysis_new.py:55-57). `None.split` then raises AttributeError, nothing catches it, and the script ends before `generate_readme` | a reply of None, i.e. a failed LLM request | treat a missing reply like a reply without code and return None, so the report is still written; autolysis.py does this with its `except` (autolysis.py:104-106) | medium, not executed | AutolysisNew.ProcessAndRunCode | AutolysisNew.ProcessAndRunCodeChecked |
