/** The generation service (src/services/gemini.ts): which directives the
  * prompt carries for the chosen options, and how the model's raw reply is
  * split into steps and code blocks. The network call itself is outside the
  * model: the parser is a function of the reply text. */
module Gemini {
  import opened Types
  import opened Seqs
  import opened JsString

  // ---------------------------------------------------------------------------
  // Prompt directives

  const AdvancedDirective: string :=
    "Include advanced features, best practices, and comprehensive error handling"
  const BasicDirective: string :=
    "Focus on basic functionality and essential features"
  const MultiFileDirective: string :=
    "Split the implementation into multiple files (main playbook, roles, variables, etc.)"
  const SingleFileDirective: string :=
    "Create a single comprehensive playbook file"

  /** The option-dependent parts of the prompt: the complexity directive, the
    * file-structure directive and the file names of the example reply. */
  datatype Directives = Directives(complexityLevel: string, fileStructure: string, exampleFiles: seq<string>)

  function SelectDirectives(options: GenerationOptions): (d: Directives)
    ensures d.complexityLevel == AdvancedDirective <==> options.codeLevel == Advanced
    ensures d.complexityLevel == BasicDirective <==> options.codeLevel == Basic
    ensures d.fileStructure == MultiFileDirective <==> options.multiFile
    ensures d.fileStructure == SingleFileDirective <==> !options.multiFile
    ensures ("site.yml" in d.exampleFiles && "vars/main.yml" in d.exampleFiles) <==> options.multiFile
    ensures "playbook.yml" in d.exampleFiles <==> !options.multiFile
    ensures |d.exampleFiles| == if options.multiFile then 2 else 1
  {
    Directives(
      if options.codeLevel == Advanced then AdvancedDirective else BasicDirective,
      if options.multiFile then MultiFileDirective else SingleFileDirective,
      if options.multiFile then ["site.yml", "vars/main.yml"] else ["playbook.yml"])
  }

  // ---------------------------------------------------------------------------
  // Locating the two sections of the reply

  const StepsMarker: string := "STEPS:"
  const CodeMarker: string := "CODE:"
  const FileMarker: string := "filename:"

  /** The bounds `[start, end)` of a capture group. */
  datatype Span = Span(start: nat, end: nat)

  /** A `STEPS:` at `p` followed, at or after its end, by a `CODE:` at `j`. */
  predicate StepsThenCode(text: string, p: nat, j: nat) {
    OccursAt(text, StepsMarker, p) && p + |StepsMarker| <= j && OccursAt(text, CodeMarker, j)
  }

  /** Capture group 1 of `text.match(/STEPS:(.*?)CODE:/s)`. */
  function StepsMatch(text: string): (m: Option<Span>)
    ensures m.Some? ==> m.value.start <= m.value.end <= |text|
  {
    var p := Find(text, StepsMarker, 0);
    if p < 0 then None
    else
      var j := Find(text, CodeMarker, p + |StepsMarker|);
      if j < 0 then None else Some(Span(p + |StepsMarker|, j))
  }

  /** `StepsMatch` is the leftmost match of the lazy pattern: it exists exactly
    * when some `STEPS:` is followed by a `CODE:`; it starts after the first
    * `STEPS:` and ends at the first `CODE:` after it. */
  lemma StepsMatchIsLeftmostLazy(text: string)
    ensures StepsMatch(text).Some? <==> exists p, j :: StepsThenCode(text, p, j)
    ensures StepsMatch(text).Some? ==>
      var m := StepsMatch(text).value;
      m.start >= |StepsMarker| && StepsThenCode(text, m.start - |StepsMarker|, m.end)
      && (forall k :: 0 <= k < m.start - |StepsMarker| ==> !OccursAt(text, StepsMarker, k))
      && (forall k :: m.start <= k < m.end ==> !OccursAt(text, CodeMarker, k))
  {
    var p := Find(text, StepsMarker, 0);
    FindIsFirst(text, StepsMarker, 0);
    if p >= 0 {
      FindIsFirst(text, CodeMarker, p + |StepsMarker|);
      var j := Find(text, CodeMarker, p + |StepsMarker|);
      if j >= 0 {
        assert StepsThenCode(text, p, j);
      }
    }
  }

  /** Where capture group 1 of `text.match(/CODE:(.*)/s)` starts; it runs to the end. */
  function CodeMatch(text: string): (c: Option<nat>)
    ensures c.Some? ==> c.value <= |text|
  {
    var j := Find(text, CodeMarker, 0);
    if j < 0 then None else Some(j + |CodeMarker|)
  }

  /** `CodeMatch` follows the first `CODE:` anywhere in the text, and exists
    * exactly when the text contains `CODE:`. */
  lemma CodeMatchIsFirst(text: string)
    ensures CodeMatch(text).Some? <==> Contains(text, CodeMarker)
    ensures CodeMatch(text).Some? ==>
      var c := CodeMatch(text).value;
      c >= |CodeMarker| && OccursAt(text, CodeMarker, c - |CodeMarker|)
      && forall k :: 0 <= k < c - |CodeMarker| ==> !OccursAt(text, CodeMarker, k)
  {
    FindIsFirst(text, CodeMarker, 0);
  }

  /** The two patterns are matched independently: whenever the steps section
    * exists, the code section exists too, and it starts at or before the
    * `CODE:` that ends the steps section (possibly before `STEPS:`). */
  lemma CodeMatchNotAfterStepsEnd(text: string)
    requires StepsMatch(text).Some?
    ensures CodeMatch(text).Some?
    ensures CodeMatch(text).value <= StepsMatch(text).value.end + |CodeMarker|
  {
    var m := StepsMatch(text).value;
    FindIsFirst(text, CodeMarker, 0);
    assert OccursAt(text, CodeMarker, m.end);
  }

  /** A reply whose `CODE:` comes before its `STEPS:`: the code section then
    * holds the whole steps section as well. */
  lemma CodeSectionCanPrecedeSteps()
    ensures StepsMatch("CODE:aSTEPS:bCODE:c") == Some(Span(12, 13))
    ensures CodeMatch("CODE:aSTEPS:bCODE:c") == Some(5)
  {
    var t := "CODE:aSTEPS:bCODE:c";
    assert t[0..5] == CodeMarker;
    assert Find(t, CodeMarker, 0) == 0;
    assert t[6..12] == StepsMarker;
    assert t[5..11][0] == 'a' && t[4..10][0] == ':' && t[3..9][0] == 'E';
    assert t[2..8][0] == 'D' && t[1..7][0] == 'O' && t[0..6][0] == 'C';
    assert Find(t, StepsMarker, 0) == 6;
    assert t[12..17][0] == 'b';
    assert t[13..18] == CodeMarker;
    assert Find(t, CodeMarker, 12) == 13;
  }

  // ---------------------------------------------------------------------------
  // Steps

  /** `stepsMatch[1].trim().split('\n')`, or no lines when there is no match. */
  function StepLines(text: string): (lines: seq<string>)
    ensures StepsMatch(text).None? ==> lines == []
    ensures StepsMatch(text).Some? ==>
      var m := StepsMatch(text).value;
      Join(lines, "\n") == Trim(text[m.start..m.end]) && forall i :: 0 <= i < |lines| ==> !Contains(lines[i], "\n")
  {
    match StepsMatch(text)
    case None => []
    case Some(m) =>
      SplitJoin(Trim(text[m.start..m.end]), "\n");
      SplitPiecesFree(Trim(text[m.start..m.end]), "\n");
      Split(Trim(text[m.start..m.end]), "\n")
  }

  /** `line` starts with one or more digits followed by a `.` at index `k`. */
  predicate NumberedAt(line: string, k: nat) {
    1 <= k < |line| && line[k] == '.' && forall i :: 0 <= i < k ==> IsDigit(line[i])
  }

  /** The `replace` of a step line: a leading run of digits followed by a dot
    * is removed together with the white space after it. */
  function StripNumber(line: string): string
  {
    var n := LeadingRun(line, IsDigit);
    if 0 < n < |line| && line[n] == '.' then TrimStart(line[n + 1..]) else line
  }

  /** A numbered line loses its number, the dot and the white space after it. */
  lemma StripNumberNumbered(line: string, k: nat)
    requires NumberedAt(line, k)
    ensures StripNumber(line) == TrimStart(line[k + 1..])
  {
    assert LeadingRun(line, IsDigit) == k by {
      assert !IsDigit(line[k]);
      LeadingRunAt(line, IsDigit, k);
    }
  }

  /** A line without the number prefix is left as it is. */
  lemma StripNumberUnnumbered(line: string)
    requires forall k :: !NumberedAt(line, k)
    ensures StripNumber(line) == line
  {
    var n := LeadingRun(line, IsDigit);
    if 0 < n < |line| && line[n] == '.' {
      assert NumberedAt(line, n);
    }
  }

  /** The description a step line yields. */
  function Description(line: string): (d: string)
    ensures Trim(d) == d
  {
    TrimIdempotent(StripNumber(line));
    Trim(StripNumber(line))
  }

  /** The description of a numbered line is the trimmed text after the dot. */
  lemma DescriptionOfNumbered(line: string, k: nat)
    requires NumberedAt(line, k)
    ensures Description(line) == Trim(line[k + 1..])
  {
    StripNumberNumbered(line, k);
    TrimAfterTrimStart(line[k + 1..]);
  }

  /** The prefix is only recognised at the very start of the untrimmed line:
    * an indented numbered line keeps its number. */
  lemma DescriptionOfIndented(line: string)
    requires |line| > 0 && IsWhite(line[0])
    ensures Description(line) == Trim(line)
  {
    assert !IsDigit(line[0]);
    StripNumberUnnumbered(line);
  }

  /** A bare number line is not blank, yet yields an empty description. */
  lemma BareNumberGivesEmptyDescription()
    ensures Description("3.") == ""
  {
    DescriptionOfNumbered("3.", 1);
  }

  /** The step built for line `index` of the non-blank lines. */
  function StepOfLine(index: nat, line: string): (step: Step)
    ensures step.id == NatToString(index + 1) && !step.completed
  {
    Step(NatToString(index + 1), Description(line), false)
  }

  /** The steps `generateStepsAndCode` returns for the reply `text`. */
  function ExtractSteps(text: string): seq<Step>
  {
    MapIndexed(Filter(StepLines(text), NonBlank), StepOfLine)
  }

  /** Step `i` of the result, in terms of the `i`-th non-blank line. */
  lemma StepAt(text: string, i: nat)
    requires i < |ExtractSteps(text)|
    ensures var lines := Filter(StepLines(text), NonBlank);
      i < |lines| && ExtractSteps(text)[i] == Step(NatToString(i + 1), Description(lines[i]), false)
  {
    MapIndexedAt(Filter(StepLines(text), NonBlank), StepOfLine, i);
  }

  /** Without a `STEPS:` followed later by `CODE:` there are no steps. */
  lemma NoStepsWithoutMarkers(text: string)
    requires forall p, j :: !StepsThenCode(text, p, j)
    ensures ExtractSteps(text) == []
  {
    StepsMatchIsLeftmostLazy(text);
  }

  /** There is one step per non-blank line of the trimmed steps section. */
  lemma StepCountIsNonBlankLines(text: string)
    ensures |ExtractSteps(text)| == Count(StepLines(text), NonBlank)
  {
    FilterCount(StepLines(text), NonBlank);
  }

  /** Step `i` (counting from 0) has id `String(i + 1)` and is not completed,
    * whatever numbers the text carries. */
  lemma StepIdsAreSequential(text: string)
    ensures forall i :: 0 <= i < |ExtractSteps(text)| ==>
      ExtractSteps(text)[i].id == NatToString(i + 1) && !ExtractSteps(text)[i].completed
  {
    var steps := ExtractSteps(text);
    forall i | 0 <= i < |steps| ensures steps[i].id == NatToString(i + 1) && !steps[i].completed {
      StepAt(text, i);
    }
  }

  /** No two steps share an id. */
  lemma StepIdsAreDistinct(text: string)
    ensures forall i, j :: 0 <= i < j < |ExtractSteps(text)| ==>
      ExtractSteps(text)[i].id != ExtractSteps(text)[j].id
  {
    StepIdsAreSequential(text);
    SequentialIdsDistinct(ExtractSteps(text));
  }

  lemma SequentialIdsDistinct(steps: seq<Step>)
    requires forall i :: 0 <= i < |steps| ==> steps[i].id == NatToString(i + 1)
    ensures forall i, j :: 0 <= i < j < |steps| ==> steps[i].id != steps[j].id
  {
    forall i, j | 0 <= i < j < |steps| ensures steps[i].id != steps[j].id {
      NatToStringInjective(i + 1, j + 1);
    }
  }

  /** Each step comes, in order, from a non-blank line of the steps section,
    * and its description is that line without its number prefix, trimmed. */
  lemma StepsFromNonBlankLines(text: string)
    ensures var kept := Filter(StepLines(text), NonBlank);
      |kept| == |ExtractSteps(text)| && SubsequenceOf(kept, StepLines(text))
      && forall i :: 0 <= i < |kept| ==>
        NonBlank(kept[i]) && ExtractSteps(text)[i].description == Description(kept[i])
  {
    var kept := Filter(StepLines(text), NonBlank);
    FilterIsSubsequence(StepLines(text), NonBlank);
    forall i | 0 <= i < |kept| ensures ExtractSteps(text)[i].description == Description(kept[i]) {
      MapIndexedAt(kept, StepOfLine, i);
    }
  }

  // ---------------------------------------------------------------------------
  // Code blocks

  /** An opening fence: three backticks, word characters, and the line break at `k`. */
  predicate OpeningFenceEndsAt(s: string, k: nat) {
    3 <= k < |s| && s[..3] == "```" && s[k] == '\n' && forall i :: 3 <= i < k ==> IsWordChar(s[i])
  }

  /** `s.replace(/^```\w*\n/, '')`. */
  function StripOpeningFence(s: string): string
  {
    if |s| >= 3 && s[..3] == "```" then
      var k := 3 + LeadingRun(s[3..], IsWordChar);
      if k < |s| && s[k] == '\n' then s[k + 1..] else s
    else s
  }

  /** A leading fence line is removed in full, language tag included. */
  lemma StripOpeningFenceRemovesLine(s: string, k: nat)
    requires OpeningFenceEndsAt(s, k)
    ensures StripOpeningFence(s) == s[k + 1..]
  {
    LeadingRunAt(s[3..], IsWordChar, k - 3);
  }

  /** Text that does not start with a fence line is left as it is. */
  lemma StripOpeningFenceNoFence(s: string)
    requires forall k :: !OpeningFenceEndsAt(s, k)
    ensures StripOpeningFence(s) == s
  {
    if |s| >= 3 && s[..3] == "```" {
      var k := 3 + LeadingRun(s[3..], IsWordChar);
      if k < |s| && s[k] == '\n' {
        assert OpeningFenceEndsAt(s, k);
      }
    }
  }

  /** `s.replace(/```$/, '')`: three backticks are removed only at the very end. */
  function StripClosingFence(s: string): (r: string)
    ensures r == s || r + "```" == s
    ensures r == s <==> !(|s| >= 3 && s[|s| - 3..] == "```")
  {
    if |s| >= 3 && s[|s| - 3..] == "```" then
      assert s[..|s| - 3] + s[|s| - 3..] == s;
      s[..|s| - 3]
    else s
  }

  /** The code text of a block body. */
  function CodeOf(body: string): (code: string)
    ensures Trim(code) == code
  {
    TrimIdempotent(StripClosingFence(StripOpeningFence(body)));
    Trim(StripClosingFence(StripOpeningFence(body)))
  }

  /** The block one non-blank `filename:` segment yields: the file name is its
    * first line and the code is the rest, both after trimming the segment. */
  function BlockOf(segment: string): CodeBlock
    requires NonBlank(segment)
  {
    var t := Trim(segment);
    CodeBlock(Some(Trim(FirstLine(t))), "yaml", CodeOf(AfterFirstLine(t)))
  }

  /** A block's file name is present, non-empty, trimmed and a single line. */
  lemma BlockFileName(segment: string)
    requires NonBlank(segment)
    ensures var b := BlockOf(segment);
      b.fileName.Some? && b.fileName.value != [] && Trim(b.fileName.value) == b.fileName.value
      && !Contains(b.fileName.value, "\n") && b.language == "yaml"
  {
    var t := Trim(segment);
    var first := FirstLine(t);
    assert first != [] && first[0] == t[0];
    assert !IsBlank(first);
    TrimIdempotent(first);
    if Contains(Trim(first), "\n") {
      ContainsOfTrim(first, "\n");
    }
  }

  /** A segment that is a single line yields empty code. */
  lemma SingleLineSegmentHasNoCode(segment: string)
    requires NonBlank(segment) && !Contains(Trim(segment), "\n")
    ensures BlockOf(segment).code == []
  {
  }

  /** A fenced body: the whole opening line goes, then one closing fence at the
    * very end, then the surrounding white space. */
  lemma FencedBlockCode(segment: string, k: nat)
    requires NonBlank(segment) && OpeningFenceEndsAt(AfterFirstLine(Trim(segment)), k)
    ensures BlockOf(segment).code == Trim(StripClosingFence(AfterFirstLine(Trim(segment))[k + 1..]))
  {
    StripOpeningFenceRemovesLine(AfterFirstLine(Trim(segment)), k);
  }

  /** The blocks for the `filename:` segments: one per non-blank segment, in order. */
  function CodeBlocksOf(segments: seq<string>): (blocks: seq<CodeBlock>)
  {
    Map(Filter(segments, NonBlank), BlockOf)
  }

  /** One more segment adds its block, if it is not blank. */
  lemma CodeBlocksOfSnoc(segments: seq<string>, segment: string)
    ensures CodeBlocksOf(segments + [segment]) ==
      CodeBlocksOf(segments) + if NonBlank(segment) then [BlockOf(segment)] else []
  {
    FilterMapSnoc(segments, segment, NonBlank, BlockOf);
  }

  /** Pushing the block of a non-blank segment extends the blocks of the
    * segments before it to the blocks of all of them. */
  lemma PushBlock(segments: seq<string>, segment: string, block: CodeBlock)
    requires NonBlank(segment) && block == BlockOf(segment)
    ensures CodeBlocksOf(segments) + [block] == CodeBlocksOf(segments + [segment])
  {
    CodeBlocksOfSnoc(segments, segment);
  }

  /** The block of a segment as the loop body builds it, with `split` and `join`. */
  lemma BlockOfSplitLines(segment: string)
    requires NonBlank(segment)
    ensures var lines := Split(Trim(segment), "\n");
      BlockOf(segment) == CodeBlock(Some(Trim(lines[0])), "yaml",
        Trim(StripClosingFence(StripOpeningFence(Join(lines[1..], "\n")))))
  {
    LinesOfSplit(Trim(segment));
  }

  /** `codeMatch[1].trim().split('filename:')`, or no segments without a match. */
  function CodeSegments(text: string): (segments: seq<string>)
    ensures CodeMatch(text).None? ==> segments == []
    ensures CodeMatch(text).Some? ==>
      var c := CodeMatch(text).value;
      Join(segments, FileMarker) == Trim(text[c..]) && forall i :: 0 <= i < |segments| ==> !Contains(segments[i], FileMarker)
  {
    match CodeMatch(text)
    case None => []
    case Some(c) =>
      SplitJoin(Trim(text[c..]), FileMarker);
      SplitPiecesFree(Trim(text[c..]), FileMarker);
      Split(Trim(text[c..]), FileMarker)
  }

  lemma KeptBlockNamed(kept: seq<string>, k: nat)
    requires forall j :: 0 <= j < |kept| ==> NonBlank(kept[j])
    requires k < |kept|
    ensures var b := Map(kept, BlockOf)[k];
      b.language == "yaml" && b.fileName.Some? && b.fileName.value != []
  {
    MapAt(kept, BlockOf, k);
    BlockFileName(kept[k]);
  }

  /** Exactly one block per non-blank segment, every one with a non-empty file
    * name and the language `yaml`. */
  lemma CodeBlocksOfSegments(segments: seq<string>)
    ensures |CodeBlocksOf(segments)| == Count(segments, NonBlank)
    ensures forall k :: 0 <= k < |CodeBlocksOf(segments)| ==>
      var b := CodeBlocksOf(segments)[k];
      b.language == "yaml" && b.fileName.Some? && b.fileName.value != []
  {
    FilterCount(segments, NonBlank);
    var kept := Filter(segments, NonBlank);
    var blocks := CodeBlocksOf(segments);
    forall k | 0 <= k < |blocks|
      ensures blocks[k].language == "yaml" && blocks[k].fileName.Some? && blocks[k].fileName.value != []
    {
      KeptBlockNamed(kept, k);
    }
  }

  /** The blocks keep the order of their segments: block `k` comes from the
    * `k`-th non-blank segment, and those segments are a subsequence of all. */
  lemma CodeBlocksInSegmentOrder(segments: seq<string>)
    ensures var kept := Filter(segments, NonBlank);
      SubsequenceOf(kept, segments) && |CodeBlocksOf(segments)| == |kept|
      && forall k :: 0 <= k < |kept| ==> CodeBlocksOf(segments)[k] == BlockOf(kept[k])
  {
    var kept := Filter(segments, NonBlank);
    FilterIsSubsequence(segments, NonBlank);
    forall k | 0 <= k < |kept| ensures CodeBlocksOf(segments)[k] == BlockOf(kept[k]) {
      MapAt(kept, BlockOf, k);
    }
  }

  // ---------------------------------------------------------------------------
  // The parser

  /** The body of the loop for a non-blank segment: its first line, trimmed,
    * is the file name, and the other lines, joined again, lose their fences
    * and surrounding white space to become the code. */
  method BuildBlock(block: string) returns (codeBlock: CodeBlock)
    requires NonBlank(block)
    ensures codeBlock == BlockOf(block)
  {
    var lines := Split(Trim(block), "\n");
    var fileName := lines[0];
    var code := Trim(StripClosingFence(StripOpeningFence(Join(lines[1..], "\n"))));
    codeBlock := CodeBlock(Some(Trim(fileName)), "yaml", code);
    BlockOfSplitLines(block);
  }

  /** The loop of `generateStepsAndCode` over the `filename:` segments: a
    * blank segment is skipped, any other pushes the block built from its
    * lines with `split` and `join`. */
  method CollectBlocks(fileBlocks: seq<string>) returns (codeBlocks: seq<CodeBlock>)
    ensures codeBlocks == CodeBlocksOf(fileBlocks)
  {
    codeBlocks := [];
    var i := 0;
    while i < |fileBlocks|
      invariant i <= |fileBlocks|
      invariant codeBlocks == CodeBlocksOf(fileBlocks[..i])
    {
      var block := fileBlocks[i];
      ghost var done := fileBlocks[..i];
      assert fileBlocks[..i + 1] == done + [block];
      i := i + 1;
      if Trim(block) == [] {
        CodeBlocksOfSnoc(done, block);
        continue;
      }
      var codeBlock := BuildBlock(block);
      PushBlock(done, block, codeBlock);
      codeBlocks := codeBlocks + [codeBlock];
    }
    assert fileBlocks[..i] == fileBlocks;
  }

  /** The parsing half of `generateStepsAndCode`: the steps pipeline, then the
    * blocks of the `filename:` segments of the code section, if there is one. */
  method ParseResponse(text: string) returns (result: GenerationResult)
    ensures result.steps == ExtractSteps(text)
    ensures result.codeBlocks == CodeBlocksOf(CodeSegments(text))
    ensures !Contains(text, CodeMarker) ==> result.codeBlocks == []
    ensures |result.codeBlocks| == Count(CodeSegments(text), NonBlank)
    ensures forall k :: 0 <= k < |result.codeBlocks| ==>
      result.codeBlocks[k].language == "yaml" && result.codeBlocks[k].fileName.Some?
  {
    var steps := ExtractSteps(text);
    var codeBlocks: seq<CodeBlock> := [];
    var codeMatch := CodeMatch(text);
    if codeMatch.Some? {
      var codeSection := Trim(text[codeMatch.value..]);
      var fileBlocks := Split(codeSection, FileMarker);
      codeBlocks := CollectBlocks(fileBlocks);
    }
    CodeMatchIsFirst(text);
    CodeBlocksOfSegments(CodeSegments(text));
    result := GenerationResult(steps, codeBlocks);
  }
}
