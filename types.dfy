/** Record types shared by the reply parser and the step editor (src/types.ts). */
module Types {

  datatype Option<+T> = None | Some(value: T)

  /** One ordered, user-editable instruction item. */
  datatype Step = Step(id: string, description: string, completed: bool)

  /** One generated file body; `fileName` is optional in the record type. */
  datatype CodeBlock = CodeBlock(fileName: Option<string>, language: string, code: string)

  datatype CodeLevel = Basic | Advanced

  datatype GenerationOptions = GenerationOptions(codeLevel: CodeLevel, multiFile: bool)

  /** What `generateStepsAndCode` resolves to. */
  datatype GenerationResult = GenerationResult(steps: seq<Step>, codeBlocks: seq<CodeBlock>)
}
