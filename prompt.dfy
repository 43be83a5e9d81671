/** The review prompt (`_build_review_prompt`): a fixed preamble, eight
    parts per uploaded file, and a closing request, joined by line breaks. */
module ReviewPrompt {
  import opened Strings
  import opened FileListing

  /** The fixed opening parts, one per line. */
  const Preamble: seq<string> := [
      "You are an expert code reviewer. Please analyze the following code files and provide a comprehensive review.",
      "",
      "**Review Requirements:**",
      "1. **Code Quality & Readability**: Assess code clarity, naming conventions, and structure",
      "2. **Modularity & Architecture**: Evaluate code organization, separation of concerns, and reusability",
      "3. **Potential Bugs**: Identify logical errors, edge cases, and potential runtime issues",
      "4. **Security Issues**: Look for vulnerabilities, input validation, and security best practices",
      "5. **Performance**: Comment on efficiency, optimization opportunities, and resource usage",
      "6. **Best Practices**: Suggest improvements based on language-specific conventions",
      "7. **Suggestions**: Provide actionable recommendations for improvement",
      "",
      "**Response Format:**",
      "Please structure your response using clear markdown sections with headers:",
      "- ## Code Quality & Readability",
      "- ## Modularity & Architecture",
      "- ## Potential Bugs",
      "- ## Security Issues",
      "- ## Performance Analysis",
      "- ## Best Practices",
      "- ## Improvement Suggestions",
      "",
      "**Code Files to Review:**",
      ""
    ]

  const Closing: string := "Please provide a thorough analysis following the format above. Be specific and actionable in your recommendations."

  const Fence: string := "```"

  /** The eight parts of the `i`-th file: its number and name, its size
      (plain `str`, no digit grouping), its type, and its text verbatim
      between two fence lines. */
  function FileParts(i: nat, f: FileInfo): seq<string> {
    ["### File " + NatToString(i) + ": " + f.name, "**Size:** " + IntToString(f.size) + " bytes",
     "**Type:** " + f.kind, "", Fence, f.content, Fence, ""]
  }

  /** The parts `g` gives each of `files`, numbered from `first`, in order. */
  function Numbered(files: seq<FileInfo>, first: nat, g: (nat, FileInfo) -> seq<string>): seq<string>
    decreases |files|
  {
    if files == [] then [] else g(first, files[0]) + Numbered(files[1..], first + 1, g)
  }

  /** The parts of `files`, numbered from `first`. */
  function FilesParts(files: seq<FileInfo>, first: nat): seq<string> {
    Numbered(files, first, FileParts)
  }

  /** All parts of the prompt. */
  function PromptParts(files: seq<FileInfo>): seq<string> {
    Preamble + FilesParts(files, 1) + ["", Closing]
  }

  function Prompt(files: seq<FileInfo>): string {
    Join(PromptParts(files), "\n")
  }

  lemma FilesPartsStep(files: seq<FileInfo>, k: nat)
    requires k < |files|
    ensures FilesParts(files[k..], k + 1) == FileParts(k + 1, files[k]) + FilesParts(files[k + 1..], k + 2)
  {
    assert files[k..][1..] == files[k + 1..];
    assert Numbered(files[k..], k + 1, FileParts) == FileParts(k + 1, files[k]) + Numbered(files[k + 1..], k + 2, FileParts);
  }

  /** `_build_review_prompt`. */
  method BuildReviewPrompt(fileContents: seq<FileInfo>) returns (prompt: string)
    ensures prompt == Prompt(fileContents)
  {
    var promptParts := Preamble;
    assert fileContents[0..] == fileContents;
    for k := 0 to |fileContents|
      invariant promptParts + FilesParts(fileContents[k..], k + 1) == Preamble + FilesParts(fileContents, 1)
    {
      var i := k + 1;
      var fileInfo := fileContents[k];
      FilesPartsStep(fileContents, k);
      ghost var before := promptParts;
      promptParts := promptParts + [
        "### File " + NatToString(i) + ": " + fileInfo.name,
        "**Size:** " + IntToString(fileInfo.size) + " bytes",
        "**Type:** " + fileInfo.kind,
        "",
        "```",
        fileInfo.content,
        "```",
        ""
      ];
      assert promptParts == before + FileParts(i, fileInfo);
      Regroup(before, FileParts(i, fileInfo), FilesParts(fileContents[k + 1..], k + 2));
    }
    assert FilesParts(fileContents[|fileContents|..], |fileContents| + 1) == [];
    assert promptParts + [] == promptParts;
    promptParts := promptParts + ["", Closing];
    prompt := Join(promptParts, "\n");
  }

  // ---------------------------------------------------------------------
  // The prompt's structure
  // ---------------------------------------------------------------------

  lemma {:induction false} NumberedLength(files: seq<FileInfo>, first: nat, g: (nat, FileInfo) -> seq<string>)
    requires forall i, f :: |g(i, f)| == 8
    ensures |Numbered(files, first, g)| == 8 * |files|
    decreases |files|
  {
    if files != [] { NumberedLength(files[1..], first + 1, g); }
  }

  lemma {:induction false} NumberedSlice(files: seq<FileInfo>, first: nat, g: (nat, FileInfo) -> seq<string>, k: nat)
    requires forall i, f :: |g(i, f)| == 8
    requires k < |files|
    ensures 8 * k + 8 <= |Numbered(files, first, g)|
    ensures Numbered(files, first, g)[8 * k..8 * k + 8] == g(first + k, files[k])
    decreases k
  {
    var head, rest := g(first, files[0]), Numbered(files[1..], first + 1, g);
    NumberedLength(files[1..], first + 1, g);
    if k == 0 {
      Cut(head, rest);
    } else {
      NumberedSlice(files[1..], first + 1, g, k - 1);
      Shift(head, rest, 8 * k, 8 * k + 8);
      assert files[1..][k - 1] == files[k];
    }
  }

  /** Eight parts per file, the `k`-th file's at `8 * k`. */
  lemma FilesPartsShape(files: seq<FileInfo>, first: nat)
    ensures |FilesParts(files, first)| == 8 * |files|
    ensures forall k :: 0 <= k < |files| ==> FilesParts(files, first)[8 * k..8 * k + 8] == FileParts(first + k, files[k])
  {
    NumberedLength(files, first, FileParts);
    forall k | 0 <= k < |files| ensures FilesParts(files, first)[8 * k..8 * k + 8] == FileParts(first + k, files[k]) {
      NumberedSlice(files, first, FileParts, k);
    }
  }

  /** The prompt's parts: the 23 preamble lines, then for the `k`-th file
      (from 1, in input order) its eight parts, then an empty line and the
      closing request. With no files, only the preamble and the closing. */
  lemma PromptStructure(files: seq<FileInfo>)
    ensures var parts, n := PromptParts(files), |files|;
      |Preamble| == 23 && |parts| == 25 + 8 * n && parts[..23] == Preamble &&
      (forall k :: 0 <= k < n ==> parts[23 + 8 * k..31 + 8 * k] == FileParts(k + 1, files[k])) &&
      parts[23 + 8 * n..] == ["", Closing]
    ensures files == [] ==> PromptParts(files) == Preamble + ["", Closing]
  {
    var fp := FilesParts(files, 1);
    FilesPartsShape(files, 1);
    var parts := PromptParts(files);
    assert parts == Preamble + fp + ["", Closing];
    forall k | 0 <= k < |files| ensures parts[23 + 8 * k..31 + 8 * k] == FileParts(k + 1, files[k]) {
      assert parts[23 + 8 * k..31 + 8 * k] == fp[8 * k..8 * k + 8];
    }
    assert parts[23 + 8 * |files|..] == ["", Closing];
    if files == [] {
      assert fp == [];
    }
  }

  /** A part holds no line break. */
  predicate OneLine(s: string) {
    forall i :: 0 <= i < |s| ==> s[i] != '\n'
  }

  lemma DigitsOneLine(s: string)
    requires AllDigits(s)
    ensures OneLine(s)
  {
  }

  lemma ConcatOneLine(a: string, b: string)
    requires OneLine(a) && OneLine(b)
    ensures OneLine(a + b)
  {
    assert forall i :: 0 <= i < |a + b| ==> (a + b)[i] == (if i < |a| then a[i] else b[i - |a|]);
  }

  /** A file whose name, type and text hold no line break. */
  predicate OneLineFile(f: FileInfo) {
    OneLine(f.name) && OneLine(f.kind) && OneLine(f.content)
  }

  lemma FilePartsOneLine(i: nat, f: FileInfo)
    requires OneLineFile(f)
    ensures forall k :: 0 <= k < 8 ==> OneLine(FileParts(i, f)[k])
  {
    DigitsOneLine(NatToString(i));
    ConcatOneLine("### File ", NatToString(i));
    ConcatOneLine("### File " + NatToString(i), ": ");
    ConcatOneLine("### File " + NatToString(i) + ": ", f.name);
    var size := IntToString(f.size);
    if f.size < 0 {
      DigitsOneLine(NatToString(-f.size));
      ConcatOneLine("-", NatToString(-f.size));
    } else {
      DigitsOneLine(size);
    }
    ConcatOneLine("**Size:** ", size);
    ConcatOneLine("**Size:** " + size, " bytes");
    ConcatOneLine("**Type:** ", f.kind);
  }

  lemma {:induction false} NumberedOneLine(files: seq<FileInfo>, first: nat, g: (nat, FileInfo) -> seq<string>)
    requires forall i, f, j :: f in files && 0 <= j < |g(i, f)| ==> '\n' !in g(i, f)[j]
    ensures forall j :: 0 <= j < |Numbered(files, first, g)| ==> '\n' !in Numbered(files, first, g)[j]
    decreases |files|
  {
    if files != [] {
      assert forall f :: f in files[1..] ==> f in files;
      NumberedOneLine(files[1..], first + 1, g);
      var head, rest := g(first, files[0]), Numbered(files[1..], first + 1, g);
      assert files[0] in files;
      assert forall j :: 0 <= j < |head + rest| ==> (head + rest)[j] == if j < |head| then head[j] else rest[j - |head|];
    }
  }

  /** Every part the files contribute is one line when the files' fields are. */
  lemma FilesPartsOneLine(files: seq<FileInfo>)
    requires forall f :: f in files ==> OneLineFile(f)
    ensures forall j :: 0 <= j < |FilesParts(files, 1)| ==> '\n' !in FilesParts(files, 1)[j]
  {
    forall i: nat, f, j | f in files && 0 <= j < |FileParts(i, f)| ensures '\n' !in FileParts(i, f)[j] {
      FilePartsOneLine(i, f);
      assert OneLine(FileParts(i, f)[j]);
    }
    NumberedOneLine(files, 1, FileParts);
  }

  /** When no file's name, type or text holds a line break, the lines
      between the preamble's and the closing's are exactly the files'
      parts: eight lines per file. */
  lemma PromptLines(files: seq<FileInfo>)
    requires forall f :: f in files ==> OneLineFile(f)
    ensures Split(Prompt(files), '\n') ==
      Split(Join(Preamble, "\n"), '\n') + FilesParts(files, 1) + Split(Join(["", Closing], "\n"), '\n')
  {
    FilesPartsOneLine(files);
    LinesBetween(Preamble, FilesParts(files, 1), ["", Closing]);
  }
}
