/** The file-listing part of the report (`_add_file_contents_section`):
    a heading, then per uploaded file a numbered heading, a size and type
    line, the first lines of its (possibly truncated) text, and a chart. */
module FileListing {
  import opened Strings
  import opened Layout

  /** An uploaded file record: its name, size in bytes, type label and text. */
  datatype FileInfo = FileInfo(name: string, size: int, kind: string, content: string)

  /** At most this many characters of a file's text are shown. */
  const PreviewLimit: nat := 2000
  /** At most this many lines of the shown text become blocks. */
  const LineLimit: nat := 50
  const ContentNotice: string := "... [Content truncated for PDF display] ..."
  const LinesNotice: string := "... [Additional lines truncated] ..."
  const ListingHeading: string := "Code Files Reviewed"

  /** The text shown for a file: all of it up to the limit, otherwise the
      first `PreviewLimit` characters, an empty line and the notice. */
  function Preview(content: string): string {
    if |content| > PreviewLimit then content[..PreviewLimit] + "\n\n" + ContentNotice else content
  }

  lemma PreviewFacts(content: string)
    ensures |content| <= PreviewLimit ==> Preview(content) == content
    ensures |content| > PreviewLimit ==>
      |Preview(content)| == PreviewLimit + 2 + |ContentNotice| &&
      Preview(content)[..PreviewLimit] == content[..PreviewLimit] &&
      Preview(content)[PreviewLimit..] == "\n\n" + ContentNotice
  {
    if |content| > PreviewLimit {
      Cut(content[..PreviewLimit], "\n\n" + ContentNotice);
    }
  }

  /** A text that ends in an empty line and a one-line notice splits into
      the lines before them and those two. */
  lemma SplitTail(a: string, notice: string)
    requires '\n' !in notice
    ensures Split(a + "\n\n" + notice, '\n') == Split(a, '\n') + [[], notice]
  {
    assert a + "\n\n" + notice == a + ['\n'] + ([] + ['\n'] + notice);
    SplitAround(a, '\n', [] + ['\n'] + notice);
    SplitAround([], '\n', notice);
    SplitWithoutSeparator(notice, '\n');
  }

  lemma NoticeWithoutNewline()
    ensures '\n' !in ContentNotice
  {
    assert forall i :: 0 <= i < |ContentNotice| ==> ContentNotice[i] != '\n';
  }

  /** A truncated text ends in an empty line and the notice line, so the
      notice is among the displayed lines exactly when the kept characters
      span at most 48 lines. */
  lemma PreviewLines(content: string)
    requires |content| > PreviewLimit
    ensures Split(Preview(content), '\n') == Split(content[..PreviewLimit], '\n') + [[], ContentNotice]
    ensures |Split(Preview(content), '\n')| <= LineLimit <==> |Split(content[..PreviewLimit], '\n')| <= LineLimit - 2
  {
    NoticeWithoutNewline();
    SplitTail(content[..PreviewLimit], ContentNotice);
  }

  /** One displayed line: a spacer for a whitespace-only line, otherwise
      the line itself, unstripped, as code. */
  function LineBlock(line: string): (b: Block)
    ensures IsBlank(line) ==> b == Spacer(1, 6)
    ensures !IsBlank(line) ==> b == Para(CodeStyle, line)
  {
    StripFacts(line);
    if Strip(line) != [] then Para(CodeStyle, line) else Spacer(1, 6)
  }

  function LineBlocks(lines: seq<string>): seq<Block> {
    seq(|lines|, k requires 0 <= k < |lines| => LineBlock(lines[k]))
  }

  lemma LineBlocksSnoc(lines: seq<string>, j: nat)
    requires j < |lines|
    ensures LineBlocks(lines[..j + 1]) == LineBlocks(lines[..j]) + [LineBlock(lines[j])]
  {
    var a, b := LineBlocks(lines[..j + 1]), LineBlocks(lines[..j]) + [LineBlock(lines[j])];
    assert |a| == |b|;
    forall k | 0 <= k < |a| ensures a[k] == b[k] {
      if k < j {
        assert lines[..j + 1][k] == lines[..j][k];
      }
    }
  }

  /** `lines[:50]`. */
  function Shown(lines: seq<string>): (r: seq<string>)
    ensures |r| <= LineLimit && |r| <= |lines| && r == lines[..|r|]
    ensures |lines| <= LineLimit ==> r == lines
  {
    if |lines| > LineLimit then lines[..LineLimit] else lines
  }

  /** `f"Size: {size:,} bytes | Type: {type}"`. */
  function MetadataText(f: FileInfo): string {
    "Size: " + FormatThousands(f.size) + " bytes | Type: " + f.kind
  }

  function FileTitle(i: nat, f: FileInfo): string {
    "File " + NatToString(i) + ": " + f.name
  }

  function ChartTitle(f: FileInfo): string {
    "Complexity Graph for " + f.name
  }

  function FileHeader(i: nat, f: FileInfo): seq<Block> {
    [Para(CustomHeading2, FileTitle(i, f)), Para(MetadataStyle, MetadataText(f)), Spacer(1, 6)]
  }

  function Notice(lines: seq<string>): seq<Block> {
    if |lines| > LineLimit then [Para(CodeStyle, LinesNotice)] else []
  }

  function FileFooter(f: FileInfo): seq<Block> {
    [Spacer(1, 12), Para(CustomHeading2, ChartTitle(f)), Image(f.name, 400, 300), Spacer(1, 20)]
  }

  /** The lines of a file's shown text. */
  function FileLines(f: FileInfo): seq<string> {
    Split(Preview(f.content), '\n')
  }

  /** The blocks of the `i`-th file. */
  function FileBlocks(i: nat, f: FileInfo): seq<Block> {
    FileHeader(i, f) + LineBlocks(Shown(FileLines(f))) + Notice(FileLines(f)) + FileFooter(f)
  }

  /** The blocks of `files`, numbered from `first`. */
  function FileSections(files: seq<FileInfo>, first: nat): seq<Block>
    decreases |files|
  {
    if files == [] then [] else FileBlocks(first, files[0]) + FileSections(files[1..], first + 1)
  }

  /** The whole listing. */
  function Listing(files: seq<FileInfo>): seq<Block> {
    [Para(CustomHeading1, ListingHeading)] + FileSections(files, 1)
  }

  lemma AppendThree<T>(x: seq<T>, a: T, b: T, c: T)
    ensures x + [a] + [b] + [c] == x + [a, b, c]
  {
  }

  lemma AppendFour<T>(x: seq<T>, a: T, b: T, c: T, d: T)
    ensures x + [a] + [b] + [c] + [d] == x + [a, b, c, d]
  {
  }

  lemma FileSectionsStep(files: seq<FileInfo>, k: nat)
    requires k < |files|
    ensures FileSections(files[k..], k + 1) == FileBlocks(k + 1, files[k]) + FileSections(files[k + 1..], k + 2)
  {
    assert files[k..][1..] == files[k + 1..];
  }

  lemma Assemble<T>(x: seq<T>, a: seq<T>, b: seq<T>, c: seq<T>, d: seq<T>)
    ensures x + a + b + c + d == x + (a + b + c + d)
  {
  }

  /** `_add_file_contents_section`. */
  method AddFileContentsSection(fileContents: seq<FileInfo>) returns (story: seq<Block>)
    ensures story == Listing(fileContents)
  {
    story := [];
    story := story + [Para(CustomHeading1, ListingHeading)];
    assert story == [Para(CustomHeading1, ListingHeading)];
    assert fileContents[0..] == fileContents;
    for k := 0 to |fileContents|
      invariant story + FileSections(fileContents[k..], k + 1) == Listing(fileContents)
    {
      var i := k + 1;
      var fileInfo := fileContents[k];
      ghost var before := story;
      FileSectionsStep(fileContents, k);

      story := story + [Para(CustomHeading2, "File " + NatToString(i) + ": " + fileInfo.name)];
      var metadataText := "Size: " + FormatThousands(fileInfo.size) + " bytes | Type: " + fileInfo.kind;
      story := story + [Para(MetadataStyle, metadataText)];
      story := story + [Spacer(1, 6)];
      AppendThree(before, Para(CustomHeading2, FileTitle(i, fileInfo)), Para(MetadataStyle, MetadataText(fileInfo)), Spacer(1, 6));
      ghost var head := story;
      assert head == before + FileHeader(i, fileInfo);

      var content := fileInfo.content;
      if |content| > PreviewLimit {
        content := content[..PreviewLimit] + "\n\n" + ContentNotice;
      }
      var lines := Split(content, '\n');
      assert lines == FileLines(fileInfo);
      var shown := if |lines| > LineLimit then lines[..LineLimit] else lines;
      assert shown[..0] == [];
      for j := 0 to |shown|
        invariant story == head + LineBlocks(shown[..j])
      {
        LineBlocksSnoc(shown, j);
        Regroup(head, LineBlocks(shown[..j]), [LineBlock(shown[j])]);
        if Strip(shown[j]) != [] {
          story := story + [Para(CodeStyle, shown[j])];
        } else {
          story := story + [Spacer(1, 6)];
        }
        assert story == head + LineBlocks(shown[..j]) + [LineBlock(shown[j])];
      }
      assert shown[..|shown|] == shown;
      ghost var body := story;

      if |lines| > LineLimit {
        story := story + [Para(CodeStyle, LinesNotice)];
      }
      assert story == body + Notice(lines);
      ghost var noticed := story;
      story := story + [Spacer(1, 12)];
      story := story + [Para(CustomHeading2, "Complexity Graph for " + fileInfo.name)];
      story := story + [Image(fileInfo.name, 400, 300)];
      story := story + [Spacer(1, 20)];
      AppendFour(noticed, Spacer(1, 12), Para(CustomHeading2, ChartTitle(fileInfo)), Image(fileInfo.name, 400, 300), Spacer(1, 20));
      assert shown == Shown(FileLines(fileInfo));
      assert story == noticed + FileFooter(fileInfo);
      Assemble(before, FileHeader(i, fileInfo), LineBlocks(shown), Notice(lines), FileFooter(fileInfo));
      assert story == before + FileBlocks(i, fileInfo);
      Regroup(before, FileBlocks(i, fileInfo), FileSections(fileContents[k + 1..], k + 2));
      assert story + FileSections(fileContents[k + 1..], k + 2) == Listing(fileContents);
    }
  }

  // ---------------------------------------------------------------------
  // What the listing consists of
  // ---------------------------------------------------------------------

  /** The shape of one file's blocks: the header, one block per displayed
      line (at most `LineLimit`), the notice exactly when the text has more
      lines than that, and the chart footer. */
  lemma FileBlocksShape(i: nat, f: FileInfo)
    ensures var lines, fb := FileLines(f), FileBlocks(i, f);
      var m := |Shown(lines)|;
      m == (if |lines| > LineLimit then LineLimit else |lines|) &&
      |fb| == 7 + m + (if |lines| > LineLimit then 1 else 0) &&
      fb[0] == Para(CustomHeading2, "File " + NatToString(i) + ": " + f.name) &&
      fb[1] == Para(MetadataStyle, "Size: " + FormatThousands(f.size) + " bytes | Type: " + f.kind) &&
      fb[2] == Spacer(1, 6) &&
      (forall j :: 0 <= j < m ==> fb[3 + j] == LineBlock(lines[j])) &&
      fb[3 + m] == (if |lines| > LineLimit then Para(CodeStyle, LinesNotice) else Spacer(1, 12)) &&
      fb[|fb| - 4..] == [Spacer(1, 12), Para(CustomHeading2, "Complexity Graph for " + f.name), Image(f.name, 400, 300), Spacer(1, 20)]
  {
    var lines := FileLines(f);
    var h, l, n, t := FileHeader(i, f), LineBlocks(Shown(lines)), Notice(lines), FileFooter(f);
    var fb := FileBlocks(i, f);
    assert fb == h + l + n + t;
    forall j | 0 <= j < |l| ensures fb[3 + j] == LineBlock(lines[j]) {
      assert fb[3 + j] == l[j];
    }
    assert fb[|fb| - 4..] == t;
  }

  /** The second-level headings of a listing: for each file in input
      order, its number (from `first`) and name, then its chart title. */
  function Labels(files: seq<FileInfo>, first: nat): seq<string>
    decreases |files|
  {
    if files == [] then []
    else ["File " + NatToString(first) + ": " + files[0].name, "Complexity Graph for " + files[0].name] + Labels(files[1..], first + 1)
  }

  /** One 400 by 300 chart per file, in input order. */
  function Charts(files: seq<FileInfo>): seq<Block>
    decreases |files|
  {
    if files == [] then [] else [Image(files[0].name, 400, 300)] + Charts(files[1..])
  }

  lemma LineBlocksPlain(lines: seq<string>)
    ensures forall b :: b in LineBlocks(lines) + [Para(CodeStyle, LinesNotice)] ==>
      !b.Image? && !b.PageBreak? && !(b.Para? && b.style == CustomHeading2)
  {
  }

  lemma HeaderSummary(i: nat, f: FileInfo)
    ensures StyledTexts(FileHeader(i, f), CustomHeading2) == [FileTitle(i, f)]
    ensures Images(FileHeader(i, f)) == [] && PageBreaks(FileHeader(i, f)) == 0
  {
    var h := FileHeader(i, f);
    assert h == [h[0]] + [h[1]] + [h[2]];
    StyledTextsConcat([h[0]] + [h[1]], [h[2]], CustomHeading2);
    StyledTextsConcat([h[0]], [h[1]], CustomHeading2);
    ImagesConcat([h[0]] + [h[1]], [h[2]]);
    ImagesConcat([h[0]], [h[1]]);
    PageBreaksConcat([h[0]] + [h[1]], [h[2]]);
    PageBreaksConcat([h[0]], [h[1]]);
    OneBlock(h[0], CustomHeading2);
    OneBlock(h[1], CustomHeading2);
    OneBlock(h[2], CustomHeading2);
  }

  lemma FooterSummary(f: FileInfo)
    ensures StyledTexts(FileFooter(f), CustomHeading2) == [ChartTitle(f)]
    ensures Images(FileFooter(f)) == [Image(f.name, 400, 300)] && PageBreaks(FileFooter(f)) == 0
  {
    var t := FileFooter(f);
    FourBlocks(t[0], t[1], t[2], t[3], CustomHeading2);
    OneBlock(t[0], CustomHeading2);
    OneBlock(t[1], CustomHeading2);
    OneBlock(t[2], CustomHeading2);
    OneBlock(t[3], CustomHeading2);
  }

  lemma BodySummary(lines: seq<string>)
    ensures StyledTexts(LineBlocks(Shown(lines)) + Notice(lines), CustomHeading2) == []
    ensures Images(LineBlocks(Shown(lines)) + Notice(lines)) == []
    ensures PageBreaks(LineBlocks(Shown(lines)) + Notice(lines)) == 0
  {
    var body := LineBlocks(Shown(lines)) + Notice(lines);
    LineBlocksPlain(Shown(lines));
    assert forall b :: b in body ==> b in LineBlocks(Shown(lines)) + [Para(CodeStyle, LinesNotice)];
    NoStyledTexts(body, CustomHeading2);
    NoImages(body);
    NoPageBreaks(body);
  }

  lemma FileBlocksSummary(i: nat, f: FileInfo)
    ensures StyledTexts(FileBlocks(i, f), CustomHeading2) == ["File " + NatToString(i) + ": " + f.name, "Complexity Graph for " + f.name]
    ensures Images(FileBlocks(i, f)) == [Image(f.name, 400, 300)]
    ensures PageBreaks(FileBlocks(i, f)) == 0
  {
    var lines := FileLines(f);
    var h, body, t := FileHeader(i, f), LineBlocks(Shown(lines)) + Notice(lines), FileFooter(f);
    HeaderSummary(i, f);
    BodySummary(lines);
    FooterSummary(f);
    Regroup(h, LineBlocks(Shown(lines)), Notice(lines));
    assert FileBlocks(i, f) == h + body + t;
    StyledTextsConcat(h + body, t, CustomHeading2);
    StyledTextsConcat(h, body, CustomHeading2);
    ImagesConcat(h + body, t);
    ImagesConcat(h, body);
    PageBreaksConcat(h + body, t);
    PageBreaksConcat(h, body);
  }

  lemma {:induction false} FileSectionsSummary(files: seq<FileInfo>, first: nat)
    ensures StyledTexts(FileSections(files, first), CustomHeading2) == Labels(files, first)
    ensures Images(FileSections(files, first)) == Charts(files)
    ensures PageBreaks(FileSections(files, first)) == 0
    decreases |files|
  {
    if files != [] {
      FileBlocksSummary(first, files[0]);
      FileSectionsSummary(files[1..], first + 1);
      StyledTextsConcat(FileBlocks(first, files[0]), FileSections(files[1..], first + 1), CustomHeading2);
      ImagesConcat(FileBlocks(first, files[0]), FileSections(files[1..], first + 1));
      PageBreaksConcat(FileBlocks(first, files[0]), FileSections(files[1..], first + 1));
    }
  }

  /** The listing opens with its heading; its second-level headings number
      the files from 1 in input order, each followed by its chart title;
      there is one chart per file, in order, and no page break. */
  lemma ListingFacts(files: seq<FileInfo>)
    ensures Listing(files)[0] == Para(CustomHeading1, "Code Files Reviewed")
    ensures StyledTexts(Listing(files), CustomHeading2) == Labels(files, 1)
    ensures Images(Listing(files)) == Charts(files)
    ensures PageBreaks(Listing(files)) == 0
  {
    var hd := [Para(CustomHeading1, ListingHeading)];
    FileSectionsSummary(files, 1);
    OneBlock(hd[0], CustomHeading2);
    StyledTextsConcat(hd, FileSections(files, 1), CustomHeading2);
    ImagesConcat(hd, FileSections(files, 1));
    PageBreaksConcat(hd, FileSections(files, 1));
  }
}
