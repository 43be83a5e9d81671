/** The report assembler (`generate_report`): the order of the report's
    parts and the name of the file it is written to. Writing the PDF is
    not modelled; whether it fails, and with what message, is a parameter. */
module ReportAssembly {
  import opened Strings
  import opened Emphasis
  import opened Layout
  import opened HeaderSplit
  import opened SectionRender
  import opened Clock
  import opened FileListing
  import opened MetadataTable

  datatype Result<T> = Success(value: T) | Failure(error: string)

  const ReportTitle: string := "Code Review Report"
  const FailurePrefix: string := "Failed to generate PDF report: "

  /** `os.path.join(dir, name)` on POSIX. */
  function PathJoin(dir: string, name: string): string {
    if StartsWith(name, "/") then name
    else if dir == [] || dir[|dir| - 1] == '/' then dir + name
    else dir + "/" + name
  }

  /** The file name of a report made at the reading stamped `stamp`. */
  function ReportName(stamp: string): string {
    "code_review_report_" + stamp + ".pdf"
  }

  /** The report path for the reading `now`. */
  function ReportPath(reportsDir: string, now: DateTime): string {
    PathJoin(reportsDir, ReportName(FileStamp(now)))
  }

  /** Everything in front of the page break. */
  function FrontMatter(fileContents: seq<FileInfo>, metadata: ReportMetadata, tableClock: DateTime): seq<Block> {
    [Para(CustomTitle, ReportTitle), Spacer(1, 20)] + MetadataSection(metadata, |fileContents|, tableClock) +
    [Spacer(1, 20)] + Listing(fileContents)
  }

  /** The report's blocks: the title, the report information, the file
      listing, one page break and the review, whose emphasis is cleaned
      once here before its sections are rendered. */
  function ReportStory(fileContents: seq<FileInfo>, reviewContent: string, metadata: ReportMetadata, tableClock: DateTime): seq<Block> {
    FrontMatter(fileContents, metadata, tableClock) + [PageBreak] + ReviewStory(CleanMarkdown(reviewContent))
  }

  /** `generate_report`, with the two clock readings it takes (one for
      the file name, one for the table) and the outcome of writing the
      document as parameters. Returns the outcome and the blocks built. */
  method GenerateReport(reportsDir: string, fileContents: seq<FileInfo>, reviewContent: string,
                        metadata: ReportMetadata, fileClock: DateTime, tableClock: DateTime,
                        buildError: Option<string>)
    returns (result: Result<string>, story: seq<Block>)
    ensures story == ReportStory(fileContents, reviewContent, metadata, tableClock)
    ensures buildError.None? ==> result == Success(ReportPath(reportsDir, fileClock))
    ensures buildError.Some? ==> result == Failure(FailurePrefix + buildError.value)
  {
    var timestamp := FileStamp(fileClock);
    var filename := "code_review_report_" + timestamp + ".pdf";
    var filepath := PathJoin(reportsDir, filename);

    story := [];
    story := story + [Para(CustomTitle, "Code Review Report")];
    story := story + [Spacer(1, 20)];

    var metadataBlocks := AddMetadataSection(metadata, fileContents, tableClock);
    story := story + metadataBlocks;
    story := story + [Spacer(1, 20)];

    var fileBlocks := AddFileContentsSection(fileContents);
    story := story + fileBlocks;
    story := story + [PageBreak];

    var cleaned := CleanMarkdown(reviewContent);
    var reviewBlocks := ParseMarkdownContent(cleaned);
    story := story + reviewBlocks;
    Assembly(metadataBlocks, fileBlocks, reviewBlocks);

    if buildError.Some? {
      result := Failure("Failed to generate PDF report: " + buildError.value);
    } else {
      result := Success(filepath);
    }
  }

  /** The appends of `generate_report`, regrouped into front matter, page
      break and review. */
  lemma Assembly(info: seq<Block>, listing: seq<Block>, review: seq<Block>)
    ensures [] + [Para(CustomTitle, ReportTitle)] + [Spacer(1, 20)] + info + [Spacer(1, 20)] + listing + [PageBreak] + review ==
      ([Para(CustomTitle, ReportTitle), Spacer(1, 20)] + info + [Spacer(1, 20)] + listing) + [PageBreak] + review
  {
  }

  /** Where the parts sit in front matter made of `info` and `listing`. */
  lemma FrontShape(info: seq<Block>, listing: seq<Block>)
    requires |info| == 3
    ensures var front := [Para(CustomTitle, ReportTitle), Spacer(1, 20)] + info + [Spacer(1, 20)] + listing;
      |front| == 6 + |listing| && front[0] == Para(CustomTitle, ReportTitle) && front[1] == Spacer(1, 20) &&
      front[2..5] == info && front[5] == Spacer(1, 20) && front[6..] == listing
  {
    var head := [Para(CustomTitle, ReportTitle), Spacer(1, 20)] + info + [Spacer(1, 20)];
    assert head[2..5] == info;
    Cut(head, listing);
  }

  /** The summaries of front matter whose parts hold no page break. */
  lemma FrontSummary(info: seq<Block>, listing: seq<Block>)
    requires forall b :: b in info ==> !b.PageBreak? && !b.Image?
    requires PageBreaks(listing) == 0
    ensures var front := [Para(CustomTitle, ReportTitle), Spacer(1, 20)] + info + [Spacer(1, 20)] + listing;
      PageBreaks(front) == 0 && Images(front) == Images(listing)
  {
    var head := [Para(CustomTitle, ReportTitle), Spacer(1, 20)] + info + [Spacer(1, 20)];
    assert forall b :: b in head ==> !b.PageBreak? && !b.Image?;
    NoPageBreaks(head);
    NoImages(head);
    PageBreaksConcat(head, listing);
    ImagesConcat(head, listing);
  }

  lemma FrontMatterFacts(fileContents: seq<FileInfo>, metadata: ReportMetadata, tableClock: DateTime)
    ensures var front := FrontMatter(fileContents, metadata, tableClock);
      |front| == 6 + |Listing(fileContents)| &&
      front[0] == Para(CustomTitle, ReportTitle) && front[1] == Spacer(1, 20) &&
      front[2..5] == MetadataSection(metadata, |fileContents|, tableClock) && front[5] == Spacer(1, 20) &&
      front[6..] == Listing(fileContents)
    ensures PageBreaks(FrontMatter(fileContents, metadata, tableClock)) == 0
    ensures Images(FrontMatter(fileContents, metadata, tableClock)) == Charts(fileContents)
  {
    var info := MetadataSection(metadata, |fileContents|, tableClock);
    ListingFacts(fileContents);
    FrontShape(info, Listing(fileContents));
    FrontSummary(info, Listing(fileContents));
  }

  /** Where the parts sit in `front + [PageBreak] + review`. */
  lemma StoryShape(front: seq<Block>, review: seq<Block>)
    requires PageBreaks(front) == 0 && PageBreaks(review) == 0
    ensures var story := front + [PageBreak] + review;
      |story| == |front| + 1 + |review| && story[..|front|] == front && story[|front|] == PageBreak &&
      story[|front| + 1..] == review && PageBreaks(story) == 1 &&
      Images(story) == Images(front) + Images(review)
  {
    OneBlock(PageBreak, Normal);
    PageBreaksConcat(front + [PageBreak], review);
    PageBreaksConcat(front, [PageBreak]);
    ImagesConcat(front + [PageBreak], review);
    ImagesConcat(front, [PageBreak]);
    Cut(front + [PageBreak], review);
  }

  /** The report's layout: title, spacer, report information, spacer, the
      file listing, then the only page break, and after it exactly the
      blocks of the cleaned review; the charts are the files' charts, in
      order. */
  lemma ReportLayout(fileContents: seq<FileInfo>, reviewContent: string, metadata: ReportMetadata, tableClock: DateTime)
    ensures var story, n := ReportStory(fileContents, reviewContent, metadata, tableClock), |Listing(fileContents)|;
      |story| >= 7 + n &&
      story[0] == Para(CustomTitle, ReportTitle) && story[1] == Spacer(1, 20) &&
      story[2..5] == MetadataSection(metadata, |fileContents|, tableClock) && story[5] == Spacer(1, 20) &&
      story[6..6 + n] == Listing(fileContents) && story[6 + n] == PageBreak &&
      story[7 + n..] == ReviewStory(CleanMarkdown(reviewContent))
    ensures PageBreaks(ReportStory(fileContents, reviewContent, metadata, tableClock)) == 1
    ensures Images(ReportStory(fileContents, reviewContent, metadata, tableClock)) == Charts(fileContents)
  {
    var front := FrontMatter(fileContents, metadata, tableClock);
    var review := ReviewStory(CleanMarkdown(reviewContent));
    FrontMatterFacts(fileContents, metadata, tableClock);
    ReviewStoryBlocks(CleanMarkdown(reviewContent));
    StoryShape(front, review);
    PrefixSlices(front + [PageBreak] + review, front);
  }

  lemma PrefixSlices(story: seq<Block>, front: seq<Block>)
    requires 6 <= |front| <= |story| && story[..|front|] == front
    ensures story[0] == front[0] && story[1] == front[1] && story[5] == front[5]
    ensures story[2..5] == front[2..5] && story[6..|front|] == front[6..]
  {
    assert story[2..5] == story[..|front|][2..5];
    assert story[6..|front|] == story[..|front|][6..];
  }

  /** The report file sits in the reports directory under its own name. */
  lemma ReportPathFacts(reportsDir: string, now: DateTime)
    ensures var p, name := ReportPath(reportsDir, now), ReportName(FileStamp(now));
      |name| <= |p| && p[|p| - |name|..] == name &&
      (reportsDir != [] && reportsDir[|reportsDir| - 1] != '/' ==> p == reportsDir + "/" + name)
  {
    var name := ReportName(FileStamp(now));
    assert name[0] == 'c';
    assert !StartsWith(name, "/");
  }

  /** Two reports get the same name exactly when they are made in the same
      second: a second report made within that second overwrites the first. */
  lemma ReportNameInjective(t1: DateTime, t2: DateTime)
    requires Valid(t1) && Valid(t2)
    ensures ReportName(FileStamp(t1)) == ReportName(FileStamp(t2)) <==> t1 == t2
  {
    if ReportName(FileStamp(t1)) == ReportName(FileStamp(t2)) {
      FileStampRoundTrip(t1);
      FileStampRoundTrip(t2);
      var p := "code_review_report_";
      assert FileStamp(t1) == ReportName(FileStamp(t1))[|p|..|p| + 15];
      assert FileStamp(t2) == ReportName(FileStamp(t2))[|p|..|p| + 15];
    }
    FileStampInjective(t1, t2);
  }
}
