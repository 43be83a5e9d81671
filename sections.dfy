/** The section renderer of the PDF report (`_process_section`) and the
    review-text pass that feeds it (`_parse_markdown_content`): each
    section is cut into lines, every stripped line is classified, runs of
    plain text lines are joined into one paragraph, and headings, bullets
    and blank lines become their own layout blocks. */
module SectionRender {
  import opened Strings
  import opened Emphasis
  import opened Layout
  import opened HeaderSplit

  /** A stripped line of a section, by the first branch of the line loop
      that accepts it. `Subheading` is the `###` branch, which comes after
      the `##` one and so is never taken (`ClassifyFacts`). */
  datatype Line = Blank | Heading(title: string) | Subheading(title: string) | Bullet(item: string) | Text(line: string)

  function Classify(raw: string): Line {
    var line := Strip(raw);
    if line == [] then Blank
    else if StartsWith(line, "##") then Heading(Strip(RemoveAll(line, '#')))
    else if StartsWith(line, "###") then Subheading(Strip(RemoveAll(line, '#')))
    else if StartsWith(line, "- ") || StartsWith(line, "* ") then Bullet(Strip(line[2..]))
    else Text(line)
  }

  /** What the classification means: blank lines are exactly the
      whitespace-only ones, a heading is any line that starts with two
      hashes (so a `###` line is a first-level heading too) and its title
      is stripped and hash-free, and a text line is kept stripped and
      is neither heading nor bullet. A single `#` line is text. */
  lemma ClassifyFacts(raw: string)
    ensures Classify(raw) == Blank <==> IsBlank(raw)
    ensures Classify(raw).Heading? <==> StartsWith(Strip(raw), "##")
    ensures !Classify(raw).Subheading?
    ensures Classify(raw).Heading? ==> '#' !in Classify(raw).title && Strip(Classify(raw).title) == Classify(raw).title
    ensures Classify(raw).Bullet? ==> Strip(Classify(raw).item) == Classify(raw).item
    ensures Classify(raw).Text? ==>
      var t := Classify(raw).line;
      t == Strip(raw) && t != [] && Strip(t) == t &&
      !StartsWith(t, "##") && !StartsWith(t, "- ") && !StartsWith(t, "* ")
  {
    var line := Strip(raw);
    ThreeHashesStartTwo(line);
    StripFacts(raw);
    StripIdempotent(raw);
    if line != [] && StartsWith(line, "##") {
      StripIdempotent(RemoveAll(line, '#'));
      StripKeepsOut(RemoveAll(line, '#'), '#');
    } else if line != [] && (StartsWith(line, "- ") || StartsWith(line, "* ")) {
      StripIdempotent(line[2..]);
    }
  }

  /** A line starting with `###` also starts with `##`. */
  lemma ThreeHashesStartTwo(line: string)
    ensures StartsWith(line, "###") ==> StartsWith(line, "##")
  {
    if StartsWith(line, "###") {
      assert line[..2] == line[..3][..2];
    }
  }

  function ClassifyEach(lines: seq<string>): (r: seq<Line>)
    ensures |r| == |lines|
    ensures forall k :: 0 <= k < |lines| ==> r[k] == Classify(lines[k])
    decreases |lines|
  {
    if lines == [] then [] else [Classify(lines[0])] + ClassifyEach(lines[1..])
  }

  /** A run of text lines as one `Normal` paragraph, joined by spaces and
      cleaned of emphasis. */
  function Paragraph(para: seq<string>): Block {
    Para(Normal, CleanMarkdown(Join(para, " ")))
  }

  /** The pending paragraph, if any. */
  function Flush(para: seq<string>): seq<Block> {
    if para == [] then [] else [Paragraph(para)]
  }

  /** The blocks a non-text line adds after the pending paragraph. */
  function Emit(t: Line): seq<Block> {
    match t
    case Blank => [Spacer(1, 6)]
    case Heading(h) => [Para(CustomHeading1, h), Spacer(1, 6)]
    case Subheading(h) => [Para(CustomHeading2, h), Spacer(1, 4)]
    case Bullet(b) => [Para(Normal, "\U{2022} " + CleanMarkdown(b))]
    case Text(_) => []
  }

  /** Reference rendering of classified lines, with `para` the text lines
      collected since the last flush. */
  function Render(tokens: seq<Line>, para: seq<string>): seq<Block>
    decreases |tokens|
  {
    if tokens == [] then Flush(para)
    else if tokens[0].Text? then Render(tokens[1..], para + [tokens[0].line])
    else Flush(para) + Emit(tokens[0]) + Render(tokens[1..], [])
  }

  lemma RenderStep(tok: Line, rest: seq<Line>, para: seq<string>)
    ensures Render([tok] + rest, para) ==
      if tok.Text? then Render(rest, para + [tok.line]) else Flush(para) + Emit(tok) + Render(rest, [])
  {
    assert ([tok] + rest)[1..] == rest;
  }

  lemma AppendTwo<T>(x: seq<T>, a: T, b: T)
    ensures x + [a] + [b] == x + [a, b]
  {
  }

  /** The blocks one section renders to. */
  function SectionStory(section: string): seq<Block> {
    Render(ClassifyEach(Split(section, '\n')), [])
  }

  /** One pass of the line loop of `_process_section`: a text line joins
      the pending paragraph; any other line flushes it and adds its own
      blocks. */
  method ProcessLine(story: seq<Block>, currentParagraph: seq<string>, raw: string)
    returns (story': seq<Block>, currentParagraph': seq<string>)
    ensures var tok := Classify(raw);
      if tok.Text? then story' == story && currentParagraph' == currentParagraph + [tok.line]
      else story' == story + Flush(currentParagraph) + Emit(tok) && currentParagraph' == []
  {
    story', currentParagraph' := story, currentParagraph;
    var line := Strip(raw);
    ThreeHashesStartTwo(line);
    ghost var tok := Classify(raw);
    if line == [] {
      if currentParagraph' != [] {
        story' := story' + [Paragraph(currentParagraph')];
        currentParagraph' := [];
      }
      assert story' == story + Flush(currentParagraph);
      story' := story' + [Spacer(1, 6)];
      return;
    }

    if StartsWith(line, "##") {
      if currentParagraph' != [] {
        story' := story' + [Paragraph(currentParagraph')];
        currentParagraph' := [];
      }
      assert story' == story + Flush(currentParagraph);
      var headerText := Strip(RemoveAll(line, '#'));
      story' := story' + [Para(CustomHeading1, headerText)];
      story' := story' + [Spacer(1, 6)];
      assert tok == Heading(headerText);
      AppendTwo(story + Flush(currentParagraph), Para(CustomHeading1, headerText), Spacer(1, 6));
    } else if StartsWith(line, "###") {
      if currentParagraph' != [] {
        story' := story' + [Paragraph(currentParagraph')];
        currentParagraph' := [];
      }
      var headerText := Strip(RemoveAll(line, '#'));
      story' := story' + [Para(CustomHeading2, headerText)];
      story' := story' + [Spacer(1, 4)];
    } else if StartsWith(line, "- ") || StartsWith(line, "* ") {
      if currentParagraph' != [] {
        story' := story' + [Paragraph(currentParagraph')];
        currentParagraph' := [];
      }
      assert story' == story + Flush(currentParagraph);
      var bulletText := Strip(line[2..]);
      story' := story' + [Para(Normal, "\U{2022} " + CleanMarkdown(bulletText))];
      assert tok == Bullet(bulletText);
    } else {
      currentParagraph' := currentParagraph' + [line];
    }
  }

  /** The rendering left after a line equals the one before it, once the
      line's blocks are counted in. */
  lemma ProcessStep(tokens: seq<Line>, i: nat, before: seq<Block>, p0: seq<string>, story: seq<Block>, para: seq<string>)
    requires i < |tokens|
    requires var tok := tokens[i];
      if tok.Text? then story == before && para == p0 + [tok.line]
      else story == before + Flush(p0) + Emit(tok) && para == []
    ensures story + Render(tokens[i + 1..], para) == before + Render(tokens[i..], p0)
  {
    var tok, rest := tokens[i], tokens[i + 1..];
    assert tokens[i..] == [tok] + rest;
    RenderStep(tok, rest, p0);
    if !tok.Text? {
      Regroup(before, Flush(p0) + Emit(tok), Render(rest, []));
    }
  }

  /** `_process_section`. */
  method ProcessSection(section: string) returns (story: seq<Block>)
    ensures story == SectionStory(section)
  {
    story := [];
    var lines := Split(section, '\n');
    var currentParagraph: seq<string> := [];
    ghost var tokens := ClassifyEach(lines);
    assert tokens[0..] == tokens;
    for i := 0 to |lines|
      invariant story + Render(tokens[i..], currentParagraph) == Render(tokens, [])
    {
      ghost var before, p0 := story, currentParagraph;
      story, currentParagraph := ProcessLine(story, currentParagraph, lines[i]);
      ProcessStep(tokens, i, before, p0, story, currentParagraph);
    }
    assert tokens[|lines|..] == [];
    story := story + Flush(currentParagraph);
  }

  // ---------------------------------------------------------------------
  // What a rendered section consists of
  // ---------------------------------------------------------------------

  /** The lines that end a paragraph and leave a spacer behind. */
  function Breaks(tokens: seq<Line>): nat
    decreases |tokens|
  {
    if tokens == [] then 0
    else (if tokens[0].Blank? || tokens[0].Heading? || tokens[0].Subheading? then 1 else 0) + Breaks(tokens[1..])
  }

  /** The titles of the heading lines, in order. */
  function HeadingTitles(tokens: seq<Line>): seq<string>
    decreases |tokens|
  {
    if tokens == [] then [] else (if tokens[0].Heading? then [tokens[0].title] else []) + HeadingTitles(tokens[1..])
  }

  /** The text of the text lines, in order. */
  function Texts(tokens: seq<Line>): seq<string>
    decreases |tokens|
  {
    if tokens == [] then [] else (if tokens[0].Text? then [tokens[0].line] else []) + Texts(tokens[1..])
  }

  lemma FlushFacts(para: seq<string>)
    ensures Spacers(Flush(para)) == 0 && StyledTexts(Flush(para), CustomHeading1) == []
    ensures forall b :: b in Flush(para) ==> b.Para? && b.style == Normal
  {
    if para != [] {
      assert [Paragraph(para)][1..] == [];
    }
  }

  lemma EmitFacts(t: Line)
    requires !t.Text?
    ensures Spacers(Emit(t)) == (if t.Bullet? then 0 else 1)
    ensures StyledTexts(Emit(t), CustomHeading1) == (if t.Heading? then [t.title] else [])
  {
    var e := Emit(t);
    if |e| == 2 {
      assert e[1..] == [e[1]] && e[1..][1..] == [];
      assert Spacers(e) == Spacers([e[0]]) + Spacers([e[1]]) by { SpacersConcat([e[0]], [e[1]]); assert [e[0]] + [e[1]] == e; }
      assert StyledTexts(e, CustomHeading1) == StyledTexts([e[0]], CustomHeading1) + StyledTexts([e[1]], CustomHeading1) by { StyledTextsConcat([e[0]], [e[1]], CustomHeading1); assert [e[0]] + [e[1]] == e; }
    } else {
      assert e[1..] == [];
    }
  }

  /** Every blank line and every heading leaves exactly one spacer, and
      nothing else does. */
  lemma {:induction false} SpacerCount(tokens: seq<Line>, para: seq<string>)
    ensures Spacers(Render(tokens, para)) == Breaks(tokens)
    decreases |tokens|
  {
    if tokens == [] {
      FlushFacts(para);
    } else if tokens[0].Text? {
      SpacerCount(tokens[1..], para + [tokens[0].line]);
    } else {
      FlushFacts(para);
      EmitFacts(tokens[0]);
      SpacersConcat(Flush(para) + Emit(tokens[0]), Render(tokens[1..], []));
      SpacersConcat(Flush(para), Emit(tokens[0]));
      SpacerCount(tokens[1..], []);
    }
  }

  /** The first-level headings of the rendering are the heading lines'
      titles, in order. */
  lemma {:induction false} TitlesKept(tokens: seq<Line>, para: seq<string>)
    ensures StyledTexts(Render(tokens, para), CustomHeading1) == HeadingTitles(tokens)
    decreases |tokens|
  {
    if tokens == [] {
      FlushFacts(para);
    } else if tokens[0].Text? {
      TitlesKept(tokens[1..], para + [tokens[0].line]);
    } else {
      FlushFacts(para);
      EmitFacts(tokens[0]);
      StyledTextsConcat(Flush(para) + Emit(tokens[0]), Render(tokens[1..], []), CustomHeading1);
      StyledTextsConcat(Flush(para), Emit(tokens[0]), CustomHeading1);
      TitlesKept(tokens[1..], []);
    }
  }

  /** A run of text lines only extends the pending paragraph: it all ends
      up in one paragraph. */
  lemma {:induction false} TextRun(tokens: seq<Line>, para: seq<string>)
    requires forall t :: t in tokens ==> t.Text?
    ensures Render(tokens, para) == Flush(para + Texts(tokens))
    decreases |tokens|
  {
    if tokens == [] {
      assert para + [] == para;
    } else {
      assert tokens[0] in tokens;
      assert forall t :: t in tokens[1..] ==> t in tokens;
      TextRun(tokens[1..], para + [tokens[0].line]);
      assert para + [tokens[0].line] + Texts(tokens[1..]) == para + Texts(tokens);
    }
  }

  /** The first non-text line flushes the text lines before it as one
      paragraph, then adds its own blocks, and rendering starts afresh. */
  lemma {:induction false} RenderAfterTexts(texts: seq<Line>, x: Line, rest: seq<Line>, para: seq<string>)
    requires forall t :: t in texts ==> t.Text?
    requires !x.Text?
    ensures Render(texts + [x] + rest, para) == Flush(para + Texts(texts)) + Emit(x) + Render(rest, [])
    decreases |texts|
  {
    if texts == [] {
      assert texts + [x] + rest == [x] + rest;
      RenderStep(x, rest, para);
      assert para + [] == para;
    } else {
      var t := texts[0];
      assert t in texts;
      assert forall u :: u in texts[1..] ==> u in texts;
      assert texts + [x] + rest == [t] + (texts[1..] + [x] + rest);
      RenderStep(t, texts[1..] + [x] + rest, para);
      RenderAfterTexts(texts[1..], x, rest, para + [t.line]);
      assert para + [t.line] + Texts(texts[1..]) == para + Texts(texts);
    }
  }

  /** The blocks a section can hold: normal paragraphs, first-level
      headings and the six-point spacer. */
  predicate SectionBlock(b: Block) {
    b == Spacer(1, 6) || (b.Para? && (b.style == Normal || b.style == CustomHeading1))
  }

  lemma {:induction false} RenderBlocks(tokens: seq<Line>, para: seq<string>)
    requires forall t :: t in tokens ==> !t.Subheading?
    ensures forall b :: b in Render(tokens, para) ==> SectionBlock(b)
    decreases |tokens|
  {
    FlushFacts(para);
    if tokens != [] {
      assert tokens[0] in tokens;
      assert forall t :: t in tokens[1..] ==> t in tokens;
      if tokens[0].Text? {
        RenderBlocks(tokens[1..], para + [tokens[0].line]);
      } else {
        RenderBlocks(tokens[1..], []);
      }
    }
  }

  lemma NoSubheadings(lines: seq<string>)
    ensures forall t :: t in ClassifyEach(lines) ==> !t.Subheading?
  {
    forall t | t in ClassifyEach(lines) ensures !t.Subheading? {
      var k :| 0 <= k < |lines| && ClassifyEach(lines)[k] == t;
      ClassifyFacts(lines[k]);
    }
  }

  /** A rendered section: only normal paragraphs, first-level headings and
      six-point spacers (the `###` branch is never taken), one spacer per
      blank or heading line, and the headings' titles in line order. */
  lemma SectionFacts(section: string)
    ensures forall b :: b in SectionStory(section) ==> SectionBlock(b)
    ensures Spacers(SectionStory(section)) == Breaks(ClassifyEach(Split(section, '\n')))
    ensures StyledTexts(SectionStory(section), CustomHeading1) == HeadingTitles(ClassifyEach(Split(section, '\n')))
  {
    var tokens := ClassifyEach(Split(section, '\n'));
    NoSubheadings(Split(section, '\n'));
    RenderBlocks(tokens, []);
    SpacerCount(tokens, []);
    TitlesKept(tokens, []);
  }

  // ---------------------------------------------------------------------
  // The review text
  // ---------------------------------------------------------------------

  /** The sections' stories in order, skipping whitespace-only sections. */
  function Stories(sections: seq<string>): seq<Block>
    decreases |sections|
  {
    if sections == [] then []
    else (if Strip(sections[0]) != [] then SectionStory(sections[0]) else []) + Stories(sections[1..])
  }

  /** The sections' stories in order, none skipped. */
  function AllStories(sections: seq<string>): seq<Block>
    decreases |sections|
  {
    if sections == [] then [] else SectionStory(sections[0]) + AllStories(sections[1..])
  }

  /** The blocks the review text renders to (the HTML conversion the
      source computes and never uses is not modelled). */
  function ReviewStory(markdownContent: string): seq<Block> {
    Stories(Chunks(ReSplit(markdownContent)))
  }

  /** `_parse_markdown_content`. */
  method ParseMarkdownContent(markdownContent: string) returns (story: seq<Block>)
    ensures story == ReviewStory(markdownContent)
  {
    story := [];
    var sections := SplitByHeaders(markdownContent);
    assert sections[0..] == sections;
    for i := 0 to |sections|
      invariant story + Stories(sections[i..]) == Stories(sections)
    {
      ghost var before := story;
      ghost var head := if Strip(sections[i]) != [] then SectionStory(sections[i]) else [];
      StoriesStep(sections, i);
      if Strip(sections[i]) != [] {
        var blocks := ProcessSection(sections[i]);
        story := story + blocks;
      }
      assert story == before + head;
      Regroup(before, head, Stories(sections[i + 1..]));
    }
  }

  lemma StoriesStep(sections: seq<string>, i: nat)
    requires i < |sections|
    ensures Stories(sections[i..]) ==
      (if Strip(sections[i]) != [] then SectionStory(sections[i]) else []) + Stories(sections[i + 1..])
  {
    assert sections[i..][1..] == sections[i + 1..];
  }

  /** The emptiness test skips nothing the splitter produces: every chunk
      has a non-whitespace character. */
  lemma {:induction false} StoriesOfNonBlank(sections: seq<string>)
    requires forall c :: c in sections ==> !IsBlank(c)
    ensures Stories(sections) == AllStories(sections)
    decreases |sections|
  {
    if sections != [] {
      assert sections[0] in sections;
      StripFacts(sections[0]);
      assert forall c :: c in sections[1..] ==> c in sections;
      StoriesOfNonBlank(sections[1..]);
    }
  }

  lemma ReviewStoryAll(markdownContent: string)
    ensures ReviewStory(markdownContent) == AllStories(Chunks(ReSplit(markdownContent)))
  {
    SplitChunks(markdownContent);
    StoriesOfNonBlank(Chunks(ReSplit(markdownContent)));
  }

  lemma {:induction false} StoriesBlocks(sections: seq<string>)
    ensures forall b :: b in Stories(sections) ==> SectionBlock(b)
    decreases |sections|
  {
    if sections != [] {
      SectionFacts(sections[0]);
      StoriesBlocks(sections[1..]);
    }
  }

  /** The review part of the report holds no page break, no chart and no
      second-level heading: only the blocks a section can hold. */
  lemma ReviewStoryBlocks(markdownContent: string)
    ensures forall b :: b in ReviewStory(markdownContent) ==> SectionBlock(b)
    ensures PageBreaks(ReviewStory(markdownContent)) == 0
    ensures Images(ReviewStory(markdownContent)) == []
  {
    StoriesBlocks(Chunks(ReSplit(markdownContent)));
    NoPageBreaks(ReviewStory(markdownContent));
    NoImages(ReviewStory(markdownContent));
  }

  /** Review text without a `##`/`###` line boundary is one section: its
      stripped text, or nothing at all when it is blank. */
  lemma ReviewWithoutHeaders(markdownContent: string)
    requires NoBoundaryFrom(markdownContent, 0)
    ensures ReviewStory(markdownContent) ==
      if IsBlank(markdownContent) then [] else SectionStory(Strip(markdownContent))
  {
    SplitWithoutBoundary(markdownContent);
    if !IsBlank(markdownContent) {
      var c := Strip(markdownContent);
      StripFacts(markdownContent);
      StripIdempotent(markdownContent);
      assert Chunks(ReSplit(markdownContent)) == [c];
      assert Strip(c) != [];
      assert Stories([c]) == SectionStory(c) + Stories([c][1..]);
      assert [c][1..] == [];
      assert SectionStory(c) + [] == SectionStory(c);
    }
  }

  /** The paragraph text is cleaned after its lines are joined, so an
      emphasis span can open on one line and close on the next even though
      the review was cleaned line by line before: here neither line has a
      span of its own. */
  lemma ParagraphJoinsSpans(x: string, y1: string, y2: string, z: string)
    requires Plain(x) && Plain(y1) && Plain(y2) && Plain(z)
    ensures CleanMarkdown(x + "*" + y1) == x + "*" + y1
    ensures CleanMarkdown(y2 + "*" + z) == y2 + "*" + z
    ensures Paragraph([x + "*" + y1, y2 + "*" + z]) == Para(Normal, x + "<i>" + y1 + " " + y2 + "</i>" + z)
  {
    OneStarLine(x, y1);
    OneStarLine(y2, z);
    var a, b := x + "*" + y1, y2 + "*" + z;
    assert [a, b][1..] == [b];
    assert Join([a, b], " ") == a + " " + b;
    var y := y1 + " " + y2;
    assert Plain(y);
    MiddleRegroup(x, "*", y1, " ", y2, z);
    CleanItalicSpan(x, y, z);
    SpanRegroup(x, "<i>", y1, " ", y2, "</i>", z);
  }

  lemma MiddleRegroup<T>(x: seq<T>, d: seq<T>, y1: seq<T>, sp: seq<T>, y2: seq<T>, z: seq<T>)
    ensures x + d + y1 + sp + (y2 + d + z) == x + d + (y1 + sp + y2) + d + z
  {
  }

  lemma SpanRegroup<T>(x: seq<T>, o: seq<T>, y1: seq<T>, sp: seq<T>, y2: seq<T>, c: seq<T>, z: seq<T>)
    ensures x + o + y1 + sp + y2 + c + z == x + o + (y1 + sp + y2) + c + z
  {
  }

  /** A line with a single `*` between plain parts is left as it is. */
  lemma OneStarLine(x: string, y: string)
    requires Plain(x) && Plain(y)
    ensures CleanMarkdown(x + "*" + y) == x + "*" + y
  {
    OccurrencesConcat(x + "*", y, '*');
    OccurrencesConcat(x, "*", '*');
    OccurrencesAbsent(x, '*');
    OccurrencesAbsent(y, '*');
    OneStarUnchanged(x + "*" + y, "**", BoldTags);
    OneStarUnchanged(x + "*" + y, "*", ItalicTags);
  }
}
