/** The layout objects the report is built from, as plain values: a
    paragraph with its style name, a vertical spacer, a table of text
    cells, an embedded chart image and a page break. Styles are names only;
    their fonts, colours and spacing are not part of this model. */
module Layout {

  /** The paragraph styles the report uses by name. */
  datatype Style = CustomTitle | CustomHeading1 | CustomHeading2 | CodeStyle | MetadataStyle | Normal

  datatype Block =
    | Para(style: Style, text: string)
    | Spacer(width: int, height: int)
    | Table(rows: seq<seq<string>>)
    | Image(chart: string, width: int, height: int)
    | PageBreak

  /** The number of page breaks among `blocks`. */
  function PageBreaks(blocks: seq<Block>): nat
    decreases |blocks|
  {
    if blocks == [] then 0 else (if blocks[0].PageBreak? then 1 else 0) + PageBreaks(blocks[1..])
  }

  lemma {:induction false} PageBreaksConcat(a: seq<Block>, b: seq<Block>)
    ensures PageBreaks(a + b) == PageBreaks(a) + PageBreaks(b)
    decreases |a|
  {
    if a == [] {
      assert a + b == b;
    } else {
      assert (a + b)[1..] == a[1..] + b;
      PageBreaksConcat(a[1..], b);
    }
  }

  lemma {:induction false} NoPageBreaks(blocks: seq<Block>)
    requires forall b :: b in blocks ==> !b.PageBreak?
    ensures PageBreaks(blocks) == 0
    decreases |blocks|
  {
    if blocks != [] {
      assert blocks[0] in blocks;
      assert forall b :: b in blocks[1..] ==> b in blocks;
      NoPageBreaks(blocks[1..]);
    }
  }

  /** The charts among `blocks`, in order. */
  function Images(blocks: seq<Block>): seq<Block>
    decreases |blocks|
  {
    if blocks == [] then [] else (if blocks[0].Image? then [blocks[0]] else []) + Images(blocks[1..])
  }

  lemma {:induction false} ImagesConcat(a: seq<Block>, b: seq<Block>)
    ensures Images(a + b) == Images(a) + Images(b)
    decreases |a|
  {
    if a == [] {
      assert a + b == b;
    } else {
      assert (a + b)[1..] == a[1..] + b;
      ImagesConcat(a[1..], b);
      assert Images(a + b) == (if a[0].Image? then [a[0]] else []) + (Images(a[1..]) + Images(b));
    }
  }

  lemma {:induction false} NoImages(blocks: seq<Block>)
    requires forall b :: b in blocks ==> !b.Image?
    ensures Images(blocks) == []
    decreases |blocks|
  {
    if blocks != [] {
      assert blocks[0] in blocks;
      assert forall b :: b in blocks[1..] ==> b in blocks;
      NoImages(blocks[1..]);
    }
  }

  /** The number of spacers among `blocks`. */
  function Spacers(blocks: seq<Block>): nat
    decreases |blocks|
  {
    if blocks == [] then 0 else (if blocks[0].Spacer? then 1 else 0) + Spacers(blocks[1..])
  }

  lemma {:induction false} SpacersConcat(a: seq<Block>, b: seq<Block>)
    ensures Spacers(a + b) == Spacers(a) + Spacers(b)
    decreases |a|
  {
    if a == [] {
      assert a + b == b;
    } else {
      assert (a + b)[1..] == a[1..] + b;
      SpacersConcat(a[1..], b);
    }
  }

  /** The texts of the paragraphs of style `style` among `blocks`, in order. */
  function StyledTexts(blocks: seq<Block>, style: Style): seq<string>
    decreases |blocks|
  {
    if blocks == [] then []
    else (if blocks[0].Para? && blocks[0].style == style then [blocks[0].text] else []) + StyledTexts(blocks[1..], style)
  }

  lemma {:induction false} StyledTextsConcat(a: seq<Block>, b: seq<Block>, style: Style)
    ensures StyledTexts(a + b, style) == StyledTexts(a, style) + StyledTexts(b, style)
    decreases |a|
  {
    if a == [] {
      assert a + b == b;
    } else {
      assert (a + b)[1..] == a[1..] + b;
      StyledTextsConcat(a[1..], b, style);
      assert StyledTexts(a + b, style) ==
        (if a[0].Para? && a[0].style == style then [a[0].text] else []) + (StyledTexts(a[1..], style) + StyledTexts(b, style));
    }
  }

  lemma {:induction false} NoStyledTexts(blocks: seq<Block>, style: Style)
    requires forall b :: b in blocks ==> !(b.Para? && b.style == style)
    ensures StyledTexts(blocks, style) == []
    decreases |blocks|
  {
    if blocks != [] {
      assert blocks[0] in blocks;
      assert forall b :: b in blocks[1..] ==> b in blocks;
      NoStyledTexts(blocks[1..], style);
    }
  }

  /** The three summaries of a four-block sequence, block by block. */
  lemma FourBlocks(a: Block, b: Block, c: Block, d: Block, style: Style)
    ensures StyledTexts([a, b, c, d], style) ==
      StyledTexts([a], style) + StyledTexts([b], style) + StyledTexts([c], style) + StyledTexts([d], style)
    ensures Images([a, b, c, d]) == Images([a]) + Images([b]) + Images([c]) + Images([d])
    ensures PageBreaks([a, b, c, d]) == PageBreaks([a]) + PageBreaks([b]) + PageBreaks([c]) + PageBreaks([d])
  {
    assert [a, b, c, d] == [a] + [b] + [c] + [d];
    StyledTextsConcat([a] + [b] + [c], [d], style);
    StyledTextsConcat([a] + [b], [c], style);
    StyledTextsConcat([a], [b], style);
    ImagesConcat([a] + [b] + [c], [d]);
    ImagesConcat([a] + [b], [c]);
    ImagesConcat([a], [b]);
    PageBreaksConcat([a] + [b] + [c], [d]);
    PageBreaksConcat([a] + [b], [c]);
    PageBreaksConcat([a], [b]);
  }

  lemma OneBlock(a: Block, style: Style)
    ensures StyledTexts([a], style) == if a.Para? && a.style == style then [a.text] else []
    ensures Images([a]) == if a.Image? then [a] else []
    ensures PageBreaks([a]) == if a.PageBreak? then 1 else 0
  {
    assert [a][1..] == [];
  }
}
