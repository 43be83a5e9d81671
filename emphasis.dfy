/** The markdown emphasis cleaner of the PDF renderer
    (`PDFGenerator._clean_markdown_bold`): two regular-expression
    substitutions, `\*\*(.*?)\*\*` to `<b>\1</b>` and then `\*(.*?)\*`
    to `<i>\1</i>`, written out by hand over strings. */
module Emphasis {
  import opened Strings

  /** The delimiter `d` occurs in `t` starting at index `j`. */
  predicate OccursAt(t: string, d: string, j: nat) {
    j + |d| <= |t| && t[j..j + |d|] == d
  }

  /** Where the lazy group `(.*?)` followed by the closing delimiter `d`
      first succeeds on `t`: the group grows one character at a time, the
      delimiter is tried before each growth, and `.` refuses a line break. */
  function FindClose(t: string, d: string): (r: Option<nat>)
    requires d != [] && '\n' !in d
    ensures r.Some? ==> OccursAt(t, d, r.value) && '\n' !in t[..r.value]
    decreases |t|
  {
    if |t| < |d| then None
    else if t[..|d|] == d then Some(0)
    else if t[0] == '\n' then None
    else match FindClose(t[1..], d)
      case None => None
      case Some(k) =>
        assert t[..k + 1] == [t[0]] + t[1..][..k];
        assert t[k + 1..k + 1 + |d|] == t[1..][k..k + |d|];
        Some(k + 1)
  }

  lemma OccursShift(t: string, d: string, j: nat)
    requires t != []
    ensures OccursAt(t, d, j + 1) == OccursAt(t[1..], d, j)
    ensures j + 1 <= |t| ==> ('\n' in t[..j + 1] <==> t[0] == '\n' || '\n' in t[1..][..j])
  {
    if j + 1 + |d| <= |t| {
      assert t[j + 1..j + 1 + |d|] == t[1..][j..j + |d|];
    }
    if j + 1 <= |t| {
      assert t[..j + 1] == [t[0]] + t[1..][..j];
    }
  }

  /** `FindClose` is the non-greedy match: it finds the FIRST occurrence of
      the delimiter on the current line, and when it finds none there is no
      occurrence before the next line break. */
  lemma {:induction false} FindCloseIsFirst(t: string, d: string)
    requires d != [] && '\n' !in d
    ensures FindClose(t, d).Some? ==>
      forall j :: 0 <= j < FindClose(t, d).value ==> !OccursAt(t, d, j)
    ensures FindClose(t, d).None? ==>
      forall j :: 0 <= j <= |t| && '\n' !in t[..j] ==> !OccursAt(t, d, j)
    decreases |t|
  {
    if |t| < |d| {
    } else if t[..|d|] == d {
    } else if t[0] == '\n' {
      forall j | 0 < j <= |t| ensures '\n' in t[..j] { assert t[..j][0] == t[0]; }
    } else {
      FindCloseIsFirst(t[1..], d);
      forall j | 0 <= j <= |t| && '\n' !in t[..j] && (FindClose(t, d).Some? ==> j < FindClose(t, d).value)
        ensures !OccursAt(t, d, j)
      {
        if j > 0 {
          OccursShift(t, d, j - 1);
        }
      }
    }
  }

  /** A line break inside the first |d| characters rules out the delimiter there. */
  lemma NewlineIsNotDelimiter(t: string, d: string, i: nat)
    requires '\n' !in d && i < |d| <= |t| && t[i] == '\n'
    ensures t[..|d|] != d
  {
    assert t[..|d|][i] == '\n';
  }

  /** The length of the group when `s` starts with an opening delimiter that
      has a closing partner on the same line (where `re.sub` finds a match
      at the start of `s`), and None otherwise. */
  function MatchAt(s: string, d: string): (r: Option<nat>)
    requires d != [] && '\n' !in d
    ensures r.Some? ==> |d| + r.value + |d| <= |s|
  {
    if |d| <= |s| && s[..|d|] == d then FindClose(s[|d|..], d) else None
  }

  /** The replacement `<tag>\1</tag>`: the opening tag, the group, the closing tag. */
  function Wrap(tag: Tags, body: string): string {
    tag.open + body + tag.close
  }

  /** The two halves of a replacement template `<x>\1</x>`. */
  datatype Tags = Tags(open: string, close: string)

  const BoldTags := Tags("<b>", "</b>")
  const ItalicTags := Tags("<i>", "</i>")

  /** `re.sub(D + "(.*?)" + D, "<x>\\1</x>", s)` for a delimiter `D` of
      literal characters: scan left to right; where `D` is followed by a
      closing `D` on the same line, replace the pair and resume after the
      closing delimiter, otherwise copy one character and move on. */
  function Substitute(s: string, d: string, tag: Tags): (r: string)
    requires d != [] && '\n' !in d
    decreases |s|
  {
    if s == [] then []
    else match MatchAt(s, d)
      case Some(k) => Wrap(tag, s[|d|..|d| + k]) + Substitute(s[|d| + k + |d|..], d, tag)
      case None => [s[0]] + Substitute(s[1..], d, tag)
  }

  /** The bold pass `re.sub(r"\*\*(.*?)\*\*", r"<b>\1</b>", text)`. */
  function Bold(s: string): string {
    Substitute(s, "**", BoldTags)
  }

  /** The italic pass `re.sub(r"\*(.*?)\*", r"<i>\1</i>", text)`. */
  function Italic(s: string): string {
    Substitute(s, "*", ItalicTags)
  }

  /** `_clean_markdown_bold`: the bold pass, then the italic pass on its output. */
  function CleanMarkdown(s: string): string {
    Italic(Bold(s))
  }

  // ---------------------------------------------------------------------
  // Text without the delimiter is left alone
  // ---------------------------------------------------------------------

  lemma {:induction false} SubstituteWithoutDelimiter(s: string, d: string, tag: Tags)
    requires d != [] && '\n' !in d
    requires d[0] !in s
    ensures Substitute(s, d, tag) == s
    decreases |s|
  {
    if s != [] {
      assert MatchAt(s, d).None? by { assert s[0] != d[0]; if |d| <= |s| { assert s[..|d|][0] != d[0]; } }
      assert d[0] !in s[1..] by { assert forall x :: x in s[1..] ==> x in s; }
      SubstituteWithoutDelimiter(s[1..], d, tag);
    }
  }

  /** Text with no `*` comes out of the cleaner unchanged. */
  lemma CleanWithoutStars(s: string)
    requires '*' !in s
    ensures CleanMarkdown(s) == s
  {
    SubstituteWithoutDelimiter(s, "**", BoldTags);
    SubstituteWithoutDelimiter(s, "*", ItalicTags);
  }

  /** A string without `*` and without line breaks: the text of one emphasis span. */
  predicate Plain(x: string) {
    '*' !in x && '\n' !in x
  }

  /** Copying proceeds character by character over text that cannot open a match. */
  lemma {:induction false} SubstituteAfterPlain(x: string, y: string, d: string, tag: Tags)
    requires d != [] && '\n' !in d
    requires d[0] !in x
    ensures Substitute(x + y, d, tag) == x + Substitute(y, d, tag)
    decreases |x|
  {
    if x != [] {
      var s := x + y;
      assert MatchAt(s, d).None? by { if |d| <= |s| { assert s[..|d|][0] == x[0]; } }
      assert s[1..] == x[1..] + y;
      assert d[0] !in x[1..] by { assert forall c :: c in x[1..] ==> c in x; }
      SubstituteAfterPlain(x[1..], y, d, tag);
      SubstituteUnmatched(s, d, tag);
    } else {
      assert x + y == y;
    }
  }

  /** The lazy group ends at the first delimiter: over text free of the
      delimiter's first character and of line breaks, the group is all of it. */
  lemma {:induction false} FindCloseAfterPlain(x: string, y: string, d: string)
    requires d != [] && '\n' !in d
    requires d[0] !in x && '\n' !in x
    ensures FindClose(x + d + y, d) == Some(|x|)
    decreases |x|
  {
    var t := x + d + y;
    if x == [] {
      assert t[..|d|] == d;
    } else {
      assert t[..|d|][0] == x[0];
      assert t[1..] == x[1..] + d + y;
      assert d[0] !in x[1..] && '\n' !in x[1..] by { assert forall c :: c in x[1..] ==> c in x; }
      FindCloseAfterPlain(x[1..], y, d);
    }
  }

  /** Where `D x D y` opens a match: the group is exactly `x`. */
  lemma MatchSpan(x: string, y: string, d: string)
    requires d != [] && '\n' !in d
    requires d[0] !in x && '\n' !in x
    ensures MatchAt(d + x + d + y, d) == Some(|x|)
  {
    var s := d + x + d + y;
    assert s[..|d|] == d;
    assert s[|d|..] == x + d + y;
    FindCloseAfterPlain(x, y, d);
  }

  lemma SpanSlices(x: string, y: string, d: string)
    ensures (d + x + d + y)[|d|..|d| + |x|] == x
    ensures (d + x + d + y)[|d| + |x| + |d|..] == y
  {
  }

  /** One span: `D x D y` becomes `<x>x</x>` followed by the substitution over `y`. */
  lemma SubstituteSpan(x: string, y: string, d: string, tag: Tags)
    requires d != [] && '\n' !in d
    requires d[0] !in x && '\n' !in x
    ensures Substitute(d + x + d + y, d, tag) == Wrap(tag, x) + Substitute(y, d, tag)
  {
    MatchSpan(x, y, d);
    SpanSlices(x, y, d);
    SubstituteAt(d + x + d + y, d, tag, |x|, x, y);
  }

  lemma BoldLoneStar()
    ensures Bold("*") == "*"
  {
    SubstituteUnmatched("*", "**", BoldTags);
  }

  lemma ItalicWithoutStar(s: string)
    requires '*' !in s
    ensures Italic(s) == s
  {
    SubstituteWithoutDelimiter(s, "*", ItalicTags);
  }

  /** A span that ends the text. */
  lemma SubstituteLastSpan(x: string, d: string, tag: Tags)
    requires d != [] && '\n' !in d
    requires d[0] !in x && '\n' !in x
    ensures Substitute(d + x + d, d, tag) == Wrap(tag, x)
  {
    assert d + x + d == d + x + d + [];
    SubstituteSpan(x, [], d, tag);
    assert Wrap(tag, x) + [] == Wrap(tag, x);
  }

  /** `**x**` becomes a bold span around exactly `x`. */
  lemma CleanBoldSpan(x: string)
    requires Plain(x)
    ensures CleanMarkdown("**" + x + "**") == "<b>" + x + "</b>"
  {
    SubstituteLastSpan(x, "**", BoldTags);
    assert '*' !in "<b>" + x + "</b>";
    ItalicWithoutStar("<b>" + x + "</b>");
  }

  /** Matching is non-greedy: `**x**y**z**` gives two bold spans, not one
      span from the first `**` to the last. */
  lemma CleanTwoBoldSpans(x: string, y: string, z: string)
    requires Plain(x) && Plain(y) && Plain(z)
    ensures CleanMarkdown("**" + x + "**" + y + "**" + z + "**")
         == "<b>" + x + "</b>" + y + "<b>" + z + "</b>"
  {
    var tail := "**" + z + "**";
    var b := Wrap(BoldTags, x) + (y + Wrap(BoldTags, z));
    SubstituteLastSpan(z, "**", BoldTags);
    SubstituteAfterPlain(y, tail, "**", BoldTags);
    SubstituteSpan(x, y + tail, "**", BoldTags);
    TwoSpansRegroup(x, y, z);
    ItalicWithoutStar(b);
  }

  lemma TwoSpansRegroup(x: string, y: string, z: string)
    ensures "**" + x + "**" + y + "**" + z + "**" == "**" + x + "**" + (y + ("**" + z + "**"))
    ensures Wrap(BoldTags, x) + (y + Wrap(BoldTags, z)) == "<b>" + x + "</b>" + y + "<b>" + z + "</b>"
    ensures Plain(x) && Plain(y) && Plain(z) ==> '*' !in Wrap(BoldTags, x) + (y + Wrap(BoldTags, z))
  {
  }

  /** A single-star span survives the bold pass untouched. */
  lemma BoldKeepsItalicSpan(z: string)
    requires Plain(z) && z != []
    ensures Bold("*" + z + "*") == "*" + z + "*"
  {
    var it := "*" + z + "*";
    assert MatchAt(it, "**").None? by { assert it[..2][1] == z[0]; }
    SubstituteUnmatched(it, "**", BoldTags);
    assert it[1..] == z + "*";
    SubstituteAfterPlain(z, "*", "**", BoldTags);
    BoldLoneStar();
  }

  /** `**x**y*z*` gives a bold span around `x` and an italic span around
      `z`, with `y` between them unchanged. */
  lemma CleanBoldThenItalic(x: string, y: string, z: string)
    requires Plain(x) && Plain(y) && Plain(z) && z != []
    ensures CleanMarkdown("**" + x + "**" + y + "*" + z + "*")
         == "<b>" + x + "</b>" + y + "<i>" + z + "</i>"
  {
    var it := "*" + z + "*";
    var b := Wrap(BoldTags, x) + y;
    BoldKeepsItalicSpan(z);
    SubstituteAfterPlain(y, it, "**", BoldTags);
    SubstituteSpan(x, y + it, "**", BoldTags);
    BoldThenItalicRegroup(x, y, z);
    SubstituteAfterPlain(b, it, "*", ItalicTags);
    SubstituteLastSpan(z, "*", ItalicTags);
  }

  lemma BoldThenItalicRegroup(x: string, y: string, z: string)
    ensures "**" + x + "**" + y + "*" + z + "*" == "**" + x + "**" + (y + ("*" + z + "*"))
    ensures Wrap(BoldTags, x) + (y + ("*" + z + "*")) == Wrap(BoldTags, x) + y + ("*" + z + "*")
    ensures Wrap(BoldTags, x) + y + Wrap(ItalicTags, z) == "<b>" + x + "</b>" + y + "<i>" + z + "</i>"
    ensures Plain(x) && Plain(y) ==> '*' !in Wrap(BoldTags, x) + y
  {
  }

  /** In `***x***` the bold group runs from after the first `**` to the
      first `**` after it, so it is `*x`. */
  lemma BoldTripleStars(x: string)
    requires Plain(x) && x != []
    ensures Bold("***" + x + "***") == "<b>*" + x + "</b>*"
  {
    var s := "***" + x + "***";
    var t := "*" + x + "***";
    assert FindClose(t, "**") == Some(|x| + 1) by {
      assert t[..2][1] == x[0];
      assert t[1..] == x + "**" + "*";
      FindCloseAfterPlain(x, "*", "**");
    }
    assert s[..2] == "**" && s[2..] == t;
    SubstituteAt(s, "**", BoldTags, |x| + 1, "*" + x, "*");
    BoldLoneStar();
  }

  /** Bold runs before italic, so `***x***` yields the crossed tags
      `<b><i>x</b></i>`, not properly nested ones. */
  lemma CleanTripleStars(x: string)
    requires Plain(x) && x != []
    ensures CleanMarkdown("***" + x + "***") == "<b><i>" + x + "</b></i>"
  {
    BoldTripleStars(x);
    var inner := x + "</b>";
    assert "<b>*" + x + "</b>*" == "<b>" + ("*" + inner + "*");
    assert "<b><i>" + x + "</b></i>" == "<b>" + Wrap(ItalicTags, inner);
    SubstituteLastSpan(inner, "*", ItalicTags);
    SubstituteAfterPlain("<b>", "*" + inner + "*", "*", ItalicTags);
  }

  /** A lone `*` before plain text is not a bold delimiter. */
  lemma BoldStarThenPlain(z: string)
    requires Plain(z)
    ensures Bold("*" + z) == "*" + z
  {
    var s := "*" + z;
    if z == [] {
      BoldLoneStar();
    } else {
      assert MatchAt(s, "**").None? by { assert s[..2][1] == z[0]; }
      SubstituteUnmatched(s, "**", BoldTags);
      assert s[1..] == z;
      SubstituteWithoutDelimiter(z, "**", BoldTags);
    }
  }

  /** A single-star span followed by plain text survives the bold pass. */
  lemma BoldKeepsStarSpan(y: string, z: string)
    requires Plain(y) && Plain(z) && y != []
    ensures Bold("*" + y + "*" + z) == "*" + y + "*" + z
  {
    var it := "*" + y + "*" + z;
    assert MatchAt(it, "**").None? by { assert it[..2][1] == y[0]; }
    SubstituteUnmatched(it, "**", BoldTags);
    assert it[1..] == y + ("*" + z);
    SubstituteAfterPlain(y, "*" + z, "**", BoldTags);
    BoldStarThenPlain(z);
  }

  /** The italic pass wraps a single-star span and leaves the plain text after it. */
  lemma ItalicSpanThenPlain(y: string, z: string)
    requires Plain(y) && Plain(z)
    ensures Italic("*" + y + "*" + z) == "<i>" + y + "</i>" + z
  {
    SubstituteSpan(y, z, "*", ItalicTags);
    ItalicWithoutStar(z);
  }

  /** `x*y*z` with plain parts: the bold pass leaves it alone and the
      italic pass wraps exactly `y`. */
  lemma CleanItalicSpan(x: string, y: string, z: string)
    requires Plain(x) && Plain(y) && Plain(z) && y != []
    ensures CleanMarkdown(x + "*" + y + "*" + z) == x + "<i>" + y + "</i>" + z
  {
    var it := "*" + y + "*" + z;
    PrefixRegroup(x, "*", y, "*", z);
    BoldKeepsStarSpan(y, z);
    SubstituteAfterPlain(x, it, "**", BoldTags);
    ItalicSpanThenPlain(y, z);
    SubstituteAfterPlain(x, it, "*", ItalicTags);
    PrefixRegroup(x, "<i>", y, "</i>", z);
  }

  lemma PrefixRegroup<T>(x: seq<T>, a: seq<T>, b: seq<T>, c: seq<T>, d: seq<T>)
    ensures x + a + b + c + d == x + (a + b + c + d)
  {
  }

  // ---------------------------------------------------------------------
  // No span crosses a line break
  // ---------------------------------------------------------------------

  lemma {:induction false} FindCloseStopsAtNewline(x: string, y: string, d: string)
    requires d != [] && '\n' !in d
    ensures FindClose(x + "\n" + y, d) == FindClose(x, d)
    decreases |x|
  {
    var t := x + "\n" + y;
    if x == [] {
      assert t[0] == '\n';
      if |d| <= |t| { NewlineIsNotDelimiter(t, d, 0); }
    } else {
      assert t[0] == x[0];
      assert t[1..] == x[1..] + "\n" + y;
      if |x| < |d| {
        if |d| <= |t| { NewlineIsNotDelimiter(t, d, |x|); }
        FindCloseStopsAtNewline(x[1..], y, d);
      } else {
        assert t[..|d|] == x[..|d|];
        FindCloseStopsAtNewline(x[1..], y, d);
      }
    }
  }

  lemma MatchAtStopsAtNewline(a: string, b: string, d: string)
    requires d != [] && '\n' !in d
    ensures MatchAt(a + "\n" + b, d) == (if a == [] then None else MatchAt(a, d))
  {
    var s := a + "\n" + b;
    if |a| < |d| {
      if |d| <= |s| { NewlineIsNotDelimiter(s, d, |a|); }
    } else {
      assert s[..|d|] == a[..|d|];
      assert s[|d|..] == a[|d|..] + "\n" + b;
      FindCloseStopsAtNewline(a[|d|..], b, d);
    }
  }

  lemma SubstituteMatched(s: string, d: string, tag: Tags, k: nat)
    requires d != [] && '\n' !in d
    requires MatchAt(s, d) == Some(k)
    ensures Substitute(s, d, tag) == Wrap(tag, s[|d|..|d| + k]) + Substitute(s[|d| + k + |d|..], d, tag)
  {
    assert s != [];
  }

  lemma SubstituteAt(s: string, d: string, tag: Tags, k: nat, body: string, rest: string)
    requires d != [] && '\n' !in d
    requires MatchAt(s, d) == Some(k)
    requires body == s[|d|..|d| + k] && rest == s[|d| + k + |d|..]
    ensures Substitute(s, d, tag) == Wrap(tag, body) + Substitute(rest, d, tag)
  {
    SubstituteMatched(s, d, tag, k);
  }

  lemma SubstituteUnmatched(s: string, d: string, tag: Tags)
    requires d != [] && '\n' !in d
    requires s != [] && MatchAt(s, d).None?
    ensures Substitute(s, d, tag) == [s[0]] + Substitute(s[1..], d, tag)
  {
  }

  /** Substituting over two lines is substituting over each line: no match
      spans the line break. */
  lemma {:induction false} SubstitutePerLine(a: string, b: string, d: string, tag: Tags)
    requires d != [] && '\n' !in d
    ensures Substitute(a + "\n" + b, d, tag) == Substitute(a, d, tag) + "\n" + Substitute(b, d, tag)
    decreases |a|, 1
  {
    var s := a + "\n" + b;
    MatchAtStopsAtNewline(a, b, d);
    if a == [] {
      assert s[1..] == b;
      SubstituteUnmatched(s, d, tag);
    } else if MatchAt(a, d).Some? {
      SubstitutePerLineMatched(a, b, d, tag, MatchAt(a, d).value);
    } else {
      assert s[1..] == a[1..] + "\n" + b;
      SubstituteUnmatched(s, d, tag);
      SubstitutePerLine(a[1..], b, d, tag);
      SubstituteUnmatched(a, d, tag);
    }
  }

  lemma {:induction false} SubstitutePerLineMatched(a: string, b: string, d: string, tag: Tags, k: nat)
    requires d != [] && '\n' !in d
    requires a != [] && MatchAt(a, d) == Some(k)
    ensures Substitute(a + "\n" + b, d, tag) == Substitute(a, d, tag) + "\n" + Substitute(b, d, tag)
    decreases |a|, 0
  {
    var rest := a[|d| + k + |d|..];
    MatchAtStopsAtNewline(a, b, d);
    LineSlices(a, b, |d|, |d| + k);
    LineSlices(a, b, |d| + k + |d|, |d| + k + |d|);
    SubstituteAt(a + "\n" + b, d, tag, k, a[|d|..|d| + k], rest + "\n" + b);
    SubstitutePerLine(rest, b, d, tag);
    SubstituteAt(a, d, tag, k, a[|d|..|d| + k], rest);
    LineRegroup(Wrap(tag, a[|d|..|d| + k]), Substitute(rest, d, tag), Substitute(b, d, tag));
  }

  lemma LineRegroup(w: string, r: string, t: string)
    ensures w + (r + "\n" + t) == w + r + "\n" + t
  {
  }

  /** Slices of `a + "\n" + b` that stay within `a`, or run on past it. */
  lemma LineSlices(a: string, b: string, lo: nat, hi: nat)
    requires lo <= hi <= |a|
    ensures (a + "\n" + b)[lo..hi] == a[lo..hi]
    ensures (a + "\n" + b)[hi..] == a[hi..] + "\n" + b
  {
  }

  /** The cleaner never sees across a line break. */
  lemma CleanPerLine(a: string, b: string)
    ensures CleanMarkdown(a + "\n" + b) == CleanMarkdown(a) + "\n" + CleanMarkdown(b)
  {
    SubstitutePerLine(a, b, "**", BoldTags);
    SubstitutePerLine(Bold(a), Bold(b), "*", ItalicTags);
  }

  lemma {:induction false} SubstituteKeepsLine(s: string, d: string, tag: Tags)
    requires d != [] && '\n' !in d && '\n' !in tag.open && '\n' !in tag.close
    requires '\n' !in s
    ensures '\n' !in Substitute(s, d, tag)
    decreases |s|
  {
    if s != [] {
      match MatchAt(s, d)
      case Some(k) =>
        var body, rest := s[|d|..|d| + k], s[|d| + k + |d|..];
        SliceKeepsOut(s, '\n', |d|, |d| + k);
        SliceKeepsOut(s, '\n', |d| + k + |d|, |s|);
        SubstituteKeepsLine(rest, d, tag);
        SubstituteAt(s, d, tag, k, body, rest);
      case None =>
        SliceKeepsOut(s, '\n', 1, |s|);
        SubstituteKeepsLine(s[1..], d, tag);
        SubstituteUnmatched(s, d, tag);
    }
  }

  lemma SliceKeepsOut(s: string, c: char, lo: nat, hi: nat)
    requires lo <= hi <= |s| && c !in s
    ensures c !in s[lo..hi] && c !in s[lo..]
  {
    assert forall x :: x in s[lo..hi] ==> x in s;
    assert forall x :: x in s[lo..] ==> x in s;
  }

  /** A cleaned line is still one line. */
  lemma CleanKeepsLine(s: string)
    requires '\n' !in s
    ensures '\n' !in CleanMarkdown(s)
  {
    SubstituteKeepsLine(s, "**", BoldTags);
    SubstituteKeepsLine(Bold(s), "*", ItalicTags);
  }

  /** The cleaned lines, one by one. */
  function CleanEach(lines: seq<string>): (r: seq<string>)
    ensures |r| == |lines|
    ensures forall i :: 0 <= i < |lines| ==> r[i] == CleanMarkdown(lines[i])
    decreases |lines|
  {
    if lines == [] then [] else [CleanMarkdown(lines[0])] + CleanEach(lines[1..])
  }

  lemma {:induction false} CleanJoin(lines: seq<string>)
    ensures CleanMarkdown(Join(lines, "\n")) == Join(CleanEach(lines), "\n")
    decreases |lines|
  {
    if |lines| == 0 {
    } else if |lines| > 1 {
      CleanJoin(lines[1..]);
      CleanPerLine(lines[0], Join(lines[1..], "\n"));
      assert CleanEach(lines)[1..] == CleanEach(lines[1..]);
    }
  }

  /** Cleaning a multi-line text equals cleaning each of its lines. */
  lemma CleanLines(s: string)
    ensures Split(CleanMarkdown(s), '\n') == CleanEach(Split(s, '\n'))
  {
    var lines := Split(s, '\n');
    var cleaned := CleanEach(lines);
    CleanJoin(lines);
    forall i | 0 <= i < |cleaned| ensures '\n' !in cleaned[i] { CleanKeepsLine(lines[i]); }
    SplitJoin(cleaned, '\n');
  }

  // ---------------------------------------------------------------------
  // Running the cleaner twice on one line
  // ---------------------------------------------------------------------

  lemma OccursStar(t: string, j: nat)
    requires j < |t|
    ensures OccursAt(t, "*", j) <==> t[j] == '*'
  {
    assert t[j..j + 1] == [t[j]];
  }

  lemma ItalicTagWithoutStar(body: string)
    requires '*' !in body
    ensures Occurrences(Wrap(ItalicTags, body), '*') == 0
  {
    OccurrencesAbsent(Wrap(ItalicTags, body), '*');
  }

  /** After the italic pass a line holds at most one `*`: every `*` that
      has a partner later on the line is consumed with it. */
  lemma {:induction false} ItalicLeavesOneStar(s: string)
    requires '\n' !in s
    ensures Occurrences(Italic(s), '*') <= 1
    decreases |s|
  {
    if s != [] {
      var t := s[1..];
      assert '\n' !in t by { assert forall c :: c in t ==> c in s; }
      FindCloseIsFirst(t, "*");
      match MatchAt(s, "*")
      case Some(k) =>
        assert s[1..1 + k] == t[..k];
        assert '*' !in t[..k] by {
          forall j | 0 <= j < k ensures t[..k][j] != '*' { OccursStar(t, j); }
        }
        ItalicTagWithoutStar(t[..k]);
        assert '\n' !in s[1 + k + 1..] by { assert forall c :: c in s[1 + k + 1..] ==> c in s; }
        ItalicLeavesOneStar(s[1 + k + 1..]);
        OccurrencesConcat(Wrap(ItalicTags, t[..k]), Italic(s[1 + k + 1..]), '*');
      case None =>
        if s[0] == '*' {
          assert '*' !in t by {
            forall j | 0 <= j < |t| ensures t[j] != '*' {
              assert '\n' !in t[..j] by { assert forall c :: c in t[..j] ==> c in t; }
              OccursStar(t, j);
            }
          }
          SubstituteWithoutDelimiter(t, "*", ItalicTags);
          OccurrencesAbsent(t, '*');
          OccurrencesConcat([s[0]], t, '*');
        } else {
          ItalicLeavesOneStar(t);
          OccurrencesConcat([s[0]], Italic(t), '*');
        }
    }
  }

  /** A text with at most one `*` passes through either substitution unchanged. */
  lemma {:induction false} OneStarUnchanged(s: string, d: string, tag: Tags)
    requires d == "*" || d == "**"
    requires Occurrences(s, '*') <= 1
    ensures Substitute(s, d, tag) == s
    decreases |s|
  {
    if s != [] {
      var t := s[1..];
      if s[0] == '*' {
        OccurrencesZero(t, '*');
        assert MatchAt(s, d).None? by {
          if d == "**" {
            if |d| <= |s| { assert s[..|d|][1] == t[0]; }
          } else if FindClose(t, d).Some? {
            OccursStar(t, FindClose(t, d).value);
          }
        }
        SubstituteWithoutDelimiter(t, d, tag);
      } else {
        assert MatchAt(s, d).None? by { if |d| <= |s| { assert s[..|d|][0] != d[0]; } }
        OneStarUnchanged(t, d, tag);
      }
    }
  }

  /** Cleaning a single line a second time changes nothing. */
  lemma CleanTwiceOnLine(s: string)
    requires '\n' !in s
    ensures CleanMarkdown(CleanMarkdown(s)) == CleanMarkdown(s)
  {
    SubstituteKeepsLine(s, "**", BoldTags);
    var c := CleanMarkdown(s);
    ItalicLeavesOneStar(Bold(s));
    OneStarUnchanged(c, "**", BoldTags);
    OneStarUnchanged(c, "*", ItalicTags);
  }
}
