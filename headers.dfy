/** The header splitter `_split_by_headers`: `re.split(r"\n(#{2,3})\s+", content)`
    written out as a scan, and the step-2 loop that glues each piece to the
    marker captured after it. */
module HeaderSplit {
  import opened Strings

  /** The length of the run of characters satisfying `IsSpace` from `i` on. */
  function SpaceRun(s: string, i: nat): (n: nat)
    requires i <= |s|
    ensures i + n <= |s|
    ensures forall j :: i <= j < i + n ==> IsSpace(s[j])
    ensures i + n == |s| || !IsSpace(s[i + n])
    decreases |s| - i
  {
    if i < |s| && IsSpace(s[i]) then 1 + SpaceRun(s, i + 1) else 0
  }

  /** The length of the run of `#` from `i` on. */
  function HashRun(s: string, i: nat): (n: nat)
    requires i <= |s|
    ensures i + n <= |s|
    ensures forall j :: i <= j < i + n ==> s[j] == '#'
    ensures i + n == |s| || s[i + n] != '#'
    decreases |s| - i
  {
    if i < |s| && s[i] == '#' then 1 + HashRun(s, i + 1) else 0
  }

  /** A match of the pattern: the captured marker and the position just
      after the whitespace the greedy `\s+` consumed. */
  datatype Boundary = Boundary(marker: string, end: nat)

  /** Whether the pattern matches at `p`, tried the way the regex engine
      tries it: `#{2,3}` first takes three `#` and falls back to two, and
      in either case `\s+` needs one whitespace character right after. */
  function BoundaryAt(s: string, p: nat): (r: Option<Boundary>)
    requires p <= |s|
    ensures r.Some? ==> r.value.marker == "##" || r.value.marker == "###"
    ensures r.Some? ==> p + 1 + |r.value.marker| < r.value.end <= |s|
    ensures r.Some? ==> r.value.end == |s| || !IsSpace(s[r.value.end])
  {
    if !(p < |s| && s[p] == '\n') then None
    else if p + 4 < |s| && s[p + 1..p + 4] == "###" && IsSpace(s[p + 4]) then
      Some(Boundary("###", p + 4 + SpaceRun(s, p + 4)))
    else if p + 3 < |s| && s[p + 1..p + 3] == "##" && IsSpace(s[p + 3]) then
      Some(Boundary("##", p + 3 + SpaceRun(s, p + 3)))
    else None
  }

  /** The same condition stated directly: a line break, then a run of
      exactly two or three `#` (the whole run, not a prefix of a longer
      one), then a whitespace character. The marker is that run, and the
      match goes on over all the whitespace that follows. */
  lemma BoundaryExactly(s: string, p: nat)
    requires p < |s|
    ensures BoundaryAt(s, p).Some? <==>
      s[p] == '\n' && (HashRun(s, p + 1) == 2 || HashRun(s, p + 1) == 3)
      && p + 1 + HashRun(s, p + 1) < |s| && IsSpace(s[p + 1 + HashRun(s, p + 1)])
    ensures BoundaryAt(s, p).Some? ==>
      var h := HashRun(s, p + 1);
      |BoundaryAt(s, p).value.marker| == h
      && BoundaryAt(s, p).value.end == p + 1 + h + SpaceRun(s, p + 1 + h)
  {
    var h := HashRun(s, p + 1);
    if h >= 3 {
      BoundaryAfterLongRun(s, p);
    } else if h == 2 {
      BoundaryAfterPair(s, p);
    } else {
      BoundaryAfterShortRun(s, p);
    }
  }

  lemma BoundaryAfterLongRun(s: string, p: nat)
    requires p < |s| && HashRun(s, p + 1) >= 3
    ensures BoundaryAt(s, p) ==
      if s[p] == '\n' && HashRun(s, p + 1) == 3 && p + 4 < |s| && IsSpace(s[p + 4])
      then Some(Boundary("###", p + 4 + SpaceRun(s, p + 4))) else None
  {
    HashRunFrom(s, p + 1, 3);
    assert s[p + 1..p + 4] == "###";
    assert HashRun(s, p + 1) > 3 ==> s[p + 4] == '#' && !IsSpace(s[p + 4]);
    assert !IsSpace(s[p + 3]);
  }

  lemma BoundaryAfterPair(s: string, p: nat)
    requires p < |s| && HashRun(s, p + 1) == 2
    ensures BoundaryAt(s, p) ==
      if s[p] == '\n' && p + 3 < |s| && IsSpace(s[p + 3])
      then Some(Boundary("##", p + 3 + SpaceRun(s, p + 3))) else None
  {
    HashRunFrom(s, p + 1, 2);
    assert s[p + 1..p + 3] == "##";
    assert p + 3 < |s| ==> s[p + 3] != '#';
    assert p + 4 < |s| ==> s[p + 1..p + 4] != "###" by {
      if p + 4 < |s| { assert s[p + 1..p + 4][2] == s[p + 3]; }
    }
  }

  lemma BoundaryAfterShortRun(s: string, p: nat)
    requires p < |s| && HashRun(s, p + 1) < 2
    ensures BoundaryAt(s, p).None?
  {
    assert p + 2 < |s| ==> s[p + 1] != '#' || s[p + 2] != '#';
    assert p + 3 < |s| ==> s[p + 1..p + 3] != "##" by {
      if p + 3 < |s| { assert s[p + 1..p + 3][0] == s[p + 1] && s[p + 1..p + 3][1] == s[p + 2]; }
    }
    assert p + 4 < |s| ==> s[p + 1..p + 4] != "###" by {
      if p + 4 < |s| { assert s[p + 1..p + 4][0] == s[p + 1] && s[p + 1..p + 4][1] == s[p + 2]; }
    }
  }

  /** A run of at least `k` hashes measured from `i` is `k` plus the run after them. */
  lemma HashRunFrom(s: string, i: nat, k: nat)
    requires i + k <= |s|
    requires forall j :: i <= j < i + k ==> s[j] == '#'
    ensures HashRun(s, i) == k + HashRun(s, i + k)
    decreases k
  {
    if k > 0 {
      HashRunFrom(s, i + 1, k - 1);
    }
  }

  /** No match of the pattern starts anywhere in `s[from..]`. */
  predicate NoBoundaryFrom(s: string, from: nat)
    requires from <= |s|
  {
    forall p :: from <= p < |s| ==> BoundaryAt(s, p).None?
  }

  predicate IsMarker(m: string) {
    m == "##" || m == "###"
  }

  /** Text pieces and markers alternating, starting and ending with text. */
  predicate Alternating(sections: seq<string>)
    decreases |sections|
  {
    |sections| == 1 || (|sections| >= 3 && IsMarker(sections[1]) && Alternating(sections[2..]))
  }

  /** `re.split` with one capturing group, scanning from `p` for the next
      match while the current piece started at `start`: text pieces at the
      even indices, the captured marker of each match at the odd ones. */
  function Scan(s: string, start: nat, p: nat): (r: seq<string>)
    requires start <= p <= |s|
    ensures Alternating(r)
    decreases |s| - p
  {
    if p == |s| then [s[start..]]
    else match BoundaryAt(s, p)
      case Some(b) => [s[start..p], b.marker] + Scan(s, b.end, b.end)
      case None => Scan(s, start, p + 1)
  }

  /** `re.split(r"\n(#{2,3})\s+", s)`. */
  function ReSplit(s: string): seq<string> {
    Scan(s, 0, 0)
  }

  lemma {:induction false} ScanWithoutBoundary(s: string, start: nat, p: nat)
    requires start <= p <= |s|
    ensures Scan(s, start, p) == [s[start..]] <==> NoBoundaryFrom(s, p)
    decreases |s| - p
  {
    if p < |s| {
      match BoundaryAt(s, p)
      case Some(b) =>
        assert |Scan(s, start, p)| >= 2;
        assert !NoBoundaryFrom(s, p);
      case None =>
        assert Scan(s, start, p) == Scan(s, start, p + 1);
        ScanWithoutBoundary(s, start, p + 1);
        assert NoBoundaryFrom(s, p) <==> NoBoundaryFrom(s, p + 1);
    }
  }

  /** The split leaves `s` whole exactly when no match starts anywhere in it. */
  lemma ReSplitWhole(s: string)
    ensures ReSplit(s) == [s] <==> NoBoundaryFrom(s, 0)
  {
    ScanWithoutBoundary(s, 0, 0);
    assert s[0..] == s;
  }

  /** Every match starts at a line break, so text without one, such as a
      header on the very first line with nothing after it, is never split. */
  lemma NoLineBreakNoBoundary(s: string)
    requires '\n' !in s
    ensures NoBoundaryFrom(s, 0)
  {
    forall p | 0 <= p < |s| ensures BoundaryAt(s, p).None? {
      assert s[p] in s;
    }
  }

  /** The three cases the pattern is easy to misread on. */
  lemma BoundaryExamples()
    ensures BoundaryAt("\n##x", 0).None?
    ensures BoundaryAt("\n####x", 0).None?
    ensures BoundaryAt("\n#### x", 0).None?
    ensures BoundaryAt("\n## x", 0) == Some(Boundary("##", 4))
    ensures BoundaryAt("\n### \n\tx", 0) == Some(Boundary("###", 7))
  {
    var s := "\n### \n\tx";
    assert s[1..4] == "###";
    assert SpaceRun(s, 4) == 3 by {
      assert SpaceRun(s, 7) == 0;
    }
    var t := "\n#### x";
    assert t[1..4] == "###" && t[4] == '#';
    var u := "\n####x";
    assert u[1..4] == "###" && u[4] == '#';
    var v := "\n## x";
    assert v[1..3] == "##" && SpaceRun(v, 4) == 0;
  }

  /** A header on the first line of the review is not a split point: the
      pattern needs a line break before the marker. */
  lemma HeaderOnFirstLine(title: string)
    requires '\n' !in title
    ensures ReSplit("## " + title) == ["## " + title]
  {
    assert '\n' !in "## " + title;
    NoLineBreakNoBoundary("## " + title);
    ReSplitWhole("## " + title);
  }

  // ---------------------------------------------------------------------
  // What the split pieces are
  // ---------------------------------------------------------------------

  /** The text each match consumes, in order, scanning from `p` the way
      `Scan` does: the line break, the marker and the whitespace after it. */
  function Matches(s: string, p: nat): seq<string>
    requires p <= |s|
    decreases |s| - p
  {
    if p == |s| then []
    else match BoundaryAt(s, p)
      case Some(b) => [s[p..b.end]] + Matches(s, b.end)
      case None => Matches(s, p + 1)
  }

  /** The entries at the even indices: the text pieces of a split. */
  function Evens<T>(r: seq<T>): seq<T>
    decreases |r|
  {
    if |r| <= 1 then r else [r[0]] + Evens(r[2..])
  }

  /** The entries at the odd indices: the captured markers of a split. */
  function Odds<T>(r: seq<T>): seq<T>
    decreases |r|
  {
    if |r| <= 1 then [] else [r[1]] + Odds(r[2..])
  }

  /** `texts[0] + seps[0] + texts[1] + … + seps[n - 1] + texts[n]`. */
  function Interleave(texts: seq<string>, seps: seq<string>): string
    requires |texts| == |seps| + 1
    decreases |seps|
  {
    if seps == [] then texts[0] else texts[0] + seps[0] + Interleave(texts[1..], seps[1..])
  }

  /** `m` is what one match with captured `marker` consumes: a line break,
      the marker, and a non-empty run of whitespace. */
  predicate MatchText(m: string, marker: string) {
    |marker| + 1 < |m| && m[..|marker| + 1] == "\n" + marker
    && forall j :: |marker| + 1 <= j < |m| ==> IsSpace(m[j])
  }

  /** The text pieces and markers of a split that opens with text `x`
      and marker `m`. */
  lemma EvensOddsCons<T>(x: T, m: T, rest: seq<T>)
    ensures Evens([x, m] + rest) == [x] + Evens(rest)
    ensures Odds([x, m] + rest) == [m] + Odds(rest)
  {
    assert ([x, m] + rest)[2..] == rest;
  }

  /** An alternating split is its text pieces and markers taken in turn. */
  lemma {:induction false} EvensOdds(r: seq<string>)
    requires Alternating(r)
    ensures |Evens(r)| == |Odds(r)| + 1 && |r| == 2 * |Odds(r)| + 1
    ensures forall k :: 0 <= k < |Evens(r)| ==> r[2 * k] == Evens(r)[k]
    ensures forall k :: 0 <= k < |Odds(r)| ==> r[2 * k + 1] == Odds(r)[k] && IsMarker(Odds(r)[k])
    decreases |r|
  {
    if |r| > 1 {
      EvensOdds(r[2..]);
      EvensOddsCons(r[0], r[1], r[2..]);
      assert r == [r[0], r[1]] + r[2..];
    }
    forall k | 0 <= k < |Evens(r)| ensures r[2 * k] == Evens(r)[k] {
      EvenAt(r, k);
    }
    forall k | 0 <= k < |Odds(r)| ensures r[2 * k + 1] == Odds(r)[k] && IsMarker(Odds(r)[k]) {
      OddAt(r, k);
    }
  }

  lemma {:induction false} EvenAt(r: seq<string>, k: nat)
    requires Alternating(r) && k < |Evens(r)|
    ensures 2 * k < |r| && r[2 * k] == Evens(r)[k]
    decreases k
  {
    if k > 0 {
      EvenAt(r[2..], k - 1);
    }
  }

  lemma {:induction false} OddAt(r: seq<string>, k: nat)
    requires Alternating(r) && k < |Odds(r)|
    ensures 2 * k + 1 < |r| && r[2 * k + 1] == Odds(r)[k] && IsMarker(Odds(r)[k])
    decreases k
  {
    if k > 0 {
      OddAt(r[2..], k - 1);
    }
  }

  /** The text a match consumes is a line break, its marker and whitespace. */
  lemma MatchTextAt(s: string, p: nat)
    requires p <= |s| && BoundaryAt(s, p).Some?
    ensures MatchText(s[p..BoundaryAt(s, p).value.end], BoundaryAt(s, p).value.marker)
  {
    var b := BoundaryAt(s, p).value;
    var m := s[p..b.end];
    var h := |b.marker|;
    assert s[p + 1..p + 1 + h] == b.marker;
    assert b.end == p + 1 + h + SpaceRun(s, p + 1 + h);
    assert m[..h + 1] == [s[p]] + s[p + 1..p + 1 + h];
    forall j | h + 1 <= j < |m| ensures IsSpace(m[j]) {
      assert m[j] == s[p + j];
    }
  }

  /** One step of the scan at a match, and one past a position without one. */
  lemma ScanAtMatch(s: string, start: nat, p: nat)
    requires start <= p < |s| && BoundaryAt(s, p).Some?
    ensures Scan(s, start, p) ==
      [s[start..p], BoundaryAt(s, p).value.marker] + Scan(s, BoundaryAt(s, p).value.end, BoundaryAt(s, p).value.end)
    ensures Matches(s, p) == [s[p..BoundaryAt(s, p).value.end]] + Matches(s, BoundaryAt(s, p).value.end)
  {
  }

  lemma ScanPastPosition(s: string, start: nat, p: nat)
    requires start <= p < |s| && BoundaryAt(s, p).None?
    ensures Scan(s, start, p) == Scan(s, start, p + 1)
    ensures Matches(s, p) == Matches(s, p + 1)
  {
  }

  /** `r` and `m` split `t`: the text pieces of `r` glued back together
      with the consumed texts `m` give `t`, and each consumed text is a
      line break, the marker captured for it, and whitespace. */
  predicate SplitOf(t: string, r: seq<string>, m: seq<string>) {
    |Evens(r)| == |m| + 1 && |Odds(r)| == |m| && Interleave(Evens(r), m) == t
    && forall k :: 0 <= k < |m| ==> MatchText(m[k], Odds(r)[k])
  }

  lemma SplitOfCons(x: string, marker: string, y: string, t: string, rest: seq<string>, m: seq<string>)
    requires SplitOf(t, rest, m) && MatchText(y, marker)
    ensures SplitOf(x + y + t, [x, marker] + rest, [y] + m)
  {
    var r, ms := [x, marker] + rest, [y] + m;
    EvensOddsCons(x, marker, rest);
    var es := Evens(r);
    assert es[1..] == Evens(rest) && ms[1..] == m;
    forall k | 1 <= k < |ms| ensures MatchText(ms[k], Odds(r)[k]) {
      assert ms[k] == m[k - 1] && Odds(r)[k] == Odds(rest)[k - 1];
    }
  }

  /** Gluing the text pieces back together with the text each match
      consumed gives the scanned text back. */
  lemma {:induction false} ScanRebuilds(s: string, start: nat, p: nat)
    requires start <= p <= |s|
    ensures SplitOf(s[start..], Scan(s, start, p), Matches(s, p))
    decreases |s| - p
  {
    if p == |s| {
      assert Scan(s, start, p) == [s[start..]] && Matches(s, p) == [];
    } else if BoundaryAt(s, p).None? {
      ScanPastPosition(s, start, p);
      ScanRebuilds(s, start, p + 1);
    } else {
      var e := BoundaryAt(s, p).value.end;
      ScanRebuilds(s, e, e);
      RebuildsAtMatch(s, start, p);
    }
  }

  lemma RebuildsAtMatch(s: string, start: nat, p: nat)
    requires start <= p < |s| && BoundaryAt(s, p).Some?
    requires SplitOf(s[BoundaryAt(s, p).value.end..], Scan(s, BoundaryAt(s, p).value.end, BoundaryAt(s, p).value.end),
                     Matches(s, BoundaryAt(s, p).value.end))
    ensures SplitOf(s[start..], Scan(s, start, p), Matches(s, p))
  {
    var b := BoundaryAt(s, p).value;
    ScanAtMatch(s, start, p);
    MatchTextAt(s, p);
    SplitOfCons(s[start..p], b.marker, s[p..b.end], s[b.end..], Scan(s, b.end, b.end), Matches(s, b.end));
    SliceThree(s, start, p, b.end);
  }

  lemma SliceThree<T>(s: seq<T>, i: nat, j: nat, k: nat)
    requires i <= j <= k <= |s|
    ensures s[i..] == s[i..j] + s[j..k] + s[k..]
  {
  }

  /** The first piece of a scan from `start` is a prefix of `s[start..]`. */
  lemma {:induction false} ScanFirstPiece(s: string, start: nat, p: nat)
    requires start <= p <= |s|
    ensures start + |Scan(s, start, p)[0]| <= |s|
    ensures Scan(s, start, p)[0] == s[start..start + |Scan(s, start, p)[0]|]
    decreases |s| - p
  {
    if p < |s| && BoundaryAt(s, p).None? {
      ScanPastPosition(s, start, p);
      ScanFirstPiece(s, start, p + 1);
    }
  }

  /** A piece of `s` with no match starting inside it holds no match of its own. */
  lemma BoundaryInSlice(s: string, lo: nat, hi: nat, q: nat)
    requires lo <= hi <= |s| && q <= hi - lo
    ensures BoundaryAt(s[lo..hi], q).Some? ==> BoundaryAt(s, lo + q).Some?
  {
    var t := s[lo..hi];
    if q + 4 < |t| {
      assert forall j :: q + 1 <= j < q + 4 ==> t[j] == s[lo + j];
      assert t[q + 1..q + 4] == s[lo + q + 1..lo + q + 4];
    }
    if q + 3 < |t| {
      assert forall j :: q + 1 <= j < q + 3 ==> t[j] == s[lo + j];
      assert t[q + 1..q + 3] == s[lo + q + 1..lo + q + 3];
    }
  }

  lemma PieceUnmatched(s: string, lo: nat, hi: nat)
    requires lo <= hi <= |s|
    requires forall q :: lo <= q < hi ==> BoundaryAt(s, q).None?
    ensures NoBoundaryFrom(s[lo..hi], 0)
  {
    forall q | 0 <= q < hi - lo ensures BoundaryAt(s[lo..hi], q).None? {
      BoundaryInSlice(s, lo, hi, q);
    }
  }

  /** No text piece of `r` holds a match of the pattern, and every text
      piece after the first that is not empty starts with a non-space
      character. */
  predicate TextsClean(r: seq<string>) {
    (forall k :: 0 <= k < |Evens(r)| ==> NoBoundaryFrom(Evens(r)[k], 0))
    && forall k :: 0 < k < |Evens(r)| ==> Evens(r)[k] == [] || !IsSpace(Evens(r)[k][0])
  }

  lemma TextsCleanCons(x: string, marker: string, rest: seq<string>)
    requires rest != [] && NoBoundaryFrom(x, 0) && TextsClean(rest)
    requires rest[0] == [] || !IsSpace(rest[0][0])
    ensures TextsClean([x, marker] + rest)
  {
    EvensOddsCons(x, marker, rest);
    var es := Evens([x, marker] + rest);
    assert Evens(rest)[0] == rest[0];
    forall k | 1 <= k < |es| ensures es[k] == Evens(rest)[k - 1] { }
  }

  /** The matches are the leftmost ones and `\s+` is greedy: no text piece
      holds a match, and no piece after a match starts with whitespace. */
  lemma {:induction false} ScanTextsUnmatched(s: string, start: nat, p: nat)
    requires start <= p <= |s|
    requires forall q :: start <= q < p ==> BoundaryAt(s, q).None?
    ensures TextsClean(Scan(s, start, p))
    decreases |s| - p
  {
    if p == |s| {
      PieceUnmatched(s, start, p);
      assert s[start..p] == s[start..];
      assert Evens(Scan(s, start, p)) == [s[start..]];
    } else if BoundaryAt(s, p).None? {
      ScanPastPosition(s, start, p);
      ScanTextsUnmatched(s, start, p + 1);
    } else {
      var e := BoundaryAt(s, p).value.end;
      ScanTextsUnmatched(s, e, e);
      TextsUnmatchedAtMatch(s, start, p);
    }
  }

  lemma TextsUnmatchedAtMatch(s: string, start: nat, p: nat)
    requires start <= p < |s| && BoundaryAt(s, p).Some?
    requires forall q :: start <= q < p ==> BoundaryAt(s, q).None?
    requires TextsClean(Scan(s, BoundaryAt(s, p).value.end, BoundaryAt(s, p).value.end))
    ensures TextsClean(Scan(s, start, p))
  {
    var b := BoundaryAt(s, p).value;
    var rest := Scan(s, b.end, b.end);
    ScanAtMatch(s, start, p);
    PieceUnmatched(s, start, p);
    ScanFirstPiece(s, b.end, b.end);
    assert rest[0] == [] || !IsSpace(rest[0][0]) by {
      assert rest[0] != [] ==> rest[0][0] == s[b.end];
    }
    TextsCleanCons(s[start..p], b.marker, rest);
  }

  /** What `re.split(r"\n(#{2,3})\s+", s)` promises: its pieces alternate
      text and captured marker; the text pieces glued back together with
      the text each match consumed give `s` back in order; each consumed
      text is a line break, its marker and whitespace; no text piece holds
      a match; and every piece after a match starts past all of the
      whitespace. */
  lemma ReSplitPieces(s: string)
    ensures Alternating(ReSplit(s))
    ensures SplitOf(s, ReSplit(s), Matches(s, 0))
    ensures TextsClean(ReSplit(s))
  {
    ScanRebuilds(s, 0, 0);
    ScanTextsUnmatched(s, 0, 0);
    assert s[0..] == s;
  }

  // ---------------------------------------------------------------------
  // The step-2 loop over the split pieces
  // ---------------------------------------------------------------------

  /** Each piece stripped, in order. */
  function StripEach(sections: seq<string>): (r: seq<string>)
    ensures |r| == |sections|
    ensures forall i :: 0 <= i < |sections| ==> r[i] == Strip(sections[i])
    decreases |sections|
  {
    if sections == [] then [] else [Strip(sections[0])] + StripEach(sections[1..])
  }

  /** What the loop keeps of stripped pieces `ps`: each text piece that is
      followed by a marker becomes the piece, a line break and the marker,
      if both are non-empty; the last piece, which has no marker after it,
      is kept if non-empty. */
  function Glue(ps: seq<string>): (r: seq<string>)
    decreases |ps|
  {
    if ps == [] then []
    else if |ps| == 1 then (if ps[0] != [] then [ps[0]] else [])
    else (if ps[0] != [] && ps[1] != [] then [ps[0] + "\n" + ps[1]] else []) + Glue(ps[2..])
  }

  /** The chunks `_split_by_headers` returns for the pieces of `re.split`. */
  function Chunks(sections: seq<string>): seq<string> {
    Glue(StripEach(sections))
  }

  lemma GluePair(ps: seq<string>, i: nat)
    requires i + 1 < |ps|
    ensures Glue(ps[i..]) ==
      (if ps[i] != [] && ps[i + 1] != [] then [ps[i] + "\n" + ps[i + 1]] else []) + Glue(ps[i + 2..])
  {
    assert ps[i..][2..] == ps[i + 2..];
  }

  lemma GlueLast(ps: seq<string>, i: nat)
    requires i + 1 == |ps|
    ensures Glue(ps[i..]) == (if ps[i] != [] then [ps[i]] else [])
  {
    assert ps[i..] == [ps[i]];
  }

  /** `_split_by_headers`: split, then keep the pieces as `Chunks` says. */
  method SplitByHeaders(content: string) returns (result: seq<string>)
    ensures result == Chunks(ReSplit(content))
  {
    result := GluePieces(ReSplit(content));
  }

  /** The loop of `_split_by_headers` over the pieces, by index in steps of two. */
  method GluePieces(sections: seq<string>) returns (result: seq<string>)
    ensures result == Chunks(sections)
  {
    ghost var ps := StripEach(sections);
    result := [];
    var i := 0;
    assert ps[0..] == ps;
    while i < |sections|
      invariant i <= |sections| + 1
      invariant i <= |sections| ==> result + Glue(ps[i..]) == Glue(ps)
      invariant i > |sections| ==> result == Glue(ps)
      decreases |sections| - i
    {
      if i + 1 < |sections| {
        var header := Strip(sections[i]);
        var contentPart := if i + 1 < |sections| then Strip(sections[i + 1]) else [];
        GluePair(ps, i);
        ghost var prev := result;
        ghost var kept := if header != [] && contentPart != [] then [header + "\n" + contentPart] else [];
        if header != [] && contentPart != [] {
          result := result + [header + "\n" + contentPart];
        }
        assert result == prev + kept;
        Regroup(prev, kept, Glue(ps[i + 2..]));
      } else {
        GlueLast(ps, i);
        if Strip(sections[i]) != [] {
          result := result + [Strip(sections[i])];
        }
      }
      i := i + 2;
    }
  }

  // ---------------------------------------------------------------------
  // What the kept chunks look like
  // ---------------------------------------------------------------------

  /** A piece glued to its marker is stripped already: it starts with the
      piece's first non-space character and ends with the marker's last. */
  lemma GluedIsStripped(h: string, m: string)
    requires h != [] && Strip(h) == h && m != [] && Strip(m) == m
    ensures Strip(h + "\n" + m) == h + "\n" + m
  {
    var c := h + "\n" + m;
    StripFacts(h);
    StripFacts(m);
    assert c[0] == h[0] && c[|c| - 1] == m[|m| - 1];
    StripFacts(c);
  }

  predicate AllStripped(ps: seq<string>) {
    forall i :: 0 <= i < |ps| ==> Strip(ps[i]) == ps[i]
  }

  lemma StripEachStripped(sections: seq<string>)
    ensures AllStripped(StripEach(sections))
  {
    forall i | 0 <= i < |sections| ensures Strip(StripEach(sections)[i]) == StripEach(sections)[i] {
      StripIdempotent(sections[i]);
    }
  }

  lemma {:induction false} GlueStripped(ps: seq<string>)
    requires AllStripped(ps)
    ensures forall c :: c in Glue(ps) ==> c != [] && Strip(c) == c
    decreases |ps|
  {
    if |ps| >= 2 {
      var rest := ps[2..];
      assert AllStripped(rest) by {
        forall i | 0 <= i < |rest| ensures Strip(rest[i]) == rest[i] { assert rest[i] == ps[i + 2]; }
      }
      GlueStripped(rest);
      var head := if ps[0] != [] && ps[1] != [] then [ps[0] + "\n" + ps[1]] else [];
      if ps[0] != [] && ps[1] != [] {
        assert Strip(ps[0]) == ps[0] && Strip(ps[1]) == ps[1];
        GluedIsStripped(ps[0], ps[1]);
      }
      assert Glue(ps) == head + Glue(rest);
    }
  }

  /** Every chunk is non-blank and already stripped. */
  lemma ChunksStripped(sections: seq<string>)
    ensures forall c :: c in Chunks(sections) ==> c != [] && Strip(c) == c
  {
    StripEachStripped(sections);
    GlueStripped(StripEach(sections));
  }

  lemma {:induction false} GlueConcat(a: seq<string>, b: seq<string>)
    requires |a| % 2 == 0
    ensures Glue(a + b) == Glue(a) + Glue(b)
    decreases |a|
  {
    if a == [] {
      assert a + b == b;
    } else {
      assert (a + b)[2..] == a[2..] + b;
      assert (a + b)[0] == a[0] && (a + b)[1] == a[1];
      GlueConcat(a[2..], b);
      Regroup(if a[0] != [] && a[1] != [] then [a[0] + "\n" + a[1]] else [], Glue(a[2..]), Glue(b));
    }
  }

  lemma StripEachConcat(a: seq<string>, b: seq<string>)
    ensures StripEach(a + b) == StripEach(a) + StripEach(b)
  {
    assert forall i :: 0 <= i < |a| ==> (a + b)[i] == a[i];
    assert forall i :: |a| <= i < |a| + |b| ==> (a + b)[i] == b[i - |a|];
  }

  /** Chunks keep the order of the pieces: splitting the pieces at a pair
      boundary splits the chunks the same way. */
  lemma ChunksConcat(a: seq<string>, b: seq<string>)
    requires |a| % 2 == 0
    ensures Chunks(a + b) == Chunks(a) + Chunks(b)
  {
    StripEachConcat(a, b);
    GlueConcat(StripEach(a), StripEach(b));
  }

  /** A chunk that ends with a line break and the marker `##` or `###`
      of the match after its text (stated character by character). */
  predicate EndsWithMarker(c: string) {
    var n := |c|;
    (n >= 3 && c[n - 3] == '\n' && c[n - 2] == '#' && c[n - 1] == '#')
    || (n >= 4 && c[n - 4] == '\n' && c[n - 3] == '#' && c[n - 2] == '#' && c[n - 1] == '#')
  }

  lemma MarkerStripped(m: string)
    requires IsMarker(m)
    ensures Strip(m) == m
  {
    StripFacts(m);
  }

  lemma GlueEndsWithMarker(h: string, m: string)
    requires IsMarker(m)
    ensures EndsWithMarker(h + "\n" + m)
  {
    var c := h + "\n" + m;
    assert c[|h|] == '\n' && c[|h| + 1..] == m;
  }

  /** Every chunk but the last ends with a marker. */
  predicate MarkedButLast(chunks: seq<string>)
    decreases |chunks|
  {
    |chunks| <= 1 || (EndsWithMarker(chunks[0]) && MarkedButLast(chunks[1..]))
  }

  lemma {:induction false} MarkedButLastIndex(chunks: seq<string>)
    requires MarkedButLast(chunks)
    ensures forall k :: 0 <= k < |chunks| - 1 ==> EndsWithMarker(chunks[k])
    decreases |chunks|
  {
    if |chunks| > 1 {
      MarkedButLastIndex(chunks[1..]);
      forall k | 0 <= k < |chunks| - 1 ensures EndsWithMarker(chunks[k]) {
        if k > 0 { assert chunks[k] == chunks[1..][k - 1]; }
      }
    }
  }

  /** Stripping keeps the markers, so the stripped pieces still alternate. */
  lemma {:induction false} StripEachAlternating(sections: seq<string>)
    requires Alternating(sections)
    ensures Alternating(StripEach(sections))
    decreases |sections|
  {
    if |sections| > 1 {
      StripEachAlternating(sections[2..]);
      MarkerStripped(sections[1]);
      assert StripEach(sections)[2..] == StripEach(sections[2..]);
    }
  }

  lemma {:induction false} GlueCarriesMarkers(ps: seq<string>)
    requires Alternating(ps)
    ensures MarkedButLast(Glue(ps))
    decreases |ps|
  {
    if |ps| > 1 {
      var rest := ps[2..];
      GlueCarriesMarkers(rest);
      var head := if ps[0] != [] then [ps[0] + "\n" + ps[1]] else [];
      var tail := Glue(rest);
      assert Glue(ps) == head + tail;
      if ps[0] != [] {
        GlueEndsWithMarker(ps[0], ps[1]);
        assert (head + tail)[1..] == tail;
        assert MarkedButLast(head + tail);
      } else {
        assert head + tail == tail;
      }
    } else {
      assert |Glue(ps)| <= 1;
    }
  }

  /** The marker does not head the text that follows it: every chunk but
      the last ends with a line break and the marker of the match that
      followed its text, so the header's title opens the next chunk. */
  lemma ChunksCarryMarkers(sections: seq<string>)
    requires Alternating(sections)
    ensures MarkedButLast(Chunks(sections))
  {
    StripEachAlternating(sections);
    GlueCarriesMarkers(StripEach(sections));
  }

  /** Every chunk `SplitByHeaders` returns is non-blank and every chunk but
      the last ends with the marker of the following header. */
  lemma SplitChunks(content: string)
    ensures forall c :: c in Chunks(ReSplit(content)) ==> !IsBlank(c) && Strip(c) == c
    ensures forall k :: 0 <= k < |Chunks(ReSplit(content))| - 1 ==>
      EndsWithMarker(Chunks(ReSplit(content))[k])
  {
    ChunksStripped(ReSplit(content));
    forall c | c in Chunks(ReSplit(content)) ensures !IsBlank(c) {
      StripFacts(c);
    }
    ChunksCarryMarkers(ReSplit(content));
    MarkedButLastIndex(Chunks(ReSplit(content)));
  }

  /** Content without a match is one chunk, stripped, or nothing if blank. */
  lemma SplitWithoutBoundary(content: string)
    requires NoBoundaryFrom(content, 0)
    ensures Chunks(ReSplit(content)) == if IsBlank(content) then [] else [Strip(content)]
  {
    ReSplitWhole(content);
    StripFacts(content);
    assert StripEach([content]) == [Strip(content)];
  }
}
