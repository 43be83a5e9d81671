/** The report-information part of the report (`_add_metadata_section`):
    a heading, a fixed four-row table of labels and values, and a spacer.
    The table's colours, fonts and column widths are not modelled. */
module MetadataTable {
  import opened Strings
  import opened Layout
  import opened Clock
  import opened FileListing

  /** The `total_tokens` entry of the metadata map: missing, present with
      `None` (what a `null` count in the response gives), or a number. */
  datatype TokenEntry = NoEntry | NoneEntry | Count(value: int)

  /** The two entries of the metadata map the table reads. */
  datatype ReportMetadata = ReportMetadata(modelUsed: Option<string>, totalTokens: TokenEntry)

  /** The value shown for an absent entry. */
  const Missing: string := "N/A"
  /** `str(None)`. */
  const NoneText: string := "None"
  const InfoHeading: string := "Report Information"
  const Labels: seq<string> := ["Generated", "Files Reviewed", "Model Used", "Total Tokens"]

  function ModelText(metadata: ReportMetadata): string {
    if metadata.modelUsed.Some? then metadata.modelUsed.value else Missing
  }

  /** `str(metadata.get("total_tokens", "N/A"))`. */
  function TokensText(metadata: ReportMetadata): string {
    match metadata.totalTokens
    case NoEntry => Missing
    case NoneEntry => NoneText
    case Count(n) => IntToString(n)
  }

  /** The table's rows, for `fileCount` files and the clock reading `now`. */
  function Rows(metadata: ReportMetadata, fileCount: nat, now: DateTime): seq<seq<string>> {
    [[Labels[0], TableStamp(now)], [Labels[1], NatToString(fileCount)],
     [Labels[2], ModelText(metadata)], [Labels[3], TokensText(metadata)]]
  }

  function MetadataSection(metadata: ReportMetadata, fileCount: nat, now: DateTime): seq<Block> {
    [Para(CustomHeading1, InfoHeading), Table(Rows(metadata, fileCount, now)), Spacer(1, 12)]
  }

  /** `_add_metadata_section`, with the clock reading as a parameter. */
  method AddMetadataSection(metadata: ReportMetadata, fileContents: seq<FileInfo>, now: DateTime)
    returns (story: seq<Block>)
    ensures story == MetadataSection(metadata, |fileContents|, now)
  {
    story := [];
    var metadataData := [
      ["Generated", TableStamp(now)],
      ["Files Reviewed", NatToString(|fileContents|)],
      ["Model Used", if metadata.modelUsed.Some? then metadata.modelUsed.value else "N/A"],
      ["Total Tokens", match metadata.totalTokens
                       case NoEntry => "N/A"
                       case NoneEntry => "None"
                       case Count(n) => IntToString(n)]
    ];
    story := story + [Para(CustomHeading1, "Report Information")];
    story := story + [Table(metadataData)];
    story := story + [Spacer(1, 12)];
  }

  /** A token count is never shown as the absent marker, nor as `None`. */
  lemma NumberIsNotMissing(i: int)
    ensures IntToString(i) != Missing && IntToString(i) != NoneText
  {
    var r := IntToString(i);
    if i >= 0 {
      assert IsDigit(r[0]);
    } else {
      assert r[0] == '-';
    }
  }

  /** The table has exactly the four labelled rows, in order; each value
      tells its entry back: the reading and the file count can be read
      back from their text, an absent model or token entry shows as "N/A"
      and a `None` token entry as "None", which no token count shows as. */
  lemma MetadataFacts(metadata: ReportMetadata, fileCount: nat, now: DateTime)
    requires Valid(now)
    ensures var rows := Rows(metadata, fileCount, now);
      |rows| == 4 && (forall k :: 0 <= k < 4 ==> |rows[k]| == 2 && rows[k][0] == Labels[k]) &&
      ParseTableStamp(rows[0][1]) == now &&
      ParseDigits(rows[1][1]) == fileCount &&
      (metadata.modelUsed.None? ==> rows[2][1] == Missing) &&
      (metadata.modelUsed.Some? ==> rows[2][1] == metadata.modelUsed.value) &&
      (rows[3][1] == Missing <==> metadata.totalTokens.NoEntry?) &&
      (rows[3][1] == NoneText <==> metadata.totalTokens.NoneEntry?) &&
      (metadata.totalTokens.Count? ==> rows[3][1] == IntToString(metadata.totalTokens.value))
  {
    TableStampRoundTrip(now);
    NatToStringRoundTrip(fileCount);
    if metadata.totalTokens.Count? {
      NumberIsNotMissing(metadata.totalTokens.value);
    }
  }

  /** Equal token texts mean equal token entries: a missing entry, a
      `None` entry and each count all show differently. */
  lemma TokensTextInjective(m1: ReportMetadata, m2: ReportMetadata)
    requires TokensText(m1) == TokensText(m2)
    ensures m1.totalTokens == m2.totalTokens
  {
    assert Missing != NoneText by { assert |Missing| != |NoneText|; }
    if m1.totalTokens.Count? { NumberIsNotMissing(m1.totalTokens.value); }
    if m2.totalTokens.Count? { NumberIsNotMissing(m2.totalTokens.value); }
    if m1.totalTokens.Count? && m2.totalTokens.Count? {
      IntToStringInjective(m1.totalTokens.value, m2.totalTokens.value);
    }
  }
}
