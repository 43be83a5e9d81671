/** The result record `review_code` returns: how a parsed completion
    response, or the exception raised on the way to it, becomes the
    dictionary `{success, error, review, metadata}`. The request itself is
    not modelled; its outcome is the `Exchange` value. */
module ReviewResponse {
  import opened Strings
  import opened FileListing

  /** The model named in every request and in the result's metadata. */
  const Model: string := "qwen/qwen-2.5-coder-32b-instruct:free"

  const NoResponse: string := "No response from LLM"
  const TimeoutError: string := "Request timeout - LLM took too long to respond"
  const RequestPrefix: string := "API request failed: "
  const ParsePrefix: string := "Failed to parse API response: "
  const UnexpectedPrefix: string := "Unexpected error: "

  /** The `str` of the `TypeError` from subscripting `None`. */
  const NotSubscriptable: string := "'NoneType' object is not subscriptable"
  /** The `str` of the `AttributeError` from calling `.get` on `None`. */
  const NoGet: string := "'NoneType' object has no attribute 'get'"

  /** A key of a JSON object: missing, present with `null`, or present with a value. */
  datatype Field<T> = Absent | Null | Present(value: T)

  datatype Message = Message(content: Field<string>)

  /** A choice, whose `message` key may be missing, `null` or an object. */
  datatype Choice = Choice(message: Field<Message>)

  /** The `usage` object, each of whose counts may be missing, `null` or a number. */
  datatype Usage = Usage(totalTokens: Field<int>, promptTokens: Field<int>, completionTokens: Field<int>)

  /** The decoded response body. */
  datatype ResponseData = ResponseData(choices: Field<seq<Choice>>, usage: Field<Usage>)

  /** How the request ended: one of the exceptions `review_code` catches
      (each with its `str`), or a decoded body. */
  datatype Exchange =
    | TimedOut
    | RequestFailed(reason: string)
    | BadJson(reason: string)
    | Raised(reason: string)
    | Received(data: ResponseData)

  /** The metadata dictionary; a token count is `None` where the response had `null`. */
  datatype ReviewMetadata = ReviewMetadata(
    modelUsed: string, timestamp: string, filesReviewed: nat, fileNames: seq<string>,
    totalTokens: Option<int>, promptTokens: Option<int>, completionTokens: Option<int>)

  /** The result dictionary; `metadata` is `None` for the empty dictionary `{}`. */
  datatype ReviewResult = ReviewResult(success: bool, error: Option<string>, review: Option<string>, metadata: Option<ReviewMetadata>)

  function Failure(error: string): ReviewResult {
    ReviewResult(false, Some(error), None, None)
  }

  /** `usage.get(key, 0)`: the default for a missing key, the value as it is otherwise. */
  function OrZero(count: Field<int>): Option<int> {
    match count
    case Absent => Some(0)
    case Null => None
    case Present(n) => Some(n)
  }

  /** `response_data.get('usage', {})` where `usage` is not `null`. */
  function UsageOf(data: ResponseData): Usage {
    if data.usage.Present? then data.usage.value else Usage(Absent, Absent, Absent)
  }

  function FileNames(files: seq<FileInfo>): seq<string> {
    seq(|files|, i requires 0 <= i < |files| => files[i].name)
  }

  /** `choices` is missing, `null` or empty: Python treats all three as false. */
  predicate NoChoices(data: ResponseData) {
    !data.choices.Present? || data.choices.value == []
  }

  /** Lines 80-107: the result for a decoded response. Looking up a missing
      `message` or `content` key raises `KeyError`, which the final handler
      reports with the key in quotes; a `null` message cannot be
      subscripted and a `null` usage has no `get`, and those errors are
      reported the same way; a `null` content is a successful review of
      `None`. The lookups fail in the order the source makes them. */
  function FromResponse(data: ResponseData, files: seq<FileInfo>, timestamp: string): ReviewResult {
    if NoChoices(data) then Failure(NoResponse)
    else
      var first := data.choices.value[0];
      if first.message.Absent? then Failure(UnexpectedPrefix + "'message'")
      else if first.message.Null? then Failure(UnexpectedPrefix + NotSubscriptable)
      else if first.message.value.content.Absent? then Failure(UnexpectedPrefix + "'content'")
      else if data.usage.Null? then Failure(UnexpectedPrefix + NoGet)
      else
        var content := first.message.value.content;
        var usage := UsageOf(data);
        var metadata := ReviewMetadata(Model, timestamp, |files|, FileNames(files),
          OrZero(usage.totalTokens), OrZero(usage.promptTokens), OrZero(usage.completionTokens));
        ReviewResult(true, None, if content.Present? then Some(content.value) else None, Some(metadata))
  }

  /** `review_code`: the handlers in the order they are tried. */
  function ReviewCode(exchange: Exchange, files: seq<FileInfo>, timestamp: string): ReviewResult {
    match exchange
    case TimedOut => Failure(TimeoutError)
    case RequestFailed(e) => Failure(RequestPrefix + e)
    case BadJson(e) => Failure(ParsePrefix + e)
    case Raised(e) => Failure(UnexpectedPrefix + e)
    case Received(data) => FromResponse(data, files, timestamp)
  }

  // ---------------------------------------------------------------------
  // Properties
  // ---------------------------------------------------------------------

  /** A response without choices is the "no response" failure, and that
      failure arises from nothing else in a decoded response. */
  lemma MissingChoices(data: ResponseData, files: seq<FileInfo>, timestamp: string)
    ensures NoChoices(data) ==> FromResponse(data, files, timestamp) == ReviewResult(false, Some(NoResponse), None, None)
    ensures FromResponse(data, files, timestamp).error == Some(NoResponse) ==> NoChoices(data)
  {
    if !NoChoices(data) {
      var r := FromResponse(data, files, timestamp);
      if r.error.Some? {
        assert r.error.value[0] == 'U';
        assert NoResponse[0] == 'N';
      }
    }
  }

  /** A response succeeds exactly when its first choice has a message
      object with a `content` key and `usage` is not `null`; then the
      review is that content and the metadata names the model, the files
      in input order and the token counts, each 0 when missing and `None`
      when `null`. */
  lemma SuccessfulResponse(data: ResponseData, files: seq<FileInfo>, timestamp: string)
    ensures var r := FromResponse(data, files, timestamp);
      r.success <==> (!NoChoices(data) && data.choices.value[0].message.Present?
                      && !data.choices.value[0].message.value.content.Absent? && !data.usage.Null?)
    ensures var r := FromResponse(data, files, timestamp);
      r.success ==>
        var content := data.choices.value[0].message.value.content;
        var md := r.metadata.value;
        r.error == None && r.metadata.Some? &&
        (content.Present? ==> r.review == Some(content.value)) && (content.Null? ==> r.review == None) &&
        md.modelUsed == Model && md.timestamp == timestamp && md.filesReviewed == |files| &&
        |md.fileNames| == |files| && (forall i :: 0 <= i < |files| ==> md.fileNames[i] == files[i].name) &&
        (data.usage.Absent? ==> md.totalTokens == Some(0) && md.promptTokens == Some(0) && md.completionTokens == Some(0)) &&
        (data.usage.Present? ==>
          var u := data.usage.value;
          (u.totalTokens.Present? ==> md.totalTokens == Some(u.totalTokens.value)) &&
          (u.totalTokens.Absent? ==> md.totalTokens == Some(0)) &&
          (u.totalTokens.Null? ==> md.totalTokens == None) &&
          (u.promptTokens.Present? ==> md.promptTokens == Some(u.promptTokens.value)) &&
          (u.promptTokens.Absent? ==> md.promptTokens == Some(0)) &&
          (u.promptTokens.Null? ==> md.promptTokens == None) &&
          (u.completionTokens.Present? ==> md.completionTokens == Some(u.completionTokens.value)) &&
          (u.completionTokens.Absent? ==> md.completionTokens == Some(0)) &&
          (u.completionTokens.Null? ==> md.completionTokens == None))
  {
  }

  /** Every result either succeeds with no error and some metadata, or fails
      with an error, no review and the empty metadata. */
  lemma ResultShape(exchange: Exchange, files: seq<FileInfo>, timestamp: string)
    ensures var r := ReviewCode(exchange, files, timestamp);
      (r.success <==> r.error.None?) &&
      (r.success ==> r.metadata.Some?) &&
      (!r.success ==> r.review == None && r.metadata == None)
  {
  }

  /** Only a decoded response can succeed; each caught exception gives its
      own message, from which the exception's text can be read back. */
  lemma CaughtErrors(exchange: Exchange, files: seq<FileInfo>, timestamp: string)
    ensures var r := ReviewCode(exchange, files, timestamp);
      (r.success ==> exchange.Received?) &&
      (exchange.TimedOut? ==> r.error == Some(TimeoutError)) &&
      (exchange.RequestFailed? ==> StartsWith(r.error.value, RequestPrefix) && r.error.value[|RequestPrefix|..] == exchange.reason) &&
      (exchange.BadJson? ==> StartsWith(r.error.value, ParsePrefix) && r.error.value[|ParsePrefix|..] == exchange.reason) &&
      (exchange.Raised? ==> StartsWith(r.error.value, UnexpectedPrefix) && r.error.value[|UnexpectedPrefix|..] == exchange.reason)
  {
    var r := ReviewCode(exchange, files, timestamp);
    match exchange
    case RequestFailed(e) => Cut(RequestPrefix, e);
    case BadJson(e) => Cut(ParsePrefix, e);
    case Raised(e) => Cut(UnexpectedPrefix, e);
    case _ =>
  }

  /** A first choice without a message, or a message without content, is
      reported like any exception raised on the way: as a `KeyError` naming
      the key. */
  lemma MissingKeys(data: ResponseData, files: seq<FileInfo>, timestamp: string)
    requires !NoChoices(data)
    ensures data.choices.value[0].message.Absent? ==>
      FromResponse(data, files, timestamp) == ReviewCode(Raised("'message'"), files, timestamp)
    ensures data.choices.value[0].message.Present? && data.choices.value[0].message.value.content.Absent? ==>
      FromResponse(data, files, timestamp) == ReviewCode(Raised("'content'"), files, timestamp)
  {
  }

  /** A `null` message is reported as the `TypeError` from subscripting it,
      and a `null` usage, once the content has been read, as the
      `AttributeError` from calling `get` on it. */
  lemma NullLookups(data: ResponseData, files: seq<FileInfo>, timestamp: string)
    requires !NoChoices(data)
    ensures data.choices.value[0].message.Null? ==>
      FromResponse(data, files, timestamp) == ReviewCode(Raised(NotSubscriptable), files, timestamp)
    ensures (data.choices.value[0].message.Present? && !data.choices.value[0].message.value.content.Absent?
             && data.usage.Null?) ==>
      FromResponse(data, files, timestamp) == ReviewCode(Raised(NoGet), files, timestamp)
  {
  }
}
