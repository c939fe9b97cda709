/**
 * The GET handler of the news endpoint: the steps inside its `try` block,
 * and the `catch` clause that turns anything thrown into a status-500 reply.
 * The network call and the reading of the body are not modelled; what they
 * produced (or threw) is the handler's input.
 */
module NewsEndpoint {
  import opened JsValues
  import opened AniList
  import opened News

  const StatusPrefix := "API responded with status: "
  const InvalidStructure := "Invalid response structure from AniList API"
  const NoNews := "No anime news available"
  const GenericFailure := "Failed to fetch anime news. Please try again later."
  const ServerError := 500

  /**
   * What `fetch` resolved to: the HTTP status, and what `response.json()`
   * gives when the body is read (a parsed value, possibly `null`, or a throw).
   */
  datatype Response = Response(status: nat, body: Attempt<Option<Payload>>)

  /** The reply: HTTP 200 with the news list, or an error status with `{ error: message }`. */
  datatype Outcome = Ok(news: seq<AnimeNews>) | Fail(status: int, message: string)

  /** `response.ok`: the status is in the range 200 to 299. */
  predicate IsOk(status: nat) {
    200 <= status <= 299
  }

  /** The message of the error thrown for a non-ok status; it carries the status in decimal. */
  function StatusMessage(status: nat): (m: string)
    ensures |m| > |StatusPrefix| && m[..|StatusPrefix|] == StatusPrefix
    ensures var digits := m[|StatusPrefix|..];
      && digits == NumberToString(status)
      && (forall i :: 0 <= i < |digits| ==> IsDigit(digits[i]))
      && ParseDecimal(digits) == status
  {
    var m := StatusPrefix + NumberToString(status);
    assert m[|StatusPrefix|..] == NumberToString(status);
    ParseNumberToString(status);
    m
  }

  /** Different statuses give different messages. */
  lemma StatusMessageInjective(s: nat, t: nat)
    requires StatusMessage(s) == StatusMessage(t)
    ensures s == t
  {
    assert StatusMessage(s)[|StatusPrefix|..] == StatusMessage(t)[|StatusPrefix|..];
  }

  /** The `try` block: the news list, or the value it throws. */
  function Attempted(fetched: Attempt<Response>, formatDate: DateFormatter): (r: Attempt<seq<AnimeNews>>)
    ensures r.Done? ==> |r.value| > 0
  {
    match fetched
    case Threw(t) => Threw(t)
    case Done(response) =>
      if !IsOk(response.status) then Threw(ErrorObject(StatusMessage(response.status)))
      else
        match response.body
        case Threw(t) => Threw(t)
        case Done(body) =>
          match MediaEntries(body)
          case None => Threw(ErrorObject(InvalidStructure))
          case Some(entries) =>
            match Transform(entries, formatDate)
            case Threw(t) => Threw(t)
            case Done(news) =>
              if |news| == 0 then Threw(ErrorObject(NoNews)) else Done(news)
  }

  /** The `catch` clause: an `Error` replies with its own message, any other value with a fixed one. */
  function Recover(t: Thrown): (o: Outcome)
    ensures o.Fail? && o.status == ServerError
    ensures t.ErrorObject? ==> o.message == t.message
    ensures t.OtherValue? ==> o.message == GenericFailure
  {
    Fail(ServerError, if t.ErrorObject? then t.message else GenericFailure)
  }

  /** The whole handler. */
  function Get(fetched: Attempt<Response>, formatDate: DateFormatter): (o: Outcome)
    ensures o.Fail? ==> o.status == ServerError
    ensures o.Ok? ==> |o.news| > 0
  {
    match Attempted(fetched, formatDate)
    case Done(news) => Ok(news)
    case Threw(t) => Recover(t)
  }

  /** A non-ok upstream status fails with a message that names that status. */
  lemma UpstreamStatusFails(status: nat, body: Attempt<Option<Payload>>, formatDate: DateFormatter)
    requires !IsOk(status)
    ensures Get(Done(Response(status, body)), formatDate) == Fail(ServerError, StatusMessage(status))
  {
  }

  /** A body without an array at `data.Page.media` fails as an invalid structure. */
  lemma InvalidStructureFails(status: nat, body: Option<Payload>, formatDate: DateFormatter)
    requires IsOk(status) && MediaEntries(body).None?
    ensures Get(Done(Response(status, Done(body))), formatDate) == Fail(ServerError, InvalidStructure)
  {
  }

  /** A media list with no non-null entry fails with "No anime news available". */
  lemma EmptyListFails(status: nat, body: Option<Payload>, formatDate: DateFormatter)
    requires IsOk(status) && MediaEntries(body).Some? && CountPresent(MediaEntries(body).value) == 0
    ensures Get(Done(Response(status, Done(body))), formatDate) == Fail(ServerError, NoNews)
  {
    var entries := MediaEntries(body).value;
    TransformFailure(entries, formatDate);
    TransformKeepsOrder(entries, formatDate);
    if Transform(entries, formatDate).Threw? {
      var i :| 0 <= i < |entries| && entries[i].Some? && formatDate(entries[i].value.updatedAt).Threw?;
      CountPresentPositive(entries, i);
      assert false;
    }
  }

  /**
   * A successful reply holds the upstream list with its falsy entries
   * dropped and every other entry mapped, in upstream order; there is at
   * least one record.
   */
  lemma SuccessContents(fetched: Attempt<Response>, formatDate: DateFormatter)
    ensures Get(fetched, formatDate).Ok? ==>
      && fetched.Done? && IsOk(fetched.value.status)
      && fetched.value.body.Done?
      && MediaEntries(fetched.value.body.value).Some?
      && var entries := MediaEntries(fetched.value.body.value).value;
         var news := Get(fetched, formatDate).news;
         && |news| == CountPresent(entries) > 0
         && (forall n :: n in news ==> Populated(n))
         && forall i :: 0 <= i < |entries| && entries[i].Some? ==>
              && CountPresent(entries[..i]) < |news|
              && ToNews(entries[i].value, formatDate) == Done(news[CountPresent(entries[..i])])
  {
    if Get(fetched, formatDate).Ok? {
      TransformKeepsOrder(MediaEntries(fetched.value.body.value).value, formatDate);
    }
  }

  /**
   * Conversely, when the upstream call succeeds and every non-null entry
   * can be mapped, the reply is the mapped list, unless that list is empty.
   */
  lemma SuccessWhenAllMapped(status: nat, body: Option<Payload>, formatDate: DateFormatter)
    requires IsOk(status) && MediaEntries(body).Some?
    requires var entries := MediaEntries(body).value;
      forall i :: 0 <= i < |entries| && entries[i].Some? ==> formatDate(entries[i].value.updatedAt).Done?
    requires CountPresent(MediaEntries(body).value) > 0
    ensures Transform(MediaEntries(body).value, formatDate).Done?
    ensures Get(Done(Response(status, Done(body))), formatDate)
         == Ok(Transform(MediaEntries(body).value, formatDate).value)
  {
    var entries := MediaEntries(body).value;
    TransformFailure(entries, formatDate);
    TransformKeepsOrder(entries, formatDate);
  }

  /**
   * The fixed fallback message is sent only when something threw a value
   * that is not an `Error` (or an `Error` bearing that very text): the
   * network call, the reading of the body, or the date formatting.
   */
  lemma GenericFailureSource(fetched: Attempt<Response>, formatDate: DateFormatter)
    ensures Get(fetched, formatDate) == Fail(ServerError, GenericFailure) ==>
      var t := Attempted(fetched, formatDate).thrown;
      && (t == OtherValue || t == ErrorObject(GenericFailure))
      && (|| fetched == Threw(t)
          || (fetched.Done? && fetched.value.body == Threw(t))
          || (fetched.Done? && fetched.value.body.Done?
              && MediaEntries(fetched.value.body.value).Some?
              && Transform(MediaEntries(fetched.value.body.value).value, formatDate) == Threw(t)))
  {
  }

  /** Upstream status 503 is reported as "API responded with status: 503". */
  lemma Status503(body: Attempt<Option<Payload>>, formatDate: DateFormatter)
    ensures Get(Done(Response(503, body)), formatDate) == Fail(500, "API responded with status: 503")
  {
    assert NumberToString(503) == "503";
  }

  /** The body `{"data":{"Page":{...}}}` with the given `media` field. */
  function PageBody(media: Option<MediaField>): Attempt<Option<Payload>> {
    Done(Some(Payload(Some(DataField(Some(PageField(media)))))))
  }

  /** The body `{"data":{"Page":{}}}` lacks the media list. */
  lemma MissingMediaExample(formatDate: DateFormatter)
    ensures Get(Done(Response(200, PageBody(None))), formatDate)
         == Fail(500, "Invalid response structure from AniList API")
  {
  }

  /** The body `{"data":{"Page":{"media":[]}}}` yields no news. */
  lemma EmptyMediaExample(formatDate: DateFormatter)
    ensures Get(Done(Response(200, PageBody(Some(MediaArray([]))))), formatDate)
         == Fail(500, "No anime news available")
  {
  }
}
