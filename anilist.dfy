/**
 * The upstream GraphQL response, as an explicit record type in which every
 * field the handler reads may be absent, and the structural check the
 * handler applies to it before mapping.
 */
module AniList {
  import opened JsValues

  /** `title { english romaji }` of one media entry. */
  datatype MediaTitle = MediaTitle(english: Option<string>, romaji: Option<string>)

  /** `coverImage { large }` of one media entry. */
  datatype CoverImage = CoverImage(large: Option<string>)

  /**
   * One entry of `data.Page.media`. `updatedAt` is in Unix seconds; the
   * queried `id` is never read by the handler and is not modelled.
   */
  datatype Media = Media(
    title: Option<MediaTitle>,
    description: Option<string>,
    coverImage: Option<CoverImage>,
    updatedAt: Option<int>,
    siteUrl: Option<string>)

  /**
   * The value found at `data.Page.media`: an array whose entries are either
   * a media object or a falsy value (`null`, say), or any other value, which
   * the handler rejects alike whether it is falsy or merely not an array.
   */
  datatype MediaField = MediaArray(entries: seq<Option<Media>>) | NotAnArray

  datatype PageField = PageField(media: Option<MediaField>)
  datatype DataField = DataField(page: Option<PageField>)

  /** The parsed body; `data` is absent when the body is an error object. */
  datatype Payload = Payload(data: Option<DataField>)

  /**
   * `data?.data?.Page?.media`, accepted only when it is an array: the list
   * of entries, or `None` where the handler throws its "invalid response
   * structure" error. The parsed body itself may be `null`.
   */
  function MediaEntries(body: Option<Payload>): (r: Option<seq<Option<Media>>>)
    ensures r.Some? <==>
      && body.Some? && body.value.data.Some?
      && body.value.data.value.page.Some?
      && body.value.data.value.page.value.media.Some?
      && body.value.data.value.page.value.media.value.MediaArray?
    ensures r.Some? ==> r.value == body.value.data.value.page.value.media.value.entries
  {
    if body.None? || body.value.data.None? then None
    else
      var data := body.value.data.value;
      if data.page.None? || data.page.value.media.None? then None
      else
        match data.page.value.media.value
        case MediaArray(entries) => Some(entries)
        case NotAnArray => None
  }
}
