/**
 * The record the endpoint returns for each upstream media entry, the mapping
 * of one entry onto it with its chain of fallbacks, and the
 * `map(...).filter(Boolean)` that turns the upstream list into the news list.
 */
module News {
  import opened JsValues
  import opened AniList
  import opened Tags

  const Untitled := "Untitled Anime"
  const Author := "AniList"
  const NoForumUrl := "#"
  const PlaceholderImage := "/placeholder-anime.jpg"
  const NoDescription := "No description available"
  const ExcerptLength := 200
  const Ellipsis := "..."

  datatype Jpg = Jpg(imageUrl: string)
  datatype Images = Images(jpg: Jpg)

  /**
   * One news record, in the shape of the JSON object the endpoint returns
   * (`author_username`, `forum_url` and `image_url` there).
   */
  datatype AnimeNews = AnimeNews(
    title: string,
    date: string,
    authorUsername: string,
    forumUrl: string,
    images: Images,
    excerpt: string)

  /**
   * `new Date(updatedAt * 1000).toISOString()` as a parameter: the runtime
   * library's date formatting is not modelled, and it may throw (a missing
   * `updatedAt` gives an invalid date, which `toISOString` refuses).
   */
  type DateFormatter = Option<int> -> Attempt<string>

  /** Every field of a record is filled in: nothing is left empty but, possibly, the date. */
  predicate Populated(n: AnimeNews) {
    && n.title != ""
    && n.authorUsername == Author
    && n.forumUrl != ""
    && n.images.jpg.imageUrl != ""
    && n.excerpt != ""
  }

  function English(t: Option<MediaTitle>): Option<string> {
    if t.Some? then t.value.english else None
  }

  function Romaji(t: Option<MediaTitle>): Option<string> {
    if t.Some? then t.value.romaji else None
  }

  function LargeCover(c: Option<CoverImage>): Option<string> {
    if c.Some? then c.value.large else None
  }

  /** `title?.english || title?.romaji || 'Untitled Anime'`. */
  function TitleOf(t: Option<MediaTitle>): (r: string)
    ensures r != ""
    ensures Truthy(English(t)) ==> r == English(t).value
    ensures !Truthy(English(t)) && Truthy(Romaji(t)) ==> r == Romaji(t).value
    ensures !Truthy(English(t)) && !Truthy(Romaji(t)) ==> r == Untitled
  {
    OrElse(English(t), OrElse(Romaji(t), Untitled))
  }

  function Min(a: int, b: int): int {
    if a <= b then a else b
  }

  /** `s.slice(0, n)`: the first `n` characters, or all of `s` when it is shorter. */
  function Slice(s: string, n: nat): (r: string)
    ensures |r| == Min(|s|, n)
    ensures r <= s
  {
    if |s| <= n then s else s[..n]
  }

  /**
   * The excerpt: for a non-empty description, the description with its tags
   * removed, cut to its first 200 characters, and followed by "..." in every
   * case; otherwise a fixed sentence.
   */
  function Excerpt(description: Option<string>): (r: string)
    ensures !Truthy(description) ==> r == NoDescription
    ensures Truthy(description) ==>
      var text := StripTags(description.value);
      && |r| == Min(|text|, ExcerptLength) + |Ellipsis|
      && |r| <= ExcerptLength + |Ellipsis|
      && r[..|r| - |Ellipsis|] <= text
      && r[|r| - |Ellipsis|..] == Ellipsis
  {
    if Truthy(description) then
      var r := Slice(StripTags(description.value), ExcerptLength) + Ellipsis;
      assert r[..|r| - |Ellipsis|] == Slice(StripTags(description.value), ExcerptLength);
      r
    else NoDescription
  }

  /**
   * Every excerpt is free of tags: no `<` in it is followed by a `>`; the
   * fixed sentence has no `<` at all. (Lone brackets can survive; see `UnclosedBracketSurvives` and `StrayCloseSurvives`.)
   */
  lemma ExcerptTagFree(description: Option<string>)
    ensures TagFree(Excerpt(description))
  {
    if !Truthy(description) {
      assert '<' !in NoDescription;
    } else {
      var text := StripTags(description.value);
      StripTagsTagFree(description.value);
      var r := Excerpt(description);
      var n := |r| - |Ellipsis|;
      forall i, j | 0 <= i < j < |r| && r[i] == '<'
        ensures r[j] != '>'
      {
        if j < n {
          assert r[i] == text[i] && r[j] == text[j];
        } else {
          assert r[j] == Ellipsis[j - n];
        }
      }
    }
  }

  /** A short description in which no `<` is followed by a `>` is kept whole, followed by "...". */
  lemma ExcerptOfTagFreeText(description: string)
    requires description != "" && TagFree(description) && |description| <= ExcerptLength
    ensures Excerpt(Some(description)) == description + Ellipsis
  {
    TagFreeUnchanged(description);
  }

  /**
   * An unclosed `<` survives: short text without brackets followed by a
   * lone `<` keeps that `<` in its excerpt.
   */
  lemma UnclosedBracketSurvives(text: string)
    requires '<' !in text && '>' !in text && |text| < ExcerptLength
    ensures Excerpt(Some(text + ['<'])) == text + ['<'] + Ellipsis
  {
    var d := text + ['<'];
    assert '>' !in d;
    assert TagFree(d);
    ExcerptOfTagFreeText(d);
  }

  /** A `>` that closes no tag survives as well: short text without `<` followed by a `>`. */
  lemma StrayCloseSurvives(text: string)
    requires '<' !in text && |text| < ExcerptLength
    ensures Excerpt(Some(text + ['>'])) == text + ['>'] + Ellipsis
  {
    var d := text + ['>'];
    assert '<' !in d;
    NoOpenBracketUnchanged(d);
  }

  /** A description that is one complete tag gives just "...", not the "no description" sentence. */
  lemma ExcerptOfLoneTag(inner: string)
    requires '>' !in inner
    ensures Excerpt(Some(['<'] + inner + ['>'])) == Ellipsis
  {
    var d := ['<'] + inner + ['>'];
    forall i | 0 <= i < |d| - 1
      ensures d[i] != '>'
    {
      if i > 0 {
        assert d[i] == inner[i - 1];
      }
    }
    FindExact(d, '>', 0, |d| - 1);
    assert StripTags(d) == StripFrom(d, |d|);
  }

  /** One media entry as a news record; fails exactly when the date cannot be formatted. */
  function ToNews(item: Media, formatDate: DateFormatter): (r: Attempt<AnimeNews>)
    ensures r.Threw? <==> formatDate(item.updatedAt).Threw?
    ensures r.Threw? ==> r.thrown == formatDate(item.updatedAt).thrown
    ensures r.Done? ==>
      && Populated(r.value)
      && r.value.title == TitleOf(item.title)
      && r.value.date == formatDate(item.updatedAt).value
      && r.value.forumUrl == (if Truthy(item.siteUrl) then item.siteUrl.value else NoForumUrl)
      && r.value.images.jpg.imageUrl
           == (if Truthy(LargeCover(item.coverImage)) then LargeCover(item.coverImage).value else PlaceholderImage)
      && r.value.excerpt == Excerpt(item.description)
  {
    match formatDate(item.updatedAt)
    case Threw(t) => Threw(t)
    case Done(date) =>
      Done(AnimeNews(
        title := TitleOf(item.title),
        date := date,
        authorUsername := Author,
        forumUrl := OrElse(item.siteUrl, NoForumUrl),
        images := Images(Jpg(OrElse(LargeCover(item.coverImage), PlaceholderImage))),
        excerpt := Excerpt(item.description)))
  }

  /** The `map` callback: a falsy entry becomes `null`, any other is mapped. */
  function MapEntry(entry: Option<Media>, formatDate: DateFormatter): (r: Attempt<Option<AnimeNews>>)
    ensures entry.None? ==> r == Done(None)
    ensures entry.Some? ==> (r.Threw? <==> formatDate(entry.value.updatedAt).Threw?)
    ensures entry.Some? && r.Threw? ==> r.thrown == formatDate(entry.value.updatedAt).thrown
    ensures entry.Some? && r.Done? ==> r.value.Some? && Populated(r.value.value)
  {
    match entry
    case None => Done(None)
    case Some(item) =>
      match ToNews(item, formatDate)
      case Threw(t) => Threw(t)
      case Done(n) => Done(Some(n))
  }

  /** `entries.map(...)`: the callback on each entry in turn; the first throw aborts the whole map. */
  function MapEntries(entries: seq<Option<Media>>, formatDate: DateFormatter): (r: Attempt<seq<Option<AnimeNews>>>)
    ensures r.Done? ==> |r.value| == |entries|
    ensures r.Done? ==> forall i :: 0 <= i < |entries| ==> MapEntry(entries[i], formatDate) == Done(r.value[i])
  {
    if entries == [] then Done([])
    else
      match MapEntry(entries[0], formatDate)
      case Threw(t) => Threw(t)
      case Done(head) =>
        match MapEntries(entries[1..], formatDate)
        case Threw(t) => Threw(t)
        case Done(tail) => Done([head] + tail)
  }

  /** `filter(Boolean)`: drops the `null` entries and keeps the others in order. */
  function Compact<T(!new)>(xs: seq<Option<T>>): (r: seq<T>)
    ensures |r| <= |xs|
    ensures forall x :: x in r <==> Some(x) in xs
  {
    if xs == [] then []
    else
      assert xs == [xs[0]] + xs[1..];
      match xs[0]
      case None => Compact(xs[1..])
      case Some(x) => [x] + Compact(xs[1..])
  }

  /** The number of non-null entries of `xs`. */
  function CountPresent<T>(xs: seq<Option<T>>): (n: nat) {
    if xs == [] then 0 else (if xs[0].Some? then 1 else 0) + CountPresent(xs[1..])
  }

  /** A list with a non-null entry has a positive count. */
  lemma {:induction false} CountPresentPositive<T>(xs: seq<Option<T>>, i: nat)
    requires i < |xs| && xs[i].Some?
    ensures CountPresent(xs) > 0
  {
    if i > 0 {
      CountPresentPositive(xs[1..], i - 1);
    }
  }

  /** Filtering keeps one value per non-null entry. */
  lemma {:induction false} CompactLength<T(!new)>(xs: seq<Option<T>>)
    ensures |Compact(xs)| == CountPresent(xs)
  {
    if xs != [] {
      CompactLength(xs[1..]);
    }
  }

  /**
   * Filtering keeps the order: a non-null entry lands at the position given
   * by the number of non-null entries before it.
   */
  lemma {:induction false} CompactPlacement<T(!new)>(xs: seq<Option<T>>, i: nat)
    requires i < |xs| && xs[i].Some?
    ensures CountPresent(xs[..i]) < |Compact(xs)|
    ensures Compact(xs)[CountPresent(xs[..i])] == xs[i].value
  {
    if i == 0 {
      assert xs[..0] == [];
      CompactLength(xs);
    } else {
      CompactPlacement(xs[1..], i - 1);
      assert xs[..i][1..] == xs[1..][..i - 1];
    }
  }

  /**
   * Reference for the list transformation: drop the falsy entries first,
   * then map each remaining item; the first throw aborts.
   */
  function ConvertAll(items: seq<Media>, formatDate: DateFormatter): (r: Attempt<seq<AnimeNews>>) {
    if items == [] then Done([])
    else
      match ToNews(items[0], formatDate)
      case Threw(t) => Threw(t)
      case Done(n) =>
        match ConvertAll(items[1..], formatDate)
        case Threw(t) => Threw(t)
        case Done(rest) => Done([n] + rest)
  }

  /** `entries.map(...).filter(Boolean)`. */
  function Transform(entries: seq<Option<Media>>, formatDate: DateFormatter): (r: Attempt<seq<AnimeNews>>)
    ensures r.Done? ==> |r.value| <= |entries|
  {
    match MapEntries(entries, formatDate)
    case Threw(t) => Threw(t)
    case Done(mapped) => Done(Compact(mapped))
  }

  /** Mapping then filtering is filtering then mapping, throws included. */
  lemma {:induction false} TransformIsConvertPresent(entries: seq<Option<Media>>, formatDate: DateFormatter)
    ensures Transform(entries, formatDate) == ConvertAll(Compact(entries), formatDate)
  {
    if entries != [] {
      TransformIsConvertPresent(entries[1..], formatDate);
      if entries[0].Some? {
        assert Compact(entries)[1..] == Compact(entries[1..]);
      }
    }
  }

  /** A successful conversion maps each item, in order, onto one record. */
  lemma {:induction false} ConvertAllPointwise(items: seq<Media>, formatDate: DateFormatter)
    ensures ConvertAll(items, formatDate).Done? ==>
      var news := ConvertAll(items, formatDate).value;
      && |news| == |items|
      && forall k :: 0 <= k < |items| ==> ToNews(items[k], formatDate) == Done(news[k])
  {
    if items != [] {
      ConvertAllPointwise(items[1..], formatDate);
    }
  }

  /**
   * On success there is one record per non-null entry, and the non-null
   * entry at position i becomes the record at position "number of non-null
   * entries before i"; every record is fully populated.
   */
  lemma TransformKeepsOrder(entries: seq<Option<Media>>, formatDate: DateFormatter)
    ensures Transform(entries, formatDate).Done? ==>
      var news := Transform(entries, formatDate).value;
      && |news| == CountPresent(entries)
      && (forall n :: n in news ==> Populated(n))
      && forall i :: 0 <= i < |entries| && entries[i].Some? ==>
           && CountPresent(entries[..i]) < |news|
           && ToNews(entries[i].value, formatDate) == Done(news[CountPresent(entries[..i])])
  {
    TransformIsConvertPresent(entries, formatDate);
    ConvertAllPointwise(Compact(entries), formatDate);
    CompactLength(entries);
    forall i | 0 <= i < |entries| && entries[i].Some? {
      CompactPlacement(entries, i);
    }
  }

  /**
   * `entries.map(...)` throws the throw of the first non-null entry whose
   * date cannot be formatted; every non-null entry before it was mapped.
   */
  lemma {:induction false} MapEntriesFirstFailure(entries: seq<Option<Media>>, formatDate: DateFormatter)
    ensures MapEntries(entries, formatDate).Threw? ==>
      exists i :: 0 <= i < |entries| && entries[i].Some?
        && formatDate(entries[i].value.updatedAt) == Threw(MapEntries(entries, formatDate).thrown)
        && forall j :: 0 <= j < i && entries[j].Some? ==> formatDate(entries[j].value.updatedAt).Done?
  {
    if entries != [] && MapEntry(entries[0], formatDate).Done? {
      MapEntriesFirstFailure(entries[1..], formatDate);
      if MapEntries(entries, formatDate).Threw? {
        var t := entries[1..];
        var i :| 0 <= i < |t| && t[i].Some?
          && formatDate(t[i].value.updatedAt) == Threw(MapEntries(entries, formatDate).thrown)
          && forall j :: 0 <= j < i && t[j].Some? ==> formatDate(t[j].value.updatedAt).Done?;
        assert entries[i + 1] == t[i];
        forall j | 0 <= j < i + 1 && entries[j].Some?
          ensures formatDate(entries[j].value.updatedAt).Done?
        {
          if j > 0 { assert entries[j] == t[j - 1]; }
        }
      }
    }
  }

  /** The list transformation fails exactly when some non-null entry's date cannot be formatted. */
  lemma TransformFailure(entries: seq<Option<Media>>, formatDate: DateFormatter)
    ensures Transform(entries, formatDate).Threw? <==>
      exists i :: 0 <= i < |entries| && entries[i].Some? && formatDate(entries[i].value.updatedAt).Threw?
    ensures Transform(entries, formatDate).Threw? ==>
      exists i :: 0 <= i < |entries| && entries[i].Some?
        && formatDate(entries[i].value.updatedAt) == Threw(Transform(entries, formatDate).thrown)
        && forall j :: 0 <= j < i && entries[j].Some? ==> formatDate(entries[j].value.updatedAt).Done?
  {
    MapEntriesFirstFailure(entries, formatDate);
    if MapEntries(entries, formatDate).Done? {
      forall i | 0 <= i < |entries| && entries[i].Some?
        ensures formatDate(entries[i].value.updatedAt).Done?
      {
        assert MapEntry(entries[i], formatDate).Done?;
      }
    }
  }
}
