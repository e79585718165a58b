/** A search hit as the provider delivers it, and the record the server
    stores for it under `title`, `authors`, `summary`, `pdf_url` and
    `published`. */
module Papers {
  import opened Wrappers
  import opened Dates

  datatype Author = Author(name: string)

  /** One result from the search provider. `shortId` is `get_short_id()`. */
  datatype Hit = Hit(
    shortId: string,
    title: string,
    authors: seq<Author>,
    summary: string,
    pdfUrl: string,
    published: DateTime)

  /** The metadata stored for one paper. */
  datatype Record = Record(
    title: string,
    authors: seq<string>,
    summary: string,
    pdfUrl: string,
    published: string)

  /** `[author.name for author in paper.authors]`: one name per author, in
      the provider's order. */
  function AuthorNames(authors: seq<Author>): (names: seq<string>)
    ensures |names| == |authors|
    ensures forall i :: 0 <= i < |authors| ==> names[i] == authors[i].name
  {
    if |authors| == 0 then [] else [authors[0].name] + AuthorNames(authors[1..])
  }

  /** The record built for a hit. */
  function ToRecord(h: Hit): Record {
    Record(h.title, AuthorNames(h.authors), h.summary, h.pdfUrl, FormatDate(DateOf(h.published)))
  }

  /** What a stored record keeps of its hit: title, summary and URL as they
      were, the authors' names in order, and the publication date without its
      time of day, which reads back as the hit's calendar date. */
  lemma RecordOfHit(h: Hit)
    requires ValidDate(DateOf(h.published))
    ensures var r := ToRecord(h);
      && r.title == h.title && r.summary == h.summary && r.pdfUrl == h.pdfUrl
      && |r.authors| == |h.authors|
      && (forall i :: 0 <= i < |h.authors| ==> r.authors[i] == h.authors[i].name)
      && |r.published| == 10
      && ParseIsoDate(r.published) == Some(Date(h.published.year, h.published.month, h.published.day))
  {
    IsoDateRoundTrip(DateOf(h.published));
  }

  /** Hits that differ only in the time of day of their publication give the
      same record. */
  lemma RecordIgnoresTimeOfDay(h: Hit, hour: nat, minute: nat, second: nat)
    ensures ToRecord(h.(published := h.published.(hour := hour, minute := minute, second := second)))
         == ToRecord(h)
  {
  }
}
