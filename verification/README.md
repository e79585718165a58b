# Research-paper server: store, resolver and text extractor in Dafny

The server exposes three tools. `search_papers` asks a literature index for
hits on a topic and merges their metadata into the topic's
`papers/<slug>/papers_info.json`. `extract_info` finds a paper id in
whichever topic store holds it. `extract_text_paper` turns a PDF into a
sibling `.txt` file. This project models the pure logic of all three in
`research_server.py`. Collaborators become inputs:

- the search provider is a `Feed`: the hits, or an error;
- the store file as read is a `Loaded`: `Missing`, `Corrupt` or `Ok(map)`;
- the root directory listing is a `seq<Entry>`, in listing order;
- the PDF reader is a `Pdf`: `Unreadable`, or one `Option<string>` per page.

Modules, one per concern:

- `Topics`: the slug `topic.lower().replace(" ", "_")`.
- `Paths`: `posixpath.join` for two parts, `splitext`, and the output path.
- `Dates`: `str(date)` as `YYYY-MM-DD`, and a parser that reads it back.
- `Papers`: hits, records, and the record built from a hit.
- `Store`: the load fallback, the last-write-wins fold, the id list.
- `Search`: `search_papers` as one function, plus the store's location.
- `Resolver`: the first-match scan of `extract_info`.
- `Extractor`: page-text assembly and `extract_text_paper`.

Only the space character `' '` is replaced
(`topic.lower().replace(" ", "_")`, research_server.py:40); tabs and newlines
stay.

Some edge cases follow from `posixpath.join` and are stated in
`Search.StoreLayout`. An empty topic writes `papers/papers_info.json`, a plain
file in the root that the scan passes over. The topics `.` and `..` write
`papers/./papers_info.json` (that same root-level file) and
`papers/../papers_info.json` (outside the root); the listing never yields `.`
or `..`, so the scan never reads them. A slug starting with `/` replaces the
root. A slug with a `/` before its last character lands in a nested
directory, but the scan only looks one level deep; a trailing `/` is absorbed
(`Search.TrailingSeparatorSharesStore`).

## Model

| member | source | states |
|---|---|---|
| Topics.Lower | research_server.py:40 | lower-casing keeps the length and lowers each character in place |
| Topics.Replace | research_server.py:40 | replacing one character keeps the length; each occurrence becomes the new character and every other character stays |
| Topics.Slug | research_server.py:40 | the slug is as long as the topic, holds no space and no upper-case letter, and position i is the slugged character i of the topic |
| Topics.SlugIdempotent | research_server.py:40 | slugging a slug gives the same slug |
| Topics.SameSlug | research_server.py:40 | two topics have the same slug iff they have equal length and agree character by character up to case and space/underscore |
| Paths.SplitExt | research_server.py:141 | `splitext` gives root + ext == path; ext is empty, or one dot followed by no dot and no separator |
| Paths.SplitExtFindsExtension | research_server.py:141 | the extension is non-empty iff the last path component has a dot with a non-dot character before it, so leading dots never start an extension |
| Paths.OutputPathShape | research_server.py:141 | the output path ends in `.txt`, keeps the input's directory part, and is the input minus its extension (if it has one) plus `.txt` |
| Paths.OutputPathStable | research_server.py:141 | when the input's name is not all dots, the output path of the output path is the output path itself |
| Dates.Decimal | research_server.py:61 | the decimal rendering of a number is a non-empty digit string that reads back as the number |
| Dates.DecimalNoLeadingZero | research_server.py:61 | the rendering has no leading zero: it starts with `0` only for the number 0, and then it is one character long |
| Dates.PadRoundTrip | research_server.py:61 | below 10^w, a zero-padded field is exactly w digits wide and reads back as the number |
| Dates.IsoDateRoundTrip | research_server.py:61 | every valid date renders as ten characters with dashes at offsets 4 and 7, and parses back to the same date |
| Papers.AuthorNames | research_server.py:58 | the stored authors are the hit's author names, one per author, in the provider's order |
| Papers.RecordOfHit | research_server.py:56-62 | the record keeps the title, summary and URL unchanged and the authors in order; `published` is ten characters and reads back as the hit's calendar date |
| Papers.RecordIgnoresTimeOfDay | research_server.py:61 | hits that differ only in the time of day of publication give equal records |
| Store.Ids | research_server.py:53-55 | the returned list has one id per hit, in arrival order, duplicates kept |
| Store.Merge | research_server.py:54-63 | after the merge the keys are exactly the old keys plus the hit ids, so no id is removed |
| Store.MergeKeepsUntouched | research_server.py:54-63 | an id stored before and carried by no hit keeps its previous record |
| Store.MergeLastWins | research_server.py:54-63 | each hit id maps to the record built from the last hit carrying that id |
| Store.LastOccurrence | research_server.py:54-63 | every id among the hits has a last hit carrying it, so last-write-wins covers every stored hit id |
| Store.MergeIsOverlay | research_server.py:54-63 | merging into a store is the same as laying the hits' own mapping over the old store |
| Store.MergeIdempotent | research_server.py:54-63 | merging the same hits twice gives the same store as merging them once |
| Store.MergeLoop | research_server.py:46-63 | the loop over the hits, starting from the loaded store or `{}`, builds the merged store and the id list of the fold definitions |
| Search.SearchPapers | research_server.py:37-71 | the topic directory is always made; a provider error saves nothing; otherwise the file is written at the topic's path, its keys are the prior keys plus the hit ids, and the returned ids are the hit ids in order, each one stored |
| Search.FreshStoreHoldsHits | research_server.py:46-50 | when the store file is missing or corrupt, the saved keys are exactly the hit ids |
| Search.SavedRecords | research_server.py:46-63 | in the saved store each hit id holds the record of its last hit, and each earlier id not among the hits keeps its record |
| Search.RepeatSearch | research_server.py:46-71 | searching again with the same hits over the saved store saves the same store and returns the same ids |
| Search.StoreGrows | research_server.py:46-67 | a search over an existing store keeps every key it had |
| Search.SameStoreFile | research_server.py:40-43 | for non-empty slugs without `/`, two topics write the same store file iff they have the same slug |
| Search.TrailingSeparatorSharesStore | research_server.py:40-43 | the topics `ai/` and `ai` have different slugs yet write the same `papers/ai/papers_info.json` |
| Search.StoreLayout | research_server.py:40-43 | a slug without `/` stores at `papers/<slug>/papers_info.json`; an empty topic stores at `papers/papers_info.json`; a slug starting with `/` replaces the root |
| Resolver.FirstIndex | research_server.py:85-97 | the index found is the first entry that is a directory with a parseable store holding the id; none is found iff no entry holds it |
| Resolver.Resolve | research_server.py:85-99 | the result is not found iff no entry holds the id; otherwise it is the id's record in the first entry that holds it |
| Resolver.ExtractInfo | research_server.py:85-99 | the reply is the not-found message naming the id iff no entry holds it; otherwise it is the record from the first entry holding it |
| Resolver.ResolveScan | research_server.py:85-99 | the loop with its early return and skipped entries computes the same result as the first-match definition |
| Resolver.LaterEntriesIrrelevant | research_server.py:85-94 | once an entry matches, entries listed after it cannot change the answer |
| Resolver.UnusableEntriesSkipped | research_server.py:85-97 | entries that hold nothing for the id (files, directories without a store, corrupt stores) are skipped, and the answer is that of the entries after them |
| Resolver.SearchThenResolve | research_server.py:40-99 | after a search on a non-empty topic without `/` saved its store, the id alone (no topic) resolves to the record of the last hit carrying it, if that topic's directory is the first entry holding the id; the store file sits under that entry's name (for `.` and `..` no listing has such an entry) |
| Resolver.FailedSearchLeavesNothing | research_server.py:41-97 | a topic directory without a store file (what a first search whose provider failed leaves) is passed over by the scan |
| Resolver.FailedSearchKeepsStore | research_server.py:41-97 | a failed search saves nothing, so the scan over the topic's directory sees the earlier store: an id it held is still found there, otherwise the directory is passed over |
| Extractor.ExtractText | research_server.py:118-138 | the page loop builds exactly the page-by-page accumulated text |
| Extractor.PageTextAppend | research_server.py:128-138 | the text of two runs of pages is the text of the first followed by the text of the second |
| Extractor.PageTextIsTerminatedTexts | research_server.py:118-138 | the text is the non-empty page texts in page order, each followed by `"\n\n"`; pages with `None` or `""` contribute nothing |
| Extractor.PageTextLength | research_server.py:118-138 | the text's length is the sum of `len(t) + 2` over the non-empty page texts |
| Extractor.BlankPagesGiveEmptyText | research_server.py:118-138 | when no page has text, the text is empty |
| Extractor.NumberedPages | research_server.py:128-138 | pages "Page 1", "Page 2", "Page 3" give `"Page 1\n\nPage 2\n\nPage 3\n\n"` |
| Extractor.ExtractTextPaper | research_server.py:112-152 | None is returned iff the path is not a file or the PDF is unreadable, and then nothing is written; otherwise the page text is written to the `.txt` output path, which is returned |
| Extractor.BlankDocumentWritesEmptyFile | research_server.py:118-148 | a readable PDF without page text still succeeds, writing an empty file at the output path |

## Left out

- The arXiv client and query (research_server.py:28-37) is a network call. It is an input `Feed`, and the `max_results` bound is the provider's to keep.
- PyPDF2 (research_server.py:122-134) is a foreign library. Its page texts, or a `PdfReadError` raised anywhere in the parse, are an input `Pdf`. The file is written only after the page loop, so a read error at any point writes nothing.
- JSON encoding and decoding are not modelled. A parsed store is a map. `extract_info` returns the record itself, not the indented JSON text of `json.dumps`.
- File I/O is not modelled: `open`, writes, `os.makedirs`, `os.listdir`, `isdir` and `isfile`. Their results are inputs (`Loaded`, `Entry`, `isFile`). Written files are returned as values.
- Exceptions that `research_server.py` does not catch are not modelled; each can propagate to the tool's caller. Which function raises depends on the case:
  - a missing `papers` root makes `extract_info` raise in `os.listdir` (line 85);
  - a permission error or a store file that is not UTF-8 can raise in either function (lines 47-48, 90-91);
  - a store path that is a directory raises in `search_papers` when it opens the file (line 47), but `extract_info` skips it because `isfile` is false (line 89);
  - a store that is valid JSON but not an object raises in `search_papers` only when there is at least one hit to store (line 63); with no hits it is written back unchanged (line 67). In `extract_info` a JSON array or string is searched with `in` (line 93), so the entry is skipped when the id is not in it, and indexing it with the id raises when it is (line 94).
- Listing order is an input. The OS decides it, and the model proves the first match in whatever order it is given.
- The FastMCP server, `@mcp.tool()` and `mcp.run` (research_server.py:6-14, 155-156) are transport. The `print` diagnostics are logging.
- The non-atomic read-modify-write of a store is a concurrency concern. The single-threaded model does not cover it.
- Topics.Lower: only `A`-`Z` are lowered. Python's `str.lower` also lowers non-ASCII letters and can change a string's length; the model leaves non-ASCII characters unchanged, so the slug's same-length property is stated for this ASCII lowering.
