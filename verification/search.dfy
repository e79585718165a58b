/** `search_papers`: where a topic's store lives, and what one search does
    to it given the provider's hits and the file as it was read. */
module Search {
  import opened Topics
  import opened Paths
  import opened Papers
  import opened Store

  /** The root directory of all topic stores. */
  const PaperDir: string := "papers"

  /** The name of the store file inside a topic directory. */
  const InfoFile: string := "papers_info.json"

  /** What the search provider delivered: the hits, or an error raised while
      they were being fetched. The provider's results are produced lazily
      inside the loop, so an error surfaces after the directory was made and
      the old file was read, but before anything is saved. */
  datatype Feed = Delivered(hits: seq<Hit>) | ProviderError

  datatype SearchOutcome =
    | Saved(dir: string, file: string, info: PapersInfo, ids: seq<string>)
    | ProviderFailed(dir: string)

  /** `os.path.join(PAPER_DIR, slug)`: the directory made for a topic. */
  function TopicDir(topic: string): string {
    Join(PaperDir, Slug(topic))
  }

  /** The store file written for a topic. */
  function InfoPath(topic: string): string {
    Join(TopicDir(topic), InfoFile)
  }

  /** One search: the topic's directory is made in every case; when the
      provider delivers, the store written is the old mapping (empty if the
      file was missing or corrupt) with the hits merged in, and the ids of
      all hits come back in arrival order, each of them stored. */
  function SearchPapers(topic: string, feed: Feed, prior: Loaded): (r: SearchOutcome)
    ensures r.dir == TopicDir(topic)
    ensures r.ProviderFailed? <==> feed.ProviderError?
    ensures r.Saved? ==>
      && r.file == InfoPath(topic)
      && r.info.Keys == Prior(prior).Keys + IdSet(feed.hits)
      && |r.ids| == |feed.hits|
      && (forall i :: 0 <= i < |r.ids| ==> r.ids[i] == feed.hits[i].shortId && r.ids[i] in r.info)
  {
    match feed
    case ProviderError => ProviderFailed(TopicDir(topic))
    case Delivered(hits) =>
      Saved(TopicDir(topic), InfoPath(topic), Merge(Prior(prior), hits), Ids(hits))
  }

  /** A missing or unparseable store is replaced, not merged: the saved keys
      are exactly the ids of the hits. */
  lemma FreshStoreHoldsHits(topic: string, hits: seq<Hit>, prior: Loaded)
    requires prior.Missing? || prior.Corrupt?
    ensures SearchPapers(topic, Delivered(hits), prior).info.Keys == IdSet(hits)
  {
  }

  /** After a search, every hit's id maps to the record of the last hit
      carrying it, and every id stored before and not among the hits keeps
      its record. */
  lemma SavedRecords(topic: string, hits: seq<Hit>, prior: Loaded)
    ensures var r := SearchPapers(topic, Delivered(hits), prior);
      && (forall i :: 0 <= i < |hits| && LastWithId(hits, i) ==>
            hits[i].shortId in r.info && r.info[hits[i].shortId] == ToRecord(hits[i]))
      && (forall id :: id in Prior(prior) && id !in IdSet(hits) ==>
            id in r.info && r.info[id] == Prior(prior)[id])
  {
    MergeLastWins(Prior(prior), hits);
    MergeKeepsUntouched(Prior(prior), hits);
  }

  /** Searching a topic again with the same results, over the store the
      first search saved, saves the same store and returns the same ids,
      already-stored ones included. */
  lemma RepeatSearch(topic: string, hits: seq<Hit>, prior: Loaded)
    ensures var first := SearchPapers(topic, Delivered(hits), prior);
      var second := SearchPapers(topic, Delivered(hits), Ok(first.info));
      second.info == first.info && second.ids == first.ids
  {
    MergeIdempotent(Prior(prior), hits);
  }

  /** A later search over the saved store never drops an id: the new keys
      include every key saved before. */
  lemma StoreGrows(topic: string, hits: seq<Hit>, info: PapersInfo)
    ensures info.Keys <= SearchPapers(topic, Delivered(hits), Ok(info)).info.Keys
  {
  }

  /** Where the store goes. A slug without separators lands in
      `papers/<slug>/papers_info.json`; an empty topic writes the file into
      `papers/` itself; a slug starting with `/` replaces the root. */
  lemma StoreLayout(topic: string)
    ensures var s := Slug(topic);
      && (|s| > 0 && '/' !in s ==> InfoPath(topic) == PaperDir + "/" + s + "/" + InfoFile)
      && (|s| == 0 ==> InfoPath(topic) == PaperDir + "/" + InfoFile)
      && (|s| > 0 && s[0] == '/' ==> TopicDir(topic) == s)
  {
    var s := Slug(topic);
    if |s| > 0 && '/' !in s {
      assert TopicDir(topic) == PaperDir + "/" + s;
      assert TopicDir(topic)[|TopicDir(topic)| - 1] == s[|s| - 1];
    }
  }

  /** For slugs that are non-empty and free of separators, two topics write
      the same store file exactly when they have the same slug. */
  lemma SameStoreFile(a: string, b: string)
    requires |Slug(a)| > 0 && '/' !in Slug(a)
    requires |Slug(b)| > 0 && '/' !in Slug(b)
    ensures InfoPath(a) == InfoPath(b) <==> Slug(a) == Slug(b)
  {
    StoreLayout(a);
    StoreLayout(b);
    var sa, sb := Slug(a), Slug(b);
    var pa, pb := InfoPath(a), InfoPath(b);
    if pa == pb {
      var n := |PaperDir + "/"|;
      assert |sa| == |sb|;
      assert pa[n..n + |sa|] == sa;
      assert pb[n..n + |sb|] == sb;
    }
  }

  /** Without the separator condition distinct slugs can share a store:
      `ai/` and `ai` both write `papers/ai/papers_info.json`. */
  lemma TrailingSeparatorSharesStore()
    ensures Slug("ai/") != Slug("ai")
    ensures InfoPath("ai/") == InfoPath("ai") == "papers/ai/papers_info.json"
  {
    assert Slug("ai/")[2] == '/';
    assert TopicDir("ai/") == "papers/ai/";
    assert TopicDir("ai") == "papers/ai";
  }
}
