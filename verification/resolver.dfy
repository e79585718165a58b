/** `extract_info`: finds a paper id in whichever topic store holds it, by a
    first-match scan over the entries of the root directory. */
module Resolver {
  import opened Wrappers
  import opened Topics
  import opened Papers
  import opened Store
  import opened Search

  /** One entry of the root directory listing: its name, whether it is a
      directory, and what reading its `papers_info.json` gave. The file is
      only looked at for directories. */
  datatype Entry = Entry(name: string, isDir: bool, file: Loaded)

  datatype Resolution = Found(record: Record) | NotFound

  /** What the tool hands back: the record (rendered as JSON by the server)
      or a human-readable message. */
  datatype Reply = PaperJson(record: Record) | Message(text: string)

  /** The entry is a directory whose store file exists, parses, and holds
      the id. Non-directories, directories without a store file, and
      corrupt store files never hold anything. */
  predicate Holds(e: Entry, id: string) {
    e.isDir && e.file.Ok? && id in e.file.info
  }

  /** Entry `k` is the first one holding the id. */
  ghost predicate FirstHolding(entries: seq<Entry>, id: string, k: int) {
    0 <= k < |entries| && Holds(entries[k], id)
    && forall j :: 0 <= j < k ==> !Holds(entries[j], id)
  }

  /** The position of the first entry holding the id, if any. */
  function FirstIndex(entries: seq<Entry>, id: string): (k: Option<nat>)
    ensures k.None? <==> forall i :: 0 <= i < |entries| ==> !Holds(entries[i], id)
    ensures k.Some? ==> FirstHolding(entries, id, k.value)
  {
    if |entries| == 0 then None
    else if Holds(entries[0], id) then Some(0)
    else
      match FirstIndex(entries[1..], id)
      case None => None
      case Some(k) => Some(k + 1)
  }

  /** The scan: the record from the first directory, in listing order, whose
      readable store holds the id; not found (never an error) when no
      directory does. */
  function Resolve(entries: seq<Entry>, id: string): (r: Resolution)
    ensures r.NotFound? <==> forall i :: 0 <= i < |entries| ==> !Holds(entries[i], id)
    ensures r.Found? ==> exists k :: FirstHolding(entries, id, k) && r.record == entries[k].file.info[id]
  {
    match FirstIndex(entries, id)
    case None => NotFound
    case Some(k) => Found(entries[k].file.info[id])
  }

  /** The fixed reply when no store holds the id. */
  function NotFoundMessage(id: string): string {
    "There's no saved information related to paper " + id + "."
  }

  /** `extract_info`: the resolved record, or the not-found message naming
      the id. */
  function ExtractInfo(entries: seq<Entry>, id: string): (r: Reply)
    ensures r.Message? <==> forall i :: 0 <= i < |entries| ==> !Holds(entries[i], id)
    ensures r.Message? ==> r.text == NotFoundMessage(id)
    ensures r.PaperJson? ==> exists k :: FirstHolding(entries, id, k) && r.record == entries[k].file.info[id]
  {
    match Resolve(entries, id)
    case Found(record) => PaperJson(record)
    case NotFound => Message(NotFoundMessage(id))
  }

  /** The loop of `extract_info`, returning from inside it at the first
      match and skipping every entry that is not a usable store. */
  method ResolveScan(entries: seq<Entry>, id: string) returns (r: Resolution)
    ensures r == Resolve(entries, id)
  {
    var i := 0;
    while i < |entries|
      invariant 0 <= i <= |entries|
      invariant forall j :: 0 <= j < i ==> !Holds(entries[j], id)
    {
      var e := entries[i];
      if e.isDir {
        match e.file
        case Ok(info) =>
          if id in info {
            assert FirstHolding(entries, id, i);
            return Found(info[id]);
          }
        case _ =>
      }
      i := i + 1;
    }
    return NotFound;
  }

  /** The first holding entry is unique. */
  lemma FirstHoldingUnique(entries: seq<Entry>, id: string, k: int, k': int)
    requires FirstHolding(entries, id, k) && FirstHolding(entries, id, k')
    ensures k == k'
  {
  }

  /** Entries listed after a match do not change the answer. */
  lemma {:induction false} LaterEntriesIrrelevant(a: seq<Entry>, b: seq<Entry>, id: string)
    requires Resolve(a, id).Found?
    ensures Resolve(a + b, id) == Resolve(a, id)
  {
    var k :| FirstHolding(a, id, k) && Resolve(a, id).record == a[k].file.info[id];
    assert FirstHolding(a + b, id, k) by {
      assert (a + b)[k] == a[k];
      forall j | 0 <= j < k ensures !Holds((a + b)[j], id) {
        assert (a + b)[j] == a[j];
      }
    }
    var k' :| FirstHolding(a + b, id, k') && Resolve(a + b, id).record == (a + b)[k'].file.info[id];
    FirstHoldingUnique(a + b, id, k, k');
  }

  /** Entries that hold nothing for the id — files, directories without a
      store, corrupt stores, stores without the id — are skipped, not
      fatal: the answer is that of the entries after them. */
  lemma {:induction false} UnusableEntriesSkipped(a: seq<Entry>, b: seq<Entry>, id: string)
    requires forall i :: 0 <= i < |a| ==> !Holds(a[i], id)
    ensures Resolve(a + b, id) == Resolve(b, id)
  {
    var ab := a + b;
    forall i | 0 <= i < |b| ensures ab[|a| + i] == b[i] { }
    forall i | 0 <= i < |a| ensures ab[i] == a[i] { }
    match Resolve(b, id)
    case NotFound =>
      forall i | 0 <= i < |ab| ensures !Holds(ab[i], id) {
        if i >= |a| { assert ab[i] == b[i - |a|]; }
      }
    case Found(rec) =>
      var k :| FirstHolding(b, id, k) && rec == b[k].file.info[id];
      assert FirstHolding(ab, id, |a| + k) by {
        forall j | 0 <= j < |a| + k ensures !Holds(ab[j], id) {
          if j >= |a| { assert ab[j] == b[j - |a|]; }
        }
      }
      var k' :| FirstHolding(ab, id, k') && Resolve(ab, id).record == ab[k'].file.info[id];
      FirstHoldingUnique(ab, id, |a| + k, k');
  }

  /** Cross-topic resolution: after a search on a non-empty topic without a
      `/` saved its store, a listing in which that topic's directory is the
      first to hold a hit's id resolves the id, with no topic given, to the
      record of the last hit carrying it. The entry's name is the one the
      search's store file sits under. The topics `.` and `..` are the
      exception in practice: their store is `papers/./papers_info.json` or
      `papers/../papers_info.json`, and a listing never has an entry named
      `.` or `..`, so no listing meets the hypothesis for them. */
  lemma SearchThenResolve(topic: string, hits: seq<Hit>, prior: Loaded,
                          entries: seq<Entry>, k: nat, i: nat)
    requires |topic| > 0 && '/' !in topic
    requires LastWithId(hits, i)
    requires k < |entries|
    requires entries[k] == Entry(Slug(topic), true, Ok(SearchPapers(topic, Delivered(hits), prior).info))
    requires forall j :: 0 <= j < k ==> !Holds(entries[j], hits[i].shortId)
    ensures Resolve(entries, hits[i].shortId) == Found(ToRecord(hits[i]))
    ensures ExtractInfo(entries, hits[i].shortId) == PaperJson(ToRecord(hits[i]))
    ensures SearchPapers(topic, Delivered(hits), prior).file
         == PaperDir + "/" + entries[k].name + "/" + InfoFile
  {
    var id := hits[i].shortId;
    assert '/' !in Slug(topic) by {
      forall j | 0 <= j < |topic| ensures Slug(topic)[j] != '/' {
        assert topic[j] != '/';
      }
    }
    StoreLayout(topic);
    SavedRecords(topic, hits, prior);
    assert FirstHolding(entries, id, k);
    var k' :| FirstHolding(entries, id, k') && Resolve(entries, id).record == entries[k'].file.info[id];
    FirstHoldingUnique(entries, id, k, k');
  }

  /** A topic directory without a store file, which is what a first search
      whose provider failed leaves behind, is passed over by the scan. */
  lemma FailedSearchLeavesNothing(topic: string, entries: seq<Entry>, id: string)
    ensures Resolve([Entry(Slug(topic), true, Missing)] + entries, id) == Resolve(entries, id)
  {
    UnusableEntriesSkipped([Entry(Slug(topic), true, Missing)], entries, id);
  }

  /** A failed search saves nothing, so the scan sees the topic's store as
      it was before the search: an id the earlier store held is still found
      there, and otherwise the directory is passed over. */
  lemma FailedSearchKeepsStore(topic: string, prior: Loaded, entries: seq<Entry>, id: string)
    ensures SearchPapers(topic, ProviderError, prior).ProviderFailed?
    ensures var listing := [Entry(Slug(topic), true, prior)] + entries;
      Resolve(listing, id)
        == if prior.Ok? && id in prior.info then Found(prior.info[id]) else Resolve(entries, id)
  {
    var e := Entry(Slug(topic), true, prior);
    if Holds(e, id) {
      assert ([e] + entries)[0] == e;
    } else {
      UnusableEntriesSkipped([e], entries, id);
    }
  }
}
