/** A topic's `papers_info.json`: the mapping from paper id to record, how it
    is loaded, and how the hits of one search are folded into it. */
module Store {
  import opened Papers

  /** The contents of one store: paper id to record. */
  type PapersInfo = map<string, Record>

  /** The outcome of reading a store file: absent, not valid JSON, or a
      mapping. */
  datatype Loaded = Missing | Corrupt | Ok(info: PapersInfo)

  /** The mapping a search starts from: a missing or unparseable file counts
      as the empty mapping. */
  function Prior(l: Loaded): PapersInfo {
    match l
    case Ok(info) => info
    case _ => map[]
  }

  /** The ids of the hits, in arrival order, duplicates kept. */
  function Ids(hits: seq<Hit>): (ids: seq<string>)
    ensures |ids| == |hits|
    ensures forall i :: 0 <= i < |hits| ==> ids[i] == hits[i].shortId
  {
    if |hits| == 0 then [] else Ids(hits[..|hits| - 1]) + [hits[|hits| - 1].shortId]
  }

  /** The set of ids among the hits. */
  function IdSet(hits: seq<Hit>): set<string> {
    set h | h in hits :: h.shortId
  }

  /** Hit `i` is the last one carrying its id. */
  ghost predicate LastWithId(hits: seq<Hit>, i: int) {
    0 <= i < |hits| && forall j :: i < j < |hits| ==> hits[j].shortId != hits[i].shortId
  }

  /** Folds the hits into the mapping one after the other, each one
      overwriting whatever its id held before. No id is ever removed: the
      merged keys are the old keys plus the ids of the hits, and nothing
      else. */
  function Merge(info: PapersInfo, hits: seq<Hit>): (m: PapersInfo)
    ensures m.Keys == info.Keys + IdSet(hits)
  {
    if |hits| == 0 then info
    else
      var last := hits[|hits| - 1];
      IdSetSnoc(hits);
      Merge(info, hits[..|hits| - 1])[last.shortId := ToRecord(last)]
  }

  lemma IdSetSnoc(hits: seq<Hit>)
    requires |hits| > 0
    ensures IdSet(hits) == IdSet(hits[..|hits| - 1]) + {hits[|hits| - 1].shortId}
  {
    assert hits == hits[..|hits| - 1] + [hits[|hits| - 1]];
  }

  /** An id the hits do not carry keeps its previous record unchanged. */
  lemma {:induction false} MergeKeepsUntouched(info: PapersInfo, hits: seq<Hit>)
    ensures forall id :: id in info && id !in IdSet(hits) ==>
      id in Merge(info, hits) && Merge(info, hits)[id] == info[id]
  {
    if |hits| > 0 {
      MergeKeepsUntouched(info, hits[..|hits| - 1]);
      IdSetSnoc(hits);
    }
  }

  /** Last write wins: an id carried by the hits maps to the record built
      from the last hit carrying it. */
  lemma {:induction false} MergeLastWins(info: PapersInfo, hits: seq<Hit>)
    ensures forall i :: 0 <= i < |hits| && LastWithId(hits, i) ==>
      hits[i].shortId in Merge(info, hits) && Merge(info, hits)[hits[i].shortId] == ToRecord(hits[i])
  {
    if |hits| > 0 {
      var init, last := hits[..|hits| - 1], hits[|hits| - 1];
      MergeLastWins(info, init);
      forall i | 0 <= i < |hits| && LastWithId(hits, i)
        ensures hits[i].shortId in Merge(info, hits)
        ensures Merge(info, hits)[hits[i].shortId] == ToRecord(hits[i])
      {
        if i < |hits| - 1 {
          assert init[i] == hits[i];
          assert last.shortId != hits[i].shortId;
          assert LastWithId(init, i);
        }
      }
    }
  }

  /** Every id among the hits has a last hit carrying it. */
  lemma {:induction false} LastOccurrence(hits: seq<Hit>, id: string)
    requires id in IdSet(hits)
    ensures exists i :: LastWithId(hits, i) && hits[i].shortId == id
  {
    var init, last := hits[..|hits| - 1], hits[|hits| - 1];
    if last.shortId == id {
      assert LastWithId(hits, |hits| - 1);
    } else {
      IdSetSnoc(hits);
      LastOccurrence(init, id);
      var i :| LastWithId(init, i) && init[i].shortId == id;
      assert LastWithId(hits, i);
    }
  }

  /** Merging is laying the hits' own mapping over the old one. */
  lemma {:induction false} MergeIsOverlay(info: PapersInfo, hits: seq<Hit>)
    ensures Merge(info, hits) == info + Merge(map[], hits)
  {
    if |hits| > 0 {
      var init, last := hits[..|hits| - 1], hits[|hits| - 1];
      MergeIsOverlay(info, init);
      var own := Merge(map[], init);
      assert (info + own)[last.shortId := ToRecord(last)]
          == info + own[last.shortId := ToRecord(last)];
    }
  }

  /** Storing the same hits a second time changes nothing. */
  lemma MergeIdempotent(info: PapersInfo, hits: seq<Hit>)
    ensures Merge(Merge(info, hits), hits) == Merge(info, hits)
  {
    var own := Merge(map[], hits);
    MergeIsOverlay(info, hits);
    MergeIsOverlay(info + own, hits);
    assert (info + own) + own == info + own;
  }

  /** The loop of `search_papers`: appends each hit's id to the result list
      and stores its record, over the mapping loaded from the file. */
  method MergeLoop(prior: Loaded, hits: seq<Hit>) returns (info: PapersInfo, ids: seq<string>)
    ensures info == Merge(Prior(prior), hits)
    ensures ids == Ids(hits)
  {
    info := Prior(prior);
    ids := [];
    var i := 0;
    while i < |hits|
      invariant 0 <= i <= |hits|
      invariant info == Merge(Prior(prior), hits[..i])
      invariant ids == Ids(hits[..i])
    {
      var h := hits[i];
      ids := ids + [h.shortId];
      info := info[h.shortId := ToRecord(h)];
      assert hits[..i + 1][..i] == hits[..i];
      i := i + 1;
    }
    assert hits[..i] == hits;
  }
}
