/**
 The search slice of the store: the tag extractor and the search state with
 its three reducers, each reducer written as a pure function from the old
 state to the new one.
 */
module SearchSlice {
  import opened Seqs
  import opened JobService

  /* ---------------------------------------------------------------------- */
  /* Tag extractor                                                           */
  /* ---------------------------------------------------------------------- */

  /**
   Every tag of every job, job by job, each job's languages before its tools;
   a string is among them exactly when some job carries it.
   */
  function AllTags(jobs: seq<Job>): (r: seq<string>)
    ensures forall t :: t in r <==> exists j :: j in jobs && j.HasTag(t)
    decreases |jobs|
  {
    if |jobs| == 0 then []
    else
      var prefix := jobs[..|jobs| - 1];
      var last := jobs[|jobs| - 1];
      var r := AllTags(prefix) + last.Tags();
      assert jobs == prefix + [last];
      assert forall t :: t in r <==> exists j :: j in jobs && j.HasTag(t) by {
        forall t
          ensures t in r <==> exists j :: j in jobs && j.HasTag(t)
        {
          if t in r && t !in AllTags(prefix) {
            assert last.HasTag(t);
          }
          if t !in r {
            forall j | j in jobs
              ensures !j.HasTag(t)
            {
              if j != last {
                assert j in prefix;
              }
            }
          }
        }
      }
      r
  }

  /** One more job appends its tags to the collected tags. */
  lemma AllTagsSnoc(jobs: seq<Job>, i: int)
    requires 0 <= i < |jobs|
    ensures AllTags(jobs[..i + 1]) == AllTags(jobs[..i]) + jobs[i].languages + jobs[i].tools
  {
    assert jobs[..i + 1][..i] == jobs[..i];
  }

  /**
   `xs.forEach(x => tagsSet.add(x))`: inserts each value into an
   insertion-ordered set, so the set holding the first occurrences of `seen`
   ends up holding the first occurrences of `seen + xs`.
   */
  method AddEach(tags: seq<string>, ghost seen: seq<string>, xs: seq<string>) returns (r: seq<string>)
    requires tags == Dedup(seen)
    ensures r == Dedup(seen + xs)
  {
    r := tags;
    var k := 0;
    assert seen + xs[..k] == seen;
    while k < |xs|
      invariant 0 <= k <= |xs|
      invariant r == Dedup(seen + xs[..k])
    {
      DedupSnoc(seen + xs[..k], xs[k]);
      assert seen + xs[..k + 1] == seen + xs[..k] + [xs[k]];
      if xs[k] !in r {
        r := r + [xs[k]];
      }
      k := k + 1;
    }
    assert xs[..k] == xs;
  }

  /**
   `getUniqueTags`: every distinct language and tool string across `jobs`,
   kept in the order in which it is first met, job by job, languages before
   tools: the order in which `Array.from` reads back the `Set` they were
   inserted into.
   */
  method GetUniqueTags(jobs: seq<Job>) returns (tags: seq<string>)
    ensures tags == Dedup(AllTags(jobs))
    ensures NoDuplicates(tags)
    ensures forall t :: t in tags <==> exists j :: j in jobs && j.HasTag(t)
  {
    tags := [];
    var i := 0;
    while i < |jobs|
      invariant 0 <= i <= |jobs|
      invariant tags == Dedup(AllTags(jobs[..i]))
    {
      var job := jobs[i];
      tags := AddEach(tags, AllTags(jobs[..i]), job.languages);
      tags := AddEach(tags, AllTags(jobs[..i]) + job.languages, job.tools);
      AllTagsSnoc(jobs, i);
      i := i + 1;
    }
    assert jobs[..i] == jobs;
    DedupNoDuplicates(AllTags(jobs));
    DedupMembership(AllTags(jobs));
  }

  /* ---------------------------------------------------------------------- */
  /* Search state and reducers                                               */
  /* ---------------------------------------------------------------------- */

  /** The text typed into the search box and the selected tags, in selection order. */
  datatype SearchState = SearchState(query: string, tags: seq<string>)

  /** The state the store starts from. */
  function InitialState(): (s: SearchState)
    ensures s.query == "" && s.tags == []
  {
    SearchState("", [])
  }

  /** `setSearchQuery`: the payload replaces the query; the tags are untouched. */
  function SetSearchQuery(s: SearchState, q: string): (r: SearchState)
    ensures r.query == q && r.tags == s.tags
  {
    s.(query := q)
  }

  /** `addTag`: the tag is pushed at the end, whether or not it is already selected. */
  function AddTag(s: SearchState, t: string): (r: SearchState)
    ensures r.query == s.query
    ensures |r.tags| == |s.tags| + 1 && r.tags[..|s.tags|] == s.tags && r.tags[|s.tags|] == t
  {
    s.(tags := s.tags + [t])
  }

  /** `tags.filter(tag => tag !== t)`: every occurrence of `t` removed, the rest kept in order. */
  function Without(tags: seq<string>, t: string): (r: seq<string>)
    ensures t !in r
    ensures IsSubsequence(r, tags)
    ensures multiset(r) == multiset(tags)[t := 0]
    ensures t !in tags ==> r == tags
    ensures NoDuplicates(tags) ==> NoDuplicates(r)
  {
    var keep: string -> bool := x => x != t;
    FilterNoDuplicates(tags, keep);
    FilterIsSubsequence(tags, keep);
    FilterCount(tags, keep);
    FilterMembership(tags, keep);
    assert multiset(Filter(tags, keep)) == multiset(tags)[t := 0];
    assert t !in tags ==> Filter(tags, keep) == tags by {
      if t !in tags {
        FilterKeepsAll(tags, keep);
      }
    }
    Filter(tags, keep)
  }

  /** `removeTag`: every occurrence of the tag is dropped; the query is untouched. */
  function RemoveTag(s: SearchState, t: string): (r: SearchState)
    ensures r.query == s.query
    ensures t !in r.tags
    ensures IsSubsequence(r.tags, s.tags)
    ensures multiset(r.tags) == multiset(s.tags)[t := 0]
    ensures t !in s.tags ==> r == s
  {
    s.(tags := Without(s.tags, t))
  }

  /** Removing a tag twice is the same as removing it once. */
  lemma RemoveTagIdempotent(s: SearchState, t: string)
    ensures RemoveTag(RemoveTag(s, t), t) == RemoveTag(s, t)
  {
  }

  /** Removing a tag that was just added gives what removing it from the old state gives. */
  lemma RemoveAfterAdd(s: SearchState, t: string)
    ensures RemoveTag(AddTag(s, t), t) == RemoveTag(s, t)
  {
    FilterAppend(s.tags, [t], x => x != t);
  }

  /** The query and the tags are independent: setting the query commutes with both tag reducers. */
  lemma QueryAndTagsIndependent(s: SearchState, q: string, t: string)
    ensures SetSearchQuery(AddTag(s, t), q) == AddTag(SetSearchQuery(s, q), t)
    ensures SetSearchQuery(RemoveTag(s, t), q) == RemoveTag(SetSearchQuery(s, q), t)
  {
  }

  /** Only the last `setSearchQuery` counts. */
  lemma SetSearchQueryLastWins(s: SearchState, a: string, b: string)
    ensures SetSearchQuery(SetSearchQuery(s, a), b) == SetSearchQuery(s, b)
  {
  }
}
