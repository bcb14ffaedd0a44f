/**
 The search component: the query filter, the combined query built from the
 text box and the selected tags, and the two input handlers written as
 transitions from one view (store state plus the jobs handed to the display)
 to the next.
 */
module Search {
  import opened Seqs
  import opened Strings
  import opened JobService
  import opened SearchSlice

  /* ---------------------------------------------------------------------- */
  /* Query filter                                                            */
  /* ---------------------------------------------------------------------- */

  /** The searchable fields of a job, in the order they are joined. */
  function Fields(j: Job): seq<string> {
    [j.company, j.position, j.location] + j.languages + j.tools
  }

  /** The lower-cased, space-joined text a job is searched in. */
  function JobText(j: Job): (r: string)
    ensures forall i :: 0 <= i < |r| ==> !IsUpper(r[i])
    ensures forall k :: 0 <= k < |Fields(j)| ==> Contains(r, Lower(Fields(j)[k]))
  {
    var f := Fields(j);
    assert forall k :: 0 <= k < |f| ==> Contains(Lower(Join(f, " ")), Lower(f[k])) by {
      forall k | 0 <= k < |f|
        ensures Contains(Lower(Join(f, " ")), Lower(f[k]))
      {
        JoinContainsPart(f, " ", k);
        ContainsLower(Join(f, " "), f[k]);
      }
    }
    Lower(Join(f, " "))
  }

  /** The keep-predicate of the filter for one query. */
  function Matcher(q: string): Job -> bool {
    j => Includes(JobText(j), q)
  }

  /**
   `filterJobs`: the jobs whose text contains `q` as a contiguous substring,
   in their original order, each kept as often as it occurs.
   */
  function FilterJobs(jobs: seq<Job>, q: string): (r: seq<Job>)
    ensures IsSubsequence(r, jobs)
    ensures forall j :: j in r <==> j in jobs && Contains(JobText(j), q)
    ensures forall j :: multiset(r)[j] == if Contains(JobText(j), q) then multiset(jobs)[j] else 0
  {
    FilterIsSubsequence(jobs, Matcher(q));
    FilterMembership(jobs, Matcher(q));
    FilterCount(jobs, Matcher(q));
    Filter(jobs, Matcher(q))
  }

  /** Filtering again with the same query changes nothing. */
  lemma FilterJobsIdempotent(jobs: seq<Job>, q: string)
    ensures FilterJobs(FilterJobs(jobs, q), q) == FilterJobs(jobs, q)
  {
    FilterIdempotent(jobs, Matcher(q));
  }

  /** The empty query keeps every job, and no jobs give no jobs. */
  lemma {:induction false} FilterJobsEdgeCases(jobs: seq<Job>, q: string)
    ensures FilterJobs(jobs, "") == jobs
    ensures FilterJobs([], q) == []
  {
    forall k | 0 <= k < |jobs|
      ensures Matcher("")(jobs[k])
    {
      ContainsEmpty(JobText(jobs[k]));
    }
    FilterKeepsAll(jobs, Matcher(""));
  }

  /** A single job is kept exactly when its text contains the query. */
  lemma FilterJobsSingle(j: Job, q: string)
    ensures FilterJobs([j], q) == if Contains(JobText(j), q) then [j] else []
  {
    assert [j][1..] == [];
  }

  /** Filtering the concatenation of two job lists filters each list. */
  lemma FilterJobsAppend(a: seq<Job>, b: seq<Job>, q: string)
    ensures FilterJobs(a + b, q) == FilterJobs(a, q) + FilterJobs(b, q)
  {
    FilterAppend(a, b, Matcher(q));
  }

  /**
   A job's text has a space right after the company and another right after
   the position, since at least three fields are always joined.
   */
  lemma JobTextSpaces(j: Job)
    ensures OccursAt(JobText(j), " ", |j.company|)
    ensures OccursAt(JobText(j), " ", |j.company| + 1 + |j.position|)
  {
    var f := Fields(j);
    var joined := Join(f, " ");
    var rest := Join(f[1..], " ");
    assert joined == j.company + " " + rest;
    assert f[1..][0] == j.position;
    assert rest == j.position + " " + Join(f[1..][1..], " ");
    assert joined[|j.company|] == ' ';
    assert joined[|j.company| + 1 + |j.position|] == ' ';
    var text := JobText(j);
    assert text[|j.company|..|j.company| + 1] == " ";
    assert text[|j.company| + 1 + |j.position|..|j.company| + 1 + |j.position| + 1] == " ";
  }

  /* ---------------------------------------------------------------------- */
  /* Combined query                                                          */
  /* ---------------------------------------------------------------------- */

  /** `${query} ${tags.join(' ')}`, lower-cased. */
  function FullQuery(query: string, tags: seq<string>): (r: string)
    ensures |r| == |query| + 1 + |Join(tags, " ")|
    ensures r[..|query|] == Lower(query) && r[|query|] == ' '
    ensures r[|query| + 1..] == Lower(Join(tags, " "))
  {
    LowerAppend(query + " ", Join(tags, " "));
    LowerAppend(query, " ");
    Lower(query + " " + Join(tags, " "))
  }

  /** `handleSearch`: filter the jobs by the combined query. */
  function HandleSearch(jobs: seq<Job>, query: string, tags: seq<string>): (r: seq<Job>)
    ensures IsSubsequence(r, jobs)
    ensures forall j :: j in r <==> j in jobs && Contains(JobText(j), Lower(query) + " " + Lower(Join(tags, " ")))
    ensures forall j :: multiset(r)[j]
                        == if Contains(JobText(j), Lower(query) + " " + Lower(Join(tags, " "))) then multiset(jobs)[j] else 0
  {
    FullQuerySplit(query, tags);
    FilterJobs(jobs, FullQuery(query, tags))
  }

  /** The combined query splits into the lower-cased text plus a space, then the lower-cased tags. */
  lemma FullQuerySplit(query: string, tags: seq<string>)
    ensures FullQuery(query, tags) == (Lower(query) + " ") + Lower(Join(tags, " "))
  {
    var r := FullQuery(query, tags);
    assert r == r[..|query| + 1] + r[|query| + 1..];
    assert r[..|query| + 1] == r[..|query|] + [r[|query|]];
  }

  /**
   An empty text box and no selected tags give the query " ", which every
   job's text contains: clearing the search shows every job again.
   */
  lemma EmptySearchShowsAll(jobs: seq<Job>)
    ensures FullQuery("", []) == " "
    ensures HandleSearch(jobs, "", []) == jobs
  {
    var q := FullQuery("", []);
    assert q == " ";
    forall k | 0 <= k < |jobs|
      ensures Matcher(q)(jobs[k])
    {
      JobTextSpaces(jobs[k]);
    }
    FilterKeepsAll(jobs, Matcher(q));
  }

  /**
   Every job `handleSearch` keeps contains the lower-cased text followed by a
   space, the selected tags lower-cased and joined in selection order, and
   each selected tag on its own.
   */
  lemma HandleSearchKeptJobs(jobs: seq<Job>, query: string, tags: seq<string>, j: Job)
    ensures j in HandleSearch(jobs, query, tags) ==>
              && j in jobs
              && Contains(JobText(j), Lower(query) + " ")
              && Contains(JobText(j), Lower(Join(tags, " ")))
              && forall k :: 0 <= k < |tags| ==> Contains(JobText(j), Lower(tags[k]))
  {
    if j in HandleSearch(jobs, query, tags) {
      FullQuerySplit(query, tags);
      ContainsAppend(JobText(j), Lower(query) + " ", Lower(Join(tags, " ")));
      forall k | 0 <= k < |tags|
        ensures Contains(JobText(j), Lower(tags[k]))
      {
        JoinContainsPart(tags, " ", k);
        ContainsLower(Join(tags, " "), tags[k]);
        ContainsTransitive(JobText(j), Lower(Join(tags, " ")), Lower(tags[k]));
      }
    }
  }

  /** Appending a tag appends it, lower-cased and after a space if other tags precede it, to the combined query. */
  lemma FullQueryExtends(query: string, tags: seq<string>, t: string)
    ensures FullQuery(query, tags + [t]) == FullQuery(query, tags) + Lower(if |tags| == 0 then t else " " + t)
  {
    if |tags| == 0 {
      assert tags + [t] == [t];
      LowerAppend(query + " ", t);
      assert query + " " + "" == query + " ";
    } else {
      JoinSnoc(tags, " ", t);
      assert query + " " + Join(tags + [t], " ") == (query + " " + Join(tags, " ")) + (" " + t);
      LowerAppend(query + " " + Join(tags, " "), " " + t);
    }
  }

  /**
   Selecting one more tag extends the combined query at its end, so it can
   only narrow the jobs shown: every job kept afterwards was kept before.
   */
  lemma SelectingTagNarrows(jobs: seq<Job>, query: string, tags: seq<string>, t: string)
    ensures exists tail :: FullQuery(query, tags + [t]) == FullQuery(query, tags) + tail
    ensures forall j :: j in HandleSearch(jobs, query, tags + [t]) ==> j in HandleSearch(jobs, query, tags)
  {
    var tail := Lower(if |tags| == 0 then t else " " + t);
    FullQueryExtends(query, tags, t);
    var before, after := FullQuery(query, tags), FullQuery(query, tags + [t]);
    assert after == before + tail;
    forall j | j in FilterJobs(jobs, after)
      ensures j in FilterJobs(jobs, before)
    {
      ContainsAppend(JobText(j), before, tail);
    }
  }

  /** Two texts that differ only in letter case give the same filtered jobs. */
  lemma HandleSearchCaseInsensitive(jobs: seq<Job>, q1: string, q2: string, tags: seq<string>)
    requires Lower(q1) == Lower(q2)
    ensures FullQuery(q1, tags) == FullQuery(q2, tags)
    ensures HandleSearch(jobs, q1, tags) == HandleSearch(jobs, q2, tags)
  {
    FullQuerySplit(q1, tags);
    FullQuerySplit(q2, tags);
  }

  /**
   With no tags selected the combined query ends in a space, so a text that
   occurs in a job only at the very end of its text (the last tool, say) is
   found by the filter on its own but not through `handleSearch`.
   */
  lemma TrailingSpaceMissesLastWord(j: Job, query: string)
    requires Contains(JobText(j), Lower(query))
    requires forall i :: OccursAt(JobText(j), Lower(query), i) ==> i + |Lower(query)| == |JobText(j)|
    ensures FilterJobs([j], Lower(query)) == [j]
    ensures HandleSearch([j], query, []) == []
  {
    FullQuerySplit(query, []);
    var text := JobText(j);
    var full := Lower(query) + " ";
    assert FullQuery(query, []) == full;
    forall i | OccursAt(text, full, i)
      ensures OccursAt(text, Lower(query), i)
    {
      OccursAtAppend(text, Lower(query), " ", i);
    }
    assert !Contains(text, full);
    assert j !in HandleSearch([j], query, []);
  }

  /* ---------------------------------------------------------------------- */
  /* Input handlers                                                          */
  /* ---------------------------------------------------------------------- */

  /** The store's search state together with the jobs last handed to the display. */
  datatype View = View(state: SearchState, shown: seq<Job>)

  /** The jobs on display are the ones the current state selects. */
  ghost predicate Consistent(jobs: seq<Job>, v: View) {
    v.shown == HandleSearch(jobs, v.state.query, v.state.tags)
  }

  /**
   The dashboard's load: every loaded job goes on display, whatever the store
   holds. The display agrees with the search exactly when every loaded job
   matches the stored text and tags, which a query typed before the load
   completes need not do.
   */
  function LoadJobs(s: SearchState, loaded: seq<Job>): (r: View)
    ensures r.state == s && r.shown == loaded
    ensures Consistent(loaded, r) <==> forall j :: j in loaded ==> Contains(JobText(j), FullQuery(s.query, s.tags))
  {
    var q := FullQuery(s.query, s.tags);
    FilterMembership(loaded, Matcher(q));
    assert (forall j :: j in loaded ==> Contains(JobText(j), q)) ==> FilterJobs(loaded, q) == loaded by {
      if forall j :: j in loaded ==> Contains(JobText(j), q) {
        FilterKeepsAll(loaded, Matcher(q));
      }
    }
    View(s, loaded)
  }

  /** From the initial state the load shows exactly what the search would show. */
  lemma InitialViewConsistent(jobs: seq<Job>)
    ensures Consistent(jobs, LoadJobs(InitialState(), jobs))
  {
    EmptySearchShowsAll(jobs);
  }

  /**
   `handleTagClick`: a selected tag is removed, any other tag is appended;
   the handler filters with the tag list it computed itself, which is the
   list the reducer stores.
   */
  function HandleTagClick(jobs: seq<Job>, s: SearchState, tag: string): (r: View)
    ensures r.state.query == s.query
    ensures Consistent(jobs, r)
    ensures tag in r.state.tags <==> tag !in s.tags
    ensures forall x :: x != tag ==> (x in r.state.tags <==> x in s.tags)
    ensures NoDuplicates(s.tags) ==> NoDuplicates(r.state.tags)
    ensures tag !in s.tags ==> r.state.tags == s.tags + [tag]
    ensures tag in s.tags ==> IsSubsequence(r.state.tags, s.tags) && multiset(r.state.tags) == multiset(s.tags)[tag := 0]
  {
    if tag in s.tags then
      assert forall x :: x != tag ==> (x in Without(s.tags, tag) <==> x in s.tags) by {
        forall x | x != tag
          ensures x in Without(s.tags, tag) <==> x in s.tags
        {
          assert multiset(Without(s.tags, tag))[x] == multiset(s.tags)[x];
        }
      }
      View(RemoveTag(s, tag), HandleSearch(jobs, s.query, Without(s.tags, tag)))
    else
      NoDuplicatesSnoc(s.tags, tag);
      View(AddTag(s, tag), HandleSearch(jobs, s.query, s.tags + [tag]))
  }

  /** `handleInputChange`: the new text replaces the query and the jobs are filtered with it. */
  function HandleInputChange(jobs: seq<Job>, s: SearchState, text: string): (r: View)
    ensures r.state.query == text && r.state.tags == s.tags
    ensures Consistent(jobs, r)
  {
    View(SetSearchQuery(s, text), HandleSearch(jobs, text, s.tags))
  }

  /** Of two successive edits of the text box only the second counts, for the state and for the jobs shown. */
  lemma InputChangeLastWins(jobs: seq<Job>, s: SearchState, a: string, b: string)
    ensures HandleInputChange(jobs, HandleInputChange(jobs, s, a).state, b) == HandleInputChange(jobs, s, b)
  {
    SetSearchQueryLastWins(s, a, b);
  }

  /** Clicking a tag that is not selected twice restores the tags and the jobs on display. */
  lemma ToggleAbsentTwice(jobs: seq<Job>, s: SearchState, tag: string)
    requires tag !in s.tags
    ensures HandleTagClick(jobs, HandleTagClick(jobs, s, tag).state, tag)
         == View(s, HandleSearch(jobs, s.query, s.tags))
  {
    var once := HandleTagClick(jobs, s, tag);
    assert once.state.tags == s.tags + [tag];
    RemoveAfterAdd(s, tag);
  }

  /**
   Clicking a selected tag twice moves it to the end, the other tags keeping
   their order; from a list without duplicates the same tags remain, and the
   list changes unless the tag was already last.
   */
  lemma TogglePresentTwice(jobs: seq<Job>, s: SearchState, tag: string)
    requires tag in s.tags
    ensures HandleTagClick(jobs, HandleTagClick(jobs, s, tag).state, tag).state.tags
         == Without(s.tags, tag) + [tag]
    ensures NoDuplicates(s.tags) ==>
              multiset(HandleTagClick(jobs, HandleTagClick(jobs, s, tag).state, tag).state.tags)
              == multiset(s.tags)
    ensures s.tags[|s.tags| - 1] != tag ==>
              HandleTagClick(jobs, HandleTagClick(jobs, s, tag).state, tag).state.tags != s.tags
  {
    var twice := HandleTagClick(jobs, HandleTagClick(jobs, s, tag).state, tag).state.tags;
    assert twice == Without(s.tags, tag) + [tag];
    if NoDuplicates(s.tags) {
      NoDuplicatesOccursOnce(s.tags, tag);
      assert multiset(twice) == multiset(s.tags)[tag := 0] + multiset{tag};
    }
    if s.tags[|s.tags| - 1] != tag {
      assert twice[|twice| - 1] == tag;
    }
  }
}
