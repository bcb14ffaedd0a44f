/**
 Worked examples on one concrete job, Acme / Engineer / NYC / [Go] / [Docker],
 whose searchable text is "acme engineer nyc go docker". Each example is
 stated for any job with that text and for any spelling of the typed text or
 tags that lower-cases to the words used; `AcmeText` shows that the example
 job is such a job.
 */
module Scenarios {
  import opened Strings
  import opened JobService
  import opened SearchSlice
  import opened Search
  import opened ExampleText

  /** The example job. */
  function Acme(): Job {
    Job(1, "Acme", "Engineer", "NYC", ["Go"], ["Docker"])
  }

  /** The example job's searchable text. */
  lemma AcmeText()
    ensures JobText(Acme()) == "acme engineer nyc go docker"
  {
    assert Fields(Acme()) == ["Acme", "Engineer", "NYC", "Go", "Docker"];
    LowerJoin(Fields(Acme()), " ");
    assert Lower(" ") == " ";
    AcmeFieldsLowered();
    AcmeJoined();
  }

  /** Two selected tags give their lower-cased spellings separated by one space. */
  lemma TwoTagsLowered(a: string, b: string)
    ensures Lower(Join([a, b], " ")) == Lower(a) + " " + Lower(b)
  {
    assert [a, b][1..] == [b];
    LowerAppend(a + " ", b);
    LowerAppend(a, " ");
  }

  /** With an empty text box the combined query is a space followed by the lower-cased tags. */
  lemma FullQueryNoText(tags: seq<string>)
    ensures FullQuery("", tags) == " " + Lower(Join(tags, " "))
  {
    FullQuerySplit("", tags);
    assert Lower("") + " " == " ";
  }

  /** With no tags selected the combined query is the lower-cased text followed by a space. */
  lemma FullQueryNoTags(query: string)
    ensures FullQuery(query, []) == Lower(query) + " "
  {
    FullQuerySplit(query, []);
    assert Lower(Join([], " ")) == "";
  }

  /** The filter alone keeps the job for "docker" and drops it for "java", a word with a 'j'. */
  lemma FilterAcme(j: Job)
    requires JobText(j) == "acme engineer nyc go docker"
    ensures FilterJobs([j], "docker") == [j]
    ensures FilterJobs([j], "java") == []
  {
    DockerOnlyAtEnd();
    FilterJobsSingle(j, "docker");
    QueriesNotInText();
    FilterJobsSingle(j, "java");
  }

  /**
   Typing "docker", in any case, with no tag selected searches for "docker "
   and loses the job, whose text ends in "docker", although the filter alone
   keeps it for "docker".
   */
  lemma TypingLastWordFindsNothing(j: Job, typed: string)
    requires JobText(j) == "acme engineer nyc go docker"
    requires Lower(typed) == "docker"
    ensures FilterJobs([j], Lower(typed)) == [j]
    ensures HandleSearch([j], typed, []) == []
  {
    var text := JobText(j);
    DockerOnlyAtEnd();
    OccursPastPrefix(text, "docker", 0, 21);
    TrailingSpaceMissesLastWord(j, typed);
  }

  /** Typing "go", in any case, with no tag selected searches for "go " and keeps the job. */
  lemma TypingIgnoresCase(j: Job, typed: string)
    requires JobText(j) == "acme engineer nyc go docker"
    requires Lower(typed) == "go"
    ensures HandleSearch([j], typed, []) == [j]
  {
    FullQueryNoTags(typed);
    QueryPieces();
    QueriesInText();
    FilterJobsSingle(j, "go ");
  }

  /** Selecting Go then Docker, in any case, searches for " go docker" and keeps the job... */
  lemma TagsInTextOrderMatch(j: Job, go: string, docker: string)
    requires JobText(j) == "acme engineer nyc go docker"
    requires Lower(go) == "go" && Lower(docker) == "docker"
    ensures HandleSearch([j], "", [go, docker]) == [j]
  {
    FullQueryNoText([go, docker]);
    TwoTagsLowered(go, docker);
    QueryPieces();
    QueriesInText();
    FilterJobsSingle(j, " go docker");
  }

  /** ...while selecting them in the other order searches for " docker go" and drops it. */
  lemma TagsOutOfOrderMiss(j: Job, go: string, docker: string)
    requires JobText(j) == "acme engineer nyc go docker"
    requires Lower(go) == "go" && Lower(docker) == "docker"
    ensures HandleSearch([j], "", [docker, go]) == []
  {
    FullQueryNoText([docker, go]);
    TwoTagsLowered(docker, go);
    QueryPieces();
    QueriesNotInText();
    FilterJobsSingle(j, " docker go");
  }

  /**
   From the initial state, clicking Go (in any case) shows the job, and
   clicking it again restores the initial view.
   */
  lemma ToggleGoTwice(j: Job, go: string)
    requires JobText(j) == "acme engineer nyc go docker"
    requires Lower(go) == "go"
    ensures HandleTagClick([j], InitialState(), go) == View(SearchState("", [go]), [j])
    ensures HandleTagClick([j], HandleTagClick([j], InitialState(), go).state, go)
         == View(InitialState(), [j])
  {
    FullQueryNoText([go]);
    assert Join([go], " ") == go;
    QueryPieces();
    QueriesInText();
    FilterJobsSingle(j, " go");
    ToggleAbsentTwice([j], InitialState(), go);
    EmptySearchShowsAll([j]);
  }

  /**
   Text typed before the jobs finish loading stays in the store, but the load
   puts every job on display: typing "java" first leaves the job on display
   although the search for "java " would drop it.
   */
  lemma QueryTypedBeforeLoadIsStale(j: Job, typed: string)
    requires JobText(j) == "acme engineer nyc go docker"
    requires Lower(typed) == "java"
    ensures LoadJobs(SearchState(typed, []), [j]).shown == [j]
    ensures !Consistent([j], LoadJobs(SearchState(typed, []), [j]))
  {
    FullQueryNoTags(typed);
    QueryPieces();
    QueriesNotInText();
    assert j in [j];
  }
}
