/**
 String facts about the example job Acme / Engineer / NYC / [Go] / [Docker],
 whose searchable text is "acme engineer nyc go docker". Kept apart from the
 search model so that each fact is checked on the strings alone.
 */
module ExampleText {
  import opened Strings

  lemma JoinedFromGo()
    ensures Join(["go", "docker"], " ") == "go docker"
  {
    assert ["go", "docker"][1..] == ["docker"];
  }

  lemma JoinedFromLocation()
    ensures Join(["nyc", "go", "docker"], " ") == "nyc go docker"
  {
    assert ["nyc", "go", "docker"][1..] == ["go", "docker"];
    JoinedFromGo();
  }

  lemma JoinedFromPosition()
    ensures Join(["engineer", "nyc", "go", "docker"], " ") == "engineer nyc go docker"
  {
    assert ["engineer", "nyc", "go", "docker"][1..] == ["nyc", "go", "docker"];
    JoinedFromLocation();
  }

  /** The lower-cased fields of the example job joined by spaces. */
  lemma AcmeJoined()
    ensures Join(["acme", "engineer", "nyc", "go", "docker"], " ") == "acme engineer nyc go docker"
  {
    var parts := ["acme", "engineer", "nyc", "go", "docker"];
    assert parts[1..] == ["engineer", "nyc", "go", "docker"];
    JoinedFromPosition();
    assert Join(parts, " ") == "acme" + " " + "engineer nyc go docker";
  }

  /** The example job's fields, lower-cased one by one. */
  lemma AcmeFieldsLowered()
    ensures LowerEach(["Acme", "Engineer", "NYC", "Go", "Docker"])
         == ["acme", "engineer", "nyc", "go", "docker"]
  {
    assert Lower("Acme") == "acme";
    assert Lower("Engineer") == "engineer";
    assert Lower("NYC") == "nyc";
    assert Lower("Go") == "go";
    assert Lower("Docker") == "docker";
  }

  /** "docker" ends the text, and no 'd' comes before it. */
  lemma DockerOnlyAtEnd()
    ensures OccursAt("acme engineer nyc go docker", "docker", 21)
    ensures 'd' !in "acme engineer nyc go docker"[..21]
  {
    assert "acme engineer nyc go docker"[..21] == "acme engineer nyc go ";
  }

  /** The text has no letter 'j'. */
  lemma NoLetterJ()
    ensures 'j' !in "acme engineer nyc go docker"
  {
  }

  /** " go docker" occurs from index 17, and so do " go" and, one further on, "go ". */
  lemma QueriesInText()
    ensures OccursAt("acme engineer nyc go docker", " go docker", 17)
    ensures OccursAt("acme engineer nyc go docker", " go", 17)
    ensures OccursAt("acme engineer nyc go docker", "go ", 18)
  {
  }

  /**
   " docker go" does not occur, since its 'd' would have to come before the
   only "docker"; "java" and "java " do not occur, since the text has no 'j'.
   */
  lemma QueriesNotInText()
    ensures !Contains("acme engineer nyc go docker", " docker go")
    ensures !Contains("acme engineer nyc go docker", "java")
    ensures !Contains("acme engineer nyc go docker", "java ")
  {
    var text := "acme engineer nyc go docker";
    DockerOnlyAtEnd();
    OccursPastPrefix(text, " docker go", 1, 21);
    NoLetterJ();
    assert text[..|text|] == text;
    OccursPastPrefix(text, "java", 0, |text|);
    OccursPastPrefix(text, "java ", 0, |text|);
  }

  /**
   The example queries written out from the pieces the combined query is
   assembled from: a leading or trailing space and the lower-cased words.
   */
  lemma QueryPieces()
    ensures " " + (("go" + " ") + "docker") == " go docker"
    ensures " " + (("docker" + " ") + "go") == " docker go"
    ensures " " + "go" == " go"
    ensures "go" + " " == "go "
    ensures "java" + " " == "java "
  {
  }
}
