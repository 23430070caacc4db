/** The concrete requests and lookups exercised by the videos controller tests. */
module ControllerExamples {
  import opened Wrappers
  import opened Text
  import opened Videos
  import opened CatalogService

  /** The create request of the controller tests. */
  const Alf: VideoParams := VideoParams(
    Some("Alf the movie"), Some("The most early 90s movie of all time"), Some("2025-12-16"),
    Some("6"), Some("6"))

  /** The "Alf the movie" request is valid: posting it to any store adds
      exactly one video, under the next id, with counts 6 and 6. */
  lemma AlfIsCreated(c: Catalog)
    requires Valid(c)
    ensures
      var (c', r) := Create(c, Alf);
      && r == Success(c.nextId)
      && |c'.videos| == |c.videos| + 1
      && Show(c', c.nextId) == Success(Video(c.nextId, "Alf the movie",
           "The most early 90s movie of all time", "2025-12-16", 6, 6))
  {
    assert !IsSpace('A') && !IsSpace('T') && !IsSpace('2');
    assert Alf.title.value[0] == 'A' && Alf.overview.value[0] == 'T' && Alf.releaseDate.value[0] == '2';
    assert ParseInteger("6") == Some(6) by {
      assert "6" == FormatInteger(6);
      ParseFormatRoundTrip(6);
    }
    ValidIffAllAcceptable(Alf);
    CreateThenShow(c, Alf);
  }

  /** The same request with a null title is rejected: the store is unchanged
      and the error map holds `title` with "can't be blank", and nothing else. */
  lemma NullTitleIsRejected(c: Catalog)
    ensures
      var (c', r) := Create(c, Alf.(title := None));
      && c' == c
      && r == Failure(map[Title := [Blank]])
  {
    var p := Alf.(title := None);
    assert !IsSpace('T') && !IsSpace('2');
    assert p.overview.value[0] == 'T' && p.releaseDate.value[0] == '2';
    assert ParseInteger("6") == Some(6) by {
      assert "6" == FormatInteger(6);
      ParseFormatRoundTrip(6);
    }
    var errors := Validate(p);
    assert Acceptable(Overview, p.Get(Overview)) && Acceptable(ReleaseDate, p.Get(ReleaseDate));
    assert Acceptable(TotalInventory, p.Get(TotalInventory));
    assert Acceptable(AvailableInventory, p.Get(AvailableInventory));
    assert errors.Keys == {Title} by {
      forall f ensures f in errors <==> f == Title {
        assert p.Get(f) == Alf.Get(f) || f == Title;
      }
    }
    assert errors[Title] == [Blank];
    assert errors == map[Title := [Blank]];
  }

  /** The invalid-create test wraps its fields under a `video` key; read as a
      flat field set, every field is then absent. The store is unchanged and
      every field is reported, `title` with "can't be blank". */
  lemma NestedPayloadIsRejected(c: Catalog)
    ensures
      var (c', r) := Create(c, VideoParams(None, None, None, None, None));
      && c' == c
      && r.Failure?
      && r.error.Keys == AllFields
      && r.error[Title] == [Blank]
  {
    EmptyRequestReportsEveryField();
  }

  /** Looking up id -1 answers NotFound, whatever the store holds. */
  lemma MinusOneIsNotFound(c: Catalog)
    requires Valid(c)
    ensures Show(c, -1) == Failure(NotFound)
  {
    UnknownIdNotFound(c, -1);
  }
}
