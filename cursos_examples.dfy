/**
 * The actions run against the stored catalog, on a few slot values.
 */
module CursosExamples {
  import opened Options
  import opened Text
  import opened CourseCatalog
  import opened Actions

  /** Asking "unity 2d" for its info finds the Videojuegos record. */
  lemma UnityInfo(name: string)
    requires name == "unity 2d"
    ensures InfoOutcome(CursosData, Slots(None, Some(name))) == InfoReply("Unity 2D", "$90", "https://tucurso.com/unity2d")
  {
    CursosDataInvariants();
    assert Videojuegos.courses[0] == Entry(name, Course("$90", "https://tucurso.com/unity2d"));
    assert CursosData[4] == Videojuegos;
    assert IsCanonical(CursosData[4].courses[0].name);
    CleanKeyOfCanonical(name);
    TitleExample(name);
    StoredCourseOutcomes(CursosData, 4, name, Course("$90", "https://tucurso.com/unity2d"), name);
  }

  /** The accented, capitalised category "Programación" lists the Programacion courses. */
  lemma ProgramacionWithAccent(category: string)
    requires category == "Programaci\U{F3}n"
    ensures CoursesOutcome(CursosData, Slots(Some(category), None)) ==
      CategoryCoursesReply(Capitalize(category), TitleAll(Names(Programacion.courses)))
  {
    CursosDataInvariants();
    KeyExampleProgramacion(category);
    assert CursosData[1].name == "programacion";
    CategoryBranchOutcome(CursosData, Slots(Some(category), None));
  }

  /** A name that is no stored key gets `utter_no_course_found` from all three exact lookups. */
  lemma UnknownCourse(name: string)
    requires name == "curso inexistente"
    ensures InfoOutcome(CursosData, Slots(None, Some(name))) == NoCourseFound(name)
    ensures PriceOutcome(CursosData, Slots(None, Some(name))) == NoCourseFound(name)
    ensures LinkOutcome(CursosData, Slots(None, Some(name))) == NoCourseFound(name)
  {
    assert IsCanonical(name);
    CleanKeyOfCanonical(name);
    forall i | 0 <= i < |CursosData|
      ensures name !in Names(CursosData[i].courses)
    {
    }
    ExactLookupFirstMatch(CursosData, Slots(None, Some(name)));
    ExactLookupsAgree(CursosData, Slots(None, Some(name)));
  }

  /** A category that is no stored key gets `utter_no_category_found`. */
  lemma UnknownCategory(category: string)
    requires category == "categoria rara"
    ensures CoursesOutcome(CursosData, Slots(Some(category), None)) == NoCategoryFound(category)
  {
    assert IsCanonical(category);
    CleanKeyOfCanonical(category);
    assert category !in CategoryNames(CursosData);
    CategoryBranchOutcome(CursosData, Slots(Some(category), None));
  }
}
