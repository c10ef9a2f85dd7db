/**
 * The five actions of the course assistant.  Each reads the `categoria` and
 * `nombre_curso` slots, searches the catalog, and ends in exactly one
 * outcome: a reply, or one of four named responses the dialogue engine
 * turns into a prompt.
 *
 * Every action that searches with a loop is a method, proved equal to a
 * reference definition written as functions; the lemmas state what those
 * definitions mean.
 */
module Actions {
  import opened Options
  import opened Text
  import opened CourseCatalog

  /** The slots an action reads from the dialogue tracker; an unset slot is None. */
  datatype Slots = Slots(category: Option<string>, courseName: Option<string>)

  /** Python truthiness of an optional string: unset and empty are both false. */
  predicate Truthy(v: Option<string>) {
    v.Some? && v.value != ""
  }

  /**
   * The single outcome of an action: a reply carrying what its message
   * shows (names already in display case), or one of the responses
   * `utter_no_course_found`, `utter_no_category_found`,
   * `utter_ask_category_name`, `utter_ask_course_name`.
   */
  datatype Outcome =
    | CategoriesReply(categories: seq<string>)
    | MatchingCoursesReply(query: string, courses: seq<string>)
    | CategoryCoursesReply(category: string, courses: seq<string>)
    | PriceReply(course: string, price: string)
    | LinkReply(course: string, link: string)
    | InfoReply(course: string, price: string, link: string)
    | NoCourseFound(courseName: string)
    | NoCategoryFound(category: string)
    | AskCategoryName
    | AskCourseName

  /** `[name.title() for name in names]` */
  function TitleAll(names: seq<string>): seq<string> {
    seq(|names|, i requires 0 <= i < |names| => Title(names[i]))
  }

  // ---------------------------------------------------------------------
  // Listing the categories (ActionConsultarCategorias)
  // ---------------------------------------------------------------------

  /** `[cat.capitalize() for cat in cursos_data.keys()]` */
  function CategoryListing(catalog: Catalog): seq<string> {
    seq(|catalog|, i requires 0 <= i < |catalog| => Capitalize(catalog[i].name))
  }

  /** ActionConsultarCategorias: always answers with the listing. */
  function ConsultCategories(catalog: Catalog): Outcome {
    CategoriesReply(CategoryListing(catalog))
  }

  // ---------------------------------------------------------------------
  // Listing courses by name fragment or category (ActionConsultarCursosPorCategoria)
  // ---------------------------------------------------------------------

  /** The keys of `names` that contain `fragment`, in their order. */
  function Matching(names: seq<string>, fragment: string): seq<string> {
    if names == [] then []
    else (if Contains(names[0], fragment) then [names[0]] else []) + Matching(names[1..], fragment)
  }

  /** Every course key of the catalog containing `fragment`, in catalog order. */
  function MatchingCourses(catalog: Catalog, fragment: string): seq<string> {
    Matching(AllCourseNames(catalog), fragment)
  }

  /** Reference definition of ActionConsultarCursosPorCategoria. */
  function CoursesOutcome(catalog: Catalog, slots: Slots): Outcome {
    if Truthy(slots.courseName) then
      var name := slots.courseName.value;
      var found := MatchingCourses(catalog, CleanKey(name));
      if found != [] then MatchingCoursesReply(Title(name), TitleAll(found))
      else NoCourseFound(name)
    else if Truthy(slots.category) then
      var category := slots.category.value;
      var courses := FindCategory(catalog, CleanKey(category));
      if courses.Some? then CategoryCoursesReply(Capitalize(category), TitleAll(Names(courses.value)))
      else NoCategoryFound(category)
    else AskCategoryName
  }

  lemma {:induction false} MatchingConcat(a: seq<string>, b: seq<string>, fragment: string)
    ensures Matching(a + b, fragment) == Matching(a, fragment) + Matching(b, fragment)
  {
    if a == [] {
      assert a + b == b;
    } else {
      assert (a + b)[0] == a[0];
      assert (a + b)[1..] == a[1..] + b;
      MatchingConcat(a[1..], b, fragment);
    }
  }

  /**
   * The nested search of ActionConsultarCursosPorCategoria: every course key,
   * category by category, is tested for containing `fragment`.
   */
  method SearchByFragment(catalog: Catalog, fragment: string) returns (found: seq<string>)
    ensures found == MatchingCourses(catalog, fragment)
  {
    found := [];
    for i := 0 to |catalog|
      invariant found == Matching(AllCourseNames(catalog[..i]), fragment)
    {
      var courses := catalog[i].courses;
      ghost var before := AllCourseNames(catalog[..i]);
      assert before + Names(courses[..0]) == before;
      for j := 0 to |courses|
        invariant found == Matching(before + Names(courses[..j]), fragment)
      {
        var key := courses[j].name;
        if Contains(key, fragment) {
          found := found + [key];
        }
        assert Names(courses[..j + 1]) == Names(courses[..j]) + [key];
        assert before + Names(courses[..j + 1]) == (before + Names(courses[..j])) + [key];
        MatchingConcat(before + Names(courses[..j]), [key], fragment);
      }
      assert courses[..|courses|] == courses;
      assert catalog[..i + 1][..i] == catalog[..i];
    }
    assert catalog[..|catalog|] == catalog;
  }

  /**
   * ActionConsultarCursosPorCategoria.  A course-name slot is searched as a
   * fragment of every course key (SearchByFragment); otherwise a category
   * slot is looked up as an exact key; with neither, the category is asked for.
   */
  method ConsultCoursesByCategory(catalog: Catalog, slots: Slots) returns (o: Outcome)
    ensures o == CoursesOutcome(catalog, slots)
  {
    if Truthy(slots.courseName) {
      var name := slots.courseName.value;
      var fragment := CleanKey(name);
      var found := SearchByFragment(catalog, fragment);
      if found != [] {
        o := MatchingCoursesReply(Title(name), TitleAll(found));
      } else {
        o := NoCourseFound(name);
      }
    } else if Truthy(slots.category) {
      var category := slots.category.value;
      var courses := FindCategory(catalog, CleanKey(category));
      if courses.Some? {
        o := CategoryCoursesReply(Capitalize(category), TitleAll(Names(courses.value)));
      } else {
        o := NoCategoryFound(category);
      }
    } else {
      o := AskCategoryName;
    }
  }

  // ---------------------------------------------------------------------
  // Exact lookups (ActionConsultarPrecioCurso, ActionConsultarLinkCurso, ActionConsultarInfoCurso)
  // ---------------------------------------------------------------------

  /** Reference definition of ActionConsultarPrecioCurso: an empty price reads as not found. */
  function PriceOutcome(catalog: Catalog, slots: Slots): Outcome {
    if !Truthy(slots.courseName) then AskCourseName
    else
      var name := slots.courseName.value;
      var found := FirstMatch(catalog, CleanKey(name));
      if found.Some? && found.value.price != "" then PriceReply(Title(name), found.value.price)
      else NoCourseFound(name)
  }

  /** Reference definition of ActionConsultarLinkCurso: an empty link reads as not found. */
  function LinkOutcome(catalog: Catalog, slots: Slots): Outcome {
    if !Truthy(slots.courseName) then AskCourseName
    else
      var name := slots.courseName.value;
      var found := FirstMatch(catalog, CleanKey(name));
      if found.Some? && found.value.link != "" then LinkReply(Title(name), found.value.link)
      else NoCourseFound(name)
  }

  /** Reference definition of ActionConsultarInfoCurso: a found record is never empty. */
  function InfoOutcome(catalog: Catalog, slots: Slots): Outcome {
    if !Truthy(slots.courseName) then AskCourseName
    else
      var name := slots.courseName.value;
      var found := FirstMatch(catalog, CleanKey(name));
      if found.Some? then InfoReply(Title(name), found.value.price, found.value.link)
      else NoCourseFound(name)
  }

  /** ActionConsultarPrecioCurso: the first category holding the exact key gives the price. */
  method ConsultPrice(catalog: Catalog, slots: Slots) returns (o: Outcome)
    ensures o == PriceOutcome(catalog, slots)
  {
    if Truthy(slots.courseName) {
      var name := slots.courseName.value;
      var key := CleanKey(name);
      var foundPrice: Option<string> := None;
      for i := 0 to |catalog|
        invariant foundPrice == None
        invariant FirstMatch(catalog[i..], key) == FirstMatch(catalog, key)
      {
        var hit := Lookup(catalog[i].courses, key);
        if hit.Some? {
          assert FirstMatch(catalog, key) == hit;
          foundPrice := Some(hit.value.price);
          break;
        }
        assert catalog[i..][1..] == catalog[i + 1..];
      }
      if Truthy(foundPrice) {
        o := PriceReply(Title(name), foundPrice.value);
      } else {
        o := NoCourseFound(name);
      }
    } else {
      o := AskCourseName;
    }
  }

  /** ActionConsultarLinkCurso: the first category holding the exact key gives the link. */
  method ConsultLink(catalog: Catalog, slots: Slots) returns (o: Outcome)
    ensures o == LinkOutcome(catalog, slots)
  {
    if Truthy(slots.courseName) {
      var name := slots.courseName.value;
      var key := CleanKey(name);
      var foundLink: Option<string> := None;
      for i := 0 to |catalog|
        invariant foundLink == None
        invariant FirstMatch(catalog[i..], key) == FirstMatch(catalog, key)
      {
        var hit := Lookup(catalog[i].courses, key);
        if hit.Some? {
          assert FirstMatch(catalog, key) == hit;
          foundLink := Some(hit.value.link);
          break;
        }
        assert catalog[i..][1..] == catalog[i + 1..];
      }
      if Truthy(foundLink) {
        o := LinkReply(Title(name), foundLink.value);
      } else {
        o := NoCourseFound(name);
      }
    } else {
      o := AskCourseName;
    }
  }

  /** ActionConsultarInfoCurso: the first category holding the exact key gives the whole record. */
  method ConsultInfo(catalog: Catalog, slots: Slots) returns (o: Outcome)
    ensures o == InfoOutcome(catalog, slots)
  {
    if Truthy(slots.courseName) {
      var name := slots.courseName.value;
      var key := CleanKey(name);
      var foundInfo: Option<Course> := None;
      for i := 0 to |catalog|
        invariant foundInfo == None
        invariant FirstMatch(catalog[i..], key) == FirstMatch(catalog, key)
      {
        var hit := Lookup(catalog[i].courses, key);
        if hit.Some? {
          assert FirstMatch(catalog, key) == hit;
          foundInfo := hit;
          break;
        }
        assert catalog[i..][1..] == catalog[i + 1..];
      }
      if foundInfo.Some? {
        o := InfoReply(Title(name), foundInfo.value.price, foundInfo.value.link);
      } else {
        o := NoCourseFound(name);
      }
    } else {
      o := AskCourseName;
    }
  }

  // ---------------------------------------------------------------------
  // The fragment search
  // ---------------------------------------------------------------------

  /** `idx` lists, in increasing order, positions of `b` holding the elements of `a`. */
  ghost predicate Embeds(idx: seq<int>, a: seq<string>, b: seq<string>) {
    && |idx| == |a|
    && (forall k :: 0 <= k < |idx| ==> 0 <= idx[k] < |b| && b[idx[k]] == a[k])
    && (forall k :: 0 <= k < |idx| - 1 ==> idx[k] < idx[k + 1])
  }

  /** `a` is `b` with some elements left out and the rest kept in order. */
  ghost predicate IsSubsequence(a: seq<string>, b: seq<string>) {
    exists idx :: Embeds(idx, a, b)
  }

  /** A key is kept by the search exactly when it is one of the names and contains the fragment. */
  lemma {:induction false} MatchingMembership(names: seq<string>, fragment: string, key: string)
    ensures key in Matching(names, fragment) <==> key in names && Occurs(fragment, key)
  {
    if names != [] {
      MatchingMembership(names[1..], fragment, key);
      ContainsIffOccurs(names[0], fragment);
      assert names == [names[0]] + names[1..];
    }
  }

  /** Every position moved one place on. */
  function Shifted(idx: seq<int>): seq<int> {
    seq(|idx|, k requires 0 <= k < |idx| => idx[k] + 1)
  }

  /** An embedding into the tail of `b`, shifted, embeds into `b`, and may take `b[0]` in front. */
  lemma EmbedsInto(idx: seq<int>, a: seq<string>, b: seq<string>)
    requires b != [] && Embeds(idx, a, b[1..])
    ensures Embeds(Shifted(idx), a, b)
    ensures Embeds([0] + Shifted(idx), [b[0]] + a, b)
  {
    var full, r := [0] + Shifted(idx), [b[0]] + a;
    forall k | 0 <= k < |full|
      ensures 0 <= full[k] < |b| && b[full[k]] == r[k]
    {
      if k > 0 {
        assert full[k] == Shifted(idx)[k - 1] && r[k] == a[k - 1];
      }
    }
    forall k | 0 <= k < |full| - 1
      ensures full[k] < full[k + 1]
    {
      if k > 0 {
        assert full[k] == Shifted(idx)[k - 1] && full[k + 1] == Shifted(idx)[k];
      }
    }
  }

  /** The search keeps the names in their original order. */
  lemma {:induction false} MatchingInOrder(names: seq<string>, fragment: string)
    ensures IsSubsequence(Matching(names, fragment), names)
  {
    if names == [] {
      assert Embeds([], [], names);
    } else {
      var rest := Matching(names[1..], fragment);
      MatchingInOrder(names[1..], fragment);
      var idx :| Embeds(idx, rest, names[1..]);
      EmbedsInto(idx, rest, names);
      if Contains(names[0], fragment) {
        assert Embeds([0] + Shifted(idx), Matching(names, fragment), names);
      } else {
        assert Embeds(Shifted(idx), Matching(names, fragment), names);
      }
    }
  }

  /** Distinct names give a result without repetitions. */
  lemma {:induction false} MatchingDistinct(names: seq<string>, fragment: string)
    requires NoDuplicates(names)
    ensures NoDuplicates(Matching(names, fragment))
  {
    if names != [] {
      var rest := Matching(names[1..], fragment);
      assert NoDuplicates(names[1..]) by {
        forall i, j | 0 <= i < j < |names[1..]|
          ensures names[1..][i] != names[1..][j]
        {
          assert names[1..][i] == names[i + 1] && names[1..][j] == names[j + 1];
        }
      }
      MatchingDistinct(names[1..], fragment);
      if Contains(names[0], fragment) {
        MatchingMembership(names[1..], fragment, names[0]);
        assert names[0] !in names[1..] by {
          forall i | 0 <= i < |names[1..]|
            ensures names[1..][i] != names[0]
          {
            assert names[1..][i] == names[i + 1];
          }
        }
        var r := [names[0]] + rest;
        forall i, j | 0 <= i < j < |r|
          ensures r[i] != r[j]
        {
          if i == 0 {
            assert r[j] == rest[j - 1];
            assert rest[j - 1] in rest;
          } else {
            assert r[i] == rest[i - 1] && r[j] == rest[j - 1];
          }
        }
      }
    }
  }

  /** The empty fragment is contained in every key, so it lists them all. */
  lemma {:induction false} EmptyFragmentMatchesAll(names: seq<string>)
    ensures Matching(names, "") == names
  {
    if names != [] {
      EmptyFragmentMatchesAll(names[1..]);
      assert [] <= names[0];
      assert names == [names[0]] + names[1..];
    }
  }

  /**
   * The course-name search lists exactly the course keys of the catalog
   * that contain the fragment, in catalog order, each once when the catalog
   * keeps its invariants.
   */
  lemma MatchingCoursesExactly(catalog: Catalog, fragment: string)
    ensures forall key :: key in MatchingCourses(catalog, fragment) <==> HasCourse(catalog, key) && Occurs(fragment, key)
    ensures IsSubsequence(MatchingCourses(catalog, fragment), AllCourseNames(catalog))
    ensures IsDict(catalog) && UniqueCourseNames(catalog) ==> NoDuplicates(MatchingCourses(catalog, fragment))
  {
    forall key
      ensures key in MatchingCourses(catalog, fragment) <==> HasCourse(catalog, key) && Occurs(fragment, key)
    {
      MatchingMembership(AllCourseNames(catalog), fragment, key);
      AllCourseNamesMembership(catalog, key);
    }
    MatchingInOrder(AllCourseNames(catalog), fragment);
    if IsDict(catalog) && UniqueCourseNames(catalog) {
      AllCourseNamesDistinct(catalog);
      MatchingDistinct(AllCourseNames(catalog), fragment);
    }
  }

  // ---------------------------------------------------------------------
  // ActionConsultarCursosPorCategoria: which branch answers
  // ---------------------------------------------------------------------

  /** A truthy course-name slot wins: the category slot is then never read. */
  lemma CourseNameSlotWins(catalog: Catalog, courseName: Option<string>, c1: Option<string>, c2: Option<string>)
    requires Truthy(courseName)
    ensures CoursesOutcome(catalog, Slots(c1, courseName)) == CoursesOutcome(catalog, Slots(c2, courseName))
    ensures CoursesOutcome(catalog, Slots(c1, courseName)).MatchingCoursesReply?
         || CoursesOutcome(catalog, Slots(c1, courseName)) == NoCourseFound(courseName.value)
  {
  }

  /**
   * With a truthy course-name slot the answer is `utter_no_course_found`
   * exactly when no course key contains the cleaned name, and otherwise the
   * title-cased list of the keys that do.
   */
  lemma FragmentSearchOutcome(catalog: Catalog, slots: Slots)
    requires Truthy(slots.courseName)
    ensures var name := slots.courseName.value;
      (CoursesOutcome(catalog, slots) == NoCourseFound(name)) <==>
        (forall key :: HasCourse(catalog, key) ==> !Occurs(CleanKey(name), key))
    ensures var name := slots.courseName.value;
      CoursesOutcome(catalog, slots).MatchingCoursesReply? ==>
        && CoursesOutcome(catalog, slots).query == Title(name)
        && |CoursesOutcome(catalog, slots).courses| == |MatchingCourses(catalog, CleanKey(name))|
        && forall i :: 0 <= i < |CoursesOutcome(catalog, slots).courses| ==>
             var key := MatchingCourses(catalog, CleanKey(name))[i];
             && CoursesOutcome(catalog, slots).courses[i] == Title(key)
             && HasCourse(catalog, key) && Occurs(CleanKey(name), key)
  {
    var name := slots.courseName.value;
    var found := MatchingCourses(catalog, CleanKey(name));
    MatchingCoursesExactly(catalog, CleanKey(name));
    if found != [] {
      assert found[0] in found;
    } else {
      forall key | HasCourse(catalog, key)
        ensures !Occurs(CleanKey(name), key)
      {
      }
    }
  }

  /**
   * A truthy course name that cleans to nothing (only characters outside
   * ASCII that do not decompose) is contained in every key, so every course
   * of the catalog is listed.
   */
  lemma UnreadableNameListsAll(catalog: Catalog, slots: Slots)
    requires Truthy(slots.courseName) && CleanKey(slots.courseName.value) == ""
    requires AllCourseNames(catalog) != []
    ensures CoursesOutcome(catalog, slots) ==
      MatchingCoursesReply(Title(slots.courseName.value), TitleAll(AllCourseNames(catalog)))
  {
    EmptyFragmentMatchesAll(AllCourseNames(catalog));
  }

  /**
   * Without a truthy course-name slot but with a truthy category slot the
   * category is looked up as an exact key: it answers with that category's
   * courses when the cleaned name is a category key and with
   * `utter_no_category_found` otherwise.
   */
  lemma CategoryBranchOutcome(catalog: Catalog, slots: Slots)
    requires !Truthy(slots.courseName) && Truthy(slots.category)
    ensures var category := slots.category.value;
      CoursesOutcome(catalog, slots).CategoryCoursesReply? <==> CleanKey(category) in CategoryNames(catalog)
    ensures var category := slots.category.value;
      !CoursesOutcome(catalog, slots).CategoryCoursesReply? ==> CoursesOutcome(catalog, slots) == NoCategoryFound(category)
    ensures var category := slots.category.value;
      IsDict(catalog) ==> forall i :: 0 <= i < |catalog| && catalog[i].name == CleanKey(category) ==>
        CoursesOutcome(catalog, slots) == CategoryCoursesReply(Capitalize(category), TitleAll(Names(catalog[i].courses)))
  {
    var category := slots.category.value;
    if IsDict(catalog) {
      forall i | 0 <= i < |catalog| && catalog[i].name == CleanKey(category)
        ensures CoursesOutcome(catalog, slots) == CategoryCoursesReply(Capitalize(category), TitleAll(Names(catalog[i].courses)))
      {
        FindCategoryFindsStoredCourses(catalog, i);
      }
    }
  }

  /** With neither slot truthy the category is asked for, and only then. */
  lemma AskCategoryOnlyWithoutSlots(catalog: Catalog, slots: Slots)
    ensures CoursesOutcome(catalog, slots) == AskCategoryName <==> !Truthy(slots.courseName) && !Truthy(slots.category)
  {
  }

  /**
   * A listed category leads back to its courses: the displayed name of the
   * `i`-th category, given as the category slot, is found again and answers
   * with that category's courses.
   */
  lemma ListedCategoryLeadsBack(catalog: Catalog, i: int)
    requires IsDict(catalog) && CanonicalKeys(catalog)
    requires 0 <= i < |catalog| && catalog[i].name != ""
    ensures |CategoryListing(catalog)| == |catalog|
    ensures CleanKey(CategoryListing(catalog)[i]) == catalog[i].name
    ensures CoursesOutcome(catalog, Slots(Some(CategoryListing(catalog)[i]), None)) ==
      CategoryCoursesReply(Capitalize(CategoryListing(catalog)[i]), TitleAll(Names(catalog[i].courses)))
  {
    var shown := CategoryListing(catalog)[i];
    CleanKeyIgnoresDisplayCase(catalog[i].name);
    CleanKeyOfCanonical(catalog[i].name);
    assert shown != "" by {
      assert |shown| > 0;
    }
    CategoryBranchOutcome(catalog, Slots(Some(shown), None));
  }

  // ---------------------------------------------------------------------
  // Exact lookups: outcomes
  // ---------------------------------------------------------------------

  /** The exact lookups ask for the course name exactly when that slot is not truthy. */
  lemma AskCourseNameOnlyWithoutSlot(catalog: Catalog, slots: Slots)
    ensures PriceOutcome(catalog, slots) == AskCourseName <==> !Truthy(slots.courseName)
    ensures LinkOutcome(catalog, slots) == AskCourseName <==> !Truthy(slots.courseName)
    ensures InfoOutcome(catalog, slots) == AskCourseName <==> !Truthy(slots.courseName)
  {
  }

  /**
   * First match wins: a found record is the one stored under the cleaned
   * name in the earliest category holding that key, and the info action
   * finds one exactly when some category holds the key.
   */
  lemma ExactLookupFirstMatch(catalog: Catalog, slots: Slots)
    requires Truthy(slots.courseName)
    ensures var key := CleanKey(slots.courseName.value);
      InfoOutcome(catalog, slots).InfoReply? <==> HasCourse(catalog, key)
    ensures var key := CleanKey(slots.courseName.value);
      InfoOutcome(catalog, slots).InfoReply? ==>
        exists i :: 0 <= i < |catalog|
          && Entry(key, Course(InfoOutcome(catalog, slots).price, InfoOutcome(catalog, slots).link)) in catalog[i].courses
          && forall j :: 0 <= j < i ==> key !in Names(catalog[j].courses)
    ensures var name := slots.courseName.value;
      !InfoOutcome(catalog, slots).InfoReply? ==> InfoOutcome(catalog, slots) == NoCourseFound(name)
  {
    FirstMatchIsEarliest(catalog, CleanKey(slots.courseName.value));
  }

  /**
   * The three exact lookups agree: price and link come from the same record
   * as the info reply, and the price and link actions report
   * `utter_no_course_found` for a found course only when that field is empty.
   */
  lemma ExactLookupsAgree(catalog: Catalog, slots: Slots)
    ensures InfoOutcome(catalog, slots).InfoReply? ==>
      var info := InfoOutcome(catalog, slots);
      && (PriceOutcome(catalog, slots) == if info.price != "" then PriceReply(info.course, info.price) else NoCourseFound(slots.courseName.value))
      && (LinkOutcome(catalog, slots) == if info.link != "" then LinkReply(info.course, info.link) else NoCourseFound(slots.courseName.value))
    ensures !InfoOutcome(catalog, slots).InfoReply? ==>
      PriceOutcome(catalog, slots) == InfoOutcome(catalog, slots) && LinkOutcome(catalog, slots) == InfoOutcome(catalog, slots)
  {
  }

  /**
   * In a catalog keeping its invariants, any name that cleans to a stored
   * key finds that key's own record.
   */
  lemma StoredCourseOutcomes(catalog: Catalog, i: int, key: string, c: Course, name: string)
    requires IsDict(catalog) && UniqueCourseNames(catalog)
    requires 0 <= i < |catalog| && Entry(key, c) in catalog[i].courses
    requires name != "" && CleanKey(name) == key
    ensures InfoOutcome(catalog, Slots(None, Some(name))) == InfoReply(Title(name), c.price, c.link)
    ensures PriceOutcome(catalog, Slots(None, Some(name))) ==
      if c.price != "" then PriceReply(Title(name), c.price) else NoCourseFound(name)
    ensures LinkOutcome(catalog, Slots(None, Some(name))) ==
      if c.link != "" then LinkReply(Title(name), c.link) else NoCourseFound(name)
  {
    FirstMatchFindsStoredRecord(catalog, i, key, c);
  }

  /**
   * Every course the fragment search shows can be asked about by its shown
   * name: the title-cased key cleans back to the key, whose record answers.
   */
  lemma ShownCourseLeadsBack(catalog: Catalog, i: int, key: string, c: Course)
    requires IsDict(catalog) && UniqueCourseNames(catalog) && CanonicalKeys(catalog)
    requires 0 <= i < |catalog| && Entry(key, c) in catalog[i].courses && key != ""
    ensures CleanKey(Title(key)) == key
    ensures InfoOutcome(catalog, Slots(None, Some(Title(key)))) == InfoReply(Title(Title(key)), c.price, c.link)
  {
    var j :| 0 <= j < |catalog[i].courses| && catalog[i].courses[j] == Entry(key, c);
    assert IsCanonical(catalog[i].courses[j].name);
    CleanKeyIgnoresDisplayCase(key);
    CleanKeyOfCanonical(key);
    TitleFromLength(key, false);
    StoredCourseOutcomes(catalog, i, key, c, Title(key));
  }
}
