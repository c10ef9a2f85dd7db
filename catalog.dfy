/**
 * The course catalog `cursos_data`: a dictionary from category key to a
 * dictionary from course key to the course record.  Both levels are kept as
 * sequences of key/value pairs, so the insertion order in which Python
 * iterates a dict is part of the value; `IsDict` says that no key repeats.
 */
module CourseCatalog {
  import opened Options
  import opened Text
  import CatalogKeys

  /** A course record `{"precio": ..., "link": ...}`. */
  datatype Course = Course(price: string, link: string)

  /** One course of a category: its key and its record. */
  datatype Entry = Entry(name: string, course: Course)

  /** One category: its key and its courses in definition order. */
  datatype Category = Category(name: string, courses: seq<Entry>)

  type Catalog = seq<Category>

  predicate NoDuplicates<T(==)>(s: seq<T>) {
    forall i, j :: 0 <= i < j < |s| ==> s[i] != s[j]
  }

  /** `courses.keys()` of one category, in definition order. */
  function Names(entries: seq<Entry>): seq<string> {
    seq(|entries|, i requires 0 <= i < |entries| => entries[i].name)
  }

  /** `cursos_data.keys()`, in definition order. */
  function CategoryNames(catalog: Catalog): seq<string> {
    seq(|catalog|, i requires 0 <= i < |catalog| => catalog[i].name)
  }

  /** Every course key, category after category: the order of the nested `for` loops. */
  function AllCourseNames(catalog: Catalog): seq<string> {
    if catalog == [] then []
    else AllCourseNames(catalog[..|catalog| - 1]) + Names(catalog[|catalog| - 1].courses)
  }

  /** Some category of the catalog has a course with this key. */
  ghost predicate HasCourse(catalog: Catalog, key: string) {
    exists i :: 0 <= i < |catalog| && key in Names(catalog[i].courses)
  }

  /** Both levels are dictionaries: no key occurs twice in one of them. */
  predicate IsDict(catalog: Catalog) {
    && NoDuplicates(CategoryNames(catalog))
    && forall i :: 0 <= i < |catalog| ==> NoDuplicates(Names(catalog[i].courses))
  }

  /** No course key is defined in two different categories. */
  predicate UniqueCourseNames(catalog: Catalog) {
    forall i, j, k :: 0 <= i < j < |catalog| && k in Names(catalog[i].courses) ==> k !in Names(catalog[j].courses)
  }

  /** Every key is stored already normalised: ASCII, lower-case. */
  predicate CanonicalKeys(catalog: Catalog) {
    forall i :: 0 <= i < |catalog| ==>
      && IsCanonical(catalog[i].name)
      && forall j :: 0 <= j < |catalog[i].courses| ==> IsCanonical(catalog[i].courses[j].name)
  }

  /** `key in courses` and `courses[key]` on one category's dictionary. */
  function Lookup(entries: seq<Entry>, key: string): (r: Option<Course>)
    ensures r.Some? <==> key in Names(entries)
    ensures r.Some? ==> Entry(key, r.value) in entries
  {
    if entries == [] then None
    else if entries[0].name == key then
      assert Names(entries)[0] == key;
      Some(entries[0].course)
    else
      assert Names(entries) == [entries[0].name] + Names(entries[1..]);
      Lookup(entries[1..], key)
  }

  /** `key in cursos_data` and `cursos_data[key]`. */
  function FindCategory(catalog: Catalog, key: string): (r: Option<seq<Entry>>)
    ensures r.Some? <==> key in CategoryNames(catalog)
    ensures r.Some? ==> Category(key, r.value) in catalog
  {
    if catalog == [] then None
    else if catalog[0].name == key then
      assert CategoryNames(catalog)[0] == key;
      Some(catalog[0].courses)
    else
      assert CategoryNames(catalog) == [catalog[0].name] + CategoryNames(catalog[1..]);
      FindCategory(catalog[1..], key)
  }

  /**
   * The record that the first category, in catalog order, holding `key`
   * stores for it: what the search loops with `break` find.
   */
  function FirstMatch(catalog: Catalog, key: string): Option<Course> {
    if catalog == [] then None
    else if Lookup(catalog[0].courses, key).Some? then Lookup(catalog[0].courses, key)
    else FirstMatch(catalog[1..], key)
  }

  /**
   * First match wins: the search finds a record exactly when some category
   * holds the key, and then it is the record of the earliest such category.
   */
  lemma {:induction false} FirstMatchIsEarliest(catalog: Catalog, key: string)
    ensures FirstMatch(catalog, key).Some? <==> HasCourse(catalog, key)
    ensures FirstMatch(catalog, key).Some? ==>
      exists i :: 0 <= i < |catalog| && Lookup(catalog[i].courses, key) == FirstMatch(catalog, key)
                  && forall j :: 0 <= j < i ==> Lookup(catalog[j].courses, key).None?
  {
    if catalog == [] {
    } else if Lookup(catalog[0].courses, key).Some? {
      assert HasCourse(catalog, key);
    } else {
      var rest := catalog[1..];
      FirstMatchIsEarliest(rest, key);
      if HasCourse(catalog, key) {
        var i :| 0 <= i < |catalog| && key in Names(catalog[i].courses);
        assert i != 0 && rest[i - 1] == catalog[i];
      }
      if HasCourse(rest, key) {
        var i :| 0 <= i < |rest| && key in Names(rest[i].courses);
        assert rest[i] == catalog[i + 1];
      }
      if FirstMatch(rest, key).Some? {
        var i :| 0 <= i < |rest| && Lookup(rest[i].courses, key) == FirstMatch(rest, key)
                 && forall j :: 0 <= j < i ==> Lookup(rest[j].courses, key).None?;
        assert rest[i] == catalog[i + 1];
        forall j | 0 <= j < i + 1 ensures Lookup(catalog[j].courses, key).None? {
          if j > 0 { assert catalog[j] == rest[j - 1]; }
        }
      }
    }
  }

  /** The flattened key list holds exactly the keys of the categories. */
  lemma {:induction false} AllCourseNamesMembership(catalog: Catalog, key: string)
    ensures key in AllCourseNames(catalog) <==> HasCourse(catalog, key)
  {
    if catalog != [] {
      var n := |catalog| - 1;
      var front := catalog[..n];
      AllCourseNamesMembership(front, key);
      if HasCourse(front, key) {
        var i :| 0 <= i < |front| && key in Names(front[i].courses);
        assert front[i] == catalog[i];
      }
      if HasCourse(catalog, key) {
        var i :| 0 <= i < |catalog| && key in Names(catalog[i].courses);
        if i < n { assert front[i] == catalog[i]; }
      }
    }
  }

  lemma EntryNameIn(entries: seq<Entry>, e: Entry)
    requires e in entries
    ensures e.name in Names(entries)
  {
    var p :| 0 <= p < |entries| && entries[p] == e;
    assert Names(entries)[p] == e.name;
  }

  /** In a dictionary, the key determines the entry. */
  lemma EntryDeterminedByName(entries: seq<Entry>, e1: Entry, e2: Entry)
    requires NoDuplicates(Names(entries))
    requires e1 in entries && e2 in entries && e1.name == e2.name
    ensures e1 == e2
  {
    var p :| 0 <= p < |entries| && entries[p] == e1;
    var q :| 0 <= q < |entries| && entries[q] == e2;
    assert Names(entries)[p] == Names(entries)[q];
  }

  /**
   * With course keys unique across the catalog, the search finds the record
   * stored under the key, whichever category stores it.
   */
  lemma FirstMatchFindsStoredRecord(catalog: Catalog, i: int, key: string, c: Course)
    requires IsDict(catalog) && UniqueCourseNames(catalog)
    requires 0 <= i < |catalog| && Entry(key, c) in catalog[i].courses
    ensures FirstMatch(catalog, key) == Some(c)
  {
    EntryNameIn(catalog[i].courses, Entry(key, c));
    FirstMatchIsEarliest(catalog, key);
    var i0 :| 0 <= i0 < |catalog| && Lookup(catalog[i0].courses, key) == FirstMatch(catalog, key)
              && forall j :: 0 <= j < i0 ==> Lookup(catalog[j].courses, key).None?;
    assert i0 <= i;
    assert i0 == i;
    EntryDeterminedByName(catalog[i].courses, Entry(key, FirstMatch(catalog, key).value), Entry(key, c));
  }

  /** When no category key repeats, a category's key finds that category's courses. */
  lemma FindCategoryFindsStoredCourses(catalog: Catalog, i: int)
    requires NoDuplicates(CategoryNames(catalog)) && 0 <= i < |catalog|
    ensures FindCategory(catalog, catalog[i].name) == Some(catalog[i].courses)
  {
    var key := catalog[i].name;
    assert CategoryNames(catalog)[i] == key;
    var v := FindCategory(catalog, key).value;
    var i0 :| 0 <= i0 < |catalog| && catalog[i0] == Category(key, v);
    assert CategoryNames(catalog)[i0] == key;
    assert i0 == i;
  }

  /** A catalog whose keys are unique across categories lists every course key once. */
  lemma {:induction false} AllCourseNamesDistinct(catalog: Catalog)
    requires IsDict(catalog) && UniqueCourseNames(catalog)
    ensures NoDuplicates(AllCourseNames(catalog))
  {
    if catalog != [] {
      var n := |catalog| - 1;
      var front := catalog[..n];
      assert forall i :: 0 <= i < n ==> front[i] == catalog[i];
      assert IsDict(front) by {
        assert forall i :: 0 <= i < n ==> CategoryNames(front)[i] == CategoryNames(catalog)[i];
      }
      AllCourseNamesDistinct(front);
      var a, b := AllCourseNames(front), Names(catalog[n].courses);
      forall p, q | 0 <= p < q < |a + b| ensures (a + b)[p] != (a + b)[q] {
        if q >= |a| && p < |a| {
          AllCourseNamesMembership(front, a[p]);
          var i :| 0 <= i < |front| && a[p] in Names(front[i].courses);
          assert (a + b)[q] == b[q - |a|];
          assert b[q - |a|] in Names(catalog[n].courses);
        } else if p >= |a| {
          assert (a + b)[p] == b[p - |a|] && (a + b)[q] == b[q - |a|];
        }
      }
    }
  }

  // ---------------------------------------------------------------------
  // The catalog the actions serve
  // ---------------------------------------------------------------------

  /** The categories of `cursos_data`, each with its courses in definition order. */
  const Ofimatica: Category := Category("ofimatica", [
    Entry("microsoft word basico", Course("$50", "https://tucurso.com/word-basico")),
    Entry("excel basico", Course("$80", "https://tucurso.com/excel-basico")),
    Entry("excel intermedio", Course("$80", "https://tucurso.com/excel-intermedio")),
    Entry("excel avanzado", Course("$80", "https://tucurso.com/excel-avanzado")),
    Entry("powerpoint para presentaciones", Course("$65", "https://tucurso.com/powerpoint"))
  ])

  const Programacion: Category := Category("programacion", [
    Entry("python basico", Course("$100", "https://tucurso.com/python-basico")),
    Entry("python intermedio", Course("$100", "https://tucurso.com/python-intermedio")),
    Entry("python avanzado", Course("$100", "https://tucurso.com/python-avanzado")),
    Entry("desarrollo web con javascript", Course("$150", "https://tucurso.com/js-web")),
    Entry("bases de datos sql", Course("$100", "https://tucurso.com/sql-db")),
    Entry("c# basico", Course("$100", "https://tucurso.com/csharp-basico")),
    Entry("c# intermedio", Course("$100", "https://tucurso.com/csharp-intermedio")),
    Entry("c# avanzado", Course("$100", "https://tucurso.com/csharp-avanzado"))
  ])

  const DisenoGrafico: Category := Category("diseno grafico", [
    Entry("photoshop basico", Course("$90", "https://tucurso.com/photoshop-basico")),
    Entry("illustrator", Course("$95", "https://tucurso.com/illustrator"))
  ])

  const EdicionDeVideo: Category := Category("edicion de video", [
    Entry("adobe premiere", Course("$90", "https://tucurso.com/premier")),
    Entry("after effects", Course("$90", "https://tucurso.com/after-effects"))
  ])

  const Videojuegos: Category := Category("videojuegos", [
    Entry("unity 2d", Course("$90", "https://tucurso.com/unity2d")),
    Entry("unity 3d", Course("$90", "https://tucurso.com/unity3d")),
    Entry("godot basico", Course("$90", "https://tucurso.com/godot-basico")),
    Entry("godot avanzado", Course("$90", "https://tucurso.com/godot-avanzado"))
  ])

  /** `cursos_data`: the five categories in definition order. */
  const CursosData: Catalog := [Ofimatica, Programacion, DisenoGrafico, EdicionDeVideo, Videojuegos]

  /** Within each stored category no course key repeats. */
  lemma CategoryKeysDistinct(i: int)
    requires 0 <= i < |CursosData|
    ensures NoDuplicates(Names(CursosData[i].courses))
  {
    if i == 0 {
      assert NoDuplicates(Names(Ofimatica.courses));
    } else if i == 1 {
      assert NoDuplicates(Names(Programacion.courses));
    } else if i == 2 {
      assert NoDuplicates(Names(DisenoGrafico.courses));
    } else if i == 3 {
      assert NoDuplicates(Names(EdicionDeVideo.courses));
    } else {
      assert NoDuplicates(Names(Videojuegos.courses));
    }
  }

  /** Every stored course key of a category is lower-case ASCII. */
  ghost predicate CanonicalCourseKeys(c: Category) {
    forall j :: 0 <= j < |c.courses| ==> IsCanonical(c.courses[j].name)
  }

  /** The category keys are lower-case ASCII. */
  lemma CategoryNamesCanonical()
    ensures IsCanonical(Ofimatica.name) && IsCanonical(Programacion.name) && IsCanonical(DisenoGrafico.name)
    ensures IsCanonical(EdicionDeVideo.name) && IsCanonical(Videojuegos.name)
  {
    CatalogKeys.CategoryKeysSpelled(Ofimatica.name, Programacion.name, DisenoGrafico.name, EdicionDeVideo.name, Videojuegos.name);
  }

  lemma OfimaticaKeysCanonical()
    ensures CanonicalCourseKeys(Ofimatica)
  {
    var e := Ofimatica.courses;
    CatalogKeys.OfimaticaWordExcelCanonical(e[0].name, e[1].name, e[2].name);
    CatalogKeys.OfimaticaRestCanonical(e[3].name, e[4].name);
  }

  lemma ProgramacionKeysCanonical()
    ensures CanonicalCourseKeys(Programacion)
  {
    var e := Programacion.courses;
    CatalogKeys.ProgramacionPythonCanonical(e[0].name, e[1].name, e[2].name);
    CatalogKeys.ProgramacionWebSqlCanonical(e[3].name, e[4].name);
    CatalogKeys.ProgramacionCSharpCanonical(e[5].name, e[6].name, e[7].name);
  }

  lemma DisenoEdicionKeysCanonical()
    ensures CanonicalCourseKeys(DisenoGrafico) && CanonicalCourseKeys(EdicionDeVideo)
  {
    var d := DisenoGrafico.courses;
    var e := EdicionDeVideo.courses;
    CatalogKeys.DisenoEdicionCanonical(d[0].name, d[1].name, e[0].name, e[1].name);
  }

  lemma VideojuegosKeysCanonical()
    ensures CanonicalCourseKeys(Videojuegos)
  {
    var e := Videojuegos.courses;
    CatalogKeys.VideojuegosCanonical(e[0].name, e[1].name, e[2].name, e[3].name);
  }

  /** Two categories share no course key. */
  ghost predicate Disjoint(a: Category, b: Category) {
    forall k :: k in Names(a.courses) ==> k !in Names(b.courses)
  }

  /** The stored categories after the `i`-th share no course key with it. */
  lemma CategoriesDisjoint(i: int, j: int)
    requires 0 <= i < j < |CursosData|
    ensures Disjoint(CursosData[i], CursosData[j])
  {
    if i == 0 {
      OfimaticaDisjoint(j);
    } else if i == 1 {
      ProgramacionDisjoint(j);
    } else if i == 2 {
      if j == 3 {} else {}
    } else {
    }
  }

  lemma OfimaticaDisjoint(j: int)
    requires 0 < j < |CursosData|
    ensures Disjoint(Ofimatica, CursosData[j])
  {
    if j == 1 {} else if j == 2 {} else if j == 3 {} else {}
  }

  lemma ProgramacionDisjoint(j: int)
    requires 1 < j < |CursosData|
    ensures Disjoint(Programacion, CursosData[j])
  {
    if j == 2 {} else if j == 3 {} else {}
  }

  /**
   * The stored catalog keeps its data invariants: both levels are
   * dictionaries, every key is lower-case ASCII without accents, and no
   * course key is defined in two categories.
   */
  lemma CursosDataInvariants()
    ensures IsDict(CursosData)
    ensures CanonicalKeys(CursosData)
    ensures UniqueCourseNames(CursosData)
  {
    forall i | 0 <= i < |CursosData|
      ensures NoDuplicates(Names(CursosData[i].courses))
      ensures IsCanonical(CursosData[i].name)
      ensures forall j :: 0 <= j < |CursosData[i].courses| ==> IsCanonical(CursosData[i].courses[j].name)
    {
      CategoryKeysDistinct(i);
      CategoryNamesCanonical();
      OfimaticaKeysCanonical();
      ProgramacionKeysCanonical();
      DisenoEdicionKeysCanonical();
      VideojuegosKeysCanonical();
      assert CanonicalCourseKeys(CursosData[i]);
    }
    forall i, j | 0 <= i < j < |CursosData|
      ensures forall k :: k in Names(CursosData[i].courses) ==> k !in Names(CursosData[j].courses)
    {
      CategoriesDisjoint(i, j);
    }
  }
}
