# Course-catalog assistant: a Dafny model of the actions

This project models the custom actions of a Spanish-language course
assistant. They live in `actions/actions.py`. The assistant keeps a fixed
catalog, `cursos_data`, which maps category keys to dictionaries. Each of
those maps course keys to a record of price and link. Five actions answer
from it:

- the category listing;
- a listing of courses, found either by a name fragment or by a category;
- three exact lookups: price, link, and the whole record.

Every slot value the user supplies is first lower-cased and passed through
`quitar_acentos`. That function decomposes accented letters (Unicode NFD)
and drops what is not ASCII. The result is compared with the stored keys,
which are kept lower-case and unaccented for that reason.

Files and modules:

- `options.dfy`, module `Options`: the optional value used for unset slots and missed lookups.
- `text.dfy`, module `Text`: the text functions the actions use.
  - `quitar_acentos` is modelled as `Normalize`, which is `Nfd` followed by `AsciiOnly`.
  - The slot-cleaning step `quitar_acentos(s.lower())` is `CleanKey`.
  - Python's `lower`, `title` and `capitalize` are `Lower`, `Title` and `Capitalize`.
  - The `in` operator on strings is `Contains`, with `Occurs` as its reference definition.
- `catalog.dfy`, module `CourseCatalog`: the catalog and its dictionary lookups.
  - The catalog is a sequence of categories, which keeps the dictionaries' insertion order.
  - `Lookup` models `key in d` / `d[key]` on one category; `FindCategory` does the same on the categories.
  - `FirstMatch` is the record one of the `for … break` search loops finds.
  - The stored data is the constant `CursosData`.
  - The data invariants, and the proof that `CursosData` keeps them:
    - both levels are dictionaries;
    - every key is lower-case ASCII;
    - no course key appears in two categories.
- `catalog_keys.dfy`, module `CatalogKeys`: small lemmas that check the spelling of each stored key.
- `actions.dfy`, module `Actions`: the five actions.
  - An action reads its two slots (`Slots`) and ends in one `Outcome`: one of the reply shapes or one of the four named responses.
  - Each action that searches with a loop is a method.
  - Each method is proved equal to a reference definition written as functions (`CoursesOutcome`, `PriceOutcome`, `LinkOutcome`, `InfoOutcome`).
  - Lemmas state what those definitions mean.
- `cursos_examples.dfy`, module `CursosExamples`: the actions applied to the stored catalog on a few slot values.

Line 64 uses `capitalize()`, not `title()`, so "diseno grafico" is listed as
"Diseno grafico"; the model does the same (`CategoryListing`,
`Text.CapitalizeExample`).

## Model

| member | source | states |
|---|---|---|
| Text.AsciiOnly | actions/actions.py:16 | `encode('ascii', 'ignore')` leaves only ASCII, never lengthens the text, and returns ASCII text unchanged |
| Text.AsciiOnlyKeeps | actions/actions.py:16 | `encode('ascii', 'ignore')` keeps exactly the ASCII characters of its input |
| Text.NormalizeAscii | actions/actions.py:7-17 | the output of `quitar_acentos` is ASCII, and ASCII input comes back unchanged |
| Text.NormalizeIdempotent | actions/actions.py:7-17 | applying `quitar_acentos` twice equals applying it once |
| Text.NfdOfAscii | actions/actions.py:16 | NFD changes no ASCII text |
| Text.KeyOfAccentedLatinLetter | actions/actions.py:16 | every accented letter the model decomposes cleans to its base letter, lower-cased: the accent goes and the letter stays |
| Text.KeyOfAccentedLetter | actions/actions.py:16 | the accented letter "ó" is cleaned to its base letter "o" |
| Text.KeyExampleProgramacion | actions/actions.py:9-10 | "Programación" is cleaned to "programacion", as the docstring's example says |
| Text.CleanKeyIsCanonical | actions/actions.py:81 | every cleaned slot value is lower-case ASCII, the form the stored keys have |
| Text.CleanKeyIdempotent | actions/actions.py:81 | cleaning an already cleaned value changes nothing |
| Text.LowerOfCanonical | actions/actions.py:19-20 | `lower()` leaves a key that is already lower-case ASCII unchanged |
| Text.CleanKeyOfCanonical | actions/actions.py:19-20 | a stored key, given as a slot value, cleans to itself, so the stored keys match cleaned input |
| Text.CleanKeyConcat | actions/actions.py:81 | cleaning works character by character: the key of a concatenation is the concatenation of the keys |
| Text.CleanKeyIgnoresDisplayCase | actions/actions.py:92-93 | title-casing or capitalising a value does not change its cleaned key, so a displayed name cleans back to the key |
| Text.TitleFromAt | actions/actions.py:92 | `title()` keeps the length and changes each character in one way only: a cased character is upper-cased when it does not follow a cased character, and lower-cased otherwise |
| Text.TitleFromLength | actions/actions.py:92 | `title()` keeps the length |
| Text.TitleExample | actions/actions.py:48 | the stored key "unity 2d" is shown as "Unity 2D" |
| Text.CapitalizeExample | actions/actions.py:64 | the stored key "diseno grafico" is shown as "Diseno grafico": only the first letter is raised |
| Text.ContainsIffOccurs | actions/actions.py:88 | the substring test `fragment in key` is true exactly when the fragment occurs in the key at some offset |
| CourseCatalog.Lookup | actions/actions.py:130-131 | `key in courses` holds exactly when the key is one of the category's course keys, and `courses[key]` is the record stored under it |
| CourseCatalog.FindCategory | actions/actions.py:102-103 | `categoria_limpia in cursos_data` holds exactly when the key is a category key, and `cursos_data[key]` is that category's dictionary |
| CourseCatalog.FirstMatchIsEarliest | actions/actions.py:129-132 | the search loop with `break`: a record is found exactly when some category holds the key, and it is the record of the earliest such category |
| CourseCatalog.FirstMatchFindsStoredRecord | actions/actions.py:129-132 | when course keys are unique across categories, the search finds the very record stored under the key |
| CourseCatalog.FindCategoryFindsStoredCourses | actions/actions.py:102-103 | when category keys are distinct, a category's key finds that category's own courses |
| CourseCatalog.AllCourseNamesMembership | actions/actions.py:85-86 | the nested loops visit exactly the course keys of the catalog |
| CourseCatalog.AllCourseNamesDistinct | actions/actions.py:85-89 | in a catalog that keeps its invariants, the nested loops visit every key once |
| CourseCatalog.CategoryKeysDistinct | actions/actions.py:21-53 | no stored category repeats a course key |
| CourseCatalog.CategoriesDisjoint | actions/actions.py:21-53 | no two stored categories share a course key |
| CourseCatalog.CursosDataInvariants | actions/actions.py:19-53 | the stored catalog is a dictionary at both levels, every key is stored lower-case and without accents, and no course key is defined in two categories |
| Actions.SearchByFragment | actions/actions.py:82-89 | the nested loops collect exactly the keys that contain the fragment, in catalog order (`MatchingCourses`) |
| Actions.ConsultCoursesByCategory | actions/actions.py:76-113 | the action's outcome equals its reference definition `CoursesOutcome` |
| Actions.ConsultPrice | actions/actions.py:123-140 | the action's outcome equals its reference definition `PriceOutcome` |
| Actions.ConsultLink | actions/actions.py:150-167 | the action's outcome equals its reference definition `LinkOutcome` |
| Actions.ConsultInfo | actions/actions.py:177-196 | the action's outcome equals its reference definition `InfoOutcome` |
| Actions.MatchingMembership | actions/actions.py:86-89 | a key is collected exactly when it is one of the visited keys and contains the fragment |
| Actions.MatchingInOrder | actions/actions.py:85-89 | the collected keys keep their visiting order: they embed, in increasing positions, into the visited keys |
| Actions.MatchingDistinct | actions/actions.py:86-89 | distinct visited keys give a collected list without repetitions |
| Actions.EmptyFragmentMatchesAll | actions/actions.py:88 | the empty fragment is part of every key, so every key is collected |
| Actions.MatchingCoursesExactly | actions/actions.py:82-89 | the search result holds exactly the catalog's course keys that contain the fragment, in catalog order, each once when the catalog keeps its invariants |
| Actions.CourseNameSlotWins | actions/actions.py:79-80 | a truthy course-name slot decides the outcome whatever the category slot holds, and the outcome is a course listing or `utter_no_course_found` |
| Actions.FragmentSearchOutcome | actions/actions.py:80-95 | with a course name, the answer is `utter_no_course_found` exactly when no course key contains the cleaned name; otherwise the reply shows the title-cased name and, in order, the title-cased keys that contain it |
| Actions.UnreadableNameListsAll | actions/actions.py:81-93 | a truthy course name that cleans to the empty text lists every course of the catalog |
| Actions.CategoryBranchOutcome | actions/actions.py:98-107 | without a course name, a truthy category answers with that category's courses exactly when its cleaned form is a category key, and with `utter_no_category_found` otherwise; the listed courses are the matching category's own |
| Actions.AskCategoryOnlyWithoutSlots | actions/actions.py:110-111 | `utter_ask_category_name` is sent exactly when neither slot is truthy |
| Actions.ListedCategoryLeadsBack | actions/actions.py:64 | the listing has one entry per category, in order; each entry cleans back to its category key, and given as the category slot it answers with that category's courses |
| Actions.AskCourseNameOnlyWithoutSlot | actions/actions.py:138-139 | each exact lookup sends `utter_ask_course_name` exactly when the course-name slot is not truthy |
| Actions.ExactLookupFirstMatch | actions/actions.py:183-193 | the info lookup finds a record exactly when some category holds the cleaned key; a found record is the one stored under that key in the earliest category holding it; otherwise the answer is `utter_no_course_found` |
| Actions.ExactLookupsAgree | actions/actions.py:124-195 | price, link and info take their values from the same record; the price and link actions report a found course as not found only when that field is empty |
| Actions.StoredCourseOutcomes | actions/actions.py:124-195 | in a catalog that keeps its invariants, any name that cleans to a stored key gets that key's own price, link and record |
| Actions.ShownCourseLeadsBack | actions/actions.py:177-191 | a course name as the listings show it (title-cased) cleans back to its key and gets that course's record |
| CursosExamples.UnityInfo | actions/actions.py:177-191 | asking the stored catalog for "unity 2d" gives "Unity 2D", "$90" and "https://tucurso.com/unity2d" |
| CursosExamples.ProgramacionWithAccent | actions/actions.py:98-105 | the category "Programación", accent and capital included, lists the Programacion courses |
| CursosExamples.UnknownCourse | actions/actions.py:124-137 | "curso inexistente" gets `utter_no_course_found` from the price, link and info actions |
| CursosExamples.UnknownCategory | actions/actions.py:98-107 | "categoria rara" gets `utter_no_category_found` |

## Left out

- `app.py` is not part of this model. It is the front end that runs the assistant.
- The Rasa SDK is not modelled. The tracker becomes the `Slots` parameter, and what is sent through the dispatcher becomes the returned `Outcome`. The `name()` methods and the empty event lists the actions return are left out.
- The Spanish reply sentences are not modelled. Each `Outcome` carries the values its sentence shows: the title-cased names and the price and link. The `", ".join` step becomes a list.
- The `texto.decode('utf-8')` attempt in `quitar_acentos` is not modelled. A `str` has no `decode`, so that step always falls through; the model takes text as given.
- Text.Nfd: decomposes only the precomposed Latin-1 letters (and ÿ/Ÿ), giving the base letter plus a combining mark. Every other character is its own decomposition. The full Unicode decomposition table is outside the model.
- Text.Lower, Text.Title, Text.Capitalize: case only ASCII letters, the Latin-1 letters whose two cases lie 0x20 apart (U+00C0 to U+00FE), and ÿ/Ÿ. The Latin-1 letters µ, ª and º, which Python treats as cased (µ upper-cases to U+039C), are uncased here, so `"ªb".title()` gives "ªB" where Python gives "ªb", and µ is never changed. ß, other scripts, and special case mappings (expansions, title-case digraphs) are also outside the model.
- Slot values are strings or unset. A slot holding another type, such as a list, is not modelled.
- CursosExamples: no lemma evaluates the category listing or a fragment search on the stored catalog. Evaluating the text functions on that many literal strings is too costly for the verifier. The generic lemmas `ListedCategoryLeadsBack` and `MatchingCoursesExactly` state those behaviours for every catalog.
