/**
 * Text handling of the course matcher: the accent stripper `quitar_acentos`,
 * the case mappings the actions apply (`lower`, `title`, `capitalize`) and
 * Python's substring test `pat in text`.
 *
 * Unicode is modelled on the part the catalog's Spanish users type: ASCII and
 * the upper- and lower-case letters of the Latin-1 block whose cases lie 0x20
 * apart, with ÿ and Ÿ.  Every other code point is its own decomposition and
 * has no case.
 */
module Text {
  import opened Options

  // ---------------------------------------------------------------------
  // Character classes
  // ---------------------------------------------------------------------

  predicate IsAsciiChar(c: char) { (c as int) < 0x80 }

  predicate IsAscii(s: string) { forall i :: 0 <= i < |s| ==> IsAsciiChar(s[i]) }

  predicate IsUpperAscii(c: char) { 'A' <= c <= 'Z' }

  predicate IsLowerAscii(c: char) { 'a' <= c <= 'z' }

  /** Upper-case letters of the Latin-1 block, U+00C0 to U+00DE without the multiplication sign. */
  predicate IsLatinUpper(c: char) { '\U{C0}' <= c <= '\U{DE}' && c != '\U{D7}' }

  /**
   * The lower-case letters U+00E0 to U+00FE of the Latin-1 block, without the
   * division sign: those whose upper-case form lies 0x20 below.  ÿ is cased
   * apart; ß, µ, ª and º are not modelled as cased.
   */
  predicate IsLatinLower(c: char) { '\U{E0}' <= c <= '\U{FE}' && c != '\U{F7}' }

  const SmallYDiaeresis: char := '\U{FF}'
  const CapitalYDiaeresis: char := '\U{178}'

  /** A character that has an upper- and a lower-case form. */
  predicate IsCased(c: char) {
    IsUpperAscii(c) || IsLowerAscii(c) || IsLatinUpper(c) || IsLatinLower(c)
    || c == SmallYDiaeresis || c == CapitalYDiaeresis
  }

  /** The form in which the catalog stores its keys: ASCII without upper-case letters. */
  predicate IsCanonical(s: string) {
    forall i :: 0 <= i < |s| ==> IsAsciiChar(s[i]) && !IsUpperAscii(s[i])
  }

  // ---------------------------------------------------------------------
  // Case mapping
  // ---------------------------------------------------------------------

  function LowerChar(c: char): char {
    if IsUpperAscii(c) || IsLatinUpper(c) then (c as int + 0x20) as char
    else if c == CapitalYDiaeresis then SmallYDiaeresis
    else c
  }

  function UpperChar(c: char): char {
    if IsLowerAscii(c) || IsLatinLower(c) then (c as int - 0x20) as char
    else if c == SmallYDiaeresis then CapitalYDiaeresis
    else c
  }

  /** `str.lower()` */
  function Lower(s: string): string {
    seq(|s|, i requires 0 <= i < |s| => LowerChar(s[i]))
  }

  /**
   * `str.title()` from the point where the previous character was cased
   * (`afterCased`) or not: a cased character is upper-cased when it starts a
   * word and lower-cased otherwise; uncased characters (digits, spaces, `#`)
   * are kept and end the current word.
   */
  function TitleFrom(s: string, afterCased: bool): string {
    if s == [] then []
    else
      var c := s[0];
      [if !IsCased(c) then c else if afterCased then LowerChar(c) else UpperChar(c)]
      + TitleFrom(s[1..], IsCased(c))
  }

  /** `str.title()` */
  function Title(s: string): string { TitleFrom(s, false) }

  /** `str.capitalize()`: the first character upper-cased, the rest lower-cased. */
  function Capitalize(s: string): string {
    if s == [] then [] else [UpperChar(s[0])] + Lower(s[1..])
  }

  // ---------------------------------------------------------------------
  // Canonical decomposition (NFD) and the ASCII filter
  // ---------------------------------------------------------------------

  const Grave: char := '\U{300}'
  const Acute: char := '\U{301}'
  const Circumflex: char := '\U{302}'
  const Tilde: char := '\U{303}'
  const Diaeresis: char := '\U{308}'
  const RingAbove: char := '\U{30A}'
  const Cedilla: char := '\U{327}'

  /**
   * The base letter and combining mark NFD splits the upper-case Latin-1
   * letter at offset `k` from U+00C0 into.  The lower-case letter at the same
   * offset from U+00E0 splits the same way with a lower-case base.  Offsets
   * 6, 16, 23, 24, 30 and 31 (such as Æ, Ð, Ø, Þ, ß) have no decomposition.
   */
  function LatinDecomposition(k: int): Option<(char, char)> {
    if 0 <= k <= 5 then Some(('A', [Grave, Acute, Circumflex, Tilde, Diaeresis, RingAbove][k]))
    else if k == 7 then Some(('C', Cedilla))
    else if 8 <= k <= 11 then Some(('E', [Grave, Acute, Circumflex, Diaeresis][k - 8]))
    else if 12 <= k <= 15 then Some(('I', [Grave, Acute, Circumflex, Diaeresis][k - 12]))
    else if k == 17 then Some(('N', Tilde))
    else if 18 <= k <= 22 then Some(('O', [Grave, Acute, Circumflex, Tilde, Diaeresis][k - 18]))
    else if 25 <= k <= 28 then Some(('U', [Grave, Acute, Circumflex, Diaeresis][k - 25]))
    else if k == 29 then Some(('Y', Acute))
    else None
  }

  /** The NFD decomposition of one character. */
  function Decompose(c: char): seq<char> {
    if '\U{C0}' <= c <= '\U{DF}' && LatinDecomposition(c as int - 0xC0).Some? then
      var d := LatinDecomposition(c as int - 0xC0).value;
      [d.0, d.1]
    else if '\U{E0}' <= c <= '\U{FF}' && LatinDecomposition(c as int - 0xE0).Some? then
      var d := LatinDecomposition(c as int - 0xE0).value;
      [LowerChar(d.0), d.1]
    else if c == SmallYDiaeresis then ['y', Diaeresis]
    else if c == CapitalYDiaeresis then ['Y', Diaeresis]
    else [c]
  }

  /** `unicodedata.normalize('NFD', s)` */
  function Nfd(s: string): string {
    if s == [] then [] else Decompose(s[0]) + Nfd(s[1..])
  }

  /** `s.encode('ascii', 'ignore').decode('utf-8')`: every non-ASCII code point dropped. */
  function AsciiOnly(s: string): (r: string)
    ensures IsAscii(r)
    ensures |r| <= |s|
    ensures IsAscii(s) ==> r == s
  {
    if s == [] then []
    else (if IsAsciiChar(s[0]) then [s[0]] else []) + AsciiOnly(s[1..])
  }

  /** The filter keeps exactly the ASCII characters of its input. */
  lemma {:induction false} AsciiOnlyKeeps(s: string)
    ensures forall c :: c in AsciiOnly(s) <==> c in s && IsAsciiChar(c)
  {
    if s != [] {
      AsciiOnlyKeeps(s[1..]);
      assert s == [s[0]] + s[1..];
    }
  }

  /** `quitar_acentos(s)`: decompose, then keep only the ASCII code points. */
  function Normalize(s: string): string {
    AsciiOnly(Nfd(s))
  }

  /** The comparison key the actions compute from a slot: `quitar_acentos(s.lower())`. */
  function CleanKey(s: string): string {
    Normalize(Lower(s))
  }

  // ---------------------------------------------------------------------
  // Substring containment
  // ---------------------------------------------------------------------

  /** `pat` occurs in `text` at some offset. */
  ghost predicate Occurs(pat: string, text: string) {
    exists i :: 0 <= i <= |text| && pat <= text[i..]
  }

  /** Python's `pat in text` on strings, searched left to right. */
  function Contains(text: string, pat: string): bool {
    if pat <= text then true
    else if text == [] then false
    else Contains(text[1..], pat)
  }

  // ---------------------------------------------------------------------
  // Properties
  // ---------------------------------------------------------------------

  /** The left-to-right search answers exactly whether the pattern occurs. */
  lemma {:induction false} ContainsIffOccurs(text: string, pat: string)
    ensures Contains(text, pat) <==> Occurs(pat, text)
    decreases |text|
  {
    if pat <= text {
      assert text[0..] == text;
    } else if text != [] {
      ContainsIffOccurs(text[1..], pat);
      if Occurs(pat, text[1..]) {
        var i :| 0 <= i <= |text[1..]| && pat <= text[1..][i..];
        assert text[1..][i..] == text[i + 1..];
      }
      if Occurs(pat, text) {
        var i :| 0 <= i <= |text| && pat <= text[i..];
        assert i != 0 by { assert text[0..] == text; }
        assert text[1..][i - 1..] == text[i..];
      }
    }
  }

  /** Decomposition leaves ASCII text alone. */
  lemma {:induction false} NfdOfAscii(s: string)
    requires IsAscii(s)
    ensures Nfd(s) == s
  {
    if s != [] {
      assert IsAscii(s[1..]) by { assert forall i :: 0 <= i < |s[1..]| ==> s[1..][i] == s[i + 1]; }
      NfdOfAscii(s[1..]);
    }
  }

  /** `quitar_acentos` returns ASCII only, and returns ASCII input unchanged. */
  lemma NormalizeAscii(s: string)
    ensures IsAscii(Normalize(s))
    ensures IsAscii(s) ==> Normalize(s) == s
  {
    if IsAscii(s) { NfdOfAscii(s); }
  }

  /** Stripping accents twice is stripping them once. */
  lemma NormalizeIdempotent(s: string)
    ensures Normalize(Normalize(s)) == Normalize(s)
  {
    NormalizeAscii(s);
    NormalizeAscii(Normalize(s));
  }

  lemma {:induction false} AsciiOnlyConcat(a: string, b: string)
    ensures AsciiOnly(a + b) == AsciiOnly(a) + AsciiOnly(b)
  {
    if a == [] {
      assert a + b == b;
    } else {
      var head := if IsAsciiChar(a[0]) then [a[0]] else [];
      assert (a + b)[0] == a[0];
      assert (a + b)[1..] == a[1..] + b;
      assert AsciiOnly(a + b) == head + AsciiOnly(a[1..] + b);
      AsciiOnlyConcat(a[1..], b);
      assert AsciiOnly(a) == head + AsciiOnly(a[1..]);
    }
  }

  lemma CanonicalConcat(a: string, b: string)
    requires IsCanonical(a) && IsCanonical(b)
    ensures IsCanonical(a + b)
  {
    forall i | 0 <= i < |a + b|
      ensures IsAsciiChar((a + b)[i]) && !IsUpperAscii((a + b)[i])
    {
      if i >= |a| { assert (a + b)[i] == b[i - |a|]; }
    }
  }

  /** What survives of one lower-cased character after decomposition and the ASCII filter. */
  lemma KeyOfCharIsCanonical(c: char)
    ensures IsCanonical(AsciiOnly(Decompose(LowerChar(c))))
  {
  }

  /** The key of any slot value is in the catalog's key form: ASCII and lower-case. */
  lemma {:induction false} CleanKeyIsCanonical(s: string)
    ensures IsCanonical(CleanKey(s))
  {
    if s != [] {
      var l := Lower(s);
      assert l[1..] == Lower(s[1..]);
      assert Nfd(l) == Decompose(LowerChar(s[0])) + Nfd(Lower(s[1..]));
      AsciiOnlyConcat(Decompose(LowerChar(s[0])), Nfd(Lower(s[1..])));
      KeyOfCharIsCanonical(s[0]);
      CleanKeyIsCanonical(s[1..]);
      CanonicalConcat(AsciiOnly(Decompose(LowerChar(s[0]))), CleanKey(s[1..]));
    }
  }

  lemma {:induction false} LowerOfCanonical(s: string)
    requires IsCanonical(s)
    ensures Lower(s) == s
  {
    if s != [] {
      assert IsCanonical(s[1..]) by { assert forall i :: 0 <= i < |s[1..]| ==> s[1..][i] == s[i + 1]; }
      LowerOfCanonical(s[1..]);
    }
  }

  /** A catalog key is its own key: looking it up needs no normalisation of the catalog. */
  lemma CleanKeyOfCanonical(s: string)
    requires IsCanonical(s)
    ensures CleanKey(s) == s
  {
    LowerOfCanonical(s);
    NormalizeAscii(s);
  }

  /** Computing the key of a key changes nothing. */
  lemma CleanKeyIdempotent(s: string)
    ensures CleanKey(CleanKey(s)) == CleanKey(s)
  {
    CleanKeyIsCanonical(s);
    CleanKeyOfCanonical(CleanKey(s));
  }

  lemma LowerConcat(a: string, b: string)
    ensures Lower(a + b) == Lower(a) + Lower(b)
  {
  }

  lemma {:induction false} LowerOfTitleFrom(s: string, afterCased: bool)
    ensures Lower(TitleFrom(s, afterCased)) == Lower(s)
  {
    if s != [] {
      var c := s[0];
      var d := if !IsCased(c) then c else if afterCased then LowerChar(c) else UpperChar(c);
      LowerConcat([d], TitleFrom(s[1..], IsCased(c)));
      LowerOfTitleFrom(s[1..], IsCased(c));
      LowerConcat([c], s[1..]);
      assert [c] + s[1..] == s;
    }
  }

  /**
   * Display casing does not change the key: the title-cased or capitalised
   * form of a name, typed back in, normalises to the same key as the name.
   */
  lemma CleanKeyIgnoresDisplayCase(s: string)
    ensures CleanKey(Title(s)) == CleanKey(s)
    ensures CleanKey(Capitalize(s)) == CleanKey(s)
  {
    LowerOfTitleFrom(s, false);
    if s != [] {
      LowerConcat([UpperChar(s[0])], Lower(s[1..]));
      assert Lower(Lower(s[1..])) == Lower(s[1..]);
      LowerConcat([s[0]], s[1..]);
      assert [s[0]] + s[1..] == s;
      assert Lower(Capitalize(s)) == Lower(s);
    }
  }

  /** `str.title()` character by character: a cased character is upper-cased exactly when it does not follow a cased one. */
  lemma {:induction false} TitleFromAt(s: string, afterCased: bool, i: int)
    requires 0 <= i < |s|
    ensures |TitleFrom(s, afterCased)| == |s|
    ensures TitleFrom(s, afterCased)[i] ==
      if !IsCased(s[i]) then s[i]
      else if (if i == 0 then afterCased else IsCased(s[i - 1])) then LowerChar(s[i])
      else UpperChar(s[i])
  {
    if i == 0 {
      TitleFromLength(s[1..], IsCased(s[0]));
    } else {
      TitleFromAt(s[1..], IsCased(s[0]), i - 1);
    }
  }

  lemma {:induction false} TitleFromLength(s: string, afterCased: bool)
    ensures |TitleFrom(s, afterCased)| == |s|
  {
    if s != [] { TitleFromLength(s[1..], IsCased(s[0])); }
  }

  lemma {:induction false} NfdConcat(a: string, b: string)
    ensures Nfd(a + b) == Nfd(a) + Nfd(b)
  {
    if a == [] {
      assert a + b == b;
    } else {
      assert (a + b)[0] == a[0];
      assert (a + b)[1..] == a[1..] + b;
      NfdConcat(a[1..], b);
    }
  }

  /** The key of a concatenation is the concatenation of the keys. */
  lemma CleanKeyConcat(a: string, b: string)
    ensures CleanKey(a + b) == CleanKey(a) + CleanKey(b)
  {
    LowerConcat(a, b);
    NfdConcat(Lower(a), Lower(b));
    AsciiOnlyConcat(Nfd(Lower(a)), Nfd(Lower(b)));
  }

  /** The key of ASCII text is its lower-cased form. */
  lemma CleanKeyOfAscii(s: string)
    requires IsAscii(s)
    ensures CleanKey(s) == Lower(s)
  {
    assert IsAscii(Lower(s));
    NormalizeAscii(Lower(s));
  }

  /** An accented letter is looked up as its base letter: "ó" becomes "o". */
  lemma KeyOfAccentedLetter(b: string)
    requires b == "\U{F3}"
    ensures CleanKey(b) == "o"
  {
    assert Lower(b) == b && b[1..] == [];
    assert Decompose(b[0]) == ['o', Acute];
    assert Nfd(b) == ['o', Acute];
    assert AsciiOnly([Acute]) == [];
  }

  /** Each decomposition splits into an upper-case ASCII base letter and a non-ASCII mark. */
  lemma LatinDecompositionParts(k: int)
    requires LatinDecomposition(k).Some?
    ensures IsUpperAscii(LatinDecomposition(k).value.0) && !IsAsciiChar(LatinDecomposition(k).value.1)
  {
    if 0 <= k <= 5 {
      assert LatinDecomposition(k).value.1 == [Grave, Acute, Circumflex, Tilde, Diaeresis, RingAbove][k];
    } else if 8 <= k <= 22 && k != 16 && k != 17 {
      assert LatinDecomposition(k).value.1 in [Grave, Acute, Circumflex, Tilde, Diaeresis];
    } else if 25 <= k <= 28 {
      assert LatinDecomposition(k).value.1 == [Grave, Acute, Circumflex, Diaeresis][k - 25];
    }
  }

  /** Lower-casing before decomposing lower-cases the base and keeps the mark. */
  lemma DecomposeOfLower(c: char)
    requires ('\U{C0}' <= c <= '\U{FF}' || c == CapitalYDiaeresis) && Decompose(c) != [c]
    ensures |Decompose(c)| == 2
    ensures Decompose(LowerChar(c)) == [LowerChar(Decompose(c)[0]), Decompose(c)[1]]
    ensures IsLowerAscii(LowerChar(Decompose(c)[0])) && !IsAsciiChar(Decompose(c)[1])
  {
    if c == CapitalYDiaeresis || c == SmallYDiaeresis {
    } else if c <= '\U{DF}' {
      LatinDecompositionParts(c as int - 0xC0);
      assert LowerChar(c) as int - 0xE0 == c as int - 0xC0;
    } else {
      LatinDecompositionParts(c as int - 0xE0);
    }
  }

  /**
   * Every accented letter the model decomposes is looked up as its base
   * letter: the mark is dropped and the letter, lower-cased, stays.
   */
  lemma KeyOfAccentedLatinLetter(c: char)
    requires ('\U{C0}' <= c <= '\U{FF}' || c == CapitalYDiaeresis) && Decompose(c) != [c]
    ensures CleanKey([c]) == [LowerChar(Decompose(c)[0])]
    ensures IsLowerAscii(CleanKey([c])[0])
  {
    DecomposeOfLower(c);
    assert Lower([c]) == [LowerChar(c)];
    var d := Decompose(LowerChar(c));
    assert Nfd([LowerChar(c)]) == d + Nfd([]);
    assert Nfd(Lower([c])) == d;
    assert d[1..] == [d[1]] && [d[1]][1..] == [];
    assert AsciiOnly([d[1]]) == [];
    assert AsciiOnly(d) == [d[0]] + AsciiOnly(d[1..]);
  }

  /** The key of accented, mixed-case input: "Programación" is looked up as "programacion". */
  lemma KeyExampleProgramacion(s: string)
    requires s == "Programaci\U{F3}n"
    ensures CleanKey(s) == "programacion"
  {
    var a, b, c := s[..10], s[10..11], s[11..];
    assert a == "Programaci" && b == "\U{F3}" && c == "n";
    assert CleanKey(a) == "programaci" by {
      assert IsAscii(a);
      assert Lower(a) == "programaci";
      CleanKeyOfAscii(a);
    }
    KeyOfAccentedLetter(b);
    assert CleanKey(c) == "n" by { CleanKeyOfAscii(c); }
    CleanKeyConcat(b, c);
    CleanKeyConcat(a, b + c);
    assert a + (b + c) == s;
  }

  /** `"unity 2d".title()` is "Unity 2D": a letter after a digit starts a new word. */
  lemma TitleExample(s: string)
    requires s == "unity 2d"
    ensures Title(s) == "Unity 2D"
  {
    TitleFromLength(s, false);
    forall i | 0 <= i < |s| ensures Title(s)[i] == "Unity 2D"[i] {
      TitleFromAt(s, false, i);
    }
  }

  /** `"diseno grafico".capitalize()` is "Diseno grafico": only the first letter is raised. */
  lemma CapitalizeExample(s: string)
    requires s == "diseno grafico"
    ensures Capitalize(s) == "Diseno grafico"
  {
    assert Lower(s[1..]) == "iseno grafico";
  }
}
