/**
 * The spelling of the stored keys, checked character by character.
 * Each lemma takes the keys as parameters pinned to their literal text,
 * which keeps every check small.
 */
module CatalogKeys {
  import opened Text

  lemma CategoryKeysSpelled(a: string, b: string, c: string, d: string, e: string)
    requires a == "ofimatica" && b == "programacion" && c == "diseno grafico"
    requires d == "edicion de video" && e == "videojuegos"
    ensures IsCanonical(a) && IsCanonical(b) && IsCanonical(c) && IsCanonical(d) && IsCanonical(e)
  {
  }

  lemma OfimaticaWordExcelCanonical(a: string, b: string, c: string)
    requires a == "microsoft word basico" && b == "excel basico" && c == "excel intermedio"
    ensures IsCanonical(a) && IsCanonical(b) && IsCanonical(c)
  {
  }

  lemma OfimaticaRestCanonical(a: string, b: string)
    requires a == "excel avanzado" && b == "powerpoint para presentaciones"
    ensures IsCanonical(a) && IsCanonical(b)
  {
  }

  lemma ProgramacionPythonCanonical(a: string, b: string, c: string)
    requires a == "python basico" && b == "python intermedio" && c == "python avanzado"
    ensures IsCanonical(a) && IsCanonical(b) && IsCanonical(c)
  {
  }

  lemma ProgramacionWebSqlCanonical(a: string, b: string)
    requires a == "desarrollo web con javascript" && b == "bases de datos sql"
    ensures IsCanonical(a) && IsCanonical(b)
  {
  }

  lemma ProgramacionCSharpCanonical(a: string, b: string, c: string)
    requires a == "c# basico" && b == "c# intermedio" && c == "c# avanzado"
    ensures IsCanonical(a) && IsCanonical(b) && IsCanonical(c)
  {
  }

  lemma DisenoEdicionCanonical(a: string, b: string, c: string, d: string)
    requires a == "photoshop basico" && b == "illustrator" && c == "adobe premiere" && d == "after effects"
    ensures IsCanonical(a) && IsCanonical(b) && IsCanonical(c) && IsCanonical(d)
  {
  }

  lemma VideojuegosCanonical(a: string, b: string, c: string, d: string)
    requires a == "unity 2d" && b == "unity 3d" && c == "godot basico" && d == "godot avanzado"
    ensures IsCanonical(a) && IsCanonical(b) && IsCanonical(c) && IsCanonical(d)
  {
  }
}
