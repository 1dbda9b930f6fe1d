/**
  The first half of the spreadsheet import: reading the header row.
  `normalizar_nombre_columna` turns a header cell into a canonical key and
  `encontrar_indices_columnas` maps each logical field to the 1-based column
  whose key is one of the field's synonyms. A cell is `None` (empty) or its
  text.
 */
module Headers {
  import opened Options
  import opened Text

  type Cell = Option<string>
  type Row = seq<Cell>

  /** Python truthiness of a cell value: `None` and `''` are falsy. */
  predicate Truthy(c: Cell) {
    c.Some? && c.value != ""
  }

  // ---------------------------------------------------------------------------
  // Header normalisation (`normalizar_nombre_columna`)
  // ---------------------------------------------------------------------------

  /** The replacement table, in the order Python iterates it. */
  const AccentFolds: seq<(char, char)> :=
    [('\U{E1}', 'a'), ('\U{E9}', 'e'), ('\U{ED}', 'i'), ('\U{F3}', 'o'), ('\U{FA}', 'u'), ('\U{F1}', 'n')]

  /** One code point after the first `k` passes of the table. */
  function FoldFirst(k: nat, c: char): char
    requires k <= |AccentFolds|
  {
    if k == 0 then c
    else
      var d := FoldFirst(k - 1, c);
      if d == AccentFolds[k - 1].0 then AccentFolds[k - 1].1 else d
  }

  /** á, é, í, ó, ú and ñ become their base letter; every other code point is kept. */
  function FoldAccent(c: char): char {
    if c == '\U{E1}' then 'a'
    else if c == '\U{E9}' then 'e'
    else if c == '\U{ED}' then 'i'
    else if c == '\U{F3}' then 'o'
    else if c == '\U{FA}' then 'u'
    else if c == '\U{F1}' then 'n'
    else c
  }

  function FoldAccents(s: string): string {
    seq(|s|, i requires 0 <= i < |s| => FoldAccent(s[i]))
  }

  /** Applying the six replacements one after another folds each code point independently. */
  lemma FoldFirstAll(c: char)
    ensures FoldFirst(|AccentFolds|, c) == FoldAccent(c)
  {
    assert FoldFirst(1, c) == if c == '\U{E1}' then 'a' else c;
    assert FoldFirst(2, c) == if c == '\U{E1}' then 'a' else if c == '\U{E9}' then 'e' else c;
    assert FoldFirst(3, c) == FoldAccent(c) || c in "\U{FA}\U{F1}\U{F3}";
    assert FoldFirst(4, c) == FoldAccent(c) || c in "\U{FA}\U{F1}";
    assert FoldFirst(5, c) == FoldAccent(c) || c == '\U{F1}';
  }

  /**
    Lower-cased, stripped, accents folded; a falsy header normalises to "".
    The key is never longer than the header and has no white space at its ends.
   */
  function Normalized(c: Cell): (r: string)
    ensures !Truthy(c) ==> r == ""
    ensures Truthy(c) ==> |r| <= |c.value|
    ensures r == [] || (!IsSpace(r[0]) && !IsSpace(r[|r| - 1]))
  {
    if !Truthy(c) then "" else FoldAccents(Strip(Lower(c.value)))
  }

  /** `normalizar_nombre_columna`: lower, strip, then the replacement loop. */
  method NormalizeHeader(c: Cell) returns (r: string)
    ensures r == Normalized(c)
  {
    if !Truthy(c) {
      return "";
    }
    r := Strip(Lower(c.value));
    ghost var base := r;
    for k := 0 to |AccentFolds|
      invariant |r| == |base|
      invariant forall i :: 0 <= i < |r| ==> r[i] == FoldFirst(k, base[i])
    {
      r := ReplaceChar(r, AccentFolds[k].0, AccentFolds[k].1);
    }
    forall i | 0 <= i < |r|
      ensures r[i] == FoldAccent(base[i])
    {
      FoldFirstAll(base[i]);
    }
  }

  predicate IsUpper(c: char) {
    LowerChar(c) != c
  }

  lemma LowerCharIdempotent(c: char)
    ensures LowerChar(LowerChar(c)) == LowerChar(c)
  {
  }

  /** A header with no white space at its ends is only lower-cased and folded. */
  lemma NormalizedUnpadded(s: string)
    requires s != [] && !IsSpace(s[0]) && !IsSpace(s[|s| - 1])
    ensures Normalized(Some(s)) == FoldAccents(Lower(s))
  {
    LowerCharKeepsSpace(s[0]);
    LowerCharKeepsSpace(s[|s| - 1]);
    StripUnpadded(Lower(s));
  }

  /** Stripping a lower-cased string leaves no capital letter behind. */
  lemma StrippedLowerHasNoCapital(s: string)
    ensures var t := Strip(Lower(s)); forall i :: 0 <= i < |t| ==> !IsUpper(t[i])
  {
    var l := Lower(s);
    var t := Strip(l);
    var a := SkipSpace(l, 0);
    assert t == l[a..SkipSpaceBack(l, a, |l|)];
    forall i | 0 <= i < |t|
      ensures !IsUpper(t[i])
    {
      assert t[i] == l[a + i];
      LowerCharIdempotent(s[a + i]);
    }
  }

  /** A string with no capital, no folded accent and no padding normalises to itself. */
  lemma CanonicalIsFixed(n: string)
    requires forall i :: 0 <= i < |n| ==> !IsUpper(n[i]) && FoldAccent(n[i]) == n[i]
    requires n == [] || (!IsSpace(n[0]) && !IsSpace(n[|n| - 1]))
    ensures Normalized(Some(n)) == n
  {
    if n != [] {
      NormalizedUnpadded(n);
      assert Lower(n) == n;
      assert FoldAccents(n) == n;
    }
  }

  /**
    A normalised header is canonical: no capital letter, none of the six accented
    letters, no white space at either end; normalising it again changes nothing.
   */
  lemma NormalizedIsCanonical(c: Cell)
    ensures var n := Normalized(c);
      && (forall i :: 0 <= i < |n| ==> !IsUpper(n[i]) && FoldAccent(n[i]) == n[i])
      && (n == [] || (!IsSpace(n[0]) && !IsSpace(n[|n| - 1])))
      && Normalized(Some(n)) == n
  {
    var n := Normalized(c);
    if Truthy(c) {
      var t := Strip(Lower(c.value));
      StripTrims(Lower(c.value));
      StrippedLowerHasNoCapital(c.value);
      assert n == FoldAccents(t);
      assert forall i :: 0 <= i < |n| ==> n[i] == FoldAccent(t[i]);
    }
    CanonicalIsFixed(n);
  }

  /** `'TÍTULO'` normalises to `'titulo'`. */
  lemma NormalizeTitulo()
    ensures Normalized(Some("T\U{CD}TULO")) == "titulo"
  {
  }

  // ---------------------------------------------------------------------------
  // Column discovery (`encontrar_indices_columnas`)
  // ---------------------------------------------------------------------------

  datatype Field = Nombre | Autor | Editorial | Isbn | Descripcion

  /** The synonym list of each logical field. */
  function Synonyms(f: Field): seq<string> {
    match f
    case Nombre => ["nombre", "titulo", "title", "libro"]
    case Autor => ["autor", "author", "escritor"]
    case Editorial => ["editorial", "publisher", "editora"]
    case Isbn => ["isbn"]
    case Descripcion => ["descripcion", "description", "comentario", "comentarios"]
  }

  /**
    The `if`/`elif` chain: the field whose synonym list holds `v`. The lists are
    disjoint, so a header names at most one field and the order of the chain
    does not matter.
   */
  function FieldOf(v: string): (r: Option<Field>)
    ensures forall f :: r == Some(f) <==> v in Synonyms(f)
  {
    if v in Synonyms(Nombre) then Some(Nombre)
    else if v in Synonyms(Autor) then Some(Autor)
    else if v in Synonyms(Editorial) then Some(Editorial)
    else if v in Synonyms(Isbn) then Some(Isbn)
    else if v in Synonyms(Descripcion) then Some(Descripcion)
    else None
  }

  /** The `indices` dictionary: a 1-based column per field, or `None`. */
  datatype Columns = Columns(
    nombre: Option<nat>, autor: Option<nat>, editorial: Option<nat>,
    isbn: Option<nat>, descripcion: Option<nat>)

  const NoColumns := Columns(None, None, None, None, None)

  function Column(cols: Columns, f: Field): Option<nat> {
    match f
    case Nombre => cols.nombre
    case Autor => cols.autor
    case Editorial => cols.editorial
    case Isbn => cols.isbn
    case Descripcion => cols.descripcion
  }

  function WithColumn(cols: Columns, f: Field, idx: nat): Columns {
    match f
    case Nombre => cols.(nombre := Some(idx))
    case Autor => cols.(autor := Some(idx))
    case Editorial => cols.(editorial := Some(idx))
    case Isbn => cols.(isbn := Some(idx))
    case Descripcion => cols.(descripcion := Some(idx))
  }

  lemma ColumnOfWith(cols: Columns, g: Field, idx: nat, f: Field)
    ensures Column(WithColumn(cols, g, idx), f) == if f == g then Some(idx) else Column(cols, f)
  {
  }

  /** The field a header cell names; `None` cells are skipped. */
  function CellField(c: Cell): Option<Field> {
    if c.None? then None else FieldOf(Normalized(c))
  }

  /** Header cell `c` names field `f`. */
  predicate Matches(c: Cell, f: Field) {
    CellField(c) == Some(f)
  }

  /** The dictionary after walking a row of resolved header labels from left to right. */
  function Assign(labels: seq<Option<Field>>): (cols: Columns)
    ensures forall f :: Column(cols, f).Some? ==> 1 <= Column(cols, f).value <= |labels|
  {
    if labels == [] then NoColumns
    else
      var cols := Assign(labels[..|labels| - 1]);
      match labels[|labels| - 1]
      case None => cols
      case Some(f) => WithColumn(cols, f, |labels|)
  }

  function Labels(header: seq<Cell>): (labels: seq<Option<Field>>)
    ensures |labels| == |header|
  {
    seq(|header|, j requires 0 <= j < |header| => CellField(header[j]))
  }

  /** The dictionary after scanning `header` from left to right. */
  function Discover(header: seq<Cell>): (cols: Columns)
    ensures forall f :: Column(cols, f).Some? ==> 1 <= Column(cols, f).value <= |header|
    ensures header == [] ==> cols == NoColumns
  {
    Assign(Labels(header))
  }

  lemma {:induction false} AssignFinds(labels: seq<Option<Field>>, f: Field)
    ensures Column(Assign(labels), f).None? <==> forall j :: 0 <= j < |labels| ==> labels[j] != Some(f)
    ensures Column(Assign(labels), f).Some? ==>
      var i := Column(Assign(labels), f).value;
      1 <= i <= |labels| && labels[i - 1] == Some(f) && forall j :: i <= j < |labels| ==> labels[j] != Some(f)
  {
    if labels != [] {
      var front := labels[..|labels| - 1];
      AssignFinds(front, f);
      assert forall j :: 0 <= j < |front| ==> front[j] == labels[j];
      var last := labels[|labels| - 1];
      if last.Some? {
        ColumnOfWith(Assign(front), last.value, |labels|, f);
      }
    }
  }

  /**
    What discovery finds, stated without the scan: a field has no column iff no
    header cell names it; otherwise its column is a 1-based position whose cell
    names it and no later cell names it (the last match wins).
   */
  lemma DiscoverFinds(header: seq<Cell>, f: Field)
    ensures Column(Discover(header), f).None? <==> forall j :: 0 <= j < |header| ==> !Matches(header[j], f)
    ensures Column(Discover(header), f).Some? ==>
      var i := Column(Discover(header), f).value;
      && 1 <= i <= |header|
      && Matches(header[i - 1], f)
      && forall j :: i <= j < |header| ==> !Matches(header[j], f)
  {
    var labels := Labels(header);
    AssignFinds(labels, f);
    assert forall j :: 0 <= j < |header| ==> (labels[j] == Some(f) <==> Matches(header[j], f));
  }

  /** `encontrar_indices_columnas`: the loop over the first row. */
  method FindColumns(header: seq<Cell>) returns (cols: Columns)
    ensures cols == Discover(header)
  {
    cols := NoColumns;
    for idx := 1 to |header| + 1
      invariant cols == Assign(Labels(header)[..idx - 1])
    {
      assert Labels(header)[..idx][..idx - 1] == Labels(header)[..idx - 1];
      var valor := header[idx - 1];
      if valor.Some? {
        var v := NormalizeHeader(valor);
        if v in Synonyms(Nombre) {
          cols := cols.(nombre := Some(idx));
        } else if v in Synonyms(Autor) {
          cols := cols.(autor := Some(idx));
        } else if v in Synonyms(Editorial) {
          cols := cols.(editorial := Some(idx));
        } else if v == "isbn" {
          cols := cols.(isbn := Some(idx));
        } else if v in Synonyms(Descripcion) {
          cols := cols.(descripcion := Some(idx));
        }
      }
    }
    assert Labels(header)[..|header|] == Labels(header);
  }

  /** The header row written by `generar_plantilla_excel`. */
  const TemplateHeader: seq<Cell> :=
    [Some("Nombre"), Some("Autor"), Some("Editorial"), Some("ISBN"), Some("Descripci\U{F3}n")]

  const TemplateFields: seq<Field> := [Nombre, Autor, Editorial, Isbn, Descripcion]

  /** A header without surrounding white space names the field of its lower-cased, folded text. */
  lemma UnpaddedCellField(s: string, key: string)
    requires s != [] && !IsSpace(s[0]) && !IsSpace(s[|s| - 1]) && FoldAccents(Lower(s)) == key
    ensures CellField(Some(s)) == FieldOf(key)
  {
    NormalizedUnpadded(s);
  }

  /** Each template header names the field it was written for. */
  lemma TemplateCellNamesField(k: nat)
    requires k < |TemplateHeader|
    ensures CellField(TemplateHeader[k]) == Some(TemplateFields[k])
  {
    if k == 0 {
      TemplateNombreCell();
    } else if k == 1 {
      TemplateAutorCell();
    } else if k == 2 {
      TemplateEditorialCell();
    } else if k == 3 {
      TemplateISBNCell();
    } else {
      TemplateDescripcionCell();
    }
  }

  lemma TemplateNombreCell()
    ensures CellField(Some("Nombre")) == Some(Nombre)
  {
    assert Lower("Nombre") == "nombre";
    UnpaddedCellField("Nombre", "nombre");
  }

  lemma TemplateAutorCell()
    ensures CellField(Some("Autor")) == Some(Autor)
  {
    assert Lower("Autor") == "autor";
    UnpaddedCellField("Autor", "autor");
  }

  lemma TemplateEditorialCell()
    ensures CellField(Some("Editorial")) == Some(Editorial)
  {
    assert Lower("Editorial") == "editorial";
    UnpaddedCellField("Editorial", "editorial");
  }

  lemma TemplateISBNCell()
    ensures CellField(Some("ISBN")) == Some(Isbn)
  {
    assert Lower("ISBN") == "isbn";
    UnpaddedCellField("ISBN", "isbn");
  }

  lemma TemplateDescripcionCell()
    ensures CellField(Some("Descripci\U{F3}n")) == Some(Descripcion)
  {
    assert Lower("Descripci\U{F3}n") == "descripci\U{F3}n";
    UnpaddedCellField("Descripci\U{F3}n", "descripcion");
  }

  /** Walking the template's labels assigns each field its own position. */
  lemma AssignTemplateLabels()
    ensures Assign([Some(Nombre), Some(Autor), Some(Editorial), Some(Isbn), Some(Descripcion)])
      == Columns(Some(1), Some(2), Some(3), Some(4), Some(5))
  {
    var labels := [Some(Nombre), Some(Autor), Some(Editorial), Some(Isbn), Some(Descripcion)];
    assert labels[..1][..0] == [];
    assert Assign(labels[..1]) == NoColumns.(nombre := Some(1));
    assert labels[..2][..1] == labels[..1];
    assert Assign(labels[..2]) == NoColumns.(nombre := Some(1), autor := Some(2));
    assert labels[..3][..2] == labels[..2];
    assert Assign(labels[..3]) == NoColumns.(nombre := Some(1), autor := Some(2), editorial := Some(3));
    assert labels[..4][..3] == labels[..3];
    assert Assign(labels[..4]) == Columns(Some(1), Some(2), Some(3), Some(4), None);
    assert labels[..4] == labels[..|labels| - 1];
  }

  /** The template's own header is discovered as columns 1 to 5, in field order. */
  lemma TemplateHeaderRoundTrip()
    ensures Discover(TemplateHeader) == Columns(Some(1), Some(2), Some(3), Some(4), Some(5))
  {
    var labels := [Some(Nombre), Some(Autor), Some(Editorial), Some(Isbn), Some(Descripcion)];
    forall k | 0 <= k < |TemplateHeader|
      ensures Labels(TemplateHeader)[k] == labels[k]
    {
      TemplateCellNamesField(k);
    }
    assert Labels(TemplateHeader) == labels;
    AssignTemplateLabels();
  }

  /** `Título` and `Escritor` are synonyms of the two mandatory fields. */
  lemma TituloEscritorAreMandatoryColumns()
    ensures Discover([Some("T\U{ED}tulo"), Some("Escritor")]) == Columns(Some(1), Some(2), None, None, None)
  {
    var header := [Some("T\U{ED}tulo"), Some("Escritor")];
    forall k | 0 <= k < 2
      ensures Labels(header)[k] == Some([Nombre, Autor][k])
    {
      var s := header[k].value;
      NormalizedUnpadded(s);
      if k == 0 {
        assert FoldAccents(Lower(s)) == "titulo";
      } else {
        assert FoldAccents(Lower(s)) == "escritor";
      }
    }
    assert Labels(header) == [Some(Nombre), Some(Autor)];
    assert [Some(Nombre), Some(Autor)][..1] == [Some(Nombre)];
    assert Assign([Some(Nombre)]) == NoColumns.(nombre := Some(1));
  }
}
