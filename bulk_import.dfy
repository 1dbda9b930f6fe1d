/**
  The second half of the spreadsheet import: checking one data row
  (`validar_fila_libro`), the per-owner duplicate query (`es_duplicado`) and
  the driver that classifies every data row and inserts the new books in one
  batch (`procesar_excel_libros`). The book table is a sequence of `Book`
  records; the driver returns the report the view renders together with the
  table after the batch insert.
 */
module BulkImport {
  import opened Options
  import opened Text
  import opened Catalog
  import opened Headers

  // ---------------------------------------------------------------------------
  // Row validation (`validar_fila_libro`)
  // ---------------------------------------------------------------------------

  /** `if indices[f]:` -- a field is read only when its column was found (a found column is never 0). */
  predicate Configured(col: Option<nat>) {
    col.Some? && col.value != 0
  }

  /** Reading `fila[col - 1]` does not raise `IndexError`. */
  predicate Reachable(row: Row, col: Option<nat>) {
    !Configured(col) || col.value <= |row|
  }

  predicate AllReachable(row: Row, cols: Columns) {
    && Reachable(row, cols.nombre) && Reachable(row, cols.autor) && Reachable(row, cols.editorial)
    && Reachable(row, cols.isbn) && Reachable(row, cols.descripcion)
  }

  /** The cell read for a field; a field without a column reads as `None`. */
  function Read(row: Row, col: Option<nat>): Cell
    requires Reachable(row, col)
  {
    if Configured(col) then row[col.value - 1] else None
  }

  /** `not v or (isinstance(v, str) and not v.strip())` */
  predicate Blank(c: Cell) {
    !Truthy(c) || Strip(c.value) == ""
  }

  /** `str(v).strip().replace('-', '').replace(' ', '')` */
  function CleanIsbn(s: string): (r: string)
    ensures '-' !in r && ' ' !in r
    ensures |r| <= |s|
  {
    StripTrims(s);
    RemoveChar(RemoveChar(Strip(s), '-'), ' ')
  }

  /** The six rules a row can break, in the order they are checked. */
  datatype Violation =
    | NombreRequired | NombreTooLong
    | AutorRequired | AutorTooLong
    | EditorialTooLong | IsbnTooLong

  function RuleText(v: Violation): string {
    match v
    case NombreRequired => "El campo 'Nombre' es obligatorio"
    case NombreTooLong => "El nombre excede los 255 caracteres"
    case AutorRequired => "El campo 'Autor' es obligatorio"
    case AutorTooLong => "El autor excede los 255 caracteres"
    case EditorialTooLong => "La editorial excede los 255 caracteres"
    case IsbnTooLong => "El ISBN excede los 13 caracteres"
  }

  /** `f"Fila {numero_fila}: ..."` */
  function Message(fila: nat, v: Violation): string {
    "Fila " + NatToString(fila) + ": " + RuleText(v)
  }

  function Messages(fila: nat, vs: seq<Violation>): (ms: seq<string>)
    ensures |ms| == |vs|
  {
    seq(|vs|, i requires 0 <= i < |vs| => Message(fila, vs[i]))
  }

  /** A mandatory field: missing or blank, else too long once stripped, else fine. */
  function MandatoryRule(c: Cell, required: Violation, tooLong: Violation): seq<Violation> {
    if Blank(c) then [required]
    else if |Strip(c.value)| > MaxNameLength then [tooLong]
    else []
  }

  /** `editorial` is optional: only a present value that is too long once stripped is an error. */
  function EditorialRule(c: Cell): seq<Violation> {
    if Truthy(c) && |Strip(c.value)| > MaxNameLength then [EditorialTooLong] else []
  }

  /** `isbn` is optional: only a present value that is too long once cleaned is an error. */
  function IsbnRule(c: Cell): seq<Violation> {
    if Truthy(c) && |CleanIsbn(c.value)| > MaxIsbnLength then [IsbnTooLong] else []
  }

  /** Every rule the row breaks, in the order `validar_fila_libro` reports them. */
  function Violations(row: Row, cols: Columns): seq<Violation>
    requires AllReachable(row, cols)
  {
    MandatoryRule(Read(row, cols.nombre), NombreRequired, NombreTooLong)
    + MandatoryRule(Read(row, cols.autor), AutorRequired, AutorTooLong)
    + EditorialRule(Read(row, cols.editorial))
    + IsbnRule(Read(row, cols.isbn))
  }

  /** The `datos` dictionary; a key that is absent from it is `None` here. */
  datatype BookData = BookData(
    nombre: string,
    autor: string,
    editorial: Option<string>,
    isbn: Option<string>,
    descripcion: Option<string>)

  /** `str(v).strip()` of a truthy cell, `None` otherwise. */
  function Stripped(c: Cell): Option<string> {
    if Truthy(c) then Some(Strip(c.value)) else None
  }

  /** The values a row contributes when it breaks no rule. */
  function Extract(row: Row, cols: Columns): BookData
    requires AllReachable(row, cols)
  {
    var isbn := Read(row, cols.isbn);
    BookData(
      if Truthy(Read(row, cols.nombre)) then Strip(Read(row, cols.nombre).value) else "",
      if Truthy(Read(row, cols.autor)) then Strip(Read(row, cols.autor).value) else "",
      Stripped(Read(row, cols.editorial)),
      if Truthy(isbn) && CleanIsbn(isbn.value) != "" then Some(CleanIsbn(isbn.value)) else None,
      Stripped(Read(row, cols.descripcion)))
  }

  /**
    What `validar_fila_libro` does with a row: `{'datos': ...}`, `{'error': ...}`
    with the messages joined by `'; '`, or the `IndexError` it raises when a
    found column lies beyond the end of the row.
   */
  datatype Validation = Accepted(data: BookData) | Rejected(message: string) | RowUnreadable

  function Validate(row: Row, cols: Columns, fila: nat): (v: Validation)
    ensures v.Accepted? ==> AllReachable(row, cols) && Violations(row, cols) == [] && WellFormedData(v.data)
  {
    if !AllReachable(row, cols) then RowUnreadable
    else if Violations(row, cols) != [] then Rejected(Join(Messages(fila, Violations(row, cols)), "; "))
    else Accepted(Extract(row, cols))
  }

  /** Messages are produced rule by rule, so the messages of a concatenation concatenate. */
  lemma MessagesAppend(fila: nat, a: seq<Violation>, b: seq<Violation>)
    ensures Messages(fila, a + b) == Messages(fila, a) + Messages(fila, b)
  {
  }

  /** The checks on `nombre` or `autor`: one message at most, and the stripped value when it passes. */
  method CheckMandatory(c: Cell, fila: nat, required: Violation, tooLong: Violation)
    returns (errores: seq<string>, value: string)
    ensures errores == Messages(fila, MandatoryRule(c, required, tooLong))
    ensures errores == [] ==> Truthy(c) && value == Strip(c.value)
  {
    var v := if Truthy(c) then c else None;
    if !Truthy(v) || Strip(v.value) == "" {
      return [Message(fila, required)], "";
    }
    value := Strip(v.value);
    if |value| > MaxNameLength {
      return [Message(fila, tooLong)], "";
    }
    return [], value;
  }

  /** The checks on `editorial`: too long once stripped is an error, otherwise the stripped value is kept. */
  method CheckEditorial(c: Cell, fila: nat) returns (errores: seq<string>, value: Option<string>)
    ensures errores == Messages(fila, EditorialRule(c))
    ensures errores == [] ==> value == Stripped(c)
  {
    errores, value := [], None;
    if Truthy(c) {
      var e := Strip(c.value);
      if |e| > MaxNameLength {
        errores := [Message(fila, EditorialTooLong)];
      } else {
        value := Some(e);
      }
    }
  }

  /** The checks on `isbn`: cleaned, too long is an error, an empty cleaned value is dropped. */
  method CheckIsbn(c: Cell, fila: nat) returns (errores: seq<string>, value: Option<string>)
    ensures errores == Messages(fila, IsbnRule(c))
    ensures errores == [] ==> value == if Truthy(c) && CleanIsbn(c.value) != "" then Some(CleanIsbn(c.value)) else None
  {
    errores, value := [], None;
    if Truthy(c) {
      var i := Strip(c.value);
      i := RemoveChar(RemoveChar(i, '-'), ' ');
      if |i| > MaxIsbnLength {
        errores := [Message(fila, IsbnTooLong)];
      } else if |i| > 0 {
        value := Some(i);
      }
    }
  }

  /** Reads `fila[col - 1]` where the field has a column; `None` says it raised `IndexError`. */
  method ReadCell(row: Row, col: Option<nat>) returns (c: Option<Cell>)
    ensures c.None? <==> !Reachable(row, col)
    ensures c.Some? ==> c.value == Read(row, col)
  {
    if !Configured(col) {
      return Some(None);
    }
    if col.value > |row| {
      return None;
    }
    return Some(row[col.value - 1]);
  }

  /** `validar_fila_libro`: reads the cells, appends one message per broken rule and fills `datos`. */
  method ValidateRow(row: Row, cols: Columns, fila: nat) returns (v: Validation)
    ensures v == Validate(row, cols, fila)
  {
    var nombre := ReadCell(row, cols.nombre);
    if nombre.None? {
      return RowUnreadable;
    }
    var autor := ReadCell(row, cols.autor);
    if autor.None? {
      return RowUnreadable;
    }
    var e1, n := CheckMandatory(nombre.value, fila, NombreRequired, NombreTooLong);
    var e2, a := CheckMandatory(autor.value, fila, AutorRequired, AutorTooLong);
    var editorial := ReadCell(row, cols.editorial);
    if editorial.None? {
      return RowUnreadable;
    }
    var e3, ed := CheckEditorial(editorial.value, fila);
    var isbn := ReadCell(row, cols.isbn);
    if isbn.None? {
      return RowUnreadable;
    }
    var e4, i := CheckIsbn(isbn.value, fila);
    var descripcion := ReadCell(row, cols.descripcion);
    if descripcion.None? {
      return RowUnreadable;
    }
    var errores := e1 + e2 + e3 + e4;
    var r1 := MandatoryRule(nombre.value, NombreRequired, NombreTooLong);
    var r2 := MandatoryRule(autor.value, AutorRequired, AutorTooLong);
    MessagesAppend(fila, r1, r2);
    MessagesAppend(fila, r1 + r2, EditorialRule(editorial.value));
    MessagesAppend(fila, r1 + r2 + EditorialRule(editorial.value), IsbnRule(isbn.value));
    if errores != [] {
      return Rejected(Join(errores, "; "));
    }
    return Accepted(BookData(n, a, ed, i, Stripped(descripcion.value)));
  }

  /** No white space at either end (the empty string included). */
  predicate Trimmed(s: string) {
    s == [] || (!IsSpace(s[0]) && !IsSpace(s[|s| - 1]))
  }

  /** What every accepted record satisfies, whatever the row held. */
  predicate WellFormedData(d: BookData) {
    && d.nombre != "" && |d.nombre| <= MaxNameLength && Trimmed(d.nombre)
    && d.autor != "" && |d.autor| <= MaxNameLength && Trimmed(d.autor)
    && (d.editorial.Some? ==> |d.editorial.value| <= MaxNameLength && Trimmed(d.editorial.value))
    && (d.isbn.Some? ==> 0 < |d.isbn.value| <= MaxIsbnLength && '-' !in d.isbn.value && ' ' !in d.isbn.value)
    && (d.descripcion.Some? ==> Trimmed(d.descripcion.value))
  }

  lemma StripIsTrimmed(s: string)
    ensures Trimmed(Strip(s))
  {
    StripTrims(s);
  }

  /**
    Error xor data: a row is unreadable exactly when a found column lies past
    its end, rejected exactly when it breaks a rule (with a message that starts
    `Fila {n}: `), and otherwise accepted with stripped, bounded values read
    from its own cells, the ISBN with its hyphens and spaces removed and
    left out when nothing remains.
   */
  lemma ValidateOutcome(row: Row, cols: Columns, fila: nat)
    ensures var v := Validate(row, cols, fila);
      && (v == RowUnreadable <==> !AllReachable(row, cols))
      && (v.Rejected? <==> AllReachable(row, cols) && Violations(row, cols) != [])
      && (v.Rejected? ==> "Fila " + NatToString(fila) + ": " <= v.message)
      && (v.Accepted? ==> WellFormedData(v.data))
      && (v.Accepted? ==>
            && v.data.nombre == Strip(Read(row, cols.nombre).value)
            && v.data.autor == Strip(Read(row, cols.autor).value)
            && v.data.editorial == Stripped(Read(row, cols.editorial))
            && v.data.isbn == (if Truthy(Read(row, cols.isbn)) && CleanIsbn(Read(row, cols.isbn).value) != ""
                               then Some(CleanIsbn(Read(row, cols.isbn).value)) else None)
            && v.data.descripcion == Stripped(Read(row, cols.descripcion)))
  {
    var v := Validate(row, cols, fila);
    if v.Rejected? {
      var ms := Messages(fila, Violations(row, cols));
      JoinStartsWithFirst(ms, "; ");
      assert ms[0] == "Fila " + NatToString(fila) + ": " + RuleText(Violations(row, cols)[0]);
    }
    if v.Accepted? {
      var nombre, autor := Read(row, cols.nombre), Read(row, cols.autor);
      StripIsTrimmed(nombre.value);
      StripIsTrimmed(autor.value);
      var editorial, descripcion := Read(row, cols.editorial), Read(row, cols.descripcion);
      if Truthy(editorial) {
        StripIsTrimmed(editorial.value);
      }
      if Truthy(descripcion) {
        StripIsTrimmed(descripcion.value);
      }
    }
  }

  /** Each rule is reported exactly when its condition holds. */
  lemma ViolationRules(row: Row, cols: Columns)
    requires AllReachable(row, cols)
    ensures var vs, nombre, autor := Violations(row, cols), Read(row, cols.nombre), Read(row, cols.autor);
      && (NombreRequired in vs <==> Blank(nombre))
      && (NombreTooLong in vs <==> !Blank(nombre) && |Strip(nombre.value)| > MaxNameLength)
      && (AutorRequired in vs <==> Blank(autor))
      && (AutorTooLong in vs <==> !Blank(autor) && |Strip(autor.value)| > MaxNameLength)
    ensures var vs, editorial, isbn := Violations(row, cols), Read(row, cols.editorial), Read(row, cols.isbn);
      && (EditorialTooLong in vs <==> Truthy(editorial) && |Strip(editorial.value)| > MaxNameLength)
      && (IsbnTooLong in vs <==> Truthy(isbn) && |CleanIsbn(isbn.value)| > MaxIsbnLength)
  {
  }

  /** `descripcion` has no rule: which cell it is read from never changes the verdict. */
  lemma DescripcionIsUnchecked(row: Row, cols: Columns)
    requires AllReachable(row, cols)
    ensures Violations(row, cols.(descripcion := None)) == Violations(row, cols)
  {
  }

  /**
    The 255-character limit on `nombre` is inclusive: a row holding an unpadded
    name and author is accepted iff the name has at most 255 characters.
   */
  lemma NombreLengthBoundary(nombre: string, autor: string)
    requires nombre != [] && !IsSpace(nombre[0]) && !IsSpace(nombre[|nombre| - 1])
    requires autor != [] && !IsSpace(autor[0]) && !IsSpace(autor[|autor| - 1]) && |autor| <= MaxNameLength
    ensures var cols := NoColumns.(nombre := Some(1), autor := Some(2));
      Validate([Some(nombre), Some(autor)], cols, 2).Accepted? <==> |nombre| <= MaxNameLength
    ensures var cols := NoColumns.(nombre := Some(1), autor := Some(2));
      |nombre| > MaxNameLength ==> Violations([Some(nombre), Some(autor)], cols) == [NombreTooLong]
  {
    StripUnpadded(nombre);
    StripUnpadded(autor);
  }

  // ---------------------------------------------------------------------------
  // Duplicate check (`es_duplicado`)
  // ---------------------------------------------------------------------------

  datatype DuplicateKind = ByIsbn | ByNameAuthor

  /** The `tipo` reported for a duplicate. */
  function KindLabel(k: DuplicateKind): string {
    match k
    case ByIsbn => "ISBN"
    case ByNameAuthor => "Nombre+Autor"
  }

  /** `Libro.objects.filter(propietario=owner, isbn=isbn).exists()` */
  predicate IsbnTaken(isbn: string, owner: UserId, catalog: seq<Book>) {
    exists b :: b in catalog && b.propietario == owner && b.isbn == Some(isbn)
  }

  /** `filter(propietario=owner, nombre__iexact=nombre, autor__iexact=autor).exists()` */
  predicate NameAuthorTaken(nombre: string, autor: string, owner: UserId, catalog: seq<Book>) {
    exists b :: b in catalog && b.propietario == owner && Lower(b.nombre) == Lower(nombre) && Lower(b.autor) == Lower(autor)
  }

  /**
    `es_duplicado`: the ISBN query first (when the record has one), then the
    name and author query. A book of the owner with the record's ISBN makes it
    an ISBN duplicate, whatever else matches; a name and author match (ignoring
    case) counts only when no book of the owner has the ISBN; and the record is
    new exactly when no book of the owner matches either way.
   */
  function FindDuplicate(d: BookData, owner: UserId, catalog: seq<Book>): (r: Option<DuplicateKind>)
    ensures r == Some(ByIsbn) <==>
      d.isbn.Some? && d.isbn.value != "" && exists b :: b in catalog && b.propietario == owner && b.isbn == d.isbn
    ensures r == Some(ByNameAuthor) ==>
      && (exists b :: b in catalog && b.propietario == owner && Lower(b.nombre) == Lower(d.nombre) && Lower(b.autor) == Lower(d.autor))
      && (d.isbn.Some? && d.isbn.value != "" ==> forall b :: b in catalog && b.propietario == owner ==> b.isbn != d.isbn)
    ensures r == None <==>
      forall b :: b in catalog && b.propietario == owner ==>
        && (d.isbn.Some? && d.isbn.value != "" ==> b.isbn != d.isbn)
        && (Lower(b.nombre) != Lower(d.nombre) || Lower(b.autor) != Lower(d.autor))
  {
    if d.isbn.Some? && d.isbn.value != "" && IsbnTaken(d.isbn.value, owner, catalog) then Some(ByIsbn)
    else if NameAuthorTaken(d.nombre, d.autor, owner, catalog) then Some(ByNameAuthor)
    else None
  }

  /** The `Libro(**libro_data)` built for a record: the owner's, and `'disponible'`. */
  function BookOf(d: BookData, owner: UserId): (b: Book)
    ensures b.propietario == owner && b.estado == Disponible
    ensures b.nombre == d.nombre && b.autor == d.autor && b.isbn == d.isbn
  {
    Book(d.nombre, d.autor, d.editorial, d.isbn, d.descripcion, owner, Disponible)
  }

  /** Only the owner's books matter: other owners' books never make a duplicate. */
  lemma DuplicateIgnoresOtherOwners(d: BookData, owner: UserId, catalog: seq<Book>, others: seq<Book>)
    requires forall b :: b in others ==> b.propietario != owner
    ensures FindDuplicate(d, owner, catalog + others) == FindDuplicate(d, owner, catalog)
  {
    if d.isbn.Some? && IsbnTaken(d.isbn.value, owner, catalog + others) {
      var b :| b in catalog + others && b.propietario == owner && b.isbn == d.isbn;
      assert b in catalog;
    }
    if NameAuthorTaken(d.nombre, d.autor, owner, catalog + others) {
      var b :| b in catalog + others && b.propietario == owner && Lower(b.nombre) == Lower(d.nombre) && Lower(b.autor) == Lower(d.autor);
      assert b in catalog;
    }
  }

  /** Adding books never turns a duplicate into a new record. */
  lemma DuplicateMonotone(d: BookData, owner: UserId, catalog: seq<Book>, more: seq<Book>)
    requires FindDuplicate(d, owner, catalog).Some?
    ensures FindDuplicate(d, owner, catalog + more).Some?
  {
    if d.isbn.Some? && d.isbn.value != "" && IsbnTaken(d.isbn.value, owner, catalog) {
      var b :| b in catalog && b.propietario == owner && b.isbn == d.isbn;
      assert b in catalog + more;
    } else {
      var b :| b in catalog && b.propietario == owner && Lower(b.nombre) == Lower(d.nombre) && Lower(b.autor) == Lower(d.autor);
      assert b in catalog + more;
    }
  }

  /** Once its book is in the table, a record is a duplicate of it. */
  lemma DuplicateOfItself(d: BookData, owner: UserId, catalog: seq<Book>)
    requires BookOf(d, owner) in catalog
    ensures FindDuplicate(d, owner, catalog).Some?
  {
    assert NameAuthorTaken(d.nombre, d.autor, owner, catalog);
  }

  // ---------------------------------------------------------------------------
  // The driver (`procesar_excel_libros`)
  // ---------------------------------------------------------------------------

  /** `load_workbook(...)` either raises (with the text of its exception) or yields the active sheet. */
  datatype Workbook = Unreadable(reason: string) | Worksheet(rows: seq<Row>)

  datatype RowError = RowError(fila: nat, mensaje: string)

  datatype DuplicateRow = DuplicateRow(fila: nat, libro: string, tipo: string)

  datatype CreatedBook = CreatedBook(nombre: string, autor: string)

  /** The `resultados` dictionary. */
  datatype Report = Report(
    librosCreados: seq<CreatedBook>,
    duplicados: seq<DuplicateRow>,
    errores: seq<RowError>,
    totalProcesado: nat)

  /**
    The state of the row loop: the counter, the two report lists, the
    `libros_a_crear` batch and (for the statement of the partition) the row
    number each queued book came from.
   */
  datatype Progress = Progress(
    total: nat,
    errores: seq<RowError>,
    duplicados: seq<DuplicateRow>,
    queue: seq<Book>,
    queued: seq<nat>)

  /** The loop either is still going or was left by an exception (`IndexError`). */
  datatype Scan = Scanning(p: Progress) | Aborted(p: Progress)

  const Start := Progress(0, [], [], [], [])

  /** One iteration of the row loop: count the row, then exactly one of error, duplicate or queue. */
  function Step(p: Progress, row: Row, fila: nat, cols: Columns, owner: UserId, catalog: seq<Book>): Scan {
    Advance(p, Validate(row, cols, fila), fila, owner, catalog)
  }

  /** The bookkeeping of one iteration, once the row's validation outcome is known. */
  function Advance(p: Progress, v: Validation, fila: nat, owner: UserId, catalog: seq<Book>): Scan {
    var p := p.(total := p.total + 1);
    match v
    case RowUnreadable => Aborted(p)
    case Rejected(m) => Scanning(p.(errores := p.errores + [RowError(fila, m)]))
    case Accepted(d) =>
      match FindDuplicate(d, owner, catalog)
      case Some(k) => Scanning(p.(duplicados := p.duplicados + [DuplicateRow(fila, d.nombre + " - " + d.autor, KindLabel(k))]))
      case None => Scanning(p.(queue := p.queue + [BookOf(d, owner)], queued := p.queued + [fila]))
  }

  /** The loop over the data rows, the first of them being row 2 of the sheet. */
  function ScanRows(data: seq<Row>, cols: Columns, owner: UserId, catalog: seq<Book>): Scan {
    if data == [] then Scanning(Start)
    else
      match ScanRows(data[..|data| - 1], cols, owner, catalog)
      case Aborted(p) => Aborted(p)
      case Scanning(p) => Step(p, data[|data| - 1], |data| + 1, cols, owner, catalog)
  }

  const MissingColumnsMessage := "No se encontraron las columnas obligatorias \"Nombre\" y \"Autor\" en la primera fila"

  /** `str(e)` of the `IndexError` raised by a short row. */
  const IndexErrorText := "tuple index out of range"

  /** `str(e)` of the `IntegrityError` raised by a batch that repeats an ISBN (SQLite's wording). */
  const UniqueIsbnText := "UNIQUE constraint failed: libros_libro.isbn"

  /** The `except Exception` entry. */
  function Failure(text: string): RowError {
    RowError(0, "Error al procesar el archivo: " + text)
  }

  /** `bulk_create` succeeds iff no queued ISBN is already in the table, under any owner, or queued twice. */
  predicate BatchInsertable(queue: seq<Book>, catalog: seq<Book>) {
    forall i :: 0 <= i < |queue| && queue[i].isbn.Some? ==>
      && (forall b :: b in catalog ==> b.isbn != queue[i].isbn)
      && (forall j :: 0 <= j < |queue| && j != i ==> queue[j].isbn != queue[i].isbn)
  }

  function Summaries(books: seq<Book>): (s: seq<CreatedBook>)
    ensures |s| == |books|
  {
    seq(|books|, i requires 0 <= i < |books| => CreatedBook(books[i].nombre, books[i].autor))
  }

  function HeaderRow(rows: seq<Row>): Row {
    if rows == [] then [] else rows[0]
  }

  function DataRows(rows: seq<Row>): seq<Row> {
    if rows == [] then [] else rows[1..]
  }

  /** `procesar_excel_libros`: the report and the book table afterwards. */
  function Ingest(wb: Workbook, catalog: seq<Book>, owner: UserId): (r: (Report, seq<Book>))
    ensures |r.1| == |catalog| + |r.0.librosCreados| && r.1[..|catalog|] == catalog
  {
    match wb
    case Unreadable(reason) => (Report([], [], [Failure(reason)], 0), catalog)
    case Worksheet(rows) =>
      var cols := Discover(HeaderRow(rows));
      if cols.nombre.None? || cols.autor.None? then
        (Report([], [], [RowError(0, MissingColumnsMessage)], 0), catalog)
      else
        Finish(ScanRows(DataRows(rows), cols, owner, catalog), catalog)
  }

  /** The first row holds both mandatory columns. */
  predicate HeaderComplete(rows: seq<Row>) {
    Discover(HeaderRow(rows)).nombre.Some? && Discover(HeaderRow(rows)).autor.Some?
  }

  /**
    `str(e)` of the exception that leaves the `try` body and reaches the
    `except Exception` handler, if one does: the workbook loader's, the short
    row's `IndexError`, or the batch's `IntegrityError`.
   */
  function Raised(wb: Workbook, catalog: seq<Book>, owner: UserId): Option<string> {
    match wb
    case Unreadable(reason) => Some(reason)
    case Worksheet(rows) =>
      if !HeaderComplete(rows) then None
      else match ScanRows(DataRows(rows), Discover(HeaderRow(rows)), owner, catalog)
        case Aborted(_) => Some(IndexErrorText)
        case Scanning(p) => if p.queue != [] && !BatchInsertable(p.queue, catalog) then Some(UniqueIsbnText) else None
  }

  /** After the row loop: the `bulk_create` of the batch, if any, and the report. */
  function Finish(s: Scan, catalog: seq<Book>): (Report, seq<Book>) {
    match s
    case Aborted(p) => (Report([], p.duplicados, p.errores + [Failure(IndexErrorText)], p.total), catalog)
    case Scanning(p) =>
      if p.queue == [] then (Report([], p.duplicados, p.errores, p.total), catalog)
      else if !BatchInsertable(p.queue, catalog) then
        (Report([], p.duplicados, p.errores + [Failure(UniqueIsbnText)], p.total), catalog)
      else (Report(Summaries(p.queue), p.duplicados, p.errores, p.total), catalog + p.queue)
  }

  /** One more row: the loop over a longer prefix is one more `Step`, unless it was left already. */
  lemma ScanRowsStep(data: seq<Row>, i: nat, cols: Columns, owner: UserId, catalog: seq<Book>)
    requires i < |data|
    ensures ScanRows(data[..i + 1], cols, owner, catalog) ==
      match ScanRows(data[..i], cols, owner, catalog)
      case Aborted(p) => Aborted(p)
      case Scanning(p) => Step(p, data[i], i + 2, cols, owner, catalog)
  {
    assert data[..i + 1][..i] == data[..i];
  }

  /** Once the loop has been left, later rows change nothing. */
  lemma {:induction false} AbortPersists(data: seq<Row>, k: nat, cols: Columns, owner: UserId, catalog: seq<Book>)
    requires k <= |data| && ScanRows(data[..k], cols, owner, catalog).Aborted?
    ensures ScanRows(data, cols, owner, catalog) == ScanRows(data[..k], cols, owner, catalog)
    decreases |data| - k
  {
    if k < |data| {
      assert data[..k + 1][..k] == data[..k];
      AbortPersists(data, k + 1, cols, owner, catalog);
    } else {
      assert data[..k] == data;
    }
  }

  /** The body of the row loop: count the row, validate it, then report it or queue its book. */
  method ProcessRow(p: Progress, row: Row, fila: nat, cols: Columns, owner: UserId, catalog: seq<Book>)
    returns (s: Scan)
    ensures s == Step(p, row, fila, cols, owner, catalog)
  {
    var next := p.(total := p.total + 1);
    var v := ValidateRow(row, cols, fila);
    if v.RowUnreadable? {
      return Aborted(next);
    }
    if v.Rejected? {
      return Scanning(next.(errores := next.errores + [RowError(fila, v.message)]));
    }
    var dup := FindDuplicate(v.data, owner, catalog);
    if dup.Some? {
      var entry := DuplicateRow(fila, v.data.nombre + " - " + v.data.autor, KindLabel(dup.value));
      return Scanning(next.(duplicados := next.duplicados + [entry]));
    }
    return Scanning(next.(queue := next.queue + [BookOf(v.data, owner)], queued := next.queued + [fila]));
  }

  /** The row loop over the data rows, numbered from 2; an exception leaves it. */
  method ScanData(data: seq<Row>, cols: Columns, owner: UserId, catalog: seq<Book>) returns (s: Scan)
    ensures s == ScanRows(data, cols, owner, catalog)
  {
    var p := Start;
    for i := 0 to |data|
      invariant ScanRows(data[..i], cols, owner, catalog) == Scanning(p)
    {
      ScanRowsStep(data, i, cols, owner, catalog);
      s := ProcessRow(p, data[i], i + 2, cols, owner, catalog);
      if s.Aborted? {
        AbortPersists(data, i + 1, cols, owner, catalog);
        return;
      }
      p := s.p;
    }
    assert data[..|data|] == data;
    return Scanning(p);
  }

  /** `procesar_excel_libros`: discovery, the row loop, then the single batch insert. */
  method ProcessWorkbook(wb: Workbook, catalog: seq<Book>, owner: UserId) returns (report: Report, table: seq<Book>)
    ensures (report, table) == Ingest(wb, catalog, owner)
  {
    if wb.Unreadable? {
      return Report([], [], [Failure(wb.reason)], 0), catalog;
    }
    var cols := FindColumns(HeaderRow(wb.rows));
    if cols.nombre.None? || cols.autor.None? {
      return Report([], [], [RowError(0, MissingColumnsMessage)], 0), catalog;
    }
    var s := ScanData(DataRows(wb.rows), cols, owner, catalog);
    var p := s.p;
    if s.Aborted? {
      return Report([], p.duplicados, p.errores + [Failure(IndexErrorText)], p.total), catalog;
    }
    if p.queue == [] {
      return Report([], p.duplicados, p.errores, p.total), catalog;
    }
    if !BatchInsertable(p.queue, catalog) {
      return Report([], p.duplicados, p.errores + [Failure(UniqueIsbnText)], p.total), catalog;
    }
    return Report(Summaries(p.queue), p.duplicados, p.errores, p.total), catalog + p.queue;
  }

  // ---------------------------------------------------------------------------
  // Properties of the driver
  // ---------------------------------------------------------------------------

  function ErrorRows(p: Progress): (rows: seq<nat>)
    ensures |rows| == |p.errores|
  {
    seq(|p.errores|, i requires 0 <= i < |p.errores| => p.errores[i].fila)
  }

  function DuplicateRows(p: Progress): (rows: seq<nat>)
    ensures |rows| == |p.duplicados|
  {
    seq(|p.duplicados|, i requires 0 <= i < |p.duplicados| => p.duplicados[i].fila)
  }

  /**
    After `n` rows, rows 2 to `n + 1` are each in exactly one of the error list,
    the duplicate list and the batch, and nothing else is in any of them.
   */
  predicate Partitioned(p: Progress, n: nat) {
    && |p.errores| + |p.duplicados| + |p.queue| == n
    && |p.queued| == |p.queue|
    && (forall k :: k in ErrorRows(p) ==> 2 <= k <= n + 1)
    && (forall k :: k in DuplicateRows(p) ==> 2 <= k <= n + 1)
    && (forall k :: k in p.queued ==> 2 <= k <= n + 1)
    && (forall k :: 2 <= k <= n + 1 ==>
          && (k in ErrorRows(p) || k in DuplicateRows(p) || k in p.queued)
          && !(k in ErrorRows(p) && k in DuplicateRows(p))
          && !(k in ErrorRows(p) && k in p.queued)
          && !(k in DuplicateRows(p) && k in p.queued))
  }

  /** The `datos` a queued book was built from. */
  function DataOf(b: Book): (d: BookData)
    ensures BookOf(d, b.propietario) == b.(estado := Disponible)
  {
    BookData(b.nombre, b.autor, b.editorial, b.isbn, b.descripcion)
  }

  /** Every queued book is the owner's, `'disponible'`, and no duplicate of the table as it was before the insert. */
  predicate QueuedFresh(p: Progress, owner: UserId, catalog: seq<Book>) {
    forall b :: b in p.queue ==>
      b.propietario == owner && b.estado == Disponible && FindDuplicate(DataOf(b), owner, catalog) == None
  }

  /** Recording row `n + 2` as an error extends the partition to `n + 1` rows. */
  lemma ErrorExtends(p: Progress, n: nat, e: RowError)
    requires Partitioned(p, n) && e.fila == n + 2
    ensures Partitioned(p.(errores := p.errores + [e]), n + 1)
  {
    var q := p.(errores := p.errores + [e]);
    assert ErrorRows(q) == ErrorRows(p) + [n + 2];
    assert DuplicateRows(q) == DuplicateRows(p);
  }

  /** Recording row `n + 2` as a duplicate extends the partition to `n + 1` rows. */
  lemma DuplicateExtends(p: Progress, n: nat, d: DuplicateRow)
    requires Partitioned(p, n) && d.fila == n + 2
    ensures Partitioned(p.(duplicados := p.duplicados + [d]), n + 1)
  {
    var q := p.(duplicados := p.duplicados + [d]);
    assert ErrorRows(q) == ErrorRows(p);
    assert DuplicateRows(q) == DuplicateRows(p) + [n + 2];
  }

  /** Queueing row `n + 2` extends the partition to `n + 1` rows. */
  lemma QueueExtends(p: Progress, n: nat, b: Book)
    requires Partitioned(p, n)
    ensures Partitioned(p.(queue := p.queue + [b], queued := p.queued + [n + 2]), n + 1)
  {
    var q := p.(queue := p.queue + [b], queued := p.queued + [n + 2]);
    assert ErrorRows(q) == ErrorRows(p);
    assert DuplicateRows(q) == DuplicateRows(p);
  }

  /** One iteration keeps the partition, now over one more row, unless it raises. */
  lemma StepKeepsPartition(p: Progress, n: nat, v: Validation, owner: UserId, catalog: seq<Book>)
    requires p.total == n && Partitioned(p, n)
    ensures var s := Advance(p, v, n + 2, owner, catalog);
      && s.p.total == n + 1
      && (s.Scanning? ==> Partitioned(s.p, n + 1))
      && (s.Aborted? ==> Partitioned(s.p, n))
  {
    var p1 := p.(total := n + 1);
    assert ErrorRows(p1) == ErrorRows(p) && DuplicateRows(p1) == DuplicateRows(p);
    match v
    case RowUnreadable =>
    case Rejected(m) =>
      ErrorExtends(p1, n, RowError(n + 2, m));
    case Accepted(d) =>
      match FindDuplicate(d, owner, catalog)
      case Some(k) =>
        DuplicateExtends(p1, n, DuplicateRow(n + 2, d.nombre + " - " + d.autor, KindLabel(k)));
      case None =>
        QueueExtends(p1, n, BookOf(d, owner));
  }

  /** One iteration queues only a fresh book of the owner. */
  lemma StepKeepsFresh(p: Progress, v: Validation, fila: nat, owner: UserId, catalog: seq<Book>)
    requires QueuedFresh(p, owner, catalog)
    ensures QueuedFresh(Advance(p, v, fila, owner, catalog).p, owner, catalog)
  {
    if v.Accepted? && FindDuplicate(v.data, owner, catalog).None? {
      assert DataOf(BookOf(v.data, owner)) == v.data;
    }
  }

  /** What the row loop leaves after `n` data rows (see `ScanPartition`). */
  predicate ScanOutcome(s: Scan, n: nat, owner: UserId, catalog: seq<Book>) {
    && QueuedFresh(s.p, owner, catalog)
    && (s.Scanning? ==> s.p.total == n && Partitioned(s.p, n))
    && (s.Aborted? ==> 1 <= s.p.total <= n && Partitioned(s.p, s.p.total - 1))
  }

  /**
    The row loop's invariant: each data row is counted once and lands in
    exactly one of the error list, the duplicate list and the batch; the
    batch holds only the owner's new books, `'disponible'`. When a row raises,
    it is counted but recorded nowhere, and the rows before it are partitioned.
   */
  lemma {:induction false} ScanPartition(data: seq<Row>, cols: Columns, owner: UserId, catalog: seq<Book>)
    ensures ScanOutcome(ScanRows(data, cols, owner, catalog), |data|, owner, catalog)
  {
    if data != [] {
      var front := data[..|data| - 1];
      ScanPartition(front, cols, owner, catalog);
      ScanOutcomeStep(ScanRows(front, cols, owner, catalog), |front|, Validate(data[|data| - 1], cols, |data| + 1), owner, catalog);
    }
  }

  /** One more row keeps `ScanOutcome`, whether or not the loop was left already. */
  lemma ScanOutcomeStep(s: Scan, n: nat, v: Validation, owner: UserId, catalog: seq<Book>)
    requires ScanOutcome(s, n, owner, catalog)
    ensures ScanOutcome(match s case Aborted(p) => Aborted(p) case Scanning(p) => Advance(p, v, n + 2, owner, catalog),
                        n + 1, owner, catalog)
  {
    if s.Scanning? {
      StepKeepsPartition(s.p, n, v, owner, catalog);
      StepKeepsFresh(s.p, v, n + 2, owner, catalog);
    }
  }

  /** Partitioned rows carry row numbers 2 to `n + 1`. */
  lemma PartitionedRowNumbers(p: Progress, n: nat)
    requires Partitioned(p, n)
    ensures forall i :: 0 <= i < |p.errores| ==> 2 <= p.errores[i].fila <= n + 1
    ensures forall i :: 0 <= i < |p.duplicados| ==> 2 <= p.duplicados[i].fila <= n + 1
  {
    forall i | 0 <= i < |p.errores|
      ensures 2 <= p.errores[i].fila <= n + 1
    {
      assert ErrorRows(p)[i] == p.errores[i].fila;
      assert p.errores[i].fila in ErrorRows(p);
    }
    forall i | 0 <= i < |p.duplicados|
      ensures 2 <= p.duplicados[i].fila <= n + 1
    {
      assert DuplicateRows(p)[i] == p.duplicados[i].fila;
      assert p.duplicados[i].fila in DuplicateRows(p);
    }
  }

  /**
    A report and table consistent with an import by `owner` into `catalog`:
    the table only grew, by exactly the books reported as created, each the
    owner's, `'disponible'` and no duplicate of a book the owner had before;
    an error for row 0 (the whole file) comes at most once and last, and
    never beside created books; every other error and every duplicate names
    a data row (2 to `totalProcesado + 1`); and when there is no row-0 error,
    the rows counted add up to the errors, the duplicates and the created
    books (that each row is reported once is `Partitioned`).
   */
  predicate Consistent(r: Report, table: seq<Book>, catalog: seq<Book>, owner: UserId) {
    && |table| == |catalog| + |r.librosCreados| && table[..|catalog|] == catalog
    && (forall i :: 0 <= i < |r.librosCreados| ==>
          && table[|catalog| + i].propietario == owner && table[|catalog| + i].estado == Disponible
          && r.librosCreados[i] == CreatedBook(table[|catalog| + i].nombre, table[|catalog| + i].autor)
          && FindDuplicate(DataOf(table[|catalog| + i]), owner, catalog) == None)
    && (forall i :: 0 <= i < |r.errores| && r.errores[i].fila == 0 ==> i == |r.errores| - 1)
    && (forall i :: 0 <= i < |r.errores| && r.errores[i].fila != 0 ==> 2 <= r.errores[i].fila <= r.totalProcesado + 1)
    && (forall i :: 0 <= i < |r.duplicados| ==> 2 <= r.duplicados[i].fila <= r.totalProcesado + 1)
    && (r.librosCreados != [] ==> forall i :: 0 <= i < |r.errores| ==> r.errores[i].fila != 0)
    && ((forall i :: 0 <= i < |r.errores| ==> r.errores[i].fila != 0) ==>
          r.totalProcesado == |r.errores| + |r.duplicados| + |r.librosCreados|)
  }

  /** The end of an import whose row loop kept its invariant gives a consistent report. */
  lemma FinishConsistent(s: Scan, n: nat, owner: UserId, catalog: seq<Book>)
    requires ScanOutcome(s, n, owner, catalog)
    ensures var (r, table) := Finish(s, catalog); Consistent(r, table, catalog, owner)
  {
    var p := s.p;
    var m := if s.Scanning? then n else p.total - 1;
    PartitionedRowNumbers(p, m);
    var (r, table) := Finish(s, catalog);
    if s.Scanning? && p.queue != [] && BatchInsertable(p.queue, catalog) {
      assert table[..|catalog|] == catalog;
      forall i | 0 <= i < |r.librosCreados|
        ensures table[|catalog| + i] == p.queue[i]
      {
      }
    } else if r.errores != p.errores {
      assert r.errores == p.errores + [r.errores[|p.errores|]];
      assert r.errores[|p.errores|].fila == 0;
    }
  }

  /**
    What a call to `procesar_excel_libros` reports and leaves behind: a
    consistent report (see `Consistent`); an unreadable file or a first row
    without both mandatory columns gives one row-0 error and nothing else; an
    exception in the `try` body ends the report with exactly one row-0 error,
    carrying its text, and creates nothing; without one, no error is a row-0
    error and every data row is counted.
   */
  lemma IngestReport(wb: Workbook, catalog: seq<Book>, owner: UserId)
    ensures var (r, table) := Ingest(wb, catalog, owner); Consistent(r, table, catalog, owner)
    ensures var (r, table) := Ingest(wb, catalog, owner);
      wb.Unreadable? ==> r == Report([], [], [Failure(wb.reason)], 0) && table == catalog
    ensures var (r, table) := Ingest(wb, catalog, owner);
      wb.Worksheet? && !HeaderComplete(wb.rows) ==>
        r == Report([], [], [RowError(0, MissingColumnsMessage)], 0) && table == catalog
    ensures var (r, table) := Ingest(wb, catalog, owner);
      Raised(wb, catalog, owner).Some? ==>
        && r.librosCreados == [] && table == catalog && r.errores != []
        && r.errores[|r.errores| - 1] == Failure(Raised(wb, catalog, owner).value)
        && (forall i :: 0 <= i < |r.errores| - 1 ==> r.errores[i].fila != 0)
    ensures var (r, table) := Ingest(wb, catalog, owner);
      wb.Worksheet? && HeaderComplete(wb.rows) && Raised(wb, catalog, owner).None? ==>
        && r.totalProcesado == |DataRows(wb.rows)|
        && (forall i :: 0 <= i < |r.errores| ==> r.errores[i].fila != 0)
  {
    if wb.Worksheet? {
      var cols := Discover(HeaderRow(wb.rows));
      if cols.nombre.Some? && cols.autor.Some? {
        var s := ScanRows(DataRows(wb.rows), cols, owner, catalog);
        ScanPartition(DataRows(wb.rows), cols, owner, catalog);
        FinishConsistent(s, |DataRows(wb.rows)|, owner, catalog);
        PartitionedRowNumbers(s.p, if s.Scanning? then |DataRows(wb.rows)| else s.p.total - 1);
      } else {
        assert Ingest(wb, catalog, owner).1[..|catalog|] == catalog;
        assert Ingest(wb, catalog, owner).0.errores[0].fila == 0;
      }
    } else {
      assert Ingest(wb, catalog, owner).1[..|catalog|] == catalog;
      assert Ingest(wb, catalog, owner).0.errores[0].fila == 0;
    }
  }

  // ---------------------------------------------------------------------------
  // Importing the same file twice
  // ---------------------------------------------------------------------------

  /** The loop over a table that already holds the first pass's batch, against the first pass. */
  predicate Rescanned(s1: Scan, s2: Scan) {
    && s2.p.queue == [] && s2.Aborted? == s1.Aborted?
    && s2.p.total == s1.p.total && s2.p.errores == s1.p.errores
    && |s2.p.duplicados| == |s1.p.duplicados| + |s1.p.queue|
  }

  /** An iteration never takes a book out of the batch. */
  lemma AdvanceKeepsQueue(p: Progress, v: Validation, fila: nat, owner: UserId, catalog: seq<Book>)
    ensures p.queue <= Advance(p, v, fila, owner, catalog).p.queue
  {
  }

  /** One row, seen by both passes: what the first queued, the second finds a duplicate. */
  lemma RescanStep(s1: Scan, s2: Scan, v: Validation, fila: nat, owner: UserId, catalog: seq<Book>, extra: seq<Book>)
    requires Rescanned(s1, s2)
    requires v.Accepted? && s1.Scanning? && FindDuplicate(v.data, owner, catalog).None? ==> BookOf(v.data, owner) in extra
    ensures Rescanned(
      match s1 case Aborted(p) => Aborted(p) case Scanning(p) => Advance(p, v, fila, owner, catalog),
      match s2 case Aborted(p) => Aborted(p) case Scanning(p) => Advance(p, v, fila, owner, catalog + extra))
  {
    if s1.Scanning? && v.Accepted? {
      if FindDuplicate(v.data, owner, catalog).Some? {
        DuplicateMonotone(v.data, owner, catalog, extra);
      } else {
        DuplicateOfItself(v.data, owner, catalog + extra);
      }
    }
  }

  /**
    Going over the same rows again, once the books the first pass queued are
    in the table, queues nothing: every row the first pass queued is now a
    duplicate, and errors, row count and abort are as before.
   */
  lemma {:induction false} Rescan(data: seq<Row>, cols: Columns, owner: UserId, catalog: seq<Book>, extra: seq<Book>)
    requires forall b :: b in ScanRows(data, cols, owner, catalog).p.queue ==> b in extra
    ensures Rescanned(ScanRows(data, cols, owner, catalog), ScanRows(data, cols, owner, catalog + extra))
  {
    if data != [] {
      var front := data[..|data| - 1];
      var fila := |data| + 1;
      var v := Validate(data[|data| - 1], cols, fila);
      var s1 := ScanRows(front, cols, owner, catalog);
      var q := ScanRows(data, cols, owner, catalog).p.queue;
      if s1.Scanning? {
        AdvanceKeepsQueue(s1.p, v, fila, owner, catalog);
        if v.Accepted? && FindDuplicate(v.data, owner, catalog).None? {
          assert q[|q| - 1] == BookOf(v.data, owner);
        }
      }
      assert forall b :: b in s1.p.queue ==> b in q;
      Rescan(front, cols, owner, catalog, extra);
      RescanStep(s1, ScanRows(front, cols, owner, catalog + extra), v, fila, owner, catalog, extra);
    }
  }

  /**
    Importing the same workbook a second time creates nothing and leaves the
    table as the first import left it. If the first import created books, the
    second reports each of them as a duplicate and the same errors; if not,
    the second report is the first one again.
   */
  lemma IngestTwiceCreatesNothing(wb: Workbook, catalog: seq<Book>, owner: UserId)
    ensures var (r1, t1) := Ingest(wb, catalog, owner);
      var (r2, t2) := Ingest(wb, t1, owner);
      && r2.librosCreados == [] && t2 == t1
      && (r1.librosCreados == [] ==> r2 == r1)
      && (r1.librosCreados != [] ==>
            && r2.errores == r1.errores && r2.totalProcesado == r1.totalProcesado
            && |r2.duplicados| == |r1.duplicados| + |r1.librosCreados|)
  {
    var (r1, t1) := Ingest(wb, catalog, owner);
    IngestReport(wb, catalog, owner);
    if t1 != catalog && wb.Worksheet? {
      var cols := Discover(HeaderRow(wb.rows));
      var data := DataRows(wb.rows);
      var s1 := ScanRows(data, cols, owner, catalog);
      assert t1 == catalog + s1.p.queue;
      Rescan(data, cols, owner, catalog, s1.p.queue);
    }
  }

  // ---------------------------------------------------------------------------
  // The same book twice in one file
  // ---------------------------------------------------------------------------

  /**
    Duplicates are looked up in the table as it was before the batch, so two
    identical acceptable rows that are new to the owner are both queued.
   */
  lemma IdenticalRowsBothQueued(row: Row, cols: Columns, owner: UserId, catalog: seq<Book>)
    requires Validate(row, cols, 2).Accepted?
    requires FindDuplicate(Validate(row, cols, 2).data, owner, catalog) == None
    ensures var b, s := BookOf(Validate(row, cols, 2).data, owner), ScanRows([row, row], cols, owner, catalog);
      s == Scanning(Progress(2, [], [], [b, b], [2, 3]))
  {
    var v := Validate(row, cols, 2);
    var b := BookOf(v.data, owner);
    assert Validate(row, cols, 3) == v;
    assert [row, row][..1] == [row];
    assert [row][..0] == [];
    assert ScanRows([row], cols, owner, catalog) == Scanning(Progress(1, [], [], [b], [2]));
  }

  /** A worksheet whose header names both mandatory columns goes through the row loop and the batch. */
  lemma IngestWorksheet(header: Row, data: seq<Row>, catalog: seq<Book>, owner: UserId)
    requires Discover(header).nombre.Some? && Discover(header).autor.Some?
    ensures Ingest(Worksheet([header] + data), catalog, owner) ==
      Finish(ScanRows(data, Discover(header), owner, catalog), catalog)
  {
    assert HeaderRow([header] + data) == header;
    assert DataRows([header] + data) == data;
  }

  /** Without an ISBN, both copies are created. */
  lemma IdenticalRowsWithoutIsbnBothCreated(header: Row, row: Row, owner: UserId, catalog: seq<Book>)
    requires Discover(header).nombre.Some? && Discover(header).autor.Some?
    requires Validate(row, Discover(header), 2).Accepted?
    requires FindDuplicate(Validate(row, Discover(header), 2).data, owner, catalog) == None
    requires Validate(row, Discover(header), 2).data.isbn.None?
    ensures var d := Validate(row, Discover(header), 2).data;
      Ingest(Worksheet([header, row, row]), catalog, owner) ==
        (Report([CreatedBook(d.nombre, d.autor), CreatedBook(d.nombre, d.autor)], [], [], 2),
         catalog + [BookOf(d, owner), BookOf(d, owner)])
  {
    var b := BookOf(Validate(row, Discover(header), 2).data, owner);
    IngestWorksheet(header, [row, row], catalog, owner);
    assert [header] + [row, row] == [header, row, row];
    IdenticalRowsBothQueued(row, Discover(header), owner, catalog);
    TwoCopiesInserted(b, catalog);
  }

  /** A batch of two copies of a book without an ISBN is inserted. */
  lemma TwoCopiesInserted(b: Book, catalog: seq<Book>)
    requires b.isbn.None?
    ensures Finish(Scanning(Progress(2, [], [], [b, b], [2, 3])), catalog) ==
      (Report([CreatedBook(b.nombre, b.autor), CreatedBook(b.nombre, b.autor)], [], [], 2), catalog + [b, b])
  {
    assert Summaries([b, b]) == [CreatedBook(b.nombre, b.autor), CreatedBook(b.nombre, b.autor)];
  }

  /** A batch of two copies of a book with an ISBN violates its uniqueness. */
  lemma TwoCopiesRejected(b: Book, catalog: seq<Book>)
    requires b.isbn.Some?
    ensures Finish(Scanning(Progress(2, [], [], [b, b], [2, 3])), catalog) ==
      (Report([], [], [Failure(UniqueIsbnText)], 2), catalog)
  {
    var q := [b, b];
    assert q[0].isbn.Some? && q[1].isbn == q[0].isbn;
    assert !BatchInsertable(q, catalog);
    var none: seq<RowError> := [];
    assert none + [Failure(UniqueIsbnText)] == [Failure(UniqueIsbnText)];
  }

  /**
    With an ISBN, the second copy breaks the ISBN's uniqueness inside the
    batch: the whole insert fails, nothing is created and the file gets one
    row-0 error.
   */
  lemma IdenticalRowsWithIsbnCreateNothing(header: Row, row: Row, owner: UserId, catalog: seq<Book>)
    requires Discover(header).nombre.Some? && Discover(header).autor.Some?
    requires Validate(row, Discover(header), 2).Accepted?
    requires FindDuplicate(Validate(row, Discover(header), 2).data, owner, catalog) == None
    requires Validate(row, Discover(header), 2).data.isbn.Some?
    ensures Ingest(Worksheet([header, row, row]), catalog, owner) ==
      (Report([], [], [Failure(UniqueIsbnText)], 2), catalog)
  {
    var b := BookOf(Validate(row, Discover(header), 2).data, owner);
    IngestWorksheet(header, [row, row], catalog, owner);
    assert [header] + [row, row] == [header, row, row];
    IdenticalRowsBothQueued(row, Discover(header), owner, catalog);
    TwoCopiesRejected(b, catalog);
  }
}
