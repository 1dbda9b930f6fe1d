/**
  `CargaMasivaForm.clean_archivo_excel` (the same method in `libros/forms.py`
  and `core/forms.py`): the upload check run before a spreadsheet is imported.
 */
module Upload {
  import opened Options
  import opened Text

  /** An uploaded file: its name and its size in bytes. */
  datatype UploadedFile = UploadedFile(name: string, size: nat)

  /** The cleaned value, or the `ValidationError` raised. */
  datatype Cleaned = Clean(file: Option<UploadedFile>) | Invalid(message: string)

  /** 5 MB, the largest accepted size. */
  const MaxUploadSize: nat := 5 * 1024 * 1024

  const ExtensionMessage := "El archivo debe ser un Excel (.xlsx o .xls)"
  const SizeMessage := "El archivo no puede ser mayor a 5MB"

  /** `nombre.endswith('.xlsx') or nombre.endswith('.xls')` on the lower-cased name. */
  predicate ExcelName(name: string) {
    EndsWith(Lower(name), ".xlsx") || EndsWith(Lower(name), ".xls")
  }

  /**
    `clean_archivo_excel`. An absent file, or one whose name is empty (a
    Django `File` is false when its name is), passes unchecked; otherwise the
    extension is checked first, the size second.
   */
  function CleanArchivoExcel(f: Option<UploadedFile>): (r: Cleaned)
    ensures r.Clean? ==> r.file == f
  {
    if f.None? || f.value.name == "" then Clean(f)
    else if !ExcelName(f.value.name) then Invalid(ExtensionMessage)
    else if f.value.size > MaxUploadSize then Invalid(SizeMessage)
    else Clean(f)
  }

  /**
    A named file is accepted, unchanged, exactly when its name ends in
    `.xlsx` or `.xls` in any letter case and it is at most 5 MB; a bad
    extension is reported even when the file is also too large.
   */
  lemma CleanOutcomes(f: UploadedFile)
    requires f.name != ""
    ensures CleanArchivoExcel(Some(f)) == Clean(Some(f)) <==> ExcelName(f.name) && f.size <= MaxUploadSize
    ensures CleanArchivoExcel(Some(f)) == Invalid(ExtensionMessage) <==> !ExcelName(f.name)
    ensures CleanArchivoExcel(Some(f)) == Invalid(SizeMessage) <==> ExcelName(f.name) && f.size > MaxUploadSize
  {
  }

  /** The size limit is inclusive: 5 MB exactly passes, one byte more does not. */
  lemma SizeBoundary(name: string)
    requires name != "" && ExcelName(name)
    ensures CleanArchivoExcel(Some(UploadedFile(name, 5242880))).Clean?
    ensures CleanArchivoExcel(Some(UploadedFile(name, 5242881))) == Invalid(SizeMessage)
  {
  }

  /** The check ignores letter case in the extension: `LIBROS.XLSX` passes. */
  lemma UpperCaseExtension()
    ensures ExcelName("LIBROS.XLSX") && ExcelName("libros.Xls") && !ExcelName("libros.csv")
  {
    assert Lower("LIBROS.XLSX") == "libros.xlsx";
    assert Lower("libros.Xls") == "libros.xls";
    assert Lower("libros.csv") == "libros.csv";
  }
}
