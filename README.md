# Biblioteca colectiva: a verified model of its core

This project is a Dafny model of the core of a Django book-lending app, **Biblioteca Colectiva**. The app lets users do four things:

- upload a spreadsheet of books, which are imported in bulk into their catalogue;
- lend their own books to another user and mark each loan returned;
- reset and change their password and their email address, through single-use tokens;
- log out everywhere, which closes older sessions.

The model covers:

- the spreadsheet import (`procesar_excel_libros` and its helpers);
- the two loan services;
- the five account-security services;
- the session-invalidation middleware;
- the upload check on the spreadsheet form.

Each part is proved against statements of what the code promises.

| file | module | models |
|---|---|---|
| `options.dfy` | `Options` | the `Option` type |
| `text.dfy` | `Text` | the Python `str` operations the import uses: `strip`, `lower`, `replace`, `endswith`, `join` and `str(n)` |
| `catalog.dfy` | `Catalog` | the `Libro` record, its three states and its length limits |
| `headers.dfy` | `Headers` | `normalizar_nombre_columna` and `encontrar_indices_columnas` |
| `bulk_import.dfy` | `BulkImport` | `validar_fila_libro`, `es_duplicado` and `procesar_excel_libros` |
| `loans.dfy` | `Loans` | `crear_prestamo_service` and `marcar_devuelto_service`, with the class `LoanRegistry` over the book, loan and user tables |
| `accounts.dfy` | `Accounts` | the five services of `core/auth_services.py`, with the class `AccountServices` over the user table and the two token tables |
| `upload.dfy` | `Upload` | `CargaMasivaForm.clean_archivo_excel` |
| `session_gate.dfy` | `SessionGate` | `SessionInvalidationMiddleware.__call__`, with the class `SessionInvalidationMiddleware` |

## How the model is organised

The style of each part follows the code it models.

- **Loops become methods with loops.**
  - Header normalisation, column discovery, row validation and the row loop are methods: `NormalizeHeader`, `FindColumns`, `ValidateRow`, `ScanData` and `ProcessWorkbook`.
  - Each one is proved equal to a specification function: `Normalized`, `Discover`, `Validate`, `ScanRows` and `Ingest`.
  - The properties are proved as lemmas about those functions.
- **Services that update tables in place become classes.**
  - The tables are fields that the methods update.
  - Each method is proved to leave the state, and return the answer, that a transition function gives: `AfterLend`, `AfterReturn`, `AfterResetRequest` and the others.
  - The transition functions carry the outcome lemmas and the invariant-preservation lemmas.

What the code gets from outside becomes a parameter:

- the spreadsheet, as a sequence of rows of optional cell texts, or the text of the exception `load_workbook` raised;
- the clock;
- the value a new token gets;
- `settings.DEBUG` and `SESSION_COOKIE_AGE`;
- what a mail helper did: returned true, returned false, or raised;
- whether the `Session` lookup raised;
- whether the view raises.

`core/utils.py:18-263` has the same text as `libros/utils.py:10-255`, 8 lines further down. The table cites the `libros/utils.py` lines. The two files differ in one thing: the `Libro` class they import. `libros/utils.py:7` takes it from `libros/models.py`, and `core/utils.py:11` from `core/models.py`. The model is of the import against `libros.models.Libro`, which has a `descripcion` field; `core/models.py` is taken to be stale (see "Where the code and its documentation differ"). Likewise, `core/forms.py:35-47` repeats `libros/forms.py:23-35`, 12 lines down.

## Model

| member | source | states |
|---|---|---|
| Text.Strip | libro_prestamos/libros/utils.py:18 | `strip()` never lengthens the text and leaves no white space at either end |
| Text.StripTrims | libro_prestamos/libros/utils.py:18 | `strip()` removes exactly the white space around the text: the result is a contiguous slice with only white space outside it, its ends are not white space, and it is empty exactly for all-space input |
| Text.StripUnpadded | libro_prestamos/libros/utils.py:87 | a value with no white space at its ends is kept unchanged by `strip()` |
| Text.StripIdempotent | libro_prestamos/libros/utils.py:87 | stripping a value twice is the same as stripping it once |
| Text.LowerCharKeepsSpace | libro_prestamos/libros/utils.py:18 | lower-casing neither creates nor removes white space, so `lower().strip()` strips what `strip()` would |
| Text.Lower | libro_prestamos/libros/utils.py:18 | `lower()` keeps the length and the white space, leaves no ASCII capital, and keeps every code point outside `A`-`Z` and U+00C0-U+00DE |
| Text.LowerMapsCapitals | libro_prestamos/libros/utils.py:18 | each capital `A`-`Z` and each Latin-1 capital U+00C0-U+00DE other than U+00D7 becomes its small letter, 32 code points further on |
| Text.ReplaceChar | libro_prestamos/libros/utils.py:25 | `replace(old, new)` with single characters maps every occurrence and keeps the length and every other character |
| Text.RemoveChar | libro_prestamos/libros/utils.py:117 | `replace(c, '')` leaves no `c`, keeps every other character and never lengthens the text |
| Text.RemoveCharAppend | libro_prestamos/libros/utils.py:117 | removal works piece by piece and keeps the order: removing from a concatenation concatenates the results, and one code point is dropped exactly when it is `c` |
| Text.RemoveCharCounts | libro_prestamos/libros/utils.py:117 | every code point other than `c` is kept as many times as it occurs |
| Text.JoinStartsWithFirst | libro_prestamos/libros/utils.py:129 | a `'; '`-joined message list starts with its first message |
| Text.NatToString | libro_prestamos/libros/utils.py:85 | `str(n)` of a row number is a non-empty string of decimal digits with no leading zero, whose decimal value is `n` |
| Headers.FoldFirstAll | libro_prestamos/libros/utils.py:20-25 | the six replacements applied one after another fold each character on its own: á, é, í, ó, ú and ñ become a, e, i, o, u and n |
| Headers.Normalized | libro_prestamos/libros/utils.py:10-26 | a falsy header normalises to `''`; otherwise the key is never longer than the header text; it never has white space at its ends |
| Headers.NormalizeHeader | libro_prestamos/libros/utils.py:10-26 | the normaliser returns `''` for a falsy header; otherwise the lower-cased, stripped text with the six accents folded |
| Headers.NormalizedUnpadded | libro_prestamos/libros/utils.py:18-26 | a header without surrounding white space is only lower-cased and folded |
| Headers.NormalizedIsCanonical | libro_prestamos/libros/utils.py:10-26 | a normalised header has no capital, no foldable accent and no surrounding white space, so normalising it again changes nothing |
| Headers.CanonicalIsFixed | libro_prestamos/libros/utils.py:10-26 | a text that is already lower-case, folded and unpadded normalises to itself |
| Headers.NormalizeTitulo | libro_prestamos/libros/utils.py:18-26 | `'TÍTULO'` normalises to `'titulo'` |
| Headers.FieldOf | libro_prestamos/libros/utils.py:52-61 | the `if`/`elif` chain picks a field exactly when the key is in that field's synonym list, so a header names at most one field |
| Headers.AssignFinds | libro_prestamos/libros/utils.py:46-61 | after the walk over the labels, a field has no column iff no label names it; otherwise its column is a 1-based position naming it, and no later position names it |
| Headers.DiscoverFinds | libro_prestamos/libros/utils.py:43-61 | column discovery: a field is unset iff no header cell names it (`None` cells name nothing); otherwise its index is 1-based, that cell names it, and no later cell does, so the last match wins |
| Headers.Discover | libro_prestamos/libros/utils.py:29-63 | every column found is a 1-based position within the header row, and an empty header row finds no column |
| Headers.FindColumns | libro_prestamos/libros/utils.py:29-63 | the discovery loop fills the `indices` dictionary exactly as `Discover` says |
| Headers.TemplateCellNamesField | libro_prestamos/libros/utils.py:270-274 | each header written by the template names the field it is written for |
| Headers.AssignTemplateLabels | libro_prestamos/libros/utils.py:46-61 | the five fields in template order are assigned columns 1 to 5 |
| Headers.TemplateHeaderRoundTrip | libro_prestamos/libros/utils.py:270-274 | the template's header row `Nombre, Autor, Editorial, ISBN, Descripción` is discovered as columns 1, 2, 3, 4 and 5 |
| Headers.TituloEscritorAreMandatoryColumns | libro_prestamos/libros/utils.py:52-55 | the headers `Título` and `Escritor` are found as the `nombre` and `autor` columns |
| BulkImport.CleanIsbn | libro_prestamos/libros/utils.py:115-117 | a cleaned ISBN has no hyphen and no space, and is never longer than the cell's text |
| BulkImport.Messages | libro_prestamos/libros/utils.py:85-119 | one `Fila n: …` message per broken rule |
| BulkImport.MessagesAppend | libro_prestamos/libros/utils.py:71-129 | the messages of rules broken one after another are the messages of each part, in order |
| BulkImport.ReadCell | libro_prestamos/libros/utils.py:78-81 | reading a field's cell raises `IndexError` exactly when its column lies past the end of the row; otherwise it yields that cell, or nothing for a field without a column |
| BulkImport.CheckMandatory | libro_prestamos/libros/utils.py:84-100 | a mandatory field gives the "obligatorio" message when it is missing or blank, the "excede los 255" message when its stripped text is longer, and otherwise its stripped text |
| BulkImport.CheckEditorial | libro_prestamos/libros/utils.py:103-110 | the editorial is an error only when present and longer than 255 once stripped; otherwise it is kept stripped |
| BulkImport.CheckIsbn | libro_prestamos/libros/utils.py:112-121 | the ISBN is stripped and cleaned of `-` and spaces; longer than 13 is an error; an empty cleaned ISBN is dropped |
| BulkImport.Validate | libro_prestamos/libros/utils.py:66-131 | a record is accepted only from a readable row that breaks no rule, and is then well formed: mandatory values present and at most 255 characters, ISBN 1 to 13 characters without `-` or space, no value padded |
| BulkImport.ValidateRow | libro_prestamos/libros/utils.py:66-131 | the validator collects its messages in rule order, joins them with `'; '`, and returns either the error, the data or the `IndexError`, all as `Validate` says |
| BulkImport.StripIsTrimmed | libro_prestamos/libros/utils.py:87 | an accepted value has no white space at its ends |
| BulkImport.ValidateOutcome | libro_prestamos/libros/utils.py:66-131 | a row gives an error xor data. It is unreadable iff a found column is past its end. It is rejected iff it breaks a rule, with a message starting `Fila n: `. An accepted record has a non-empty nombre and autor of at most 255 characters, editorial at most 255, ISBN 1 to 13 characters without `-` or space, and every value stripped from its own cell; the ISBN is its cell's text stripped and cleaned of `-` and spaces, and is absent when nothing is left |
| BulkImport.ViolationRules | libro_prestamos/libros/utils.py:84-121 | each of the six messages is reported exactly when its condition holds, in both directions |
| BulkImport.DescripcionIsUnchecked | libro_prestamos/libros/utils.py:123-126 | the description has no rule: its column never changes the verdict |
| BulkImport.NombreLengthBoundary | libro_prestamos/libros/utils.py:88-91 | the 255-character limit is inclusive: an unpadded name is accepted iff it has at most 255 characters, and a longer one breaks only that rule |
| BulkImport.BookOf | libro_prestamos/libros/utils.py:223-237 | a book built from a record belongs to the importing user, is `'disponible'` and carries the record's name, author and ISBN |
| BulkImport.FindDuplicate | libro_prestamos/libros/utils.py:134-158 | A book of the owner with the record's non-empty ISBN makes the record an `'ISBN'` duplicate, and only that does, whatever else matches. A `'Nombre+Autor'` duplicate has a book of the owner with the same name and author, ignoring case, and no book of the owner with its ISBN. The record is new exactly when no book of the owner matches either way |
| BulkImport.DuplicateIgnoresOtherOwners | libro_prestamos/libros/utils.py:141-153 | other owners' books never make a record a duplicate |
| BulkImport.DuplicateMonotone | libro_prestamos/libros/utils.py:134-158 | adding books to the table never turns a duplicate into a new record |
| BulkImport.DuplicateOfItself | libro_prestamos/libros/utils.py:149-156 | once its book is in the table, a record is a duplicate |
| BulkImport.Summaries | libro_prestamos/libros/utils.py:242-245 | one `{nombre, autor}` summary per created book |
| BulkImport.ScanRowsStep | libro_prestamos/libros/utils.py:197-237 | one more data row is one more iteration of the loop, unless the loop was already left |
| BulkImport.AbortPersists | libro_prestamos/libros/utils.py:197-253 | once an exception has left the loop, later rows change nothing |
| BulkImport.ProcessRow | libro_prestamos/libros/utils.py:197-237 | an iteration counts the row and then records an error, records a duplicate, queues a book, or raises |
| BulkImport.ScanData | libro_prestamos/libros/utils.py:197-237 | the row loop numbers the data rows from 2 and leaves on the first exception, as `ScanRows` says |
| BulkImport.Ingest | libro_prestamos/libros/utils.py:161-255 | the import only ever appends to the book table, and exactly as many books as it reports created |
| BulkImport.ProcessWorkbook | libro_prestamos/libros/utils.py:161-255 | the driver returns the report and table that `Ingest` gives |
| BulkImport.DataOf | libro_prestamos/libros/utils.py:223-237 | a queued book is rebuilt exactly from the data it came from |
| BulkImport.ErrorExtends | libro_prestamos/libros/utils.py:203-208 | recording the next row as an error keeps the partition, over one more row |
| BulkImport.DuplicateExtends | libro_prestamos/libros/utils.py:213-220 | recording the next row as a duplicate keeps the partition, over one more row |
| BulkImport.QueueExtends | libro_prestamos/libros/utils.py:222-237 | queueing the next row's book keeps the partition, over one more row |
| BulkImport.StepKeepsPartition | libro_prestamos/libros/utils.py:197-237 | each iteration adds one to `total_procesado`; rows 2 to n+1 stay each in exactly one of errores, duplicados or the batch |
| BulkImport.StepKeepsFresh | libro_prestamos/libros/utils.py:213-237 | the batch only receives books of the owner, `'disponible'`, that are not duplicates of the table before the insert |
| BulkImport.ScanPartition | libro_prestamos/libros/utils.py:197-237 | the loop invariant over all rows: each data row is counted once and is in exactly one of errores, duplicados or the batch, and the batch holds only the owner's new `'disponible'` books. A row that raises is counted and recorded nowhere |
| BulkImport.ScanOutcomeStep | libro_prestamos/libros/utils.py:197-237 | one more row keeps the loop invariant, whether or not the loop was already left |
| BulkImport.PartitionedRowNumbers | libro_prestamos/libros/utils.py:197-219 | every error and duplicate names a data row, 2 to `total_procesado + 1` |
| BulkImport.FinishConsistent | libro_prestamos/libros/utils.py:239-253 | after the loop, the batch is inserted once or not at all, and the report is consistent with the table |
| BulkImport.IngestReport | libro_prestamos/libros/utils.py:161-255 | The table grows by exactly the created books: the owner's, `'disponible'` and new to the owner. A row-0 error occurs at most once, comes last, and never beside created books. Every other error and every duplicate names a data row. An unreadable file gives just its error, and missing mandatory columns give just the missing-columns error, with total 0 and nothing created. An exception in the `try` body (the loader's, a short row's `IndexError`, the batch's `IntegrityError`) ends the errors with exactly one row-0 error, carrying its text, and nothing is created. Without one, no error is row 0, every data row is counted, and `total_procesado` = errors + duplicates + created |
| BulkImport.AdvanceKeepsQueue | libro_prestamos/libros/utils.py:237 | an iteration never takes a book out of the batch |
| BulkImport.RescanStep | libro_prestamos/libros/utils.py:213-237 | a row the first import queued is a duplicate in the second; every other row fares as before |
| BulkImport.Rescan | libro_prestamos/libros/utils.py:197-237 | going over the same rows once the first batch is in the table queues nothing; it reports the same errors and total, with one more duplicate per queued book |
| BulkImport.IngestTwiceCreatesNothing | libro_prestamos/libros/utils.py:161-255 | importing the same workbook again creates nothing and leaves the table as it was. Each book created the first time is now a duplicate, with errors and total unchanged. If nothing was created the first time, the second report repeats the first |
| BulkImport.IdenticalRowsBothQueued | libro_prestamos/libros/utils.py:213-237 | duplicates are checked against the table before the insert, so two identical new rows are both queued |
| BulkImport.IngestWorksheet | libro_prestamos/libros/utils.py:184-192 | with both mandatory columns present, the import runs the row loop over the rows after the header, then the batch insert |
| BulkImport.TwoCopiesInserted | libro_prestamos/libros/utils.py:240-245 | a batch of two copies of a book without ISBN is inserted and reported twice |
| BulkImport.TwoCopiesRejected | libro_prestamos/libros/utils.py:240-253 | a batch of two copies of a book with an ISBN breaks the ISBN's uniqueness, so nothing is inserted and one row-0 error is reported |
| BulkImport.IdenticalRowsWithoutIsbnBothCreated | libro_prestamos/libros/utils.py:197-245 | a file holding the same new book twice, without ISBN, creates it twice |
| BulkImport.IdenticalRowsWithIsbnCreateNothing | libro_prestamos/libros/utils.py:197-253 | a file holding the same new book twice, with its ISBN, creates nothing and reports one row-0 error |
| Loans.AfterLend | libro_prestamos/core/services.py:10-56 | a refused loan request changes nothing and returns no loan; a granted one returns the id of a new loan appended to the loan table, and keeps the users and the set of books |
| Loans.AfterReturn | libro_prestamos/core/services.py:59-89 | an error changes nothing; a returned id is the requested loan, lent by the caller; the loan table keeps its length, and the users and the set of books stay |
| Loans.LendRefusals | libro_prestamos/core/services.py:26-43 | The checks run in order: the book (it exists, is the lender's and is `'disponible'`), then the borrower's username, then self-lending. Each message is given exactly when its check is the first to fail. A refusal returns no loan and changes nothing |
| Loans.LendGrants | libro_prestamos/core/services.py:45-56 | a granted request adds exactly one open loan `(libro, prestatario, prestador)` and returns its id; it sets the book to `'prestado'` and changes nothing else |
| Loans.LendKeepsCoherent | libro_prestamos/core/services.py:10-56 | lending keeps the invariant: a book is `'prestado'` iff it has an open loan; it has at most one; each loan is of a table book, lent by its owner to someone else |
| Loans.ReturnOutcomes | libro_prestamos/core/services.py:73-89 | Only the lender finds the loan; anyone else gets the not-found message and nothing changes. A returned loan comes back with the warning, and nothing changes. An open loan is closed, its book becomes `'disponible'`, and nothing else changes |
| Loans.ReturnKeepsCoherent | libro_prestamos/core/services.py:79-89 | returning keeps the invariant |
| Loans.LendThenReturn | libro_prestamos/core/services.py:10-89 | lending and then returning that loan restores the book table; the loan stays on record, returned |
| Loans.ReturnTwiceWarns | libro_prestamos/core/services.py:79-81 | returning the same loan a second time only warns |
| Loans.LoanRegistry.Lend | libro_prestamos/core/services.py:10-56 | lending in place leaves the tables and returns the answer that `AfterLend` gives, and keeps the invariant |
| Loans.LoanRegistry.MarkReturned | libro_prestamos/core/services.py:59-89 | returning in place leaves the tables and returns the answer that `AfterReturn` gives, and keeps the invariant |
| Accounts.IsValid | libro_prestamos/tests/test_models.py:39-50 | a fresh token is valid; an expired token and a used token are not |
| Accounts.Find | libro_prestamos/core/auth_services.py:90 | the lookup by token value finds a token with that value, and finds none iff no token has it |
| Accounts.FindUnique | libro_prestamos/core/auth_services.py:90 | with unique values, the lookup finds the only token with the value |
| Accounts.Issue | libro_prestamos/tests/test_models.py:58-70 | creating a token adds exactly one token |
| Accounts.IssueFacts | libro_prestamos/tests/test_models.py:39-79 | The new token is unused and valid from now until 24 hours later, but not after that, and it is found by its value. Every earlier token of the user is used and invalid. Other users' tokens are untouched |
| Accounts.IssueKeepsInvariants | libro_prestamos/tests/test_email_change_models.py:88-95 | creating a token keeps values unique and at most one unused token per user |
| Accounts.MarkUsed | libro_prestamos/tests/test_models.py:52-56 | `mark_as_used` sets that token used, so it is invalid, and touches no other token |
| Accounts.MarkUsedKeepsInvariants | libro_prestamos/tests/test_models.py:48-56 | marking a token used keeps values unique and at most one unused token per user |
| Accounts.WithEmail | libro_prestamos/core/auth_services.py:37 | the users with a given address |
| Accounts.AfterResetRequest | libro_prestamos/core/auth_services.py:21-75 | a reset request touches only the reset-token table, adding one token at most; a returned token value is the new token's, with no error |
| Accounts.ResetRequestOutcomes | libro_prestamos/core/auth_services.py:21-75 | An unknown address gives `(None, None)` and no token. Two users with the address make the lookup raise. With neither user nor address, "Usuario no encontrado". For a given user, or the one user with the address, a token is created for that user before the mail, and the store afterwards is the store with that token, whatever the mail did. The token is returned iff the mail went out, and a raising helper gives the debug dictionary iff `DEBUG` is on |
| Accounts.AfterResetConfirm | libro_prestamos/core/auth_services.py:78-113 | a reset confirmation changes passwords only: no email, no user and no change token, and the reset table keeps its length; it answers with a user exactly when it answers with no error |
| Accounts.ResetConfirmOutcomes | libro_prestamos/core/auth_services.py:78-113 | An unknown value and a spent token each get their message and change nothing. A valid token sets its owner's password, and only that, and is marked used. The confirmation mail's result is ignored unless it raises |
| Accounts.ResetConfirmOnce | libro_prestamos/core/auth_services.py:95-104 | a reset link works once: a second confirmation is refused and changes nothing |
| Accounts.ResetRoundTrip | libro_prestamos/core/auth_services.py:21-113 | a request whose mail went out, then a confirmation with the mailed value within 24 hours, sets the user's password |
| Accounts.ResetConfirmKeepsSound | libro_prestamos/core/auth_services.py:99-104 | confirming a reset keeps the token tables sound |
| Accounts.AfterProfileChange | libro_prestamos/core/auth_services.py:116-144 | a profile change touches only that user's password; when it answers with the user, the password is the new one |
| Accounts.ProfileChangeOutcomes | libro_prestamos/core/auth_services.py:116-144 | a wrong current password changes nothing; the right one sets the new password, and nothing else, and returns the user unless the mail raised |
| Accounts.AfterEmailRequest | libro_prestamos/core/auth_services.py:147-184 | an email-change request touches only the change-token table, adding one token at most; a returned value means that token was added |
| Accounts.EmailRequestOutcomes | libro_prestamos/core/auth_services.py:147-184 | The password is checked before the address, and either refusal creates no token. An address held by another user is refused. Otherwise a token carrying the new address is created, whatever the mail then does, and its value is returned iff the mail went out |
| Accounts.RequestsKeepSound | libro_prestamos/core/auth_services.py:45-50 | creating either kind of token keeps the token tables sound |
| Accounts.AfterEmailConfirm | libro_prestamos/core/auth_services.py:187-230 | an email confirmation changes no password, no user and no reset token, and the change table keeps its length; a successful answer names the new address, which is then the user's |
| Accounts.EmailConfirmOutcomes | libro_prestamos/core/auth_services.py:187-230 | An unknown value or a spent token is refused, and nothing changes. An address taken meanwhile by another user is refused: the token stays unused and the email unchanged. Otherwise the email becomes the token's address, the token is used, and the answer is `(user, old, new, None)` |
| Accounts.EmailConfirmKeepsSound | libro_prestamos/core/auth_services.py:214-221 | confirming an email change keeps the token tables sound |
| Accounts.EmailConfirmKeepsInvariants | libro_prestamos/core/auth_services.py:210-217 | confirming an email change never gives two users the same address |
| Accounts.EmailChangeRoundTrip | libro_prestamos/core/auth_services.py:147-230 | a request whose mail went out, then a confirmation within 24 hours while nobody else took the address, gives the user the new address |
| Accounts.AccountServices.CreateResetToken | libro_prestamos/core/auth_services.py:47 | creating a reset token in place changes only the reset-token table, as `Issue` says |
| Accounts.AccountServices.RequestPasswordReset | libro_prestamos/core/auth_services.py:21-75 | the request in place leaves the tables and gives the answer that `AfterResetRequest` gives; when the lookup raises, nothing changes; sound tables stay sound when the new value is fresh |
| Accounts.AccountServices.ConfirmPasswordReset | libro_prestamos/core/auth_services.py:78-113 | the confirmation in place needs only the stored tables (`Stored`), agrees with `AfterResetConfirm`, and keeps the tables sound when they were |
| Accounts.AccountServices.ChangePasswordFromProfile | libro_prestamos/core/auth_services.py:116-144 | the profile change in place agrees with `AfterProfileChange` |
| Accounts.AccountServices.RequestEmailChange | libro_prestamos/core/auth_services.py:147-184 | the email-change request in place agrees with `AfterEmailRequest`; sound tables stay sound when the new value is fresh |
| Accounts.AccountServices.ConfirmEmailChange | libro_prestamos/core/auth_services.py:187-230 | the confirmation in place needs only the stored tables (`Stored`) and agrees with `AfterEmailConfirm`; tables that were sound stay sound, and addresses that were distinct stay distinct |
| Upload.CleanArchivoExcel | libro_prestamos/libros/forms.py:23-35 | a file that passes is returned unchanged |
| Upload.CleanOutcomes | libro_prestamos/libros/forms.py:23-35 | A named file is accepted, unchanged, iff its lower-cased name ends in `.xlsx` or `.xls` and it is at most 5 MB. A bad extension is reported iff the name is wrong, even when the file is too large too. The size message is given iff the name is right and the file is too large |
| Upload.SizeBoundary | libro_prestamos/libros/forms.py:32-33 | 5 MB exactly (5242880 bytes) passes; 5242881 bytes is rejected |
| Upload.UpperCaseExtension | libro_prestamos/libros/forms.py:27-28 | the extension check ignores letter case: `LIBROS.XLSX` and `libros.Xls` pass, `libros.csv` does not |
| SessionGate.ShouldLogout | libro_prestamos/core/middleware.py:20-67 | a logout is decided only for an authenticated user with a readable, marked profile and a non-empty session key |
| SessionGate.ShouldLogoutCases | libro_prestamos/core/middleware.py:20-67 | No logout for unauthenticated requests, an unreadable profile or one without a mark, or a missing or empty session key. With a stored session: logout iff `expire_date − SESSION_COOKIE_AGE` is strictly before the mark. Without one: logout iff the mark is strictly less than 300 seconds old |
| SessionGate.StrictBoundaries | libro_prestamos/core/middleware.py:54-64 | both comparisons are strict: a session created exactly at the mark stays, one a microsecond older is closed; a mark exactly 300 seconds old keeps the session, one a microsecond younger closes it |
| SessionGate.Handles | libro_prestamos/core/middleware.py:57-71 | counts the calls to the view |
| SessionGate.Intended | libro_prestamos/core/middleware.py:20-72 | the corrected middleware ends by calling the view, does at most one other thing, and raises exactly when the view raises |
| SessionGate.AsWritten | libro_prestamos/core/middleware.py:41-71 | the middleware as written also ends by calling the view and raises exactly when the view raises; it logs out only for a marked request |
| SessionGate.IntendedCallsViewOnce | libro_prestamos/core/middleware.py:56-71 | the corrected middleware calls the view exactly once, as its last step; it logs out iff the decision says so, and the logout comes before the call; the view's exception is what the caller sees |
| SessionGate.AsWrittenAgreesWhileViewSucceeds | libro_prestamos/core/middleware.py:20-72 | while the view does not raise, the middleware as written does what the corrected one does |
| SessionGate.AsWrittenRunsFailingViewAgain | libro_prestamos/core/middleware.py:41-71 | when the view raises after a logout, the code as written swallows the exception and runs the view again: twice, or three times with two logouts when the mark is recent |
| SessionGate.SessionInvalidationMiddleware.GetResponse | libro_prestamos/core/middleware.py:71 | a call to the view is one more `Handle` event and answers with the view's outcome |
| SessionGate.SessionInvalidationMiddleware.Call | libro_prestamos/core/middleware.py:20-72 | `__call__` appends to the object's events, and answers, exactly what the corrected middleware does |

## Left out

- I/O and libraries:
  - `load_workbook` and openpyxl are replaced by a sheet given as rows of optional texts, or the exception text when loading fails. This leaves out reading the file, `read_only` mode and `workbook.close()`.
  - Numeric, date and formula cells are left out: every cell is text or empty.
  - `generar_plantilla_excel` is left out, apart from its header row (`Headers.TemplateHeader`).
- Exceptions inside the row loop:
  - The only exception the model raises there is the `IndexError` from a row shorter than a found column.
  - Its text is fixed as `tuple index out of range`.
  - A failure of the database queries is not modelled.
- `bulk_create`:
  - Its failure is modelled only through the globally unique ISBN column. The batch is refused when a queued ISBN is already in the table under any owner, or is queued twice.
  - The text of that failure is SQLite's wording.
  - The generated ids of the new books are not modelled.
- BulkImport.Ingest: the `core/utils.py` copy run against `core.models.Libro` is not modelled separately: its `TypeError` on a description, and its table name `core_libro` in the insert error, are left out, because that class is taken to be stale.
- Text.Lower: only ASCII and the Latin-1 capitals are lower-cased. Python's full Unicode case mapping is not modelled, because spreadsheet headers and names in this system are Spanish.
- Strings: a string is a sequence of Unicode code points, which is also what Python's `len` counts. There is no normalisation.
- BulkImport.NameAuthorTaken: `iexact` is modelled with the same partial lower-casing as Text.Lower. What the database does is left out: it depends on the backend. On SQLite, for instance, `LIKE` ignores the case of ASCII letters only.
- Loans:
  - `Prestamo.fecha_prestamo` and the other timestamps are left out.
  - Ids are modelled as map keys and positions in the loan table.
  - A failing `save()` is left out.
- Accounts.Sound: that each user has at most one unused token of a kind is kept by `create_token`, not by the database. Two concurrent requests for the same user could both leave an unused token; concurrency is not modelled. The two confirmations, as functions and as methods of `AccountServices`, only assume what the database guarantees (`Accounts.Stored`); the methods keep `Sound` when it held before, and the two requests keep it when the new value is fresh.
- Accounts: password hashing is not modelled. `check_password` is equality with the stored value and `set_password` stores the new one.
- Accounts, tokens:
  - `token_urlsafe` randomness is replaced by a fresh value given as a parameter.
  - The branch where `create_token` raises (lines 48-50 and 171-173 of `core/auth_services.py`) is left out, because only a clash of random values could reach it.
  - The token model class is not part of this model. Its behaviour follows the tests: a new token makes the user's earlier tokens used, a token is valid while unused and not expired, and it expires after 24 hours.
- Accounts, failures:
  - A raising `save()` inside the `try` blocks is not modelled. A raising mail helper is modelled: the changes made before it stay, and the answer is the error.
  - The debug dictionary drops `traceback`, `from_email` and `to_email`, which are only text for display.
- Accounts.AfterResetRequest: `User.objects.get(email=…)` raising `MultipleObjectsReturned` for a shared address is modelled as `None`, meaning the exception leaves the service. What the view does with it is not modelled.
- Logging, `logger` calls and the messages framework are left out everywhere.
- SessionGate:
  - `logout` is a `Logout` event; what it clears is not modelled.
  - A `logout` that raises is not modelled.
  - Time is integer microseconds, so the float `total_seconds()` is not modelled.
  - Comparing naive and aware datetimes is not modelled.
- Upload: the file's content is not looked at, because the form does not look at it.
- The email senders, the views, the URL files and the form declarations are outside this model.

## Where the code and its documentation differ

The model follows the code in each case below.

- Password-reset confirmation gives two different messages.
  - An unknown token gets "… es inválido o ha expirado".
  - A used or expired token gets "… ha expirado o ya fue utilizado".
  - The same holds for the email change.
- `Título` and `Escritor` are synonyms of `nombre` and `autor`: see `Headers.TituloEscritorAreMandatoryColumns`.
- Duplicates are checked against the table as it was before the batch insert.
  - Two identical new rows are both queued.
  - Without an ISBN, both copies are created.
  - With an ISBN, the unique constraint makes the single insert fail, so no row of the file is created.
- `core/models.py` declares neither token class, though `core/auth_services.py` imports both. The token behaviour follows the tests.
- `core/models.py` is taken to be stale, and the import is modelled against `libros/models.py`.
  - Its `Libro` (`core/models.py:15-29`) has no `descripcion` field, while `core/forms.py:9` lists one, as `libros/models.py:16` declares.
  - Against that class, `Libro(**libro_data)` at `core/utils.py:242-245` would raise `TypeError` for the first queued row with a description. The `except` at `core/utils.py:256-260` would then end the report with one row-0 error, and no book of the file would be created.
  - The text of the failed batch insert names the `libros_libro` table, the table of `libros.models.Libro`.

## Findings

| source | as written | input that shows it | evidently intended | confidence | as-written member | corrected member |
|---|---|---|---|---|---|---|
| libro_prestamos/core/middleware.py:41-71 | after a logout the view is called inside the `try` blocks, so an exception raised by the view is caught by the `except` clauses, and the view is called again on their fall-back paths | An authenticated user with `session_invalidated_at = m` and a stored session whose `expire_date` is `m + 1209600 s − 1 µs`. The `get_response` the middleware holds raises. Django's handler normally turns a view's exception into an error response before it reaches a middleware, so this needs an exception that still gets through: `DEBUG_PROPAGATE_EXCEPTIONS`, a raising inner middleware, or a direct call as in a unit test. The view then runs twice. If the request also comes within 300 s of `m`, the user is logged out twice and the view runs three times | log out when the decision says so, then call the view exactly once and let its exception propagate | not executed; the trace follows from Python's `try`/`except` rules | SessionGate.AsWritten (see SessionGate.AsWrittenRunsFailingViewAgain) | SessionGate.Intended (see SessionGate.IntendedCallsViewOnce), used by SessionGate.SessionInvalidationMiddleware.Call |
