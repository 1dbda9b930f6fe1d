/**
  The book table (`Libro`) shared by the import and the loan services: its
  column limits, its three states and the record each row holds.
 */
module Catalog {
  import opened Options

  /** A `User` primary key. */
  type UserId = nat

  /** `Libro.ESTADOS`: `'disponible'`, `'prestado'`, `'no_disponible'`. */
  datatype State = Disponible | Prestado | NoDisponible

  /** `max_length` of `nombre`, `autor` and `editorial`. */
  const MaxNameLength: nat := 255

  /** `max_length` of `isbn`, which is also globally `unique`. */
  const MaxIsbnLength: nat := 13

  /** One `Libro` row; `editorial`, `isbn` and `descripcion` are nullable. */
  datatype Book = Book(
    nombre: string,
    autor: string,
    editorial: Option<string>,
    isbn: Option<string>,
    descripcion: Option<string>,
    propietario: UserId,
    estado: State)
}
