/**
  The loan services of `core/services.py`: lending a book (`crear_prestamo_service`)
  and marking a loan returned (`marcar_devuelto_service`), over the book table,
  the loan table and the user table.

  Record ids are modelled as keys: a book is found by its key in `books`, a
  loan by its position in `loans` (a new loan gets the next position), and a
  user by username in `users`.
 */
module Loans {
  import opened Options
  import opened Catalog

  /** One `Prestamo` row; `devuelto` defaults to false. */
  datatype Loan = Loan(libro: nat, prestatario: UserId, prestador: UserId, devuelto: bool)

  /** The three tables the services read and write. */
  datatype Tables = Tables(books: map<nat, Book>, loans: seq<Loan>, users: map<string, UserId>)

  /** The `(prestamo, error)` pair a service returns. */
  datatype Outcome = Outcome(prestamo: Option<nat>, error: Option<string>)

  const BookUnavailableMessage := "El libro no existe, no te pertenece o no est\U{E1} disponible."
  const NoBorrowerMessage := "El usuario prestatario no existe."
  const SelfLendingMessage := "No puedes prestar un libro a ti mismo."
  const NoLoanMessage := "El pr\U{E9}stamo no existe o no tienes permiso para marcarlo como devuelto."
  const AlreadyReturnedMessage := "Este pr\U{E9}stamo ya ha sido marcado como devuelto."

  /** `Libro.objects.filter(id=…, propietario=prestador, estado='disponible').first()` finds the book. */
  predicate Lendable(t: Tables, libroId: nat, prestador: UserId) {
    libroId in t.books && t.books[libroId].propietario == prestador && t.books[libroId].estado == Disponible
  }

  /** Some loan of the book is not returned yet. */
  predicate OnLoan(t: Tables, libroId: nat) {
    exists i :: 0 <= i < |t.loans| && t.loans[i].libro == libroId && !t.loans[i].devuelto
  }

  /**
    The invariant both services keep: a book is `'prestado'` exactly when it
    has an open loan, and has at most one; every loan is of a book in the table,
    lent by its owner to somebody else.
   */
  predicate Coherent(t: Tables) {
    && (forall i :: 0 <= i < |t.loans| ==> t.loans[i].libro in t.books)
    && (forall i :: 0 <= i < |t.loans| ==>
          t.books[t.loans[i].libro].propietario == t.loans[i].prestador
          && t.loans[i].prestatario != t.loans[i].prestador)
    && (forall id :: id in t.books ==> (t.books[id].estado == Prestado <==> OnLoan(t, id)))
    && (forall i, j ::
          (0 <= i < |t.loans| && 0 <= j < |t.loans| && !t.loans[i].devuelto && !t.loans[j].devuelto &&
           t.loans[i].libro == t.loans[j].libro) ==> i == j)
  }

  /**
    `crear_prestamo_service(libro_id, prestatario_id, prestador)`: the book
    check, then the borrower's username, then self-lending; on success one new
    open loan and the book `'prestado'`.
   */
  function AfterLend(t: Tables, libroId: nat, username: string, prestador: UserId): (r: (Tables, Outcome))
    ensures r.1.error.Some? ==> r.0 == t && r.1.prestamo.None?
    ensures r.1.error.None? ==>
      && r.1.prestamo == Some(|t.loans|) && |r.0.loans| == |t.loans| + 1 && r.0.loans[..|t.loans|] == t.loans
      && r.0.users == t.users && r.0.books.Keys == t.books.Keys
  {
    if !Lendable(t, libroId, prestador) then (t, Outcome(None, Some(BookUnavailableMessage)))
    else if username !in t.users then (t, Outcome(None, Some(NoBorrowerMessage)))
    else if t.users[username] == prestador then (t, Outcome(None, Some(SelfLendingMessage)))
    else
      var lent := t.books[libroId].(estado := Prestado);
      (t.(books := t.books[libroId := lent], loans := t.loans + [Loan(libroId, t.users[username], prestador, false)]),
       Outcome(Some(|t.loans|), None))
  }

  /**
    `marcar_devuelto_service(prestamo_id, prestador)`: only the lender finds
    the loan; a returned loan is handed back with a warning; otherwise the
    loan is closed and its book is `'disponible'` again.
   */
  function AfterReturn(t: Tables, prestamoId: nat, prestador: UserId): (r: (Tables, Outcome))
    ensures r.1.error.Some? ==> r.0 == t
    ensures r.1.prestamo.Some? ==> r.1.prestamo == Some(prestamoId) && prestamoId < |t.loans| && t.loans[prestamoId].prestador == prestador
    ensures |r.0.loans| == |t.loans| && r.0.users == t.users && r.0.books.Keys == t.books.Keys
  {
    if prestamoId >= |t.loans| || t.loans[prestamoId].prestador != prestador then
      (t, Outcome(None, Some(NoLoanMessage)))
    else if t.loans[prestamoId].devuelto then
      (t, Outcome(Some(prestamoId), Some(AlreadyReturnedMessage)))
    else
      var loan := t.loans[prestamoId];
      var books := if loan.libro in t.books then t.books[loan.libro := t.books[loan.libro].(estado := Disponible)] else t.books;
      (t.(books := books, loans := t.loans[prestamoId := loan.(devuelto := true)]), Outcome(Some(prestamoId), None))
  }

  /**
    The checks of a loan request run in order, the first failure decides the
    message, and a refused request changes nothing and returns no loan.
   */
  lemma LendRefusals(t: Tables, libroId: nat, username: string, prestador: UserId)
    ensures var (t', r) := AfterLend(t, libroId, username, prestador);
      && (r.error == Some(BookUnavailableMessage) <==> !Lendable(t, libroId, prestador))
      && (r.error == Some(NoBorrowerMessage) <==> Lendable(t, libroId, prestador) && username !in t.users)
      && (r.error == Some(SelfLendingMessage) <==>
            Lendable(t, libroId, prestador) && username in t.users && t.users[username] == prestador)
      && (r.error.Some? ==> t' == t && r.prestamo == None)
      && (r.error == None <==> r.prestamo.Some?)
  {
  }

  /**
    A granted loan request adds exactly one loan, open, from the lender to the
    named borrower, returns its id, marks the book `'prestado'`, and changes
    nothing else.
   */
  lemma LendGrants(t: Tables, libroId: nat, username: string, prestador: UserId)
    requires AfterLend(t, libroId, username, prestador).1.error == None
    ensures var (t', r) := AfterLend(t, libroId, username, prestador);
      && libroId in t.books && username in t.users && t.users[username] != prestador
      && r.prestamo == Some(|t.loans|)
      && |t'.loans| == |t.loans| + 1 && t'.loans[..|t.loans|] == t.loans
      && t'.loans[|t.loans|] == Loan(libroId, t.users[username], prestador, false)
      && t'.books.Keys == t.books.Keys && t'.books[libroId] == t.books[libroId].(estado := Prestado)
      && (forall id :: id in t.books && id != libroId ==> t'.books[id] == t.books[id])
      && t'.users == t.users
  {
    var (t', r) := AfterLend(t, libroId, username, prestador);
    assert t'.loans[..|t.loans|] == t.loans;
  }

  /** A loan request keeps the invariant. */
  lemma LendKeepsCoherent(t: Tables, libroId: nat, username: string, prestador: UserId)
    requires Coherent(t)
    ensures Coherent(AfterLend(t, libroId, username, prestador).0)
  {
    var (t', r) := AfterLend(t, libroId, username, prestador);
    if r.error == None {
      var n := |t.loans|;
      assert !OnLoan(t, libroId);
      forall i | 0 <= i < n
        ensures t'.loans[i] == t.loans[i]
      {
      }
      assert t'.loans[n].libro == libroId && !t'.loans[n].devuelto;
      forall id | id in t'.books
        ensures t'.books[id].estado == Prestado <==> OnLoan(t', id)
      {
        if id != libroId && OnLoan(t', id) {
          var i :| 0 <= i < |t'.loans| && t'.loans[i].libro == id && !t'.loans[i].devuelto;
          assert i < n;
        }
      }
      forall i, j | 0 <= i < n + 1 && 0 <= j < n + 1 &&
          !t'.loans[i].devuelto && !t'.loans[j].devuelto && t'.loans[i].libro == t'.loans[j].libro
        ensures i == j
      {
      }
    }
  }

  /**
    Returning: only the loan's lender finds it; an already returned loan comes
    back with a warning and nothing changes; an open one is closed and its book
    is `'disponible'` again, nothing else changing.
   */
  lemma ReturnOutcomes(t: Tables, prestamoId: nat, prestador: UserId)
    requires forall i :: 0 <= i < |t.loans| ==> t.loans[i].libro in t.books
    ensures var (t', r) := AfterReturn(t, prestamoId, prestador);
      && (r.prestamo == None <==> prestamoId >= |t.loans| || t.loans[prestamoId].prestador != prestador)
      && (r.prestamo == None ==> r.error == Some(NoLoanMessage) && t' == t)
      && (r.prestamo.Some? ==> r.prestamo == Some(prestamoId))
      && (r.error == Some(AlreadyReturnedMessage) <==> r.prestamo.Some? && t.loans[prestamoId].devuelto)
      && (r.error == Some(AlreadyReturnedMessage) ==> t' == t)
      && (r.prestamo.Some? && r.error == None ==>
            var loan := t.loans[prestamoId];
            && t'.loans == t.loans[prestamoId := loan.(devuelto := true)]
            && t'.books == t.books[loan.libro := t.books[loan.libro].(estado := Disponible)]
            && t'.users == t.users)
  {
  }

  /** Returning keeps the invariant. */
  lemma ReturnKeepsCoherent(t: Tables, prestamoId: nat, prestador: UserId)
    requires Coherent(t)
    ensures Coherent(AfterReturn(t, prestamoId, prestador).0)
  {
    var (t', r) := AfterReturn(t, prestamoId, prestador);
    if r.prestamo.Some? && r.error == None {
      var loan := t.loans[prestamoId];
      assert OnLoan(t, loan.libro);
      forall id | id in t'.books
        ensures t'.books[id].estado == Prestado <==> OnLoan(t', id)
      {
        if OnLoan(t', id) {
          var i :| 0 <= i < |t'.loans| && t'.loans[i].libro == id && !t'.loans[i].devuelto;
          assert i != prestamoId && t.loans[i] == t'.loans[i];
          assert OnLoan(t, id);
        }
        if id != loan.libro && OnLoan(t, id) {
          var i :| 0 <= i < |t.loans| && t.loans[i].libro == id && !t.loans[i].devuelto;
          assert t'.loans[i] == t.loans[i];
        }
      }
    }
  }

  /**
    Lending a book and then returning that loan gives the book table back as
    it was; the loan stays on record, returned.
   */
  lemma LendThenReturn(t: Tables, libroId: nat, username: string, prestador: UserId)
    requires AfterLend(t, libroId, username, prestador).1.error == None
    ensures var (t1, r1) := AfterLend(t, libroId, username, prestador);
      var (t2, r2) := AfterReturn(t1, r1.prestamo.value, prestador);
      && r2 == Outcome(r1.prestamo, None)
      && t2.books == t.books && t2.users == t.users
      && t2.loans == t.loans + [Loan(libroId, t.users[username], prestador, true)]
  {
    var (t1, r1) := AfterLend(t, libroId, username, prestador);
    var (t2, r2) := AfterReturn(t1, r1.prestamo.value, prestador);
    assert t1.books[libroId].(estado := Disponible) == t.books[libroId];
    assert t2.books == t.books[libroId := t.books[libroId]];
  }

  /** Returning the same loan a second time only warns. */
  lemma ReturnTwiceWarns(t: Tables, prestamoId: nat, prestador: UserId)
    requires AfterReturn(t, prestamoId, prestador).1 == Outcome(Some(prestamoId), None)
    ensures var t1 := AfterReturn(t, prestamoId, prestador).0;
      AfterReturn(t1, prestamoId, prestador) == (t1, Outcome(Some(prestamoId), Some(AlreadyReturnedMessage)))
  {
  }

  /** The three tables, updated in place by the two services. */
  class LoanRegistry {
    var books: map<nat, Book>
    var loans: seq<Loan>
    var users: map<string, UserId>

    function Snapshot(): Tables
      reads this
    {
      Tables(books, loans, users)
    }

    constructor (books: map<nat, Book>, loans: seq<Loan>, users: map<string, UserId>)
      ensures Snapshot() == Tables(books, loans, users)
    {
      this.books := books;
      this.loans := loans;
      this.users := users;
    }

    /** `crear_prestamo_service` */
    method Lend(libroId: nat, username: string, prestador: UserId) returns (prestamo: Option<nat>, error: Option<string>)
      modifies this
      ensures (Snapshot(), Outcome(prestamo, error)) == AfterLend(old(Snapshot()), libroId, username, prestador)
      ensures old(Coherent(Snapshot())) ==> Coherent(Snapshot())
    {
      if Coherent(Snapshot()) {
        LendKeepsCoherent(Snapshot(), libroId, username, prestador);
      }
      if !(libroId in books && books[libroId].propietario == prestador && books[libroId].estado == Disponible) {
        return None, Some(BookUnavailableMessage);
      }
      if username !in users {
        return None, Some(NoBorrowerMessage);
      }
      var prestatario := users[username];
      if prestador == prestatario {
        return None, Some(SelfLendingMessage);
      }
      prestamo := Some(|loans|);
      loans := loans + [Loan(libroId, prestatario, prestador, false)];
      books := books[libroId := books[libroId].(estado := Prestado)];
      error := None;
    }

    /** `marcar_devuelto_service` */
    method MarkReturned(prestamoId: nat, prestador: UserId) returns (prestamo: Option<nat>, error: Option<string>)
      modifies this
      ensures (Snapshot(), Outcome(prestamo, error)) == AfterReturn(old(Snapshot()), prestamoId, prestador)
      ensures old(Coherent(Snapshot())) ==> Coherent(Snapshot())
    {
      if Coherent(Snapshot()) {
        ReturnKeepsCoherent(Snapshot(), prestamoId, prestador);
      }
      if prestamoId >= |loans| || loans[prestamoId].prestador != prestador {
        return None, Some(NoLoanMessage);
      }
      var loan := loans[prestamoId];
      if loan.devuelto {
        return Some(prestamoId), Some(AlreadyReturnedMessage);
      }
      loans := loans[prestamoId := loan.(devuelto := true)];
      if loan.libro in books {
        books := books[loan.libro := books[loan.libro].(estado := Disponible)];
      }
      return Some(prestamoId), None;
    }
  }
}
