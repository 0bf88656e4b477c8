/**
 * What the ledger's operations keep and what they promise across calls:
 * the table invariants every request preserves, the loan life cycle
 * (a loan closes once and stays closed), and the invariant that one
 * request does NOT keep.
 */
module Properties {
  import opened Text
  import opened Records
  import opened Tables
  import opened Ledger

  // ---------------------------------------------------------------------
  // Invariants of the tables

  /** No book has a negative total or a negative number on the shelf. */
  predicate QuantitiesNonNegative(books: seq<Book>) {
    forall i :: 0 <= i < |books| ==> 0 <= books[i].totalQty && 0 <= books[i].availableQty
  }

  /** The bound the catalogue is meant to keep: no more copies on the shelf than in total. */
  predicate StockBounded(books: seq<Book>) {
    forall i :: 0 <= i < |books| ==> 0 <= books[i].availableQty <= books[i].totalQty
  }

  /** No two users share an email, ignoring case. */
  predicate EmailsDistinct(users: seq<User>) {
    forall i, j :: 0 <= i < j < |users| ==> !EqualFold(users[i].email, users[j].email)
  }

  /** No two books share a code, ignoring case. */
  predicate CodesDistinct(books: seq<Book>) {
    forall i, j :: 0 <= i < j < |books| ==> !EqualFold(books[i].code, books[j].code)
  }

  /** The n-th user (counting from 1) has id "U<n>": users are only ever appended. */
  predicate UserIdsSequential(users: seq<User>) {
    forall i :: 0 <= i < |users| ==> users[i].id == GenID("U", i + 1)
  }

  /** The n-th loan (counting from 1) has id "L<n>": loans are only ever appended. */
  predicate LoanIdsSequential(loans: seq<Loan>) {
    forall i :: 0 <= i < |loans| ==> loans[i].id == GenID("L", i + 1)
  }

  /** Every loan is borrowed, returned or lost. */
  predicate StatusesKnown(loans: seq<Loan>) {
    forall i :: 0 <= i < |loans| ==> loans[i].status in {Borrowed, Returned, Lost}
  }

  /** Everything every request keeps. */
  predicate Consistent(db: Dataset) {
    && QuantitiesNonNegative(db.books)
    && EmailsDistinct(db.users)
    && CodesDistinct(db.books)
    && UserIdsSequential(db.users)
    && LoanIdsSequential(db.loans)
    && StatusesKnown(db.loans)
  }

  // ---------------------------------------------------------------------
  // Lookups see only ids (and codes)

  /** Two book tables that agree on every id and code, position by position. */
  predicate SameBookKeys(a: seq<Book>, b: seq<Book>) {
    |a| == |b| && forall i :: 0 <= i < |a| ==> a[i].id == b[i].id && a[i].code == b[i].code
  }

  /** Two loan tables that agree on every id, position by position. */
  predicate SameLoanIds(a: seq<Loan>, b: seq<Loan>) {
    |a| == |b| && forall i :: 0 <= i < |a| ==> a[i].id == b[i].id
  }

  /** Changing anything but ids and codes moves no book lookup and keeps codes distinct. */
  lemma SameBookKeysLookups(a: seq<Book>, b: seq<Book>, id: string)
    requires SameBookKeys(a, b)
    ensures BookIndex(a, id) == BookIndex(b, id)
    ensures CodesDistinct(a) ==> CodesDistinct(b)
  {
  }

  /** Changing anything but ids moves no loan lookup and keeps the id numbering. */
  lemma SameLoanIdsLookups(a: seq<Loan>, b: seq<Loan>, id: string)
    requires SameLoanIds(a, b)
    ensures LoanIndex(a, id) == LoanIndex(b, id)
    ensures LoanIdsSequential(a) ==> LoanIdsSequential(b)
  {
  }

  /** Under sequential numbering, two loans with the same id are the same loan. */
  lemma LoanIdsSequentialDistinct(loans: seq<Loan>, r: nat, k: nat)
    requires LoanIdsSequential(loans) && r < |loans| && k < |loans|
    requires loans[r].id == loans[k].id
    ensures r == k
  {
    assert loans[r].id == GenID("L", r + 1);
    assert loans[k].id == GenID("L", k + 1);
    GenIDInjective("L", r + 1, k + 1);
  }

  /** Under sequential numbering, two users with the same id are the same user. */
  lemma UserIdsSequentialDistinct(users: seq<User>, r: nat, k: nat)
    requires UserIdsSequential(users) && r < |users| && k < |users|
    requires users[r].id == users[k].id
    ensures r == k
  {
    assert users[r].id == GenID("U", r + 1);
    assert users[k].id == GenID("U", k + 1);
    GenIDInjective("U", r + 1, k + 1);
  }

  /** Sequential loan ids are distinct, so the lookup by "L<n>" finds the n-th loan. */
  lemma LoanIdsLocate(loans: seq<Loan>, k: nat)
    requires LoanIdsSequential(loans) && k < |loans|
    ensures LoanIndex(loans, GenID("L", k + 1)) == k
  {
    var id := loans[k].id;
    assert id == GenID("L", k + 1);
    var r := LoanIndex(loans, id);
    assert r != -1;
    LoanIdsSequentialDistinct(loans, r, k);
  }

  // ---------------------------------------------------------------------
  // Each request keeps the invariants

  /** Appending a user whose email is new keeps the emails distinct. */
  lemma AppendUserKeepsEmailsDistinct(users: seq<User>, u: User)
    requires EmailsDistinct(users) && EmailIndex(users, u.email) == -1
    ensures EmailsDistinct(users + [u])
  {
    var after := users + [u];
    forall i, j | 0 <= i < j < |after| ensures !EqualFold(after[i].email, after[j].email) {
      if j == |users| {
        assert !EqualFold(users[i].email, u.email);
      } else {
        assert after[i] == users[i] && after[j] == users[j];
      }
    }
  }

  /** Appending a user numbered one past the table keeps the numbering. */
  lemma AppendUserKeepsIdsSequential(users: seq<User>, u: User)
    requires UserIdsSequential(users) && u.id == GenID("U", |users| + 1)
    ensures UserIdsSequential(users + [u])
  {
    var after := users + [u];
    forall i | 0 <= i < |after| ensures after[i].id == GenID("U", i + 1) {
      if i < |users| {
        assert after[i] == users[i];
      }
    }
  }

  lemma RegisterKeepsConsistent(db: Dataset, fullName: string, email: string, phone: string,
                                password: string, role: string, hash: string,
                                caller: Option<User>, today: string)
    requires Consistent(db)
    ensures Consistent(Register(db, fullName, email, phone, password, role, hash, caller, today).db)
  {
    var s := Register(db, fullName, email, phone, password, role, hash, caller, today);
    if s.result.Ok? {
      AppendUserKeepsEmailsDistinct(db.users, s.result.value);
      AppendUserKeepsIdsSequential(db.users, s.result.value);
      assert s.db == db.(users := db.users + [s.result.value]);
    } else {
      assert s.db == db;
    }
  }

  /** Appending a book whose code is new keeps the codes distinct and the quantities non-negative. */
  lemma AppendBookKeepsBooks(books: seq<Book>, b: Book)
    requires QuantitiesNonNegative(books) && CodesDistinct(books)
    requires !CodeTaken(books, b.code) && 0 <= b.totalQty && 0 <= b.availableQty
    ensures QuantitiesNonNegative(books + [b]) && CodesDistinct(books + [b])
  {
    var after := books + [b];
    forall i, j | 0 <= i < j < |after| ensures !EqualFold(after[i].code, after[j].code) {
      if j == |books| {
        assert !EqualFold(books[i].code, b.code);
      } else {
        assert after[i] == books[i] && after[j] == books[j];
      }
    }
  }

  /** Replacing a book by one with the same id and code and non-negative quantities keeps the book invariants. */
  lemma ReplaceBookKeepsBooks(books: seq<Book>, k: nat, b: Book)
    requires QuantitiesNonNegative(books) && CodesDistinct(books)
    requires k < |books| && b.id == books[k].id && b.code == books[k].code
    requires 0 <= b.totalQty && 0 <= b.availableQty
    ensures QuantitiesNonNegative(books[k := b]) && CodesDistinct(books[k := b])
  {
    SameBookKeysLookups(books, books[k := b], b.id);
  }

  /** Appending the next-numbered loan keeps the numbering. */
  lemma AppendLoanKeepsIdsSequential(loans: seq<Loan>, l: Loan)
    requires LoanIdsSequential(loans) && l.id == GenID("L", |loans| + 1)
    ensures LoanIdsSequential(loans + [l])
  {
    var after := loans + [l];
    forall i | 0 <= i < |after| ensures after[i].id == GenID("L", i + 1) {
      if i < |loans| {
        assert after[i] == loans[i];
      }
    }
  }

  /** Appending the next-numbered loan with a known status keeps the loan invariants. */
  lemma AppendLoanKeepsLoans(loans: seq<Loan>, l: Loan)
    requires LoanIdsSequential(loans) && StatusesKnown(loans)
    requires l.id == GenID("L", |loans| + 1) && l.status in {Borrowed, Returned, Lost}
    ensures LoanIdsSequential(loans + [l]) && StatusesKnown(loans + [l])
  {
    AppendLoanKeepsIdsSequential(loans, l);
    var after := loans + [l];
    forall i | 0 <= i < |after| ensures after[i].status in {Borrowed, Returned, Lost} {
      if i < |loans| {
        assert after[i] == loans[i];
      }
    }
  }

  /** Replacing a loan by one with the same id and a known status keeps the loan invariants. */
  lemma ReplaceLoanKeepsLoans(loans: seq<Loan>, k: nat, l: Loan)
    requires LoanIdsSequential(loans) && StatusesKnown(loans)
    requires k < |loans| && l.id == loans[k].id && l.status in {Borrowed, Returned, Lost}
    ensures LoanIdsSequential(loans[k := l]) && StatusesKnown(loans[k := l])
  {
    SameLoanIdsLookups(loans, loans[k := l], l.id);
  }

  lemma CreateBookKeepsConsistent(db: Dataset, code: string, title: string, author: string,
                                  price: Money, totalQty: int, today: string)
    requires Consistent(db)
    ensures Consistent(CreateBook(db, code, title, author, price, totalQty, today).db)
  {
    var s := CreateBook(db, code, title, author, price, totalQty, today);
    if s.result.Ok? {
      AppendBookKeepsBooks(db.books, s.result.value);
      assert s.db == db.(books := db.books + [s.result.value]);
    } else {
      assert s.db == db;
    }
  }

  lemma UpdateBookKeepsConsistent(db: Dataset, id: string, title: Option<string>, author: Option<string>,
                                  price: Option<Money>, totalQty: Option<int>)
    requires Consistent(db)
    ensures Consistent(UpdateBook(db, id, title, author, price, totalQty).db)
  {
    var s := UpdateBook(db, id, title, author, price, totalQty);
    if s.result.Ok? {
      var k := BookIndex(db.books, id);
      ReplaceBookKeepsBooks(db.books, k, s.result.value);
      assert s.db == db.(books := db.books[k := s.result.value]);
    } else {
      assert s.db == db;
    }
  }

  /** Removing a book keeps the book invariants. */
  lemma RemoveBookKeepsBooks(books: seq<Book>, k: nat)
    requires QuantitiesNonNegative(books) && CodesDistinct(books) && k < |books|
    ensures QuantitiesNonNegative(books[..k] + books[k + 1..]) && CodesDistinct(books[..k] + books[k + 1..])
  {
    var a, b := books, books[..k] + books[k + 1..];
    forall i, j | 0 <= i < j < |b| ensures !EqualFold(b[i].code, b[j].code) {
      var i', j' := if i < k then i else i + 1, if j < k then j else j + 1;
      assert b[i] == a[i'] && b[j] == a[j'] && i' < j';
    }
    forall i | 0 <= i < |b| ensures 0 <= b[i].totalQty && 0 <= b[i].availableQty {
      assert b[i] == a[if i < k then i else i + 1];
    }
  }

  lemma DeleteBookKeepsConsistent(db: Dataset, id: string)
    requires Consistent(db)
    ensures Consistent(DeleteBook(db, id).db)
  {
    var s := DeleteBook(db, id);
    if s.result.Ok? {
      var k := BookIndex(db.books, id);
      RemoveBookKeepsBooks(db.books, k);
      assert s.db == db.(books := db.books[..k] + db.books[k + 1..]);
    } else {
      assert s.db == db;
    }
  }

  lemma BorrowKeepsConsistent(db: Dataset, readerId: string, bookId: string, dueDate: string,
                              today: string, defaultDue: string)
    requires Consistent(db)
    ensures Consistent(Borrow(db, readerId, bookId, dueDate, today, defaultDue).db)
  {
    var s := Borrow(db, readerId, bookId, dueDate, today, defaultDue);
    if s.result.Ok? {
      var k := BookIndex(db.books, bookId);
      var b := db.books[k].(availableQty := db.books[k].availableQty - 1);
      ReplaceBookKeepsBooks(db.books, k, b);
      AppendLoanKeepsLoans(db.loans, s.result.value);
      assert s.db == db.(books := db.books[k := b], loans := db.loans + [s.result.value]);
    } else {
      assert s.db == db;
    }
  }

  lemma ReturnKeepsConsistent(db: Dataset, loanId: string, today: string)
    requires Consistent(db)
    ensures Consistent(Return(db, loanId, today).db)
  {
    var s := Return(db, loanId, today);
    if s.result.Ok? {
      var k := LoanIndex(db.loans, loanId);
      var l := s.result.value;
      ReplaceLoanKeepsLoans(db.loans, k, l);
      var j := BookIndex(db.books, l.bookId);
      if j != -1 {
        var b := db.books[j].(availableQty := db.books[j].availableQty + 1);
        ReplaceBookKeepsBooks(db.books, j, b);
        assert s.db == db.(books := db.books[j := b], loans := db.loans[k := l]);
      } else {
        assert s.db == db.(loans := db.loans[k := l]);
      }
    } else {
      assert s.db == db;
    }
  }

  lemma MarkLostKeepsConsistent(db: Dataset, loanId: string, fine: Option<Money>, today: string)
    requires Consistent(db)
    ensures Consistent(MarkLost(db, loanId, fine, today).db)
  {
    var s := MarkLost(db, loanId, fine, today);
    if s.result.Ok? {
      var k := LoanIndex(db.loans, loanId);
      var l := s.result.value;
      ReplaceLoanKeepsLoans(db.loans, k, l);
      var j := BookIndex(db.books, l.bookId);
      if j != -1 {
        var b := WriteOffCopy(db.books[j]);
        ReplaceBookKeepsBooks(db.books, j, b);
        assert s.db == db.(books := db.books[j := b], loans := db.loans[k := l]);
      } else {
        assert s.db == db.(loans := db.loans[k := l]);
      }
    } else {
      assert s.db == db;
    }
  }

  lemma ApplyKeepsConsistent(db: Dataset, op: Op)
    requires Consistent(db)
    ensures Consistent(Apply(db, op))
  {
    match op
    case RegisterOp(n, e, p, pw, r, h, c, t) => RegisterKeepsConsistent(db, n, e, p, pw, r, h, c, t);
    case CreateBookOp(c, ti, a, pr, q, t) => CreateBookKeepsConsistent(db, c, ti, a, pr, q, t);
    case UpdateBookOp(id, ti, a, pr, q) => UpdateBookKeepsConsistent(db, id, ti, a, pr, q);
    case DeleteBookOp(id) => DeleteBookKeepsConsistent(db, id);
    case BorrowOp(r, b, d, t, dd) => BorrowKeepsConsistent(db, r, b, d, t, dd);
    case ReturnOp(l, t) => ReturnKeepsConsistent(db, l, t);
    case LostOp(l, f, t) => MarkLostKeepsConsistent(db, l, f, t);
  }

  /** Every sequence of requests keeps the invariants. */
  lemma {:induction false} RunKeepsConsistent(db: Dataset, ops: seq<Op>)
    requires Consistent(db)
    ensures Consistent(Run(db, ops))
    decreases |ops|
  {
    if ops != [] {
      ApplyKeepsConsistent(db, ops[0]);
      RunKeepsConsistent(Apply(db, ops[0]), ops[1..]);
    }
  }

  /** An empty ledger, the state before the first load, is consistent. */
  lemma EmptyIsConsistent()
    ensures Consistent(Dataset([], [], []))
  {
  }

  // ---------------------------------------------------------------------
  // Who may create an admin

  /**
   * The bootstrap rule once an admin exists: a valid registration asking
   * for the admin role succeeds exactly when the caller is an admin, and is
   * refused with AdminOnly, changing nothing, otherwise.
   */
  lemma AdminGate(db: Dataset, fullName: string, email: string, phone: string, password: string,
                  role: string, hash: string, caller: Option<User>, today: string)
    requires RegisterFieldsPresent(fullName, email, phone, password)
    requires EmailIndex(db.users, NormalizeEmail(email)) == -1
    requires NormalizeRole(role) == AdminRole && AnyAdmin(db.users)
    ensures var s := Register(db, fullName, email, phone, password, role, hash, caller, today);
            && (CallerIsAdmin(caller) <==> s.result.Ok?)
            && (CallerIsAdmin(caller) ==> s.result.value.role == AdminRole)
            && (!CallerIsAdmin(caller) ==> s == Step(Err(AdminOnly), db))
  {
  }

  /** The bootstrap rule on a ledger without admins: anyone may register as admin. */
  lemma FirstAdminOpen(db: Dataset, fullName: string, email: string, phone: string, password: string,
                       role: string, hash: string, caller: Option<User>, today: string)
    requires RegisterFieldsPresent(fullName, email, phone, password)
    requires EmailIndex(db.users, NormalizeEmail(email)) == -1
    requires !AnyAdmin(db.users)
    ensures var s := Register(db, fullName, email, phone, password, role, hash, caller, today);
            s.result.Ok? && s.result.value.role == NormalizeRole(role)
  {
  }

  // ---------------------------------------------------------------------
  // The stock bound: kept by every request except Return

  /** Replacing a book by one within the bound keeps the bound. */
  lemma ReplaceBookKeepsStockBounded(books: seq<Book>, k: nat, b: Book)
    requires StockBounded(books) && k < |books| && 0 <= b.availableQty <= b.totalQty
    ensures StockBounded(books[k := b])
  {
  }

  lemma UpdateBookKeepsStockBounded(db: Dataset, id: string, title: Option<string>, author: Option<string>,
                                    price: Option<Money>, totalQty: Option<int>)
    requires StockBounded(db.books)
    ensures StockBounded(UpdateBook(db, id, title, author, price, totalQty).db.books)
  {
    var s := UpdateBook(db, id, title, author, price, totalQty);
    if s.result.Ok? {
      var k := BookIndex(db.books, id);
      ReplaceBookKeepsStockBounded(db.books, k, s.result.value);
      assert s.db.books == db.books[k := s.result.value];
    }
  }

  lemma DeleteBookKeepsStockBounded(db: Dataset, id: string)
    requires StockBounded(db.books)
    ensures StockBounded(DeleteBook(db, id).db.books)
  {
    var s := DeleteBook(db, id);
    if s.result.Ok? {
      var k := BookIndex(db.books, id);
      forall i | 0 <= i < |s.db.books|
        ensures 0 <= s.db.books[i].availableQty <= s.db.books[i].totalQty
      {
        assert s.db.books[i] == db.books[if i < k then i else i + 1];
      }
    }
  }

  lemma BorrowKeepsStockBounded(db: Dataset, readerId: string, bookId: string, dueDate: string,
                                today: string, defaultDue: string)
    requires StockBounded(db.books)
    ensures StockBounded(Borrow(db, readerId, bookId, dueDate, today, defaultDue).db.books)
  {
    var s := Borrow(db, readerId, bookId, dueDate, today, defaultDue);
    if s.result.Ok? {
      var k := BookIndex(db.books, bookId);
      var b := db.books[k].(availableQty := db.books[k].availableQty - 1);
      ReplaceBookKeepsStockBounded(db.books, k, b);
      assert s.db.books == db.books[k := b];
    }
  }

  lemma MarkLostKeepsStockBounded(db: Dataset, loanId: string, fine: Option<Money>, today: string)
    requires StockBounded(db.books)
    ensures StockBounded(MarkLost(db, loanId, fine, today).db.books)
  {
    var s := MarkLost(db, loanId, fine, today);
    if s.result.Ok? {
      var j := BookIndex(db.books, s.result.value.bookId);
      if j != -1 {
        var b := WriteOffCopy(db.books[j]);
        ReplaceBookKeepsStockBounded(db.books, j, b);
        assert s.db.books == db.books[j := b];
      }
    }
  }

  /** Every request but Return keeps 0 <= available <= total. */
  lemma ApplyKeepsStockBounded(db: Dataset, op: Op)
    requires StockBounded(db.books) && !op.ReturnOp?
    ensures StockBounded(Apply(db, op).books)
  {
    match op
    case RegisterOp(n, e, p, pw, r, h, c, t) =>
      var s := Register(db, n, e, p, pw, r, h, c, t);
      assert s.db.books == db.books;
    case CreateBookOp(c, ti, a, pr, q, t) =>
      var s := CreateBook(db, c, ti, a, pr, q, t);
      if s.result.Ok? {
        assert s.db.books == db.books + [s.result.value];
      }
    case UpdateBookOp(id, ti, a, pr, q) => UpdateBookKeepsStockBounded(db, id, ti, a, pr, q);
    case DeleteBookOp(id) => DeleteBookKeepsStockBounded(db, id);
    case BorrowOp(r, b, d, t, dd) => BorrowKeepsStockBounded(db, r, b, d, t, dd);
    case LostOp(l, f, t) => MarkLostKeepsStockBounded(db, l, f, t);
  }

  /**
   * Return credits a copy back without looking at the total: after a total
   * is cut below the number of copies out, returning them overfills the
   * shelf. Book B1 has one copy, lent out as loan L1; the total is set to 0
   * (the shelf count is floored at 0), then L1 comes back.
   */
  lemma ReturnCanOverfillShelf()
    ensures var b := Book("B1", "C1", "T", "A", 5, 1, 0, "2024-01-01");
            var l := Loan("L1", "U1", "B1", "2024-01-01", "2024-01-08", "", Borrowed, 0);
            var db := Dataset([], [b], [l]);
            var after := Run(db, [UpdateBookOp("B1", None, None, None, Some(0)), ReturnOp("L1", "2024-01-02")]);
            && StockBounded(db.books)
            && after.books == [b.(totalQty := 0, availableQty := 1)]
            && !StockBounded(after.books)
  {
    var b := Book("B1", "C1", "T", "A", 5, 1, 0, "2024-01-01");
    var l := Loan("L1", "U1", "B1", "2024-01-01", "2024-01-08", "", Borrowed, 0);
    var db := Dataset([], [b], [l]);
    var mid := Apply(db, UpdateBookOp("B1", None, None, None, Some(0)));
    assert BookIndex(db.books, "B1") == 0;
    assert mid.books == [b.(totalQty := 0)];
    assert LoanIndex(mid.loans, "L1") == 0;
    assert BookIndex(mid.books, "B1") == 0;
    var ops := [UpdateBookOp("B1", None, None, None, Some(0)), ReturnOp("L1", "2024-01-02")];
    assert Run(db, ops) == Run(mid, ops[1..]);
    assert Run(mid, ops[1..]) == Run(Apply(mid, ops[1]), []);
  }

  // ---------------------------------------------------------------------
  // The loan life cycle

  /** One loan moves to another only by leaving "borrowed" for "returned" or "lost"; its identity never changes. */
  predicate LoanStep(a: Loan, b: Loan) {
    a == b
    || (&& a.status == Borrowed && (b.status == Returned || b.status == Lost)
        && b.id == a.id && b.readerId == a.readerId && b.bookId == a.bookId
        && b.loanDate == a.loanDate && b.dueDate == a.dueDate)
  }

  /** The loan table grows only at its end, and each existing loan takes at most one step. */
  predicate LoansEvolve(before: seq<Loan>, after: seq<Loan>) {
    |before| <= |after| && forall i :: 0 <= i < |before| ==> LoanStep(before[i], after[i])
  }

  /** A closed loan is frozen: whatever follows, it stays as it is. */
  lemma LoansEvolveTransitive(a: seq<Loan>, b: seq<Loan>, c: seq<Loan>)
    requires LoansEvolve(a, b) && LoansEvolve(b, c)
    ensures LoansEvolve(a, c)
  {
    forall i | 0 <= i < |a| ensures LoanStep(a[i], c[i]) {
      assert LoanStep(a[i], b[i]) && LoanStep(b[i], c[i]);
    }
  }

  /** One request appends at most one loan and moves each loan at most one step along the life cycle. */
  lemma ApplyEvolvesLoans(db: Dataset, op: Op)
    ensures LoansEvolve(db.loans, Apply(db, op).loans)
    ensures |Apply(db, op).loans| <= |db.loans| + 1
  {
  }

  /** Any sequence of requests: no loan is ever removed, and no closed loan ever reopens or changes. */
  lemma {:induction false} RunEvolvesLoans(db: Dataset, ops: seq<Op>)
    ensures LoansEvolve(db.loans, Run(db, ops).loans)
    ensures |Run(db, ops).loans| <= |db.loans| + |ops|
    decreases |ops|
  {
    if ops != [] {
      var next := Apply(db, ops[0]);
      ApplyEvolvesLoans(db, ops[0]);
      RunEvolvesLoans(next, ops[1..]);
      LoansEvolveTransitive(db.loans, next.loans, Run(next, ops[1..]).loans);
    }
  }

  /** Closing a loan twice: once returned or lost, both Return and MarkLost refuse it and change nothing. */
  lemma SecondCloseRefused(db: Dataset, loanId: string, lost: bool, fine: Option<Money>, today: string,
                           fine2: Option<Money>, today2: string)
    requires (if lost then MarkLost(db, loanId, fine, today) else Return(db, loanId, today)).result.Ok?
    ensures var after := (if lost then MarkLost(db, loanId, fine, today) else Return(db, loanId, today)).db;
            && Return(after, loanId, today2) == Step(Err(LoanNotActive), after)
            && MarkLost(after, loanId, fine2, today2) == Step(Err(LoanNotActive), after)
  {
    var after := (if lost then MarkLost(db, loanId, fine, today) else Return(db, loanId, today)).db;
    SameLoanIdsLookups(db.loans, after.loans, loanId);
  }

  /** Return of an open loan found at index k: the loan closes and its book, if any, gets a copy back. */
  lemma ReturnFound(db: Dataset, loanId: string, k: nat, today: string)
    requires k < |db.loans| && LoanIndex(db.loans, loanId) == k && db.loans[k].status == Borrowed
    ensures var l := db.loans[k].(status := Returned, returnDate := today);
            var j := BookIndex(db.books, l.bookId);
            var books := if j == -1 then db.books
                         else db.books[j := db.books[j].(availableQty := db.books[j].availableQty + 1)];
            Return(db, loanId, today) == Step(Ok(l), db.(books := books, loans := db.loans[k := l]))
  {
  }

  /** Writing a slot and then writing its old value back restores the table. */
  lemma RestoreSlot(books: seq<Book>, k: nat, b: Book)
    requires k < |books|
    ensures books[k := b][k := books[k]] == books
  {
  }

  /** Overwriting the entry just appended is appending the new one. */
  lemma ReplaceLast(loans: seq<Loan>, l: Loan, back: Loan)
    ensures (loans + [l])[|loans| := back] == loans + [back]
  {
  }

  /**
   * Returning the loan just appended to the table (numbered one past the
   * others) restores the shelf count it took and records it as returned.
   */
  lemma ReturnOfNewestLoan(db: Dataset, k: nat, l: Loan, today: string)
    requires LoanIdsSequential(db.loans) && l.id == GenID("L", |db.loans| + 1) && l.status == Borrowed
    requires k < |db.books| && BookIndex(db.books, l.bookId) == k
    ensures var taken := db.books[k].(availableQty := db.books[k].availableQty - 1);
            var mid := db.(books := db.books[k := taken], loans := db.loans + [l]);
            var back := l.(status := Returned, returnDate := today);
            Return(mid, l.id, today) == Step(Ok(back), db.(loans := db.loans + [back]))
  {
    var n := |db.loans|;
    var taken := db.books[k].(availableQty := db.books[k].availableQty - 1);
    var mid := db.(books := db.books[k := taken], loans := db.loans + [l]);
    var back := l.(status := Returned, returnDate := today);
    AppendLoanKeepsIdsSequential(db.loans, l);
    LoanIdsLocate(mid.loans, n);
    SameBookKeysLookups(db.books, mid.books, l.bookId);
    ReturnFound(mid, l.id, n, today);
    assert taken.(availableQty := taken.availableQty + 1) == db.books[k];
    RestoreSlot(db.books, k, taken);
    ReplaceLast(db.loans, l, back);
  }

  /**
   * Borrowing and then returning that loan puts the catalogue back exactly
   * as it was; the loan stays on record as returned.
   */
  lemma BorrowThenReturn(db: Dataset, readerId: string, bookId: string, dueDate: string,
                         today: string, defaultDue: string, today2: string)
    requires LoanIdsSequential(db.loans)
    requires Borrow(db, readerId, bookId, dueDate, today, defaultDue).result.Ok?
    ensures var s := Borrow(db, readerId, bookId, dueDate, today, defaultDue);
            var l := s.result.value;
            var t := Return(s.db, l.id, today2);
            && t.result == Ok(l.(status := Returned, returnDate := today2))
            && t.db == db.(loans := db.loans + [l.(status := Returned, returnDate := today2)])
  {
    var s := Borrow(db, readerId, bookId, dueDate, today, defaultDue);
    var k := BookIndex(db.books, bookId);
    assert s.db == db.(books := db.books[k := db.books[k].(availableQty := db.books[k].availableQty - 1)],
                       loans := db.loans + [s.result.value]);
    ReturnOfNewestLoan(db, k, s.result.value, today2);
  }

  /** Marking a loan lost never puts a copy on any shelf, and takes at most one copy off the catalogue. */
  lemma MarkLostNeverRestocks(db: Dataset, loanId: string, fine: Option<Money>, today: string)
    ensures var after := MarkLost(db, loanId, fine, today).db;
            && |after.books| == |db.books|
            && forall i :: 0 <= i < |db.books| ==>
                 && after.books[i].availableQty <= db.books[i].availableQty
                 && after.books[i].totalQty == db.books[i].totalQty
                    - (if db.books[i].totalQty > 0 && after.books[i] != db.books[i] then 1 else 0)
  {
  }

  // ---------------------------------------------------------------------
  // Read views see the records as they are now

  /** A new title shows in the loan list at once: the join reads the current book. */
  lemma JoinSeesNewTitle(db: Dataset, id: string, title: string, l: Loan)
    requires UpdateBook(db, id, Some(title), None, None, None).result.Ok?
    requires l.bookId == id
    ensures JoinLoan(db.users, UpdateBook(db, id, Some(title), None, None, None).db.books, l).bookTitle == title
  {
    var after := UpdateBook(db, id, Some(title), None, None, None).db;
    SameBookKeysLookups(db.books, after.books, id);
  }
}
