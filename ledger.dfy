/**
 * The state logic of each request handler of the library ledger, as a
 * function from the data set before to the answer and the data set after.
 * The request's clock readings, the caller and the password hash are
 * parameters. Each function's contract lists its refusals (each of which
 * leaves the data set as it was) and what a success changes.
 */
module Ledger {
  import opened Text
  import opened Records
  import opened Tables

  /** Register stores the email trimmed and lower-cased. */
  function NormalizeEmail(email: string): (r: string)
    ensures |r| == |TrimSpace(email)| <= |email|
    ensures r == "" <==> TrimSpace(email) == ""
  {
    ToLower(TrimSpace(email))
  }

  /** A stored email has no white space left at either end: trimming it again changes nothing. */
  lemma NormalizeEmailTrimmed(email: string)
    ensures TrimSpace(NormalizeEmail(email)) == NormalizeEmail(email)
  {
    var t := TrimSpace(email);
    var r := ToLower(t);
    if r != [] {
      ToLowerAt(t, 0);
      ToLowerAt(t, |t| - 1);
    }
    TrimSpaceKeepsTrimmed(r);
  }

  /** Normalising a stored email again gives the same email. */
  lemma NormalizeEmailIdempotent(email: string)
    ensures NormalizeEmail(NormalizeEmail(email)) == NormalizeEmail(email)
  {
    NormalizeEmailTrimmed(email);
    ToLowerIdempotent(TrimSpace(email));
  }

  /** Register keeps the role "admin" (after trimming and lower-casing) and makes anything else "reader". */
  function NormalizeRole(role: string): (r: string)
    ensures r == AdminRole || r == ReaderRole
    ensures r == AdminRole <==> ToLower(TrimSpace(role)) == AdminRole
  {
    if ToLower(TrimSpace(role)) == AdminRole then AdminRole else ReaderRole
  }

  predicate CallerIsAdmin(caller: Option<User>) {
    caller.Some? && caller.value.role == AdminRole
  }

  /** Name, normalised email, phone and password are all non-empty. */
  predicate RegisterFieldsPresent(fullName: string, email: string, phone: string, password: string) {
    fullName != "" && NormalizeEmail(email) != "" && phone != "" && password != ""
  }

  /**
   * apiRegister. The bootstrap rule: the first admin may register without
   * credentials; once an admin exists only an admin caller may add another.
   */
  function Register(db: Dataset, fullName: string, email: string, phone: string, password: string,
                    role: string, hash: string, caller: Option<User>, today: string): (s: Step<User>)
    ensures s.result == Err(MissingFields) <==> !RegisterFieldsPresent(fullName, email, phone, password)
    ensures s.result == Err(EmailExists) <==>
              RegisterFieldsPresent(fullName, email, phone, password)
              && EmailIndex(db.users, NormalizeEmail(email)) != -1
    ensures s.result == Err(AdminOnly) <==>
              RegisterFieldsPresent(fullName, email, phone, password)
              && EmailIndex(db.users, NormalizeEmail(email)) == -1
              && NormalizeRole(role) == AdminRole && AnyAdmin(db.users) && !CallerIsAdmin(caller)
    ensures s.result.Err? ==> s.result.error in {MissingFields, EmailExists, AdminOnly} && s.db == db
    ensures s.result.Ok? ==>
              var u := s.result.value;
              && s.db == db.(users := db.users + [u])
              && u == User(GenID("U", |db.users| + 1), fullName, NormalizeEmail(email), phone, hash,
                           NormalizeRole(role), today)
  {
    var e := NormalizeEmail(email);
    var r := NormalizeRole(role);
    if !RegisterFieldsPresent(fullName, email, phone, password) then Step(Err(MissingFields), db)
    else if EmailIndex(db.users, e) != -1 then Step(Err(EmailExists), db)
    else if r == AdminRole && AnyAdmin(db.users) && !CallerIsAdmin(caller) then Step(Err(AdminOnly), db)
    else
      var u := User(GenID("U", |db.users| + 1), fullName, e, phone, hash, r, today);
      Step(Ok(u), db.(users := db.users + [u]))
  }

  /** Trimmed code, title and author are non-empty and the quantity is positive. */
  predicate BookFieldsValid(code: string, title: string, author: string, totalQty: int) {
    TrimSpace(code) != "" && title != "" && author != "" && totalQty > 0
  }

  /** apiCreateBook: a new book with every copy on the shelf. */
  function CreateBook(db: Dataset, code: string, title: string, author: string, price: Money,
                      totalQty: int, today: string): (s: Step<Book>)
    ensures s.result == Err(InvalidFields) <==> !BookFieldsValid(code, title, author, totalQty)
    ensures s.result == Err(CodeExists) <==>
              BookFieldsValid(code, title, author, totalQty) && CodeTaken(db.books, TrimSpace(code))
    ensures s.result.Err? ==> s.result.error in {InvalidFields, CodeExists} && s.db == db
    ensures s.result.Ok? ==>
              var b := s.result.value;
              && s.db == db.(books := db.books + [b])
              && b.availableQty == b.totalQty == totalQty
              && b == Book(GenID("B", |db.books| + 1), TrimSpace(code), title, author, price,
                           totalQty, totalQty, today)
  {
    var c := TrimSpace(code);
    if !BookFieldsValid(code, title, author, totalQty) then Step(Err(InvalidFields), db)
    else if CodeTaken(db.books, c) then Step(Err(CodeExists), db)
    else
      var b := Book(GenID("B", |db.books| + 1), c, title, author, price, totalQty, totalQty, today);
      Step(Ok(b), db.(books := db.books + [b]))
  }

  /** The available count after the total moves from oldTotal to newTotal: shifted alike, floored at 0. */
  function ShiftAvailable(available: int, oldTotal: int, newTotal: int): (r: int)
    ensures r >= 0
    ensures r >= available + (newTotal - oldTotal)
    ensures r == available + (newTotal - oldTotal) || r == 0
  {
    var shifted := available + (newTotal - oldTotal);
    if shifted < 0 then 0 else shifted
  }

  /** apiUpdateBook: only the supplied fields change; a new total drags the available count along. */
  function UpdateBook(db: Dataset, id: string, title: Option<string>, author: Option<string>,
                      price: Option<Money>, totalQty: Option<int>): (s: Step<Book>)
    ensures s.result == Err(MissingId) <==> id == ""
    ensures s.result == Err(BookNotFound) <==> id != "" && BookIndex(db.books, id) == -1
    ensures s.result == Err(InvalidTotal) <==>
              id != "" && BookIndex(db.books, id) != -1 && totalQty.Some? && totalQty.value < 0
    ensures s.result.Err? ==> s.result.error in {MissingId, BookNotFound, InvalidTotal} && s.db == db
    ensures s.result.Ok? ==>
              var k := BookIndex(db.books, id);
              var was := db.books[k];
              var b := s.result.value;
              && 0 <= k
              && s.db == db.(books := db.books[k := b])
              && b.id == was.id && b.code == was.code && b.createdAt == was.createdAt
              && b.title == title.GetOr(was.title)
              && b.author == author.GetOr(was.author)
              && b.price == price.GetOr(was.price)
              && b.totalQty == totalQty.GetOr(was.totalQty)
              && b.availableQty == (if totalQty.Some?
                                    then ShiftAvailable(was.availableQty, was.totalQty, totalQty.value)
                                    else was.availableQty)
  {
    if id == "" then Step(Err(MissingId), db)
    else
      var k := BookIndex(db.books, id);
      if k == -1 then Step(Err(BookNotFound), db)
      else if totalQty.Some? && totalQty.value < 0 then Step(Err(InvalidTotal), db)
      else
        var was := db.books[k];
        var b := was.(
          totalQty := totalQty.GetOr(was.totalQty),
          availableQty := if totalQty.Some?
                          then ShiftAvailable(was.availableQty, was.totalQty, totalQty.value)
                          else was.availableQty,
          title := title.GetOr(was.title),
          author := author.GetOr(was.author),
          price := price.GetOr(was.price));
        Step(Ok(b), db.(books := db.books[k := b]))
  }

  /** apiDeleteBook: removes the first book with this id unless a copy of it is out. */
  function DeleteBook(db: Dataset, id: string): (s: Step<()>)
    ensures s.result == Err(MissingId) <==> id == ""
    ensures s.result == Err(BookNotFound) <==> id != "" && BookIndex(db.books, id) == -1
    ensures s.result == Err(BookBorrowed) <==>
              id != "" && BookIndex(db.books, id) != -1 && OnLoan(db.loans, id)
    ensures s.result.Err? ==> s.result.error in {MissingId, BookNotFound, BookBorrowed} && s.db == db
    ensures s.result.Ok? ==>
              var k := BookIndex(db.books, id);
              && 0 <= k
              && s.db.users == db.users && s.db.loans == db.loans
              && |s.db.books| == |db.books| - 1
              && (forall i :: 0 <= i < k ==> s.db.books[i] == db.books[i])
              && (forall i :: k <= i < |s.db.books| ==> s.db.books[i] == db.books[i + 1])
  {
    if id == "" then Step(Err(MissingId), db)
    else
      var k := BookIndex(db.books, id);
      if k == -1 then Step(Err(BookNotFound), db)
      else if OnLoan(db.loans, id) then Step(Err(BookBorrowed), db)
      else Step(Ok(()), db.(books := db.books[..k] + db.books[k + 1..]))
  }

  /**
   * apiBorrow: one copy leaves the shelf and an open loan is recorded. The
   * due date is the one supplied, or defaultDue (a week from today) when
   * none is.
   */
  function Borrow(db: Dataset, readerId: string, bookId: string, dueDate: string,
                  today: string, defaultDue: string): (s: Step<Loan>)
    ensures s.result == Err(MissingIds) <==> readerId == "" || bookId == ""
    ensures s.result == Err(ReaderNotFound) <==>
              readerId != "" && bookId != "" && !IsReader(db.users, readerId)
    ensures s.result == Err(BookNotFound) <==>
              readerId != "" && bookId != "" && IsReader(db.users, readerId)
              && BookIndex(db.books, bookId) == -1
    ensures s.result == Err(OutOfStock) <==>
              readerId != "" && bookId != "" && IsReader(db.users, readerId)
              && BookIndex(db.books, bookId) != -1
              && db.books[BookIndex(db.books, bookId)].availableQty <= 0
    ensures s.result.Err? ==>
              s.result.error in {MissingIds, ReaderNotFound, BookNotFound, OutOfStock} && s.db == db
    ensures s.result.Ok? ==>
              var k := BookIndex(db.books, bookId);
              var l := s.result.value;
              && 0 <= k
              && s.db.users == db.users
              && |s.db.books| == |db.books|
              && s.db.books[k] == db.books[k].(availableQty := db.books[k].availableQty - 1)
              && (forall i :: 0 <= i < |db.books| && i != k ==> s.db.books[i] == db.books[i])
              && s.db.loans == db.loans + [l]
              && l.readerId == readerId && l.bookId == bookId
              && l.status == Borrowed && l.returnDate == "" && l.fineAmount == 0
              && l.dueDate == (if dueDate == "" then defaultDue else dueDate)
              && l.loanDate == today && l.id == GenID("L", |db.loans| + 1)
  {
    if readerId == "" || bookId == "" then Step(Err(MissingIds), db)
    else if !IsReader(db.users, readerId) then Step(Err(ReaderNotFound), db)
    else
      var k := BookIndex(db.books, bookId);
      if k == -1 then Step(Err(BookNotFound), db)
      else if db.books[k].availableQty <= 0 then Step(Err(OutOfStock), db)
      else
        var due := if dueDate == "" then defaultDue else dueDate;
        var b := db.books[k].(availableQty := db.books[k].availableQty - 1);
        var l := Loan(GenID("L", |db.loans| + 1), readerId, bookId, today, due, "", Borrowed, 0);
        Step(Ok(l), db.(books := db.books[k := b], loans := db.loans + [l]))
  }

  /** The first loan with this id exists and is still open. */
  predicate IsOpenLoan(loans: seq<Loan>, loanId: string) {
    var k := LoanIndex(loans, loanId);
    k != -1 && loans[k].status == Borrowed
  }

  /** apiReturn: the loan closes as returned and its book, if still catalogued, gets a copy back. */
  function Return(db: Dataset, loanId: string, today: string): (s: Step<Loan>)
    ensures s.result == Err(LoanNotFound) <==> LoanIndex(db.loans, loanId) == -1
    ensures s.result == Err(LoanNotActive) <==>
              LoanIndex(db.loans, loanId) != -1 && !IsOpenLoan(db.loans, loanId)
    ensures s.result.Err? ==> s.result.error in {LoanNotFound, LoanNotActive} && s.db == db
    ensures s.result.Ok? ==>
              var k := LoanIndex(db.loans, loanId);
              var l := s.result.value;
              var j := BookIndex(db.books, l.bookId);
              && 0 <= k
              && l == db.loans[k].(status := Returned, returnDate := today)
              && s.db.users == db.users
              && s.db.loans == db.loans[k := l]
              && |s.db.books| == |db.books|
              && (forall i :: 0 <= i < |db.books| && i != j ==> s.db.books[i] == db.books[i])
              && (j != -1 ==> s.db.books[j] == db.books[j].(availableQty := db.books[j].availableQty + 1))
  {
    var k := LoanIndex(db.loans, loanId);
    if k == -1 then Step(Err(LoanNotFound), db)
    else if db.loans[k].status != Borrowed then Step(Err(LoanNotActive), db)
    else
      var l := db.loans[k].(status := Returned, returnDate := today);
      var j := BookIndex(db.books, l.bookId);
      var books := if j == -1 then db.books
                   else db.books[j := db.books[j].(availableQty := db.books[j].availableQty + 1)];
      Step(Ok(l), db.(books := books, loans := db.loans[k := l]))
  }

  /** The fine for a lost copy: the one supplied, else the book's price, else 0 when the book is gone. */
  function LostFine(books: seq<Book>, bookId: string, fine: Option<Money>): (r: Money)
    ensures fine.Some? ==> r == fine.value
    ensures fine.None? && BookIndex(books, bookId) == -1 ==> r == 0
    ensures fine.None? && BookIndex(books, bookId) != -1 ==> r == books[BookIndex(books, bookId)].price
  {
    var j := BookIndex(books, bookId);
    if fine.Some? then fine.value else if j != -1 then books[j].price else 0
  }

  /** A book after one of its copies is written off: one copy fewer in total, and no more on the shelf than in total. */
  function WriteOffCopy(b: Book): (r: Book)
    ensures r.id == b.id && r.code == b.code && r.title == b.title && r.author == b.author
            && r.price == b.price && r.createdAt == b.createdAt
    ensures b.totalQty > 0 ==> r.totalQty == b.totalQty - 1
    ensures b.totalQty <= 0 ==> r == b
    ensures r.availableQty <= b.availableQty
    ensures b.totalQty > 0 ==> r.availableQty == if b.availableQty > r.totalQty then r.totalQty else b.availableQty
  {
    if b.totalQty > 0 then
      var t := b.totalQty - 1;
      b.(totalQty := t, availableQty := if b.availableQty > t then t else b.availableQty)
    else b
  }

  /** apiLost: the loan closes as lost with its fine, and its book, if still catalogued, loses the copy. */
  function MarkLost(db: Dataset, loanId: string, fine: Option<Money>, today: string): (s: Step<Loan>)
    ensures s.result == Err(LoanNotFound) <==> LoanIndex(db.loans, loanId) == -1
    ensures s.result == Err(LoanNotActive) <==>
              LoanIndex(db.loans, loanId) != -1 && !IsOpenLoan(db.loans, loanId)
    ensures s.result.Err? ==> s.result.error in {LoanNotFound, LoanNotActive} && s.db == db
    ensures s.result.Ok? ==>
              var k := LoanIndex(db.loans, loanId);
              var l := s.result.value;
              var j := BookIndex(db.books, l.bookId);
              && 0 <= k
              && l == db.loans[k].(status := Lost, returnDate := today,
                                   fineAmount := LostFine(db.books, l.bookId, fine))
              && s.db.users == db.users
              && s.db.loans == db.loans[k := l]
              && |s.db.books| == |db.books|
              && (forall i :: 0 <= i < |db.books| && i != j ==> s.db.books[i] == db.books[i])
              && (j != -1 ==> s.db.books[j] == WriteOffCopy(db.books[j]))
  {
    var k := LoanIndex(db.loans, loanId);
    if k == -1 then Step(Err(LoanNotFound), db)
    else if db.loans[k].status != Borrowed then Step(Err(LoanNotActive), db)
    else
      var bookId := db.loans[k].bookId;
      var j := BookIndex(db.books, bookId);
      var l := db.loans[k].(status := Lost, returnDate := today,
                            fineAmount := LostFine(db.books, bookId, fine));
      var books := if j == -1 then db.books else db.books[j := WriteOffCopy(db.books[j])];
      Step(Ok(l), db.(books := books, loans := db.loans[k := l]))
  }

  /**
   * apiListUsers: the role query is trimmed and lower-cased before
   * filtering; a blank query lists every user.
   */
  function ListUsers(db: Dataset, roleQuery: string): (out: seq<UserView>)
    ensures |out| <= |db.users|
    ensures exists idx :: ListsKeptUsers(db.users, ToLower(TrimSpace(roleQuery)), out, idx)
    ensures TrimSpace(roleQuery) == "" ==>
              |out| == |db.users| && forall i :: 0 <= i < |db.users| ==> out[i] == ViewOfUser(db.users[i])
  {
    var role := ToLower(TrimSpace(roleQuery));
    UserListingInOrder(db.users, role);
    assert TrimSpace(roleQuery) == "" ==> role == "";
    UserListing(db.users, role)
  }

  /** apiListLoans: every loan, in order, joined with its current reader and book. */
  function ListLoans(db: Dataset): (out: seq<LoanView>)
    ensures |out| == |db.loans|
    ensures forall i :: 0 <= i < |db.loans| ==> out[i] == JoinLoan(db.users, db.books, db.loans[i])
  {
    seq(|db.loans|, i requires 0 <= i < |db.loans| => JoinLoan(db.users, db.books, db.loans[i]))
  }


  /** apiMyLoans: only an authenticated reader gets a list, and it holds that reader's loans. */
  function MyLoans(db: Dataset, caller: Option<User>): (r: Result<seq<MyLoanView>>)
    ensures caller.None? <==> r == Err(Unauthorized)
    ensures caller.Some? && caller.value.role != ReaderRole <==> r == Err(ReaderOnly)
    ensures caller.Some? && caller.value.role == ReaderRole ==>
              r == Ok(MyLoanListing(db.books, db.loans, caller.value.id))
  {
    if caller.None? then Err(Unauthorized)
    else if caller.value.role != ReaderRole then Err(ReaderOnly)
    else Ok(MyLoanListing(db.books, db.loans, caller.value.id))
  }

  /** The requests that change the data set, with their parameters. */
  datatype Op =
    | RegisterOp(fullName: string, email: string, phone: string, password: string, role: string,
                 hash: string, caller: Option<User>, today: string)
    | CreateBookOp(code: string, title: string, author: string, price: Money, totalQty: int, today: string)
    | UpdateBookOp(id: string, newTitle: Option<string>, newAuthor: Option<string>,
                   newPrice: Option<Money>, newTotal: Option<int>)
    | DeleteBookOp(id: string)
    | BorrowOp(readerId: string, bookId: string, dueDate: string, today: string, defaultDue: string)
    | ReturnOp(loanId: string, today: string)
    | LostOp(loanId: string, fine: Option<Money>, today: string)

  /** The data set after one request, whatever its answer. */
  function Apply(db: Dataset, op: Op): Dataset {
    match op
    case RegisterOp(n, e, p, pw, r, h, c, t) => Register(db, n, e, p, pw, r, h, c, t).db
    case CreateBookOp(c, ti, a, pr, q, t) => CreateBook(db, c, ti, a, pr, q, t).db
    case UpdateBookOp(id, ti, a, pr, q) => UpdateBook(db, id, ti, a, pr, q).db
    case DeleteBookOp(id) => DeleteBook(db, id).db
    case BorrowOp(r, b, d, t, dd) => Borrow(db, r, b, d, t, dd).db
    case ReturnOp(l, t) => Return(db, l, t).db
    case LostOp(l, f, t) => MarkLost(db, l, f, t).db
  }

  /** The data set after a sequence of requests, served one at a time in order. */
  function Run(db: Dataset, ops: seq<Op>): Dataset
    decreases |ops|
  {
    if ops == [] then db else Run(Apply(db, ops[0]), ops[1..])
  }
}
