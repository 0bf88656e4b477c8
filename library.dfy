/**
 * The in-memory database the request handlers share: three tables that
 * each operation reads by linear search and changes in place. Every
 * method is proved to answer, and to leave the tables, exactly as the
 * matching function of module Ledger says.
 */
module Library {
  import opened Text
  import opened Records
  import opened Tables
  import Ledger

  class Database {
    var users: seq<User>
    var books: seq<Book>
    var loans: seq<Loan>

    /** The tables as one value, as they would be saved. */
    function State(): Dataset
      reads this
    {
      Dataset(users, books, loans)
    }

    /** loadDB: start from the saved snapshot (the empty data set when there is none). */
    constructor (snapshot: Dataset)
      ensures State() == snapshot
    {
      users, books, loans := snapshot.users, snapshot.books, snapshot.loans;
    }

    // -------------------------------------------------------------------
    // Lookups: the first match, or -1

    method FindUserByEmail(email: string) returns (idx: int)
      ensures idx == EmailIndex(users, email)
    {
      for i := 0 to |users|
        invariant forall j :: 0 <= j < i ==> !EqualFold(users[j].email, email)
      {
        if EqualFold(users[i].email, email) {
          return i;
        }
      }
      return -1;
    }

    method FindUserByID(id: string) returns (idx: int)
      ensures idx == UserIndex(users, id)
    {
      for i := 0 to |users|
        invariant forall j :: 0 <= j < i ==> users[j].id != id
      {
        if users[i].id == id {
          return i;
        }
      }
      return -1;
    }

    method FindBookByID(id: string) returns (idx: int)
      ensures idx == BookIndex(books, id)
    {
      for i := 0 to |books|
        invariant forall j :: 0 <= j < i ==> books[j].id != id
      {
        if books[i].id == id {
          return i;
        }
      }
      return -1;
    }

    method FindLoanByID(id: string) returns (idx: int)
      ensures idx == LoanIndex(loans, id)
    {
      for i := 0 to |loans|
        invariant forall j :: 0 <= j < i ==> loans[j].id != id
      {
        if loans[i].id == id {
          return i;
        }
      }
      return -1;
    }

    method AnyAdminExists() returns (found: bool)
      ensures found <==> AnyAdmin(users)
    {
      for i := 0 to |users|
        invariant forall j :: 0 <= j < i ==> users[j].role != AdminRole
      {
        if users[i].role == AdminRole {
          return true;
        }
      }
      return false;
    }

    // -------------------------------------------------------------------
    // Requests that change the tables

    method Register(fullName: string, email: string, phone: string, password: string, role: string,
                    hash: string, caller: Option<User>, today: string) returns (r: Result<User>)
      modifies this
      ensures Step(r, State()) == Ledger.Register(old(State()), fullName, email, phone, password,
                                                  role, hash, caller, today)
    {
      var e := ToLower(TrimSpace(email));
      var rl := ToLower(TrimSpace(role));
      if rl != AdminRole {
        rl := ReaderRole;
      }
      if fullName == "" || e == "" || phone == "" || password == "" {
        return Err(MissingFields);
      }
      var dup := FindUserByEmail(e);
      if dup != -1 {
        return Err(EmailExists);
      }
      if rl == AdminRole {
        var adminExists := AnyAdminExists();
        if adminExists && (caller.None? || caller.value.role != AdminRole) {
          return Err(AdminOnly);
        }
      }
      var u := User(GenID("U", |users| + 1), fullName, e, phone, hash, rl, today);
      users := users + [u];
      r := Ok(u);
    }

    method CreateBook(code: string, title: string, author: string, price: Money, totalQty: int,
                      today: string) returns (r: Result<Book>)
      modifies this
      ensures Step(r, State()) == Ledger.CreateBook(old(State()), code, title, author, price, totalQty, today)
    {
      var c := TrimSpace(code);
      if c == "" || title == "" || author == "" || totalQty <= 0 {
        return Err(InvalidFields);
      }
      for i := 0 to |books|
        invariant forall j :: 0 <= j < i ==> !EqualFold(books[j].code, c)
      {
        if EqualFold(books[i].code, c) {
          assert CodeTaken(books, c);
          return Err(CodeExists);
        }
      }
      assert !CodeTaken(books, c);
      var b := Book(GenID("B", |books| + 1), c, title, author, price, totalQty, totalQty, today);
      books := books + [b];
      r := Ok(b);
    }

    method UpdateBook(id: string, title: Option<string>, author: Option<string>, price: Option<Money>,
                      totalQty: Option<int>) returns (r: Result<Book>)
      modifies this
      ensures Step(r, State()) == Ledger.UpdateBook(old(State()), id, title, author, price, totalQty)
    {
      if id == "" {
        return Err(MissingId);
      }
      var idx := FindBookByID(id);
      if idx == -1 {
        return Err(BookNotFound);
      }
      // the record is copied, edited field by field and written back to its slot
      var b := books[idx];
      if totalQty.Some? {
        var newTotal := totalQty.value;
        if newTotal < 0 {
          return Err(InvalidTotal);
        }
        var diff := newTotal - b.totalQty;
        b := b.(totalQty := newTotal);
        b := b.(availableQty := b.availableQty + diff);
        if b.availableQty < 0 {
          b := b.(availableQty := 0);
        }
      }
      if title.Some? {
        b := b.(title := title.value);
      }
      if author.Some? {
        b := b.(author := author.value);
      }
      if price.Some? {
        b := b.(price := price.value);
      }
      books := books[idx := b];
      r := Ok(b);
    }

    method DeleteBook(id: string) returns (r: Result<()>)
      modifies this
      ensures Step(r, State()) == Ledger.DeleteBook(old(State()), id)
    {
      if id == "" {
        return Err(MissingId);
      }
      var idx := FindBookByID(id);
      if idx == -1 {
        return Err(BookNotFound);
      }
      for i := 0 to |loans|
        invariant forall j :: 0 <= j < i ==> !(loans[j].bookId == id && loans[j].status == Borrowed)
      {
        if loans[i].bookId == id && loans[i].status == Borrowed {
          return Err(BookBorrowed);
        }
      }
      books := books[..idx] + books[idx + 1..];
      r := Ok(());
    }

    method Borrow(readerId: string, bookId: string, dueDate: string, today: string, defaultDue: string)
      returns (r: Result<Loan>)
      modifies this
      ensures Step(r, State()) == Ledger.Borrow(old(State()), readerId, bookId, dueDate, today, defaultDue)
    {
      if readerId == "" || bookId == "" {
        return Err(MissingIds);
      }
      var ui := FindUserByID(readerId);
      if ui == -1 || users[ui].role != ReaderRole {
        return Err(ReaderNotFound);
      }
      var bi := FindBookByID(bookId);
      if bi == -1 {
        return Err(BookNotFound);
      }
      if books[bi].availableQty <= 0 {
        return Err(OutOfStock);
      }
      var due := dueDate;
      if due == "" {
        due := defaultDue;
      }
      books := books[bi := books[bi].(availableQty := books[bi].availableQty - 1)];
      var loan := Loan(GenID("L", |loans| + 1), readerId, bookId, today, due, "", Borrowed, 0);
      loans := loans + [loan];
      r := Ok(loan);
    }

    method Return(loanId: string, today: string) returns (r: Result<Loan>)
      modifies this
      ensures Step(r, State()) == Ledger.Return(old(State()), loanId, today)
    {
      var li := FindLoanByID(loanId);
      if li == -1 {
        return Err(LoanNotFound);
      }
      if loans[li].status != Borrowed {
        return Err(LoanNotActive);
      }
      var l := loans[li];
      l := l.(status := Returned);
      l := l.(returnDate := today);
      loans := loans[li := l];
      var bi := FindBookByID(l.bookId);
      if bi != -1 {
        books := books[bi := books[bi].(availableQty := books[bi].availableQty + 1)];
      }
      r := Ok(l);
    }

    method MarkLost(loanId: string, fineAmount: Option<Money>, today: string) returns (r: Result<Loan>)
      modifies this
      ensures Step(r, State()) == Ledger.MarkLost(old(State()), loanId, fineAmount, today)
    {
      var li := FindLoanByID(loanId);
      if li == -1 {
        return Err(LoanNotFound);
      }
      if loans[li].status != Borrowed {
        return Err(LoanNotActive);
      }
      var fine: Money := 0;
      var bi := FindBookByID(loans[li].bookId);
      if fineAmount.Some? {
        fine := fineAmount.value;
      } else if bi != -1 {
        fine := books[bi].price;
      }
      var l := loans[li];
      l := l.(status := Lost);
      l := l.(returnDate := today);
      l := l.(fineAmount := fine);
      loans := loans[li := l];
      if bi != -1 && books[bi].totalQty > 0 {
        var b := books[bi];
        b := b.(totalQty := b.totalQty - 1);
        if b.availableQty > b.totalQty {
          b := b.(availableQty := b.totalQty);
        }
        books := books[bi := b];
      }
      r := Ok(l);
    }

    // -------------------------------------------------------------------
    // Read views

    method ListUsers(roleQuery: string) returns (out: seq<UserView>)
      ensures out == Ledger.ListUsers(State(), roleQuery)
    {
      var role := ToLower(TrimSpace(roleQuery));
      out := [];
      for i := 0 to |users|
        invariant out == UserListing(users[..i], role)
      {
        assert users[..i + 1][..i] == users[..i];
        var u := users[i];
        if role != "" && u.role != role {
          continue;
        }
        out := out + [ViewOfUser(u)];
      }
      assert users[..|users|] == users;
    }

    /** One row of the loan list: the loan with its reader's and its book's details, or empty text. */
    method JoinOne(l: Loan) returns (v: LoanView)
      ensures v == JoinLoan(users, books, l)
    {
      var reader := FindUserByID(l.readerId);
      var book := FindBookByID(l.bookId);
      v := LoanView(l, "", "", "", "", "", "");
      if reader != -1 {
        v := v.(readerName := users[reader].fullName, readerPhone := users[reader].phone,
                readerEmail := users[reader].email);
      }
      if book != -1 {
        v := v.(bookCode := books[book].code, bookTitle := books[book].title,
                bookAuthor := books[book].author);
      }
    }

    method ListLoans() returns (out: seq<LoanView>)
      ensures out == Ledger.ListLoans(State())
    {
      out := [];
      for i := 0 to |loans|
        invariant |out| == i
        invariant forall j :: 0 <= j < i ==> out[j] == JoinLoan(users, books, loans[j])
      {
        var v := JoinOne(loans[i]);
        out := out + [v];
      }
    }

    method MyLoans(caller: Option<User>) returns (r: Result<seq<MyLoanView>>)
      ensures r == Ledger.MyLoans(State(), caller)
    {
      if caller.None? {
        return Err(Unauthorized);
      }
      var u := caller.value;
      if u.role != ReaderRole {
        return Err(ReaderOnly);
      }
      var out := [];
      for i := 0 to |loans|
        invariant out == MyLoanListing(books, loans[..i], u.id)
      {
        assert loans[..i + 1][..i] == loans[..i];
        var l := loans[i];
        if l.readerId != u.id {
          continue;
        }
        var bi := FindBookByID(l.bookId);
        var book := if bi == -1 then None else Some(books[bi]);
        out := out + [MyLoanView(l.id, l.status, l.loanDate, l.dueDate, l.returnDate, l.fineAmount, book)];
      }
      assert loans[..|loans|] == loans;
      r := Ok(out);
    }
  }
}
