/**
 * Lookups and read views over the tables. Every lookup answers the FIRST
 * record that matches, or -1; the views are built in table order.
 */
module Tables {
  import opened Text
  import opened Records

  /** findUserByID: the index of the first user with this id, or -1. */
  function UserIndex(users: seq<User>, id: string): (r: int)
    ensures -1 <= r < |users|
    ensures r == -1 ==> forall i :: 0 <= i < |users| ==> users[i].id != id
    ensures 0 <= r ==> users[r].id == id && forall i :: 0 <= i < r ==> users[i].id != id
  {
    if users == [] then -1
    else if users[0].id == id then 0
    else
      var k := UserIndex(users[1..], id);
      if k == -1 then -1 else k + 1
  }

  /** findUserByEmail: the first user whose email equals this one ignoring case, or -1. */
  function EmailIndex(users: seq<User>, email: string): (r: int)
    ensures -1 <= r < |users|
    ensures r == -1 ==> forall i :: 0 <= i < |users| ==> !EqualFold(users[i].email, email)
    ensures 0 <= r ==> EqualFold(users[r].email, email)
                       && forall i :: 0 <= i < r ==> !EqualFold(users[i].email, email)
  {
    if users == [] then -1
    else if EqualFold(users[0].email, email) then 0
    else
      var k := EmailIndex(users[1..], email);
      if k == -1 then -1 else k + 1
  }

  /** findBookByID: the index of the first book with this id, or -1. */
  function BookIndex(books: seq<Book>, id: string): (r: int)
    ensures -1 <= r < |books|
    ensures r == -1 ==> forall i :: 0 <= i < |books| ==> books[i].id != id
    ensures 0 <= r ==> books[r].id == id && forall i :: 0 <= i < r ==> books[i].id != id
  {
    if books == [] then -1
    else if books[0].id == id then 0
    else
      var k := BookIndex(books[1..], id);
      if k == -1 then -1 else k + 1
  }

  /** findLoanByID: the index of the first loan with this id, or -1. */
  function LoanIndex(loans: seq<Loan>, id: string): (r: int)
    ensures -1 <= r < |loans|
    ensures r == -1 ==> forall i :: 0 <= i < |loans| ==> loans[i].id != id
    ensures 0 <= r ==> loans[r].id == id && forall i :: 0 <= i < r ==> loans[i].id != id
  {
    if loans == [] then -1
    else if loans[0].id == id then 0
    else
      var k := LoanIndex(loans[1..], id);
      if k == -1 then -1 else k + 1
  }

  /** anyAdminExists. */
  predicate AnyAdmin(users: seq<User>) {
    exists i :: 0 <= i < |users| && users[i].role == AdminRole
  }

  /** Some book already carries this code, ignoring case. */
  predicate CodeTaken(books: seq<Book>, code: string) {
    exists i :: 0 <= i < |books| && EqualFold(books[i].code, code)
  }

  /** Some loan of this book is still out. */
  predicate OnLoan(loans: seq<Loan>, bookId: string) {
    exists i :: 0 <= i < |loans| && loans[i].bookId == bookId && loans[i].status == Borrowed
  }

  /** The first user with this id exists and is a reader. */
  predicate IsReader(users: seq<User>, id: string) {
    var k := UserIndex(users, id);
    k != -1 && users[k].role == ReaderRole
  }

  function ViewOfUser(u: User): UserView {
    UserView(u.id, u.fullName, u.email, u.phone, u.role, u.createdAt)
  }

  /** Whether the role filter keeps u: no role was asked for, or u holds it. */
  predicate RoleSelects(role: string, u: User) {
    role == "" || u.role == role
  }

  /**
   * The user list: the users the role filter keeps, in table order. Every
   * entry is a kept user and every kept user has an entry; an empty role
   * keeps the whole table, position by position.
   */
  function UserListing(users: seq<User>, role: string): (out: seq<UserView>)
    ensures |out| <= |users|
    ensures forall v :: v in out <==>
              exists i :: 0 <= i < |users| && RoleSelects(role, users[i]) && v == ViewOfUser(users[i])
    ensures role == "" ==> |out| == |users| && forall i :: 0 <= i < |users| ==> out[i] == ViewOfUser(users[i])
  {
    if users == [] then []
    else
      var init := users[..|users| - 1];
      var u := users[|users| - 1];
      var rest := UserListing(init, role);
      assert forall i :: 0 <= i < |init| ==> init[i] == users[i];
      if RoleSelects(role, u) then rest + [ViewOfUser(u)] else rest
  }

  /**
   * out is users[idx[0]], users[idx[1]], ... (as views) for strictly
   * increasing positions idx that are exactly the positions the role
   * filter keeps: every kept user once, in table order, and nothing else.
   */
  predicate ListsKeptUsers(users: seq<User>, role: string, out: seq<UserView>, idx: seq<int>) {
    && |idx| == |out|
    && (forall j :: 0 <= j < |idx| ==>
          0 <= idx[j] < |users| && RoleSelects(role, users[idx[j]]) && out[j] == ViewOfUser(users[idx[j]]))
    && (forall j, k :: 0 <= j < k < |idx| ==> idx[j] < idx[k])
    && (forall i :: 0 <= i < |users| && RoleSelects(role, users[i]) ==> i in idx)
  }

  /** An ordered selection of the kept users lists exactly the kept users' views. */
  lemma KeptUsersMembership(users: seq<User>, role: string, out: seq<UserView>, idx: seq<int>)
    requires ListsKeptUsers(users, role, out, idx)
    ensures forall v :: v in out <==>
              exists i :: 0 <= i < |users| && RoleSelects(role, users[i]) && v == ViewOfUser(users[i])
  {
    forall v | v in out
      ensures exists i :: 0 <= i < |users| && RoleSelects(role, users[i]) && v == ViewOfUser(users[i])
    {
      var j :| 0 <= j < |out| && out[j] == v;
      assert users[idx[j]] == users[idx[j]];
    }
    forall i | 0 <= i < |users| && RoleSelects(role, users[i]) ensures ViewOfUser(users[i]) in out {
      assert i in idx;
      var j :| 0 <= j < |idx| && idx[j] == i;
      assert out[j] == ViewOfUser(users[i]);
    }
  }

  /** One more user at the end of the table: the listing grows by its view exactly when the filter keeps it. */
  lemma ExtendKeptUsers(init: seq<User>, u: User, role: string, rest: seq<UserView>, idx: seq<int>)
    requires ListsKeptUsers(init, role, rest, idx)
    ensures RoleSelects(role, u) ==> ListsKeptUsers(init + [u], role, rest + [ViewOfUser(u)], idx + [|init|])
    ensures !RoleSelects(role, u) ==> ListsKeptUsers(init + [u], role, rest, idx)
  {
    var users := init + [u];
    assert forall i :: 0 <= i < |init| ==> users[i] == init[i];
    if RoleSelects(role, u) {
      var out, idx' := rest + [ViewOfUser(u)], idx + [|init|];
      forall j | 0 <= j < |idx'|
        ensures 0 <= idx'[j] < |users| && RoleSelects(role, users[idx'[j]]) && out[j] == ViewOfUser(users[idx'[j]])
      {
        if j < |idx| {
          assert idx'[j] == idx[j] && out[j] == rest[j];
        }
      }
      forall i | 0 <= i < |users| && RoleSelects(role, users[i]) ensures i in idx' {
        if i < |init| {
          assert i in idx;
        } else {
          assert idx'[|idx|] == i;
        }
      }
    }
  }

  /** The positions the user list is drawn from: each kept user exactly once, in table order. */
  lemma {:induction false} UserListingIndices(users: seq<User>, role: string) returns (idx: seq<int>)
    ensures ListsKeptUsers(users, role, UserListing(users, role), idx)
  {
    if users == [] {
      idx := [];
      assert ListsKeptUsers(users, role, UserListing(users, role), idx);
    } else {
      var init := users[..|users| - 1];
      var u := users[|users| - 1];
      var before := UserListingIndices(init, role);
      var rest := UserListing(init, role);
      ExtendKeptUsers(init, u, role, rest, before);
      assert init + [u] == users;
      if RoleSelects(role, u) {
        idx := before + [|init|];
        assert UserListing(users, role) == rest + [ViewOfUser(u)];
      } else {
        idx := before;
        assert UserListing(users, role) == rest;
      }
    }
  }

  /** The user list is the role filter of the table: each kept user exactly once, in table order. */
  lemma {:induction false} UserListingInOrder(users: seq<User>, role: string)
    ensures exists idx :: ListsKeptUsers(users, role, UserListing(users, role), idx)
  {
    var idx := UserListingIndices(users, role);
  }

  /**
   * A loan joined with the records it refers to at the time of reading: the
   * first user and the first book with the loan's ids, or empty text.
   */
  function JoinLoan(users: seq<User>, books: seq<Book>, l: Loan): (v: LoanView)
    ensures v.loan == l
  {
    var u := UserIndex(users, l.readerId);
    var b := BookIndex(books, l.bookId);
    LoanView(
      l,
      if u == -1 then "" else users[u].fullName,
      if u == -1 then "" else users[u].phone,
      if u == -1 then "" else users[u].email,
      if b == -1 then "" else books[b].code,
      if b == -1 then "" else books[b].title,
      if b == -1 then "" else books[b].author)
  }

  /**
   * The joined fields come from the FIRST user and the FIRST book carrying
   * the loan's ids, and are empty when there is none.
   */
  lemma JoinLoanMatches(users: seq<User>, books: seq<Book>, l: Loan)
    ensures var v := JoinLoan(users, books, l);
            && ((forall i :: 0 <= i < |users| ==> users[i].id != l.readerId) ==>
                  v.readerName == "" && v.readerPhone == "" && v.readerEmail == "")
            && (forall k :: 0 <= k < |users| && users[k].id == l.readerId
                            && (forall i :: 0 <= i < k ==> users[i].id != l.readerId) ==>
                  v.readerName == users[k].fullName && v.readerPhone == users[k].phone
                  && v.readerEmail == users[k].email)
            && ((forall i :: 0 <= i < |books| ==> books[i].id != l.bookId) ==>
                  v.bookCode == "" && v.bookTitle == "" && v.bookAuthor == "")
            && (forall k :: 0 <= k < |books| && books[k].id == l.bookId
                            && (forall i :: 0 <= i < k ==> books[i].id != l.bookId) ==>
                  v.bookCode == books[k].code && v.bookTitle == books[k].title
                  && v.bookAuthor == books[k].author)
  {
    var u := UserIndex(users, l.readerId);
    var b := BookIndex(books, l.bookId);
    forall k | 0 <= k < |users| && users[k].id == l.readerId && (forall i :: 0 <= i < k ==> users[i].id != l.readerId)
      ensures k == u
    {
      assert u != -1 && u <= k;
    }
    forall k | 0 <= k < |books| && books[k].id == l.bookId && (forall i :: 0 <= i < k ==> books[i].id != l.bookId)
      ensures k == b
    {
      assert b != -1 && b <= k;
    }
  }

  /** A loan as its reader sees it: no book when no book has the loan's book id. */
  function ViewOfMyLoan(books: seq<Book>, l: Loan): (v: MyLoanView)
    ensures v.id == l.id && v.status == l.status && v.loanDate == l.loanDate
            && v.dueDate == l.dueDate && v.returnDate == l.returnDate
            && v.fineAmount == l.fineAmount
    ensures v.book.None? <==> forall i :: 0 <= i < |books| ==> books[i].id != l.bookId
    ensures forall k :: 0 <= k < |books| && books[k].id == l.bookId
                        && (forall i :: 0 <= i < k ==> books[i].id != l.bookId) ==>
              v.book == Some(books[k])
  {
    var b := BookIndex(books, l.bookId);
    MyLoanView(l.id, l.status, l.loanDate, l.dueDate, l.returnDate, l.fineAmount,
               if b == -1 then None else Some(books[b]))
  }

  /**
   * The reader's own loans, in table order: exactly the loans whose reader
   * id is this one.
   */
  function MyLoanListing(books: seq<Book>, loans: seq<Loan>, readerId: string): (out: seq<MyLoanView>)
    ensures |out| <= |loans|
    ensures forall v :: v in out <==>
              exists i :: 0 <= i < |loans| && loans[i].readerId == readerId && v == ViewOfMyLoan(books, loans[i])
  {
    if loans == [] then []
    else
      var init := loans[..|loans| - 1];
      var l := loans[|loans| - 1];
      var rest := MyLoanListing(books, init, readerId);
      assert forall i :: 0 <= i < |init| ==> init[i] == loans[i];
      if l.readerId == readerId then rest + [ViewOfMyLoan(books, l)] else rest
  }

  /**
   * out is the views of loans[idx[0]], loans[idx[1]], ... for strictly
   * increasing positions idx that are exactly this reader's loans: each
   * of them once, in table order, and nothing else.
   */
  predicate ListsReaderLoans(books: seq<Book>, loans: seq<Loan>, readerId: string, out: seq<MyLoanView>,
                             idx: seq<int>) {
    && |idx| == |out|
    && (forall j :: 0 <= j < |idx| ==>
          0 <= idx[j] < |loans| && loans[idx[j]].readerId == readerId
          && out[j] == ViewOfMyLoan(books, loans[idx[j]]))
    && (forall j, k :: 0 <= j < k < |idx| ==> idx[j] < idx[k])
    && (forall i :: 0 <= i < |loans| && loans[i].readerId == readerId ==> i in idx)
  }

  /** One more loan at the end of the table: the reader's list grows by its view exactly when it is the reader's. */
  lemma ExtendReaderLoans(books: seq<Book>, init: seq<Loan>, l: Loan, readerId: string, rest: seq<MyLoanView>,
                          idx: seq<int>)
    requires ListsReaderLoans(books, init, readerId, rest, idx)
    ensures l.readerId == readerId ==>
              ListsReaderLoans(books, init + [l], readerId, rest + [ViewOfMyLoan(books, l)], idx + [|init|])
    ensures l.readerId != readerId ==> ListsReaderLoans(books, init + [l], readerId, rest, idx)
  {
    var loans := init + [l];
    assert forall i :: 0 <= i < |init| ==> loans[i] == init[i];
    if l.readerId == readerId {
      var out, idx' := rest + [ViewOfMyLoan(books, l)], idx + [|init|];
      forall j | 0 <= j < |idx'|
        ensures 0 <= idx'[j] < |loans| && loans[idx'[j]].readerId == readerId
                && out[j] == ViewOfMyLoan(books, loans[idx'[j]])
      {
        if j < |idx| {
          assert idx'[j] == idx[j] && out[j] == rest[j];
        }
      }
      forall i | 0 <= i < |loans| && loans[i].readerId == readerId ensures i in idx' {
        if i < |init| {
          assert i in idx;
        } else {
          assert idx'[|idx|] == i;
        }
      }
    }
  }

  /** The positions the reader's list is drawn from: each of that reader's loans once, in table order. */
  lemma {:induction false} MyLoanListingIndices(books: seq<Book>, loans: seq<Loan>, readerId: string)
    returns (idx: seq<int>)
    ensures ListsReaderLoans(books, loans, readerId, MyLoanListing(books, loans, readerId), idx)
  {
    if loans == [] {
      idx := [];
      assert ListsReaderLoans(books, loans, readerId, MyLoanListing(books, loans, readerId), idx);
    } else {
      var init := loans[..|loans| - 1];
      var l := loans[|loans| - 1];
      var before := MyLoanListingIndices(books, init, readerId);
      var rest := MyLoanListing(books, init, readerId);
      ExtendReaderLoans(books, init, l, readerId, rest, before);
      assert init + [l] == loans;
      if l.readerId == readerId {
        idx := before + [|init|];
        assert MyLoanListing(books, loans, readerId) == rest + [ViewOfMyLoan(books, l)];
      } else {
        idx := before;
        assert MyLoanListing(books, loans, readerId) == rest;
      }
    }
  }

  /** The reader's list holds each of that reader's loans exactly once, in table order. */
  lemma {:induction false} MyLoanListingInOrder(books: seq<Book>, loans: seq<Loan>, readerId: string)
    ensures exists idx :: ListsReaderLoans(books, loans, readerId, MyLoanListing(books, loans, readerId), idx)
  {
    var idx := MyLoanListingIndices(books, loans, readerId);
  }
}
