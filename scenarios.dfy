/**
 * Worked request sequences on small concrete ledgers, one request per
 * lemma, each stating the exact answer and the exact ledger after it.
 */
module Scenarios {
  import opened Text
  import opened Records
  import opened Tables
  import opened Ledger
  import opened Properties

  // ---------------------------------------------------------------------
  // Two copies, three readers

  function Reader(id: string): User {
    User(id, id, id, "5", "h", ReaderRole, "d0")
  }

  function Readers(): seq<User> {
    [Reader("U1"), Reader("U2"), Reader("U3")]
  }

  /** Book B1 with the given total and shelf count. */
  function B1(total: int, available: int): Book {
    Book("B1", "B1", "T", "A", 12, total, available, "d0")
  }

  function OpenLoan(id: string, readerId: string): Loan {
    Loan(id, readerId, "B1", "d1", "d7", "", Borrowed, 0)
  }

  lemma ScenarioCreate()
    ensures CreateBook(Dataset(Readers(), [], []), "B1", "T", "A", 12, 2, "d0")
            == Step(Ok(B1(2, 2)), Dataset(Readers(), [B1(2, 2)], []))
  {
    assert GenID("B", 1) == "B1";
    TrimSpaceKeepsTrimmed("B1");
  }

  lemma ScenarioBorrowFirst()
    ensures Borrow(Dataset(Readers(), [B1(2, 2)], []), "U1", "B1", "", "d1", "d7")
            == Step(Ok(OpenLoan("L1", "U1")), Dataset(Readers(), [B1(2, 1)], [OpenLoan("L1", "U1")]))
  {
    assert GenID("L", 1) == "L1";
    assert UserIndex(Readers(), "U1") == 0;
  }

  lemma ScenarioBorrowSecond()
    ensures Borrow(Dataset(Readers(), [B1(2, 1)], [OpenLoan("L1", "U1")]), "U2", "B1", "", "d1", "d7")
            == Step(Ok(OpenLoan("L2", "U2")),
                    Dataset(Readers(), [B1(2, 0)], [OpenLoan("L1", "U1"), OpenLoan("L2", "U2")]))
  {
    assert GenID("L", 2) == "L2";
    assert UserIndex(Readers(), "U2") == 1;
  }

  lemma ScenarioBorrowThird()
    ensures var db := Dataset(Readers(), [B1(2, 0)], [OpenLoan("L1", "U1"), OpenLoan("L2", "U2")]);
            Borrow(db, "U3", "B1", "", "d1", "d7") == Step(Err(OutOfStock), db)
  {
    assert UserIndex(Readers(), "U3") == 2;
  }

  lemma ScenarioReturn()
    ensures Return(Dataset(Readers(), [B1(2, 0)], [OpenLoan("L1", "U1"), OpenLoan("L2", "U2")]), "L1", "d2")
            == Step(Ok(OpenLoan("L1", "U1").(status := Returned, returnDate := "d2")),
                    Dataset(Readers(), [B1(2, 1)],
                            [OpenLoan("L1", "U1").(status := Returned, returnDate := "d2"), OpenLoan("L2", "U2")]))
  {
    assert LoanIndex([OpenLoan("L1", "U1"), OpenLoan("L2", "U2")], "L1") == 0;
  }

  lemma ScenarioLost()
    ensures var returned := OpenLoan("L1", "U1").(status := Returned, returnDate := "d2");
            MarkLost(Dataset(Readers(), [B1(2, 1)], [returned, OpenLoan("L2", "U2")]), "L2", None, "d3")
            == Step(Ok(OpenLoan("L2", "U2").(status := Lost, returnDate := "d3", fineAmount := 12)),
                    Dataset(Readers(), [B1(1, 1)],
                            [returned, OpenLoan("L2", "U2").(status := Lost, returnDate := "d3", fineAmount := 12)]))
  {
    var returned := OpenLoan("L1", "U1").(status := Returned, returnDate := "d2");
    assert "L1" != "L2";
    assert LoanIndex([returned, OpenLoan("L2", "U2")], "L2") == 1;
  }

  /**
   * Two copies of one book, three readers: two borrow, the third finds the
   * shelf empty, the first returns, the second loses the copy and is fined
   * the book's price, and the total drops to one.
   */
  lemma CatalogueScenario()
    ensures
      var s1 := CreateBook(Dataset(Readers(), [], []), "B1", "T", "A", 12, 2, "d0");
      var s2 := Borrow(s1.db, "U1", "B1", "", "d1", "d7");
      var s3 := Borrow(s2.db, "U2", "B1", "", "d1", "d7");
      var s4 := Borrow(s3.db, "U3", "B1", "", "d1", "d7");
      var s5 := Return(s4.db, "L1", "d2");
      var s6 := MarkLost(s5.db, "L2", None, "d3");
      && s1.result.Ok? && s1.db.books == [B1(2, 2)]
      && s2.result.Ok? && s2.result.value.status == Borrowed && s2.db.books == [B1(2, 1)]
      && s3.result.Ok? && s3.db.books == [B1(2, 0)]
      && s4 == Step(Err(OutOfStock), s3.db)
      && s5.result.Ok? && s5.result.value.status == Returned && s5.db.books == [B1(2, 1)]
      && s6.result.Ok? && s6.result.value.status == Lost && s6.result.value.fineAmount == 12
      && s6.db.books == [B1(1, 1)]
  {
    ScenarioCreate();
    ScenarioBorrowFirst();
    ScenarioBorrowSecond();
    ScenarioBorrowThird();
    ScenarioReturn();
    ScenarioLost();
  }

  // ---------------------------------------------------------------------
  // The bootstrap admin

  // The normalisation lemmas below each state one fact about a literal
  // string (its trim, its lower case, or both), so that every registration
  // step that uses them keeps its proof small.

  function Ann(): User {
    User("U1", "Ann", "a@x", "5", "h1", AdminRole, "d0")
  }

  lemma AnnEmailTrimmed()
    ensures TrimSpace(" A@x ") == "A@x"
  {
    assert " A@x " == [' '] + "A@x" + [' '];
    TrimSpaceUnpads(' ', "A@x", ' ');
  }

  lemma AnnEmailTailLower()
    ensures ToLower("@x") == "@x"
  {
    ToLowerKeepsLower("@x");
  }

  lemma AnnEmailLowered()
    ensures ToLower("A@x") == "a@x"
  {
    AnnEmailTailLower();
    assert LowerChar('A') == 'a';
    assert ToLower("A@x") == [LowerChar('A')] + ToLower("@x");
  }

  lemma AnnEmailNormalized()
    ensures NormalizeEmail(" A@x ") == "a@x"
  {
    AnnEmailTrimmed();
    AnnEmailLowered();
  }

  lemma AdminTrimmed()
    ensures TrimSpace("Admin") == "Admin"
  {
    TrimSpaceKeepsTrimmed("Admin");
  }

  lemma AdminTailLower()
    ensures ToLower("dmin") == "dmin"
  {
    ToLowerKeepsLower("dmin");
  }

  lemma AdminLowered()
    ensures ToLower("Admin") == AdminRole
  {
    AdminTailLower();
    assert LowerChar('A') == 'a';
    assert ToLower("Admin") == [LowerChar('A')] + ToLower("dmin");
  }

  lemma AdminRoleNormalized()
    ensures NormalizeRole("Admin") == AdminRole
  {
    AdminTrimmed();
    AdminLowered();
  }

  /** On an empty ledger every registration with its fields present succeeds as user U1. */
  lemma RegisterOnEmpty(fullName: string, email: string, phone: string, password: string, role: string,
                        hash: string, caller: Option<User>, today: string)
    requires RegisterFieldsPresent(fullName, email, phone, password)
    ensures var u := User("U1", fullName, NormalizeEmail(email), phone, hash, NormalizeRole(role), today);
            Register(Dataset([], [], []), fullName, email, phone, password, role, hash, caller, today)
            == Step(Ok(u), Dataset([u], [], []))
  {
    assert EmailIndex([], NormalizeEmail(email)) == -1;
    assert !AnyAdmin([]);
    assert GenID("U", 1) == "U1";
  }

  lemma BootstrapFirstAdmin()
    ensures Register(Dataset([], [], []), "Ann", " A@x ", "5", "pw", "Admin", "h1", None, "d0")
            == Step(Ok(Ann()), Dataset([Ann()], [], []))
  {
    AnnEmailNormalized();
    AdminRoleNormalized();
    RegisterOnEmpty("Ann", " A@x ", "5", "pw", "Admin", "h1", None, "d0");
  }

  lemma BobEmailTrimmed()
    ensures TrimSpace("b@x") == "b@x"
  {
    TrimSpaceKeepsTrimmed("b@x");
  }

  lemma BobEmailLowered()
    ensures ToLower("b@x") == "b@x"
  {
    ToLowerKeepsLower("b@x");
  }

  lemma BobEmailNormalized()
    ensures NormalizeEmail("b@x") == "b@x"
  {
    BobEmailTrimmed();
    BobEmailLowered();
  }

  lemma LowerAdminTrimmed()
    ensures TrimSpace("admin") == "admin"
  {
    TrimSpaceKeepsTrimmed("admin");
  }

  lemma LowerAdminLowered()
    ensures ToLower("admin") == "admin"
  {
    ToLowerKeepsLower("admin");
  }

  lemma LowerAdminNormalized()
    ensures NormalizeRole("admin") == AdminRole
  {
    LowerAdminTrimmed();
    LowerAdminLowered();
  }

  lemma BobEmailFree()
    ensures EmailIndex([Ann()], "b@x") == -1
  {
    ToLowerAt("a@x", 0);
    ToLowerAt("b@x", 0);
    assert !EqualFold("a@x", "b@x");
  }

  lemma BootstrapSecondAdmin(caller: Option<User>)
    ensures var db := Dataset([Ann()], [], []);
            var s := Register(db, "Bob", "b@x", "6", "pw", "admin", "h2", caller, "d1");
            && (CallerIsAdmin(caller) ==> s.result.Ok? && s.result.value.role == AdminRole)
            && (!CallerIsAdmin(caller) ==> s == Step(Err(AdminOnly), db))
  {
    BobEmailNormalized();
    LowerAdminNormalized();
    BobEmailFree();
    assert AnyAdmin([Ann()]) by { assert [Ann()][0].role == AdminRole; }
    AdminGate(Dataset([Ann()], [], []), "Bob", "b@x", "6", "pw", "admin", "h2", caller, "d1");
  }

  /**
   * The bootstrap rule: on an empty ledger anyone may register as admin
   * (email and role normalised); afterwards a second admin is refused
   * unless an admin is the caller.
   */
  lemma BootstrapAdminScenario(caller: Option<User>)
    ensures
      var s1 := Register(Dataset([], [], []), "Ann", " A@x ", "5", "pw", "Admin", "h1", None, "d0");
      var s2 := Register(s1.db, "Bob", "b@x", "6", "pw", "admin", "h2", caller, "d1");
      && s1.result.Ok? && s1.result.value.role == AdminRole && s1.result.value.email == "a@x"
      && (CallerIsAdmin(caller) <==> s2.result.Ok?)
      && (!CallerIsAdmin(caller) ==> s2 == Step(Err(AdminOnly), s1.db))
  {
    BootstrapFirstAdmin();
    BootstrapSecondAdmin(caller);
  }

  // ---------------------------------------------------------------------
  // Book ids after a delete

  /** A catalogued copy of a book with code c. */
  function OneCopyBook(id: string, c: string): Book {
    Book(id, TrimSpace(c), "T", "A", 1, 1, 1, "d0")
  }

  lemma IdsCreateTwo(c1: string, c2: string)
    requires TrimSpace(c1) != "" && TrimSpace(c2) != "" && !EqualFold(TrimSpace(c1), TrimSpace(c2))
    ensures var s1 := CreateBook(Dataset([], [], []), c1, "T", "A", 1, 1, "d0");
            && s1 == Step(Ok(OneCopyBook(GenID("B", 1), c1)), Dataset([], [OneCopyBook(GenID("B", 1), c1)], []))
            && CreateBook(s1.db, c2, "T", "A", 1, 1, "d0")
               == Step(Ok(OneCopyBook(GenID("B", 2), c2)),
                       Dataset([], [OneCopyBook(GenID("B", 1), c1), OneCopyBook(GenID("B", 2), c2)], []))
  {
  }

  lemma IdsDeleteFirst(b1: Book, b2: Book)
    requires b1.id == GenID("B", 1)
    ensures DeleteBook(Dataset([], [b1, b2], []), "B1") == Step(Ok(()), Dataset([], [b2], []))
  {
    assert GenID("B", 1) == "B1";
    assert BookIndex([b1, b2], "B1") == 0;
  }

  lemma IdsCreateAfterDelete(b2: Book, c3: string)
    requires TrimSpace(c3) != "" && !EqualFold(b2.code, TrimSpace(c3))
    ensures CreateBook(Dataset([], [b2], []), c3, "T", "A", 1, 1, "d0")
            == Step(Ok(OneCopyBook(GenID("B", 2), c3)), Dataset([], [b2, OneCopyBook(GenID("B", 2), c3)], []))
  {
  }

  /**
   * Book ids come from the table's length, so after a delete the next book
   * gets the id of the last one still catalogued: create two books, delete
   * the first, create a third, and two books are called "B2".
   */
  lemma BookIdRepeatsAfterDelete(c1: string, c2: string, c3: string)
    requires TrimSpace(c1) != "" && TrimSpace(c2) != "" && TrimSpace(c3) != ""
    requires !EqualFold(TrimSpace(c1), TrimSpace(c2)) && !EqualFold(TrimSpace(c2), TrimSpace(c3))
    ensures
      var s1 := CreateBook(Dataset([], [], []), c1, "T", "A", 1, 1, "d0");
      var s2 := CreateBook(s1.db, c2, "T", "A", 1, 1, "d0");
      var s3 := DeleteBook(s2.db, "B1");
      var s4 := CreateBook(s3.db, c3, "T", "A", 1, 1, "d0");
      && s1.result.Ok? && s2.result.Ok? && s3.result.Ok? && s4.result.Ok?
      && s4.db.books == [OneCopyBook(GenID("B", 2), c2), OneCopyBook(GenID("B", 2), c3)]
      && GenID("B", 2) == "B2"
  {
    IdsCreateTwo(c1, c2);
    IdsDeleteFirst(OneCopyBook(GenID("B", 1), c1), OneCopyBook(GenID("B", 2), c2));
    IdsCreateAfterDelete(OneCopyBook(GenID("B", 2), c2), c3);
    assert GenID("B", 2) == "B2";
  }
}
