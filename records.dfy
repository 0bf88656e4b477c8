/**
 * The three tables of the library ledger and the values its operations
 * return. Roles and loan statuses stay strings, as in the stored data,
 * so that a table read from disk may hold any value there.
 */
module Records {

  /** Prices and fines are copied around, never computed with. */
  type Money = int

  const AdminRole: string := "admin"
  const ReaderRole: string := "reader"

  const Borrowed: string := "borrowed"
  const Returned: string := "returned"
  const Lost: string := "lost"

  datatype User = User(
    id: string,
    fullName: string,
    email: string,
    phone: string,
    passwordHash: string,
    role: string,
    createdAt: string)

  datatype Book = Book(
    id: string,
    code: string,
    title: string,
    author: string,
    price: Money,
    totalQty: int,
    availableQty: int,
    createdAt: string)

  datatype Loan = Loan(
    id: string,
    readerId: string,
    bookId: string,
    loanDate: string,
    dueDate: string,
    returnDate: string,
    status: string,
    fineAmount: Money)

  /** The whole data set, as it is saved to and loaded from disk. */
  datatype Dataset = Dataset(users: seq<User>, books: seq<Book>, loans: seq<Loan>)

  /** One constructor per way an operation can refuse. */
  datatype Error =
    | MissingFields     // register: a required field is empty
    | EmailExists       // register: the email is taken
    | AdminOnly         // register: a second admin needs an admin caller
    | InvalidFields     // create book: empty text or a quantity below 1
    | CodeExists        // create book: the code is taken
    | MissingId         // update or delete book: no id in the path
    | BookNotFound
    | InvalidTotal      // update book: a negative total
    | BookBorrowed      // delete book: a copy is out on loan
    | MissingIds        // borrow: no reader id or no book id
    | ReaderNotFound    // borrow: no such user, or not a reader
    | OutOfStock
    | LoanNotFound
    | LoanNotActive     // return or lost: the loan is already closed
    | Unauthorized      // my loans: no authenticated caller
    | ReaderOnly        // my loans: the caller is not a reader

  /** The HTTP status each refusal is answered with. */
  function HttpStatus(e: Error): (s: int)
    ensures s in {400, 401, 403, 404, 409}
    ensures s == 401 <==> e == Unauthorized
    ensures s == 403 <==> e == AdminOnly || e == ReaderOnly
    ensures s == 404 <==> e == BookNotFound || e == ReaderNotFound || e == LoanNotFound
    ensures s == 409 <==> e == EmailExists || e == CodeExists
  {
    match e
    case MissingFields | InvalidFields | MissingId | InvalidTotal | BookBorrowed
      | MissingIds | OutOfStock | LoanNotActive => 400
    case Unauthorized => 401
    case AdminOnly | ReaderOnly => 403
    case BookNotFound | ReaderNotFound | LoanNotFound => 404
    case EmailExists | CodeExists => 409
  }

  datatype Option<T> = None | Some(value: T) {
    function GetOr(default: T): T {
      if Some? then value else default
    }
  }

  datatype Result<T> = Ok(value: T) | Err(error: Error)

  /** What an operation answers, and the data set it leaves behind. */
  datatype Step<T> = Step(result: Result<T>, db: Dataset)

  /** A user as the user list shows it: everything but the password hash. */
  datatype UserView = UserView(
    id: string,
    fullName: string,
    email: string,
    phone: string,
    role: string,
    createdAt: string)

  /** A loan joined with its reader's and its book's current details. */
  datatype LoanView = LoanView(
    loan: Loan,
    readerName: string,
    readerPhone: string,
    readerEmail: string,
    bookCode: string,
    bookTitle: string,
    bookAuthor: string)

  /** A loan as its reader sees it, with the whole current book (if any). */
  datatype MyLoanView = MyLoanView(
    id: string,
    status: string,
    loanDate: string,
    dueDate: string,
    returnDate: string,
    fineAmount: Money,
    book: Option<Book>)
}
