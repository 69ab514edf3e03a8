/** The SQLite file behind app.py as the state of one object: the `users` and `transactions`
    tables, their AUTOINCREMENT counters (SQLite's `sqlite_sequence` rows) and whether the
    `transactions` table has its `user_id` column yet. */
module Store {
  import opened Dates
  import opened Tables

  /** What every state of the database file satisfies. */
  predicate TablesValid(users: seq<User>, transactions: seq<Transaction>, hasUserIdColumn: bool,
                        userSeq: nat, transactionSeq: nat)
  {
    && UniqueUsernames(users)
    && (forall i :: 0 <= i < |users| ==> 1 <= users[i].id <= userSeq)
    && (forall i, j :: 0 <= i < j < |users| ==> users[i].id < users[j].id)
    && (forall i :: 0 <= i < |transactions| ==> 1 <= transactions[i].id <= transactionSeq)
    && (forall i, j :: 0 <= i < j < |transactions| ==> transactions[i].id < transactions[j].id)
    && (forall i :: 0 <= i < |transactions| ==> transactions[i].userId.Some? == hasUserIdColumn)
    && AllDatesWellFormed(transactions)
  }

  class Database {
    /** hash_password: SHA-256 of the UTF-8 bytes, hex-encoded; left uninterpreted. */
    const hash: string -> string
    var users: seq<User>
    var transactions: seq<Transaction>
    var hasUserIdColumn: bool
    var userSeq: nat
    var transactionSeq: nat

    ghost predicate Valid()
      reads this
    {
      TablesValid(users, transactions, hasUserIdColumn, userSeq, transactionSeq)
    }

    /** Opens the database file in the state it was left in (`CREATE TABLE IF NOT EXISTS` keeps
        existing tables; a new file starts with both tables empty and no `user_id` column). */
    constructor Open(hash: string -> string, users: seq<User>, transactions: seq<Transaction>,
                     hasUserIdColumn: bool, userSeq: nat, transactionSeq: nat)
      requires TablesValid(users, transactions, hasUserIdColumn, userSeq, transactionSeq)
      ensures Valid()
      ensures this.hash == hash && this.users == users && this.transactions == transactions
      ensures this.hasUserIdColumn == hasUserIdColumn
      ensures this.userSeq == userSeq && this.transactionSeq == transactionSeq
    {
      this.hash := hash;
      this.users := users;
      this.transactions := transactions;
      this.hasUserIdColumn := hasUserIdColumn;
      this.userSeq := userSeq;
      this.transactionSeq := transactionSeq;
    }

    /** The startup upgrade: add `user_id` with default 0 when the column is missing. */
    method MigrateUserIdColumn()
      requires Valid()
      modifies this
      ensures Valid() && hasUserIdColumn
      ensures transactions == if old(hasUserIdColumn) then old(transactions) else AddUserIdColumn(old(transactions))
      ensures users == old(users) && userSeq == old(userSeq) && transactionSeq == old(transactionSeq)
    {
      if !hasUserIdColumn {
        AddUserIdColumnEffect(transactions);
        transactions := AddUserIdColumn(transactions);
        hasUserIdColumn := true;
      }
    }

    /** register_user: the INSERT fails with IntegrityError, and nothing changes, when the
        username is taken; otherwise one user with the next id and the hashed password is added. */
    method Register(username: string, password: string) returns (ok: bool)
      requires Valid()
      modifies this
      ensures Valid()
      ensures ok <==> !UsernameTaken(old(users), username)
      ensures ok ==> (users == old(users) + [User(old(userSeq) + 1, username, hash(password))]
                      && userSeq == old(userSeq) + 1)
      ensures !ok ==> users == old(users) && userSeq == old(userSeq)
      ensures transactions == old(transactions) && transactionSeq == old(transactionSeq)
      ensures hasUserIdColumn == old(hasUserIdColumn)
    {
      if UsernameTaken(users, username) {
        return false;
      }
      userSeq := userSeq + 1;
      users := users + [User(userSeq, username, hash(password))];
      ok := true;
    }

    /** login_user: the user with this username whose stored digest is hash(password), if any. */
    method Login(username: string, password: string) returns (user: Option<User>)
      requires Valid()
      ensures user.Some? <==> exists i :: 0 <= i < |users| && HasCredentials(users[i], username, hash(password))
      ensures user.Some? ==> user.value in users && HasCredentials(user.value, username, hash(password))
      ensures forall i :: 0 <= i < |users| && users[i].username == username && user.Some? ==> user == Some(users[i])
    {
      user := FindCredentials(users, username, hash(password));
      forall i | 0 <= i < |users| && users[i].username == username && user.Some?
        ensures user == Some(users[i])
      {
        var j :| 0 <= j < |users| && HasCredentials(users[j], username, hash(password));
        assert i == j;
        CredentialsDetermineUser(users, username, hash(password), i);
      }
    }

    /** The id of the logged-in user (`SELECT id FROM users WHERE username=?`). */
    method UserIdOf(username: string) returns (id: int)
      requires Valid() && UsernameTaken(users, username)
      ensures forall i :: 0 <= i < |users| && users[i].username == username ==> users[i].id == id
      ensures id >= 1
    {
      id := IdOf(users, username);
      forall i | 0 <= i < |users| && users[i].username == username
        ensures users[i].id == id
      {
        var j :| 0 <= j < |users| && users[j].username == username && users[j].id == id;
        assert i == j;
      }
    }

    /** The login-time `UPDATE transactions SET user_id=? WHERE user_id=0`. */
    method ReassignOrphans(owner: int)
      requires Valid() && hasUserIdColumn
      modifies this
      ensures Valid()
      ensures transactions == ClaimOrphans(old(transactions), owner)
      ensures users == old(users) && userSeq == old(userSeq) && transactionSeq == old(transactionSeq)
      ensures hasUserIdColumn
    {
      ClaimOrphansEffect(transactions, owner);
      transactions := ClaimOrphans(transactions, owner);
    }

    /** add_transaction: one row with the next id, the owner, `str(date)` and the given fields is appended. */
    method AddTransaction(userId: int, date: Date, kind: string, category: string, description: string, amount: real)
      requires Valid() && hasUserIdColumn && IsValidDate(date)
      modifies this
      ensures Valid()
      ensures transactions == old(transactions)
        + [Transaction(old(transactionSeq) + 1, Some(userId), IsoFormat(date), kind, category, description, amount)]
      ensures transactionSeq == old(transactionSeq) + 1
      ensures users == old(users) && userSeq == old(userSeq) && hasUserIdColumn
    {
      IsoFormatRoundTrip(date);
      transactionSeq := transactionSeq + 1;
      transactions := transactions
        + [Transaction(transactionSeq, Some(userId), IsoFormat(date), kind, category, description, amount)];
    }

    /** get_transactions: the WHERE clause is built one condition at a time, as the query string and
        its parameter list are, and the selected columns of the matching rows are returned. */
    method GetTransactions(userId: int, month: Option<int>, year: Option<int>) returns (rows: seq<Row>)
      requires Valid() && hasUserIdColumn
      ensures rows == Project(Selected(transactions, userId, month, year))
    {
      var conds := [OwnerIs(userId)];
      if Truthy(month) {
        conds := conds + [MonthIs(ZeroPad(month.value, 2))];
      }
      if Truthy(year) {
        conds := conds + [YearIs(Decimal(year.value))];
      }
      assert conds == QueryConditions(userId, month, year);
      QueryMatchesSelected(transactions, userId, month, year);
      rows := Project(Where(transactions, conds));
    }
  }

  /** Registering a name twice: the first call succeeds, the second fails, one user is added. */
  method RegisterTwice(db: Database, username: string, password: string) returns (first: bool, second: bool)
    requires db.Valid() && !UsernameTaken(db.users, username)
    modifies db
    ensures db.Valid()
    ensures first && !second && |db.users| == |old(db.users)| + 1
  {
    first := db.Register(username, password);
    assert db.users[|db.users| - 1].username == username;
    second := db.Register(username, password);
  }

  /** Running the startup upgrade twice leaves the tables as running it once does. */
  method MigrateTwice(db: Database)
    requires db.Valid()
    modifies db
    ensures db.Valid() && db.hasUserIdColumn
    ensures db.transactions == if old(db.hasUserIdColumn) then old(db.transactions) else AddUserIdColumn(old(db.transactions))
    ensures db.users == old(db.users) && db.userSeq == old(db.userSeq) && db.transactionSeq == old(db.transactionSeq)
  {
    db.MigrateUserIdColumn();
    db.MigrateUserIdColumn();
  }
}
