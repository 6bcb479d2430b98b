/**
 * The route handlers of index.js as transitions of one application state:
 * the `users` table, the append-only `transactions` table and the session's
 * `user_id`. Each step returns the new state and what the handler answers.
 * Money is in integer cents.
 */
module Finance {
  import opened Wrappers
  import opened JsNumber
  import opened Helpers

  /** The `cash` column's default, 10000.00, in cents. */
  const DefaultCash: int := 1000000

  /** A form field of `req.body`: `None` when the field was not sent. */
  type Field = Option<string>

  /** `!field` in JavaScript: absent or the empty string. */
  predicate Falsy(f: Field) {
    f.None? || f.value == ""
  }

  /** A row of `users`; `cash` in cents. */
  datatype User = User(id: nat, username: string, hash: string, cash: int)

  /** A row of `transactions`: whose purchase, `type`, symbol as typed, unit price in cents, shares, time. */
  datatype Transaction = Transaction(
    id: nat, username: string, kind: string, symbol: string, price: int, shares: int, timestamp: int)

  /** What the price lookup answers: a price (in cents, from `toFixed(2)`) or an error object. */
  datatype Quote = Quoted(price: nat) | QuoteError(error: string)

  /** A failure the database reports when a user row is created. */
  datatype DbFault = UniqueConstraint | OtherFault

  /**
   * A handler's response: a redirect, a rendered view, an apology page
   * (status 400) with its message, or the 500 "Server error" reply.
   */
  datatype Outcome = Redirect(location: string) | Render(view: string) | Rejected(message: string) | ServerError

  datatype Ledger = Ledger(users: seq<User>, transactions: seq<Transaction>, nextUserId: nat, session: Option<nat>)

  const MsgNoUsername := "Must provide username!"
  const MsgNoPassword := "Must provide password!"
  const MsgMismatch := "The provided passwords must match!"
  const MsgDuplicate := "Username already exists!"
  const MsgBadLogin := "Invalid username and/or password!"
  const MsgNoSymbol := "Must provide symbol!"
  const MsgBadShares := "Must provide a valid amount of shares as an integer!"
  const MsgNoBuyer := "Error when trying to fetch the current user!"
  const MsgNoFunds := "Insufficient funds to complete purchase!"
  const MsgCashNew := "Could not calculate new cash amount for user, try again later!"
  const MsgLookupFailed := "Error when looking up symbol."
  const MsgNoHomeUser := "Error when trying to retrieve username from logged in user:"

  /** The state the application starts in: empty tables, no one logged in; ids start at 1. */
  const Initial := Ledger([], [], 1, None)

  /**
   * What the step functions rely on and keep: ids are at least 1 and below
   * the next id, strictly increasing in table order (so unique), cash is
   * never negative, and transaction ids follow insertion order.
   */
  ghost predicate Valid(l: Ledger) {
    && l.nextUserId >= 1
    && (forall k :: 0 <= k < |l.users| ==> 1 <= l.users[k].id < l.nextUserId)
    && (forall j, k :: 0 <= j < k < |l.users| ==> l.users[j].id < l.users[k].id)
    && (forall k :: 0 <= k < |l.users| ==> l.users[k].cash >= 0)
    && (forall k :: 0 <= k < |l.transactions| ==> l.transactions[k].id == k + 1)
  }

  // ---------------------------------------------------------------- queries

  /** `User.findOne({ where: { id } })`: the first row with that id. */
  function FindById(users: seq<User>, id: nat): (r: Option<nat>)
    ensures r.Some? ==> r.value < |users| && users[r.value].id == id
    ensures r.Some? ==> forall k :: 0 <= k < r.value ==> users[k].id != id
    ensures r.None? ==> forall k :: 0 <= k < |users| ==> users[k].id != id
  {
    if users == [] then None
    else if users[0].id == id then Some(0)
    else match FindById(users[1..], id)
      case None => None
      case Some(k) => Some(k + 1)
  }

  /** `User.findAll({ where: { username } })`: the matching rows in table order. */
  function Matching(users: seq<User>, name: string): (rows: seq<User>)
    ensures |rows| <= |users|
    ensures forall u :: u in rows ==> u in users && u.username == name
    ensures forall u :: u in users && u.username == name ==> u in rows
    ensures forall u :: multiset(rows)[u] == if u.username == name then multiset(users)[u] else 0
  {
    if users == [] then []
    else
      var last := users[|users| - 1];
      assert users == users[..|users| - 1] + [last];
      Matching(users[..|users| - 1], name) + (if last.username == name then [last] else [])
  }

  /** Exactly one row of `users` carries `name`. */
  predicate UniqueName(users: seq<User>, name: string) {
    exists k :: 0 <= k < |users| && users[k].username == name &&
      forall j :: 0 <= j < |users| && users[j].username == name ==> j == k
  }

  /** `findAll` answers one row exactly when one row of the table has the username. */
  lemma {:induction false} MatchingSingle(users: seq<User>, name: string)
    ensures |Matching(users, name)| == 1 <==> UniqueName(users, name)
  {
    if users != [] {
      var n := |users| - 1;
      var p := users[..n];
      MatchingLength(users, name);
      if users[n].username == name {
        if Matching(p, name) == [] {
          UniqueLast(users, name);
        } else {
          var u := Matching(p, name)[0];
          assert u in Matching(p, name);
          var i :| 0 <= i < n && p[i] == u;
          NotUnique(users, name, i, n);
        }
      } else {
        MatchingSingle(p, name);
        UniqueNamePrefix(users, name);
      }
    }
  }

  lemma MatchingLength(users: seq<User>, name: string)
    requires users != []
    ensures |Matching(users, name)| ==
      |Matching(users[..|users| - 1], name)| + if users[|users| - 1].username == name then 1 else 0
  {
  }

  /** The last row carries the name and no earlier row does. */
  lemma UniqueLast(users: seq<User>, name: string)
    requires users != [] && users[|users| - 1].username == name
    requires Matching(users[..|users| - 1], name) == []
    ensures UniqueName(users, name)
  {
    var n := |users| - 1;
    forall j | 0 <= j < n ensures users[j].username != name {
      assert users[..n][j] == users[j];
      assert users[j] in users[..n];
    }
    assert forall j :: 0 <= j < |users| && users[j].username == name ==> j == n;
  }

  /** Two distinct rows with the name. */
  lemma NotUnique(users: seq<User>, name: string, i: nat, k: nat)
    requires i < k < |users| && users[i].username == name && users[k].username == name
    ensures !UniqueName(users, name)
  {
    forall m | 0 <= m < |users| && users[m].username == name
      ensures !(forall j :: 0 <= j < |users| && users[j].username == name ==> j == m)
    {
      if m == i {
        assert users[k].username == name && k != m;
      } else {
        assert users[i].username == name && i != m;
      }
    }
  }

  /** When the last row lacks the name, uniqueness is decided by the rows before it. */
  lemma UniqueNamePrefix(users: seq<User>, name: string)
    requires users != [] && users[|users| - 1].username != name
    ensures UniqueName(users, name) <==> UniqueName(users[..|users| - 1], name)
  {
    if UniqueName(users, name) {
      UniqueNameShrinks(users, name);
    }
    if UniqueName(users[..|users| - 1], name) {
      UniqueNameGrows(users, name);
    }
  }

  lemma UniqueNameShrinks(users: seq<User>, name: string)
    requires users != [] && users[|users| - 1].username != name && UniqueName(users, name)
    ensures UniqueName(users[..|users| - 1], name)
  {
    var n := |users| - 1;
    var p := users[..n];
    var k :| 0 <= k < |users| && users[k].username == name &&
      forall j :: 0 <= j < |users| && users[j].username == name ==> j == k;
    assert k < n && p[k] == users[k];
    forall j | 0 <= j < n && p[j].username == name ensures j == k {
      assert p[j] == users[j];
    }
  }

  lemma UniqueNameGrows(users: seq<User>, name: string)
    requires users != [] && users[|users| - 1].username != name && UniqueName(users[..|users| - 1], name)
    ensures UniqueName(users, name)
  {
    var n := |users| - 1;
    var p := users[..n];
    var k :| 0 <= k < n && p[k].username == name &&
      forall j :: 0 <= j < n && p[j].username == name ==> j == k;
    assert users[k] == p[k];
    forall j | 0 <= j < |users| && users[j].username == name ensures j == k {
      if j < n { assert p[j] == users[j]; }
    }
  }

  /** `User.update({ cash }, { where: { id } })`: every row with that id gets the new cash. */
  function SetCash(users: seq<User>, id: nat, cash: int): (r: seq<User>)
    ensures |r| == |users|
    ensures forall k :: 0 <= k < |users| ==>
      r[k] == if users[k].id == id then users[k].(cash := cash) else users[k]
  {
    seq(|users|, k requires 0 <= k < |users| => if users[k].id == id then users[k].(cash := cash) else users[k])
  }

  // ---------------------------------------------------------------- GET /

  /** GET `/`: behind `loginRequired`; apology when the session's user is not in the table. */
  function HomeStep(l: Ledger): (o: Outcome)
    ensures o == Render("index") <==>
      LoggedIn(l.session) && exists k :: 0 <= k < |l.users| && l.users[k].id == l.session.value
    ensures o.Redirect? <==> !LoggedIn(l.session)
    ensures o.Redirect? ==> o.location == "/login"
    ensures LoggedIn(l.session) && o != Render("index") ==> o == Rejected(MsgNoHomeUser)
  {
    match LoginRequired(l.session)
    case RedirectTo(location) => Redirect(location)
    case Next =>
      if FindById(l.users, l.session.value).None? then Rejected(MsgNoHomeUser) else Render("index")
  }

  // ---------------------------------------------------------------- POST /register

  /** All three registration fields are present and non-empty. */
  predicate Filled(username: Field, password: Field, confirmation: Field) {
    !Falsy(username) && !Falsy(password) && !Falsy(confirmation)
  }

  /** The row `User.create` adds: the next id, the typed name, the hash, and the default cash. */
  function NewUser(l: Ledger, name: string, hashed: string): User {
    User(l.nextUserId, name, hashed, DefaultCash)
  }

  /**
   * POST `/register`. The checks run in order: username, then password and
   * confirmation, then their equality. `hashed` stands for what
   * `bcrypt.hash` produced; `fault` for a failure the database reports on
   * insert. The model of the users table declares no unique constraint,
   * but the table lives in an existing database file whose schema is not
   * part of this model; with `fault` absent a duplicate name is accepted.
   */
  function RegisterStep(l: Ledger, username: Field, password: Field, confirmation: Field,
                        hashed: string, fault: Option<DbFault>): (r: (Ledger, Outcome))
    ensures Falsy(username) ==> r == (l, Rejected(MsgNoUsername))
    ensures !Falsy(username) && (Falsy(password) || Falsy(confirmation)) ==> r == (l, Rejected(MsgNoPassword))
    ensures Filled(username, password, confirmation) && password.value != confirmation.value ==>
      r == (l, Rejected(MsgMismatch))
    ensures r.1 == Redirect("/login") <==>
      Filled(username, password, confirmation) && password.value == confirmation.value && fault.None?
    ensures r.1 == Redirect("/login") ==>
      r.0 == l.(users := l.users + [NewUser(l, username.value, hashed)], nextUserId := l.nextUserId + 1)
    ensures r.1 == Redirect("/login") ==> r.0.users[|l.users|].cash == DefaultCash
    ensures r.1 != Redirect("/login") ==> r.0 == l
  {
    if Falsy(username) then (l, Rejected(MsgNoUsername))
    else if Falsy(password) || Falsy(confirmation) then (l, Rejected(MsgNoPassword))
    else if password.value != confirmation.value then (l, Rejected(MsgMismatch))
    else match fault
      case Some(UniqueConstraint) => (l, Rejected(MsgDuplicate))
      case Some(OtherFault) => (l, ServerError)
      case None =>
        (l.(users := l.users + [NewUser(l, username.value, hashed)], nextUserId := l.nextUserId + 1),
         Redirect("/login"))
  }

  // ---------------------------------------------------------------- POST /login

  /**
   * POST `/login`. `compare` stands for `bcrypt.compare(password, hash)`.
   * Success needs exactly one row with the username and a matching
   * password, and sets the session's `user_id` to that row's id; any
   * failure leaves the state as it was.
   */
  function LoginStep(l: Ledger, username: Field, password: Field, compare: (string, string) -> bool): (r: (Ledger, Outcome))
    ensures r.1 == Redirect("/") <==>
      && !Falsy(username) && !Falsy(password)
      && |Matching(l.users, username.value)| == 1
      && compare(password.value, Matching(l.users, username.value)[0].hash)
    ensures r.1 == Redirect("/") ==> r.0 == l.(session := Some(Matching(l.users, username.value)[0].id))
    ensures r.1 != Redirect("/") ==> r.0 == l
    ensures r.1 != Redirect("/") ==> r.1.Rejected?
  {
    if Falsy(username) then (l, Rejected(MsgNoUsername))
    else if Falsy(password) then (l, Rejected(MsgNoPassword))
    else
      var rows := Matching(l.users, username.value);
      if |rows| != 1 then (l, Rejected(MsgBadLogin))
      else if !compare(password.value, rows[0].hash) then (l, Rejected(MsgBadLogin))
      else (l.(session := Some(rows[0].id)), Redirect("/"))
  }

  // ---------------------------------------------------------------- POST /buy

  /**
   * The guard of index.js:198 and the conversion of index.js:202: `None`
   * when the input is rejected, otherwise `parseInt(input)`. The guard
   * compares with `< 1`, which is false for NaN, so a NaN result passes.
   */
  function CheckShares(input: Field): (r: Option<Num>)
    ensures Falsy(input) ==> r.None?
    ensures !Falsy(input) && NumberIsNaN(input.value) ==> r.None?
    ensures r.Some? ==> r.value == ParseInt(input.value)
    ensures r.Some? && r.value.Int? ==> r.value.value >= 1
    ensures !Falsy(input) && !NumberIsNaN(input.value) && ParseInt(input.value).NaN? ==> r == Some(NaN)
    ensures !Falsy(input) && !NumberIsNaN(input.value) && ParseInt(input.value).Int? && ParseInt(input.value).value >= 1 ==>
      r == Some(ParseInt(input.value))
  {
    if Falsy(input) || NumberIsNaN(input.value) || LessThanOne(ParseInt(input.value)) then None
    else Some(ParseInt(input.value))
  }

  /** `price * shares` where an undefined price or a NaN count makes NaN. */
  function Times(price: Num, shares: Num): (r: Num)
    ensures r.Int? <==> price.Int? && shares.Int?
  {
    if price.Int? && shares.Int? then Int(price.value * shares.value) else NaN
  }

  /** The price as the handler sees it: `lookup_info.price`, undefined (NaN in arithmetic) on an error object. */
  function PriceOf(q: Quote): (r: Num)
    ensures r.Int? <==> q.Quoted?
    ensures q.Quoted? ==> r == Int(q.price)
  {
    if q.Quoted? then Int(q.price) else NaN
  }

  /** The row a buy inserts for `buyer`. */
  function BuyRecord(l: Ledger, buyer: User, symbol: string, price: int, shares: int, now: int): Transaction {
    Transaction(|l.transactions| + 1, buyer.username, "buy", symbol, price, shares, now)
  }

  /**
   * The two writes of a purchase by the user in row `k`: the new row of
   * `transactions`, then the buyer's cash lowered by `price * shares` on
   * every row with the buyer's id (the update filters on the id; in a valid
   * state that is row `k` alone).
   */
  function Commit(l: Ledger, k: nat, symbol: string, price: int, shares: int, now: int): (l': Ledger)
    requires k < |l.users|
    ensures |l'.transactions| == |l.transactions| + 1
    ensures l'.transactions[..|l.transactions|] == l.transactions
    ensures l'.transactions[|l.transactions|] == BuyRecord(l, l.users[k], symbol, price, shares, now)
    ensures |l'.users| == |l.users|
    ensures forall j :: 0 <= j < |l.users| && l.users[j].id == l.users[k].id ==>
      l'.users[j] == l.users[j].(cash := l.users[k].cash - price * shares)
    ensures forall j :: 0 <= j < |l.users| && l.users[j].id != l.users[k].id ==> l'.users[j] == l.users[j]
    ensures l'.session == l.session && l'.nextUserId == l.nextUserId
  {
    var buyer := l.users[k];
    l.(transactions := l.transactions + [BuyRecord(l, buyer, symbol, price, shares, now)],
       users := SetCash(l.users, buyer.id, buyer.cash - price * shares))
  }

  /**
   * POST `/buy` as written, up to the `try` block: `loginRequired`, then the
   * symbol check, then the share guard; `lookup` stands for the price
   * oracle and `now` for the insert time.
   */
  function BuyStep(l: Ledger, symbol: Field, sharesInput: Field, lookup: string -> Quote, now: int): (r: (Ledger, Outcome))
    ensures !LoggedIn(l.session) ==> r == (l, Redirect("/login"))
    ensures LoggedIn(l.session) && Falsy(symbol) ==> r == (l, Rejected(MsgNoSymbol))
    ensures LoggedIn(l.session) && !Falsy(symbol) && CheckShares(sharesInput).None? ==> r == (l, Rejected(MsgBadShares))
    ensures r.1 == Redirect("/") || r.1 == Rejected(MsgCashNew) ==>
      LoggedIn(l.session) && !Falsy(symbol) && CheckShares(sharesInput).Some?
    ensures r.1 != Redirect("/") && r.1 != Rejected(MsgCashNew) ==> r.0 == l
    ensures r.1 == Rejected(MsgCashNew) ==> Logged(l, r.0)
    ensures r.1 == Redirect("/login") || r.1 == Redirect("/") || r.1.Rejected?
  {
    match LoginRequired(l.session)
    case RedirectTo(location) => (l, Redirect(location))
    case Next =>
      if Falsy(symbol) then (l, Rejected(MsgNoSymbol))
      else match CheckShares(sharesInput)
        case None => (l, Rejected(MsgBadShares))
        case Some(shares) => Purchase(l, symbol.value, shares, lookup(symbol.value), now)
  }

  /** `l'` is `l` with one transaction row appended and nothing else changed. */
  predicate Logged(l: Ledger, l': Ledger) {
    && l'.users == l.users && l'.session == l.session && l'.nextUserId == l.nextUserId
    && |l'.transactions| == |l.transactions| + 1
    && l'.transactions[..|l.transactions|] == l.transactions
    && l'.transactions[|l.transactions|].id == |l.transactions| + 1
  }

  /**
   * The `try` block of POST `/buy`, for the session's user, a symbol, the
   * parsed shares and the lookup's answer. The buyer's row is read; a cost
   * above the cash is refused; the row is inserted (`Transaction.create`
   * refuses a NaN or undefined column, and the error lands in the catch);
   * then a new cash of zero is refused, after the row was inserted;
   * otherwise the buyer's cash is updated.
   */
  function Purchase(l: Ledger, symbol: string, shares: Num, quote: Quote, now: int): (r: (Ledger, Outcome))
    requires l.session.Some?
    ensures r.1 == Redirect("/") || r.1.Rejected?
    ensures r.1 != Redirect("/") && r.1 != Rejected(MsgCashNew) ==> r.0 == l
    ensures r.1 == Rejected(MsgCashNew) ==> Logged(l, r.0)
  {
    var price := PriceOf(quote);
    var totalCost := Times(price, shares);
    var id := l.session.value;
    match FindById(l.users, id)
    case None => (l, Rejected(MsgNoBuyer))
    case Some(k) =>
      var buyer := l.users[k];
      if totalCost.Int? && totalCost.value > buyer.cash then (l, Rejected(MsgNoFunds))
      else if !totalCost.Int? then (l, Rejected(MsgLookupFailed))
      else
        var cashNew := buyer.cash - totalCost.value;
        if cashNew == 0 then
          (l.(transactions := l.transactions + [BuyRecord(l, buyer, symbol, price.value, shares.value, now)]),
           Rejected(MsgCashNew))
        else (Commit(l, k, symbol, price.value, shares.value, now), Redirect("/"))
  }

  /** What the share guard lets through: NaN, or an integer of at least 1. */
  predicate CheckedShares(shares: Num) {
    shares.Int? ==> shares.value >= 1
  }

  /**
   * A purchase that succeeds had a quoted price p, integer shares n, and a
   * buyer row whose cash exceeds p * n, and it commits exactly that buy.
   */
  lemma PurchaseSucceeded(l: Ledger, symbol: string, shares: Num, quote: Quote, now: int)
    requires l.session.Some? && CheckedShares(shares)
    requires Purchase(l, symbol, shares, quote, now).1 == Redirect("/")
    ensures quote.Quoted? && shares.Int? && shares.value >= 1 && FindById(l.users, l.session.value).Some?
    ensures var k := FindById(l.users, l.session.value).value;
      && l.users[k].cash > quote.price * shares.value
      && Purchase(l, symbol, shares, quote, now).0 == Commit(l, k, symbol, quote.price, shares.value, now)
  {
    var k := FindById(l.users, l.session.value).value;
    assert Times(PriceOf(quote), shares).Int?;
  }

  /**
   * A buy that succeeds passed `loginRequired`, had a symbol, shares the
   * guard accepted as an integer of at least 1, a quoted price, and a buyer
   * whose cash exceeds the cost; it commits exactly that buy.
   */
  lemma BuySucceeded(l: Ledger, symbol: Field, sharesInput: Field, lookup: string -> Quote, now: int)
    requires BuyStep(l, symbol, sharesInput, lookup, now).1 == Redirect("/")
    ensures LoggedIn(l.session) && !Falsy(symbol) && CheckShares(sharesInput).Some?
    ensures var shares := CheckShares(sharesInput).value;
      var quote := lookup(symbol.value);
      && shares.Int? && shares.value >= 1 && shares == ParseInt(sharesInput.value)
      && quote.Quoted? && FindById(l.users, l.session.value).Some?
      && var k := FindById(l.users, l.session.value).value;
         && l.users[k].cash > quote.price * shares.value
         && BuyStep(l, symbol, sharesInput, lookup, now).0 == Commit(l, k, symbol.value, quote.price, shares.value, now)
         && BuyStep(l, symbol, sharesInput, lookup, now).0.users[k].cash > 0
  {
    PurchaseSucceeded(l, symbol.value, CheckShares(sharesInput).value, lookup(symbol.value), now);
  }

  /** Past the guards, a buy is the purchase of the shares the guard accepted. */
  lemma BuyIsPurchase(l: Ledger, symbol: Field, sharesInput: Field, lookup: string -> Quote, now: int)
    requires LoggedIn(l.session) && !Falsy(symbol) && CheckShares(sharesInput).Some?
    ensures BuyStep(l, symbol, sharesInput, lookup, now) ==
      Purchase(l, symbol.value, CheckShares(sharesInput).value, lookup(symbol.value), now)
  {
  }

  /** The share input "1" is accepted as one share. */
  lemma SharesOne()
    ensures CheckShares(Some("1")) == Some(Int(1))
  {
    OneIsInt();
  }

  /** Conversely, a buy that meets those conditions commits and redirects to `/`. */
  lemma BuyCommits(l: Ledger, symbol: Field, sharesInput: Field, lookup: string -> Quote, now: int, n: int, p: nat, k: nat)
    requires LoggedIn(l.session) && !Falsy(symbol)
    requires CheckShares(sharesInput) == Some(Int(n)) && lookup(symbol.value) == Quoted(p)
    requires FindById(l.users, l.session.value) == Some(k) && l.users[k].cash > p * n
    ensures BuyStep(l, symbol, sharesInput, lookup, now) == (Commit(l, k, symbol.value, p, n, now), Redirect("/"))
  {
  }

  /**
   * The ordering defect: when the cost equals the buyer's cash, the record
   * is inserted, the zero check then refuses the buy, and the cash stays
   * as it was.
   */
  lemma PurchaseExactCash(l: Ledger, symbol: string, n: int, p: nat, now: int, k: nat)
    requires l.session.Some? && FindById(l.users, l.session.value) == Some(k)
    requires l.users[k].cash == p * n
    ensures Purchase(l, symbol, Int(n), Quoted(p), now) ==
      (l.(transactions := l.transactions + [BuyRecord(l, l.users[k], symbol, p, n, now)]), Rejected(MsgCashNew))
  {
  }

  /** A cost above the buyer's cash is refused and changes nothing. */
  lemma PurchaseOverBudget(l: Ledger, symbol: string, n: int, p: nat, now: int, k: nat)
    requires l.session.Some? && FindById(l.users, l.session.value) == Some(k)
    requires l.users[k].cash < p * n
    ensures Purchase(l, symbol, Int(n), Quoted(p), now) == (l, Rejected(MsgNoFunds))
  {
  }

  /**
   * A NaN cost, from a failed lookup (an undefined price) or from NaN
   * shares, passes the funds check, and the insert of a row with a NaN or
   * missing column fails: the buy ends in the catch and nothing changes.
   */
  lemma PurchaseUndefinedCost(l: Ledger, symbol: string, shares: Num, quote: Quote, now: int)
    requires l.session.Some? && FindById(l.users, l.session.value).Some?
    requires quote.QuoteError? || shares.NaN?
    ensures Purchase(l, symbol, shares, quote, now) == (l, Rejected(MsgLookupFailed))
  {
  }

  /**
   * The share guard lets NaN through: `Number(".5")` is 0.5, so the input
   * passes the `isNaN` test, while `parseInt(".5")` reads no digit and is
   * NaN, which is not `< 1`. The cost is then NaN, the insert fails and the
   * logged-in buyer gets the lookup error instead of the share message.
   */
  lemma SharesGuardAdmitsNaN(l: Ledger, lookup: string -> Quote, now: int)
    requires LoggedIn(l.session) && FindById(l.users, l.session.value).Some?
    ensures CheckShares(Some(".5")) == Some(NaN)
    ensures BuyStep(l, Some("ACME"), Some(".5"), lookup, now) == (l, Rejected(MsgLookupFailed))
  {
    PointFiveIsNumber();
    PointFiveIsNotInt();
    assert CheckShares(Some(".5")) == Some(NaN);
    PurchaseUndefinedCost(l, "ACME", NaN, lookup("ACME"), now);
  }

  /** The share guard as intended: the `parseInt` result must be an integer of at least 1. */
  function CheckSharesIntended(input: Field): (r: Option<Num>)
    ensures r.Some? <==>
      !Falsy(input) && !NumberIsNaN(input.value) && ParseInt(input.value).Int? && ParseInt(input.value).value >= 1
    ensures r.Some? ==> r.value == ParseInt(input.value)
  {
    match CheckShares(input)
    case Some(NaN) => None
    case other => other
  }

  /** The `try` block of POST `/buy` without the zero test on the new cash. */
  function PurchaseIntended(l: Ledger, symbol: string, shares: Num, quote: Quote, now: int): (r: (Ledger, Outcome))
    requires l.session.Some?
    ensures r.1 == Redirect("/") || r.1.Rejected?
    ensures r.1 != Redirect("/") ==> r.0 == l
    ensures r.1 == Redirect("/") ==>
      && quote.Quoted? && shares.Int? && FindById(l.users, l.session.value).Some?
      && var k := FindById(l.users, l.session.value).value;
         && quote.price * shares.value <= l.users[k].cash
         && r.0 == Commit(l, k, symbol, quote.price, shares.value, now)
  {
    var price := PriceOf(quote);
    var totalCost := Times(price, shares);
    var id := l.session.value;
    match FindById(l.users, id)
    case None => (l, Rejected(MsgNoBuyer))
    case Some(k) =>
      var buyer := l.users[k];
      if totalCost.Int? && totalCost.value > buyer.cash then (l, Rejected(MsgNoFunds))
      else if !totalCost.Int? then (l, Rejected(MsgLookupFailed))
      else (Commit(l, k, symbol, price.value, shares.value, now), Redirect("/"))
  }

  /** POST `/buy` with both corrections: NaN shares refused, and a purchase of all the cash allowed. */
  function BuyStepIntended(l: Ledger, symbol: Field, sharesInput: Field, lookup: string -> Quote, now: int): (r: (Ledger, Outcome))
    ensures !LoggedIn(l.session) ==> r == (l, Redirect("/login"))
    ensures LoggedIn(l.session) && Falsy(symbol) ==> r == (l, Rejected(MsgNoSymbol))
    ensures LoggedIn(l.session) && !Falsy(symbol) && CheckSharesIntended(sharesInput).None? ==>
      r == (l, Rejected(MsgBadShares))
    ensures r.1 != Redirect("/") ==> r.0 == l
  {
    match LoginRequired(l.session)
    case RedirectTo(location) => (l, Redirect(location))
    case Next =>
      if Falsy(symbol) then (l, Rejected(MsgNoSymbol))
      else match CheckSharesIntended(sharesInput)
        case None => (l, Rejected(MsgBadShares))
        case Some(shares) => PurchaseIntended(l, symbol.value, shares, lookup(symbol.value), now)
  }

  /** With the corrected guard, ".5" is refused with the share message. */
  lemma IntendedRejectsNaNShares(l: Ledger, lookup: string -> Quote, now: int)
    requires LoggedIn(l.session)
    ensures BuyStepIntended(l, Some("ACME"), Some(".5"), lookup, now) == (l, Rejected(MsgBadShares))
  {
    PointFiveIsNumber();
    PointFiveIsNotInt();
  }

  /** With the corrected purchase, spending exactly all the cash succeeds and leaves zero. */
  lemma IntendedExactSpend(l: Ledger, symbol: string, n: int, p: nat, now: int, k: nat)
    requires l.session.Some? && FindById(l.users, l.session.value) == Some(k)
    requires l.users[k].cash == p * n
    ensures PurchaseIntended(l, symbol, Int(n), Quoted(p), now).1 == Redirect("/")
    ensures var l' := PurchaseIntended(l, symbol, Int(n), Quoted(p), now).0;
      && l'.transactions == l.transactions + [BuyRecord(l, l.users[k], symbol, p, n, now)]
      && l'.users[k].cash == 0
  {
  }

  /**
   * The corrected buy, route to commit: a buyer who spends exactly all the
   * cash gets both writes, the record and a cash of 0, and a redirect to `/`.
   */
  lemma IntendedBuyExactSpend(l: Ledger, symbol: Field, sharesInput: Field, lookup: string -> Quote, now: int,
                              n: int, p: nat, k: nat)
    requires LoggedIn(l.session) && !Falsy(symbol)
    requires CheckSharesIntended(sharesInput) == Some(Int(n)) && lookup(symbol.value) == Quoted(p)
    requires FindById(l.users, l.session.value) == Some(k) && l.users[k].cash == p * n
    ensures BuyStepIntended(l, symbol, sharesInput, lookup, now) == (Commit(l, k, symbol.value, p, n, now), Redirect("/"))
    ensures BuyStepIntended(l, symbol, sharesInput, lookup, now).0.users[k].cash == 0
  {
  }

  // ---------------------------------------------------------------- invariants

  /** Registration keeps the state valid. */
  lemma RegisterKeepsValid(l: Ledger, username: Field, password: Field, confirmation: Field,
                           hashed: string, fault: Option<DbFault>)
    requires Valid(l)
    ensures Valid(RegisterStep(l, username, password, confirmation, hashed, fault).0)
  {
    var r := RegisterStep(l, username, password, confirmation, hashed, fault);
    if r.1 == Redirect("/login") {
      var users := r.0.users;
      assert users == l.users + [NewUser(l, username.value, hashed)];
      forall j, k | 0 <= j < k < |users|
        ensures users[j].id < users[k].id
      {
        if k < |l.users| {
          assert users[j] == l.users[j] && users[k] == l.users[k];
        } else {
          assert users[j] == l.users[j];
        }
      }
    }
  }

  /** A login keeps the state valid. */
  lemma LoginKeepsValid(l: Ledger, username: Field, password: Field, compare: (string, string) -> bool)
    requires Valid(l)
    ensures Valid(LoginStep(l, username, password, compare).0)
  {
  }

  /** A committed purchase whose cost the buyer's cash covers keeps the state valid. */
  lemma CommitKeepsValid(l: Ledger, k: nat, symbol: string, p: nat, n: int, now: int)
    requires Valid(l) && k < |l.users| && 0 <= p * n <= l.users[k].cash
    ensures Valid(Commit(l, k, symbol, p, n, now))
  {
    var l' := Commit(l, k, symbol, p, n, now);
    assert forall j :: 0 <= j < |l.users| ==> l'.users[j].id == l.users[j].id;
  }

  /** A purchase keeps the state valid. */
  lemma PurchaseKeepsValid(l: Ledger, symbol: string, shares: Num, quote: Quote, now: int)
    requires Valid(l) && l.session.Some? && CheckedShares(shares)
    ensures Valid(Purchase(l, symbol, shares, quote, now).0)
  {
    var r := Purchase(l, symbol, shares, quote, now);
    if r.1 == Redirect("/") {
      PurchaseSucceeded(l, symbol, shares, quote, now);
      var k := FindById(l.users, l.session.value).value;
      CommitKeepsValid(l, k, symbol, quote.price, shares.value, now);
    } else if r.1 == Rejected(MsgCashNew) {
      assert forall j :: 0 <= j < |l.transactions| ==> r.0.transactions[j] == l.transactions[j];
    }
  }

  /** The buy as written keeps the state valid. */
  lemma BuyKeepsValid(l: Ledger, symbol: Field, sharesInput: Field, lookup: string -> Quote, now: int)
    requires Valid(l)
    ensures Valid(BuyStep(l, symbol, sharesInput, lookup, now).0)
  {
    if LoggedIn(l.session) && !Falsy(symbol) && CheckShares(sharesInput).Some? {
      PurchaseKeepsValid(l, symbol.value, CheckShares(sharesInput).value, lookup(symbol.value), now);
    }
  }

  // ---------------------------------------------------------------- bookkeeping

  /** What the recorded buys under `name` cost in total. */
  function Spent(ts: seq<Transaction>, name: string): int {
    if ts == [] then 0
    else
      var t := ts[|ts| - 1];
      Spent(ts[..|ts| - 1], name) + (if t.username == name then t.price * t.shares else 0)
  }

  lemma SpentAppend(ts: seq<Transaction>, t: Transaction, name: string)
    ensures Spent(ts + [t], name) == Spent(ts, name) + (if t.username == name then t.price * t.shares else 0)
  {
    assert (ts + [t])[..|ts|] == ts;
  }

  /** Nothing is spent under a name no row carries. */
  lemma {:induction false} SpentNone(ts: seq<Transaction>, name: string)
    requires forall k :: 0 <= k < |ts| ==> ts[k].username != name
    ensures Spent(ts, name) == 0
  {
    if ts != [] {
      SpentNone(ts[..|ts| - 1], name);
    }
  }

  function Names(users: seq<User>): set<string> {
    set k | 0 <= k < |users| :: users[k].username
  }

  /**
   * The books balance: usernames are distinct, every user's cash is the
   * default cash less what that user's recorded buys cost, and every
   * recorded buy belongs to a user.
   */
  ghost predicate Consistent(l: Ledger) {
    && (forall j, k :: 0 <= j < k < |l.users| ==> l.users[j].username != l.users[k].username)
    && (forall k :: 0 <= k < |l.users| ==> l.users[k].cash == DefaultCash - Spent(l.transactions, l.users[k].username))
    && (forall k :: 0 <= k < |l.transactions| ==> l.transactions[k].username in Names(l.users))
  }

  lemma InitialConsistent()
    ensures Valid(Initial) && Consistent(Initial)
  {
  }

  /** Registering a name not yet taken keeps the books balanced. */
  lemma RegisterKeepsConsistent(l: Ledger, username: Field, password: Field, confirmation: Field,
                                hashed: string, fault: Option<DbFault>)
    requires Consistent(l)
    requires !Falsy(username) ==> username.value !in Names(l.users)
    ensures Consistent(RegisterStep(l, username, password, confirmation, hashed, fault).0)
  {
    var r := RegisterStep(l, username, password, confirmation, hashed, fault);
    if r.1 == Redirect("/login") {
      var name := username.value;
      var users := r.0.users;
      assert users == l.users + [NewUser(l, name, hashed)];
      forall k | 0 <= k < |l.transactions|
        ensures l.transactions[k].username != name
      {
        assert l.transactions[k].username in Names(l.users);
      }
      SpentNone(l.transactions, name);
      forall k | 0 <= k < |l.users|
        ensures l.users[k].username != name
      {
        assert l.users[k].username in Names(l.users);
      }
      forall k | 0 <= k < |l.transactions|
        ensures l.transactions[k].username in Names(users)
      {
        var j :| 0 <= j < |l.users| && l.users[j].username == l.transactions[k].username;
        assert users[j] == l.users[j];
      }
    }
  }

  /**
   * When the database accepts a duplicate name (`fault` absent), registering
   * a name already taken succeeds: the state stays valid, but two rows now share
   * the name, the books no longer balance (records are kept by username),
   * and neither user can log in, since login needs exactly one row.
   */
  lemma DuplicateRegisterLocksOut(l: Ledger, username: Field, password: Field, hashed: string,
                                  compare: (string, string) -> bool)
    requires Valid(l) && Consistent(l)
    requires !Falsy(username) && !Falsy(password) && username.value in Names(l.users)
    ensures var r := RegisterStep(l, username, password, password, hashed, None);
      && r.1 == Redirect("/login") && Valid(r.0) && !Consistent(r.0)
      && LoginStep(r.0, username, password, compare) == (r.0, Rejected(MsgBadLogin))
  {
    var r := RegisterStep(l, username, password, password, hashed, None);
    RegisterKeepsValid(l, username, password, password, hashed, None);
    var users := r.0.users;
    var i :| 0 <= i < |l.users| && l.users[i].username == username.value;
    assert users == l.users + [NewUser(l, username.value, hashed)];
    assert users[i] == l.users[i] && users[|l.users|].username == username.value;
    NotUnique(users, username.value, i, |l.users|);
    LoginNeedsUniqueName(r.0, username, password, compare);
  }

  /** Login is refused, and changes nothing, unless exactly one row carries the username. */
  lemma LoginNeedsUniqueName(l: Ledger, username: Field, password: Field, compare: (string, string) -> bool)
    requires !Falsy(username) && !Falsy(password) && !UniqueName(l.users, username.value)
    ensures LoginStep(l, username, password, compare) == (l, Rejected(MsgBadLogin))
  {
    MatchingSingle(l.users, username.value);
  }

  /** No row matches a name no row carries. */
  lemma {:induction false} MatchingNone(users: seq<User>, name: string)
    requires forall k :: 0 <= k < |users| ==> users[k].username != name
    ensures Matching(users, name) == []
  {
    if users != [] {
      MatchingNone(users[..|users| - 1], name);
    }
  }

  /**
   * A user who registers a name not yet taken can then log in with the
   * same password (when `compare` accepts it against the stored hash), and
   * the session then holds the new row's id.
   */
  lemma RegisterThenLogin(l: Ledger, username: Field, password: Field, hashed: string,
                          compare: (string, string) -> bool)
    requires !Falsy(username) && !Falsy(password) && username.value !in Names(l.users)
    requires compare(password.value, hashed)
    ensures var l' := RegisterStep(l, username, password, password, hashed, None).0;
      LoginStep(l', username, password, compare) == (l'.(session := Some(l.nextUserId)), Redirect("/"))
  {
    var name := username.value;
    var u := NewUser(l, name, hashed);
    var l' := RegisterStep(l, username, password, password, hashed, None).0;
    assert l'.users == l.users + [u];
    assert (l.users + [u])[..|l.users|] == l.users;
    forall k | 0 <= k < |l.users|
      ensures l.users[k].username != name
    {
      assert l.users[k].username in Names(l.users);
    }
    MatchingNone(l.users, name);
  }

  /** A committed purchase by the buyer in row `k` keeps the books balanced. */
  lemma CommitKeepsConsistent(l: Ledger, k: nat, symbol: string, p: nat, n: int, now: int)
    requires Valid(l) && Consistent(l) && k < |l.users|
    ensures Consistent(Commit(l, k, symbol, p, n, now))
  {
    var buyer := l.users[k];
    var t := BuyRecord(l, buyer, symbol, p, n, now);
    var l' := Commit(l, k, symbol, p, n, now);
    assert l'.transactions == l.transactions + [t];
    forall j | 0 <= j < |l.users|
      ensures l'.users[j].username == l.users[j].username
      ensures l'.users[j].cash == DefaultCash - Spent(l'.transactions, l'.users[j].username)
    {
      SpentAppend(l.transactions, t, l.users[j].username);
      if j < k {
        assert l.users[j].id < buyer.id;
      } else if j > k {
        assert l.users[j].id > buyer.id;
      }
    }
    assert Names(l'.users) == Names(l.users);
    assert buyer.username in Names(l.users);
  }

  /** The corrected purchase keeps the state valid and the books balanced. */
  lemma PurchaseIntendedKeepsConsistent(l: Ledger, symbol: string, shares: Num, quote: Quote, now: int)
    requires Valid(l) && Consistent(l) && l.session.Some? && CheckedShares(shares)
    ensures var l' := PurchaseIntended(l, symbol, shares, quote, now).0; Valid(l') && Consistent(l')
  {
    var r := PurchaseIntended(l, symbol, shares, quote, now);
    if r.1 == Redirect("/") {
      var k := FindById(l.users, l.session.value).value;
      assert Times(PriceOf(quote), shares).Int?;
      assert r.0 == Commit(l, k, symbol, quote.price, shares.value, now);
      CommitKeepsValid(l, k, symbol, quote.price, shares.value, now);
      CommitKeepsConsistent(l, k, symbol, quote.price, shares.value, now);
    }
  }

  /** The corrected buy keeps the state valid and the books balanced on every input. */
  lemma IntendedBuyKeepsConsistent(l: Ledger, symbol: Field, sharesInput: Field, lookup: string -> Quote, now: int)
    requires Valid(l) && Consistent(l)
    ensures var l' := BuyStepIntended(l, symbol, sharesInput, lookup, now).0; Valid(l') && Consistent(l')
  {
    if LoggedIn(l.session) && !Falsy(symbol) && CheckSharesIntended(sharesInput).Some? {
      PurchaseIntendedKeepsConsistent(l, symbol.value, CheckSharesIntended(sharesInput).value, lookup(symbol.value), now);
    }
  }

  /**
   * The buy as written keeps the books balanced, except when it refuses a
   * purchase of exactly all the cash after inserting its row.
   */
  lemma BuyKeepsConsistent(l: Ledger, symbol: Field, sharesInput: Field, lookup: string -> Quote, now: int)
    requires Valid(l) && Consistent(l)
    requires BuyStep(l, symbol, sharesInput, lookup, now).1 != Rejected(MsgCashNew)
    ensures Consistent(BuyStep(l, symbol, sharesInput, lookup, now).0)
  {
    var r := BuyStep(l, symbol, sharesInput, lookup, now);
    if r.1 == Redirect("/") {
      BuySucceeded(l, symbol, sharesInput, lookup, now);
      var k := FindById(l.users, l.session.value).value;
      CommitKeepsConsistent(l, k, symbol.value, lookup(symbol.value).price, CheckShares(sharesInput).value.value, now);
    }
  }

  /**
   * The ordering defect breaks the books: when a buyer with cash spends
   * exactly all of it, the row is recorded, the buy is refused, and the
   * buyer's cash no longer matches what the records say was spent.
   */
  lemma ExactSpendBreaksConsistency(l: Ledger, symbol: Field, sharesInput: Field, lookup: string -> Quote, now: int,
                                    n: int, p: nat, k: nat)
    requires Valid(l) && Consistent(l)
    requires LoggedIn(l.session) && !Falsy(symbol)
    requires CheckShares(sharesInput) == Some(Int(n)) && lookup(symbol.value) == Quoted(p)
    requires FindById(l.users, l.session.value) == Some(k) && l.users[k].cash == p * n && p * n > 0
    ensures BuyStep(l, symbol, sharesInput, lookup, now).1 == Rejected(MsgCashNew)
    ensures BuyStep(l, symbol, sharesInput, lookup, now).0.users == l.users
    ensures !Consistent(BuyStep(l, symbol, sharesInput, lookup, now).0)
  {
    BuyIsPurchase(l, symbol, sharesInput, lookup, now);
    PurchaseExactCash(l, symbol.value, n, p, now, k);
    var buyer := l.users[k];
    var t := BuyRecord(l, buyer, symbol.value, p, n, now);
    SpentAppend(l.transactions, t, buyer.username);
  }

  /**
   * Those conditions can be met: alice, with the default cash, buys one
   * share (the input "1", by `SharesOne`) of a symbol priced at exactly
   * that cash.
   */
  lemma ExactSpendExample(l: Ledger)
    requires l == Ledger([User(1, "alice", "h", DefaultCash)], [], 2, Some(1))
    ensures Valid(l) && Consistent(l) && LoggedIn(l.session)
    ensures FindById(l.users, l.session.value) == Some(0) && l.users[0].cash == DefaultCash * 1 > 0
  {
  }
}
