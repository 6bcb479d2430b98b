/**
 * The Express application of index.js as one object: the `users` and
 * `transactions` tables, the next autoincrement id of `users`, and the
 * session's `user_id`, updated in place by the route handlers. Each handler
 * runs its checks step by step and returns at the first that fails; its
 * contract ties the new state and the answer to the step function of
 * module Finance, about which the properties are proved.
 */
module Server {
  import opened Wrappers
  import opened JsNumber
  import opened Helpers
  import opened Finance

  class App {
    var users: seq<User>
    var transactions: seq<Transaction>
    var nextUserId: nat
    var sessionUserId: Option<nat>

    /** The fields as one value of the state the step functions work on. */
    function State(): Ledger
      reads this
    {
      Ledger(users, transactions, nextUserId, sessionUserId)
    }

    ghost predicate Valid()
      reads this
    {
      Finance.Valid(State())
    }

    /** Empty tables, ids starting at 1, no one logged in. */
    constructor ()
      ensures State() == Initial && Valid()
    {
      users := [];
      transactions := [];
      nextUserId := 1;
      sessionUserId := None;
    }

    /** GET `/`: changes nothing. */
    method Home() returns (o: Outcome)
      ensures o == HomeStep(State())
    {
      var guard := LoginRequired(sessionUserId);
      if guard.RedirectTo? {
        return Redirect(guard.location);
      }
      var row := FindById(users, sessionUserId.value);
      if row.None? {
        return Rejected(MsgNoHomeUser);
      }
      return Render("index");
    }

    /** POST `/register`; `hashed` is what `bcrypt.hash` produced, `fault` what the insert reported. */
    method Register(username: Field, password: Field, confirmation: Field, hashed: string, fault: Option<DbFault>)
      returns (o: Outcome)
      requires Valid()
      modifies this
      ensures Valid()
      ensures (State(), o) == RegisterStep(old(State()), username, password, confirmation, hashed, fault)
    {
      RegisterKeepsValid(State(), username, password, confirmation, hashed, fault);
      if Falsy(username) {
        return Rejected(MsgNoUsername);
      }
      if Falsy(password) || Falsy(confirmation) {
        return Rejected(MsgNoPassword);
      }
      if password.value != confirmation.value {
        return Rejected(MsgMismatch);
      }
      match fault {
        case Some(UniqueConstraint) => return Rejected(MsgDuplicate);
        case Some(OtherFault) => return ServerError;
        case None =>
      }
      users := users + [NewUser(State(), username.value, hashed)];
      nextUserId := nextUserId + 1;
      return Redirect("/login");
    }

    /** POST `/login`; `compare` is `bcrypt.compare`. */
    method Login(username: Field, password: Field, compare: (string, string) -> bool) returns (o: Outcome)
      requires Valid()
      modifies this
      ensures Valid()
      ensures (State(), o) == LoginStep(old(State()), username, password, compare)
    {
      if Falsy(username) {
        return Rejected(MsgNoUsername);
      }
      if Falsy(password) {
        return Rejected(MsgNoPassword);
      }
      var rows := Matching(users, username.value);
      if |rows| != 1 {
        return Rejected(MsgBadLogin);
      }
      if !compare(password.value, rows[0].hash) {
        return Rejected(MsgBadLogin);
      }
      assert rows[0] in users;
      sessionUserId := Some(rows[0].id);
      return Redirect("/");
    }

    /** POST `/buy`; `lookup` is the price oracle, `now` the insert time. */
    method Buy(symbol: Field, sharesInput: Field, lookup: string -> Quote, now: int) returns (o: Outcome)
      requires Valid()
      modifies this
      ensures Valid()
      ensures (State(), o) == BuyStep(old(State()), symbol, sharesInput, lookup, now)
    {
      BuyKeepsValid(State(), symbol, sharesInput, lookup, now);
      var guard := LoginRequired(sessionUserId);
      if guard.RedirectTo? {
        return Redirect(guard.location);
      }
      if Falsy(symbol) {
        return Rejected(MsgNoSymbol);
      }
      var checked := CheckShares(sharesInput);
      if checked.None? {
        return Rejected(MsgBadShares);
      }
      BuyIsPurchase(State(), symbol, sharesInput, lookup, now);
      o := Purchase(symbol.value, checked.value, lookup(symbol.value), now);
    }

    /** The `try` block of POST `/buy`, for the quote the lookup answered. */
    method Purchase(symbol: string, shares: Num, quote: Quote, now: int) returns (o: Outcome)
      requires Valid() && sessionUserId.Some? && CheckedShares(shares)
      modifies this
      ensures Valid()
      ensures (State(), o) == Finance.Purchase(old(State()), symbol, shares, quote, now)
    {
      PurchaseKeepsValid(State(), symbol, shares, quote, now);
      var price := PriceOf(quote);
      var totalCost := Times(price, shares);
      var row := FindById(users, sessionUserId.value);
      if row.None? {
        return Rejected(MsgNoBuyer);
      }
      var buyer := users[row.value];
      if totalCost.Int? && totalCost.value > buyer.cash {
        return Rejected(MsgNoFunds);
      }
      if !totalCost.Int? {
        return Rejected(MsgLookupFailed);
      }
      var record := BuyRecord(State(), buyer, symbol, price.value, shares.value, now);
      transactions := transactions + [record];
      var cashNew := buyer.cash - totalCost.value;
      if cashNew == 0 {
        return Rejected(MsgCashNew);
      }
      users := SetCash(users, sessionUserId.value, cashNew);
      return Redirect("/");
    }
  }
}
