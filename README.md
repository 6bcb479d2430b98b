# CS50 Finance (Node rewrite): accounts, buying, and the apology escaper

This project models the business logic of a small stock-trading web
application written with Express and Sequelize, and proves properties of
that model in Dafny 4.11.

The application keeps a `users` table (id, username, password hash, cash),
an append-only `transactions` table and a session `user_id`. The model
covers four of its route handlers: register, log in, the home page, and buy
shares of a symbol at a price from an external quote service. Most rejected
requests are answered with an "apology" page; a database failure during
registration other than a duplicate name is answered with a 500 "Server
error" reply instead. The apology's message goes through `escape`,
a fixed list of eight global character substitutions, and each
substitution's search text is first passed through `escapeRegExp`.

The model has these modules:

- `RegExpEscape` (`regexp_escape.dfy`) is `escapeRegExp` of utils.js. It is a
  pure function with a per-character characterisation, a length law, a
  round trip through `Unescape`, and the exact condition under which it is
  the identity.
- `Helpers` (`helpers.dfy`) holds three parts of helpers.js:
  - `escape`, as a method whose loop applies the replacement list in order.
    It is proved equal to an independent per-character map, `EscapeEach`,
    about which length and safety are proved.
  - `apology`'s page fields.
  - The `loginRequired` guard.
- `JsNumber` (`js_number.dfy`) holds the two JavaScript conversions the
  share check uses, for string arguments:
  - `isNaN(Number(s))`, through the StringNumericLiteral grammar of the
    ECMAScript language specification (section 7.1.4.1).
  - `parseInt(s)` without a radix (section 19.2.5).
- `Finance` (`finance.dfy`) holds the handlers of index.js as step functions
  on one state value, `Ledger`. Each step returns the new state and the
  handler's answer: a redirect, a rendered view, `Rejected(message)` for an
  apology, or `ServerError` for the 500 reply. The module also proves the
  properties of the steps and of sequences of steps:
  - Rejections leave the state unchanged, with one exception: the buy
    refused because the new cash is zero has already appended its record.
  - Validity is preserved.
  - A bookkeeping invariant, `Consistent`, says that usernames are distinct
    and every user's cash equals the default cash less what that user's
    recorded buys cost. It is preserved by registering a name not yet
    taken and by every buy except that zero-cash refusal. Registering a
    name already taken, when the database accepts the duplicate, breaks
    it, and then neither user can log in.
  - The two defects under "## Findings" are exhibited, and the corrected
    definitions are given with their proofs.
- `Server` (`app.dfy`) holds the class `App`. Its fields are the two tables,
  the next autoincrement id and the session user id. Its methods `Register`,
  `Login` and `Buy` (with `Purchase`, the handler's `try` block) update the
  fields step by step with early returns, as the handlers do. Each
  method's contract ties its new state and answer to the step function of
  `Finance` and keeps `Valid()`.

Money is integer cents. The default cash 10000.00 is `DefaultCash = 1000000`.
The quote service, `bcrypt.hash`, `bcrypt.compare`, the insert time and
the database's failure on registration are parameters: `lookup`, `hashed`,
`compare`, `now` and `fault`. The `users` table is a sequence of rows in
insertion order, because `findAll` returns rows in that order and login reads
`rows[0]`. Ids are autoincrement, starting at 1.

`App.Buy` follows index.js as written, defects included. The corrected buy,
`Finance.BuyStepIntended`, is what the invariant `Consistent` is proved for
on every input.

## Model

| member | source | states |
|---|---|---|
| RegExpEscape.EscapeRegExp | utils.js:2-4 | the output is as long as the input plus the number of metacharacters in it |
| RegExpEscape.CountMetaZero | utils.js:3 | the metacharacter count is zero exactly when the string has no metacharacter |
| RegExpEscape.EscapeRegExpAt | utils.js:3 | an input metacharacter appears in the output right after one backslash, and any other character appears unchanged, at the position `OutPos(s, i)` |
| RegExpEscape.UnescapeEscapeRegExp | utils.js:3 | dropping each inserted backslash gives back the original string |
| RegExpEscape.EscapeRegExpIdentity | utils.js:3 | `escapeRegExp(s) == s` if and only if `s` has no metacharacter |
| Helpers.EscapedCharIsLiteral | helpers.js:15 | the pattern built from `escapeRegExp(c)` matches exactly the one character `c` |
| Helpers.RulePatterns | helpers.js:11-15 | escapeRegExp leaves every old text of the list unchanged except `?`, which becomes `\?` |
| Helpers.ReplaceAll | helpers.js:15 | a global replace of a character the string lacks returns the string unchanged |
| Helpers.Escape | helpers.js:5-18 | a non-string is returned unchanged; for a string, the eight substitutions applied in list order give exactly `EscapeEach` of it |
| Helpers.EscapeEach | helpers.js:10-17 | mapping each character independently never shortens the string |
| Helpers.RulesInOrder | helpers.js:10-16 | the list applied to a string is the eight global replacements nested in the listed order |
| Helpers.ReplaceAllConcat | helpers.js:15 | a global one-character replacement distributes over concatenation |
| Helpers.ApplyRulesConcat | helpers.js:14-16 | the whole list of replacements distributes over concatenation |
| Helpers.EscapeOneChar | helpers.js:10-16 | one character run through the whole list gives its own replacement (`-` to `--`, space to `-`, and so on), or stays itself when no rule names it: no rule's output is matched by a later rule |
| Helpers.EscapeOther | helpers.js:10-16 | a character that no rule names passes through all eight rules unchanged |
| Helpers.EscapeIsPerCharacter | helpers.js:10-17 | the sequential rewriting equals the per-character map on every string |
| Helpers.EscapeEachSafe | helpers.js:11 | the escaped text contains none of `?`, `%`, `#`, `/`, `"` or space |
| Helpers.DashRuleBeforeSpaceRule | helpers.js:11 | in the listed order a space becomes one `-`; with the space rule first it would become `--` |
| Helpers.EscapeNotInjective | helpers.js:11 | `"- "` and `" -"` escape to the same `"---"`, so escape cannot be inverted |
| Helpers.Apology | helpers.js:20-23 | the status and `top` are `code` (400 unless given), the title is "Error", and the bottom text is the escaped message (a non-string unchanged) |
| Helpers.LoginRequired | helpers.js:26-31 | `next` is called exactly when the session has a truthy user id; otherwise the request is redirected to `/login` |
| JsNumber.NumberIsNaN | index.js:198 | `isNaN(Number(s))` by the StringNumericLiteral grammar; the empty string and white space alone convert to 0 and are not NaN |
| JsNumber.ParseInt | index.js:198-202 | `parseInt(s)` by its ECMAScript steps; a string with no decimal digit is NaN, and a negative result comes only from a leading `-`; see also `ParseIntUnsigned` and `ParseIntPrefix` |
| JsNumber.TrimStart | index.js:198 | the result is a suffix of the input that starts with no white space, and everything dropped is white space |
| JsNumber.TrimEnd | index.js:198 | the result is a prefix of the input that ends with no white space, and everything dropped is white space |
| JsNumber.DigitPrefix | index.js:202 | the length of the longest run of radix digits at the start of the string |
| JsNumber.ParseIntUnsigned | index.js:202 | on a string with no leading white space or sign and no hex prefix, `parseInt` is NaN when no digit leads, and otherwise the value of the leading digits |
| JsNumber.ParseIntPrefix | index.js:202 | `parseInt` of decimal digits followed by a non-digit is the value of those digits |
| JsNumber.PointFiveIsNumber | index.js:198 | `Number(".5")` is not NaN |
| JsNumber.PointFiveIsNotInt | index.js:202 | `parseInt(".5")` is NaN |
| JsNumber.OneIsInt | index.js:198-202 | `Number("1")` is not NaN and `parseInt("1")` is 1 |
| Finance.FindById | index.js:67-71 | the first row with the id, or none when no row has it |
| Finance.Matching | index.js:107-111 | the rows with the username: each row of the table with that name occurs in the result exactly as often as in the table, and no other row occurs |
| Finance.MatchingSingle | index.js:107-115 | `findAll` answers exactly one row if and only if exactly one row of the table carries the username |
| Finance.LoginNeedsUniqueName | index.js:107-115 | with both fields given, a login for a name that no row or several rows carry is refused with the invalid-login message and changes nothing |
| Finance.SetCash | index.js:243-246 | every row with the id gets the new cash, and every other row is unchanged |
| Finance.HomeStep | index.js:65-83 | behind the guard, the index view is rendered exactly when the session's user has a row; otherwise the apology about the missing user is returned |
| Finance.RegisterStep | index.js:142-185 | the checks run in order (username, then password and confirmation, then equality), each with its message; success happens exactly when all pass and the insert reports no fault, and adds one row with the next id and the default cash 10000.00; every other outcome leaves the state unchanged |
| Finance.LoginStep | index.js:100-133 | success happens exactly when both fields are present, exactly one row has the username and the password matches its hash; success sets the session id to that row's id; on failure nothing changes and the answer is an apology |
| Finance.CheckShares | index.js:198-202 | an absent, empty or Number-NaN input is refused; an input that `Number` reads and whose `parseInt` is an integer of at least 1 is accepted as that integer; accepted shares are always `parseInt` of the input, at least 1 when an integer; an input that `Number` reads but `parseInt` does not passes as NaN |
| Finance.PriceOf | index.js:212 | `lookup_info.price` is a number exactly when the lookup quoted a price, and then it is that price; on an error object it is undefined (NaN in arithmetic) |
| Finance.Times | index.js:214 | the cost is a number exactly when both the price and the shares are |
| Finance.Commit | index.js:231-246 | one record is appended with the buyer's username, `buy`, the symbol as typed, the price and the shares; every row with the buyer's id gets the buyer's cash less the cost; earlier records, other users, the session and the next id are unchanged |
| Finance.BuyStep | index.js:191-202 | without a session user the answer is a redirect to `/login`; a missing symbol is refused before the share check and the lookup; bad shares are refused; all three leave the state unchanged; only a success or the zero-cash refusal changes the state, and the zero-cash refusal only appends a row |
| Finance.Purchase | index.js:204-259 | every answer is a redirect to `/` or an apology; every apology but the zero-cash one leaves the state unchanged; the zero-cash one appends one row and changes nothing else |
| Finance.PurchaseSucceeded | index.js:214-249 | a successful purchase had a quoted price, integer shares of at least 1 and a buyer row whose cash exceeds the cost, and it commits exactly that buy |
| Finance.BuySucceeded | index.js:191-249 | a successful buy passed every guard, used `parseInt` of the input as the share count and a quoted price, had cash above the cost, committed exactly that buy, and left the buyer's cash positive |
| Finance.BuyIsPurchase | index.js:191-204 | past the guards, the buy is the purchase of the accepted shares at the looked-up quote |
| Finance.BuyCommits | index.js:191-249 | conversely, when every guard passes and the cash exceeds the cost, the buy commits and redirects to `/` |
| Finance.SharesOne | index.js:198-202 | the input `"1"` is accepted as one share |
| Finance.PurchaseOverBudget | index.js:228 | a cost above the buyer's cash is refused with the insufficient-funds message and changes nothing |
| Finance.PurchaseExactCash | index.js:231-241 | a cost equal to the buyer's cash inserts the record and is then refused with the cash message, with cash unchanged |
| Finance.PurchaseUndefinedCost | index.js:212-258 | a failed lookup or NaN shares make the cost NaN; the funds check lets it through, the insert fails, and the answer is the lookup-error apology with nothing changed |
| Finance.SharesGuardAdmitsNaN | index.js:198-202 | the input `".5"` passes the share guard as NaN and ends in the lookup-error apology instead of the share message |
| Finance.CheckSharesIntended | index.js:198 | the corrected guard accepts exactly the inputs whose `parseInt` is an integer of at least 1 (and that `Number` reads), and yields that integer |
| Finance.PurchaseIntended | index.js:204-259 | the corrected purchase either refuses with no change, or redirects to `/` after a quoted price, integer shares and a buyer row whose cash covers the cost, having committed both writes of exactly that buy |
| Finance.BuyStepIntended | index.js:191-260 | the corrected buy keeps the guards' refusals, refuses NaN shares with the share message, and changes the state only on success |
| Finance.IntendedRejectsNaNShares | index.js:198 | with the corrected guard `".5"` is refused with the share message |
| Finance.IntendedExactSpend | index.js:231-241 | with the corrected purchase, spending exactly all the cash succeeds, appends the buy record and leaves a cash of 0 |
| Finance.IntendedBuyExactSpend | index.js:191-246 | with the corrected buy, a request that spends exactly all the cash commits both writes, leaves a cash of 0 and redirects to `/` |
| Finance.RegisterKeepsValid | index.js:165-168 | registration keeps ids positive, increasing and below the next id, and cash non-negative |
| Finance.LoginKeepsValid | index.js:124 | a login keeps the state valid |
| Finance.CommitKeepsValid | index.js:231-246 | a committed purchase whose cost the cash covers keeps the state valid |
| Finance.PurchaseKeepsValid | index.js:204-259 | every purchase outcome keeps the state valid, so cash never goes negative |
| Finance.BuyKeepsValid | index.js:191-260 | every buy outcome keeps the state valid |
| Finance.InitialConsistent | models/User.js:5-24 | the empty start state is valid and its books balance |
| Finance.RegisterKeepsConsistent | index.js:165-168 | registering a name not yet taken keeps the books balanced |
| Finance.MatchingNone | index.js:107-115 | no row matches a name that no row carries |
| Finance.DuplicateRegisterLocksOut | index.js:107-168 | when the database reports no fault, registering a name already taken succeeds and keeps the state valid, but the books no longer balance and a login with that name is then refused |
| Finance.RegisterThenLogin | index.js:100-173 | after registering a fresh name, logging in with the same password (which the hash check accepts) succeeds and the session holds the new row's id |
| Finance.CommitKeepsConsistent | index.js:231-246 | a committed purchase keeps every user's cash equal to the default cash less what that user's records cost |
| Finance.PurchaseIntendedKeepsConsistent | index.js:204-259 | the corrected purchase keeps the state valid and the books balanced |
| Finance.IntendedBuyKeepsConsistent | index.js:191-260 | the corrected buy keeps the state valid and the books balanced on every input |
| Finance.BuyKeepsConsistent | index.js:191-260 | the buy as written keeps the books balanced in every case except the zero-cash refusal |
| Finance.ExactSpendBreaksConsistency | index.js:231-241 | when a buyer spends exactly all of positive cash, the buy as written is refused after recording the row, users are unchanged, and the books no longer balance |
| Finance.ExactSpendExample | index.js:231-241 | a one-user state with the default cash meets those conditions |
| Server.App.constructor | models/User.js:6-10 | the application starts with empty tables, ids from 1 and no session user |
| Server.App.Home | index.js:65-83 | answers as `HomeStep` on the current fields and changes nothing |
| Server.App.Register | index.js:142-185 | updates the fields and answers exactly as `RegisterStep`, and keeps the state valid |
| Server.App.Login | index.js:100-133 | updates the session and answers exactly as `LoginStep`, and keeps the state valid |
| Server.App.Buy | index.js:191-260 | updates the fields and answers exactly as `BuyStep`, and keeps the state valid |
| Server.App.Purchase | index.js:204-259 | inserts the record, then updates the cash, exactly as `Purchase`, and keeps the state valid |

## Left out

- The quote service (helpers.js:34-59) is the parameter `lookup`. It returns a price in cents or an error, and never a falsy value, so the guard at index.js:208-210 never fires and is not modelled.
- An error quote: the model takes `Transaction.create` to refuse the record because its price is undefined (`allowNull: false`, models/Transaction.js:24-27). It takes the same refusal for a NaN share count. Either way the buy ends in the catch at index.js:256-259.
- `bcrypt.hash` and `bcrypt.compare` are the parameters `hashed` and `compare`. Their failures are not modelled.
- Any error in the register `try` block is the parameter `fault`. models/User.js:12-15 declares no unique constraint on `username`, but the table comes from the existing database file `./finance.db` (db.js:4-7), whose schema the source does not show, and the handler expects a unique constraint (index.js:159, 179-180). So `fault` decides: `Some(UniqueConstraint)` gives the duplicate-name apology, and with `fault` absent a duplicate name is accepted.
- RegisterKeepsConsistent: the books-balance invariant is proved only for a registration whose name is not yet taken. With a taken name the invariant fails, as `DuplicateRegisterLocksOut` proves, because records are kept by username (index.js:232).
- The 500 reply of the login catch (index.js:129-132) is not modelled, because `findAll` is modelled as a total function.
- Floating-point arithmetic is not modelled. Prices, `price * shares`, the REAL and DECIMAL columns and `toFixed(2)` (helpers.js:53) are integer cents without rounding.
- `parseInt` results above 2^53, where JavaScript numbers lose precision, are not modelled. Neither are the `Infinity` and exponent values that `Number` accepts, beyond whether they are NaN.
- Form fields are `Option<string>`. Array and object values that a query-string parser can produce are not modelled.
- `usd` formatting through `Intl.NumberFormat` (helpers.js:63-65) is left out as a foreign library.
- GET `/login`'s session destroy, the GET routes that only render, and the unfinished `/add_cash` handler (index.js:266-274) are left out.
- Express setup, the session store, logging, `console.log`, the `rowsUpdated` message and `app.listen` are plumbing and are not modelled.
- Concurrency: two interleaved requests are not modelled. Each handler is one sequential step.
- The home page's rendered data (username and cash) is not modelled; `HomeStep` only says which view or apology is answered.
- Database failures in POST `/buy` are not modelled, apart from the refused insert of a NaN or undefined column. `User.findOne`, `Transaction.create` and `User.update` are total in the model. A real failure of any of them ends in the catch at index.js:256-259; a failed `User.update` after a successful insert would leave the record without the cash change, the same half-write as the second finding below.
- The code has no sell route, no position or valuation logic, no atomic commit with retry, and no upper-case symbol normalisation. The model covers buying only: the symbol is stored as typed, and the insert and the cash update are two separate writes.

## Findings

| source | as written | input that shows it | evidently intended | confidence | as-written member | corrected member |
|---|---|---|---|---|---|---|
| index.js:198 | `parseInt(shares_input) < 1` is false when `parseInt` gives NaN, so an input that `Number` reads but `parseInt` cannot is let through as NaN shares | shares `".5"` from a logged-in user with a row | such input is refused with "Must provide a valid amount of shares as an integer!" | not executed | Finance.SharesGuardAdmitsNaN | Finance.CheckSharesIntended |
| index.js:231-241 | the transaction row is inserted before the `!cash_new` test, and a new cash of exactly 0 is refused, so the record stays while the cash is not lowered | cash 10000.00, buying one share priced 10000.00 | a buy of exactly all the cash commits both writes and leaves a cash of 0 | not executed | Finance.ExactSpendBreaksConsistency | Finance.BuyStepIntended |
