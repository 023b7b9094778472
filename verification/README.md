# QuickPizza: the catalog store and the pizza generator

QuickPizza recommends pizzas. This project models its two parts that have real state or real
choices in them, and proves what holds of them.

* **The catalog store** (`pkg/database/catalog.go` and its schema). Users, pizzas, ratings and
  pizza-to-ingredient links live in tables with foreign keys and cascades. Every insert runs in a
  transaction that ends by trimming its table with `id NOT IN (newest N) AND id > fixed`. Several
  operations check outside the transaction and act inside it.
* **The generator** (`pkg/http/http.go`) filters the catalogue, draws toppings, removes duplicates by
  name and retries on too many calories; the load-test extension's **checker**
  (`k6/extensions/quickpizzaext/main.go`) judges its pizzas independently.
* They meet when a generated pizza is recorded: the generator removes duplicates by name, the store
  keys links by id.

| file | contents |
|---|---|
| `Sets.dfy` | finite sets and sequences |
| `Model.dfy` | ingredients, pizzas, calories, validation of users and stars |
| `TableLimits.dfy` | one trim: exact form, size, monotonicity, incremental against one-shot; `ORDER BY ... LIMIT` as a loop, and when a trim is invisible to it |
| `Transactions.dfy` | one limited table under transactions that overlap, roll back and commit out of order |
| `Store.dfy` | tables, constraints, cascading deletes, transactions, the seed |
| `Interleaving.dfy` | operations cut into the steps between which others may run; the invariant of every interleaving, table by table |
| `Runs.dfy` | whole runs: rows and ids, trimming against the insertion log, ratings |
| `Accounts.dfy` | registration, login, authentication |
| `History.dfy` | the list of latest pizzas, over the trimmed table and over the log |
| `CatalogService.dfy` | the `Catalog` object, method by method, proved to be a run of those steps |
| `Generator.dfy`, `Checker.dfy` | the generator's loops and the checker, and the theorem relating them |
| `Recording.dfy` | generated pizzas always record, lead the history and read back as reported; the whole request |
| `Forwarding.dfy` | the session token through the recommendations service |

How the store is modelled:

* A *step* is what the database does atomically: one transaction, or one read outside one. A *run* is
  any sequence of steps, so it is any interleaving of any number of requests. A transaction's trim may
  read the whole table (`Whole`), or any part of what was committed before, also rows deleted since
  (`Partial`); ids may commit out of order. A run is serial when every trim reads the whole table.
* Who asks for an update or a delete is a *caller*: the user that a step of `Authenticate` answered,
  with the name it had then, however long ago. Only callers so obtained may change ratings.
* The *log* of a state holds every row ever inserted. `Catalog` keeps the steps its calls took as ghost
  state; its invariant says that its tables are those of that run from the seed. So every theorem
  about runs is a theorem about the object.

Assumptions, stated once:

* The database issues a fresh positive id for each insert. The `Catalog` object issues ids greater than
  all before, with arbitrary gaps; the interleaved model only needs them unused.
* Primary keys, foreign keys with their cascades, and the unique columns `username` and `token` are
  enforced, at the transaction that would break them.
* A pizza to record has no id yet. The seed is the initial state, over any catalogue that has the items
  the seed names.
* Password hashing is ideal: a hash matches its own password and no other.
* What `rand.Intn(n)` returns is a roll modulo n; rolls, a clock reading and a random token are
  parameters with any value, and a map is iterated in any order. The store takes any name and any
  token: that names are short is the handler's check, and `SettingsAlwaysAnswerExactlyWhen` uses
  arbitrarily long ones.
* A header value reaches the next server without the blanks around it; a cookie value, which may be
  quoted, reaches it as it is.

Where code and documentation disagree, the model follows the code, with an input that shows it and the
exact condition:

* `Authenticate` is documented to always return a user. A configuration keeps that promise in all its
  reachable states exactly when the default user is protected or users are not limited
  (`SettingsAlwaysAnswerExactlyWhen`); one serial run keeps it exactly then or while no more than
  `maxUsers` users were ever recorded (`AlwaysAnswersExactlyWhen`). `DefaultUserCanBeEvicted` is a
  two-step counterexample.
* `enforceTableSizeLimits` promises that the first K rows are never deleted, where K is `fixed`. What is
  protected is every id up to `fixed`, and ids have gaps. The promise is kept exactly when nothing is
  limited, or the unprotected rows fit, or there is no gap in the protected ids
  (`FirstRowsKeptExactlyWhen`, `FirstPizzasKeptExactlyWhen`); in `FourthPizzaCanGo` the fourth pizza
  is trimmed although four are protected.
* The same comment claims that ordering by id keeps what ordering by creation time would. For one
  setting that holds exactly when every row among the latest `maximum` by time is protected or among the
  newest `maximum` by id (`TrimIsInvisibleExactlyWhen`, `SerialHistoryExactlyWhen`); for all settings
  exactly when creation times never decrease with the id (`ClockOrderedExactlyWhen`).
  `BackwardClockLosesTheLatest` is a run with one late clock reading.
* The generator does not keep the minimum number of toppings. It draws with repetition and removes
  duplicates afterwards, so with a positive maximum every pizza has enough exactly when the minimum is
  at most one (`MinimumKeptExactlyWhen`); the request without any restriction asks for three and may get
  one (`DefaultRequestCanFallShort`). No pizza has enough exactly when the maximum is below the minimum or
  there are fewer names to draw from (`MinimumMissedExactlyWhen`).
* The recommendations service hides some tokens from the catalog: `TokenSurvivesForwarding` says for
  exactly which requests the token stays the same. It is lost when a cookie that is no token covers a
  valid header (`StrayCookieLosesToken`) and when a quoted cookie of token length ends in a blank
  (`BlankEndLosesToken`).

## Model

| member | source | states |
|---|---|---|
| TableLimits.KeptExactly | pkg/database/catalog.go:313-326 | Although the subquery ranks the whole table, a trim keeps exactly the rows with a protected id and the newest `maximum` of the unprotected rows. |
| TableLimits.KeptSize | pkg/database/catalog.go:304-326 | A trimmed table has (protected rows) + min(unprotected rows, maximum) rows, at most fixed + maximum for positive ids; the number deleted is exact too. |
| TableLimits.ToDeleteMonotone | pkg/database/catalog.go:313-326 | A trim that sees only part of the table deletes nothing that a trim of all of it would keep. |
| TableLimits.PartialTrimKeeps | pkg/database/catalog.go:313-326 | From any stale or partial view containing its own insert, a trim leaves every row that one trim of the whole history keeps. |
| TableLimits.WholeTrimIsExact | pkg/database/catalog.go:313-326 | A trim that reads the whole table makes it exactly the log trimmed once, whatever partial trims came before. |
| TableLimits.IncrementalTrim | pkg/database/catalog.go:280-326 | Trim, insert, trim equals insert, trim: for any set of new rows, in any id order. |
| TableLimits.TrimIdempotent | pkg/database/catalog.go:313-326 | Trimming a trimmed table changes nothing. |
| TableLimits.InsertEvictsAtMostOne | pkg/database/catalog.go:201-208 | Into a trimmed table, an insert with the greatest id survives its own trim and displaces at most one row. |
| TableLimits.BetweenKeptAndLog | pkg/database/catalog.go:304-326 | A table between the trimmed log and the log answers every query for its newest rows, up to `maximum`, as the log does. |
| TableLimits.FirstRowsKeptExactlyWhen | pkg/database/catalog.go:306-309 | The first `fixed` rows all survive a trim if and only if nothing is limited, at most `maximum` rows are unprotected, or no protected id is missing. |
| TableLimits.SelectTop | pkg/database/catalog.go:319-322 | `ORDER BY ... DESC LIMIT n` by repeated selection returns the rows in order, as many as allowed, with nothing better left out. |
| TableLimits.TopIsFirst | pkg/database/catalog.go:319-322 | A list is the answer of the ordered, limited query if and only if it is in order and holds exactly the rows with fewer than n rows listed before them. |
| TableLimits.SameTopsExactlyWhen | pkg/database/catalog.go:104-108 | Deleting rows is invisible to that query, for every limit up to n, if and only if none of the first n rows is deleted. |
| TableLimits.TopIsNewest | pkg/database/catalog.go:310-312 | When the sort column does not decrease with the id, that query returns exactly the newest ids, newest first, and conversely. |
| TableLimits.Victims | pkg/database/catalog.go:313-326 | Running the subquery and comparing row by row yields exactly the set of ids the statement is specified to delete. |
| Transactions.OverlappingTrimsAreSafe | pkg/database/catalog.go:201-208 | With overlapping transactions that roll back or commit in any order, and trims that see any part of the table, no row is lost that is protected or among the newest `maximum` ever committed. |
| Transactions.LoneTransactionHeals | pkg/database/catalog.go:313-326 | After any overlaps, one transaction that runs alone leaves the table exactly the log trimmed once. |
| Transactions.RolledBackStaysAway | pkg/database/catalog.go:201-208 | A rollback changes neither the live rows nor the log, and its row is never live or logged, whatever follows. |
| Model.CalculateCalories | pkg/model/pizza.go:28-34 | The loop returns the sum over the ingredients. |
| Model.CaloriesAddUp | pkg/model/pizza.go:28-34 | The calories are nothing for no ingredient, its own for one, and add up over lists. |
| Model.IsVegetarian | pkg/model/pizza.go:19-26 | True exactly when every ingredient is vegetarian, so one that is not gives false. |
| Model.OrderDoesNotMatter | pkg/model/pizza.go:19-34 | Neither calories nor the flag depends on the order of the ingredients. |
| Interleaving.SeedInv | pkg/database/migrations/catalog/testdata.yaml:219-285 | The seed satisfies every constraint and the whole invariant, for all limits. |
| Interleaving.ApplyKeepsInv | pkg/database/catalog.go:137-326 | Every step of every operation keeps the invariant: foreign keys, unique accounts, live rows equal to logged rows, links equal to the recorded ingredients, no protected row lost, callers who they were registered as, nothing pending for a rating of the default user. |
| Interleaving.RecordPizzaKeepsInv | pkg/database/catalog.go:287-301 | The same for recording with an arbitrary view of the trim, cascades included. |
| Interleaving.AddUserKeepsInv | pkg/database/catalog.go:230-237 | The same for the inserting half of a registration whose check was made earlier. |
| Runs.ReachableInv | pkg/database/catalog.go:137-326 | Every state of every interleaving from the seed satisfies the whole invariant. |
| Runs.ReachableConstraints | pkg/database/migrations/catalog/20230829142500_initialize_db.go:24-52 | In every state of every interleaving from the seed, every rating has a live user and pizza, every link a live pizza and an ingredient, every pizza a dough and a tool, and names and tokens are pairwise distinct. |
| Runs.NeverRevived | pkg/database/catalog.go:162-187 | No run brings back a deleted user, pizza or rating, also not an update that read the row before it was deleted; logged rows never change; callers stay callers. |
| Runs.RowsAreStable | pkg/database/catalog.go:110-117 | After any run, a user or pizza that is still live has the columns and the links it was inserted with. |
| Runs.ProtectedAndNewestSurvive | pkg/database/catalog.go:201-208 | In every interleaving the live pizzas and users contain the protected ids and the newest `maximum` of everything ever inserted, and their own newest `maximum` are those. |
| Runs.SerialRunsTrimTheLog | pkg/database/catalog.go:280-326 | After any serial run the live pizzas and users are exactly the insertion log trimmed once, before the first insert they are the seed; the ratings are within their bound. |
| Runs.OneWholeTrimHeals | pkg/database/catalog.go:280-326 | After any interleaving, one pizza or user whose trim reads the whole table makes that table exactly its log trimmed once. |
| Runs.SerialTablesAreBounded | pkg/database/catalog.go:304-309 | After a serial run each of the three limited tables has at most fixed + maximum rows, once a row was added to it. |
| Runs.FirstPizzasKeptExactlyWhen | pkg/database/catalog.go:306-309 | After a serial run that recorded a pizza, the first `fixedPizzas` ever recorded are all live if and only if nothing is limited, the unprotected ones fit, or no protected id is missing. |
| Runs.FourthPizzaCanGo | pkg/database/catalog.go:306-309 | A run of two recordings after an id was skipped loses the fourth pizza with four protected. |
| Runs.RatingFate | pkg/database/catalog.go:128-209 | In any step of anyone a rating that stays has the stars of the update written to it, by its owner, or those it had, and is not one its owner deletes; one that goes is deleted by its owner or evicted by a trim or a cascade from an unprotected row with `maximum` newer ones. |
| Runs.WriteChangesOneRating | pkg/database/catalog.go:176-180 | Writing a pending update gives its rating exactly the pending stars, if it is live, and changes nothing else in any table. |
| Runs.DeleteAllLeavesOthers | pkg/database/catalog.go:137-144 | Deleting all ratings of a caller leaves exactly those of other users, unchanged. |
| Runs.RatingFateOverRun | pkg/database/catalog.go:128-209 | After any run, a rating that is there has exactly the stars of the last update written to it, which was its owner's, or those it had if there was none; one that is gone was taken by one of the steps, a deletion by its owner or an eviction. |
| Runs.ProtectedRatingSurvives | pkg/database/catalog.go:137-160 | A rating with protected id, user and pizza survives every run in which its owner does not delete it; one of the default user survives every run. |
| Runs.SeedRatingsArePermanent | pkg/database/migrations/catalog/testdata.yaml:272-285 | With at least the seed protected, the three seeded ratings of the default user, one for each seeded pizza, survive every run of anybody with their stars. |
| Runs.SeedPizzasArePermanent | pkg/database/migrations/catalog/testdata.yaml:219-258 | With three pizzas protected, the seeded pizzas keep their names, doughs, tools and ingredients in every reachable state. |
| Runs.DefaultRatingsLeaveByEvictionOnly | pkg/database/catalog.go:137-165 | After any run, no step edits a rating of the default user, and it disappears only by a trim or a cascade. |
| Runs.ReachableStarsInRange | pkg/http/http.go:868-948 | When stars are validated by the handlers, every live rating of every reachable state has one to five stars. |
| Accounts.RegisteredUserLogsIn | pkg/database/catalog.go:211-278 | In every later state in which a registered user is live, exactly that user logs in with the name, with exactly the registered password, and the token authenticates exactly that user. |
| Accounts.SeededUsersLogIn | pkg/database/catalog.go:247-259 | In every reachable state, a live seeded user has its token; the default user logs in with any password and the others with their plain-text one only. |
| Accounts.AtMostOneRegistrationWins | pkg/database/catalog.go:211-238 | Over any interleaving of registrations of a name, if no winner is evicted at most one succeeds, and none if the name was held throughout. |
| Accounts.RegistrationsOfANameTakeTurns | pkg/database/catalog.go:211-238 | Of any two successful registrations of one name in any interleaving, the first user was no longer live at the step that inserted the second. |
| Accounts.AuthenticateIsTotal | pkg/database/catalog.go:262-278 | With the default user protected or no limit on users, every token is answered in every reachable state. |
| Accounts.AnswersAreUnique | pkg/database/catalog.go:262-278 | A token never stands for two users, and an answer of user 1 is the default user. |
| Accounts.UnownedTokenIsTheDefaultUser | pkg/database/catalog.go:270-276 | In every reachable state a token nobody owns stands for at most the user with id 1, who is called "default"; while that user is live, or if registrations are validated, it stands for exactly the live user of that name. |
| Accounts.AlwaysAnswersExactlyWhen | pkg/database/catalog.go:262-278 | After a serial run with a registration, every token is answered if and only if the default user is protected, users are unlimited, or at most `maxUsers` users were ever recorded. |
| Accounts.SettingsAlwaysAnswerExactlyWhen | pkg/database/catalog.go:262-278 | Every token is answered in every reachable state of every interleaving if and only if the default user is protected or users are unlimited. |
| Accounts.DefaultUserCanBeEvicted | pkg/database/catalog.go:262-266 | One valid registration makes authentication fail when nothing is protected and the limit is one. |
| History.HistoryIsThatOfTheLog | pkg/database/catalog.go:104-108 | For limits up to `maxPizzas` and a clock that does not run backwards, the history of the trimmed table has exactly the answers of the history of the untrimmed log, in every interleaving. |
| History.TrimmedTopIsLoggedTop | pkg/database/catalog.go:104-108 | The same for any table between the trimmed log and the log, with any column that does not decrease with the id. |
| History.TrimIsInvisibleExactlyWhen | pkg/database/catalog.go:310-312 | One trim leaves the history as it is, up to `maximum` rows, if and only if each of the latest `maximum` rows by time is protected or among the newest `maximum` by id. |
| History.ClockOrderedExactlyWhen | pkg/database/catalog.go:310-312 | Creation times never decrease with the id if and only if, for every maximum and nothing protected, the trimmed log has the history of the log. |
| History.HistoryIsThatOfTheLogExactlyWhen | pkg/database/catalog.go:104-108 | In every interleaving, with any clock, the history up to `maxPizzas` is that of the log if and only if the latest `maxPizzas` pizzas of the log are live. |
| History.SerialHistoryExactlyWhen | pkg/database/catalog.go:104-108 | In serial runs that is so if and only if each of the latest `maxPizzas` pizzas by time is protected or among the newest by id. |
| History.BackwardClockLosesTheLatest | pkg/database/catalog.go:310-312 | A run of one recording with a clock that was set back: the history of the store is pizza 4, that of the log pizza 3. |
| History.EvictedAreOlder | pkg/database/catalog.go:310-312 | In serial runs no evicted pizza is newer, by id or creation time, than an unprotected one that was kept. |
| CatalogService.Catalog.constructor | pkg/database/catalog.go:39-78 | A new store is the seed, with no steps taken. |
| CatalogService.Catalog.Guarantees | pkg/database/catalog.go:189-326 | Whatever was called, the object's tables satisfy the invariant of all interleavings, are the log trimmed once, and have their ratings within the bound. |
| CatalogService.Catalog.DeletePizzaRow | pkg/database/migrations/catalog/20230829142500_initialize_db.go:34-49 | Deleting a pizza deletes exactly the ratings and links that point at it. |
| CatalogService.Catalog.DeleteUserRow | pkg/database/migrations/catalog/20230829142500_initialize_db.go:34-39 | Deleting a user deletes exactly that user's ratings. |
| CatalogService.Catalog.EnforceTableSizeLimits | pkg/database/catalog.go:313-326 | The loop over a table deletes exactly the specified rows and what cascades from them, and nothing else in any table. |
| CatalogService.Catalog.InsertLinks | pkg/database/catalog.go:293-298 | The loop succeeds exactly when all ingredients exist and none repeats, and then adds one link per ingredient. |
| CatalogService.Catalog.PizzaTransaction | pkg/database/catalog.go:288-301 | Insert, link and trim, or no change in any table: fails exactly on an unknown dough, tool or ingredient, or a repeated ingredient. |
| CatalogService.Catalog.RecordRecommendation | pkg/database/catalog.go:280-302 | Refused exactly for an unknown dough, tool or ingredient or a repeated one, and then nothing changes; otherwise the row has the given name, dough and tool and the time of the call, one link per ingredient, an id above all before, and only the trim and its cascade touch other rows. |
| CatalogService.Catalog.RecordRating | pkg/database/catalog.go:189-209 | Fails exactly for an unknown pizza or user and then changes nothing; otherwise the rating is stored as given under a new id, it survives, and only the trim removes others. |
| CatalogService.Catalog.RecordUser | pkg/database/catalog.go:211-238 | Succeeds exactly with a password and a name and token that no live user has; each error case is exact and changes nothing; the new row holds the name, the token and the hash of the password. |
| CatalogService.Catalog.LoginUser | pkg/database/catalog.go:240-260 | None for a name nobody has; else the user of that name exactly when the password is the plain-text one, or matches the hash, or the user is the default user. |
| CatalogService.Catalog.Authenticate | pkg/database/catalog.go:266-278 | The user whose token it is; if no live user has it, user 1; none exactly when user 1 is gone too. The answer carries its name and is a caller from then on; no table changes. |
| CatalogService.Catalog.GetRating | pkg/database/catalog.go:128-135 | Finds a rating for its owner and for nobody else. |
| CatalogService.Catalog.UpdateRating | pkg/database/catalog.go:162-187 | Succeeds exactly for a rating of the caller, who is not the default user; then the table has the new stars in that one row and is otherwise unchanged. |
| CatalogService.Catalog.DeleteRating | pkg/database/catalog.go:146-160 | Succeeds exactly for a rating of the caller, who is not the default user, and removes that row only. |
| CatalogService.Catalog.DeleteRatings | pkg/database/catalog.go:137-144 | After success no rating of the caller is left and every other is as before; refused exactly for the default user. |
| CatalogService.Catalog.GetRecommendation | pkg/database/catalog.go:110-117 | A live pizza joined with its dough and each linked ingredient once; none exactly when the id is not live. |
| CatalogService.Catalog.GetHistory | pkg/database/catalog.go:104-108 | As many of the latest pizzas as asked for, in order of creation with none later left out, each with its dough and ingredients; and the same list as without any trimming. |
| CatalogService.Catalog.GetIngredients | pkg/database/catalog.go:80-90 | Exactly the ingredients of the type, each once. |
| Generator.DefaultsFillGaps | pkg/http/http.go:180-192 | Each topping bound that is missing is filled in on its own: five at most, three at least; without bounds three to five are drawn, with a maximum of two alone exactly two; defaults are idempotent. |
| Generator.Effective | pkg/http/http.go:180-192 | Zero calories and bounds become 1000, 5 and 3, each on its own; the custom name is cut to its first 64 characters; flag and exclusions stay as sent. |
| Generator.FilterIngredients | pkg/http/http.go:1388-1436 | Keeps each allowed ingredient as often as it was listed and drops the others. |
| Generator.FilterTools | pkg/http/http.go:1445-1450 | Keeps exactly the tools that are not excluded. |
| Generator.ToppingCount | pkg/http/http.go:1510-1518 | Min plus the roll modulo Max - Min + 1 when Max exceeds Min, so any number between them, else exactly Max, for all signed bounds. |
| Generator.Deduplicate | pkg/http/http.go:1520-1527 | Exactly the draws that have no later draw of their name, one for each name, in any order. |
| Generator.Attempt | pkg/http/http.go:1477-1527 | Panics exactly when a base list, tool list or dough list is empty, or there is no topping and one is to be drawn; else the pizza is the one of the rolls. |
| Generator.PossibleExactlyWhen | pkg/http/http.go:1503-1527 | A pizza is possible for a filtered menu if and only if some rolls produce it: the draws rule none out. |
| Generator.Recommend | pkg/http/http.go:1375-1541 | In terms of the request as sent: only allowed ingredients and tools of the menu, vegetarian if asked, each name once, the first 64 characters of a custom name; the first of ten attempts within the calorie limit (1000 if none), or the tenth, with its calories and flag; no answer only when a draw is from an empty list. |
| Generator.CanAnswerExactlyWhen | pkg/http/http.go:1503-1520 | Some pizza can be made from a filtered menu if and only if no base list, tool list or dough list is empty, and there is a topping or none needs to be drawn. |
| Generator.MapOrderIsInvisible | pkg/http/http.go:1520-1541 | For the same draws, any two iteration orders give the same ingredients, calories and flag. |
| Generator.IngredientsAtMost | pkg/http/http.go:1510-1527 | At most 3 + max(0, Max) ingredients, and at most 3 + the number of valid topping names. |
| Generator.IngredientsAtLeast | pkg/http/http.go:1510-1527 | With names disjoint across categories, at least three ingredients, and four when a topping is drawn. |
| Checker.Internal.CheckRestrictions | k6/extensions/quickpizzaext/main.go:31-71 | Accepts exactly the pizzas that are vegetarian if asked, within the calories, free of excluded ingredients and tool, and of Min + 3 to Max + 3 ingredients, and leaves the first violated restriction as the reason. |
| Checker.OneReason | k6/extensions/quickpizzaext/main.go:31-71 | The reason is determined by the pizza and the restrictions. |
| Checker.GeneratedAgainstChecker | pkg/http/http.go:1375-1534 | With a positive maximum, a generated pizza is faulted only for calories or too few toppings, and accepted exactly when it has neither fault. |
| Checker.ScarceToppingsAreRejected | k6/extensions/quickpizzaext/main.go:64-67 | With a maximum below the minimum, or fewer valid topping names than the minimum, every generated pizza has too few toppings and is rejected. |
| Checker.MinimumKeptExactlyWhen | pkg/http/http.go:1510-1527 | Every pizza that can be generated has enough toppings for the checker if and only if the minimum is at most one, or at most zero without a positive maximum. |
| Checker.MinimumMissedExactlyWhen | pkg/http/http.go:1510-1527 | No pizza that can be generated has enough toppings if and only if the maximum is below the minimum or there are fewer topping names than the minimum. |
| Checker.DefaultRequestCanFallShort | pkg/http/http.go:180-192 | For the request without restrictions and any menu with four rows of the fixture, a pizza with one topping can be generated, and the checker reports 4 ingredients where 6 are needed. |
| Checker.NegativeMaximumIsRejected | k6/extensions/quickpizzaext/main.go:58-62 | With disjoint categories, a generated pizza has too many toppings for the checker exactly when the maximum is negative. |
| Recording.DistinctNamesGiveDistinctIds | pkg/model/pizza.go:36-41 | For rows of one catalogue, distinct names mean distinct ids, so the composite key of links holds. |
| Recording.GeneratedPizzaRecords | pkg/http/http.go:1503-1552 | No constraint of the store can refuse a generated pizza, in any state. |
| Recording.RecordedPizzaReadsBackAsReported | pkg/http/http.go:1537-1552 | A generated pizza is recorded in any state; after any further run, an answer for its id has the reported name, dough, tool, ingredients, calories and flag. |
| Recording.RecordingLeadsTheHistory | pkg/database/catalog.go:104-108 | Any pizza the store accepts is the first of the history right after it is recorded, if no live pizza has a later creation time. |
| Recording.RecordedPizzaLeadsTheHistory | pkg/database/catalog.go:104-108 | For a generated pizza, the first entry of that history is the pizza that was reported. |
| Recording.FetchMenu | pkg/http/http.go:1381-1456 | The menu is exactly what the catalogue offers of each type, with its tools and doughs. |
| Recording.HandlePizzaRequest | pkg/http/http.go:1351-1566 | On the store object, in terms of the request as sent: answered whenever every draw has something to draw from; the pizza is made of rows of the catalogue with an oil, a tomato and a mozzarella, meets the request, is the first of ten attempts within its calories or the tenth, and is recorded as reported under a new id; without an answer nothing changes. |
| Forwarding.Cut | pkg/http/http.go:227 | Splits at the first space and nowhere else. |
| Forwarding.HeaderTokenExactly | pkg/http/http.go:225-234 | A header carries a token exactly when it spells "token" or "bearer" letter by letter, small or capital, then has one space and 16 characters. |
| Forwarding.AcceptedSchemes | pkg/http/http.go:227-234 | Before a space and 16 characters, exactly the spellings of "token" and "bearer" in any case are accepted. |
| Forwarding.RequestTokenExactly | pkg/http/http.go:218-235 | The token of a request is its cookie if that has 16 characters, else that of its header, else none. |
| Forwarding.CookieTokenExactly | pkg/http/http.go:757-761 | What the catalog gets of a cookie is the cookie without the blanks and tabs at its end, if that has 16 characters. |
| Forwarding.SentExactly | pkg/http/client.go:109-119 | On the way a header value loses exactly the blanks and tabs around it. |
| Forwarding.Forward | pkg/http/http.go:751-774 | The forwarded request has no cookie; the catalog finds in it the token of the trimmed cookie, or without a cookie that of the header; and the token is unchanged if and only if the cookie is harmless. |
| Forwarding.TokenSurvivesForwarding | pkg/http/client.go:109-119 | The catalog finds the same token behind the service if and only if there is no cookie, or it has the length of a token and does not end in a blank, or it has another length and the header carries the token of the trimmed cookie, both having none included. |
| Forwarding.StrayCookieLosesToken | pkg/http/http.go:757-761 | A one-character cookie hides a valid header. |
| Forwarding.BlankEndLosesToken | pkg/http/http.go:757-761 | A cookie of 16 characters, the last a blank, is a token in front of the service and none behind it. |

## Left out

- Routing, JSON and XML encoding, the gateway, static pages, websockets, metrics, tracing, error and delay injection, the gRPC service, the Copy service and the frontend: plumbing or one-branch logic.
- The database drivers, the query builder and bcrypt: abstracted by the assumptions above; bcrypt's limit of 72 bytes is not modelled.
- Limits of zero or less on the history: the only caller asks for 15, and what the query builder makes of such a limit is not part of this model.
- The listing of a user's ratings with its limit of 50: it only filters.
- Across tables, transactions are atomic steps: what one reads for its trim is arbitrary, but none observes half of another. `Transactions.dfy` takes transactions of one table apart.
- Pizzas sent to the internal endpoint with an id chosen by the client: recording takes a pizza without an id.
- Integers are unbounded; string lengths are counted in characters, which are bytes here, and letter case is that of ASCII.
- The random name of a pizza is an arbitrary string: the loop that makes it ends only with probability one.
- Runs.SerialRunsTrimTheLog: bounds the ratings only, since their owners and cascades also delete them; what may happen to each is in `RatingFateOverRun`.
- Checker.Internal.CheckRestrictions: the message is a value that says which check failed and its numbers, not the formatted text.
- The history orders equal creation times by the newer id; the query leaves their order open.
