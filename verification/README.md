# bmloginsvr: the login protocol, the donation ledger and the smaller registries

bmloginsvr stands between game clients and game servers. It keeps who is connected, who is verified
and who plays where in in-memory maps and in a few SQLite tables. This project models that state and
the code that changes it, and proves what whole runs of it guarantee. `dafny verify dfyconfig.toml`
checks everything.

## What is modelled

- **Login sessions** (`LoginProtocol`, `LoginInvariants`, `LoginHistory`, `LoginLookups`, `LoginLids`,
  `LoginEffects`, `LoginServer`, `LoginRaces`). The select loop handles one socket event at a time, so every handler
  is one step of a transition system over the client nodes, the per-uid lists, the registered servers and the `online_player` table.
  `LoginProtocol.Step` is that system; the classes of `LoginServer` are the handlers over nodes that
  are shared and updated in place, and each of them is proved to perform exactly one step. The object
  records the run it has performed, so what is proved of runs holds of the object at any time. Events
  carry what the environment decides: the token, the row the presence query happens to return,
  whether a write is taken, and what the save-file library answers.
- **Donation ledger** (`Ledger`, `LedgerEffects`, `LedgerRuns`, `LedgerStore`, `LedgerInterleaving`, `LedgerSpending`,
  `LedgerOrders`, `LedgerRaces`). Modelled twice. First as operations handled one after another, any
  of whose writes may fail. Then as threads that interleave statement by statement, as the HTTP goroutines do;
  `AloneBuys` and `AloneCredits` tie the two together. `LedgerRaces` constructs the interleavings
  that show which conditions the theorems need.
- **Accounts and role names** (`Accounts`, `AccountLaws`, `AccountEffects`): batch registration and three name slots per account.
- **Rank table** (`PlayerRank`), **hall registry** (`Hall`, `HallRuns`), **administrator sessions**
  (`AdminSessions`) and the two **rank list caches** (`RankListCache`).

The `...Effects` modules say field by field, without the functions that define the operations, what each
operation answers, changes and leaves alone, and what that comes to over runs; the other laws build on
the invariants.

`Tables` is a small theory of the statement shapes used (select, count, sum, insert, update and delete by
a condition), `GoInts` writes out the conversions to 32-bit integers.

## Where the code keeps less than it seems to promise

Each of these comes with the exact condition and with a run that reaches the failure.

- `clientConnId` is the connection counter cut to 32 bits. A connect can be issued the LID of a client
  that is still connected (`TakenLid` builds such a run) or of a presence row whose client is gone
  (`SharedLid`, which ends with two rows of one LID for different players and servers). Clients stay
  findable by LID exactly until the first (`FindableExactly`), LIDs identify clients and rows exactly
  until either (`LidsAgreeExactly`, `MeaningKept`), and the first 2^32 connects are free of both. Precedence, the
  single-server property, the registry and the per-uid lists hold without any condition.
- A server disconnect ignores the error of its delete. If that delete fails, rows of a server that
  is gone stay (`StrandedRow`); presence is backed exactly in the runs without such a disconnect
  (`PresenceExactly`).
- A credit whose history row was written but whose total was not can never be completed: the order
  counts as used (`RetryAccepted`). The next credit repairs the total if the player had one already;
  if not, it writes only its own amount (`CreditLevels`, `HalfCredited`).
- Two requests with one order id can both pass the check (`DoubleCredit`). Order ids stay unique
  exactly in the runs in which no insert records a used one (`RunOrdersUniqueExactly`); two such
  requests between check and insert are enough for it (`MeetingDoubles`), and without them it cannot
  happen (`RunOrdersUnique`).
- Two overlapping credits can leave a total that misses one of them (`LostUpdate`), after which even
  a single purchase at a time has spent more than the total. A total falls exactly when a history sum
  is written that is older than the total (`FallsExactly`, `TotalsGrowExactly`). Spending is always
  bounded by the highest total so far (`SpendingBelowPeak`), hence by the recorded history. It stays
  bounded by the total itself exactly in the runs in which no stale write, and no check against a
  total read before one, exceeds the bound (`BoundExactly`, `StaleReadNeedsWrite`); so in every run
  without a stale write, overlapping credits included (`TotalSpendingBound`). Any stale write that is
  about to be made is enough to overspend (`StaleWriteOverspends`).

## Assumptions

- Reads succeed; the lookups of one handler see one table state.
- Autogenerated uids are fresh and not 0. Sockets are reported connected only when not in use.
- Amounts credited are not negative in the runs with failing writes and in the interleaved runs (the
  management page only rules out 0; `RunStaysLevel` and `ExactlyOnce` hold for any sign), and the
  recorded sum of a player fits in int32 wherever a total is claimed to equal it; the narrowing itself
  is `Ledger.Column`.
- A rank list, being plain records, can always be put into text; `FreshExactly` and `AlwaysFreshV2`
  cover the branch for its failing all the same.
- Clocks do not go back in the hall, session and cache runs.
- Iteration over a Go map is an arbitrary order of its keys, given to the method as `order`.
- The integers that Go holds in 64 bits (connection counters, the hall seed, clocks) do not overflow.

## Model

| member | source | states |
|---|---|---|
| LoginServer.SessionServer.AddClientToUserMap | bmloginsvrapp/handle_eventfromclient.go:43-51 | the client is appended to its uid's list, which is created if missing; no other list changes |
| LoginServer.SessionServer.RemoveClientFromUserMap | bmloginsvrapp/handle_eventfromclient.go:53-75 | the scan removes the first occurrence of the node and says whether there was one |
| LoginServer.SessionServer.GetClientFromUserMap | bmloginsvrapp/handle_eventfromclient.go:109-130 | the scan terminates and returns the first node of the uid's list with the LID, or nil |
| LoginServer.SessionServer.ConnectClient | bmloginsvrapp/handle_eventfromclient.go:149-169 | a connect performs the connect step: a new node under the low 32 bits of the counter, neither verified nor bound |
| LoginServer.SessionServer.DisconnectClient | bmloginsvrapp/handle_eventfromclient.go:171-184 | a disconnect takes the node out of the socket, the node map and its uid's list; every other client stays as it is |
| LoginServer.SessionServer.VerifyAccountReq | bmloginsvrapp/handle_eventfromclient.go:203-226 | only an unverified connection is answered; passing sets the uid and lists the node once, failing changes nothing |
| LoginServer.SessionServer.CheckAccount | bmloginsvrapp/handle_eventfromclient.go:520-563 | the verdict 0, 1 or 2, and the uid is set exactly when it is 0 |
| LoginServer.SessionServer.AnswerLogin | bmloginsvrapp/handle_eventfromclient.go:344-431 | the answer is decided in the order of the checks, from one arbitrary presence row of the uid; an admission names the connection whose server id is the client's |
| LoginServer.SessionServer.LoginGameReq | bmloginsvrapp/handle_eventfromclient.go:344-492 | a row is added exactly when the request is admitted and the insert taken, with the client's uid, server and LID; an admission names the connection whose server id is the client's |
| LoginServer.SessionServer.ConnectServer | bmloginsvrapp/handle_eventfromserver.go:73-79 | a connection gets an unregistered node and the next number |
| LoginServer.SessionServer.DisconnectServer | bmloginsvrapp/handle_eventfromserver.go:81-99 | the registry entry of the connection's id goes, and its rows if it was registered and the delete succeeds |
| LoginServer.SessionServer.RegisterServerReq | bmloginsvrapp/handle_eventfromserver.go:117-169 | accepted exactly for an unregistered connection with an id that is not 0 and not taken; otherwise nothing changes |
| LoginServer.SessionServer.UserVerifyReq | bmloginsvrapp/handle_eventfromserver.go:171-208 | binds exactly a verified, unbound client whose token matches, and only on behalf of a registered server |
| LoginServer.SessionServer.PlayerDisconnectedNtf | bmloginsvrapp/handle_eventfromserver.go:254-265 | removes the rows of exactly that uid (read as 32 bits unsigned), that server and that LID |
| LoginServer.SessionServer.ProcessEventFromClient | bmloginsvrapp/handle_eventfromclient.go:132-147 | any client event at any time extends the recorded run by one protocol step |
| LoginServer.SessionServer.ProcessEventFromServer | bmloginsvrapp/handle_eventfromserver.go:52-71 | any game-server event at any time extends the recorded run by one protocol step |
| LoginServer.SessionServer.AlwaysSafe | bmloginsvrapp/main.go:179-210 | whatever events the loop has processed, no player is shown on two servers and the registry and the lists are exact; the two client lookups agree if no connect was issued the LID of a live client, as in the first 2^32 connects; presence is backed if no server disconnect left rows behind |
| LoginInvariants.StepKeepsInv | bmloginsvrapp/main.go:179-210 | every event keeps the joint invariant of node map, lists, registry and presence rows, whichever writes fail |
| LoginInvariants.LoginKeepsSingleServer | bmloginsvrapp/handle_eventfromclient.go:351-359 | checking one arbitrary row before inserting keeps all rows of a uid on one server |
| LoginInvariants.VerifiedUid | bmloginsvrapp/handle_eventfromclient.go:520-538 | a verification passes exactly for the password of an existing account of at most 20 characters, and yields that account's non-zero uid |
| LoginInvariants.ConnectKeepsNodes | bmloginsvrapp/handle_eventfromclient.go:149-157 | a connect keeps every live client findable by LID exactly if no live client holds the LID issued |
| LoginInvariants.StepKeepsLids | bmloginsvrapp/handle_eventfromclient.go:151-157 | within the first 2^32 connects every event keeps LIDs identifying clients and presence rows |
| LoginInvariants.StepKeepsPresence | bmloginsvrapp/handle_eventfromserver.go:81-99 | presence rows stay backed by registered servers exactly unless a disconnect's delete leaves rows behind |
| LoginInvariants.RegistryStep | bmloginsvrapp/handle_eventfromserver.go:73-158 | every game-server event keeps registry entries precisely the live registered connections, each under its own id |
| LoginInvariants.OthersKeepHolder | bmloginsvrapp/handle_eventfromserver.go:73-265 | whatever another game-server connection does or suffers, lost, refused and unregistered ones included, a registered server, its registry entry and all its rows, in order and number, stay as they were |
| LoginHistory.RunInv | bmloginsvrapp/main.go:179-210 | the joint invariant holds in every state of every run |
| LoginHistory.RunPresenceBacked | bmloginsvrapp/handle_eventfromserver.go:81-99 | in every run whose server disconnects leave no rows, each player shown online is on a registered server, re-registration included |
| LoginHistory.PresenceExactly | bmloginsvrapp/handle_eventfromserver.go:81-99 | presence is backed in all states of a run exactly if no server disconnect of it leaves rows behind |
| LoginRaces.StrandedRow | bmloginsvrapp/handle_eventfromserver.go:94-97 | for every player and server there is a run, with only that delete failing, that ends with the player shown on a server that is gone |
| LoginHistory.ClientStory | bmloginsvrapp/handle_eventfromserver.go:184-203 | a live client was connected, then verified if it has a uid, then bound if it has a server, in this order, with its LID and token unchanged and the player index and code of the binding request |
| LoginHistory.RowStory | bmloginsvrapp/handle_eventfromclient.go:344-492 | every presence row was preceded, in order, by the connect that issued its LID, a verification with the uid's password, a binding request with that LID's token from the connection then registered as its server, and the login |
| LoginHistory.OnlineExactly | bmloginsvrapp/sqlv2.go:465-478 | a row is in the table exactly if an admitted login entered it and no server loss or notice has removed it since |
| LoginHistory.IdentityIsWriteOnce | bmloginsvrapp/handle_eventfromserver.go:194-203 | while a client stays connected, uid and (server, player index, code) are each set at most once |
| LoginHistory.ServerIsWriteOnce | bmloginsvrapp/handle_eventfromserver.go:117-158 | while a game-server connection stays, id, name and address are set at most once, and from then on it is the holder of its id |
| LoginHistory.LidsRepeat | bmloginsvrapp/handle_eventfromclient.go:151-157 | two connects get the same LID exactly if a multiple of 2^32 connects lies between them |
| LoginLids.LidsAgreeExactly | bmloginsvrapp/handle_eventfromclient.go:151-157 | LIDs identify clients, and rows with a LID agree with each other and with its client, in all states of a run exactly if no connect of it is issued the LID of a live client or of a row |
| LoginLids.MeaningKept | bmloginsvrapp/handle_eventfromclient.go:487-491 | once a row is shown, in a run that has reused no LID before, every row and client that carries its LID later has its uid and server, also after the client is gone, exactly until a connect is issued the LID again |
| LoginLids.FirstTurnReusesNothing | bmloginsvrapp/handle_eventfromclient.go:151-157 | none of the first 2^32 connects is issued a LID in use |
| LoginLookups.FindableExactly | bmloginsvrapp/handle_eventfromclient.go:149-157 | every live client is in the node map under its LID in all states of a run exactly if no connect of it takes the LID of a live client |
| LoginLookups.IndexesAgree | bmloginsvrapp/handle_eventfromclient.go:109-130 | in every state reached without such a connect, scanning a uid's list for a LID finds the node map's client if it is that uid's, and nothing otherwise |
| LoginLookups.ConnectKeepsAgreement | bmloginsvrapp/handle_eventfromclient.go:149-157 | right after a connect the two lookups agree on everybody exactly if its LID is not that of a verified live client |
| LoginLookups.FirstTurnTakesNothing | bmloginsvrapp/handle_eventfromclient.go:151-157 | none of the first 2^32 connects takes the LID of a live client |
| LoginRaces.TakenLid | bmloginsvrapp/handle_eventfromclient.go:151-157 | for every player there is a run whose last connect is issued the connected player's LID, after which the two lookups disagree |
| LoginRaces.SharedLid | bmloginsvrapp/handle_eventfromclient.go:151-157 | for every two players and servers there is a run in which a connect is issued the LID of a row but of no live client, which changes what the LID means, and which ends with two rows of that LID that disagree on player and server |
| LoginHistory.ReloginExactly | bmloginsvrapp/handle_eventfromclient.go:351-359 | whichever row the query returns, the second login is refused exactly if some row of the uid is on another server |
| LoginHistory.AdmittedExactly | bmloginsvrapp/handle_eventfromclient.go:344-431 | a login is admitted exactly if its server is registered, all rows of the uid are on it and the save loads |
| LoginHistory.NoReloginAfterLeaving | bmloginsvrapp/handle_eventfromserver.go:254-265 | once the notice removes a player's last rows, duplicates included, no server's login is refused as a second one |
| LoginEffects.VerdictExactly | bmloginsvrapp/handle_eventfromclient.go:520-538 | 0 exactly for the password of an account of at most 20 characters, 1 exactly for an unknown or longer account, 2 exactly for another password |
| LoginEffects.VerifyEffect | bmloginsvrapp/handle_eventfromclient.go:203-226 | the right password of an unverified connection sets its uid and appends it to that uid's list; anything else changes nothing |
| LoginEffects.VerifiedFromThen | bmloginsvrapp/handle_eventfromclient.go:213-224 | in a run, such a verification gives the client the account's uid for as long as it stays connected |
| LoginEffects.BindEffect | bmloginsvrapp/handle_eventfromserver.go:184-203 | a registered server presenting LID and token of a verified, unbound client gets it, with the player index and code given; anything else changes nothing |
| LoginEffects.BoundFromThen | bmloginsvrapp/handle_eventfromserver.go:184-203 | in a run, such a request binds the client to that server for as long as it stays connected |
| LoginEffects.ConnectEffect | bmloginsvrapp/handle_eventfromclient.go:149-157 | a connect adds a client that is neither verified nor bound, under the token and the low 32 bits of its number among all connects, and nothing else changes |
| LoginEffects.DisconnectEffect | bmloginsvrapp/handle_eventfromclient.go:171-184 | that client, its node map entry and its place in its uid's list go; every other client, entry and place stays |
| LoginEffects.ConnectedExactly | bmloginsvrapp/handle_eventfromclient.go:149-184 | a connection is a client exactly if it has connected and not disconnected since |
| LoginEffects.ClientUntouched | bmloginsvrapp/handle_eventfromclient.go:186-226 | every event but its own verification, binding and disconnect leaves a client as it is |
| LoginEffects.ServersAfter | bmloginsvrapp/handle_eventfromserver.go:73-99 | connecting and being lost are all that makes and ends a game-server connection; it starts unregistered under the next number and only its own registration changes it |
| LoginEffects.RegisterEffect | bmloginsvrapp/handle_eventfromserver.go:139-158 | accepted exactly for a live connection without an id and a free id that is not 0; it then holds id, name and address as stated |
| LoginEffects.RegisteredExactly | bmloginsvrapp/handle_eventfromserver.go:73-158 | a connection is registered with an id, name and address exactly if it stated them in an accepted request and has not been lost since |
| LoginEffects.TimesAfter | bmloginsvrapp/sqlv2.go:465-478 | every row is there as often as before, but for the rows a loss or notice removes, duplicates included, and one more for an admitted login |
| LoginEffects.Frames | bmloginsvrapp/main.go:179-210 | client events leave servers and accounts alone, server events the node map and the lists, and only logins, losses and notices touch rows |
| LoginEffects.AnswerExactly | bmloginsvrapp/handle_eventfromclient.go:344-431 | the exact cause of every answer: 7, 10 with the other server's number, 2, 5 and 3, and admission, which goes to the live connection registered as the client's server |
| LoginEffects.AdmittedToServer | bmloginsvrapp/handle_eventfromclient.go:361-456 | in a run, whoever is admitted is sent to the one connection registered then as the client's server |
| LoginEffects.NewUserVerifies | bmloginsvrapp/sql.go:1093-1109 | every user a batch adds can be verified with the password given, as the uid given |
| LoginEffects.NewPasswordVerifies | bmloginsvrapp/sql.go:1156-1166 | a changed password verifies, and any other is refused with 2 |
| Ledger.ColumnExact | bmloginsvrapp/sql.go:798-800 | the narrowed and reprinted total is the total exactly if it is not negative and fits in int32 |
| Ledger.BalanceViewsAgree | bmloginsvrapp/sql.go:637-695 | in every state, overdrawn ones included, the check passes exactly if the purchase is not refused, a purchase returns the next balance, and the balance is the difference cut off at 0 |
| Ledger.OrderRecorded | bmloginsvrapp/sql.go:952-985 | recording an order keeps order ids unique exactly if the check did not find it |
| Ledger.AfterRemove | bmloginsvrapp/sql.go:892-915 | removing a player empties that player's total and history and leaves every other player's |
| LedgerEffects.CreditExactly | bmloginsvrapp/sql.go:767-811 | the exact cause of each answer of a credit, the history row it writes, and that any answer but success leaves the totals |
| LedgerEffects.CreditedTotal | bmloginsvrapp/sql.go:783-810 | a successful credit leaves the player the column of the history sum, or of the amount for a new total, written now with the old expiry, and everybody else as they were |
| LedgerEffects.BuyExactly | bmloginsvrapp/sql.go:672-695 | -1 exactly for a negative cost, -2 without a total, -3 when the rest does not cover it, -4 when it cannot be written, else what is left, with exactly that purchase recorded |
| LedgerEffects.RemoveExactly | bmloginsvrapp/sql.go:892-915 | true exactly without a total or with both deletes taken; exactly the player's rows go, as far as the deletes are taken |
| LedgerEffects.RemoveSparesOthers | bmloginsvrapp/sql.go:892-915 | every other player's total, history and purchases stay, and so do the player's own purchases |
| LedgerStore.LedgerTables.IncUserDonateInfo | bmloginsvrapp/sql.go:767-811 | the statements of a credit, any write of which may fail, leave the tables the ledger's credit leaves; each answer has its exact cause, and only success changes a total |
| LedgerStore.LedgerTables.OnConsumeDonate | bmloginsvrapp/sql.go:672-695 | a purchase records itself exactly if covered and written, with the code or the rest as answer |
| LedgerStore.LedgerTables.CheckConsumeDonate | bmloginsvrapp/sql.go:651-670 | holds exactly if the player has a total that covers the cost |
| LedgerStore.LedgerTables.GetUserDonateLeft | bmloginsvrapp/sql.go:637-649 | donated less consumed, never below 0 |
| LedgerStore.LedgerTables.RemoveUserDonateInfo | bmloginsvrapp/sql.go:892-915 | total first, then history, stopping at a failing delete; purchases stay |
| LedgerRuns.RunStaysSound | bmloginsvrapp/sql.go:672-811 | over every run of credits and purchases with any writes failing, order ids stay unique, no total exceeds the history and nobody spends more than their total |
| LedgerRuns.CreditLevels | bmloginsvrapp/sql.go:783-810 | a successful credit makes total and history equal exactly if the player had a total or no recorded amounts |
| LedgerRuns.HalfCredited | bmloginsvrapp/sql.go:779-791 | for all amounts and order ids there is a run of two credits whose second succeeds and leaves the total short by the first |
| LedgerRuns.RetryAccepted | bmloginsvrapp/sql.go:767-781 | an order can be sent again exactly if its history insert failed |
| LedgerRuns.RunStaysLevel | bmloginsvrapp/sql.go:767-811 | with no write failing every total equals its history at all times, removals included |
| LedgerRuns.ExactlyOnce | bmloginsvrapp/sql.go:767-781 | sending orders again leaves the same books as sending only the first of each order id, purchases in between included |
| LedgerRuns.TotalIsDistinctOrders | bmloginsvrapp/sql.go:767-811 | with no write failing a total is the sum of the distinct orders sent for the player |
| LedgerRuns.RunBalanceViewsAgree | bmloginsvrapp/sql.go:637-695 | the three views of a balance agree in every state of every run, removals included |
| LedgerRuns.RemoveUncovers | bmloginsvrapp/sql.go:892-915 | after a removal what was spent is covered exactly if nothing was spent |
| LedgerInterleaving.AloneBuys | bmloginsvrapp/sql.go:672-695 | the three statements of a purchase, uninterrupted, are the purchase in one piece |
| LedgerInterleaving.AloneCredits | bmloginsvrapp/sql.go:767-811 | the statements of a credit, uninterrupted, are the credit in one piece, whichever writes fail |
| LedgerInterleaving.NextKeepsInv | bmloginsvrapp/sql.go:767-811 | every single statement of every thread keeps totals within the history, and history sums never fall |
| LedgerSpending.SpendingBelowPeak | bmloginsvrapp/rpc_handler.go:34-68 | with at most k purchases passed and unrecorded, each costing at most C, consumed plus passed costs never exceed the highest total so far by more than (k-1)*C, for every interleaving and failing writes |
| LedgerSpending.SpendingBound | bmloginsvrapp/sql.go:672-695 | hence never the recorded donations by more than (k-1)*C, in every run |
| LedgerSpending.FallsExactly | bmloginsvrapp/sql.go:794-803 | a statement lowers a player's total exactly if it writes a history sum below the total |
| LedgerSpending.TotalsGrowExactly | bmloginsvrapp/sql.go:794-803 | over a run a total never falls exactly if the run has no such write |
| LedgerSpending.BoundExactly | bmloginsvrapp/sql.go:672-811 | throughout a run the bound holds against the total itself exactly if no such write puts the total, and no check against a total read before such a write puts what is committed, out of it |
| LedgerSpending.StaleReadNeedsWrite | bmloginsvrapp/sql.go:672-811 | a check is made against more than the total only after such a write |
| LedgerSpending.TotalSpendingBound | bmloginsvrapp/sql.go:672-695 | so without such a write the bound holds against the total itself, overlapping credits included |
| LedgerSpending.NeverOverspent | bmloginsvrapp/sql.go:672-695 | and purchases one at a time never overspend, even while credits arrive between the two reads |
| LedgerSpending.SerialNeverStale | bmloginsvrapp/sql.go:794-803 | credits of a player that do not overlap make no such write |
| LedgerSpending.SerialTotalsGrow | bmloginsvrapp/sql.go:794-803 | so then the total never falls |
| LedgerSpending.SerialLevel | bmloginsvrapp/sql.go:767-811 | and if every total can be written, the total is the history sum whenever no credit of the player is under way |
| LedgerSpending.SerialSpendingBound | bmloginsvrapp/rpc_handler.go:34-68 | then the bound holds against the total itself, and purchases one at a time never overspend |
| LedgerOrders.RunOrdersUniqueExactly | bmloginsvrapp/sql.go:768-781 | over a run order ids stay unique exactly if no taken insert records an order the history already has |
| LedgerOrders.MeetingDoubles | bmloginsvrapp/sql.go:768-781 | in any state with two credits of one order between check and insert, the two inserts record it twice |
| LedgerOrders.RunOrdersUnique | bmloginsvrapp/sql.go:768-781 | order ids stay unique in runs in which no two such credits meet |
| LedgerRaces.DoubleCredit | bmloginsvrapp/sql.go:768-781 | an order can be credited twice: a run for every player, amount and order |
| LedgerRaces.LostUpdate | bmloginsvrapp/sql.go:794-803 | overlapping credits can lose one of two amounts from the total, and the player has then overspent with one purchase at a time |
| LedgerRaces.StaleWriteOverspends | bmloginsvrapp/sql.go:794-803 | any run that reaches a pending stale write with spending covered can go on, with one purchase on its own, to spend more than the total |
| LedgerRaces.BoundReached | bmloginsvrapp/sql.go:672-695 | for every k and C there is a run that spends exactly the total plus (k-1)*C, so the bound is the best there is |
| Accounts.AccountTable.AddUserNameByUid | bmloginsvrapp/sql.go:1238-1277 | the name goes into the first empty slot if nobody has it; a full account reports success and stays as it is |
| Accounts.AccountTable.RemoveUserNameByUid | bmloginsvrapp/sql.go:1309-1337 | clears the first slot with the name, or fails and changes nothing |
| Accounts.AccountTable.MarkTaken | bmloginsvrapp/sql.go:1086-1091 | flags exactly the entries whose account was in the table before the batch |
| Accounts.AccountTable.InsertUsers | bmloginsvrapp/sql.go:1080-1110 | old rows stay; the insertable entries before the first repeat or failing insert are appended in order, each with its uid, account, password, mail, empty names and offline; true exactly if all of them went in |
| Accounts.InsertableExactly | bmloginsvrapp/sql.go:1086-1099 | insertable are exactly accounts not in the table with at most 19 characters in name and password |
| AccountLaws.BatchKeepsKeys | bmloginsvrapp/sql.go:1080-1110 | after any batch the old table is a prefix, and uids and accounts are distinct with no uid 0 |
| AccountLaws.BatchOutcome | bmloginsvrapp/sql.go:1093-1109 | with no other failure the result is true exactly if no insertable account appears twice |
| AccountLaws.RunKeepsNamesUnique | bmloginsvrapp/sql.go:1180-1337 | over every run of registrations, updates, deletions, adds and removes a non-empty name fills at most one slot of one account |
| AccountLaws.OwnerIsUnique | bmloginsvrapp/sql.go:1339-1357 | whichever row the query returns, its uid is the one owner's, and 0 means nobody has the name |
| AccountLaws.AddThenRemove | bmloginsvrapp/sql.go:1238-1337 | an add that returned true, undone by a remove, restores the table exactly, full accounts included |
| AccountEffects.AddNameExactly | bmloginsvrapp/sql.go:1238-1277 | an add succeeds exactly if nobody has the name and it is written or no slot is empty; the name is then in the account's first empty slot and nothing else has changed |
| AccountEffects.RemoveNameExactly | bmloginsvrapp/sql.go:1309-1337 | a remove succeeds exactly if the account has the name and it is written; its first slot with the name is then empty and nothing else has changed |
| AccountEffects.UnknownUid | bmloginsvrapp/sql.go:1238-1321 | neither does anything for an unknown uid |
| AccountEffects.OwnerAfterAdd | bmloginsvrapp/sql.go:1339-1357 | after an add that found a slot the owner query answers that account's uid |
| PlayerRank.RankTable.UpdateUserRankInfo | bmloginsvrapp/sqlv2.go:332-384 | inserts a new name whole; updates exactly the fields that are not 0 of a known one; false exactly if a needed write fails |
| PlayerRank.RankTable.RemoveUserRankInfo | bmloginsvrapp/sqlv2.go:316-330 | removes the rows of the name and no others |
| PlayerRank.AssignmentsMerge | bmloginsvrapp/sqlv2.go:356-372 | the assignments of the update statement do to a row what replacing its non-zero fields does |
| PlayerRank.TableIsFold | bmloginsvrapp/sqlv2.go:295-384 | after any reports and removals, some unwritten, a name has one row if it was reported since its last removal and none otherwise; each value is the last one that is not 0, uid and job are the first report's |
| Hall.KeyInjective | bmloginsvrapp/main_thread_process.go:91 | two servers share a key exactly if they share address and port, whatever colons the addresses hold |
| Hall.RegisteredExactly | bmloginsvrapp/main_thread_process.go:90-111 | a new server keeps all it stated but number and time; a known one keeps number, address, port, password and version and takes note, online count and time; no other changes |
| Hall.HallServers.AddUserGameServer | bmloginsvrapp/main_thread_process.go:90-111 | a new address and port gets the next id; a known one only has its time, note and online count refreshed; the id returned is the record's |
| Hall.HallServers.RemoveUserGameServer | bmloginsvrapp/main_thread_process.go:113-120 | removes exactly the server with the id, in whatever order the map is visited |
| Hall.HallServers.CheckOfflineUserGameServer | bmloginsvrapp/main_thread_process.go:122-130 | keeps exactly the servers heard of in the last 90 seconds, in whatever order the map is visited |
| Hall.HallServers.GetGsList | bmloginsvrapp/main_thread_process.go:158-176 | one entry for each server in the order visited; where there is a password it reads "1" and the port 0 |
| Hall.HallServers.GetGsAddr | bmloginsvrapp/main_thread_process.go:177-196 | succeeds exactly if the server with the id has no password or this one, with its address and port, in whatever order the map is visited; otherwise no address is given |
| HallRuns.RunNumbered | bmloginsvrapp/main_thread_process.go:90-130 | in every state of every run ids are distinct and each server is filed under its own key |
| HallRuns.NeverReturns | bmloginsvrapp/main_thread_process.go:100-102 | an id that was issued and is gone is never seen again |
| HallRuns.IdMeansAddress | bmloginsvrapp/main_thread_process.go:90-130 | whenever an id is listed in a run it stands for the same address and port |
| HallRuns.SameIdSameServer | bmloginsvrapp/main_thread_process.go:90-111 | two registrations in a row get the same id exactly if they are for the same address and port |
| HallRuns.IdKept | bmloginsvrapp/main_thread_process.go:113-130 | a server still has its id later exactly if no removal named the id and no sweep found it silent for more than 90 seconds |
| HallRuns.RefreshingKeepsId | bmloginsvrapp/main_thread_process.go:103-127 | a server registering again within 90 seconds each time keeps its id whenever the sweeps happen |
| AdminSessions.TwoPartsExactly | bmloginsvrapp/http_admin_handler.go:52-56 | an address has two given parts exactly if they are what stands around its only colon |
| AdminSessions.AdminHandlerSessions.NewAdminHandlerSession | bmloginsvrapp/http_admin_handler.go:42-80 | nothing for an empty or malformed address or empty account; otherwise the session is in, and at every eleventh creation exactly the timed-out sessions go |
| AdminSessions.AdminHandlerSessions.DelAdminHandlerSession | bmloginsvrapp/http_admin_handler.go:82-87 | exactly that session goes |
| AdminSessions.CheckAdminHandlerSession | bmloginsvrapp/http_admin_handler.go:97-119 | 0 exactly if there is a session, it is at most half an hour old and the address is its address and one port |
| AdminSessions.SweepUnobservable | bmloginsvrapp/http_admin_handler.go:69-77 | over every run a request is let in exactly as if nothing were ever swept; only a timeout may be reported as not existing |
| AdminSessions.LetInExactly | bmloginsvrapp/http_admin_handler.go:42-131 | a request is let in exactly if its guid was issued to its address in the last half hour and neither deleted nor issued again |
| AdminSessions.SweepsEveryEleventh | bmloginsvrapp/http_admin_handler.go:62-77 | exactly every eleventh creation of a run sweeps, and it leaves exactly the sessions at most half an hour old |
| RankListCache.RankListCacheV1.GetPlayerRankList | bmloginsvrapp/player_rank.go:34-56 | the time is set on every attempt, the text only on success |
| RankListCache.AlwaysFresh | bmloginsvrapp/player_rank.go:34-56 | over every run each call returns a list made less than 30 seconds earlier |
| RankListCache.FreshExactly | bmloginsvrapp/player_rank.go:34-56 | what is returned is a list less than 30 seconds old exactly if the last attempt to make one succeeded |
| RankListCache.AttemptsExactly | bmloginsvrapp/player_rank.go:35-38 | a call makes a new list exactly if no attempt was made in the last 30 seconds |
| RankListCache.RankListCacheV2.GetPlayerRankList | bmloginsvrapp/player_rank.go:58-87 | an item is replaced only by a list that was made |
| RankListCache.AlwaysFreshV2 | bmloginsvrapp/player_rank.go:58-87 | every call returns a list made for its server less than 30 seconds earlier, whatever failed before, unless this very call has to make one and fails |
| RankListCache.HitsExactlyV2 | bmloginsvrapp/player_rank.go:59-64 | a call makes a new list for a server exactly if none was made for it in the last 30 seconds |
| GoInts.Int32Collides | bmloginsvrapp/handle_eventfromclient.go:153 | int32 of two counters is equal exactly if they differ by a multiple of 2^32 |

## Left out

- LoginLookups.IndexesAgree: not for runs in which a connect takes the LID of a live client, because the LID is the counter cut to 32 bits; ConnectKeepsAgreement gives the exact condition for one connect, TakenLid a run.
- LoginHistory.RunPresenceBacked: only for runs whose server disconnects leave no rows, because the code ignores a failing delete; PresenceExactly makes the condition exact, StrandedRow gives a run.
- LedgerSpending.SpendingBound: bounds spending by the recorded history instead of the total, because a stale write lowers the total (LedgerRaces.LostUpdate); SpendingBelowPeak and TotalSpendingBound have the total.
- RankListCache.Stale: a remark on the order of the statements, about a failure that the records put into the list cannot produce.
- LedgerRuns.RunStaysSound: leaves removals out, because they keep the purchase rows (RemoveUncovers).
- LedgerStore.LedgerTables.OnConsumeDonate: stores the item id as given, because the shop handler admits only positive ones; a negative one would be printed as an unsigned number.
- AdminSessions.AdminHandlerSessions.NewAdminHandlerSession: is one atomic step, because the map is locked; the counter is incremented outside the lock, and a lost increment only delays a sweep, which is proved unobservable.
- Reading a total outside the int32 range back from the table is not modelled; the results that depend on totals assume they fit.
- The save-file library, cgo, save data and the role create and delete requests: foreign code; a login carries its outcome.
- Network, protobuf, JSON and HTTP plumbing; packets arrive decoded, malformed ones and the closing of their connections are left out.
- Messages sent to clients and servers beyond the decision they report: server lists, role summaries, extended login data, gifts.
- SQL text, quoting and errors of read statements; ORDER BY of the rank lists.
- removeClientFromClientUserMapRaw and getClientsFromClientUserMap, which follow the same pattern as the functions modelled; getPlayerSaveFileHandle is foreign.
- dbAddUserName and dbRemoveUserName by account name are covered as operations of the runs, not as methods of their own.
- dbUserNameExistV2, dbAddUserNameV2, dbRemoveUserNameV2 and dbUpdateUserDonateInfo: nothing in the server calls them.
- Administrator accounts, donation requests, gifts, schedules, crash reports, the Redis loop, captcha and cookies: plain record keeping or external.
- When the hall sweep runs: it is an event that may come at any time.
