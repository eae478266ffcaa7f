# DinoMonitor record keeping, in Dafny

This project models the record-keeping core of the DinoMonitor Discord bot.
The bot lets players of The Isle: Evrima record which dinosaur they play, on
which server, on which of their accounts, and whether it is nested with which
mutations. Two cogs make up the core:

- `cogs/dino_tracker.py`. It holds the static catalogs: regions to servers,
  categories to dinosaurs, and categories to mutations plus an `"All"` pool. It
  also holds three SQLite tables. `accounts` has primary key (discord_id,
  account_name). `dino_records` has an autoincrement id. `mutations` rows point
  at a record id. The commands are `add_alt`, `update_dino` (the account,
  server, dinosaur, nested and mutation prompts, then one record insert and one
  mutation row per chosen mutation) and `server_info` (per-server counts by
  dinosaur for one region).
- `cogs/settings_alt_accounts.py`. It holds the `user_settings` table (one row
  per user: the enabled flag and the alt count) and the `alt_accounts` table
  (autoincrement id, user, name). The commands are `toggle_alt_accounts`,
  `set_num_alts`, `name_alt` and `list_alts`.

The files:

- `wrappers.dfy`: module `Wrappers`, the `Option` type.
- `basics.dfy`: module `Basics`, the `UserId` type both cogs key their rows by
  and the `NoDuplicates` predicate (distinct catalog labels and keys, and the
  `accounts` primary key).
- `catalog.dfy`: module `Catalog`. The three catalogs are ordered sequences of
  (key, labels) pairs, because a Python dict keeps insertion order. The module
  also has the dictionary lookup, the flattening that the option builders do,
  the `next(...)` category search and the mutation candidates. The catalog
  constants `EvrimaServers`, `Dinosaurs` and `Mutations` copy
  `cogs/dino_tracker.py:8-25`; the shape lemmas state what those literals hold.
- `dino_tracker.dfy`: module `DinoTracker`. Class `DinoStore` holds the three
  tables as sequences and the next record id. Its methods are `AddAlt`,
  `UpdateDino` (with its writes in `InsertRecord` and its mutation loop in
  `InsertMutations`) and `ServerInfo`. Beside it are the option builders and the
  specification functions of the SQL queries (`NamesOf`, `CountOf`,
  `DinosaursOn`, `Summary`).
- `settings_alt_accounts.dfy`: module `SettingsAltAccounts`. Class
  `SettingsStore` holds `user_settings` as a map from user id, `alt_accounts`
  as a sequence, and the next alt id. Its methods are `ToggleAltAccounts`
  (with its naming loop in `CommitAltNames`), `SetNumAlts`, `NameAlt` and
  `ListAlts`.

Every prompt's answer is a parameter. In `update_dino` these are the account
answer, the server, the dinosaur, the button pressed on the nested prompt
(`check_if_nested` is true exactly for the Yes button) and the picked
mutations. The prompts in `update_dino` wait without a timeout. In the model,
the flow has one abort path: for a nested dinosaur that is in no DINOSAURS
category, `select_mutations` raises in its `next(...)` before anything is
written, and the model returns `MutationPromptRaised` with every table
unchanged. In `toggle_alt_accounts` the count reply is `NoReply` (timeout),
`NotANumber` (`int()` raised `ValueError`) or `Number(n)`. The name replies
are the sequence of names that arrived before the first timeout. The value of
`datetime.now()` is a `Timestamp` parameter.

The two cogs keep alt names in different tables. `add_alt` writes `accounts`,
and `update_dino` reads `accounts` to build the account prompt. The settings
cog writes and reads `alt_accounts` only. So names entered through
`toggle_alt_accounts` or `name_alt` never show up in `update_dino`. The model
keeps the two tables in two classes, as the source does.

## Model

| member | source | states |
|---|---|---|
| `Catalog.Lookup` | cogs/dino_tracker.py:199-203 | A key lookup in a catalog fails exactly when the key is not one of the catalog's keys. Otherwise it returns a list stored under that key. |
| `Catalog.LookupDistinct` | cogs/dino_tracker.py:182 | When a catalog's keys are distinct, looking up a key returns that key's own list. |
| `Catalog.FlattenMembership` | cogs/dino_tracker.py:130-133 | A label is in the flattened catalog exactly when some group of the catalog lists it. |
| `Catalog.FlattenOptions` | cogs/dino_tracker.py:130-133 | The nested append loops produce exactly the flattened catalog, in catalog order. The length is the total number of labels, and every option belongs to some group. |
| `Catalog.FirstGroupContaining` | cogs/dino_tracker.py:181 | The search returns the first group whose list contains the label, and no earlier group contains it. It returns None (the StopIteration case) exactly when no group contains the label. |
| `Catalog.FirstGroupOfDisjoint` | cogs/dino_tracker.py:181 | When no label is listed under two keys, the first group containing a label is the group that lists it. |
| `Catalog.DinoCategory` | cogs/dino_tracker.py:181 | The category search finds nothing exactly when no DINOSAURS list holds the dinosaur. Otherwise it returns a category whose list holds it. |
| `Catalog.MutationCandidates` | cogs/dino_tracker.py:181-182 | The mutation list exists exactly when the dinosaur has a category: `MUTATIONS[category]` and `MUTATIONS["All"]` never raise KeyError. |
| `Catalog.MutationListsExist` | cogs/dino_tracker.py:15-25 | Every DINOSAURS category and the "All" pool have a MUTATIONS list. |
| `Catalog.DistinctLabelsDisjoint` | cogs/dino_tracker.py:8-18 | When no label appears twice in a whole catalog, no label is listed under two keys. |
| `Catalog.ServerLabelsDistinct` | cogs/dino_tracker.py:8-13 | The 17 server names are pairwise distinct. |
| `Catalog.DinosaurLabelsDistinct` | cogs/dino_tracker.py:14-18 | The 16 dinosaur names are pairwise distinct. |
| `Catalog.ServerCatalogShape` | cogs/dino_tracker.py:8-13 | No server is listed under two regions. There are 17 distinct servers and the region names are distinct. |
| `Catalog.DinosaurCatalogShape` | cogs/dino_tracker.py:14-18 | No dinosaur is listed under two categories. There are 16 distinct dinosaurs. |
| `Catalog.MutationCatalogShape` | cogs/dino_tracker.py:20-25 | MUTATIONS has one list per DINOSAURS category, at the same position, then the "All" pool. Each list has 3 labels, and a category list shares no label with the pool. |
| `Catalog.MutationCandidatesOfCatalogDinosaur` | cogs/dino_tracker.py:180-185 | For a dinosaur listed under category c, the mutation options are MUTATIONS[c] followed by MUTATIONS["All"]. That is six distinct labels. |
| `Catalog.MutationCandidatesDefined` | cogs/dino_tracker.py:181-182 | A dinosaur has mutation candidates exactly when it is one of the dinosaur options. For any other name the `next(...)` raises. |
| `DinoTracker.NamesOf` | cogs/dino_tracker.py:76-77 | The account query returns at most one name per stored row, and every name it returns has a stored (user, name) row. |
| `DinoTracker.NamesOfMembership` | cogs/dino_tracker.py:76-77 | The account query lists a name for a user exactly when the (user, name) row is stored. |
| `DinoTracker.InsertOrIgnore` | cogs/dino_tracker.py:65-66 | After INSERT OR IGNORE the row is present. The rows are the old rows plus that one, and the primary-key uniqueness is kept. |
| `DinoTracker.OccursOnce` | cogs/dino_tracker.py:36-40 | In a table with a primary key, a present row occurs exactly once. |
| `DinoTracker.AddAltTwice` | cogs/dino_tracker.py:65-66 | `add_alt` is idempotent. Adding the same (user, name) twice leaves the table as adding it once, with exactly one such row. |
| `DinoTracker.AccountOptions` | cogs/dino_tracker.py:113-115 | The account options are the user's names in stored order, then "main" last. |
| `DinoTracker.MutationRowsFor` | cogs/dino_tracker.py:105-107 | There is one mutation row per chosen mutation, in order, and each references the given record id. |
| `DinoTracker.NotNestedHasNoMutations` | cogs/dino_tracker.py:94-107 | In a store that keeps the table invariants, a record stored as not nested has no mutation row referencing it. |
| `DinoTracker.CountOf` | cogs/dino_tracker.py:209-214 | The `COUNT(*)` of a (server, dinosaur) group is at most the number of records. |
| `DinoTracker.DinosaursOn` | cogs/dino_tracker.py:209-215 | A server has at most one `GROUP BY` group per record, and every group has a positive count. |
| `DinoTracker.NoGroupsMeaning` | cogs/dino_tracker.py:209-218 | A server has no `GROUP BY` group exactly when no record is on that server. |
| `DinoTracker.Summary` | cogs/dino_tracker.py:216-221 | A server's field is "No data available" exactly when no record is on that server. |
| `DinoTracker.DinosaursOnMeaning` | cogs/dino_tracker.py:209-215 | The GROUP BY keys of a server are distinct. A dinosaur is a key exactly when some record on that server has it, which is exactly when its COUNT is positive. |
| `DinoTracker.SummaryMeaning` | cogs/dino_tracker.py:208-221 | A server's field is "No data available" exactly when no record is on that server. Otherwise it lists each dinosaur on the server once, each with its positive record count, and no other dinosaur. |
| `DinoTracker.CountAfterInsert` | cogs/dino_tracker.py:209-214 | One more record raises the count of its (server, dinosaur) by one and leaves every other count unchanged. Its server's field then has data. |
| `DinoTracker.SelectServerOptions` | cogs/dino_tracker.py:129-133 | The server options are all region server lists concatenated in catalog order. A server is an option exactly when some region lists it, and the 17 options are distinct. |
| `DinoTracker.SelectDinosaurOptions` | cogs/dino_tracker.py:147-151 | The dinosaur options are all category lists concatenated in catalog order. A dinosaur is an option exactly when some category lists it, and the 16 options are distinct. |
| `DinoTracker.DinoStore.constructor` | cogs/dino_tracker.py:33-60 | Creating the tables on an empty database gives three empty tables that satisfy the store invariant. |
| `DinoTracker.DinoStore.AddAlt` | cogs/dino_tracker.py:62-68 | `accounts` becomes the INSERT OR IGNORE of (user, name), so an existing row leaves the table unchanged. The user's listed names are the old ones plus this name, and no other table changes. |
| `DinoTracker.DinoStore.UpdateDino` | cogs/dino_tracker.py:70-111 | For a nested dinosaur in no DINOSAURS category the mutation prompt raises (cogs/dino_tracker.py:181), and no table changes. Otherwise the account is "main" when the user has no `accounts` rows, else the chosen option. Exactly one record (user, account, server, dinosaur, nested, timestamp) is appended, with an id greater than every existing id. Exactly one mutation row per picked mutation is appended, referencing that id, and only when Yes was pressed. Nothing stored earlier changes, and the invariants hold: ids increase with insertion and every mutation row points at a nested record. |
| `DinoTracker.DinoStore.InsertRecord` | cogs/dino_tracker.py:98-107 | The INSERT appends exactly one record with an id greater than every existing id. It then appends exactly the mutation rows for the chosen mutations, and the store invariant holds. |
| `DinoTracker.DinoStore.InsertMutations` | cogs/dino_tracker.py:105-107 | The insert loop appends exactly the rows for the chosen mutations, in order, each referencing the new record, and keeps every mutation row pointing at a nested record. |
| `DinoTracker.DinoStore.ServerInfo` | cogs/dino_tracker.py:197-223 | An unknown region yields the error listing the region names, computed without reading any record. A known region yields one field per server of that region, in catalog order, each summarising the records on that server. |
| `SettingsAltAccounts.AltNamesOf` | cogs/settings_alt_accounts.py:121-122 | The alt query returns at most one name per stored row. |
| `SettingsAltAccounts.AltNamesOfMembership` | cogs/settings_alt_accounts.py:121-122 | A name is listed for a user exactly when some alt row of that user carries it. |
| `SettingsAltAccounts.AltNamesOfEmpty` | cogs/settings_alt_accounts.py:121-125 | A user's alt list is empty exactly when the table holds no row of that user. |
| `SettingsAltAccounts.WithoutUser` | cogs/settings_alt_accounts.py:95 | The DELETE leaves no row of the user and never adds a row. |
| `SettingsAltAccounts.AltRowsFor` | cogs/settings_alt_accounts.py:62-71 | The naming loop appends one row per name, in the order entered, with consecutive fresh ids. |
| `SettingsAltAccounts.WithoutUserMembership` | cogs/settings_alt_accounts.py:95 | The DELETE keeps exactly the rows of other users. |
| `SettingsAltAccounts.WithoutUserKeepsIds` | cogs/settings_alt_accounts.py:95 | The DELETE keeps the autoincrement ids increasing and below the next id. |
| `SettingsAltAccounts.AltNamesOfWithoutUser` | cogs/settings_alt_accounts.py:94-96 | After the DELETE the user has no alt names, and every other user's names are unchanged. |
| `SettingsAltAccounts.AltNamesOfSnoc` | cogs/settings_alt_accounts.py:110-113 | One more row adds its name at the end of its user's list and changes no other user's list. |
| `SettingsAltAccounts.AltNamesOfAppended` | cogs/settings_alt_accounts.py:62-71 | After the naming loop appends rows for a user, the user's names are the earlier names followed by the new names, in order. |
| `SettingsAltAccounts.ToggleOutcomeAgrees` | cogs/settings_alt_accounts.py:47-78 | The stored count stays within 0..10. The committed names number at most the replies received and at most the accepted count. The outcome is "all named" exactly when every accepted name was committed, and a naming timeout reports how many were committed. |
| `SettingsAltAccounts.SettingsStore.constructor` | cogs/settings_alt_accounts.py:13-30 | Creating the tables gives an empty settings map and an empty alt table. |
| `SettingsAltAccounts.SettingsStore.ToggleAltAccounts` | cogs/settings_alt_accounts.py:32-80 | The user's settings row is rewritten with the flag. Its count is the accepted count when enabling with a reply in 1..10, and 0 otherwise (the column default, since INSERT OR REPLACE omits it). Names are appended in order, one per reply that arrived in time, up to the count, so an abort after k names leaves exactly k rows. The outcome names the exit taken. |
| `SettingsAltAccounts.SettingsStore.CommitAltNames` | cogs/settings_alt_accounts.py:62-71 | The naming loop commits min(n, replies) names: one new row per name, in order, with consecutive fresh ids, stopping at the first missing reply. The user's names gain exactly those names at the end. |
| `SettingsAltAccounts.SettingsStore.SetNumAlts` | cogs/settings_alt_accounts.py:82-98 | A count outside 0..10 is rejected and no table changes. Otherwise an existing settings row takes the count, and no row is created. All of the user's alt rows are deleted, and other users' rows and names are untouched. |
| `SettingsAltAccounts.SettingsStore.NameAlt` | cogs/settings_alt_accounts.py:100-116 | The call is accepted exactly when the user has a settings row and the number is at most `num_alt_accounts`, so zero and negative numbers pass. An accepted call appends a new row with a fresh id, never replacing one, and the user's names gain this name at the end. A rejected call changes nothing. |
| `SettingsAltAccounts.SettingsStore.ListAlts` | cogs/settings_alt_accounts.py:118-129 | The reply is the empty-list message exactly when the table holds no alt row of the user. Otherwise it lists the user's names in retrieval order, numbered 1..k. |

## Left out

- Discord I/O is not modelled: messages, embeds, select menus, buttons, views, `wait_for` and its user/channel correlation checks. Each prompt's answer is a parameter, and the message texts are not rendered. Discord's limits on a select menu are not modelled either: it holds at most 25 options, and its option values must be distinct. So a user with more than 24 `accounts` rows, or with an account named "main", would most likely make the account prompt fail to send (cogs/dino_tracker.py:121). The model offers the full option list.
- The `GROUP_CONCAT(account_name)` player list and the formatting of the report lines are not modelled. A field keeps the (dinosaur, count) pairs only.
- The order of the `GROUP BY` groups is not modelled. SQLite gives no order without ORDER BY, and the model lists the groups in order of first appearance. The same holds for the account and alt queries, which the model returns in insertion order. For `accounts`, SQLite would likely answer `WHERE discord_id = ?` through the composite PRIMARY KEY index (cogs/dino_tracker.py:39), so the account prompt would list names sorted by name rather than by insertion.
- `DinoTracker.DinoStore.UpdateDino` does not require its account, server and dinosaur answers to be options of their prompts. The select menus only ever return options, and the code does not check the answers. A server outside the catalog, or a dinosaur outside the catalog that is not nested, is written as given, as the source would write it. A nested dinosaur outside the catalog takes the `MutationPromptRaised` path. The option builders state which values the prompts offer.
- `DinoTracker.DinoStore.UpdateDino` does not require the picked mutations to be among the dinosaur's mutation candidates. The select menu only offers those, but the code does not check the pick. So the store invariant says that every mutation row points at a nested record, and not that its label is one of that record's candidates. The candidates themselves are stated by `Catalog.MutationCandidatesOfCatalogDinosaur`.
- `DinoTracker.DinoStore.UpdateDino` does not model the Discord rule that a select menu needs at least one value. The mutation pick may be empty.
- `DinoTracker.DinoStore.UpdateDino` is one atomic step. In the source, `update_dino` reads `accounts` (cogs/dino_tracker.py:76-77) and writes (cogs/dino_tracker.py:99-107) with up to five awaited prompts in between. Any slash command by the same user while a prompt waits (`add_alt`, say) reaches the prompt's check, whose `i.data["custom_id"]` lookup raises (cogs/dino_tracker.py:124, 142, 160, 175, 192); and once the interaction token expires, the next prompt's `followup.send` raises. Either aborts `update_dino` with no write. The model has no such path. The contract describes an uninterrupted run only.
- `SettingsAltAccounts.SettingsStore.ToggleAltAccounts` is one atomic step. In the source, `toggle_alt_accounts` awaits the count reply (cogs/settings_alt_accounts.py:48) and every name reply (cogs/settings_alt_accounts.py:63-64) between its commits. A concurrent `set_num_alts`, `name_alt` or second toggle by the same user can run in between. For example, a `set_num_alts` during the naming loop deletes the names entered so far, and the loop then appends the rest. The contract describes an uninterrupted run only.
- SQLite internals, connections, commits and the unenforced FOREIGN KEY clauses are not modelled. The constructors model `create_tables` on an empty database.
- The timestamp from `datetime.now()` is a parameter.
- bot.py is not part of this model. It is command registration, extension loading, the latency ping and an owner check that delegates to the Discord client.
- dino_monitor.py is not part of this model. It is an HTTP call to the Steam Web API plus bot start-up.
