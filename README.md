# Student registration backend: a verified model

This project models the core of a Django backend. A Telegram bot registers
students (`Register` rows). Staff upload the academic registry as a spreadsheet
(`HemisTable` rows). The backend reconciles the two and broadcasts messages to
Telegram groups.

The model covers seven parts:

- **Linker** (`Signals`). The `post_save` and `m2m_changed` handlers link a
  Register with the HemisTable row holding the same `(hemis_id, pnfl)`.
  They activate the register, copy its active groups onto the row and mirror
  later group changes. Each handler is a pure function over the store
  (`Entities.Db`) plus a method on the store class `Entities.Store`. The
  method performs the same targeted updates in place and is proved equal to
  the function.
- **Excel ingestion** (`Ingestion`). `get_cell_value`, PNFL cleaning, the
  row loop of `process_excel_simple` with its numbered errors, the bulk
  insert, the bulk activation, and the dashboard statistics.
- **Register selection and bulk status update** (`RegisterService`),
  together with the text sanitiser `clean_text_for_display`.
- **Telegram send helpers**:
  - `MassMessage`: the checks and the group/file loops of
    `send_mass_message`, and `get_telegram_method`.
  - `Multipart`: the multipart/form-data body of `send_telegram_request`,
    in the format of RFC 7578 with the delimiters of section 5.1.1 of
    RFC 2046.
  - `Utf8`: the UTF-8 encoding of `str.encode()`, per RFC 3629.
- **Group upsert** (`GroupUpsert`): `TelegramGroupSerializers.create`.
- **Admin-user creation** (`AdminUsers`): the checks and defaults of
  `CustomUserManager`.
- **Entities** (`Entities`). The three tables, their unique columns and
  defaults (`DbValid`), the `.first()` queries, and `TelegramGroup.__str__`.
  `Text` holds `str.strip`, digit filtering and `str(int)`.

Conventions:

- A table is a sequence ordered by primary key, so "the first row of a
  query" is the matching row earliest in the sequence.
- The Bot API, the clock and the random boundary are parameters:
  - `reply(n)` is the answer to the n-th request of a run;
  - `random` is the 16 bytes the boundary is made from.

Some checks one might expect of the import are absent from
`process_excel_simple` (core/views/hemis_teble.py), and the model does
not add them:

- it does not check the length of a name or of a passport;
- it does not reject a PNFL that is not 14 digits, but stores the trimmed
  text instead;
- it does not parse the birth date;
- it deduplicates by student ID only, never by PNFL;
- it reports `created_count`, `activated_count` and the errors, with no
  skipped count and no success rate; `created_count` is simply
  `len(hemis_objects)`.

`get_statistics` reports counts, not rates. core/models.py does not declare
`Register.hemis_id` at all (see "## Left out"), so nothing makes it unique,
and the model imposes no uniqueness on it.

## Model

| member | source | states |
|---|---|---|
| Entities.GroupLabel | core/models.py:13-14 | defines `TelegramGroup.__str__`; its meaning is stated by `GroupLabelReadsBack` |
| Entities.GroupsValid | core/models.py:7-11 | defines the group table's integrity: pks increase and `group_id` is unique; kept by `InsertGroup` and `GroupUpsert.UpsertKeepsValid` |
| Entities.RegistersValid | core/models.py:21-31 | defines the register table's integrity: pks increase, `telegram_id` and `register_group_id` are unique, a non-null `pnfl` is unique, and memberships name existing groups; kept by `InsertRegisterKeepsValid` and the KeepsValid lemmas |
| Entities.HemisValid | core/signals.py:145-151 | defines the HemisTable's integrity: pks increase, student IDs differ, a register is linked from at most one row (the one-to-one `hemis_data`), and links and memberships name existing rows; used by `LinkedRowIsUnique` and kept by `Ingestion.IngestKeepsValid` and the Signals KeepsValid lemmas |
| Entities.DbValid | core/models.py:7-31 | defines the store's integrity as the three table predicates over each other's pks; `Store.Valid()` is this predicate, and the constructor and every store method keep it |
| Entities.GroupLabelReadsBack | core/models.py:13-14 | the group label is the name, " (", the decimal group id and ")"; the id reads back from the label |
| Entities.FirstHemis | core/signals.py:27-41 | the index returned is the lowest-pk HemisTable row the filter selects; None exactly when no row matches |
| Entities.FirstRegister | core/signals.py:79-91 | the lowest-pk register the filter selects; None exactly when none matches |
| Entities.FirstGroup | api/serializers.py:10-13 | the lowest-pk group the filter selects; None exactly when none matches |
| Entities.LinkedRowIsUnique | core/signals.py:150-151 | in a valid store the row linked to a register (its `hemis_data`) is the first and only row linked to it |
| Entities.MaxId | core/models.py:7-11 | bounds every pk in the table, so the auto-increment pk that follows is fresh |
| Entities.NextPk | core/models.py:7-31 | the pk the auto-increment counter hands out next is larger than every pk already in the table |
| Entities.InsertGroup | core/models.py:7-11 | inserting fails exactly when the `group_id` is taken; otherwise it appends one active group with the name and id and a fresh pk, and keeps the table valid |
| Entities.InsertRegister | core/models.py:21-31 | inserting fails exactly when a unique column clashes (`telegram_id`, `register_group_id`, a non-null `pnfl`); otherwise the new row is inactive, the declared default, and takes the assumed defaults of the undeclared fields: not a teacher and in no group |
| Entities.InsertRegisterKeepsValid | core/models.py:21-26 | inserting keeps pks increasing and the unique columns unique |
| Entities.Store.constructor | core/models.py:7-31 | a new store holds empty tables and is valid |
| Text.Strip | core/views/hemis_teble.py:177 | defines `str.strip()` as dropping `LeadingSpaces` and `TrailingSpaces`; its meaning is stated by `StripSpec` and `DigitsOfStrip` |
| Text.ParseInt | core/views/views.py:196 | defines `int()` on a stripped digit run with an optional sign; `IntRoundTrip` proves it reads back `str(i)` |
| Text.LeadingSpaces | core/views/hemis_teble.py:177 | counts exactly the whitespace that `strip` removes at the front |
| Text.TrailingSpaces | core/views/hemis_teble.py:177 | counts exactly the whitespace that `strip` removes at the end |
| Text.StripSpec | core/views/hemis_teble.py:177 | the stripped text neither starts nor ends with whitespace; it is empty exactly when the input is all whitespace; it leaves text without surrounding whitespace unchanged and keeps only characters of the input |
| Text.Digits | core/views/hemis_teble.py:104 | the result holds only digits, is no longer than the input, and equals an all-digit input |
| Text.DigitsConcat | core/views/hemis_teble.py:104 | the digits of a concatenation are the digits of each part, in order |
| Text.DigitsOfStrip | core/views/hemis_teble.py:104-108 | stripping whitespace never removes a digit |
| Text.NatToDecimal | core/views/hemis_teble.py:91 | `str(n)` is a non-empty run of digits without a leading zero |
| Text.DecimalRoundTrip | core/views/hemis_teble.py:91 | the decimal text of n reads back as n |
| Text.IntToDecimal | core/views/tg_group.py:125 | `str(i)` is digits, with a leading '-' for a negative i |
| Text.IntRoundTrip | core/views/tg_group.py:125 | the decimal text of any integer reads back as that integer |
| Ingestion.CellValue | core/views/hemis_teble.py:166-182 | defines `get_cell_value`; its cases are stated by `CellValueCases` |
| Ingestion.CleanPnfl | core/views/hemis_teble.py:102-108 | defines the PNFL cleaning; its cases are stated by `CleanPnflCases` and `CleanPnflIdempotent` |
| Ingestion.ClassifyRow | core/views/hemis_teble.py:81-134 | defines one pass of the row loop's body; its outcomes are stated by `ClassifyRowCases` and `StepShape` |
| Ingestion.Scan | core/views/hemis_teble.py:76-139 | defines the row loop by recursion over the rows; its properties are stated by the `Scan...` lemmas, and the method `ScanRows` is proved equal to it |
| Ingestion.Ingest | core/views/hemis_teble.py:67-163 | defines the whole import: the scan, the bulk insert of `NewRows` and the activation of the queue; its properties are stated by `IngestKeepsValid`, `IngestTwiceCreatesNothing` and `IngestStatistics`, and `ProcessExcelSimple` is proved equal to it |
| Ingestion.GetStatistics | core/views/hemis_teble.py:195-207 | defines `get_statistics`; its meaning is stated by `StatisticsPartition` and `IngestStatistics` |
| Ingestion.CellValueCases | core/views/hemis_teble.py:166-182 | a cell past the row end or a missing value gives ""; any other cell gives its stripped text, which neither starts nor ends with whitespace |
| Ingestion.CleanPnflCases | core/views/hemis_teble.py:102-108 | an empty PNFL stays ""; exactly 14 digits give those digits; anything else gives the trimmed original; a stored 14-digit value is always the input's digits |
| Ingestion.CleanPnflIdempotent | core/views/hemis_teble.py:102-108 | cleaning a stored PNFL again changes nothing |
| Ingestion.ClassifyRowCases | core/views/hemis_teble.py:81-134 | a row has an empty ID, a known ID, an empty name, or a draft; each case holds exactly under its condition; a register is queued only when it is inactive, has the draft's ID and PNFL, and the PNFL has 14 characters; one is queued whenever such a register exists |
| Ingestion.StepShape | core/views/hemis_teble.py:89-134 | an accepted row, whose ID was not seen and whose ID and name are present, appends its draft, adds its ID to the IDs seen and adds no error; any other row adds at most one error and changes nothing else |
| Ingestion.ScanSeen | core/views/hemis_teble.py:74-134 | after the loop the IDs seen are those stored before plus those of the accepted rows |
| Ingestion.ScanAcceptsFreshRows | core/views/hemis_teble.py:90-134 | every accepted row has an ID and a name, and its ID is new to the table and to the other accepted rows |
| Ingestion.StepKeepsFresh | core/views/hemis_teble.py:94-134 | one more row keeps the accepted IDs fresh and distinct |
| Ingestion.ScanCountsRows | core/views/hemis_teble.py:76-139 | the accepted rows plus the error lines never exceed the number of rows |
| Ingestion.ScanReportsMissingId | core/views/hemis_teble.py:90-92 | every row with an empty ID produces "Qator n: ID bo'sh", with n its index plus 2 |
| Ingestion.ScanReportsMissingFio | core/views/hemis_teble.py:97-99 | a row with a new ID and an empty name produces "Qator n: FIO bo'sh" |
| Ingestion.ScanSeesCompleteRows | core/views/hemis_teble.py:94-134 | after the loop the ID of every row with both an ID and a name is among the IDs seen |
| Ingestion.SeesCompleteSnoc | core/views/hemis_teble.py:76 | the rows already covered stay covered when one more row is covered |
| Ingestion.StepSeesRow | core/views/hemis_teble.py:94-134 | one row never forgets an ID; afterwards the ID of a complete row is known |
| Ingestion.ScanOfKnownRowsAcceptsNothing | core/views/hemis_teble.py:94-95 | when every complete row's ID is already known, nothing is accepted |
| Ingestion.ScanQueuesMatchingInactive | core/views/hemis_teble.py:122-132 | every queued pk belongs to an inactive register with the ID and the 14-character PNFL of an accepted row |
| Ingestion.StepKeepsQueueMatches | core/views/hemis_teble.py:122-132 | one more row keeps every queued pk matched |
| Ingestion.NewRows | core/views/hemis_teble.py:111-119 | one new row per draft, in order, with consecutive pks from the next free one, the draft's values, no register and no group |
| Ingestion.Activate | core/views/hemis_teble.py:156-158 | the update keeps the number of registers |
| Ingestion.ActivateAt | core/views/hemis_teble.py:156-158 | each register whose pk is queued becomes active; every other register is unchanged |
| Ingestion.ActivateNone | core/views/hemis_teble.py:154 | an update on no pks changes nothing, so skipping it is the same |
| Ingestion.CountIn | core/views/hemis_teble.py:156-158 | the count the update reports is at most the number of registers |
| Ingestion.HemisIdsAppend | core/views/hemis_teble.py:145 | the IDs of the table after the insert are the old ones plus the drafts' |
| Ingestion.ActivateKeepsValid | core/views/hemis_teble.py:156-158 | activation changes only `is_active`; the registers keep their pks and stay valid |
| Ingestion.ActiveFlagOnlyKeepsValid | core/models.py:21-31 | registers that differ only in `is_active` have the same pks and are equally valid |
| Ingestion.AppendKeepsValid | core/views/hemis_teble.py:145 | appending the accepted rows keeps pks increasing, links one-to-one and student IDs unique |
| Ingestion.NewRowAt | core/views/hemis_teble.py:145 | the n-th new row sits after the old ones, unlinked, in no group, with a pk above the older rows' |
| Ingestion.IngestKeepsValid | core/views/hemis_teble.py:67-163 | the import keeps the store valid, student IDs unique included; it leaves the old rows and the groups as they were, adds `created_count` rows, and changes registers only in `is_active` |
| Ingestion.IngestTwiceCreatesNothing | core/views/hemis_teble.py:74-134 | importing the same rows a second time creates nothing |
| Ingestion.StatisticsPartition | core/views/hemis_teble.py:195-207 | `unregistered_count` is the number of unlinked rows and `not_in_group_count` the number of rows in no group; the registered and in-group counts are between 0 and `total` |
| Ingestion.CountsAppendNewRows | core/views/hemis_teble.py:198-199 | unlinked rows in no group change neither the registered count nor the in-group count |
| Ingestion.IngestStatistics | core/views/hemis_teble.py:195-207 | after an import the total and the unregistered count grow by `created_count`; the registered and in-group counts stay |
| Ingestion.ScanRows | core/views/hemis_teble.py:76-139 | the loop's drafts, queue, errors and IDs seen are those of the row-by-row specification |
| Ingestion.ActivateRegisters | core/views/hemis_teble.py:156-158 | the update's registers and count are those of the specification |
| Ingestion.ProcessExcelSimple | core/views/hemis_teble.py:67-163 | the new store and the returned `(created_count, activated_count, errors)` are those of `Ingest`; a valid store stays valid |
| RegisterService.ParseTarget | core/views/views.py:181-188 | "reg_true", "reg_false" and "teacher" name the three categories; any other string is unknown |
| RegisterService.Selected | core/views/views.py:176-188 | the selection holds exactly the registers in scope that meet the category, and nothing for an unknown one |
| RegisterService.UsersByCriteria | core/views/views.py:174-188 | a register is selected iff it is in the given group (when one is given) and is an active non-teacher for "reg_true", an inactive non-teacher for "reg_false", or a teacher for "teacher"; any other target selects nothing |
| RegisterService.CriteriaPartitionScope | core/views/views.py:181-186 | each register in scope is in exactly one of the three lists, and their sizes add up to the registers in scope |
| RegisterService.ScopeCountAtMostOne | core/models.py:25 | with `register_group_id` unique, at most one register is in the scope of a group |
| RegisterService.ScopeHoldsAtMostOne | core/views/views.py:176-199 | in a valid store a group scope holds at most one register, so the three lists of a group hold at most one register between them |
| RegisterService.UpdateAll | core/views/views.py:205-216 | the update keeps the number of registers |
| RegisterService.UpdateAllAt | core/views/views.py:205-216 | a matched register gets the new flags; every other register stays as it was |
| RegisterService.CountMatches | core/views/views.py:205-216 | the count `.update()` returns is at most the number of registers |
| RegisterService.ScopeOf | core/views/views.py:195-199 | an absent or empty posted group id, and nothing else, means all registers; a text `int()` refuses answers Django's "Field 'id' expected a number" error; a number no group has as pk answers "Guruh topilmadi"; a found group scopes to that pk |
| RegisterService.PostedZeroIsLookedUp | core/views/views.py:195-196 | a posted "0" is true, so it is looked up instead of selecting every register; with pks from 1 it answers "Guruh topilmadi" |
| RegisterService.PostedPkScopesGroup | core/views/views.py:195-197 | a stored group's pk, posted as its decimal text, scopes the update to that group |
| RegisterService.Promote | core/views/views.py:201-219 | defines the two guarded updates in order; its effect is stated by `BulkUpdateEffect` and `BulkUpdateCount`, and `PromoteRegisters` is proved equal to it |
| RegisterService.BulkUpdate | core/views/views.py:190-225 | defines `bulk_update_status` on the store: the scope lookup, then `Promote`; its properties are stated by `BulkUpdateEffect`, `BulkUpdateOnlyRaisesFlags`, `BulkUpdateCount` and `BulkUpdateKeepsValid`, and `BulkUpdateStatus` is proved equal to it |
| RegisterService.BulkUpdateEffect | core/views/views.py:190-225 | a failed group lookup changes nothing and answers its error ("Guruh topilmadi" for an unknown group). Otherwise a teacher id in scope becomes an active teacher, and an in-scope student id that was inactive and not a teacher becomes active. Every other register, the groups and the HemisTable rows stay as they were |
| RegisterService.PassAt | core/views/views.py:204-217 | the `if ids:` guarded update leaves each register as the single-row update would, also when the guard skips it |
| RegisterService.BulkUpdateOnlyRaisesFlags | core/views/views.py:204-217 | no flag is ever set to false and nothing but the two flags changes |
| RegisterService.BulkUpdateCount | core/views/views.py:201-219 | `updated_count` is the rows the student update matched plus the rows the teacher update matched after it |
| RegisterService.UpdateAllNone | core/views/views.py:204-213 | an update on no ids changes nothing |
| RegisterService.CountMatchesNone | core/views/views.py:204-213 | an update on no ids matches nothing |
| RegisterService.BulkUpdateKeepsValid | core/views/views.py:190-219 | the bulk update keeps the store valid |
| RegisterService.UpdateRows | core/views/views.py:205-216 | the row loop of a queryset update gives the specified registers and count |
| RegisterService.UpdateRegisters | core/views/views.py:205-216 | a queryset update on the store changes only the registers, as specified |
| RegisterService.FindScope | core/views/views.py:195-199 | the group lookup yields the specified scope |
| RegisterService.BulkUpdateStatus | core/views/views.py:190-225 | the new store and the response are those of `BulkUpdate`; a valid store stays valid |
| RegisterService.PromoteRegisters | core/views/views.py:203-219 | the two updates on the store give the specified registers and total |
| RegisterService.UpdatePass | core/views/views.py:204-217 | one `if ids:` guarded update on the store gives the specified registers and count |
| RegisterService.ReplaceChar | core/views/views.py:95 | `replace` of one character keeps the length and changes exactly that character |
| RegisterService.KeepAscii | core/views/views.py:98-99 | the ASCII-ignore round trip leaves only ASCII characters and leaves ASCII text unchanged |
| RegisterService.Lookup | core/views/views.py:81-95 | a character either has no table entry and stays, or goes to the letter of its entry |
| RegisterService.ReplaceInTurnIsLookup | core/views/views.py:94-95 | for a table whose replacements never feed each other, replacing in turn is one lookup |
| RegisterService.ReplacementTable | core/views/views.py:81-90 | the eight small capitals are distinct and not ASCII; each maps to an ASCII letter that no entry replaces |
| RegisterService.LookupHit | core/views/views.py:81-95 | a listed character goes to its own entry's letter |
| RegisterService.DisplayCharSpec | core/views/views.py:81-95 | a listed small capital becomes its letter (o, m, v, p, a, e, i, u); every other character, ASCII ones included, stays |
| RegisterService.Displayed | core/views/views.py:93-95 | the text keeps its length and each character is replaced by its table entry's letter or kept |
| RegisterService.DisplayedAscii | core/views/views.py:93-95 | ASCII text is unchanged by the replacements |
| RegisterService.ReplaceSmallCapitals | core/views/views.py:93-95 | the eight `replace` calls in turn give `Displayed(text)` |
| RegisterService.CleanTextForDisplay | core/views/views.py:75-103 | empty text comes back unchanged; the result is the replaced text without its non-ASCII characters; it holds only ASCII characters; ASCII input comes back unchanged |
| Signals.ActiveGroupIds | core/signals.py:155-158 | exactly the pks, among those wanted, of groups that are active |
| Signals.ActiveGroupIdsSnoc | core/signals.py:155-160 | one more group adds its pk exactly when it is active and wanted |
| Signals.WithGroupsSynced | core/signals.py:110-137 | only the row's group set changes; it gains exactly the register's active groups and loses nothing |
| Signals.SyncIsLinkerStep | core/signals.py:110-137 | the group sync is a step a linker may take |
| Signals.LinkFromRegister | core/signals.py:12-61 | defines `link_register_with_hemis` as a function on the store; its properties are stated by `LinkFromRegisterSpec`, `LinkFromRegisterCases`, `LinkFromRegisterIdempotent` and `LinkFromRegisterKeepsValid`, and `LinkRegisterWithHemis` is proved equal to it |
| Signals.LinkFromRegisterSpec | core/signals.py:12-61 | a raw save or a blank `hemis_id` or `pnfl` does nothing. Groups are untouched. Only this register may change, and only by becoming active. An existing link is never overwritten, and a new one names this register. Rows only gain this register's active groups. After any change the register is linked, and it is activated only when it had no link before |
| Signals.LinkFound | core/signals.py:150 | a row linked to the register is found as its link |
| Signals.LinkFromRegisterCases | core/signals.py:27-58 | no row with the key: nothing happens. Otherwise the lowest-pk unlinked match gets the link, the register becomes active, no other row changes, and the row gets the register's active groups. When the register already holds another link, the update is rolled back. When every match is linked, only the first match's own link leads to a group sync |
| Signals.FirstHemisDependsOnKeys | core/signals.py:27-37 | the first match depends only on the keys and links, not on group sets |
| Signals.SyncIdempotent | core/signals.py:116-118 | syncing twice equals syncing once |
| Signals.LinkFromRegisterIdempotent | core/signals.py:12-61 | saving the same register again changes nothing more |
| Signals.SyncKeepsValid | core/signals.py:110-122 | the group sync keeps the store valid |
| Signals.LinkKeepsValid | core/signals.py:49 | linking a register that has no row yet keeps the store valid and one-to-one |
| Signals.ActivateKeepsValid | core/signals.py:54 | activating a register keeps the store valid |
| Signals.LinkFromRegisterKeepsValid | core/signals.py:12-61 | the Register-side linker keeps the store valid |
| Signals.ChosenRegister | core/signals.py:89-91 | the lowest-pk inactive register with the key, otherwise the lowest-pk one with the key; None exactly when no register has the key |
| Signals.LinkFromHemis | core/signals.py:64-107 | defines `link_hemis_with_register` as a function on the store; its properties are stated by `LinkFromHemisSpec`, `LinkFromHemisIdempotent` and `LinkFromHemisKeepsValid`, and `LinkHemisWithRegister` is proved equal to it |
| Signals.LinkFromHemisSpec | core/signals.py:64-107 | nothing happens for a raw save, an update, a blank key or a row that already has a register. Any change is a linker step of the chosen register: the row links to it and it is active. The row links whenever a register with the key exists and has no row yet |
| Signals.LinkFromHemisIdempotent | core/signals.py:64-107 | re-running the HemisTable-side linker changes nothing more |
| Signals.LinkFromHemisKeepsValid | core/signals.py:64-107 | the HemisTable-side linker keeps the store valid |
| Signals.MirrorGroupChange | core/signals.py:140-171 | actions other than `post_add` and `post_remove`, or a register without a linked row, change nothing. Only the linked row's groups change. `post_add` adds only active groups from the added set and every one of them. `post_remove` removes every removed pk |
| Signals.MirrorAddThenRemove | core/signals.py:153-167 | removing the groups just added leaves the row's old groups minus those |
| Signals.MirrorKeepsValid | core/signals.py:140-171 | mirroring keeps the store valid |
| Signals.RowsInGroup | core/signals.py:185-189 | counts the rows listing the group: zero exactly when none does |
| Signals.UpdateGroupStatus | core/signals.py:174-195 | counts the group's rows exactly for a non-raw update that leaves the group inactive, and changes nothing |
| Signals.SyncRegisterGroups | core/signals.py:110-137 | the `add` loop gives the specified group sync; a valid store stays valid |
| Signals.LinkRegisterWithHemis | core/signals.py:12-61 | the handler's updates on the store are those of `LinkFromRegister`; a valid store stays valid |
| Signals.LinkHemisWithRegister | core/signals.py:64-107 | the handler's updates on the store are those of `LinkFromHemis`; a valid store stays valid |
| Signals.SyncRegisterGroupsToHemis | core/signals.py:140-171 | the handler's updates on the store are those of `MirrorGroupChange`; a valid store stays valid |
| Signals.AddActiveGroups | core/signals.py:155-163 | the `add` loop adds to the row exactly the active groups among `pk_set` |
| GroupUpsert.Upsert | api/serializers.py:9-18 | defines `get_or_create` by `group_id`, with the name and activity update for a group that already exists; its properties are stated by `UpsertEffect`, `UpsertExactlyOne`, `UpsertIdempotent` and `UpsertKeepsValid`, and `Create` is proved equal to it |
| GroupUpsert.UpsertEffect | api/serializers.py:9-18 | a row is created exactly when no group has the id. The returned group has the id, the given name and is active. A new group has a fresh pk. No other group changes |
| GroupUpsert.UpsertExactlyOne | api/serializers.py:10-13 | afterwards exactly one group has the `group_id`, it is the one returned and it is found active; ids stay unique |
| GroupUpsert.UpsertIdempotent | api/serializers.py:9-18 | repeating the call changes nothing more and creates nothing |
| GroupUpsert.UpsertKeepsValid | api/serializers.py:9-18 | the store stays valid and no pk disappears |
| GroupUpsert.Create | api/serializers.py:9-18 | the serializer's updates on the store are those of `Upsert`, at the specified position; a valid store stays valid |
| AdminUsers.NewUser | accounts/managers.py:4-13 | a falsy username raises "Username kiritilishi kerak"; a falsy telegram id then raises "Telegram ID kiritilishi kerak"; each error happens exactly then, and otherwise the account holds the given values |
| AdminUsers.SetDefaultTrue | accounts/managers.py:16-18 | `setdefault` adds the key as True only when absent and keeps every other entry |
| AdminUsers.FirstNotTrue | accounts/managers.py:20-25 | None exactly when every flag is present and `True`; otherwise the message of the first flag that is not |
| AdminUsers.SuperuserDefaults | accounts/managers.py:16-18 | defines the three `setdefault` calls; stated by the `Defaults...` lemmas, and `ApplyDefaults` is proved equal to it |
| AdminUsers.NewSuperuser | accounts/managers.py:15-27 | defines `create_superuser`; its outcomes are stated by `SuperuserWithTrueFlags`, `SuperuserRejectsNonTrueFlag` and `SuperuserNeedsTelegramId` |
| AdminUsers.DefaultsFillAbsentFlags | accounts/managers.py:16-18 | after the defaults all three flags are present, an absent one as `True`, supplied values are kept, and no other key appears |
| AdminUsers.DefaultsSetFlags | accounts/managers.py:16-18 | every flag is present afterwards, an absent one as `True`, and supplied values are kept |
| AdminUsers.DefaultsAddOnlyFlags | accounts/managers.py:16-18 | the defaults add no key other than the flags |
| AdminUsers.SuperuserWithTrueFlags | accounts/managers.py:15-27 | with no flag or only `True` flags the superuser passes `create_user`'s checks unchanged, and the account holds all three flags as `True` |
| AdminUsers.SuperuserRejectsNonTrueFlag | accounts/managers.py:20-25 | a flag supplied with any value but `True` is rejected with the first such flag's message, and no account is built |
| AdminUsers.FirstNotTrueAt | accounts/managers.py:20-25 | the first flag that is not `True` is the one reported |
| AdminUsers.SuperuserNeedsTelegramId | accounts/managers.py:15-27 | with the default `telegram_id=None` no superuser is created |
| AdminUsers.ApplyDefaults | accounts/managers.py:16-18 | the three `setdefault` calls give the specified fields |
| AdminUsers.CheckFlags | accounts/managers.py:20-25 | the three checks in order give the specified rejection |
| AdminUsers.AdminTable.CreateUser | accounts/managers.py:4-13 | answers as `NewUser`; the table grows by the account only on success |
| AdminUsers.AdminTable.CreateSuperuser | accounts/managers.py:15-27 | answers as `NewSuperuser`; the table grows by the account only on success |
| AdminUsers.AdminTable.constructor | accounts/managers.py:3 | a new table has no accounts |
| MassMessage.GetTelegramMethod | core/views/tg_group.py:60-69 | defines `get_telegram_method`; its cases are stated by `TelegramMethodByType` |
| MassMessage.ContentType | core/views/tg_group.py:118 | defines the content-type fallback; stated by `ContentTypeFallback` |
| MassMessage.FileRequest | core/views/tg_group.py:117-131 | defines the request for one file; its shape is stated by `FileRequestShape` |
| MassMessage.Run | core/views/tg_group.py:103-160 | defines the group loop by recursion over the group ids; its properties are stated by `RunStep`, `RunCounts`, `RunTraceBound` and `AllDelivered`, and `SendToGroups` is proved equal to it |
| MassMessage.MassMessage | core/views/tg_group.py:71-171 | defines `send_mass_message`: the checks, the probe and `Run`; its properties are stated by `Rejections` and `ReportCounts`, and `SendMassMessage` is proved equal to it |
| MassMessage.TelegramMethodByType | core/views/tg_group.py:60-69 | "image/" gives ("sendPhoto","photo"), "video/" gives ("sendVideo","video"), "audio/" gives ("sendAudio","audio"), anything else gives ("sendDocument","document"), each iff its prefix condition holds |
| MassMessage.ContentTypeFallback | core/views/tg_group.py:118 | the content type is the declared one, else the guessed one, else "application/octet-stream", and never empty |
| MassMessage.ErrorDetail | core/views/tg_group.py:133 | the reply's description, else its error, else "Noma'lum xatolik" |
| MassMessage.FileRequestShape | core/views/tg_group.py:117-131 | a file request goes to the chat. It carries the caption exactly on the first file and only when there is text. It sends the upload's bytes and name under the method and field its content type selects |
| MassMessage.FileRequestsAddressed | core/views/tg_group.py:125 | every file request of a run goes to the chat |
| MassMessage.FileRequests | core/views/tg_group.py:114 | one request per file sent |
| MassMessage.FileRequestsInOrder | core/views/tg_group.py:114-131 | the run holds the files' requests in file order |
| MassMessage.FirstFailure | core/views/tg_group.py:131-134 | the first reply of the run that is not ok; None exactly when every reply is ok |
| MassMessage.FilesOutcomeCases | core/views/tg_group.py:113-134 | the file sends succeed exactly when every file is accepted; they send between one and all of the files' requests, in order from the first |
| MassMessage.GroupOutcome | core/views/tg_group.py:107-160 | a group succeeds exactly when it is found active and every send it needs is accepted. A group not found gives "Guruh topilmadi: id" and sends nothing. A group sends at most one request per file, or one text |
| MassMessage.GroupRequestsAddressed | core/views/tg_group.py:125-140 | every request sent for a group goes to its chat |
| MassMessage.RunStep | core/views/tg_group.py:107-160 | the run over one more group extends the run before it by that group's outcome |
| MassMessage.Take | core/views/tg_group.py:166 | `errors[:5]` keeps the first five errors, or all of them when there are fewer |
| MassMessage.RunCounts | core/views/tg_group.py:103-160 | `successful_sends + failed_sends` is the number of group ids, and there is one error line per failure |
| MassMessage.RunTraceBound | core/views/tg_group.py:107-147 | the run sends at most one request per file, or one text, to each group, and every request goes to a selected chat |
| MassMessage.ChatIdReadsBack | core/views/tg_group.py:125-140 | the `chat_id` a request carries reads back as its group id |
| MassMessage.Rejections | core/views/tg_group.py:73-99 | "Invalid method", "Guruhlar tanlanmagan" and "Matn yoki fayl kiritilishi kerak" are each answered exactly when their check fails and the earlier ones pass. A rejection sends at most the `getMe` probe. The report comes exactly when every check and the probe pass |
| MassMessage.ReportCounts | core/views/tg_group.py:162-167 | the report counts every group; it shows the first five error lines, in group order, and the requests sent are the probe and then the run's |
| MassMessage.AllDelivered | core/views/tg_group.py:107-149 | with every group active and every reply ok, every group succeeds and no error is reported |
| MassMessage.FileFailureStops | core/views/tg_group.py:131-134 | a refused file stops the group's remaining files. The group fails with "name: Fayl yuborishda xatolik: detail", and the requests sent are the files' up to the refused one |
| MassMessage.FilesStopAt | core/views/tg_group.py:131-134 | the file sends stop at the first refused file |
| MassMessage.FirstFailureAt | core/views/tg_group.py:131-134 | a refusal right after accepted replies is the first failure |
| MassMessage.SendFiles | core/views/tg_group.py:114-134 | the file loop stops at the first refused reply and has sent the files' requests up to it |
| MassMessage.SendFilesToGroup | core/views/tg_group.py:113-134 | the file sends to a found group give the specified outcome |
| MassMessage.SendToGroup | core/views/tg_group.py:108-160 | one pass of the group loop gives the specified outcome |
| MassMessage.SendToGroups | core/views/tg_group.py:103-160 | the group loop's counters, errors and requests are those of `Run` |
| MassMessage.SendMassMessage | core/views/tg_group.py:71-171 | the answer and the requests sent are those of `MassMessage` |
| Multipart.Map | core/views/tg_group.py:31-37 | one encoding per element, in order |
| Multipart.Parts | core/views/tg_group.py:30-42 | there are as many parts as fields plus files: the field parts come first, then the file parts, each in the given order |
| Multipart.FlattenAppend | core/views/tg_group.py:27-44 | joining two runs of parts is joining their joins |
| Multipart.FieldBytesIsText | core/views/tg_group.py:32-34 | a field part is "--B CRLF", `Content-Disposition: form-data; name="k"`, CRLF CRLF, the value and CRLF, encoded as one text |
| Multipart.FileBytesIsText | core/views/tg_group.py:38-42 | a file part is the delimiter line, the disposition with name and filename, the `Content-Type` header and a blank line, then the raw bytes and CRLF |
| Multipart.EncodersOpenWithDelimiter | core/views/tg_group.py:32-38 | every field part and every file part opens with the delimiter line |
| Multipart.PartsOpenWithDelimiter | core/views/tg_group.py:30-42 | every part of the body opens with the delimiter line |
| Multipart.ConcatMapOpens | core/views/tg_group.py:31-42 | a non-empty run of parts that each open with the delimiter opens with it |
| Multipart.FlattenMap | core/views/tg_group.py:31-42 | the loop's appends are the join of the parts |
| Multipart.Body | core/views/tg_group.py:25-44 | defines the multipart body: the field parts, the file parts, the close delimiter; its shape is stated by `BodyIsParts` and `BodyShape`, and `BuildBody` is proved equal to it |
| Multipart.BodyIsParts | core/views/tg_group.py:27-44 | the body is its parts one after another, then the close delimiter |
| Multipart.BodyShape | core/views/tg_group.py:30-44 | the body ends with "--B--CRLF"; it opens with "--B CRLF" when there is a field or a file, and is only the close delimiter otherwise |
| Multipart.HexDigit | core/views/tg_group.py:26 | one lowercase hexadecimal digit |
| Multipart.Hex | core/views/tg_group.py:26 | `'%02x'` per byte: two lowercase hex digits a byte |
| Multipart.BoundaryCharIsAscii | core/views/tg_group.py:26 | boundary characters are ASCII |
| Multipart.BoundaryLinesLength | core/views/tg_group.py:32-44 | the delimiter lines of a valid boundary are 4 and 6 bytes longer than the boundary |
| Multipart.PrefixIsBoundaryText | core/views/tg_group.py:26 | "----WebKitFormBoundary" consists of boundary characters |
| Multipart.GeneratedBoundaryValid | core/views/tg_group.py:26 | sixteen random bytes give a 54-character boundary that section 5.1.1 of RFC 2046 accepts; its delimiter lines take 58 and 60 bytes |
| Multipart.AppendField | core/views/tg_group.py:32-34 | the three appends for a field add its part |
| Multipart.AppendFile | core/views/tg_group.py:38-42 | the five appends for a file add its part |
| Multipart.AppendFields | core/views/tg_group.py:30-34 | the field loop appends the field parts in order |
| Multipart.AppendFiles | core/views/tg_group.py:37-42 | the file loop appends the file parts in order |
| Multipart.BuildBody | core/views/tg_group.py:25-44 | the body as the code builds it is `Body` |
| Utf8.EncodeChar | core/views/tg_group.py:32-34 | a code point takes one to four bytes, one exactly for ASCII, with continuation bytes after the first |
| Utf8.Encode | core/views/tg_group.py:32-34 | an encoding is at least as long as its text |
| Utf8.EncodeAppend | core/views/tg_group.py:32-34 | encoding distributes over concatenation, so piecewise appends encode the whole text |
| Utf8.EncodeAscii | core/views/tg_group.py:32-44 | ASCII text takes one byte a character, each with the character's value |
| Utf8.DecodeFirstOfEncodeChar | core/views/tg_group.py:32-34 | the first code point decoded from an encoded character is that character |
| Utf8.DecodeEncode | core/views/tg_group.py:32-34 | decoding an encoded text gives it back, so the encoding loses nothing |
| Utf8.DecodeEncodeFrom | core/views/tg_group.py:32-34 | decoding an encoded text followed by more bytes reads the text first |

## Left out

- Network I/O. `urlopen` and the JSON decoding of its answer are not modelled, nor are the `getMe` call and the error dictionary built on an exception. Their outcome is the parameter `reply`, indexed by the request's place in the run. Requests are values, not HTTP traffic.
- `send_telegram_request`'s URL-encoded branch (core/views/tg_group.py:48-52): a request without a file is modelled as its list of fields, not as bytes.
- The bot token source: `send_telegram_request` reads it from the environment and `send_mass_message` checks the settings value. Both are one parameter `botToken`.
- `mimetypes.guess_type` is a field of the upload, and `file_obj.read()` is the upload's content.
- Group ids in the mass-message view are integers. A posted id that is not a number is left out, and so is the stale `group` name the `except` branch would then print. `str(group_id)` is modelled as the decimal text of the id, so a posted "007" or "+7" would be spelled differently.
- The `print` debug output and all logging.
- `process_excel_simple`: the per-row `except` (core/views/hemis_teble.py:136-139) and the failure branches of `bulk_create` and `update` (148-150, 160-161). In the model no row conversion and no database call can raise.
- Ingestion: `bulk_create(ignore_conflicts=True)` possibly dropping rows. The model keeps the code's `created_count = len(hemis_objects)` and inserts every accepted row.
- Ingestion: pandas' rendering of numbers and dates to text (`str(value)`). A present cell is given as its text.
- Digit filtering: `str.isdigit` also accepts non-ASCII digits. The model uses ASCII digits only.
- The HemisTable model class is not part of this model's sources. Its fields, its one-to-one `register` link and its many-to-many `telegram_groups` are inferred from their use. Its `.first()` is taken to order by pk.
- `register_group` as a relation: core/models.py:25 declares `register_group_id` as a plain unique `BigIntegerField`, yet `filter(register_group=group)` (core/views/views.py:179, 197) and `select_related('register__register_group')` (core/views/hemis_teble.py:189) use it as a foreign key to TelegramGroup. The model reads the column as holding the group's pk, so a group scope compares `register_group_id` with that pk. On the field as declared, the lookup would raise `FieldError`, `get_users_by_criteria` would fail and `bulk_update_status` would answer through its generic `except` (core/views/views.py:223-225); that reading is not modelled. Because the column is unique, a group's scope holds at most one register (`RegisterService.ScopeHoldsAtMostOne`), not "the members of a group".
- HemisTable student IDs: their uniqueness is part of `HemisValid`. No declared constraint enforces it, because the HemisTable model class is not part of this model's sources. The import keeps it by deduplicating (core/views/hemis_teble.py:74, 94-95, 134), and every other modelled operation leaves `hemis_id` unchanged. Rows created outside the modelled operations are not covered.
- The store methods promise `Valid()` only for a store that was valid before the call: `Valid()` is the database's integrity, which the model does not check on a store built outside these operations.
- Register's `hemis_id`, `is_teacher` and `register_groups`: core/models.py:21-31 declares none of them. Their shapes come from their use: `hemis_id` as nullable text (core/signals.py:21, 28), `is_teacher` as a boolean (core/views/views.py:182-186, 208-216), and `register_groups` as a many-to-many relation to TelegramGroup (core/signals.py:114, 129, 140). A new register is assumed to be no teacher and in no group; no constraint on these fields is modelled.
- `Register.pnfl` is a string, as everywhere it is used, not the integer column core/models.py declares.
- For `bulk_update_status`, the posted `group_id` is text. An absent or empty one selects every register. Any other text goes through `int()`, so a posted "0" looks up pk 0 and answers "Guruh topilmadi" (`RegisterService.PostedZeroIsLookedUp`), and a text `int()` refuses answers Django's ValueError through the generic `except`. Not modelled: `int()` accepting underscores between digits and non-ASCII digits (the model treats such a text as no number); `%r` escaping quotes or backslashes in that error's text; a number outside the database's integer range.
- For `RegisterService`, the ids in the two lists are integers. A non-numeric list id, and the generic `except Exception` answer (core/views/views.py:223-225) it would cause, are not modelled.
- `RegisterService.get_users_by_criteria` returns the selection as a sequence in pk order, not a lazy queryset.
- `clean_text_for_display` is modelled on strings. Falsy non-string values returned unchanged and `str(text)` of other types are not modelled.
- `create_table_image`, `MessageSender`, `TelegramAPIClient` and the view functions: rendering, network and UI.
- `signals.py`: the exception handlers only log. A failed one-to-one update is modelled as the transaction's rollback leaving the store unchanged, and no other exception is modelled.
- `TelegramGroup.objects.get` raising `MultipleObjectsReturned` cannot happen because `group_id` is unique (`GroupsValid`).
- `AdminUsers`: `set_password` hashing and `save` are not modelled. The password is kept as given, and the table's own unique constraints are not checked.
- `AdminUsers`: the `TypeError` Python raises for an unknown keyword argument is not modelled.
- Timestamps (`created`, `updated`, `added_at`) and `CharField` maximum lengths.
- The reverse accessors of the many-to-many relations. Each membership is held on one side only.
- The DRF `UniqueValidator` that a `ModelSerializer` adds for `group_id` before `create`: the model starts at `create`.
- The dashboard's `in_group` column and `get_hemis_data`'s ordering and prefetching.
- Concurrency: each handler and service runs alone on the store.
