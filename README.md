# MTVTS traffic-citation ledger, modelled in Dafny

This project models the core of the MTVTS backend, a Laravel application for a
municipal traffic office. Enforcers issue citations (tickets) against violators. Each
ticket takes its fines from a catalog of violations and keeps a per-ticket snapshot of
each fine. Cashiers record payments until a ticket is settled. Admins read reports,
manage the catalog, issue password-reset links and migrate users to simple roles.

Database tables are Dafny values or the fields of a class:
- `Records.Db` holds the violators, the catalog, the tickets, the fine snapshots and the payments.
- Class `LedgerStore.Store` holds the same tables as `seq` fields, which its methods reassign.
- `PasswordResets.ResetDesk` holds the users and the reset records.
- `Notifications.Inbox` holds the reset requests.

Each controller action is a pure transition function, proved against the properties the
code promises. Where the code works by changing things step by step (the ledger's
writes, the pivot-insert `foreach`, the seeder's `foreach`, the slug-backfill `while`),
the model is a method with loop invariants whose `ensures` ties it to that transition.

Conventions of the model:
- Money is integer cents. The code's 0.01 tolerance is the constant `Records.Tolerance = 1`.
- Time is integer seconds, and a calendar day is `t / 86400`.
- The clock, today's date and every foreign call are parameters. The foreign calls are
  `hash('sha256')`, `Str::slug`, `json_decode`, `Hash::make` and `Carbon::createFromFormat`.
- SQL string order is a binary collation.
- A query's `first()` without an order is the first row in storage order.
- A new auto-increment id is one more than the largest id.

## Model

| member | source | states |
|---|---|---|
| Records.RecordedSumIgnores | backend/app/Http/Controllers/ClerkPaymentController.php:39-41 | payments of other tickets and reversed payments never change a ticket's recorded total |
| Records.RecordedSumNonNegative | backend/app/Http/Controllers/ClerkPaymentController.php:39-41 | with amounts of at least zero the recorded total is not negative |
| Records.RecordedSumSnoc | backend/app/Http/Controllers/ClerkPaymentController.php:77 | appending a payment adds its amount exactly when it is a recorded payment of that ticket |
| Records.RecordedSumUnreferenced | backend/app/Http/Controllers/ClerkPaymentController.php:39-41 | a ticket no payment names has a recorded total of zero |
| Records.HasTicketFind | backend/app/Http/Controllers/ClerkPaymentController.php:61 | `exists:tickets,id` holds exactly when the ticket lookup finds the id |
| Records.EmptyConsistent | backend/database/migrations/2025_08_14_184845_create_ticket_violation_table.php:14-32 | the empty database meets every key, reference and settlement invariant |
| ControlNumbers.ControlNoOnCreate | backend/app/Models/Ticket.php:40-44 | a number is generated exactly when the supplied one is empty (null, "" or "0"); otherwise it is kept |
| ControlNumbers.LexMaxIsMax | backend/app/Models/Ticket.php:55-57 | the number `orderByDesc(...)->first()` returns is a member and no member sorts above it |
| ControlNumbers.LexMaxUnique | backend/app/Models/Ticket.php:55-57 | a member sorting at or above every member is that maximum |
| ControlNumbers.DayPrefixShape | backend/app/Models/Ticket.php:52-53 | the prefix is the eight digits of the date followed by '-' |
| ControlNumbers.FormatParses | backend/app/Models/Ticket.php:62-66 | a formatted number is the prefix plus at least four digits, and the text after the last '-' casts back to the sequence |
| ControlNumbers.NextControlNoFormat | backend/app/Models/Ticket.php:50-67 | every generated number carries today's prefix and a sequence of at least 1 |
| ControlNumbers.FirstOfTheDay | backend/app/Models/Ticket.php:59-66 | with no number of today the result is `YYYYMMDD-0001` |
| ControlNumbers.OtherDaysIgnored | backend/app/Models/Ticket.php:55 | numbers of other days never influence the result |
| ControlNumbers.IssuedAreToday | backend/app/Models/Ticket.php:55 | the numbers 1..n of a day all carry that day's prefix |
| ControlNumbers.FormatOrder | backend/app/Models/Ticket.php:56-66 | same-day numbers sort as their sequences while those fit in four digits |
| ControlNumbers.IssuedMax | backend/app/Models/Ticket.php:55-57 | the greatest of a day's numbers 1..n is number n |
| ControlNumbers.NextAfterIssued | backend/app/Models/Ticket.php:50-67 | after numbers 1..n of a day (n at most 9999) the generator returns number n + 1 |
| ControlNumbers.Issued | backend/app/Models/Ticket.php:55-66 | a day's numbers so far: n of them, number k + 1 at position k |
| ControlNumbers.SequentialIssuance | backend/app/Models/Ticket.php:50-67 | below 9999 the next number is n + 1 and is not yet taken, neither by that day's numbers nor by any other day's |
| ControlNumbers.FirstTwoOfTheDay | backend/app/Models/Ticket.php:50-67 | two issuances on a fresh day give -0001 and then -0002 |
| ControlNumbers.NinetyNinetyNineStaysGreatest | backend/app/Models/Ticket.php:56-66 | `-10000` sorts below `-9999`, so `-9999` stays the greatest number of the day |
| ControlNumbers.SequenceStallsAfter9999 | backend/app/Models/Ticket.php:55-66 | after 9999 numbers of a day the next is `-10000`; once that is stored the generator returns `-10000` again, a number already taken |
| ControlNumbers.StalledNext | backend/app/Models/Ticket.php:55-66 | with `-10000` stored after 1..9999, the greatest number of the day is still `-9999`, so the next is `-10000` again |
| Text.Padded | backend/app/Models/Ticket.php:66 | `%04d` renders only digits, at least as many as the width |
| Text.PaddedValue | backend/app/Models/Ticket.php:66 | the rendered digits read back as the number |
| Text.PaddedInjective | backend/app/Models/Ticket.php:66 | distinct sequences render as distinct strings |
| Text.AfterLast | backend/app/Models/Ticket.php:62 | `Str::afterLast` returns a suffix without the separator, which directly follows the separator when there is one |
| Text.AfterLastOfJoin | backend/app/Models/Ticket.php:62 | the text after the last '-' of a prefix, '-' and a dash-free tail is that tail |
| Text.IntCastPadded | backend/app/Models/Ticket.php:62-64 | `(int)` of a rendered number is the number |
| Text.TrimStart | backend/app/Http/Controllers/API/ViolationController.php:37-38 | `trim` removes a prefix made only of blanks and leaves no blank at the front |
| Text.TrimEnd | backend/app/Http/Controllers/API/ViolationController.php:37-38 | `trim` removes a suffix made only of blanks and leaves no blank at the end |
| Text.Lower | backend/app/Models/User.php:39-41 | `strtolower` keeps the length and lowers each character on its own |
| Text.LowerIdempotent | backend/app/Models/User.php:39-41 | lowering twice is lowering once |
| Records.FindTicket | backend/app/Http/Controllers/ClerkPaymentController.php:71 | `findOrFail` finds a row with the id, and fails exactly when there is none |
| Settlement.OutstandingIsBalance | backend/app/Http/Controllers/ClerkPaymentController.php:39-43 | the outstanding amount is never negative and is otherwise the total less the recorded payments |
| Settlement.OutstandingIgnoresReversed | backend/app/Http/Controllers/ClerkPaymentController.php:39-43 | reversed payments and other tickets' payments leave the outstanding amount unchanged |
| Settlement.PaidAtDescPreorder | backend/app/Http/Controllers/ClerkPaymentController.php:27 | newest `paid_at` first is a total preorder, so the sort is well defined |
| Settlement.FindByControlNo | backend/app/Http/Controllers/ClerkPaymentController.php:30-31 | the first ticket with that number, or none exactly when no ticket has it |
| Settlement.LookupTicketErrors | backend/app/Http/Controllers/ClerkPaymentController.php:20-37 | a missing number is refused; an unknown one gives not-found and no ticket data |
| Records.ViolatorOf | backend/app/Models/Ticket.php:69-72 | the ticket's violator: a stored violator with the ticket's `violator_id`, null exactly when there is none |
| Settlement.LookupTicketFound | backend/app/Http/Controllers/ClerkPaymentController.php:24-50 | a found ticket is a ledger row with the requested number, listed with its violator (one with its `violator_id`; null exactly when none exists), exactly its own payments, recorded or reversed, newest first, and the outstanding balance |
| Settlement.CheckPayment | backend/app/Http/Controllers/ClerkPaymentController.php:60-65 | the first failing rule: amount below one cent, receipt number missing or too long, remarks too long |
| Settlement.RecordPaymentCases | backend/app/Http/Controllers/ClerkPaymentController.php:58-102 | which check decides the outcome of `store`: unknown ticket, the validation rules, the overpayment guard |
| Settlement.RecordPaymentAccepts | backend/app/Http/Controllers/ClerkPaymentController.php:60-83 | a payment is recorded exactly when the ticket exists, it is at least one cent, the receipt and remarks are valid and the new total stays within the total plus the tolerance |
| Settlement.SettleWrites | backend/app/Http/Controllers/ClerkPaymentController.php:71-99 | an accepted settlement writes one recorded payment row, updates the ticket's status and changes nothing else |
| Settlement.RecordPaymentWrites | backend/app/Http/Controllers/ClerkPaymentController.php:58-102 | an accepted `store` is one such write for the ticket's row |
| Settlement.RecordPaymentEffect | backend/app/Http/Controllers/ClerkPaymentController.php:86-99 | exactly one recorded row with the requested values and a fresh id is appended; only the paid ticket's status may change |
| Settlement.RecordPaymentStatus | backend/app/Http/Controllers/ClerkPaymentController.php:96-99 | the ticket becomes paid exactly when the new recorded total reaches the total less the tolerance; otherwise its status is kept |
| Settlement.RecordPaymentOutstanding | backend/app/Http/Controllers/ClerkPaymentController.php:39-94 | each accepted payment lowers the outstanding amount by its amount, down to zero |
| Settlement.FoundIsOnly | backend/app/Http/Controllers/ClerkPaymentController.php:71 | with unique ids the ticket `findOrFail` returns is the only one with that id |
| Settlement.StatusOnlyKeeps | backend/app/Http/Controllers/ClerkPaymentController.php:96-98 | changing only statuses keeps the ticket keys and totals |
| Settlement.AppendFreshPayment | backend/app/Http/Controllers/ClerkPaymentController.php:86-94 | a payment under a fresh id keeps the payment ids unique |
| Settlement.WritesStatusOnly | backend/app/Http/Controllers/ClerkPaymentController.php:96-98 | the written tickets differ from the old ones only in status |
| Settlement.WritesKeys | backend/app/Http/Controllers/ClerkPaymentController.php:86-98 | a settlement keeps every key unique and every reference resolved |
| Settlement.WritesAmounts | backend/app/Http/Controllers/ClerkPaymentController.php:62-94 | a settlement keeps payment amounts at least one cent and ticket totals intact |
| Settlement.WritesSettled | backend/app/Http/Controllers/ClerkPaymentController.php:79-99 | no ticket ends up paid beyond its total plus the tolerance, and a paid ticket has reached its total less the tolerance |
| Settlement.SettleConsistent | backend/app/Http/Controllers/ClerkPaymentController.php:69-102 | every accepted settlement keeps the ledger's invariants |
| Settlement.RecordPaymentConsistent | backend/app/Http/Controllers/ClerkPaymentController.php:58-102 | every call of `store`, accepted or refused, keeps the ledger's invariants |
| Settlement.ScenarioFirst | backend/app/Http/Controllers/ClerkPaymentController.php:77-99 | on a total of 800.00, a first payment of 500.00 is recorded, leaves 300.00 outstanding and leaves the ticket unpaid |
| Settlement.ScenarioSecond | backend/app/Http/Controllers/ClerkPaymentController.php:77-99 | a further 300.00 marks the ticket paid with nothing outstanding |
| Settlement.ScenarioThird | backend/app/Http/Controllers/ClerkPaymentController.php:79-83 | a further 50.00 is refused as exceeding the total |
| Settlement.SettlementScenario | backend/app/Http/Controllers/ClerkPaymentController.php:58-102 | the three payments above in sequence |
| Settlement.CreatedDescPreorder | backend/app/Http/Controllers/ClerkPaymentController.php:122 | newest `created_at` first is a total preorder |
| Settlement.SortedPrefixBefore | backend/app/Http/Controllers/ClerkPaymentController.php:122-123 | an element of a sorted list left out of a prefix comes after the whole prefix |
| Settlement.RecentUnpaidSpec | backend/app/Http/Controllers/ClerkPaymentController.php:118-127 | at most 50 unpaid tickets of the ledger, none listed more often than stored (a sub-multiset), newest first; an unpaid ticket is left out only when 50 tickets at least as new are listed |
| Catalog.TypesSpec | backend/app/Http/Controllers/API/ViolationController.php:14-23 | every type of the catalog appears exactly once, ascending, and nothing else appears |
| Catalog.KindNamePreorder | backend/app/Http/Controllers/API/ViolationController.php:54-55 | ordering by type and then name is a total preorder |
| Catalog.WhereSpec | backend/app/Http/Controllers/API/ViolationController.php:42-51 | the filter keeps exactly the catalog rows of the type that mention the search text in the name or the ordinance number, an empty parameter not filtering |
| Catalog.OrderedWhereSpec | backend/app/Http/Controllers/API/ViolationController.php:53-64 | the listing is a permutation of the filtered rows, sorted by type and then name |
| Catalog.IndexSpec | backend/app/Http/Controllers/API/ViolationController.php:35-67 | after trimming both parameters the listing holds exactly the selected rows, once per catalog row, ordered by type and then name |
| Catalog.CheckInput | backend/app/Http/Controllers/API/ViolationController.php:83-88 | the first failing rule among type, name, fine and ordinance number |
| Catalog.CheckInputSpec | backend/app/Http/Controllers/API/ViolationController.php:83-88 | the input is accepted exactly when every rule holds |
| Catalog.CreateViolationSpec | backend/app/Http/Controllers/API/ViolationController.php:81-93 | a valid input appends one row with a fresh id and the submitted values, a missing `ordinance_no` stored as null; otherwise nothing is created |
| Catalog.UpdateViolationOutcome | backend/app/Http/Controllers/API/ViolationController.php:98-107 | an update is accepted exactly for an existing id and a valid input; an unknown id is not-found whatever the input |
| Catalog.UpdateViolationSpec | backend/app/Http/Controllers/API/ViolationController.php:98-107 | an accepted update rewrites only the first row with that id: it keeps its id, takes the submitted type, name and fine, and takes `ordinance_no` only when the request carries that key |
| Catalog.UpdateKeepsOmittedOrdinanceNo | backend/app/Http/Controllers/API/ViolationController.php:100-107 | a valid update without an `ordinance_no` key keeps the stored ordinance number |
| Catalog.UpdateViolationCases | backend/app/Http/Controllers/API/ViolationController.php:98-107 | the route lookup decides before validation does; an accepted update replaces the submitted columns of the found row and keeps an omitted `ordinance_no` |
| Catalog.UpdateViolationKeepsIds | backend/app/Http/Controllers/API/ViolationController.php:107 | an update never changes which ids the catalog holds |
| ViolationSeeder.FixtureCounts | backend/database/seeders/ViolationSeeder.php:12-268 | 12 tricycle, 15 other-motor-vehicle and 13 traffic entries, 40 in all, each under its group's type |
| ViolationSeeder.FixtureFinesPositive | backend/database/seeders/ViolationSeeder.php:12-266 | every seeded fine is strictly positive |
| ViolationSeeder.TricycleNamesDistinct | backend/database/seeders/ViolationSeeder.php:14-90 | the tricycle names are pairwise distinct |
| ViolationSeeder.OtherMotorVehicleNamesDistinct | backend/database/seeders/ViolationSeeder.php:92-183 | the other-motor-vehicle names are pairwise distinct |
| ViolationSeeder.TrafficNamesDistinct | backend/database/seeders/ViolationSeeder.php:187-266 | the traffic names are pairwise distinct |
| ViolationSeeder.FixtureKeysDistinct | backend/database/seeders/ViolationSeeder.php:268 | all (type, name) keys of the merged list are distinct |
| ViolationSeeder.KeyIndex | backend/database/seeders/ViolationSeeder.php:271-275 | the first catalog row with the key, or none exactly when no row has it |
| ViolationSeeder.UpsertRowSpec | backend/database/seeders/ViolationSeeder.php:271-277 | an existing key gets the new fine and ordinance number in place; otherwise one row with a fresh id is appended |
| ViolationSeeder.UpsertReflects | backend/database/seeders/ViolationSeeder.php:271-277 | after the upsert the row for the key carries the row's values |
| ViolationSeeder.UpsertKeepsOtherKey | backend/database/seeders/ViolationSeeder.php:271-277 | upserting one key leaves the row found for any other key where it was |
| ViolationSeeder.UpsertKeepsReflects | backend/database/seeders/ViolationSeeder.php:271-277 | upserting another key keeps a key's values in place |
| ViolationSeeder.UpsertReflected | backend/database/seeders/ViolationSeeder.php:271-277 | a row whose values are already in place is a no-op |
| ViolationSeeder.SeedAllKeepsReflects | backend/database/seeders/ViolationSeeder.php:270-278 | seeding rows with other keys keeps a key's values in place |
| ViolationSeeder.SeedAllReflects | backend/database/seeders/ViolationSeeder.php:270-278 | after seeding distinct keys every row's values are in the catalog |
| ViolationSeeder.SeedAllReflected | backend/database/seeders/ViolationSeeder.php:270-278 | seeding rows already in place changes nothing |
| ViolationSeeder.SeedIdempotent | backend/database/seeders/ViolationSeeder.php:10-280 | running the seeder twice gives the same catalog as running it once |
| ViolationSeeder.SeedAllUntouched | backend/database/seeders/ViolationSeeder.php:270-278 | rows whose key is not in the list stay where they are, unchanged, and the catalog only grows |
| ViolationSeeder.SeedAllFresh | backend/database/seeders/ViolationSeeder.php:270-278 | keys that are new and not repeated append one row each |
| ViolationSeeder.SeedEmptyCatalog | backend/database/seeders/ViolationSeeder.php:10-280 | seeding an empty catalog gives exactly 40 rows |
| Issuance.FirstUnknown | backend/app/Http/Controllers/API/TicketController.php:32 | the first selected violation id that is not in the catalog, or none exactly when all are |
| Issuance.CheckRequest | backend/app/Http/Controllers/API/TicketController.php:18-33 | the first failing rule of the form, in the listed order |
| Issuance.CheckRequestSpec | backend/app/Http/Controllers/API/TicketController.php:18-33 | the form is accepted exactly when every rule holds |
| Issuance.Items | backend/app/Http/Controllers/API/TicketController.php:54-62 | one item per selection, in order, with the violation's current catalog fine |
| Issuance.ItemsFine | backend/app/Http/Controllers/API/TicketController.php:64 | the items' fines add up to the selections' catalog fines |
| Issuance.SelectionFineNonNegative | backend/app/Http/Controllers/API/TicketController.php:64-66 | with non-negative catalog fines the ticket's fine is not negative |
| Issuance.InsertSnapshotsAppends | backend/app/Http/Controllers/API/TicketController.php:87-96 | a successful run of the inserts has appended every item in order |
| Issuance.InsertSnapshotsSpec | backend/app/Http/Controllers/API/TicketController.php:87-96 | the inserts succeed exactly when the (ticket, violation) pairs stay distinct, and then append every item in order |
| Issuance.UpsertViolatorSpec | backend/app/Http/Controllers/API/TicketController.php:39-51 | an unknown licence appends a violator with a fresh id; a known one overwrites the first row with it, in place and under its id, with `kd_no` null |
| Issuance.IssueRefusesInvalid | backend/app/Http/Controllers/API/TicketController.php:18-33 | a refused form writes nothing and reports the first failing rule |
| Issuance.IssueWrites | backend/app/Http/Controllers/API/TicketController.php:36-100 | a successful issuance writes the upserted violator, one unpaid ticket with the generated number and the selections' fine, one snapshot per selection, and nothing else |
| Issuance.ItemsPairsDistinct | backend/app/Http/Controllers/API/TicketController.php:87-96 | the new ticket's pairs clash with no earlier row, so the inserts fail exactly when a violation is selected twice |
| Issuance.SnapshotsBeforeNext | backend/app/Http/Controllers/API/TicketController.php:73-89 | with resolved references no snapshot names the next ticket id |
| Issuance.PivotAccepts | backend/app/Http/Controllers/API/TicketController.php:87-96 | on a consistent ledger the inserts succeed exactly when no violation is selected twice |
| Issuance.IssueCases | backend/app/Http/Controllers/API/TicketController.php:14-115 | the refusals come in order: the form, then the generated number, then the inserts |
| Issuance.TransactionCases | backend/app/Http/Controllers/API/TicketController.php:36-100 | within the transaction, a taken number refuses before the inserts, and a refusal writes nothing |
| Issuance.InsertSnapshotsRefusal | backend/app/Http/Controllers/API/TicketController.php:87-113 | a refused insert reports a violation selected twice |
| Issuance.IssueAccepts | backend/app/Http/Controllers/API/TicketController.php:14-115 | on a consistent ledger issuance succeeds exactly when the form is valid, the number is free and no violation is repeated; each refusal names its cause |
| Issuance.CommitTicketKeys | backend/app/Http/Controllers/API/TicketController.php:73-84 | the new ticket's id and number keep the ticket keys unique |
| Issuance.CommitKeysUnique | backend/app/Http/Controllers/API/TicketController.php:36-100 | issuance keeps every key of the ledger unique |
| Issuance.ViolatorIdsUnique | backend/app/Http/Controllers/API/TicketController.php:39-51 | the upsert keeps the violator ids unique |
| Issuance.UpsertLicencesUnique | backend/app/Http/Controllers/API/TicketController.php:39-51 | the upsert keeps one violator per licence |
| Issuance.CommitReferences | backend/app/Http/Controllers/API/TicketController.php:73-96 | the new ticket and its snapshots reference existing rows |
| Issuance.CommitSettled | backend/app/Http/Controllers/API/TicketController.php:64-82 | a new unpaid ticket with no payments is settled within its total |
| Issuance.IssueConsistent | backend/app/Http/Controllers/API/TicketController.php:14-115 | issuance keeps keys unique, references resolved, one violator per licence and every ticket settled |
| Issuance.CheckRequestReads | backend/app/Http/Controllers/API/TicketController.php:25-28 | the validation outcome depends on neither `age` nor `compliance_date` |
| Issuance.TransactionReads | backend/app/Http/Controllers/API/TicketController.php:46-81 | the transaction writes no `age`, `sex` or `compliance_date` |
| Issuance.IssueIgnoresUnfillable | backend/app/Http/Controllers/API/TicketController.php:25-81 | `age` and `compliance_date` change nothing that is written |
| LedgerStore.CatalogSwapConsistent | backend/app/Http/Controllers/API/ViolationController.php:90-107 | replacing a sound catalog keeps the ledger consistent |
| LedgerStore.CreateViolationSound | backend/app/Http/Controllers/API/ViolationController.php:81-93 | creating a violation keeps catalog ids unique and fines non-negative |
| LedgerStore.UpdateViolationSound | backend/app/Http/Controllers/API/ViolationController.php:98-110 | updating a violation keeps catalog ids unique and fines non-negative |
| LedgerStore.UpsertRowSound | backend/database/seeders/ViolationSeeder.php:271-277 | a seeder upsert keeps catalog ids unique and fines non-negative |
| LedgerStore.Store.RecordPayment | backend/app/Http/Controllers/ClerkPaymentController.php:58-111 | the tables become `Settlement.RecordPayment` of the old ones, or stay as they were with its error |
| LedgerStore.Store.SettlePayment | backend/app/Http/Controllers/ClerkPaymentController.php:69-102 | the locked part writes `Settlement.Settle` of the old tables, or nothing with its error |
| LedgerStore.Store.InsertPivots | backend/app/Http/Controllers/API/TicketController.php:87-96 | the loop leaves the snapshots as `Issuance.InsertSnapshots` gives them, or reports the refused violation |
| LedgerStore.Store.IssueTicket | backend/app/Http/Controllers/API/TicketController.php:14-115 | the tables become `Issuance.Issue` of the old ones, or stay as they were with its error |
| LedgerStore.Store.IssueTransaction | backend/app/Http/Controllers/API/TicketController.php:36-113 | the transaction commits `Issuance.Transaction` or rolls every table back |
| LedgerStore.Store.CreateViolation | backend/app/Http/Controllers/API/ViolationController.php:81-93 | the catalog becomes `Catalog.CreateViolation` of the old one, or stays with its error |
| LedgerStore.Store.UpdateViolation | backend/app/Http/Controllers/API/ViolationController.php:98-110 | the catalog becomes `Catalog.UpdateViolation` of the old one (an omitted `ordinance_no` kept), or stays with its error |
| LedgerStore.Store.SeedCatalog | backend/database/seeders/ViolationSeeder.php:10-280 | the catalog becomes the fixture seeded into the old catalog, the other tables unchanged |
| LedgerStore.Store.SeedRows | backend/database/seeders/ViolationSeeder.php:270-278 | the `foreach` of upserts leaves `ViolationSeeder.SeedAll` of the old catalog |
| Printing.PrintShow | backend/app/Http/Controllers/TicketPrintController.php:10-34 | the view carries the ticket, flags several violations exactly when there are more than one, and prints 0 for none |
| Printing.TotalUsesSnapshots | backend/app/Http/Controllers/TicketPrintController.php:23-25 | when every line has its snapshot the catalog fines play no part in the total |
| Printing.TotalFallsBack | backend/app/Http/Controllers/TicketPrintController.php:24 | without snapshots the total is the sum of the catalog fines |
| Printing.EntriesFrom | backend/app/Http/Controllers/API/TicketPrintApiController.php:20-27 | one entry per linked violation, numbered from the start position, with its name, ordinance number and the snapshot or else catalog fine |
| Printing.EntriesTotal | backend/app/Http/Controllers/API/TicketPrintApiController.php:25 | the entries' fines add up to the total the print view shows |
| Printing.CitationSpec | backend/app/Http/Controllers/API/TicketPrintApiController.php:20-53 | entries numbered from 1 in order; number, status and amounts copied; the payment part null exactly when there is no latest payment |
| Printing.JoinItems | backend/app/Http/Controllers/API/TicketController.php:87-96 | the snapshots of an issuance join back to one line per selection with the selections' fine |
| Printing.PrintedTotalOfIssued | backend/app/Http/Controllers/TicketPrintController.php:23-30 | for an issued ticket the printed total is the ticket's fine and there is one line per selection |
| Printing.FindSameIds | backend/app/Http/Controllers/API/ViolationController.php:107 | catalogs with the same ids at the same rows find every id at the same row |
| Printing.JoinKeepsSnapshots | backend/app/Http/Controllers/TicketPrintController.php:24 | such catalogs join the same pivots to lines with the same snapshots |
| Printing.CatalogEditKeepsTotal | backend/app/Http/Controllers/TicketPrintController.php:23-25 | editing a catalog row never changes the printed total of a ticket already issued |
| Reports.DayBounds | backend/app/Http/Controllers/API/AdminReportsController.php:93-103 | a day's first and last second bound exactly the instants of that day |
| Reports.ParseRangeSpec | backend/app/Http/Controllers/API/AdminReportsController.php:81-106 | a missing, false-like or malformed parameter gives a null bound; a parsed one is the start (`from`) or the end (`to`) of its day |
| Reports.OneDayRange | backend/app/Http/Controllers/API/AdminReportsController.php:81-106 | the same date for both bounds selects exactly that day's instants |
| Reports.TicketCountsSpec | backend/app/Http/Controllers/API/AdminReportsController.php:41-51 | open and paid tickets are disjoint parts of the tickets in the range; a single bound counts every ticket |
| Reports.FilterSame | backend/app/Http/Controllers/API/AdminReportsController.php:127-134 | two conditions that agree on every payment select the same payments |
| Reports.TodayIsOneDay | backend/app/Http/Controllers/API/AdminReportsController.php:127-134 | today's collections are the collections of today's one-day range |
| Reports.OneBoundCollectsAll | backend/app/Http/Controllers/API/AdminReportsController.php:111-122 | a single bound filters nothing: every recorded payment with a time is collected |
| Reports.CollectionsNonNegative | backend/app/Http/Controllers/API/AdminReportsController.php:111-122 | with non-negative amounts the collections are not negative |
| Reports.DistinctKeys | backend/app/Http/Controllers/API/AdminReportsController.php:139-162 | grouped integer keys appear each once, ascending, and nothing else appears |
| Reports.GroupsPartition | backend/app/Http/Controllers/API/AdminReportsController.php:139-162 | groups over distinct keys covering every element add up to the whole sum |
| Reports.GroupMembersSpec | backend/app/Http/Controllers/API/AdminReportsController.php:150 | a group's members are exactly the members of its elements |
| Reports.GroupCountSpec | backend/app/Http/Controllers/API/AdminReportsController.php:150 | `COUNT(DISTINCT ...)` counts each member of the group once |
| Reports.DailyDays | backend/app/Http/Controllers/API/AdminReportsController.php:139-162 | the trend's days are each collection day once, ascending |
| Reports.DailyAscending | backend/app/Http/Controllers/API/AdminReportsController.php:139-162 | the rows come in ascending date order, one per day |
| Reports.DailyCovers | backend/app/Http/Controllers/API/AdminReportsController.php:139-162 | every day with a collection has its row |
| Reports.DailyRowSpec | backend/app/Http/Controllers/API/AdminReportsController.php:139-162 | each row is a collection day, counts the distinct tickets paid that day and sums its amounts |
| Reports.DailyAddsUp | backend/app/Http/Controllers/API/AdminReportsController.php:111-162 | for the same range the daily amounts add up to the total collections |
| Reports.JoinPaymentsSpec | backend/app/Http/Controllers/API/AdminReportsController.php:167-180 | each joined row names a collected payment's ticket, that ticket's primary violation and its name |
| Reports.CountDescPreorder | backend/app/Http/Controllers/API/AdminReportsController.php:167-193 | largest count first is a total preorder |
| Reports.ByViolationSpec | backend/app/Http/Controllers/API/AdminReportsController.php:167-193 | at most 20 groups, largest count first, each one of the groups and none listed twice (a sub-multiset) |
| Reports.TopKeepsLargest | backend/app/Http/Controllers/API/AdminReportsController.php:167-193 | taking the first n of a list sorted by count leaves out only elements with at most the count of each kept one |
| Reports.ByViolationKeepsLargest | backend/app/Http/Controllers/API/AdminReportsController.php:167-193 | a group is left out only when 20 groups with at least its count are listed |
| Reports.ViolationGroupsKeys | backend/app/Http/Controllers/API/AdminReportsController.php:167-193 | one group per primary violation with a collected payment, by ascending id |
| Reports.ViolationGroupsSpec | backend/app/Http/Controllers/API/AdminReportsController.php:167-193 | a group names its violation, counts the distinct tickets and sums their collected amounts |
| Reports.OverviewSpec | backend/app/Http/Controllers/API/AdminReportsController.php:34-76 | the open and paid counts fit in the total, the collections are the sum of the daily trend, and at most 20 violation groups are shown |
| EnforcerStats.Latest | backend/app/Http/Controllers/API/EnforcerStatsController.php:24-26 | the latest time is null exactly for no tickets; otherwise it is one of them and none is later |
| EnforcerStats.TodaySpec | backend/app/Http/Controllers/API/EnforcerStatsController.php:12-38 | count, fines and latest time are taken over exactly the caller's tickets of that day |
| EnforcerStats.NoCitations | backend/app/Http/Controllers/API/EnforcerStatsController.php:12-38 | no ticket of the caller that day gives zero citations, zero fines and no time, and any such ticket gives a citation and a time |
| EnforcerStats.OthersIgnored | backend/app/Http/Controllers/API/EnforcerStatsController.php:17-18 | tickets of other enforcers or of other days do not change the stats |
| AdminPayments.NewerFirstPreorder | backend/app/Http/Controllers/API/AdminPaymentController.php:19-20 | newest `paid_at` first with null last, then higher id first, is a total preorder |
| AdminPayments.OrderedSpec | backend/app/Http/Controllers/API/AdminPaymentController.php:17-21 | every payment, recorded or reversed, is listed exactly once, newest first and the higher id first among equal times |
| AdminPayments.RowOfSpec | backend/app/Http/Controllers/API/AdminPaymentController.php:24-34 | a row copies its payment's fields; number, violator and cashier are null exactly when the related row or column is missing; the violator name is that of a violator the payment's ticket points at, and with unique ids exactly that violator's |
| AdminPayments.IndexSpec | backend/app/Http/Controllers/API/AdminPaymentController.php:15-36 | one row per payment in listing order; a payment is listed exactly when it is in the ledger |
| PasswordResets.LinkSpec | backend/app/Http/Controllers/API/AdminResetController.php:48-50 | the link is the base URL without trailing slashes, the reset path and the token |
| PasswordResets.IssueLinkSpec | backend/app/Http/Controllers/API/AdminResetController.php:23-60 | an unknown user is not-found; otherwise one record is appended with the token's hash, a 24-hour expiry, the admin and no use |
| PasswordResets.FindUsable | backend/app/Http/Controllers/PublicResetController.php:40-43 | the first usable record of the hash, or none exactly when none is usable |
| PasswordResets.ShowSpec | backend/app/Http/Controllers/PublicResetController.php:13-50 | the form is shown exactly for a token with an unused record of its hash expiring after now; a missing token gets the error view |
| PasswordResets.FreshLinkValid | backend/app/Http/Controllers/API/AdminResetController.php:37-42 | a fresh link opens the form strictly before its expiry and not from the expiry on |
| PasswordResets.CheckUpdate | backend/app/Http/Controllers/PublicResetController.php:54-57 | the first failing rule: token required, password required, confirmation matching, at least 8 characters |
| PasswordResets.RedeemSpec | backend/app/Http/Controllers/PublicResetController.php:52-84 | a successful update changes only the user's password and the record's use time, and needs a valid form and a usable record |
| PasswordResets.RedeemRefusesInvalid | backend/app/Http/Controllers/PublicResetController.php:62-69 | a token without a usable record is refused whatever the form says |
| PasswordResets.OneShot | backend/app/Http/Controllers/PublicResetController.php:76-77 | when no other record holds the token's hash, a successful update leaves the token failing both `show` and `update` at any later time |
| PasswordResets.ResetDesk.Store | backend/app/Http/Controllers/API/AdminResetController.php:23-60 | the tables become those of `IssueLink`, or stay for an unknown user |
| PasswordResets.ResetDesk.Update | backend/app/Http/Controllers/PublicResetController.php:52-84 | the tables become those of `Redeem`, or stay with its error |
| Notifications.NewerOrSamePreorder | backend/app/Http/Controllers/API/AdminNotificationController.php:19 | newest first is a total preorder |
| Notifications.PendingSpec | backend/app/Http/Controllers/API/AdminNotificationController.php:14-20 | exactly the unresolved requests, each as often as stored, newest first |
| Notifications.FindRequest | backend/app/Http/Controllers/API/AdminNotificationController.php:30 | the row with the id, or none exactly when no row has it |
| Notifications.ResolveSpec | backend/app/Http/Controllers/API/AdminNotificationController.php:28-33 | an unknown id is not-found; otherwise only the request with that id becomes resolved |
| Notifications.ResolveIdempotent | backend/app/Http/Controllers/API/AdminNotificationController.php:28-33 | resolving twice is resolving once |
| Notifications.ResolvedNotPending | backend/app/Http/Controllers/API/AdminNotificationController.php:17-32 | a resolved request no longer appears in the list |
| Notifications.Inbox.Resolve | backend/app/Http/Controllers/API/AdminNotificationController.php:28-33 | the table becomes `Resolved` of the old one, or stays when the id is unknown |
| RoleMigrations.CandidateInjective | backend/database/migrations/2025_09_19_000001_cleanup_spatie_and_simple_roles.php:49-57 | the loop's candidates are pairwise distinct |
| RoleMigrations.TriedSpec | backend/database/migrations/2025_09_19_000001_cleanup_spatie_and_simple_roles.php:49-57 | the first n candidates are n distinct strings |
| RoleMigrations.FreeSlug | backend/database/migrations/2025_09_19_000001_cleanup_spatie_and_simple_roles.php:49-57 | the loop ends on the first candidate neither used nor held by another row, and every earlier one was blocked |
| RoleMigrations.BackfillSlugs | backend/database/migrations/2025_09_19_000001_cleanup_spatie_and_simple_roles.php:39-60 | every role gets a slug, only its slug changes, the slugs are pairwise distinct, each is a candidate of its starting slug, and a unique non-empty slug is kept |
| RoleMigrations.StepFresh | backend/database/migrations/2025_09_19_000001_cleanup_spatie_and_simple_roles.php:51-58 | the chosen candidate is new, no later row holds it, and it is the row's own slug when that was unique |
| RoleMigrations.NotHeldLater | backend/database/migrations/2025_09_19_000001_cleanup_spatie_and_simple_roles.php:53 | a candidate no other row holds is not a later row's slug |
| RoleMigrations.FirstFree | backend/database/migrations/2025_09_19_000001_cleanup_spatie_and_simple_roles.php:49-57 | when the starting slug is free the loop does not run |
| RoleMigrations.BackfillStep | backend/database/migrations/2025_09_19_000001_cleanup_spatie_and_simple_roles.php:42-59 | one pass of the `foreach` keeps the backfill's invariant |
| RoleMigrations.KeepsUniqueSlug | backend/database/migrations/2025_09_19_000001_cleanup_spatie_and_simple_roles.php:43-53 | a unique non-empty slug is still free when its row's turn comes |
| RoleMigrations.SlugIndex | backend/database/migrations/2025_09_19_000001_cleanup_spatie_and_simple_roles.php:92-95 | the row holding a slug, or none exactly when no row holds it |
| RoleMigrations.UpsertRoleSpec | backend/database/migrations/2025_09_19_000001_cleanup_spatie_and_simple_roles.php:92 | the slug ends held under the name, by the existing row (name and update time changed) or a new row with a fresh id; other rows untouched |
| RoleMigrations.UpsertRoleDistinct | backend/database/migrations/2025_09_19_000001_cleanup_spatie_and_simple_roles.php:92 | the upsert keeps slugs pairwise distinct |
| RoleMigrations.UpsertKeepsHolds | backend/database/migrations/2025_09_19_000001_cleanup_spatie_and_simple_roles.php:92 | upserting one slug keeps another slug's row |
| RoleMigrations.UpsertExtends | backend/database/migrations/2025_09_19_000001_cleanup_spatie_and_simple_roles.php:92 | an upsert keeps old rows' id, slug and creation time and leaves other slugs' rows unchanged |
| RoleMigrations.CoreRolesPresent | backend/database/migrations/2025_09_19_000001_cleanup_spatie_and_simple_roles.php:80-92 | afterwards admin, enforcer and cashier are held under their names |
| RoleMigrations.CoreRolesKeep | backend/database/migrations/2025_09_19_000001_cleanup_spatie_and_simple_roles.php:80-92 | rows with other slugs are unchanged; existing core rows keep id, slug and creation time |
| RoleMigrations.CoreRolesDistinct | backend/database/migrations/2025_09_19_000001_cleanup_spatie_and_simple_roles.php:80-92 | the three upserts keep slugs pairwise distinct |
| RoleMigrations.SetRoleWhereEmail | backend/database/migrations/2025_09_19_000001_cleanup_spatie_and_simple_roles.php:97-99 | exactly the users with that email get the role id; accounts are kept |
| RoleMigrations.CleanupUp | backend/database/migrations/2025_09_19_000001_cleanup_spatie_and_simple_roles.php:39-100 | the old rows keep their place, id and creation time; each carries the candidate slug the backfill chose (a unique slug kept); a row not holding a core role is otherwise unchanged; the table is the backfill with the three core roles upserted; every slug is set and distinct, the core roles exist, and the known admin is assigned |
| RoleMigrations.KnownAdminGetsRole | backend/database/migrations/2025_09_19_000001_cleanup_spatie_and_simple_roles.php:95-100 | the known admin gets the admin role's id when it is not 0; other users are untouched |
| RoleMigrations.PluckId | backend/database/migrations/2025_12_09_160452_force_drop_role_column_fix.php:22-26 | the id of a row holding the slug (the last one wins), or null exactly when no row holds it |
| RoleMigrations.BackfillRole | backend/database/migrations/2025_12_09_160452_force_drop_role_column_fix.php:29-34 | exactly the users with that legacy role and no `role_id` get the id |
| RoleMigrations.DropRole | backend/database/migrations/2025_12_09_160452_force_drop_role_column_fix.php:41-45 | every row loses the legacy column and keeps its account |
| RoleMigrations.ForceDropUp | backend/database/migrations/2025_12_09_160452_force_drop_role_column_fix.php:9-46 | no `users` table means nothing is done; otherwise the table becomes `ForceDropped` of the old one |
| RoleMigrations.ForceDroppedShape | backend/database/migrations/2025_12_09_160452_force_drop_role_column_fix.php:21-45 | the legacy column is gone and every row keeps its id and email |
| RoleMigrations.ForceDroppedKeeps | backend/database/migrations/2025_12_09_160452_force_drop_role_column_fix.php:28-37 | a `role_id` is kept unless it is a known account; a missing admin (enforcer) slug leaves legacy admins (enforcers) as they were |
| RoleMigrations.ForceDroppedKnown | backend/database/migrations/2025_12_09_160452_force_drop_role_column_fix.php:31-36 | the known accounts are forced to their role's id when the slug exists with a nonzero id |
| RoleMigrations.ForceDroppedLegacy | backend/database/migrations/2025_12_09_160452_force_drop_role_column_fix.php:29-34 | a legacy admin or enforcer without a `role_id` gets that role's id when the slug exists with a nonzero id |
| UserRoles.HasRoleSpec | backend/app/Models/User.php:36-42 | false without a role; otherwise true exactly when the argument equals the role's name or slug character by character up to ASCII case |
| UserRoles.LowerEqIsCaseEq | backend/app/Models/User.php:39-41 | comparing `strtolower` results is comparing character by character up to ASCII case |
| UserRoles.HasRoleIgnoresCase | backend/app/Models/User.php:39 | lowering the argument first changes nothing |
| UserRoles.AdminAnyCase | backend/app/Models/User.php:39-41 | a role with slug `admin` answers to `ADMIN` and to `Admin` |
| AdminUsers.DisplayName | backend/app/Http/Resources/AdminUserResource.php:13 | null exactly when full name, name and email are all null; otherwise one of them |
| AdminUsers.RoleById | backend/app/Http/Resources/AdminUserResource.php:25 | the first roles row with the id, or none exactly when no row has it |
| AdminUsers.RoleNamePriority | backend/app/Http/Resources/AdminUserResource.php:16-45 | the first loaded role wins (a step kept as written, though dead in the program); then the row `role_id` points at; then the decoded name, else slug, or the raw string; when all three find nothing, `role_name`, else `roleName` |
| AdminUsers.RoleNameNone | backend/app/Http/Resources/AdminUserResource.php:16-45 | the role is null exactly when every step finds nothing |
| AdminUsers.RoleNameOrigin | backend/app/Http/Resources/AdminUserResource.php:16-45 | a role found is one of the user's own values or a roles row's name |
| AdminUsers.ToArraySpec | backend/app/Http/Resources/AdminUserResource.php:47-54 | the id string casts back to the id; `active` is true only for a stored true; the other fields are copied |

## Left out

- Concurrency: `lockForUpdate` and the `DB::transaction` wrappers are atomic steps, and the race between concurrent issuers on one day's control number is not modelled.
- Floating point: `decimal(10,2)` columns and PHP's float casts are integer cents.
- Framework plumbing: HTTP responses, routing, middleware input trimming, JSON shapes, eager loading and the validator's error bag. Only the first failing rule of a form is reported.
- Timezones and date formatting: days are `t / 86400`. The ISO and `Y-m-d H:i:s` strings of the responses are not modelled.
- SQL collation: strings compare by code point. `LIKE` matching is plain substring search, with no `%` or `_` wildcards inside the search text.
- Null ordering: a null `paid_at` sorts as the smallest time, the MySQL and SQLite convention.
- `max:255` counts elements of the string, with no multibyte character length.
- Sort order among equal keys is the model's stable choice wherever SQL leaves it open. This covers the top-20 groups of `byViolation` with equal counts.
- `(int)` casts read a string of leading digits; signs and leading blanks are not modelled.
- Auto-increment ids never leave gaps and are one more than the largest id.
- Eloquent timestamps are not modelled where no modelled operation reads them: `created_at` and `updated_at` on resolved requests, reset records and catalog rows, the `updated_at` of tickets, and both `created_at` and `updated_at` of payments. A ticket's `created_at` is modelled (`Records.Ticket.createdAt`), since the recent-unpaid listing orders by it.
- Payment reversal: no operation of the core reverses a payment. Reversed rows just appear in the data.
- The missing `return` at the end of `ClerkPaymentController::store` (its HTTP response) is not modelled; the ledger change is.
- The print views' relations (`primaryViolation`, `latestPayment`, the enforcer) are inputs to the printing functions. `backend/app/Models/Ticket.php` defines neither `primaryViolation` nor `latestPayment`, so both print controllers fail while eager-loading them, before any projection runs. The Printing module models the projection the controllers are written to compute.
- Violator `age` and `sex`, and the ticket's `compliance_date`, are validated and dropped, because they are not fillable; the model stores none of them.
- `age` is an integer and `compliance_date` a date by type, so the validator's refusal of a non-integer age or a malformed date is not modelled.
- Password hashing: `Hash::make` is a given value. The token comes from `Str::random(60)` and is taken as given with length 60.
- The `roles` migration reads the table in id order; that order is a precondition, `InIdOrder`.
- The `name` unique index of `roles` can reject the upsert of a core role; that refusal is not modelled. The `guard_name` column, the Spatie table drops, schema DDL and the Postgres CHECK-constraint drop are left out too.
- AdminUsers.RoleNameOrigin: a `role` attribute that is not a string, such as a loaded relation object, counts as absent. Values in the decoded JSON are taken to be strings or null.
- UserRoles.HasRoleSpec: PHP 8 `strtolower` on a null slug is taken as the empty string, and only ASCII letters are lowered.
- AdminUsers.RoleNamePriority: step 1 of the role fallback is guarded by `method_exists($this, 'roles')` on the resource, not on the user model, so in the program it never fires. The model keeps the step as written; with `loadedRoles` None it is skipped, as in the program.
- The clock `now` and the calendar date `today` are independent parameters. The code derives the control-number prefix and `apprehended_at` from one clock, so their agreement is not modelled.
