# YPPF core logic in Dafny

This project models three pieces of sequential logic from YPPF, a student-affairs platform built on Django. It proves properties of each.

- **Query-path resolution** (`utils/models/query.py`)
  - `f`, `q` and `lq` turn a chain of field references into one lookup path joined with `__`.
  - References include literal strings, model fields, deferred-attribute descriptors, foreign-key raw-id descriptors, and forward and many-to-many relation descriptors.
  - Module `Query`, file `query.dfy`.
- **Scheduled YQPoint distribution** (`app/scheduler_func.py`)
  - The college organisation pays a fixed amount to every activated person, and to every other activated organisation, whose balance is at most a threshold.
  - The college is debited once for every account that still matches the filter after the credit (line 39). A recipient the credit pushes above the threshold is not paid for.
  - One accepted transfer record is written for every account that matches the filter after the college's save (lines 43-51).
  - The scheduler job for a distribution type is chosen by a pure rule.
  - Module `Scheduler`, file `scheduler.dfy`. The person and organisation tables form one table of tagged accounts in `class Ledger`.
- **Admin business rules** (`app/admin.py`)
  - **Excel import of natural persons.** Rows are normalised and validated. Users are created or the whole import is rolled back. A password file follows.
    - Module `NaturalPersonAdmin`, file `natural_person_admin.dfy`, with `class Directory`.
  - **Position rank actions and `refresh`.** The four rank actions go through one shared loop. `refresh` copies positions into the current year without creating duplicates.
    - Module `PositionAdmin`, file `position_admin.dfy`, with `class PositionTable`.
  - **The `_show_by_option` fieldset helper.**

`wrappers.dfy` holds the shared `Option` type.

## How the pieces are modelled

### Query-path resolution

- Each framework class the resolver tells apart with `isinstance` is one constructor of `Query.FieldRef`.
- The names Django stores on a field are data, as in Django: `name`, plus `attname` for a relation.
- A `TypeError` is the `Unsupported` result. It carries the offending reference.

### Queryset re-evaluation

A Django queryset is lazy. In the model, a `Recipients` filter is applied again with `Scheduler.Selected` at every point where the source evaluates it:

- the count of the balance check;
- the emptiness test;
- the bulk update on line 38;
- the count on line 39, taken after the credit;
- the record list on lines 43-51, taken after the proposer's save.

The proposer's in-memory balance is a separate value, because `save()` writes back the object's own field.

### Atomic import

- The import loop runs inside `transaction.atomic()`. `ReadRows` runs the loop without touching the user table. `Directory.ImportRows` then commits the users it collected, or changes nothing when a row raises, which is what the rollback leaves.
- The loop body is a function of a row and its index (`ReadRow`, wrapped as `Reader`). The loop is independent of that body: `Outcomes` and `Collect`.
- Every property of the loop is proved for any body.

### Rank actions and refresh

- The four rank actions iterate over positions fetched once. Each saves its fetched copy changed by the action.
- `refresh` checks existence against the live table. Copies made earlier in the same loop therefore count. `PositionTable.Refresh` keeps that table as a working copy that includes its own copies, and stores it once at the end. Nothing else reads the table while the loop runs.

## Model

| member | source | states |
|---|---|---|
| Query.IsRelation | utils/models/query.py:52-58 | a reference is a relation iff it is a RelatedField or a relation descriptor, or a Field whose `is_relation` flag is set |
| Query.IsForeignIndex | utils/models/query.py:61-63 | the raw-id descriptor is both a relation and a plain (deferred) field |
| Query.IsForwardRelation | utils/models/query.py:66-70 | every forward relation is a relation; among related references, exactly those other than the raw-id descriptor are forward |
| Query.GetRelatedField | utils/models/query.py:73-83 | yields the RelatedField behind exactly the related references; for anything else, the failing assert reports the reference itself |
| Query.NormalName | utils/models/query.py:86-92 | a deferred attribute is named by the field it wraps, so a RelatedField or raw-id descriptor taken as a plain field gets the forward name |
| Query.ForeignIndexName | utils/models/query.py:95-98 | the name is the related field's storage column `attname` |
| Query.ForwardName | utils/models/query.py:101-104 | the name is the related field's logical `name` |
| Query.ToFieldName | utils/models/query.py:107-118 | checks run in the source's order: a literal resolves to itself; a raw-id descriptor resolves to `attname`; RelatedField, forward and many-to-many descriptors resolve to the field's `name`; plain and deferred fields to their `name`; a TypeError exactly for an unrelated object or a relation-flagged Field that is not a RelatedField |
| Query.ForeignIndexResolvesToAttname | utils/models/query.py:61-63 | the raw-id descriptor also counts as a plain field, which would give `name`; because the relation check runs first, it resolves to `attname` |
| Query.ManyToManyIgnoresSide | utils/models/query.py:66-70 | a many-to-many descriptor resolves to the forward field's `name` whichever side it was read from |
| Query.Segments | utils/models/query.py:123 | the generator resolves every reference in input order; it succeeds iff each reference resolves, and then segment i is the name of reference i |
| Query.SegmentsReportFirstFailure | utils/models/query.py:118-123 | the TypeError of a chain is that of its first unsupported reference, and every earlier reference resolves |
| Query.SegmentsAppend | utils/models/query.py:123 | segments of a concatenation are the concatenated segments, and the left part's failure comes first |
| Query.SegmentsAppendFailure | utils/models/query.py:123 | the failing cases of that statement |
| Query.Join | utils/models/query.py:123 | `sep.join` of no segment is `""`; otherwise it starts with the first segment, and its length is the segments' lengths plus one separator between each two neighbours |
| Query.JoinAppend | utils/models/query.py:123 | `LOOKUP_SEP.join` of two non-empty halves is the two joins with one separator between them |
| Query.F | utils/models/query.py:121-123 | `f()` is `""`; `f` succeeds iff every segment resolves, and otherwise reports the first failure |
| Query.FSingle | utils/models/query.py:121-123 | `f(r)` is `_to_field_name(r)` |
| Query.FAppend | utils/models/query.py:121-123 | `f(a + b)`: an error in `a` wins; then an error in `b`; when both parts resolve, their paths are joined by `__` |
| Query.Q | utils/models/query.py:126-128 | `q(*refs, value=v)` is the single lookup `{f(*refs): v}`, and fails exactly when `f` does |
| Query.LQ | utils/models/query.py:131-133 | `lq(v, *refs)` builds the lookup `{f(*refs): v}`, and fails exactly when `f` does |
| Query.LqAgreesWithQ | utils/models/query.py:131-133 | `lq(v, *refs) == q(*refs, value=v)` for every input |
| Query.PositionPaths | utils/models/query.py:107-123 | concrete paths: forward relation then field gives `person__pos`; the raw id gives `person_id`; a literal is unchanged |
| Query.PersonUsernamePath | app/admin.py:58 | the person admin's search path `f(_m.person_id, User.username)` is `person_id__username` |
| Scheduler.Selected | app/scheduler_func.py:59-62 | evaluating a queryset yields at most the table's rows |
| Scheduler.SelectedIsFilter | app/scheduler_func.py:59-62 | an account is selected iff it is in the table and is activated, of the kind, within the threshold and not excluded |
| Scheduler.Credit | app/scheduler_func.py:38 | the bulk update keeps the table's length |
| Scheduler.CreditAt | app/scheduler_func.py:38 | the bulk update adds the amount to each matching row and leaves other rows unchanged, row by row |
| Scheduler.Records | app/scheduler_func.py:43-51 | one record per recipient in queryset order, with amount YQPoints, status ACCEPTED, and start = finish = trans_time |
| Scheduler.Distribution | app/scheduler_func.py:20-52 | a distribution keeps the table's length |
| Scheduler.SaveBalanceChangesOneRow | app/scheduler_func.py:40 | `save()` of the proposer sets its row's balance and changes no other field and no other row |
| Scheduler.DistributionSteps | app/scheduler_func.py:38-40 | after the credit, the proposer's balance loses Payment(count after the credit), and that value is saved to its row |
| Scheduler.DistributionRecords | app/scheduler_func.py:43-52 | the records are built from the queryset re-evaluated on the final table |
| Scheduler.DistributionEffect | app/scheduler_func.py:38-52 | only balances change; every non-proposer row that matched before line 38 gains exactly the amount, and no other row changes; the proposer's debit counts rows matching after the credit; the records follow the final table |
| Scheduler.DistributionWithoutRecipients | app/scheduler_func.py:32-36 | an empty queryset returns before the update: the table is unchanged and no record is written |
| Scheduler.CreditNarrowsSelection | app/scheduler_func.py:38-39 | the count after the credit is at most the count before, and equal iff every credited row stays within the threshold |
| Scheduler.PaymentIsProduct | app/scheduler_func.py:39 | the debit `count * YQPoints`, written as repeated addition, is that product |
| Scheduler.PaymentDifference | app/scheduler_func.py:39 | paying for a recipients costs exactly the payment for a - b more than paying for b |
| Scheduler.PaymentIsZero | app/scheduler_func.py:39 | nothing is paid iff there is no recipient or the amount is zero |
| Scheduler.TotalAfterCredit | app/scheduler_func.py:38 | the bulk update raises the sum of balances by the amount once per matching row |
| Scheduler.TotalAfterUpdate | app/scheduler_func.py:40 | saving one balance changes the sum by the difference |
| Scheduler.SelectedUnaffected | app/scheduler_func.py:40-51 | saving a row the filter rejects does not change what the queryset selects |
| Scheduler.DistributionPaysForRecords | app/scheduler_func.py:38-52 | when the proposer is outside the filter: there is one record per row matching after the credit; the proposer pays exactly for the records written; new total + payment = old total + credit |
| Scheduler.DistributionConservation | app/scheduler_func.py:38-39 | when the proposer is outside the filter whatever its balance, and its in-memory balance is its stored one: the sum of balances is conserved iff the amount is zero or every credited recipient still satisfies `YQPoint <= max` |
| Scheduler.ConservedExactly | app/scheduler_func.py:38-39 | the balance arithmetic behind conservation: an unchanged total iff the amount is zero or the counts agree |
| Scheduler.OverdraftIsNotPrevented | app/scheduler_func.py:27-40 | when every credited row stays within the threshold, so that the count after the credit equals the count checked: the balance check only prints, and a proposer short of the payment ends with a negative balance |
| Scheduler.PersonRecipients | app/scheduler_func.py:59-60 | the person queryset selects exactly the activated persons whose balance is at most `per_max_dis_YQP` |
| Scheduler.OrgRecipients | app/scheduler_func.py:61-62 | the organisation queryset selects exactly the activated organisations whose balance is at most `org_max_dis_YQP`, except the college |
| Scheduler.OrgsNamed | app/scheduler_func.py:64 | returns exactly the indices of the organisations with the given name, in increasing table order |
| Scheduler.UniqueNameFound | app/scheduler_func.py:64 | when exactly one organisation has the name, the search finds just that one |
| Scheduler.CollegeIndex | app/scheduler_func.py:64 | `get(oname="元培学院")` succeeds iff exactly one organisation is the college, and then yields it; none or more than one fails |
| Scheduler.CollegeNeverPaysItself | app/scheduler_func.py:59-64 | the college is excluded by both querysets whatever its balance, so no selected organisation is the college |
| Scheduler.Ledger.DistributeToUsers | app/scheduler_func.py:20-52 | warned iff the balance is short of `count * YQPoints` for the count before the update; the table, the proposer's returned balance and the appended transfer records are those of `Distribution` on the old table |
| Scheduler.Ledger.CreditMatching | app/scheduler_func.py:38 | the in-place bulk update leaves the table equal to `Credit` of the old one, and leaves the transfers unchanged |
| Scheduler.Ledger.DistributeYQPoint | app/scheduler_func.py:55-67 | fails without change unless the college is unique; otherwise persons first, then organisations, paid by one in-memory college object |
| Scheduler.RecordsFor | app/scheduler_func.py:43-51 | the list comprehension's loop builds exactly `Records` of the evaluated queryset |
| Scheduler.NatToDecimal | app/scheduler_func.py:89 | the decimal string is non-empty and made only of digits |
| Scheduler.NatToDecimalInjective | app/scheduler_func.py:89 | distinct naturals have distinct decimal strings |
| Scheduler.SignFirst | app/scheduler_func.py:89 | `str(i)` starts with '-' iff i < 0 |
| Scheduler.IntToDecimalInjective | app/scheduler_func.py:89 | distinct integers have distinct strings |
| Scheduler.JobId | app/scheduler_func.py:83-90 | the id is `temporary_YQP_distribute` exactly for the temporary type, and ends in `weeks_interval_YQP_distribute` exactly for the other types |
| Scheduler.JobIdsDistinct | app/scheduler_func.py:83-90 | different distribution types get different job ids |
| Scheduler.ActiveOfType | app/scheduler_func.py:80 | yields exactly the distributers of the type that are active |
| Scheduler.ActiveOfTypeCount | app/scheduler_func.py:80 | the filter keeps one entry per active row of the type, so "exactly one" counts table rows |
| Scheduler.ActiveIndicesStep | app/scheduler_func.py:80 | the active rows of a table are those of all but its last row, plus the last row when it is active |
| Scheduler.AddDistributeJob | app/scheduler_func.py:79-90 | a job is registered iff exactly one active distributer has the type, under the id `JobId(type)`: TEMPORARY gives a "date" job `temporary_YQP_distribute` at start_time; any other type gives an "interval" job of `type` weeks with id `<type>weeks_interval_YQP_distribute` |
| NaturalPersonAdmin.StripLeft | app/admin.py:208-212 | stripping never lengthens a string |
| NaturalPersonAdmin.StripRight | app/admin.py:208-212 | stripping never lengthens a string |
| NaturalPersonAdmin.StripLeftSpec | app/admin.py:208-212 | keeps a suffix that does not start with whitespace, and cuts only whitespace |
| NaturalPersonAdmin.StripRightSpec | app/admin.py:208-212 | keeps a prefix that does not end with whitespace, and cuts only whitespace |
| NaturalPersonAdmin.Strip | app/admin.py:208-212 | `str.strip()` never lengthens a string |
| NaturalPersonAdmin.StripSpec | app/admin.py:208-212 | `strip()` keeps a contiguous slice with no whitespace at either end, and everything cut off is whitespace |
| NaturalPersonAdmin.StripIdempotent | app/admin.py:208-212 | stripping twice is stripping once |
| NaturalPersonAdmin.Password | app/admin.py:233-234 | the password is the first min(12, length) characters of the hash of the student id |
| NaturalPersonAdmin.ReadRow | app/admin.py:203-258 | a failed check's error names the row (the short-row IndexError names none); an accepted row's user has the row's student id and the password derived from it |
| NaturalPersonAdmin.ReadRowCases | app/admin.py:203-258 | the row outcome, case by case: a short row raises the row-less `MissingColumn`; a row with an empty or "None" field is skipped; email, then gender, then identity are checked in order, and each of these three failures names its row; an accepted row's user has the stripped fields, 男 → MALE, 学生 → STUDENT, and the hashed password |
| NaturalPersonAdmin.AcceptedUserIsClean | app/admin.py:208-222 | an accepted user has stripped, non-empty id and name, and an email containing '@' |
| NaturalPersonAdmin.Outcomes | app/admin.py:201-205 | there is one outcome per data row, and none for the header |
| NaturalPersonAdmin.OutcomesAt | app/admin.py:201-205 | outcome i-1 is that of sheet row i+1, read with the 1-based index `row_idx` |
| NaturalPersonAdmin.OutcomesPrefix | app/admin.py:201-205 | the rows are processed in order: a prefix of the sheet gives a prefix of the outcomes |
| NaturalPersonAdmin.ImportIgnoresHeader | app/admin.py:203-205 | the first row never influences the outcomes |
| NaturalPersonAdmin.OutcomesStep | app/admin.py:201-258 | one more data row appends its outcome |
| NaturalPersonAdmin.Collect | app/admin.py:214-258 | a failed accumulation reports the error of one of its raising outcomes |
| NaturalPersonAdmin.Import | app/admin.py:201-258 | a failed check names a data row of the sheet (2 <= row <= the number of rows); a missing-column failure comes from a data row with fewer than five cells |
| NaturalPersonAdmin.FailureNamesDataRow | app/admin.py:201-258 | the error of a failed loop over a sheet is raised by one of its data rows: a failed check names a row from 2 to the number of rows, and a missing column means some data row has fewer than five cells |
| NaturalPersonAdmin.CollectStep | app/admin.py:214-258 | after a successful prefix, a skip changes nothing, an accepted row appends its user, and a raising row fails with its error |
| NaturalPersonAdmin.RowStep | app/admin.py:201-258 | one more data row after a successful prefix: a skipped row changes nothing, an accepted row appends its user and its password entry, and a raising row decides the whole import |
| NaturalPersonAdmin.CollectFailurePersists | app/admin.py:195-258 | once a row raises, later rows do not matter |
| NaturalPersonAdmin.CollectSucceedsIff | app/admin.py:221-225 | the accumulation succeeds iff no outcome raises |
| NaturalPersonAdmin.CollectReportsFirstError | app/admin.py:221-225 | a failure reports the error of the first raising outcome |
| NaturalPersonAdmin.AcceptedOfAppend | app/admin.py:258 | the accepted users of outcomes followed by one more |
| NaturalPersonAdmin.CollectKeepsOrder | app/admin.py:237-258 | a success holds exactly the accepted users, in row order |
| NaturalPersonAdmin.OutcomesSucceedIff | app/admin.py:201-225 | the loop over a sheet succeeds iff no data row raises, for any loop body |
| NaturalPersonAdmin.NoRaisingRow | app/admin.py:201-225 | a successful loop over a sheet had no raising data row, for any loop body |
| NaturalPersonAdmin.FirstRaisingRow | app/admin.py:201-225 | a failed loop names its first raising data row, and the rows before it do not raise |
| NaturalPersonAdmin.ImportSucceedsIff | app/admin.py:201-225 | the import succeeds iff no data row raises |
| NaturalPersonAdmin.ImportDoneHasNoRaisingRow | app/admin.py:201-225 | a successful import had no raising data row |
| NaturalPersonAdmin.ImportReportsFirstError | app/admin.py:201-225 | a failed import reports the error of the first data row that raises |
| NaturalPersonAdmin.RejectEndsImport | app/admin.py:195-258 | a raising row ends the import with its error |
| NaturalPersonAdmin.ImportKeepsRowOrder | app/admin.py:237-258 | the users created are exactly the accepted rows' users, in row order |
| NaturalPersonAdmin.CredentialsOf | app/admin.py:258 | one password-list entry per user |
| NaturalPersonAdmin.CredentialsOfAt | app/admin.py:258 | entry k is `(sid, name, password)` of user k |
| NaturalPersonAdmin.WritePasswordCsv | app/admin.py:267-271 | the header `['ID','姓名','密码']`, then one `[id, name, password]` line per entry, in order |
| NaturalPersonAdmin.ReadRows | app/admin.py:201-258 | the loop gives the first error when the sheet fails; otherwise exactly the accepted users in order, and their `(sid, name, password)` entries |
| NaturalPersonAdmin.Directory.ImportRows | app/admin.py:195-258 | on failure, the first error is reported and the user table is left as it was; on success, exactly the accepted users are appended in order, and the password list is their `(sid, name, password)` in order |
| NaturalPersonAdmin.Directory.ImportExcel | app/admin.py:193-291 | on failure, an error message and no change; on success, the users are appended; "no users imported" iff none was accepted; when users were created, the response is the password file, listing them in order |
| NaturalPersonAdmin.ShowByOption | app/admin.py:68-71 | the pair (option, detail) iff there is no person yet or the person's flag is set; otherwise the option alone |
| PositionAdmin.Demoted | app/admin.py:390-392 | `pos` grows by one; nothing else changes |
| PositionAdmin.Promoted | app/admin.py:398-400 | `pos` becomes max(0, pos-1): never negative, one less above 0; nothing else changes |
| PositionAdmin.AsMember | app/admin.py:406-409 | `pos` becomes the type's length and `is_admin` false; nothing else changes |
| PositionAdmin.AsManager | app/admin.py:415-418 | `pos` becomes 0 and `is_admin` true; nothing else changes |
| PositionAdmin.PromoteUndoesDemote | app/admin.py:391-399 | promoting after demoting restores any non-negative rank |
| PositionAdmin.DemoteUndoesPromote | app/admin.py:391-399 | demoting after promoting restores the position iff its rank is at least 1 |
| PositionAdmin.PromoteAtHeadIsStable | app/admin.py:399 | promoting a head changes nothing |
| PositionAdmin.MemberAndManagerOverwrite | app/admin.py:407-417 | `to_member` and `to_manager` overwrite each other exactly |
| PositionAdmin.Act | app/admin.py:390-418 | an action changes only rank and admin right; demote and promote keep the admin right; to_member clears it and to_manager sets it |
| PositionAdmin.ActKeepsIdentity | app/admin.py:391-418 | no rank action changes key, person, organisation, year, semester or status |
| PositionAdmin.HasPositionInKeys | app/admin.py:440-442 | the existence check asks whether (person, org, year) is among the table's keys |
| PositionAdmin.CopyFor | app/admin.py:443-445 | the copy has the new year and key, and is otherwise the original |
| PositionAdmin.PositionTable.Apply | app/admin.py:390-418 | each selected position becomes the action applied to its fetched value; every other row, the length and the next key are unchanged |
| PositionAdmin.PositionTable.DemoteAll | app/admin.py:389-392 | `demote` changes exactly the selected positions, by `Demoted` |
| PositionAdmin.PositionTable.PromoteAll | app/admin.py:397-400 | `promote` changes exactly the selected positions, by `Promoted` |
| PositionAdmin.PositionTable.ToMemberAll | app/admin.py:405-409 | `to_member` changes exactly the selected positions, by `AsMember` with their organisation type's length |
| PositionAdmin.PositionTable.ToManagerAll | app/admin.py:414-418 | `to_manager` changes exactly the selected positions, by `AsManager` |
| PositionAdmin.PositionTable.Refresh | app/admin.py:437-446 | the table becomes the old rows followed by exactly `RefreshCopies` of the selection, the answer lists their keys with their persons, and the next key moves past them; hence each new row is the current-year copy of a selected position from another year, new for its (person, org), and every selected position from another year ends with a current-year position |
| PositionAdmin.RefreshCopies | app/admin.py:438-446 | at most one copy per selected position; by definition, the copies for the first i selected positions are in order, and a position is copied under the next key exactly when its year differs and neither the fetched table nor an earlier copy covers its (person, org), so the first of several candidates wins |
| PositionAdmin.RefreshCopiesSound | app/admin.py:438-446 | the copies `RefreshCopies` makes are copies of selected positions from another year, keyed in insertion order, each new for its (person, org) when inserted; every selected position from another year is covered afterwards |
| PositionAdmin.CopiesOfWiderSelection | app/admin.py:438-440 | a copy of one of the first i selected positions is a copy of one of the first i+1 |
| PositionAdmin.SkipStep | app/admin.py:440-442 | a position in the current year, or one whose (person, org) already has a current-year position, is skipped and keeps the loop invariant |
| PositionAdmin.CopyStep | app/admin.py:440-446 | a copied position keeps the loop invariant and leaves its (person, org) covered |
| PositionAdmin.RefreshAddsNoDuplicate | app/admin.py:440-446 | a table with at most one current-year position per (person, org) keeps that property after `refresh` |
| PositionAdmin.RefreshCopiesAreCurrent | app/admin.py:443 | every copy belongs to the current year |
| PositionAdmin.GrowingKeepsPositions | app/admin.py:440-445 | inserted rows never hide an existing position from the existence check |

## Left out

- Django ORM mechanics are not modelled: `save()`, `bulk_create`, deferred loading and the M2M `clear`/`set` calls. Querysets appear only as the filters they evaluate, and transactions only as their all-or-nothing outcome.
- Admin registration, list and search configuration, templates, `HttpResponse`, messages, redirects and URL routing are framework glue. The messages and the response body are not modelled. The import view's response is the `Response` datatype.
- Reading workbooks with openpyxl is an input: a sheet is a sequence of rows of cells. A cell holds the text `str()` gives for its value, or is blank (`None`). How `str()` renders numbers and dates is not modelled.
- The csv module's quoting and escaping are not modelled. The password file is its table of lines.
- `GLOBAL_CONFIG.hasher` is an opaque parameter `hash`.
- The import does not model username collisions. The database's uniqueness constraint makes `create_user` raise on a duplicate student id, which would fail the import. The model has no unique index.
- The creation of `NaturalPerson` and `Participant` rows beside each `User` is not modelled. The model keeps one `NewUser` record per created person.
- `NaturalPersonAdmin.ImportError`: the exception texts are not modelled. `MissingColumn` stands for the IndexError that `row[k]` raises on a row shorter than five cells; its message names no row, so the constructor carries none. The three assertion failures carry the row their messages name.
- The import's form validation (`form.is_valid()`) and the GET branch are not modelled.
- WeChat publishing and the notification republish actions are foreign calls.
- `Managers`, `get_rank` and the other ORM aggregate queries of the admin have their meaning in the database.
- The `set_admin`/`set_not_admin` actions and the organisation and activation actions are bulk `update` calls with no logic.
- APScheduler and `DjangoJobStore` are not modelled. Only the job descriptor chosen at app/scheduler_func.py:83-90 is, as `Job`. Nothing runs the job.
- `datetime.now()` timing and the debug prints are left out. The balance check's print is modelled only as the `warned` result.
- The views `YQPoint_Distributions` and `YQPoint_Distribution`, and `app/forms.py`, hold no logic that belongs to this core.
- The commented-out Activity and Participation admin code is dead code.
- The transfer record's `message` text is not modelled. It needs `Organization.__str__`, which lives in app/models.py, and that file is not part of this model.
- `Scheduler.TemporaryType`: the value of `DistributionType.TEMPORARY` is defined in app/models.py, which is not part of this model. It is taken to be 0, the one-shot type, with the weekly types numbered by their week count.
- `Scheduler.Account`: YQPoint balances and amounts are integers, because app/models.py, where the field's type is declared, is not part of this model. Floating-point rounding of balances is not modelled.
- `PositionAdmin.Act`: the length of an organisation type (`otype.get_length()`) is a parameter `typeLength`. Its definition is in app/models.py, which is not part of this model. Likewise `Position.pos` is an unbounded integer, and the database's column range is not modelled.
- `PositionAdmin.PositionTable.Refresh`: the answer pairs each new key with the person's id, not with `get_display_name()`, which lives in app/models.py.
- `Query.ManyToManyIgnoresSide`: a `ManyToManyDescriptor` read from the reverse side resolves to the forward field's `name`, because the code does not consult the descriptor's `reverse` flag. The model states this behaviour as written. It is not claimed to be intended or unintended.
