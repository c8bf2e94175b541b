# Partial update of a service template, and the legacy object SQL builders

This project models two pieces of Centreon's configuration layer in Dafny.

**The `PartialUpdateServiceTemplate` use case.** It answers
`PATCH /configuration/services/templates/{id}`.
- The use case is a pure function `PartialUpdate.Invoke`. It maps a world, the collaborators and a request to an outcome.
  - The world (`ServiceTemplate.World`) holds what the repositories answer, the user's rights, and which calls throw.
  - The collaborators (`ServiceTemplate.Collaborators`) are the functions whose code is not part of the model: inheritance line, macro resolution, `MacroFactory::create`, `MacroDifference`, `MacroManager::setOrder`, `BasicDifference`.
  - The outcome is the ordered list of repository and storage-engine calls made (`Effect`), plus the response handed to the presenter.
- Each thrown exception short-circuits the rest of its block, exactly as the PHP `try`/`catch` structure does.
- The properties cover:
  - the role and not-found gates;
  - validation;
  - link replacement;
  - the macro write order;
  - the transaction discipline;
  - "no write outside the transaction";
  - "NoContent exactly when committed".

**`Models\Configuration\Object`.** It has `insert`, `update`, `getList`, `getIdByParameter` and `__call`.
- Each of these is a pure function from the method's arguments to the prepared statement it hands to the database, with the values bound to its placeholders.
- `duplicate` is a `method` whose loop is checked against the candidate labels and the labels already in the table.
- PHP's string semantics are modelled explicitly in module `PhpStrings`: truthiness of strings, `trim`, `implode`, `str_replace`, `strtoupper` and integer-to-string conversion.
- A parameter array is an ordered list of (column, value) pairs whose values are strings or `null`.

Files:
- `base.dfy`: `Option`, `Result`.
- `php_strings.dfy`: the PHP string functions.
- `object_sql.dfy`: the SQL builders.
- `object_duplicate.dfy`: `duplicate`.
- `service_template.dfy`: the use case's data.
- `partial_update.dfy`: the use case.
- `partial_update_properties.dfy`: properties of the use case.

Where the code and its design notes disagree, the model follows the code:
- **Commit and rollback can both happen.** A commit that throws lands in the `catch` of `updatePropertiesInTransaction`, so it is rolled back. A trace can therefore contain both `commitTransaction` and `rollbackTransaction`. `TransactionDiscipline` proves this happens only when the commit itself threw.
- **Categories are validated as sent.** Duplicates are dropped only before the category difference is computed. Host templates, by contrast, are deduplicated before validation.
- **`update` binds "" where it means NULL.** The empty-to-null step of `update` is undone by the `str_replace` that follows it (see Findings).

## Model

| member | source | states |
|---|---|---|
| PhpStrings.TrimSpec | centreon/application/models/Configuration/Object.php:90 | `trim` keeps a contiguous slice of its input; everything cut from either end is whitespace of the default set, and neither end of the result is |
| PhpStrings.TrimIdempotent | centreon/application/models/Configuration/Object.php:276 | trimming a trimmed filter value changes nothing |
| PhpStrings.JoinExtend | centreon/application/models/Configuration/Object.php:82-88 | the "add a comma unless still empty, then append" idiom builds the comma-join of non-empty pieces |
| PhpStrings.JoinTruthy | centreon/application/models/Configuration/Object.php:92 | a non-empty join of truthy pieces is truthy, so the guard on the accumulated strings passes |
| PhpStrings.ReplaceAbsent | centreon/application/models/Configuration/Object.php:148 | `str_replace` leaves a string without the pattern unchanged |
| PhpStrings.NoBreakRemains | centreon/application/models/Configuration/Object.php:148 | after replacing `<br/>` by a newline, no `<br/>` is left, not even one formed across a replacement |
| PhpStrings.UpperEqualsWord | centreon/application/models/Configuration/Object.php:283 | `strtoupper($sort) == "ASC"` holds exactly when the sort spells ASC in any mix of cases |
| PhpStrings.NatToString | centreon/application/models/Configuration/Object.php:197 | the suffix `$j` renders as decimal digits without a leading zero |
| PhpStrings.ParseNatToString | centreon/application/models/Configuration/Object.php:197 | the decimal rendering of the suffix reads back as the same number |
| PhpStrings.NatToStringInjective | centreon/application/models/Configuration/Object.php:197 | different suffixes render differently |
| PhpStrings.WordPrefix | centreon/application/models/Configuration/Object.php:336 | the greedy `[a-zA-Z0-9_]+` capture is the longest run of word characters at the start |
| ObjectSql.InsertedEntries | centreon/application/models/Configuration/Object.php:78-81 | `insert` keeps exactly the entries whose column is not the primary key and whose value is not null; `InsertedEntriesSplit` shows the order is kept |
| ObjectSql.InsertedEntriesSplit | centreon/application/models/Configuration/Object.php:78-91 | the entries kept from a row split in two are those kept from the first part followed by those kept from the second, so the kept entries stay in row order |
| ObjectSql.InsertLoopParams | centreon/application/models/Configuration/Object.php:78-91 | the loop binds the trimmed value of every kept entry, in order |
| ObjectSql.InsertLoopValues | centreon/application/models/Configuration/Object.php:85-89 | the loop writes one `?` per kept entry, comma separated |
| ObjectSql.InsertLoopFields | centreon/application/models/Configuration/Object.php:82-88 | with truthy column names, the field list names the kept columns in order |
| ObjectSql.InsertLoopNonEmpty | centreon/application/models/Configuration/Object.php:92 | the value list is non-empty exactly when some entry is kept; so is the field list, given truthy column names |
| ObjectSql.Insert | centreon/application/models/Configuration/Object.php:72-99 | no statement when nothing is kept; otherwise the kept values trimmed and, with truthy column names, `INSERT INTO t (cols) VALUES (?,…)` over exactly the kept columns |
| ObjectSql.AssignedEntries | centreon/application/models/Configuration/Object.php:137-140 | `update` assigns exactly the entries whose column is not the primary key (every other entry is kept); `AssignedEntriesSplit` shows the order is kept |
| ObjectSql.AssignedEntriesSplit | centreon/application/models/Configuration/Object.php:137-150 | the entries assigned from a row split in two are those from the first part followed by those from the second, so assignments follow row order |
| ObjectSql.NullIfEmptyInvisible | centreon/application/models/Configuration/Object.php:145-148 | the null produced for an empty nullable value is bound as the same string the empty value would give |
| ObjectSql.UpdateLoopParams | centreon/application/models/Configuration/Object.php:137-150 | the loop binds each assigned value with line breaks replaced, in order |
| ObjectSql.UpdateLoopAssignments | centreon/application/models/Configuration/Object.php:141-144 | the loop writes one `column = ? ` per assigned column, comma separated |
| ObjectSql.Update | centreon/application/models/Configuration/Object.php:120-158 | no statement exactly when nothing is assigned; otherwise `UPDATE t SET c = ? ,… WHERE pk = ?` with the values, then the object id |
| ObjectSql.UpdateIgnoresNotNullColumns | centreon/application/models/Configuration/Object.php:127-135 | the answer of `SHOW FIELDS` never changes the statement issued |
| ObjectSql.UpdateLeavesNoBreaks | centreon/application/models/Configuration/Object.php:148 | every bound value before the id is a string without `<br/>` |
| ObjectSql.UpdateBindsEmptyForNullable | centreon/application/models/Configuration/Object.php:145-148 | an empty value of a nullable column is bound as "" rather than NULL |
| ObjectSql.IntendedParam | centreon/application/models/Configuration/Object.php:145-148 | the intended bound value is NULL exactly for a null value or an empty value of a nullable column; otherwise the value with line breaks replaced |
| ObjectSql.UpdateAsIntended | centreon/application/models/Configuration/Object.php:120-158 | the corrected `update`: the same statement, one bound value per assigned column, then the id; a value is NULL exactly when the column is sent null, or sent "" without being reported NOT NULL (the report counts only when `array_search` finds an empty value) |
| ObjectSql.IntendedBindsNullForNullable | centreon/application/models/Configuration/Object.php:145-147 | the corrected `update` binds NULL for an empty value of a nullable column |
| ObjectSql.IntendedKeepsNotNull | centreon/application/models/Configuration/Object.php:127-135 | once `SHOW FIELDS` was consulted, a NOT NULL column sent a string is bound that string, never NULL |
| ObjectSql.ReplacementsEscapeEach | centreon/application/models/Configuration/Object.php:277-279 | the three `str_replace` calls together escape each character once: `\` doubled, `_` and space prefixed by `\` |
| ObjectSql.EscapeLikeRoundTrip | centreon/application/models/Configuration/Object.php:276-279 | reading the LIKE pattern back gives the trimmed filter value, so the escaping is unambiguous |
| ObjectSql.FilterLoopWhere | centreon/application/models/Configuration/Object.php:269-275 | the loop builds ` WHERE k LIKE ? ` for the first filter and ` <type> k LIKE ? ` for each later one |
| ObjectSql.FilterLoopCount | centreon/application/models/Configuration/Object.php:270-280 | the loop binds one value per filter |
| ObjectSql.FilterLoopParams | centreon/application/models/Configuration/Object.php:270-280 | the loop binds each filter's escaped value, in order |
| ObjectSql.OrderClause | centreon/application/models/Configuration/Object.php:283-285 | ORDER BY appears exactly when an order column and a sort spelling ASC or DESC in any case are given, and then uses them as given |
| ObjectSql.GetList | centreon/application/models/Configuration/Object.php:257-290 | a filter type other than OR and AND is rejected; otherwise the columns, WHERE, ORDER BY, the escaped values, and a limit exactly when count is not -1 |
| ObjectSql.ConditionLoopMeaning | centreon/application/models/Configuration/Object.php:307-312 | the loop builds one `name = ? ` per value joined by ` OR ` |
| ObjectSql.GetIdByParameter | centreon/application/models/Configuration/Object.php:300-323 | no query exactly for an empty value list; a scalar is wrapped into a list; the values are bound in order under the OR condition |
| ObjectSql.MagicCall | centreon/application/models/Configuration/Object.php:334-341 | a name starting `getIdBy` and a word character becomes `getIdByParameter` on the captured name; any other name throws `Unknown method` |
| ObjectDuplicate.Lookup | centreon/application/models/Configuration/Object.php:173 | `$row[$key]` is absent exactly when no entry has the key, and otherwise the value of its first entry |
| ObjectDuplicate.Unset | centreon/application/models/Configuration/Object.php:170-172 | `unset` removes the key and leaves every other key's value as it was |
| ObjectDuplicate.LookupPut | centreon/application/models/Configuration/Object.php:197 | after `$row[$key] = $v` the key maps to `v`, every other key is unchanged, and an existing key keeps its position |
| ObjectDuplicate.PutTwice | centreon/application/models/Configuration/Object.php:197 | assigning the label twice keeps only the second |
| ObjectDuplicate.LabelInjective | centreon/application/models/Configuration/Object.php:197 | the candidate labels `label_j` of one object are pairwise different |
| ObjectDuplicate.CopySource | centreon/application/models/Configuration/Object.php:169-172 | the copied row has no set primary key and keeps every other column of the source |
| ObjectDuplicate.OriginalLabel | centreon/application/models/Configuration/Object.php:173 | the original label exists exactly when the label column is set in the source, and is its value |
| ObjectDuplicate.Candidate | centreon/application/models/Configuration/Object.php:196-198 | the `j`-th candidate is the source without key, relabelled `label_j` when a label exists, unchanged otherwise |
| ObjectDuplicate.RelabelCandidate | centreon/application/models/Configuration/Object.php:195-198 | relabelling the previous candidate in place gives the next candidate |
| ObjectDuplicate.FreeExactlyStep | centreon/application/models/Configuration/Object.php:199-201 | passing candidate `j` adds it to the chosen suffixes exactly when its label is free |
| ObjectDuplicate.AttemptKeepsShape | centreon/application/models/Configuration/Object.php:195-221 | one iteration keeps the counters and rows consistent and advances the copy counter by at most one |
| ObjectDuplicate.AttemptKeepsLabels | centreon/application/models/Configuration/Object.php:199-220 | one iteration keeps "chosen suffixes are exactly the free labels so far" and stays on the same copy only past a taken label |
| ObjectDuplicate.Duplicate | centreon/application/models/Configuration/Object.php:167-222 | `max(entries, 0)` copies at strictly increasing suffixes; without a label the suffixes are 1, 2, …; with one, a suffix up to the last is chosen exactly when its label was not in the table |
| PartialUpdate.Dedup | centreon/src/Core/ServiceTemplate/Application/UseCase/PartialUpdateServiceTemplate/PartialUpdateServiceTemplate.php:139 | `array_unique` keeps the same ids without repetition |
| PartialUpdate.Missing | centreon/src/Core/ServiceTemplate/Application/UseCase/PartialUpdateServiceTemplate/PartialUpdateServiceTemplate.php:141 | `array_diff` keeps exactly the requested ids that were not found |
| PartialUpdate.AssertAllProperties | centreon/src/Core/ServiceTemplate/Application/UseCase/PartialUpdateServiceTemplate/PartialUpdateServiceTemplate.php:276-284 | validation only reads: it calls nothing but the existence lookups, looks up host templates only when they were sent and categories only when they were sent, and does nothing when neither was |
| PartialUpdate.LinkHostTemplates | centreon/src/Core/ServiceTemplate/Application/UseCase/PartialUpdateServiceTemplate/PartialUpdateServiceTemplate.php:175-191 | without host templates in the request nothing is called; otherwise only unlink and link calls |
| PartialUpdate.LinkServiceCategories | centreon/src/Core/ServiceTemplate/Application/UseCase/PartialUpdateServiceTemplate/PartialUpdateServiceTemplate.php:198-238 | without categories in the request nothing is called; otherwise only the read, unlink and link calls |
| PartialUpdate.FindAllMacros | centreon/src/Core/ServiceTemplate/Application/UseCase/PartialUpdateServiceTemplate/PartialUpdateServiceTemplate.php:356-383 | only macro reads; without a check command no command macros are read and the command table is empty |
| PartialUpdate.PutByName | centreon/src/Core/ServiceTemplate/Application/UseCase/PartialUpdateServiceTemplate/PartialUpdateServiceTemplate.php:313 | storing a macro by name keeps every macro of another name, adds it, and drops only macros of its name |
| PartialUpdate.WithDefaultDescription | centreon/src/Core/ServiceTemplate/Application/UseCase/PartialUpdateServiceTemplate/PartialUpdateServiceTemplate.php:331-338 | only the description changes, and only an empty one: it takes the command macro's description, or stays empty |
| PartialUpdate.WritePlan | centreon/src/Core/ServiceTemplate/Application/UseCase/PartialUpdateServiceTemplate/PartialUpdateServiceTemplate.php:321-341 | the plan holds macro deletions, updates and additions only |
| PartialUpdate.UpdateMacros | centreon/src/Core/ServiceTemplate/Application/UseCase/PartialUpdateServiceTemplate/PartialUpdateServiceTemplate.php:293-342 | without a macro list nothing is called; otherwise only calls of the macro phase: the parent lookup and the macro repositories |
| PartialUpdate.TransactionBody | centreon/src/Core/ServiceTemplate/Application/UseCase/PartialUpdateServiceTemplate/PartialUpdateServiceTemplate.php:254-256 | the body never calls the storage engine and makes calls of the macro phase only when macros were sent |
| PartialUpdate.ResponseFor | centreon/src/Core/ServiceTemplate/Application/UseCase/PartialUpdateServiceTemplate/PartialUpdateServiceTemplate.php:116-127 | Conflict exactly for a template exception with the conflict code; Error with the exception for other codes; Error with `errorWhileUpdating` for any other throwable |
| PartialUpdateProperties.CallAllPrefix | centreon/src/Core/ServiceTemplate/Application/UseCase/PartialUpdateServiceTemplate/PartialUpdateServiceTemplate.php:185-190 | a sequence of calls makes a prefix of them, and all of them without exception exactly when none throws |
| PartialUpdateProperties.CallAllStops | centreon/src/Core/ServiceTemplate/Application/UseCase/PartialUpdateServiceTemplate/PartialUpdateServiceTemplate.php:185-190 | a sequence of calls that throws stops at the first throwing call, with its exception |
| PartialUpdateProperties.ForbiddenGate | centreon/src/Core/ServiceTemplate/Application/UseCase/PartialUpdateServiceTemplate/PartialUpdateServiceTemplate.php:88-98 | Forbidden exactly without the write role, and then no call at all |
| PartialUpdateProperties.NotFoundGate | centreon/src/Core/ServiceTemplate/Application/UseCase/PartialUpdateServiceTemplate/PartialUpdateServiceTemplate.php:100-106 | NotFound exactly when the lookup succeeds and finds nothing, and then the lookup is the only call |
| PartialUpdateProperties.HostTemplateValidation | centreon/src/Core/ServiceTemplate/Application/UseCase/PartialUpdateServiceTemplate/PartialUpdateServiceTemplate.php:137-144 | one lookup of the deduplicated ids; it throws exactly when a requested id was not found, naming each missing id once |
| PartialUpdateProperties.CategoryValidation | centreon/src/Core/ServiceTemplate/Application/UseCase/PartialUpdateServiceTemplate/PartialUpdateServiceTemplate.php:152-168 | one lookup, by access groups for a non-admin; it throws exactly when a requested category was not found, naming exactly the missing ones |
| PartialUpdateProperties.HostLinksReplaced | centreon/src/Core/ServiceTemplate/Application/UseCase/PartialUpdateServiceTemplate/PartialUpdateServiceTemplate.php:185-190 | sent host templates unlink all hosts, then link the ids as sent; the link is skipped when the unlink throws |
| PartialUpdateProperties.CategoryLinksFollowDifference | centreon/src/Core/ServiceTemplate/Application/UseCase/PartialUpdateServiceTemplate/PartialUpdateServiceTemplate.php:204-237 | sent categories read the current ones, then unlink the removed and link the added ones of the difference against the deduplicated request |
| PartialUpdateProperties.TransactionTrace | centreon/src/Core/ServiceTemplate/Application/UseCase/PartialUpdateServiceTemplate/PartialUpdateServiceTemplate.php:247-266 | the exact calls in each case: a failed start, a failed body, a failed commit, success |
| PartialUpdateProperties.TransactionThrown | centreon/src/Core/ServiceTemplate/Application/UseCase/PartialUpdateServiceTemplate/PartialUpdateServiceTemplate.php:260-265 | the exception rethrown after a rollback, and the rollback's own exception when it throws |
| PartialUpdateProperties.TransactionDiscipline | centreon/src/Core/ServiceTemplate/Application/UseCase/PartialUpdateServiceTemplate/PartialUpdateServiceTemplate.php:247-266 | one start first, at most one commit and one rollback; commit only after the whole body; both only when the commit threw; success exactly when committed without rollback |
| PartialUpdateProperties.TransactionCommitted | centreon/src/Core/ServiceTemplate/Application/UseCase/PartialUpdateServiceTemplate/PartialUpdateServiceTemplate.php:259-264 | the transaction succeeds exactly when its calls include a commit and no rollback |
| PartialUpdateProperties.TransactionCalls | centreon/src/Core/ServiceTemplate/Application/UseCase/PartialUpdateServiceTemplate/PartialUpdateServiceTemplate.php:252-262 | the transaction adds nothing to the body's calls but storage-engine calls |
| PartialUpdateProperties.WritePlanOrder | centreon/src/Core/ServiceTemplate/Application/UseCase/PartialUpdateServiceTemplate/PartialUpdateServiceTemplate.php:321-341 | one deletion per removed macro, then one update per updated one, then one addition per added one with its description defaulted |
| PartialUpdateProperties.UpdateMacrosWrites | centreon/src/Core/ServiceTemplate/Application/UseCase/PartialUpdateServiceTemplate/PartialUpdateServiceTemplate.php:305-341 | once the macros are read and built, the reads come first, then a prefix of the write plan for the difference; all of it when no write throws |
| PartialUpdateProperties.UpdateMacrosStops | centreon/src/Core/ServiceTemplate/Application/UseCase/PartialUpdateServiceTemplate/PartialUpdateServiceTemplate.php:305-314 | a failing macro read, or a failing `MacroFactory::create`, ends the step with that exception before any write |
| PartialUpdateProperties.AddedDescriptions | centreon/src/Core/ServiceTemplate/Application/UseCase/PartialUpdateServiceTemplate/PartialUpdateServiceTemplate.php:331-338 | each added macro is written with its own description, or the command macro's when its own is empty |
| PartialUpdateProperties.PreTransactionReadsOnly | centreon/src/Core/ServiceTemplate/Application/UseCase/PartialUpdateServiceTemplate/PartialUpdateServiceTemplate.php:100-112 | before the transaction nothing is written, the storage engine is not called, and no call of the macro phase (parent lookup, macro repositories) is made |
| PartialUpdateProperties.InvokeProceeds | centreon/src/Core/ServiceTemplate/Application/UseCase/PartialUpdateServiceTemplate/PartialUpdateServiceTemplate.php:112-115 | past the gates and validation, the transaction's calls follow the reads, and its outcome decides the response |
| PartialUpdateProperties.InvokeStopsEarly | centreon/src/Core/ServiceTemplate/Application/UseCase/PartialUpdateServiceTemplate/PartialUpdateServiceTemplate.php:108-127 | an exception from the access groups or validation ends the calls before the transaction with an Error or Conflict response |
| PartialUpdateProperties.WritesOnlyInTransaction | centreon/src/Core/ServiceTemplate/Application/UseCase/PartialUpdateServiceTemplate/PartialUpdateServiceTemplate.php:82-128 | every configuration write of the use case comes after `startTransaction` |
| PartialUpdateProperties.NoContentIffCommitted | centreon/src/Core/ServiceTemplate/Application/UseCase/PartialUpdateServiceTemplate/PartialUpdateServiceTemplate.php:112-115 | the response is NoContent exactly when the calls include a commit and no rollback |
| PartialUpdateProperties.ValidationStopsBeforeTransaction | centreon/src/Core/ServiceTemplate/Application/UseCase/PartialUpdateServiceTemplate/PartialUpdateServiceTemplate.php:112-113 | a failing validation never starts the transaction, and past the gates its exception decides the response |
| PartialUpdateProperties.NoMacroPhaseWithoutMacros | centreon/src/Core/ServiceTemplate/Application/UseCase/PartialUpdateServiceTemplate/PartialUpdateServiceTemplate.php:295-297 | without a macro list no call of the macro phase is made: neither the parent lookup nor any macro repository call |

## Left out

- **Logging.** The `info`, `debug` and `error` calls, and the messages of exceptions, have no effect on the outcome.
- **Database execution.** `prepare`, `execute`, `lastInsertId`, the result rows, and the driver's `limit` rewriting are not modelled. A statement is the SQL plus its bound values. The limit is returned as a (count, offset) pair.
- **`SHOW FIELDS` and `getParameters` in `update` and `duplicate`.**
  - The NOT NULL columns reported by `SHOW FIELDS` are an input set. `update` consults them only when `array_search("", $params)` finds an empty value under a truthy key.
  - The row `getParameters` reads for `duplicate` is an input.
- **`delete`, `getParameters`, `getResult` and the getters.** Each only fills a fixed SQL template and runs it: `delete` builds its `DELETE` statement, and `getParameters` joins a column list the way `getList` does, but neither decides anything the modelled builders do not already show.
- **Relation copying in `duplicate`.** The source lines 176-192 and 203-217, with their transaction, are omitted. They depend on the relation classes, which are not part of this model.
- **Label lookup in `duplicate`.** The labels already in the table are an input set compared by exact string equality. A SQL collation that is case-insensitive or ignores trailing spaces is not modelled. A null label never matches, as in SQL.
- **PHP values.** Values in parameter arrays are strings or `null`. PHP's loose comparison of numbers, booleans and arrays is not modelled. `getList` takes `count` as an integer, so a null `count` does not arise.
- **The use-case collaborators.** `MacroFactory::create`, `MacroDifference::compute`, `MacroManager::setOrder`, `MacroManager::resolveInheritanceForCommandMacro`, `Macro::resolveInheritance`, `ServiceTemplateInheritance::createInheritanceLine` and `BasicDifference` are uninterpreted functions. Their internals are not part of this model. `MacroFactory::create` is the only one that may throw.
- **The user and the access groups.**
  - The user's roles and admin flag are fields of the world.
  - The access-group list is represented by the fact that the lookup happened.
  - The code of `idsDoesNotExist` is a field of the world.
- **Repository answers.** Every repository answer is fixed by the world, and any call may be declared to throw.
- `PartialUpdate.PutByName`: states membership of the stored macros, not the exact position of an overwritten one. Only the difference computed from the macros is observed downstream.
- `ObjectSql.Insert`: the SQL text is stated only when every column name is truthy. A column named "" or "0" can make PHP's string checks on the field list skip a separator or the whole statement. For such rows only the bound values are stated, together with "no statement when nothing is kept".
- `ObjectDuplicate.Duplicate`: returns the rows it would insert and their suffixes rather than changing a table. With a label, the contract speaks of suffixes up to the last one chosen.

## Findings

| source | as written | input that shows it | evidently intended | confidence | as-written member | corrected member |
|---|---|---|---|---|---|---|
| centreon/application/models/Configuration/Object.php:145-148 | an empty value of a nullable column is set to `null`, then `str_replace("<br/>", "\n", null)` returns "", so "" is bound | `update($id, ["comment" => ""])` where `comment` is a nullable column | bind SQL NULL for an empty value of a nullable column | high; not executed | ObjectSql.UpdateBindsEmptyForNullable | ObjectSql.UpdateAsIntended |
