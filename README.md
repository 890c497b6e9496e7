# Trip and field-report services, modelled in Dafny

This project models the two NestJS services of a trip and expense-reporting backend.

- **Trip service.** Keeps a `trips` table.
  - `createTrip` checks the required fields and converts the client's `DD/MM/YYYY` dates to the `YYYY-MM-DD` form the `date` columns hold. An end date marks the trip completed.
  - `finAll` and `findById` show the dates back in display form.
  - `deleteById` and `deleteByIds` remove rows.
  - `updateTrip` applies the status rule: completed exactly when the payload carries an end date. Otherwise the end date is cleared and the trip goes back to in progress.
- **Report service.** Keeps a `reports` table and a `fotos` table. It reads the `trips` table and sends files to an object store.
  - `createReport` checks its input, converts the date and resolves the trip's name as `origem → destino`. It uploads every file, and only then inserts the report and one photo row per URL.
  - `reportById` and `reportFindAll` format the date, the time and the event category, and attach each report's photo URLs.
  - `deleteById`, `deleteByIds` and `updateReport` change the tables.

## Layout

| module (file) | contents |
|---|---|
| `Wrappers` (wrappers.dfy) | `Option`, `Result` and the failure kinds. JavaScript truthiness of an optional string or number. |
| `Text` (text.dfy) | `split`, `join` and `reverse` on strings, with `Split(Join(p)) == p` and `Join(Split(s)) == s`. |
| `Dates` (dates.dfy) | The calendar. The `DD/MM/YYYY` → `YYYY-MM-DD` conversion with its validity check. `formatDate`, and the round trips between the two forms. |
| `ReportFormat` (formatters.dfy) | `formatarHora` and `formatarTipoName`. |
| `Tables` (tables.dfy) | What the services ask of the ORM, on a table kept as a sequence of rows in insertion order: `findOne`, `findBy` and `delete`. |
| `Storage` (storage.dfy) | The upload collaborator. An upload returns a URL or fails, and the model leaves open which. |
| `Trips` (trips.dfy) | The trip rows and payloads. The payload rewriting of `createTrip` and `updateTrip` as functions. The `TripRepository` class (the table) and the `TripsService` class. |
| `Reports` (reports.dfy) | Report and photo rows. The photo join and its lemmas. The `ReportsService` class, whose fields are the two tables, their next ids and a ghost log of uploads and inserts. |

Each service operation is a method of its service class.
- The rewriting of a payload and the effect of an `update` on a row are functions. The methods' `ensures` clauses are stated in terms of these functions.
- Each table keeps an invariant, `RowsValid` or `TablesValid`, and every operation preserves it. Ids are positive, ascending and below the next id. Every stored date is one `formatDate` accepts. Every photo row names a report id already handed out.
- Both services share one `TripRepository` object, just as dependency injection shares the one repository.

Failures are a `Result`:
- `BadRequest` and `NotFound` are the two HTTP exceptions the services throw.
- `InternalError` is any other exception.

The code, as written, has three such paths, and each is a modelled outcome, not a precondition:
- `reportById` on an unknown id reads a property of `null` (src/reports/reports.service.ts:135-138), which is `InternalError(NullDereference)`.
- `deleteById` reads `report.id` before its null check (src/reports/reports.service.ts:178-183). So an unknown id is also `InternalError(NullDereference)`, and the `NotFound` at line 182 is never raised.
- `deleteById` of a report that has no photo row first deletes the report, then calls `delete(null)`, which the ORM rejects. This is `InternalError(EmptyDeleteCriteria)`, and the report stays deleted.

Details of the code that shape the model:
- No service method reads a user id. The report controller passes one (src/reports/reports.controller.ts:52-54, 84-87), and the service signatures take none (src/reports/reports.service.ts:130, 151, 173, 191, 209), so the extra argument is ignored.
- Neither service creates or reads an invoice. The `invoicing` entity (src/trips/invoicing.entity.ts) is declared, and no service uses it.
- `createReport` with an unknown trip fails with NotFound (src/reports/reports.service.ts:90-92).
- `updateReport` passes the payload to `update` as it is (src/reports/reports.service.ts:235). It writes whichever of `viagem_id` and `viagem_nome` the payload carries and does not recompute the trip name.
- The trip service reports an unknown id as BadRequest (src/trips/trips.service.ts:81, 95, 124).
- `deleteById` makes no call to the object store (src/reports/reports.service.ts:173-189), so an uploaded file stays there.

## Model

| member | source | states |
|---|---|---|
| Text.Split | src/reports/reports.service.ts:77 | `split` yields at least one part, no part contains the separator, and joining the parts gives the string back |
| Text.Join | src/reports/reports.service.ts:30 | `join` begins with the first part and ends with the last; with two or more parts it contains the separator (the contract is on Text.JoinEnds) |
| Text.JoinEnds | src/reports/reports.service.ts:30 | the joined string begins with the first part and ends with the last, and contains the separator when there are at least two parts |
| Text.SplitJoin | src/reports/reports.service.ts:30 | splitting parts that contain no separator gives back exactly those parts: `join` then `split` is the identity |
| Text.SplitThree | src/reports/reports.service.ts:77 | a string of three separator-free fields splits into exactly those three fields |
| Text.Reverse | src/reports/reports.service.ts:30 | the reversed sequence has the same length, and element i is element n-1-i of the input |
| Dates.Field | src/reports/reports.service.ts:77-78 | an element the split produced is used as it is; a missing element renders as the text "undefined" in the template |
| Dates.ToCanonical | src/reports/reports.service.ts:77-78 | the template rebuilds year-month-day from the split; text with no `/` becomes `undefined-undefined-` followed by the text; with fewer than three pieces the result begins with "undefined" |
| Dates.ConvertDisplayDate | src/reports/reports.service.ts:76-86 | the conversion yields only canonical `YYYY-MM-DD` dates of real days; a valid `DD/MM/YYYY` is rearranged field by field into `YYYY-MM-DD` and accepted |
| Dates.DisplayToCanonical | src/reports/reports.service.ts:77-78 | for a valid display date, splitting on `/` gives day, month and year, and the template builds the canonical date from them |
| Dates.FormatDate | src/reports/reports.service.ts:24-31 | the result is "" exactly for an absent, empty or `0000-00-00` date; a canonical date becomes its three parts reversed and joined with `/`; any other value is modelled as the throw; the trip service's `formatDate` (src/trips/trips.service.ts:18-26) is the same function |
| Dates.DisplayDate | src/reports/reports.service.ts:24-31 | the text `formatDate` gives for a stored date it accepts is "" or a valid `DD/MM/YYYY` date |
| Dates.ShapeToCanonical | src/reports/reports.service.ts:77-78 | any `DD/MM/YYYY`-shaped digit string, a real day or not, is rearranged field by field into `YYYY-MM-DD` |
| Dates.ShapeAcceptedIffDay | src/reports/reports.service.ts:76-86 | a `DD/MM/YYYY`-shaped digit string is accepted exactly when the rearranged date names a real day, and is then converted to that date |
| Dates.CanonicalParts | src/reports/reports.service.ts:30 | a canonical date splits on `-` into year, month and day, and the reversed join is `DD/MM/YYYY` |
| Dates.SentinelNotCanonical | src/reports/reports.service.ts:25 | the zero date is not a calendar day: only the explicit sentinel test keeps it from throwing |
| Dates.DisplayRoundTrip | src/reports/reports.service.ts:77-78 | converting a valid display date and formatting it gives back the same display date |
| Dates.CanonicalRoundTrip | src/reports/reports.service.ts:29-30 | formatting a canonical date gives a valid display date that converts back to the same canonical date |
| ReportFormat.HmsParts | src/reports/reports.service.ts:37-38 | an `HH:MM:SS` string splits on `:` into its three two-digit fields |
| ReportFormat.FormatHora | src/reports/reports.service.ts:33-48 | "" stays ""; `HH:MM:SS` loses its seconds exactly when they are `00`; four digits become `HH:MM`; anything else is returned unchanged |
| ReportFormat.FormatHoraIdempotent | src/reports/reports.service.ts:33-48 | formatting a formatted time changes nothing |
| ReportFormat.FormatHoraKeepsDigits | src/reports/reports.service.ts:37-45 | on the two recognised shapes the result is `HH:MM` or the input itself, and the hour and minute digits are kept in order |
| ReportFormat.FormatTipoName | src/reports/reports.service.ts:50-68 | each of the eight labels maps to one of the five categories, and every other string maps to itself |
| ReportFormat.FormatTipoNameIdempotent | src/reports/reports.service.ts:50-68 | classifying a category changes nothing |
| ReportFormat.FormatTipoNamePreimage | src/reports/reports.service.ts:50-68 | for each category, exactly which inputs map to it: its Inicio/Fim labels and the category name itself |
| Tables.Filter | src/reports/reports.service.ts:197 | `findBy` keeps exactly the rows that satisfy the condition, no more of them than the table has |
| Tables.FirstWhere | src/reports/reports.service.ts:135 | `findOne` returns nothing exactly when no row matches; otherwise it returns a matching row of the table |
| Tables.FilterAppend | src/reports/reports.service.ts:163 | filtering keeps table order: filtering a concatenation concatenates the filtered parts |
| Tables.FilterKeepsAll | src/trips/trips.service.ts:110 | a delete condition that matches no row leaves the table as it is |
| Tables.AppendAscending | src/trips/trip.entity/trip.entity.ts:13-14 | inserting a row under a larger generated id keeps the ids ascending |
| Tables.ConcatAscending | src/reports/foto.entity.ts:8-9 | inserting rows whose generated ids all exceed the table's keeps the ids ascending |
| Tables.FilterAscending | src/trips/trips.service.ts:110 | deleting rows keeps the remaining ids ascending |
| Tables.AscendingTail | src/reports/foto.entity.ts:8-9 | below the first row of a table with generated ids, the ids stay ascending and all exceed the first row's id |
| Tables.AscendingUnique | src/reports/report.entity/report.entity.ts:8-9 | with ascending generated ids, an id names at most one row |
| Trips.FindTrip | src/trips/trips.service.ts:78 | the lookup finds nothing exactly when no trip has the id; otherwise a trip with that id |
| Trips.Without | src/trips/trips.service.ts:110 | after `delete(ids)` a trip remains exactly when it was there and its id is not listed |
| Trips.HasRequiredFields | src/trips/trips.service.ts:29 | client, origin, destination and start date must be non-empty and the value non-zero (JavaScript truthiness); PrepareCreate's contract gives it its effect |
| Trips.PrepareCreate | src/trips/trips.service.ts:29-59 | a falsy client, origin, destination, start date or value (0 included) is MissingFields; a bad end or start date is InvalidDate; on success the start date is converted, a present end date is converted and sets COMPLETED, an absent one leaves end date and status as supplied, and no other field changes |
| Trips.RowOf | src/trips/trips.service.ts:61-62 | the inserted row carries the generated id and exactly the prepared payload's fields |
| Trips.PrepareUpdate | src/trips/trips.service.ts:127-158 | fails only with InvalidDate on a bad present date; on success the status is COMPLETED exactly when an end date was sent and the end date is set; otherwise the end date is cleared and the status is IN_PROGRESS; a present start date is converted; nothing else changes |
| Trips.ApplyUpdate | src/trips/trips.service.ts:160 | the id is kept and the end date is always written; origin, destination, client, value, start date, status and description each take the payload's value when it carries one and keep the row's value otherwise |
| Trips.ApplyUpdateIdempotent | src/trips/trips.service.ts:160 | sending the same update twice leaves the row as the first one did |
| Trips.ViewOf | src/trips/trips.service.ts:70-73 | both dates are shown as "" or a valid `DD/MM/YYYY` date, and every other field is shown as stored; the same mapping is applied at lines 84-85 |
| Trips.UpdateRows | src/trips/trips.service.ts:160 | `update({ id }, d)` rewrites the rows with that id and leaves every other row and the row count as they were |
| Trips.UpdateStatusRule | src/trips/trips.service.ts:127-144 | after an update the status is COMPLETED exactly when the end date is set, which is exactly when the payload carried one, so a completed trip can revert to IN_PROGRESS |
| Trips.CreateThenView | src/trips/trips.service.ts:33-59 | the dates a trip was created with read back unchanged in display form, and a trip created with an end date is COMPLETED |
| Trips.ViewRoundTrip | src/trips/trips.service.ts:84-85 | a listed date converts back to the stored date; a missing, empty or zero date is listed as "" |
| Trips.WithoutNothing | src/trips/trips.service.ts:104-110 | deleting ids that no trip carries leaves the table unchanged |
| Trips.CreatePreservesValid | src/trips/trips.service.ts:61-62 | inserting a created trip under the next id keeps ids ascending and every stored date formattable |
| Trips.UpdatePreservesValid | src/trips/trips.service.ts:160 | an update keeps the table invariant, and the updated trip's status agrees with its end date |
| Trips.DeletePreservesValid | src/trips/trips.service.ts:98 | deleting trips keeps the table invariant |
| Trips.TripRepository.constructor | src/trips/trip.entity/trip.entity.ts:11-50 | a fresh `trips` table is empty, with the first id still to be generated |
| Trips.TripsService.constructor | src/trips/trips.service.ts:12-15 | the service works on the repository it is given |
| Trips.TripsService.CreateTrip | src/trips/trips.service.ts:28-66 | a rejected payload saves nothing; an accepted one appends exactly one row, the prepared payload under the next id |
| Trips.TripsService.FinAll | src/trips/trips.service.ts:68-75 | every trip, in table order, with both dates passed through `formatDate` |
| Trips.TripsService.FindById | src/trips/trips.service.ts:77-88 | BadRequest exactly when no trip has the id; otherwise that trip with both dates formatted |
| Trips.TripsService.DeleteById | src/trips/trips.service.ts:90-101 | BadRequest, with nothing changed, when no trip has the id; otherwise exactly that trip is removed |
| Trips.TripsService.DeleteByIds | src/trips/trips.service.ts:103-113 | BadRequest, with nothing changed, when no listed id matches; otherwise exactly the listed trips are removed |
| Trips.TripsService.UpdateTrip | src/trips/trips.service.ts:115-163 | a falsy id is BadRequest, then an unknown id, then a bad date, each leaving the table unchanged; on success only the row with the id is rewritten, and its status agrees with its end date |
| Reports.FindReport | src/reports/reports.service.ts:135 | the lookup finds nothing exactly when no report has the id; otherwise a report with that id |
| Reports.FirstPhoto | src/reports/reports.service.ts:179 | nothing exactly when no photo row names the report; otherwise a photo row of that report |
| Reports.WithoutReports | src/reports/reports.service.ts:204 | after `delete(ids)` a report remains exactly when it was there and its id is not listed |
| Reports.WithoutPhoto | src/reports/reports.service.ts:186 | deleting a photo row keeps exactly the rows with another id |
| Reports.PhotoUrls | src/reports/reports.service.ts:144-145 | every URL in a report's list comes from a photo row of that report, and the list is no longer than the table |
| Reports.TripName | src/reports/reports.service.ts:94 | the stored trip name is the origin, then ` → `, then the destination |
| Reports.HasRequiredFields | src/reports/reports.service.ts:72 | date, time and type must be non-empty and at least one file sent; PrepareReport's contract gives it its effect |
| Reports.NewReport | src/reports/reports.service.ts:108-112 | the inserted report carries the payload's fields, the route's trip id and the trip name |
| Reports.PrepareReport | src/reports/reports.service.ts:72-86 | a falsy date, time or type, or no file, is MissingFields; a bad date is InvalidDate; on success the date is the canonical conversion and nothing else changes |
| Reports.PhotoRows | src/reports/reports.service.ts:117-123 | one photo row per URL, in order, under consecutive new ids, each naming the saved report |
| Reports.Uploads | src/reports/reports.service.ts:97-102 | one successful upload event per file, in file order, with the URL it returned |
| Reports.PhotoSaves | src/reports/reports.service.ts:117-123 | one insert event per photo row, in order |
| Reports.PrepareReportUpdate | src/reports/reports.service.ts:221-232 | a present date is converted; a bad one is InvalidDate and the only failure; every other field is untouched |
| Reports.ApplyReportUpdate | src/reports/reports.service.ts:235 | the id is kept; trip id, trip name, type, date, time and description each take the payload's value when it carries one and keep the row's value otherwise, so an empty payload leaves the row as it was |
| Reports.ApplyReportUpdateIdempotent | src/reports/reports.service.ts:235 | sending the same update twice leaves the row as the first one did |
| Reports.ViewOf | src/reports/reports.service.ts:138-146 | the date is `formatDate` of the stored date, so "" or a valid `DD/MM/YYYY` date; the time goes through `formatarHora`, the category is added, the report's photo URLs are attached and every other field is as stored; `reportFindAll` applies the same mapping at lines 158-165 |
| Reports.ReportViewRoundTrip | src/reports/reports.service.ts:138 | a shown canonical date is a valid display date that converts back to the stored date; an empty or zero stored date is shown as "" |
| Reports.UpdateReports | src/reports/reports.service.ts:235 | `update({ id }, d)` rewrites the rows with that id and leaves every other row and the row count as they were |
| Reports.PhotoUrlsAppend | src/reports/reports.service.ts:163-164 | a report's photo list over a concatenated table is the two lists concatenated: photos keep table order |
| Reports.PhotoUrlsNone | src/reports/reports.service.ts:144-145 | a report that no photo row names has an empty photo list |
| Reports.PhotoUrlsComplete | src/reports/reports.service.ts:144-145 | the URL of every photo row of a report is in its list |
| Reports.PhotoRowsReadBack | src/reports/reports.service.ts:117-123 | the rows saved for a report list back exactly its URLs, in upload order |
| Reports.RemoveFirstPhoto | src/reports/reports.service.ts:179-186 | deleting the report's first photo row removes the first URL of its list and no other |
| Reports.KeepAllPhotos | src/reports/reports.service.ts:186 | deleting a photo id that no row carries leaves the photo table as it is |
| Reports.RemovePhotoKeepsOthers | src/reports/reports.service.ts:186 | deleting one report's photo row leaves every other report's photo list unchanged |
| Reports.CreatedReportView | src/reports/reports.service.ts:107-112 | a report created from a valid display date reads back with that same date, with its time and category formatted and the trip's id and name |
| Reports.PhotoRowsFresh | src/reports/reports.service.ts:117-122 | the new photo rows have ids above every existing one, ascending, each naming the new report |
| Reports.CreatePreservesValid | src/reports/reports.service.ts:107-123 | inserting the report and its photo rows keeps the table invariant, and the new report's photo list is exactly the uploaded URLs, in order |
| Reports.DeletePreservesValid | src/reports/reports.service.ts:185-186 | deleting reports or a photo row keeps the table invariant |
| Reports.UpdatePreservesValid | src/reports/reports.service.ts:235 | an update keeps the table invariant |
| Reports.UpdateReportDate | src/reports/reports.service.ts:221-235 | an update stores a sent display date in canonical form, and it reads back unchanged; an empty date is stored empty; a missing date leaves the stored one |
| Storage.Uploader.UploadFile | src/reports/reports.service.ts:100 | an upload returns a URL or fails; which one happens is left open |
| Reports.ReportsService.constructor | src/reports/reports.service.ts:13-21 | the service starts on empty report and photo tables, with the trip repository and the uploader it is given |
| Reports.ReportsService.UploadFiles | src/reports/reports.service.ts:96-105 | files are uploaded one by one, in order; either all succeed and the URLs are returned in file order, or the loop stops at the first failure with the earlier uploads logged |
| Reports.ReportsService.SavePhotos | src/reports/reports.service.ts:116-123 | exactly one photo row per URL is appended, in order, each logged as an insert |
| Reports.ReportsService.CreateReport | src/reports/reports.service.ts:71-126 | a validation or date failure, or a missing trip (NotFound), happens before any upload or insert; a failed upload is BadRequest with no row written; on success the uploads all come before the first insert, one report is added with the canonical date and name `origem → destino`, and one photo row per URL, in upload order |
| Reports.ReportsService.ReportById | src/reports/reports.service.ts:130-149 | a falsy id is BadRequest; an unknown id is the null-dereference crash; otherwise the formatted report with exactly its photo URLs |
| Reports.ReportsService.ReportFindAll | src/reports/reports.service.ts:151-170 | one formatted entry per report, in table order, each with its photo URLs |
| Reports.ReportsService.DeleteById | src/reports/reports.service.ts:173-189 | a falsy id is BadRequest; an unknown id crashes before the NotFound check, so NotFound is never returned; with no cascading foreign key assumed, a found report is deleted and then its first photo row; with no photo row the delete fails after the report is gone; other reports' photos are untouched |
| Reports.ReportsService.DeleteByIds | src/reports/reports.service.ts:191-207 | an absent list is BadRequest; a list matching no report is BadRequest with nothing changed; otherwise exactly the listed reports are removed and, with no cascading foreign key assumed, the photo rows stay |
| Reports.ReportsService.UpdateReport | src/reports/reports.service.ts:209-238 | a falsy id is BadRequest, then an unknown id, then a bad date, each leaving the tables unchanged; on success only the row with the id is rewritten |

## Left out

- Date validity: `new Date(...)` with `isNaN` is modelled strictly as "a `YYYY-MM-DD` string of four, two and two digits naming a real Gregorian day". The model rejects the strings outside that reading: InvalidDate in the create and update paths, a throw in `formatDate`. A JavaScript engine may accept some of them, such as single-digit fields or 30 February, which V8 rolls over to 1 March. No lemma claims what a particular engine rejects; `Dates.ShapeAcceptedIffDay` states the model's own rule.
- Database normalisation: a `time` column rewrites `14:20` as `14:20:00`. The model stores the time string as sent. Column constraints, such as the `NOT NULL` on `descricao` and on the trip's `status` enum, are not enforced.
- The photo relation declares `onDelete: 'CASCADE'` (src/reports/foto.entity.ts:17). The schema's migrations are not part of this model, and the model assumes that the table has no cascading foreign key.
- Reports.ReportsService.DeleteById: the model assumes no cascading foreign key. With the cascade the entity declares, deleting the report also deletes all its photo rows, and the following `delete` of the first photo row removes nothing.
- Reports.ReportsService.DeleteByIds: the model assumes no cascading foreign key. With the cascade the entity declares, deleting the reports also deletes all their photo rows, where the model keeps them.
- Trips.PrepareCreate, Trips.ApplyUpdate, Reports.UpdateReportDate: an empty date string is written as "" and the operation returns Ok (an empty `dataFim` on create, an empty `dataInicio` on trip update, an empty `data` on report update). This is what the code passes to the database; a MySQL `date` column may store it as the zero date or, in strict mode, reject the write, which the model does not capture.
- Trips.TripsService.CreateTrip: a payload `id` makes `save` an upsert. This is not modelled: every accepted payload is inserted under a new id.
- Reports.ReportsService.CreateReport: same as CreateTrip. A payload `id` (an upsert) is not modelled.
- Explicit JSON `null` field values are not modelled. An absent field is `None`. The payload datatypes carry only columns: a body property that is not a column, such as `userId`, is dropped by `create` and has no counterpart in the model.
- Reports.ReportsService.UpdateReport: the request body goes to `update` as it is (src/reports/reports.service.ts:235). With the ORM version in use, a property that is not a column of the entity, such as the `userId` the report payload declares (src/reports/report.dto.ts:26-27) and the controller reads from the same body (src/reports/reports.controller.ts:84-87), makes `update` throw with nothing written. The model's `ReportDto` carries only columns, so it returns Ok and rewrites the row where such a body fails.
- Reports.FirstPhoto: the photo lookup at src/reports/reports.service.ts:179 has no ordering, so the database does not fix which matching row comes back. The model takes the matching row that is first in table order, which is the one with the lowest id. `Reports.RemoveFirstPhoto` and `Reports.ReportsService.DeleteById` rest on that choice.
- Reports.ReportsService.DeleteById: `delete(entity)` matches on every column of the loaded row. The model deletes by id, which names the same row.
- The object store (the network client and its error details), the HTTP layer, the `console.log` in `reportFindAll`, the success messages, `createdAt` and `updatedAt`, and the owning-user relation are not modelled. Operations return `Ok(())` or the view.
- Storage.Uploader.UploadFile: it has no contract. Whether an upload succeeds is left open, so every method proof covers both outcomes. Files already uploaded before a failure stay in the store.
- Concurrency: each operation is atomic. Interleavings of concurrent requests at their `await` points are not modelled.
- `valor` is an integer. The decimal column and its `parseFloat` transform are not modelled.
- The trip status enum file is not part of this model. Only the two values the services use, COMPLETED and IN_PROGRESS, exist.
- The ghost log of `ReportsService` records only uploads and inserts. Reads are not logged.
