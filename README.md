# wg-gesucht bot: a Dafny model of its decision logic

This project models the logic underneath the wg-gesucht flat-hunting bot and its backend. The I/O around that logic (scraping, HTTP, the database, encryption) is not modelled. The modelled pieces are:

- **BrowserManager** (`browser_manager.dfy`). This is the per-user registry of browser sessions. It is a class over a map from user id to (handle, last-active time) and has three operations:
  - get-or-create, which reuses a handle and refreshes its time;
  - the idle sweep, which quits and evicts every entry idle for longer than the threshold;
  - close, which is idempotent.

  The clock is a parameter, and so is the driver factory, which may fail. Handles are numbered in launch order and the set of quit handles is kept, so a quit handle is never handed out again.
- **Dates** (`dates.dfy`). This covers:
  - the subset of `strptime("%d.%m.%Y")`, `strftime` and `isoformat`/`fromisoformat` the code relies on;
  - the "DD.MM.YYYY-DD.MM.YYYY" to months computation.

  The months computation is written twice in the code, as `_compute_range_length` and `_compute_rental_duration`; here it is the single function `Dates.RangeLength`.
- **ListingGetter** (`listing_getter.dfy`). This covers the per-listing extractors of the search-result page:
  - the address splitter;
  - rental period and start;
  - the verified-business flag;
  - the filtering and assembly of listing records in `all_infos`.
- **ListingInfoGetter** (`listing_info_getter.dfy`). This covers:
  - the listing-text formatter;
  - the "frei ab:" date-token extraction;
  - the append to the JSON archive of listing texts.
- **SearchService** (`search_service.dfy`). This covers:
  - the date-range parser;
  - the filter/column converters and their round trip;
  - the ownership check and error order of create, update, delete and list against a table held in a class, with every database call answered, refused (400) or failed (500) as the client reports it.
- **DatabaseClient** (`database_client.dfy`). This is how the services reach the database: through the HTTP client and the database API, whose endpoints turn a refused statement into status 400 and whose client turns a failed call into status 500. A service therefore never sees a reply that says `success` is False.
- **DatabaseService** (`database_service.dfy`). This covers:
  - the SQL text builders;
  - the SELECT / non-SELECT classification in `execute_query`;
  - the accumulating loop of `bulk_insert`.
- **AuthService** (`auth_service.dfy`). This covers:
  - the per-user secret vault;
  - the single-file vault pair `_save_to_vault` / `_load_from_vault`;
  - user-id allocation;
  - the error order of `authenticate_wg_gesucht`, `_get_user_data` and `get_credentials`.

  The cipher is an abstract pair: a sealed value opens only under the key it was sealed with.
- **Bot** (`bot.dfy`). This is one round of the main loop of `wg-gesucht.py`:
  - the diff against the previous round;
  - the three skip rules;
  - the past-listings file, read back with `readlines()` in text mode (universal newlines);
  - the listing-text archive, including the duplicated first text of a missing archive file.
- **SubmitWg** (`submit_wg.dfy`). This covers:
  - the text window sent for language detection and the JSON fallback;
  - the choice of message file;
  - the recipient substitution;
  - the order of the steps on the message page.

`text.dfy` and `wrappers.dfy` hold the Python string operations the code uses and Option/Result:

- strip, split, `re.split` on a character class, join, replace, count, lower/upper and `int()`.

## Model

| member | source | states |
|---|---|---|
| BrowserManager.Manager.constructor | backend/src/utils/browser_manager.py:8-10 | the registry starts empty, with no handle launched or quit |
| BrowserManager.Manager.GetBrowserForUser | backend/src/utils/browser_manager.py:12-39 | a known user gets its stored handle back with its time set to `now`, nothing launched, no other entry changed; an unknown user gets one fresh handle stamped `now`; a failed launch leaves the map unchanged; the returned handle is never one already quit and the key set grows by at most the user |
| BrowserManager.Manager.CleanupInactiveBrowsers | backend/src/utils/browser_manager.py:41-52 | the map becomes exactly the entries with `now - last_active <= max_idle_time` (default 3600), and exactly the handles of the removed entries are quit |
| BrowserManager.Manager.CloseUserBrowser | backend/src/utils/browser_manager.py:54-59 | only that user's key is removed and only its handle is quit; an absent user changes nothing |
| BrowserManager.Sweep | backend/src/utils/browser_manager.py:44-52 | the surviving entries are a subset of the map, each unchanged and not idle |
| BrowserManager.SweepKeeps | backend/src/utils/browser_manager.py:46-52 | an entry survives the sweep iff it is idle for at most the threshold (strict `>` evicts), and a survivor keeps its handle and time |
| BrowserManager.SweepIdempotent | backend/src/utils/browser_manager.py:41-52 | a second sweep at the same time evicts nothing and changes nothing |
| BrowserManager.SweepPartitions | backend/src/utils/browser_manager.py:46-52 | the quit handles and the surviving handles are disjoint and together are all handles the map held; survivors still hold distinct handles |
| BrowserManager.SweepConsistent | backend/src/utils/browser_manager.py:9-52 | after a sweep every live handle was launched, is not quit and belongs to one user only |
| BrowserManager.TouchedSurvives | backend/src/utils/browser_manager.py:16 | an entry just touched at `now` survives a sweep at `now` for any non-negative threshold |
| BrowserManager.SweepMonotone | backend/src/utils/browser_manager.py:47 | a larger threshold keeps every user a smaller one keeps |
| BrowserManager.WithoutIdle | backend/src/utils/browser_manager.py:44-52 | deleting the collected `to_remove` keys one by one gives exactly the sweep |
| Dates.DaysInMonth | backend/src/listing_getter.py:257 | month lengths of the Gregorian calendar: between 28 and 31, and 29 exactly for February of a leap year |
| Dates.BeforeIsStrictTotalOrder | backend/wg-gesucht.py:81-83 | the date comparison used by the start window is irreflexive, transitive, total and asymmetric |
| Dates.ParseDate | backend/src/listing_getter.py:257 | a parsed date is a valid calendar date and its text held exactly two dots |
| Dates.ParseRenderDate | backend/src/listing_getter.py:257 | parsing the zero-padded "DD.MM.YYYY" rendering of a date gives the date back |
| Dates.ParseDateRejectsDashes | backend/src/listing_getter.py:257 | "01-05-2024" does not match the format |
| Dates.ParseDateRejectsYearFirst | backend/src/listing_getter.py:257 | "2024.05.01" does not match the format |
| Dates.IsoFormat | backend/src/services/search_service.py:50-51 | the ISO text of a date is 19 characters with '-' at 4 and 7 and 'T' at 10 |
| Dates.ParseIso | backend/src/services/search_service.py:69-70 | a parsed ISO text is 10 or 19 characters long and gives a valid date and time |
| Dates.ParseIsoFormat | backend/src/services/search_service.py:50-70 | reading back the ISO text of a date gives that date at midnight |
| Dates.RangeLength | backend/src/listing_getter.py:260-289 | a text that does not split into exactly two halves at "-" is unlimited (-1); an error needs two halves; the field-count error occurs iff a stripped half does not split into three dotted fields |
| Dates.RangeLengthUnlimited | backend/src/listing_getter.py:274-277 | a text without exactly one '-' gives -1 |
| Dates.RangeLengthOfHalves | backend/src/listing_getter.py:278-289 | two halves around one '-' whose stripped month and year fields are numbers give the year and month difference in months |
| Dates.RangeLengthPadded | backend/src/listing_info_getter.py:136-147 | spaces around the '-' are stripped before the fields are read |
| Dates.RangeLengthOfRenderedDates | backend/src/listing_getter.py:274-289 | two rendered dates joined by '-' give (endYear-startYear)*12 + (endMonth-startMonth) |
| Dates.RangeLengthIgnoresDays | backend/src/listing_getter.py:282-289 | the day fields do not affect the result, whatever text they hold |
| Dates.FieldMonthsOfInts | backend/src/listing_getter.py:286-288 | the result is computed from the integer values of the month and year fields |
| ListingGetter.NonBlank | backend/src/listing_getter.py:175-177 | no kept part is empty and no parts are added |
| ListingGetter.NonBlankAppend | backend/src/listing_getter.py:175-177 | the filter works part by part, in order: filtering a + b is filtering a then filtering b |
| ListingGetter.NonBlankOne | backend/src/listing_getter.py:175-177 | a single part is kept exactly when it is not empty |
| ListingGetter.NonBlankKeeps | backend/src/listing_getter.py:175-177 | every non-empty part is kept |
| ListingGetter.NonBlankAll | backend/src/listing_getter.py:175-177 | parts none of which is empty are all kept, unchanged and in order |
| ListingGetter.NonBlankSubset | backend/src/listing_getter.py:175-177 | every kept part is one of the parts |
| ListingGetter.CleanPartsOfJoin | backend/src/listing_getter.py:175-177 | pieces joined by a separator come back as the stripped pieces, in order |
| ListingGetter.ParseRentalInfo | backend/src/listing_getter.py:174-179 | the info text fails with IndexError exactly when no non-blank part remains |
| ListingGetter.RentalInfoOfParts | backend/src/listing_getter.py:178-179 | the WG type is the first part and the address the remaining parts reversed and joined by ", " |
| ListingGetter.RentalInfoOfPieces | backend/src/listing_getter.py:174-179 | for "|"-joined pieces the result is computed from the stripped pieces |
| ListingGetter.RentalInfoOfThree | backend/src/listing_getter.py:174-179 | "type|district|city" gives the type and "city, district" |
| ListingGetter.RentalStart | backend/src/listing_getter.py:213-221 | a parsed start is a valid date; IndexError exactly when the period text has no non-blank part |
| ListingGetter.RentalStartOfFirst | backend/src/listing_getter.py:217-220 | the start is the first part parsed as a date |
| ListingGetter.RentalDuration | backend/src/listing_getter.py:193-201 | a period text that does not give exactly two parts is unlimited (-1) |
| ListingGetter.JoinedPartsUnlimited | backend/src/listing_getter.py:196-201 | the parts of such a text, joined again by "-", also measure as unlimited |
| ListingGetter.PeriodPartsOfTwo | backend/src/listing_getter.py:196-198 | "x - y" with spaces around the dash splits into [x, y] |
| ListingGetter.RentalDurationOfTwo | backend/src/listing_getter.py:196-201 | two parts are re-joined with "-" and measured |
| ListingGetter.RentalDurationOfTexts | backend/src/listing_getter.py:193-201 | a "DD.MM.YYYY - DD.MM.YYYY" period gives the month difference |
| ListingGetter.RentalPeriodOfDates | backend/src/listing_getter.py:193-220 | for two rendered dates the duration is their month difference and the start is the first date |
| ListingGetter.RentalPeriodOfOneDate | backend/src/listing_getter.py:193-220 | a single rendered date is unlimited (-1) and is the start |
| ListingGetter.VerifiedStatus | backend/src/listing_getter.py:234-240 | the flag is 0 or 1 |
| ListingGetter.VerifiedIgnoresCase | backend/src/listing_getter.py:236-238 | the label is compared case-insensitively, and a missing label gives 0 |
| ListingGetter.ReferenceUrls | backend/src/listing_getter.py:139-143 | one reference per listing, in order |
| ListingGetter.UserNames | backend/src/listing_getter.py:154-158 | one user name per listing, in order |
| ListingGetter.RentalInfos | backend/src/listing_getter.py:170-180 | succeeds iff every listing's info text parses; then one address and one WG type per listing, in order; otherwise IndexError |
| ListingGetter.RentalDurations | backend/src/listing_getter.py:192-202 | one duration per listing, in order; an error is the first listing's error |
| ListingGetter.RentalStartDates | backend/src/listing_getter.py:213-221 | one start per listing, in order; an error is the first listing's error |
| ListingGetter.CheckVerifiedBusiness | backend/src/listing_getter.py:232-241 | one flag per listing: 1 exactly when a label exists whose lower-cased text contains "unternehmen" |
| ListingGetter.AssembleInfos | backend/src/listing_getter.py:77-127 | ValueError iff the six field lists differ in length (the flag list is not checked); otherwise the keys are exactly the original indices of listings whose user name has no newline and whose flag is 0, each holding that listing's fields |
| ListingGetter.AllInfos | backend/src/listing_getter.py:69-128 | succeeds iff every listing's fields parse, never with a length mismatch; the kept keys and records are as in the assembly |
| ListingInfoGetter.ListingText | backend/src/listing_info_getter.py:44-62 | the loop that extends the piece list and joins it gives exactly the formatted text |
| ListingInfoGetter.FormattedIsJoin | backend/src/listing_info_getter.py:57-61 | the text is the stripped chunks joined by a blank line, plus a final blank line |
| ListingInfoGetter.Formatted | backend/src/listing_info_getter.py:57-61 | its length is the sum of the stripped lengths plus 2 per chunk, and a non-empty text ends in "\n\n" |
| ListingInfoGetter.RentalDurationMonths | backend/src/listing_info_getter.py:104-115 | the loop computes the months of the dotted tokens of the last offer paragraph, or the "Could not get rental dates!" error |
| ListingInfoGetter.Dotted | backend/src/listing_info_getter.py:111 | every kept token contains '.' and no tokens are added |
| ListingInfoGetter.DottedAppend | backend/src/listing_info_getter.py:111 | the filter works token by token, in order: filtering a + b is filtering a then filtering b |
| ListingInfoGetter.DottedOne | backend/src/listing_info_getter.py:111 | a single token is kept exactly when it contains '.' |
| ListingInfoGetter.DottedKeeps | backend/src/listing_info_getter.py:111 | every token that contains '.' is kept |
| ListingInfoGetter.DottedSubset | backend/src/listing_info_getter.py:111 | every kept token is one of the words |
| ListingInfoGetter.DateTokensShape | backend/src/listing_info_getter.py:110-111 | a date token contains '.' and no space or newline |
| ListingInfoGetter.LastOfferWins | backend/src/listing_info_getter.py:107-111 | the tokens come from the last paragraph containing "frei ab:"; earlier ones are overwritten |
| ListingInfoGetter.NoOfferNoDates | backend/src/listing_info_getter.py:112-115 | without an offer paragraph there are no tokens and the result is the ValueError |
| ListingInfoGetter.OfferLine | backend/src/listing_info_getter.py:109-111 | "frei ab: x - y" is an offer line with tokens [x, y] |
| ListingInfoGetter.OfferOfTokens | backend/src/listing_info_getter.py:107-113 | an offer line among non-offer paragraphs is measured by "x-y" |
| ListingInfoGetter.OfferOfDates | backend/src/listing_info_getter.py:104-147 | an offer line between two rendered dates gives their month difference |
| ListingInfoGetter.SavedAsWritten | backend/src/listing_info_getter.py:79-88 | a missing file ends with [text, text]; an existing list gets the text appended once, the stored texts kept in front |
| ListingInfoGetter.Saved | backend/src/listing_info_getter.py:79-88 | the stored texts, if any, followed by the text once |
| ListingInfoGetter.FirstSaveDuplicates | backend/src/listing_info_getter.py:79-88 | as written, the first save stores [text, text] |
| ListingInfoGetter.SavedAppendsOnce | backend/src/listing_info_getter.py:79-88 | the code agrees with a single append exactly when the file exists |
| ListingInfoGetter.Archive.SaveListingTextAsWritten | backend/src/listing_info_getter.py:79-88 | the file's texts become the as-written result, other files unchanged |
| ListingInfoGetter.Archive.SaveListingText | backend/src/listing_info_getter.py:79-88 | the file's texts become the stored texts plus the new one, other files unchanged |
| SearchService.ParseDateRange | backend/src/services/search_service.py:38-42 | both parsed halves are valid dates |
| SearchService.ParseRenderRange | backend/src/services/search_service.py:38-42 | a zero-padded "DD.MM.YYYY - DD.MM.YYYY" range parses back to its two dates |
| SearchService.RangeWithoutSeparator | backend/src/services/search_service.py:39 | a range without a space cannot be unpacked into two halves |
| SearchService.ConvertFiltersToDb | backend/src/services/search_service.py:44-58 | succeeds iff the range parses, with its error otherwise; the stored start and end read back as the parsed dates at midnight |
| SearchService.ConvertDbToFilters | backend/src/services/search_service.py:60-87 | succeeds iff both stored dates and the last run parse; then the id text, name, active flag, location, districts, price and size filters and the stats come from the row |
| SearchService.LastRunText | backend/src/services/search_service.py:84-85 | a missing or empty last run gives None; a present one is rendered "%d.%m.%Y %H:%M" from its parsed ISO text, or fails with the parse error |
| SearchService.RoundTrip | backend/src/services/search_service.py:44-77 | converting filters to columns and back returns every filter field, with the range re-rendered from its dates, and the id, name, active flag and stats from the row |
| SearchService.RoundTripExact | backend/src/services/search_service.py:44-77 | for a zero-padded range the round trip returns the filters unchanged |
| SearchService.ConvertRows | backend/src/services/search_service.py:201 | one converted record per row, in row order; an error is the error of the first row that does not convert |
| SearchService.OwnedBy | backend/src/services/search_service.py:187-189 | exactly the rows with that user id |
| SearchService.LatestId | backend/src/services/search_service.py:110-115 | a found id belongs to a row of that user with that name |
| SearchService.Updated | backend/src/services/search_service.py:144-148 | same length; the rows with the id get the new name and columns, all others are unchanged |
| SearchService.Deleted | backend/src/services/search_service.py:174 | exactly the rows without the id remain |
| SearchService.CreatedListedLast | backend/src/services/search_service.py:102-120 | a created row is listed last among the user's rows, and the id lookup finds it |
| SearchService.UpdatedOnlyTarget | backend/src/services/search_service.py:144-148 | an update keeps ids, owners, stats and id order, and changes no other row |
| SearchService.DeletedKeepsOrder | backend/src/services/search_service.py:174 | a delete keeps the id order and leaves no row with the id |
| SearchService.SearchTable.CreateSearch | backend/src/services/search_service.py:89-120 | a rejected session token fails first with the auth client's status and detail; then a bad range fails before any write; a refused insert gives 400 and a failed one 500, with the database message, and no write; otherwise the row is appended with the next id for the session's user, and the result is that id or the lookup's 400/500 |
| SearchService.SearchTable.UpdateSearch | backend/src/services/search_service.py:122-153 | a rejected session token fails first with the auth client's status and detail; then a refused or failed ownership select gives its 400/500, an empty one 404; then a bad range; then the update's 400/500 or success; only a success changes the table, and only the target row |
| SearchService.SearchTable.DeleteSearch | backend/src/services/search_service.py:155-179 | a rejected session token fails first with the auth client's status and detail; then a refused or failed ownership select gives its 400/500, an empty one 404; then the delete's 400/500 or success; after a success the session's user owns no row with the id, and an error writes nothing |
| SearchService.SearchTable.RetrieveAllSearches | backend/src/services/search_service.py:181-201 | a rejected session token fails first with the auth client's status and detail; then a refused or failed select gives its 400/500; otherwise one converted record per row of the session's user, in order, or the error of the first row that does not convert |
| DatabaseClient.Through | backend/src/clients/database_client.py:48-64 | a reply is answered only with a successful dict; it is refused (400, with the database's error text) iff the service returned `success` False, and failed (500) iff the service raised |
| DatabaseClient.ClientOverExecuteQuery | backend/src/api/v1/database.py:50-56 | through the client a statement is answered iff the database connects and accepts it; a refused statement gives 400 with the database message and a failed connection 500 |
| DatabaseService.Placeholders | backend/src/services/database_service.py:216 | n copies of "%s" |
| DatabaseService.Assignments | backend/src/services/database_service.py:272 | one "k = %s" per column, in order |
| DatabaseService.InsertQuery | backend/src/services/database_service.py:199-218 | the statement starts "INSERT INTO table (" and its parameters are the record's values, in order |
| DatabaseService.SelectQuery | backend/src/services/database_service.py:220-247 | no parameters are passed; the statement starts "SELECT * FROM table" when no fields or an empty list is given, else "SELECT " + the fields joined by ", " + " FROM table"; a non-empty condition ends it with " WHERE cond" |
| DatabaseService.UpdateQuery | backend/src/services/database_service.py:249-274 | the statement starts "UPDATE table SET ", ends " WHERE conditions", and its parameters are the values, in order |
| DatabaseService.DeleteQuery | backend/src/services/database_service.py:276-297 | the statement starts "DELETE FROM table", ends " WHERE conditions", and has no parameters |
| DatabaseService.LookupAt | backend/src/services/database_service.py:333 | with distinct keys, looking up a record's key gives its value |
| DatabaseService.InsertPlaceholders | backend/src/services/database_service.py:215-218 | the INSERT text holds one placeholder per parameter |
| DatabaseService.UpdatePlaceholders | backend/src/services/database_service.py:272-274 | the UPDATE text holds one placeholder per parameter |
| DatabaseService.InsertColumns | backend/src/services/database_service.py:215-217 | in the insert statement, the text between "INSERT INTO table (" and ") VALUES (" splits back on ", " into the keys, in order, when no key holds a ',' |
| DatabaseService.SelectClauses | backend/src/services/database_service.py:243-247 | an empty field list gives the same statement as no fields, an empty condition the same as none, a non-empty one appends " WHERE cond" to the statement without it, and no parameters are passed |
| DatabaseService.SelectFieldList | backend/src/services/database_service.py:243-247 | without a condition the statement is exactly "SELECT * FROM table" for no fields or an empty list, and "SELECT " + the fields joined by ", " + " FROM table" otherwise |
| DatabaseService.SelectIsSelect | backend/src/services/database_service.py:183 | every built SELECT is classified as a SELECT |
| DatabaseService.WritesAreNotSelect | backend/src/services/database_service.py:183-188 | built INSERT, UPDATE and DELETE texts are not classified as SELECT |
| DatabaseService.ExecuteQuery | backend/src/services/database_service.py:174-193 | failure iff the connection or the statement fails; rows only for a SELECT text, the affected count only otherwise |
| DatabaseService.ExecuteQueryAsWritten | backend/src/services/database_service.py:158-197 | the call raises exactly when the connection fails; otherwise it reports failure exactly when the statement is refused |
| DatabaseService.BuiltQueriesClassified | backend/src/services/database_service.py:183-188 | on a working database the built SELECT returns rows and the built writes return the affected count |
| DatabaseService.ConnectFailureEscapes | backend/src/services/database_service.py:195-197 | as written, a failed connection raises from the finally block instead of returning the error |
| DatabaseService.RowValues | backend/src/services/database_service.py:333 | one value per column |
| DatabaseService.RowValuesExact | backend/src/services/database_service.py:333 | values exist iff every column is a key of the row; then they are the row's values in column order; otherwise the error names a missing column |
| DatabaseService.RowValuesOwnKeys | backend/src/services/database_service.py:322-333 | a row read by its own keys gives its values in key order |
| DatabaseService.BulkRun | backend/src/services/database_service.py:331-341 | a completed run executed every row, each with all its columns and an answer; a missing-column error names one of the columns |
| DatabaseService.BulkRunStops | backend/src/services/database_service.py:331-341 | the first failing row ends the loop; later rows change nothing |
| DatabaseService.BulkAllAccepted | backend/src/services/database_service.py:331-338 | when every row executes with count 1, the total is the number of rows and each row's values were executed in order |
| DatabaseService.BulkInsert | backend/src/services/database_service.py:319-341 | an empty list gives 0 affected rows; the query takes its columns from the first row; the loop's total and executed values are those of the row-by-row run |
| DatabaseService.BulkConnectFailureEscapes | backend/src/services/database_service.py:343-345 | as written, a failed connection on a non-empty list raises from the finally block; an empty list never connects |
| AuthService.Decrypt | backend/src/services/auth_service.py:154-159 | a token opens only under the key it was sealed with, and then gives the sealed text |
| AuthService.SecretOf | backend/src/services/auth_service.py:149-159 | no secret without its file |
| AuthService.StoreThenGet | backend/src/services/auth_service.py:127-157 | a stored secret reads back as its text (JSON text for structured data); other secret types are untouched |
| AuthService.UserVault.constructor | backend/src/services/auth_service.py:80-98 | the vault opens with the user's master key over the existing files |
| AuthService.UserVault.StoreSecret | backend/src/services/auth_service.py:115-133 | only that secret type's file is overwritten |
| AuthService.UserVault.GetSecret | backend/src/services/auth_service.py:135-159 | the decrypted secret, or None for a missing file or a failed decryption |
| AuthService.UserVault.ListSecrets | backend/src/services/auth_service.py:161-163 | exactly the secret types that have a file |
| AuthService.UserVault.DeleteSecret | backend/src/services/auth_service.py:165-178 | True iff the secret existed; afterwards it is gone and nothing else changes |
| AuthService.InitializeVault | backend/src/services/auth_service.py:264-292 | a missing key file is created with a fresh key and gives that key; an existing file is left as it is, giving its key when it holds one and InvalidKey when it holds sealed data |
| AuthService.SaveToVaultAsWritten | backend/src/services/auth_service.py:294-319 | as written, the file becomes the sealed one-entry dictionary under the file's key (or a fresh one), and a file that already holds sealed data fails with InvalidKey |
| AuthService.LoadFromVaultAsWritten | backend/src/services/auth_service.py:321-358 | as written, every load fails, with InvalidKey exactly when the file holds sealed data |
| AuthService.VaultAsWrittenNeverLoads | backend/src/services/auth_service.py:294-358 | as written, a load after a save fails with InvalidKey because the saved data replaced the key file, and so does a second save |
| AuthService.SaveToVault | backend/src/services/auth_service.py:294-319 | the saved entries are the old entries with the key set; the key file is kept |
| AuthService.LoadFromVault | backend/src/services/auth_service.py:321-358 | None without saved data; a value iff the key was saved, and then the saved value |
| AuthService.SaveThenLoad | backend/src/services/auth_service.py:294-358 | a saved value loads back, and other keys load as before |
| AuthService.TwoSavesBothLoad | backend/src/services/auth_service.py:294-358 | after two saves under different keys both values load |
| AuthService.MaxOf | backend/src/services/auth_service.py:460 | the maximum is one of the ids and no id exceeds it |
| AuthService.NextUserId | backend/src/services/auth_service.py:449-460 | above every existing id; 1 when there are none, otherwise max + 1 |
| AuthService.NextUserIdFresh | backend/src/services/auth_service.py:449-460 | the new id is not yet taken, and the id after it is one higher |
| AuthService.GetOrCreateUser | backend/src/services/auth_service.py:438-483 | a known email gives its first id and no creation; an unknown one gets max + 1 of all ids after the id select and the insert; each client error is re-raised as 500 with detail "status: detail" of the client's 400/500 |
| AuthService.NewUserIds | backend/src/services/auth_service.py:449-476 | the first user gets "1", and a new user's id text differs from every existing id's text |
| AuthService.IntToStringInjective | backend/src/services/auth_service.py:476 | distinct ids have distinct decimal texts |
| AuthService.UserDataAsWritten | backend/src/services/auth_service.py:529-566 | as written, every error is a 500: a client error is re-raised as "status: detail", and a missing user as "404: User with ID … not found"; a found user gives the first row's email |
| AuthService.UserData | backend/src/services/auth_service.py:529-566 | corrected: a missing user gives 404, a client error keeps its 400/500 and detail, otherwise the first row's email |
| AuthService.MissingUserStatus | backend/src/services/auth_service.py:558-566 | as written, the 404 is re-raised as a 500 whose detail starts "404: "; found users agree with the corrected function |
| AuthService.CredentialsFromVault | backend/src/services/auth_service.py:689-738 | with a stored password the credentials are the email, the password and the optional OpenAI key |
| AuthService.GetCredentials | backend/src/services/auth_service.py:689-738 | for a given user lookup: no session gives 401, then the lookup's error, then 500 for a missing or empty password; success reports exactly the email and the vault's secrets |
| AuthService.CredentialsLookupAsWritten | backend/src/services/auth_service.py:717-738 | with the lookup as written, a user with no row gives 500 "404: User with ID … not found" and a refused users select 500 "400: …"; the documented lookup gives 404 and 400 |
| AuthService.Service.StorePassword | backend/src/services/auth_service.py:609-613 | the user's master key is created if missing and the password is stored in their vault, where it reads back |
| AuthService.Service.AuthenticateWgGesucht | backend/src/services/auth_service.py:568-631 | missing email or password gives 400; a browser that cannot start raises; a failed login gives 401; a user-lookup error is returned; none of these writes a vault; otherwise only the user's master key and vault change, the password is stored and readable, and the result is the user id with the token, or the session insert's error with the password already stored; the user's browser is closed on every exit |
| Bot.Diff | backend/wg-gesucht.py:54-57 | the diff has at most as many entries as current listings |
| Bot.DiffEntries | backend/wg-gesucht.py:54-57 | each entry is a current listing at its own position that was not in the previous round |
| Bot.DiffExact | backend/wg-gesucht.py:54-57 | position k is in the diff iff the listing there is new; positions increase |
| Bot.DiffEmpty | backend/wg-gesucht.py:58 | the diff is empty iff every current listing was in the previous round |
| Bot.Identifier | backend/wg-gesucht.py:101-103 | the recorded line ends in a newline |
| Bot.TooShortRule | backend/wg-gesucht.py:89-98 | an unlimited listing (-1) is never too short; a known length is too short iff below the minimum |
| Bot.Contacted | backend/wg-gesucht.py:60-108 | every contacted entry is a diff entry that passes the three rules, and there are no more of them than diff entries |
| Bot.ContactedExact | backend/wg-gesucht.py:60-108 | a diff entry is contacted iff it passes the start window, length and already-contacted rules |
| Bot.ContactedAppend | backend/wg-gesucht.py:60-108 | the entries are judged one by one, in diff order: the contacted entries of a + b are those of a followed by those of b |
| Bot.ContactedOne | backend/wg-gesucht.py:60-108 | a single diff entry is contacted exactly when it passes the three rules |
| Bot.SentTexts | backend/wg-gesucht.py:116-122 | each archived text is the text of a contacted listing whose sending succeeded, and there are no more of them than contacted listings |
| Bot.SentTextsAll | backend/wg-gesucht.py:116-122 | when every sending succeeds, every contacted listing's text is archived, in order |
| Bot.Translated | backend/wg-gesucht.py:44-45 | reading in text mode leaves no '\r': "\r\n" and a lone '\r' both become '\n' |
| Bot.TranslatedAppend | backend/wg-gesucht.py:44-45 | a text that does not end in '\r' translates separately from what follows it |
| Bot.ReadLines | backend/wg-gesucht.py:44-45 | every line read is free of '\r', every line but the last ends in its only newline, and so does the last when the file ends in a newline |
| Bot.ReadLinesAppend | backend/wg-gesucht.py:44-45 | appending one '\r'-free line to a newline-terminated file adds exactly that line to `readlines()` |
| Bot.ReadLinesJoin | backend/wg-gesucht.py:44-45 | the lines read back concatenate to the translated file, which is the file itself when it holds no '\r' |
| Bot.ReadLinesAppendAll | backend/wg-gesucht.py:124-126 | appending several '\r'-free lines adds exactly them, in order, and keeps the file terminated |
| Bot.ReadLinesConcat | backend/wg-gesucht.py:44-45 | whatever is appended to a file that ends in a newline, `readlines()` gives the old lines followed by the lines of the appended text |
| Bot.NeverContactedTwice | backend/wg-gesucht.py:101-126 | a listing contacted in one round, whose user name and address hold no '\n' or '\r', fails the already-contacted rule in every later round, whatever the rounds in between appended to the file |
| Bot.CarriageReturnSplitsRecord | backend/wg-gesucht.py:44-45 | a user name "a\rb" is read back as two lines, neither of them the recorded identifier, so that listing passes the already-contacted rule again |
| Bot.SameRoundNotDeduplicated | backend/wg-gesucht.py:101-108 | two entries of one round with the same identifier are both contacted, because the file is read once per round |
| Bot.Runner.constructor | backend/wg-gesucht.py:36 | the bot starts with no previous listings, over any past-listings file and archive |
| Bot.Runner.Visit | backend/wg-gesucht.py:60-126 | a passing listing has its identifier appended whether or not sending succeeds, and its text archived as the archive code does (a missing archive gets it twice) only when sending succeeds; a skipped listing changes nothing |
| Bot.Runner.Round | backend/wg-gesucht.py:40-127 | the round returns the diff, appends the identifiers of the contacted listings to the file, archives the sent texts as the archive code does, and replaces the previous listings only when the diff is non-empty |
| Bot.ArchivedContents | backend/src/listing_info_getter.py:79-88 | archiving a round's texts appends them to an existing archive; a missing archive gets the first text twice, then the rest |
| Bot.RoundRecord | backend/wg-gesucht.py:124-126 | for a newline-terminated file and listings without '\n' or '\r' in name and address, the lines read in the next round are the old ones plus the identifiers contacted in this round |
| Bot.RoundRemembers | backend/wg-gesucht.py:58-127 | against the listings kept after a round, the same listings give an empty diff |
| SubmitWg.LanguageWindow | backend/src/submit_wg.py:79-82 | the window is at most 190 characters |
| SubmitWg.LanguageWindowShape | backend/src/submit_wg.py:79-82 | empty for texts of at most 10 characters, otherwise the text from position 10 up to 200 |
| SubmitWg.LanguageWindowIgnoresTail | backend/src/submit_wg.py:79-82 | characters from position 200 on do not reach the detector |
| SubmitWg.LanguagePrompt | backend/src/submit_wg.py:84-93 | the prompt is the fixed head, the window and the fixed tail, so at most 190 characters of the text reach it |
| SubmitWg.GptGetLanguage | backend/src/submit_wg.py:100-106 | non-JSON gives ""; a JSON value that is not an object raises AttributeError, and nothing else does |
| SubmitWg.GptGetLanguageOfAnswer | backend/src/submit_wg.py:100-106 | the "language" value is returned, or "" when the key is absent |
| SubmitWg.GetLast | backend/src/submit_wg.py:102-106 | a key given several times in the JSON reads as its last value |
| SubmitWg.FileFor | backend/src/submit_wg.py:236-253 | the file looked up for a configured language is one of the configured files |
| SubmitWg.FileForIndex | backend/src/submit_wg.py:236-253 | with distinct languages, a language's lookup gives its own file |
| SubmitWg.ChooseMessageFile | backend/src/submit_wg.py:234-253 | a chosen file is always one of the configured files |
| SubmitWg.OneLanguageChosen | backend/src/submit_wg.py:235-237 | a single configured language is used without asking the detector |
| SubmitWg.ChooseMessageFileCases | backend/src/submit_wg.py:238-253 | with an empty API key the first language is used; otherwise the lower-cased detected language when configured, else the first |
| SubmitWg.NoLanguagesFail | backend/src/submit_wg.py:234-253 | with no configured language the choice fails |
| SubmitWg.FirstWordShape | backend/src/submit_wg.py:263 | the substituted name is the user name's first space-separated word, or the whole name when it has no space |
| SubmitWg.Personalize | backend/src/submit_wg.py:263 | every "receipient" is replaced: the length changes by the occurrences times the difference in length; a message without it is unchanged |
| SubmitWg.TextArea.Clear | backend/src/submit_wg.py:229-231 | the input is empty |
| SubmitWg.TextArea.SendKeys | backend/src/submit_wg.py:266 | the keys are appended to the input |
| SubmitWg.SubmitApp | backend/src/submit_wg.py:217-287 | an earlier message gives False with nothing typed; a missing message input raises TimeoutException; otherwise the input is cleared, a failed choice raises, a missing file gives False, the personalised message is typed, and a missing button raises TimeoutException, a button that cannot be clicked gives False and a click gives True |

## Left out

- Concurrency: the registry's lock is not modelled; each registry method is one atomic step.
- Clocks: `time.time()` and `datetime.now()` become integer or date parameters.
- The Chrome options and the driver: they are one factory that may fail.
- Selenium, BeautifulSoup and HTTP I/O. The page's elements are values.
- SubmitWg.SubmitApp: a message input or send button that does not appear is modelled as the `TimeoutException` of the wait; other Selenium failures (a stale element, a lost session) are not modelled.
- BrowserManager.Manager.CleanupInactiveBrowsers: quitting a browser is modelled as never raising. Nothing in the code catches a `quit()` that raises (backend/src/utils/browser_manager.py:41-52, backend/src/utils/browser_wrapper.py:84-85): the exception leaves the method before the deleting loop at lines 51-52 runs. No idle entry is then deleted, and the browsers already quit earlier in the same sweep stay in `active_browsers`, so a later `get_browser_for_user` hands out a quit browser. GetBrowserForUser's promise that it never returns a quit browser relies on quit not raising.
- The OpenAI call is the parsed `Response` parameter.
- The login step is a parameter. Login failure detection in the browser wrapper is not part of this model.
- `gpt_get_keyword` is not modelled; its only call is commented out.
- Fernet and JWT are not modelled:
  - encryption is an abstract pair in which a sealed value opens only under its own key;
  - the session token is a parameter;
  - `_create_session` is modelled only as the client's reply to its insert, re-raised as a 500 like every other client error.
- Session tokens are not decoded. AuthService's own decoding of the token in `get_credentials` is the `sessionUser` parameter. SearchService's call of `auth_client.get_user_id` is the `SessionUser` parameter: the user id, or the status and detail of the HTTPException the auth client raises.
- `authenticate_openai` is not modelled.
- The database is not modelled. In DatabaseService each statement's success, returned rows and row counts are parameters; the services instead receive each call's client `Reply` (answered, refused or failed) as a parameter. Column defaults for new searches are the table's `defaults`.
- The services' own checks of `success` on a client result never fire, because the client raises instead of returning a failed dict; the model has no such branch.
- The HTTP transport of the client is not modelled: a connection error or timeout of `requests` is the `Unreachable` reply, with status 500.
- The interpolation of `search_id` and `user_id` into SQL conditions is not modelled. Searches are found by id and owner.
- `list_secrets` returns a set, so directory order is not modelled.
- Python dictionaries with insertion order are sequences of pairs.
- Dates and integers are ASCII only:
  - `strptime` accepts one- or two-digit day and month fields and four-digit years;
  - `int()` accepts an optional sign and ASCII digits with surrounding whitespace, but not underscores or Unicode digits;
  - lower and upper case are ASCII only.
- `fromisoformat` is modelled for "YYYY-MM-DD" and "YYYY-MM-DDTHH:MM:SS" only.
- Dates.ParseRenderDate, SearchService.ParseRenderRange and SearchService.RoundTripExact need years from 1000 on. `strftime("%Y")` does not pad smaller years to four digits, so those texts do not read back.
- Bot.Runner.Round models one pass of the `while True` loop. The one-minute sleep and the infinite repetition are not modelled.
- Bot.Runner.Round: the bot is not modelled crashing. `wg-gesucht.py` catches nothing, so an exception from fetching the search page (`ListingGetter(url).all_infos`, lines 48-49), from fetching a listing's text (`ListingInfoGetter(ref).listing_text`, lines 111-112) or from sending (line 116) ends the program; when it happens partway through a round, the identifiers of the earlier listings of that round are already appended to the file. The model takes the page as the `current` listings, the texts as the total function `textOf`, and whether sending succeeds as `sendsAt`.
- The upper bound of the start window is modelled as a date. The code uses a datetime 10000 days after now.
- The browser steps of `submit_app` before the message page are not modelled: login, cookie banner, lightbox removal and the security check.
- The result of reading the message files is the `files` parameter.

## Findings

| source | as written | input that shows it | evidently intended | confidence | as-written member | corrected member |
|---|---|---|---|---|---|---|
| backend/src/listing_info_getter.py:79-88 | when the file is missing it is created with [text] and then the text is appended again | the first save of "t" into a missing file stores ["t", "t"] | each save appends the text once | not executed | ListingInfoGetter.FirstSaveDuplicates | ListingInfoGetter.SavedAppendsOnce |
| backend/src/services/database_service.py:195-197 | the finally block closes `cur` and `conn`, which are unbound when the connection fails | a database that cannot be reached: the NameError escapes instead of the error response | return `success=False` with the connection error | not executed | DatabaseService.ConnectFailureEscapes | DatabaseService.ExecuteQuery |
| backend/src/services/database_service.py:343-345 | the same finally block in `bulk_insert` | a non-empty list and a database that cannot be reached | return `success=False` with the connection error | not executed | DatabaseService.BulkConnectFailureEscapes | DatabaseService.BulkInsert |
| backend/src/services/auth_service.py:317-319 | `_save_to_vault` writes the encrypted dictionary over the key file, so `_load_from_vault` reads ciphertext as the key | save {"k": "v"} and then load "k": the load fails instead of returning "v" | a saved value loads back, and other keys are kept | not executed | AuthService.VaultAsWrittenNeverLoads | AuthService.SaveThenLoad |
| backend/src/services/auth_service.py:558-566 | the 404 for a missing user is caught by the general handler and re-raised as a 500 | a user id with no row gives status 500 with detail "404: User with ID … not found", and so does `get_credentials` for that user (AuthService.CredentialsLookupAsWritten) | status 404 | not executed | AuthService.MissingUserStatus | AuthService.UserData |
