# Vehicle workshop PWA: verified model of its rewriting script and decision rules

This project models the core logic of a workshop management web app, for vehicles and repair orders, and proves properties of it in Dafny.

**The main core is `fix_api_routes.py`.** It is a one-off batch script that patches route handlers. For each file in a fixed list that exists, it makes these changes, in order:

1. It inserts `const { id } = await params` at every handler opening. That opening is the text `) {\n` directly followed by `  try {`. This happens only when the path contains `[id]` and the declaration is not already in the file.
2. It does the same for `const { vin } = await params` and `[vin]`.
3. It replaces every `params.id` with `id`.
4. It replaces every `params.vin` with `vin`.

The file is then written back.

**The smaller cores are pure decision and transform rules:**

* the authorisation callback of the middleware;
* the NHTSA `decodeVIN` guards and field extraction;
* the two VIN validators: the input field's strict one and the camera scanner's tolerant one;
* the scanner's OCR candidate loop, barcode cleaning, default camera and button guards;
* the VIN field's lookup state machine: database first, NHTSA second;
* the repair-order POST handler: session and field checks, sentinel cleaning, ownership checks in order, `RO-000001` numbering, initial `RECEPTION` status;
* the dashboard's active-repairs rule and its six-key status table.

**How the model is built:**

* Regular-expression substitution with a fixed pattern is `Replace.ReplaceAll`. It replaces leftmost non-overlapping occurrences, as Python's `re.sub` does with no `count`.
* The file system is a `map` from path to text.
* Databases, HTTP requests, the camera and the OCR engine are inputs that give their outcome.
* State that components update in place is held in classes: `VinScanner.Scanner`, `SmartVinInput.VinField` and `Repairs.Store`.

**The rewrite is not idempotent.** One could expect a second run of the script to change nothing. The code does not guarantee that, and the model follows the code:

* `RouteRewrite.NestedAccessSurvives`: the reference rewrite can build a new `params.id` out of a nested one. `params.params.idid` becomes `params.idid`, then `idid`.
* `RouteRewrite.GateCanBeDefeated`: the rewrite can destroy the declaration that the presence gate found. `const { id } = await params.id` passes the gate on the first run, becomes `const { id } = await id`, and gets a declaration inserted on the second run.
* `RouteRewrite.FirstRunMigrates`: idempotence is proved for a file that holds neither declaration beforehand and whose first run leaves no direct access.

Modules, one per file:

* `Wrappers`: `Option`.
* `Text`: substring search and ASCII case mapping.
* `Replace`: the theory of literal substitution.
* `RouteRewrite`: the script.
* `Middleware`.
* `Nhtsa`.
* `VinAlphabet`: the VIN character class, which both validators share.
* `VinScanner`.
* `SmartVinInput`.
* `Repairs`.
* `DashboardStats`.

## Model

| member | source | states |
|---|---|---|
| Replace.ReplaceAll | fix_api_routes.py:22-39 | the definition of literal `re.sub`: scanning left to right, each occurrence of the pattern is replaced and the scan resumes after it; other characters are copied |
| Replace.ReplaceAbsent | fix_api_routes.py:22-39 | a substitution whose pattern does not occur returns the text unchanged |
| Replace.ReplaceAtLeftmost | fix_api_routes.py:22-39 | the leftmost occurrence is replaced, the text before it is kept, and substitution continues after it |
| Replace.ReplaceLeavesNoMatch | fix_api_routes.py:22-33 | when the replacement starts with the pattern's first character, which occurs nowhere else in the pattern or the replacement, and the replacement is at least as long as the pattern and does not begin with it, no occurrence is left afterwards |
| Replace.ReplaceKeepsBlock | fix_api_routes.py:36-39 | a block that holds no occurrence and cannot form one with its neighbours passes through substitution untouched |
| Text.Contains | fix_api_routes.py:21-28 | the definition of Python's `in` on strings: the second text occurs at some position of the first |
| RouteRewrite.Declaration | fix_api_routes.py:21-28 | the definition of the gate string `const { <name> } = await params` |
| RouteRewrite.Marker | fix_api_routes.py:21-28 | the definition of the path marker `[<name>]` |
| RouteRewrite.DirectAccess | fix_api_routes.py:36-39 | the definition of the pattern `params.<name>` that the reference rewrite removes |
| RouteRewrite.Inserted | fix_api_routes.py:22-33 | the definition of the replacement template: `) {\n`, two spaces, the declaration, a newline and `  try {` |
| RouteRewrite.InsertDeclaration | fix_api_routes.py:22-33 | the definition of the anchor substitution: every handler opening becomes `) {\n`, two spaces, the declaration, a newline and `  try {` |
| RouteRewrite.DeclarationStep | fix_api_routes.py:21-33 | the definition of the gated insertion: it applies only when the declaration is absent from the text and the marker occurs in the path |
| RouteRewrite.RewriteReferences | fix_api_routes.py:36-39 | the definition of the reference rewrite: every `params.<name>` becomes `<name>` |
| RouteRewrite.FixFile | fix_api_routes.py:20-39 | the definition of one file's rewrite: the id step, then the vin step on its result, then the id and vin reference rewrites |
| RouteRewrite.AnchorIsConsumed | fix_api_routes.py:23-24 | the handler-opening pattern and the text that replaces it satisfy the conditions of `ReplaceLeavesNoMatch` |
| RouteRewrite.InsertedContainsDeclaration | fix_api_routes.py:24 | the text that replaces an opening contains the declaration line |
| RouteRewrite.AnchorAbsentUnchanged | fix_api_routes.py:22-26 | with no handler opening, insertion returns the text character for character |
| RouteRewrite.InsertionConsumesAnchors | fix_api_routes.py:22-33 | after an insertion no handler opening is left, so a later insertion cannot fire at any site |
| RouteRewrite.SecondInsertionNoOp | fix_api_routes.py:22-33 | a second insertion of either binding changes nothing |
| RouteRewrite.InsertAtLeftmostAnchor | fix_api_routes.py:22-26 | the declaration line goes between `) {\n` and `  try {` at the leftmost opening, and insertion continues at every later opening |
| RouteRewrite.InsertionAddsDeclaration | fix_api_routes.py:22-26 | a file with an opening contains the declaration after insertion |
| RouteRewrite.StepUnchanged | fix_api_routes.py:21-33 | the gated step leaves the text unchanged when the declaration is already present, when the path lacks the marker, or when there is no opening |
| RouteRewrite.StepIdempotent | fix_api_routes.py:21-33 | running the gated step twice inserts nothing the second time |
| RouteRewrite.IdInsertionBlocksVin | fix_api_routes.py:21-33 | for a path naming both markers, a successful id insertion leaves the vin step nothing to do |
| RouteRewrite.InsertedHasNoDirectAccess | fix_api_routes.py:24-39 | the inserted text contains neither `params.id` nor `params.vin` |
| RouteRewrite.RewriteKeepsInserted | fix_api_routes.py:36-39 | the reference rewrite passes an inserted declaration through intact, wherever it stands |
| RouteRewrite.RewriteCreatesNoAnchor | fix_api_routes.py:36-39 | the reference rewrite never creates a handler opening |
| RouteRewrite.NoMarkerNoInsertion | fix_api_routes.py:20-39 | a path with neither `[id]` nor `[vin]` gets no declaration; only its references are rewritten |
| RouteRewrite.FixFileInsertsDeclaration | fix_api_routes.py:20-39 | a file whose path names the binding, that lacks the declaration and has an opening, ends up containing the inserted line; for `vin`, provided the id step did not fire first |
| RouteRewrite.MigratedIsFixpoint | fix_api_routes.py:20-39 | a file with nothing to insert and no direct access is written back unchanged |
| RouteRewrite.FirstRunMigrates | fix_api_routes.py:20-39 | if a file has neither declaration and the run leaves no direct access, one run migrates it and a second run changes nothing |
| RouteRewrite.NestedAccessSurvives | fix_api_routes.py:36 | `params.params.idid` becomes `params.idid`, which still holds a direct access, and then `idid`: a rerun is not a no-op |
| RouteRewrite.GateCanBeDefeated | fix_api_routes.py:21-39 | an `[id]` route of the job list, holding a handler opening followed by `const { id } = await params.id`, is changed again by a second run |
| RouteRewrite.FilesToFixDistinct | fix_api_routes.py:5-11 | each path occurs in the job list exactly once |
| RouteRewrite.RunJobs | fix_api_routes.py:13-44 | no file is created or dropped; every existing file is rewritten once per appearance in the job list, its final text written back; missing paths are skipped |
| RouteRewrite.FixRoutes | fix_api_routes.py:5-44 | after the run, each listed existing file holds `FixFile` of its old text and every other file is unchanged |
| Middleware.IsPublic | app/middleware.ts:12-17 | the definition of a public path: `/`, one of the four prefixes, or any path containing `.` |
| Middleware.Authorized | app/middleware.ts:10-23 | the definition of the callback: a public path always passes, another one only with a token |
| Text.StartsWith | app/middleware.ts:13-16 | the definition of `startsWith`: the text begins with the prefix |
| Middleware.RootIsPublic | app/middleware.ts:12 | `/` is let through with or without a token |
| Middleware.PrefixIsPublic | app/middleware.ts:13-16 | any path starting with `/login`, `/register`, `/api/auth` or `/_next` is let through without a token |
| Middleware.LoginxIsPublic | app/middleware.ts:13 | the test is on prefixes, so `/loginx` passes too |
| Middleware.DotIsPublic | app/middleware.ts:17 | any path containing a `.` is let through without a token |
| Middleware.ProtectedNeedsToken | app/middleware.ts:22 | outside the public paths, access is granted if and only if a token is present |
| Middleware.DashboardIsProtected | app/middleware.ts:12-22 | `/dashboard` is refused without a token and allowed with one |
| Middleware.TokenAlwaysAuthorized | app/middleware.ts:12-22 | with a token, every path is let through |
| Middleware.RefusedIffProtectedWithoutToken | app/middleware.ts:10-23 | a request is refused exactly when its path is not public and there is no token |
| Nhtsa.LastValue | app/lib/nhtsa.ts:38-68 | the reference definition of a property's value: the value of the last entry carrying its label, or absent |
| Nhtsa.LengthOk | app/lib/nhtsa.ts:16-18 | the definition of the length guard: a present VIN of exactly 17 characters |
| Nhtsa.ReplyUsable | app/lib/nhtsa.ts:24-32 | the definition of a usable reply: the request succeeded, the reply is OK, and `Results` is present and non-empty |
| Nhtsa.LabelOf | app/lib/nhtsa.ts:39-67 | the definition of each property's case label, such as `Make` or `Model Year` |
| Nhtsa.Selects | app/lib/nhtsa.ts:39-67 | the definition of an entry selecting a property: its `Variable` is that property's case label |
| Nhtsa.FieldOf | app/lib/nhtsa.ts:39-67 | a label selects property `f` if and only if it is `f`'s case label; other labels select nothing |
| Nhtsa.LastValueNoneIffUnselected | app/lib/nhtsa.ts:35-70 | a property is absent if and only if no entry carries its label |
| Nhtsa.LastValueIsLastSelecting | app/lib/nhtsa.ts:38-68 | a present property holds the value of an entry with its label, and no later entry has that label |
| Nhtsa.LastSelectingIsLastValue | app/lib/nhtsa.ts:38-68 | the last entry with a property's label gives that property its value |
| Nhtsa.UnknownLabelIgnored | app/lib/nhtsa.ts:39-67 | an entry with an unrecognised label changes no property |
| Nhtsa.LaterEntryWins | app/lib/nhtsa.ts:38-68 | a later entry with a property's label overwrites that property and no other |
| Nhtsa.Extract | app/lib/nhtsa.ts:35-70 | the record has a property exactly when some entry carries its label; the value is that of the last such entry |
| Nhtsa.DecodeVin | app/lib/nhtsa.ts:14-75 | the request is made exactly when the VIN is present with length 17, and no character is checked; the result is absent for a failed request, a non-OK reply or missing or empty `Results`, and is otherwise the extracted record |
| VinAlphabet.VinChar | app/components/vin-scanner.tsx:50 | the definition of the class `[A-HJ-NPR-Z0-9]`: the letter ranges A-H, J-N, P, R-Z and the digits |
| VinAlphabet.AllVinChars | app/components/vin-scanner.tsx:50 | the definition of a text made only of class characters |
| VinAlphabet.VinCharIsAlnumExceptIOQ | app/components/vin-scanner.tsx:50 | the VIN class is exactly the capital letters and digits other than I, O and Q |
| VinScanner.CleanVin | app/components/vin-scanner.tsx:49 | the definition of the cleaning: upper-case, then delete everything outside `0-9A-Z`; the result holds only those characters |
| VinScanner.IsValidVin | app/components/vin-scanner.tsx:48-51 | the definition of `isValidVin`: the cleaned text is 17 characters of the VIN class |
| VinScanner.Alnum | app/components/vin-scanner.tsx:49 | the definition of the characters `[^0-9A-Z]` does not delete: digits and capital letters |
| Text.ToUpper | app/components/vin-scanner.tsx:49 | the definition of `toUpperCase` on ASCII: each lower-case letter is mapped to its capital, other characters are kept |
| Text.ToLower | app/components/vin-scanner.tsx:350-351 | the definition of `toLowerCase` on ASCII: each capital is mapped to its lower-case letter, other characters are kept |
| VinScanner.KeepAlnum | app/components/vin-scanner.tsx:49 | the cleaning keeps only `0-9A-Z`, never lengthens the text, and keeps text that is already clean |
| VinScanner.KeepAlnumConcat | app/components/vin-scanner.tsx:49 | the cleaning works character by character |
| VinScanner.CleanVinIdempotent | app/components/vin-scanner.tsx:49 | cleaning twice is cleaning once, so validating cleaned text is validating the original |
| VinScanner.SeparatorIgnored | app/components/vin-scanner.tsx:49 | a dash, a space or any other character that is not a letter or digit is ignored by the validator |
| VinScanner.CaseIgnored | app/components/vin-scanner.tsx:49 | lower-case input validates exactly as its upper-case form does |
| VinScanner.VinClassIsValid | app/components/vin-scanner.tsx:49-50 | seventeen class characters are already clean and valid |
| VinScanner.VinMatches | app/components/vin-scanner.tsx:159 | every candidate is 17 class characters and occurs in the recognised text |
| VinScanner.FirstMatchIsLeftmostRun | app/components/vin-scanner.tsx:159 | there are no candidates exactly when there is no run of 17 class characters, and the first candidate is the leftmost run |
| VinScanner.FirstValidMatch | app/components/vin-scanner.tsx:160-171 | the reported candidate is the first one `isValidVin` accepts, no candidate before it is valid, and nothing is reported when none is valid |
| VinScanner.CandidatesAreValid | app/components/vin-scanner.tsx:159-162 | every OCR candidate passes `isValidVin`, so the first candidate is the one reported |
| VinScanner.IsBackCamera | app/components/vin-scanner.tsx:349-351 | the definition of the `find` test: the lower-cased label contains `back` or `rear` |
| VinScanner.FirstBackCamera | app/components/vin-scanner.tsx:349-352 | the index found is the first device whose lower-cased label contains `back` or `rear`; none is found when there is no such device |
| VinScanner.DefaultDeviceId | app/components/vin-scanner.tsx:349-353 | the definition of the default camera: the first back camera's id when non-empty, else the first device's id, else `''` |
| VinScanner.DefaultCameraChoice | app/components/vin-scanner.tsx:349-353 | the first back camera is chosen when its id is non-empty, and otherwise the first device |
| VinScanner.DefaultCameraWithoutBack | app/components/vin-scanner.tsx:353 | without a back camera, the first device is chosen, or `''` when the list is empty |
| VinScanner.DefaultCameraIsListed | app/components/vin-scanner.tsx:353 | the chosen id is `''` or the id of a listed device |
| VinScanner.Scanner.constructor | app/components/vin-scanner.tsx:28-37 | the initial state: nothing selected, no scan running, status `Ready to scan` |
| VinScanner.Scanner.InitializeDevices | app/components/vin-scanner.tsx:335-372 | a non-empty list selects the default camera; an empty list or a listing failure sets the error and status messages and reports the error |
| VinScanner.Scanner.ProcessOcr | app/components/vin-scanner.tsx:103-187 | the first candidate becomes the result and is reported; with no candidate the status is `Scanning for text...`; a recognition failure sets `OCR processing failed`; processing ends in every case |
| VinScanner.Scanner.OnBarcode | app/components/vin-scanner.tsx:199-210 | valid decoded text is reported in its cleaned form; anything else changes nothing |
| VinScanner.Scanner.HandleStartScan | app/components/vin-scanner.tsx:399-406 | with a device selected and no scan running, scanning starts on that device; with none selected, the error `No camera selected` is set instead |
| VinScanner.Scanner.HandleDeviceChange | app/components/vin-scanner.tsx:414-423 | an empty id or the current id is ignored; another id is selected, and a restart is scheduled while a scan is running |
| SmartVinInput.ValidateVin | app/components/smart-vin-input.tsx:56-58 | the definition of `validateVin`: 17 characters, each in the VIN class once ASCII case is ignored |
| SmartVinInput.ValidateVinIffUpperIsVin | app/components/smart-vin-input.tsx:56-58 | `validateVin` holds if and only if the text is 17 characters that, upper-cased, are all in the VIN class |
| SmartVinInput.RejectsIOQ | app/components/smart-vin-input.tsx:57 | a text with I, O or Q in either case is rejected |
| SmartVinInput.RejectsSeparator | app/components/smart-vin-input.tsx:57 | nothing is stripped: a text with a space, a dash or any other character that is not a letter or digit is rejected |
| SmartVinInput.ValidateImpliesScannerValid | app/components/smart-vin-input.tsx:56-58 | whatever the input field accepts, the scanner's `isValidVin` accepts too, with the cleaning only upper-casing it |
| SmartVinInput.ScannerAcceptsWhatFieldRefuses | app/components/smart-vin-input.tsx:57 | the converse fails: for any 17 class characters, the text with a dash in front passes the scanner but not the field |
| SmartVinInput.StatusMessage | app/components/smart-vin-input.tsx:214-231 | the definition of `getStatusMessage`: one fixed text per status, and for `found` a text that names the source |
| SmartVinInput.OnlyFoundDependsOnSource | app/components/smart-vin-input.tsx:214-231 | every status except `found` shows a message that does not depend on the data source |
| SmartVinInput.MessagesTellStatusesApart | app/components/smart-vin-input.tsx:214-231 | different statuses show different messages, and only `idle` shows the empty one |
| SmartVinInput.VinField.constructor | app/components/smart-vin-input.tsx:48-52 | the initial state: status `idle`, no data, not searching |
| SmartVinInput.VinField.HandleVinChange | app/components/smart-vin-input.tsx:165-173 | the upper-cased value is stored; a non-idle status resets to `idle` with the data and the source cleared |
| SmartVinInput.VinField.HandleVinSearch | app/components/smart-vin-input.tsx:99-163 | an invalid VIN changes nothing and queries nothing; otherwise the database is asked first. A database hit gives `found` from the database and NHTSA is not asked; after a database miss, an NHTSA hit gives `found` from NHTSA, a miss `not-found` and an exception `error`; the search is over in every case |
| Repairs.Truthy | app/api/repairs/route.ts:83-92 | the definition of JavaScript truthiness for an optional string: present and not `''` |
| Repairs.OrNull | app/api/repairs/route.ts:181-186 | the definition of `x \|\| null`: a truthy value is kept, anything else becomes null |
| Repairs.OrNullIsClean | app/api/repairs/route.ts:181-186 | the result is never `''`, it is null or the value itself, every non-empty value is kept, and applying it twice is applying it once |
| Repairs.CleanId | app/api/repairs/route.ts:91-92 | the definition of the sentinel cleaning; its contract states that the result is null or the value itself, and never `''` or the sentinel |
| Repairs.CleanIdIsClean | app/api/repairs/route.ts:91-92 | every real id (present, not `''`, not the sentinel) is kept, and cleaning again changes nothing |
| Repairs.Decimal | app/api/repairs/route.ts:157 | the definition of `String(count + 1)`: the decimal digits of a natural number, without leading zeros |
| Repairs.ParseDecimalOfDecimal | app/api/repairs/route.ts:157 | reading back the decimal text of a number gives the number |
| Repairs.ParseLeadingZeros | app/api/repairs/route.ts:157 | the zero padding does not change the value |
| Repairs.PadStart | app/api/repairs/route.ts:157 | the padded text is zeros followed by the whole original, at least 6 characters long and never truncated |
| Repairs.OrderNumber | app/api/repairs/route.ts:157 | the definition of the order number: `RO-` and the decimal of count+1, zero-padded to six digits |
| Repairs.OrderNumberRoundTrip | app/api/repairs/route.ts:154-157 | the order number carries the count plus one |
| Repairs.OrderNumberInjective | app/api/repairs/route.ts:154-157 | different counts give different order numbers |
| Repairs.OrderNumberShape | app/api/repairs/route.ts:157 | `RO-` followed by digits, of length 3 + max(6, digits of count+1), ending in the full decimal of count+1 |
| Repairs.DecimalLength | app/api/repairs/route.ts:157 | a number below 10^k has at most k digits |
| Repairs.OrderNumberSixDigits | app/api/repairs/route.ts:157 | below 999999 orders, the number is exactly `RO-` and six digits |
| Repairs.SignedIn | app/api/repairs/route.ts:63 | the definition of the session test: a session whose company is truthy |
| Repairs.Decide | app/api/repairs/route.ts:63-151 | the definition of the early returns in source order: 401, 500 for an unreadable body, 400, then 404 for the vehicle, the client and the employee, each with the lookups made so far |
| Repairs.NewOrder | app/api/repairs/route.ts:174-188 | the definition of the created order: the number from the count, the cleaned client and assignee, the `\|\| null` fields and status `RECEPTION` |
| Repairs.NewOrderHasNoPlaceholders | app/api/repairs/route.ts:174-188 | the stored client and assignee are never `''`, `no_client` or `no_assignment`; no optional text is `''`; vehicle and problem are non-empty; the status is `RECEPTION` |
| Repairs.CountForCompany | app/api/repairs/route.ts:154-156 | the definition of the `count` query: the number of stored orders whose company is the session's |
| Repairs.CountAfterCreate | app/api/repairs/route.ts:154-156 | storing an order raises its own company's count by one and leaves other companies' counts unchanged |
| Repairs.UnauthorizedFirst | app/api/repairs/route.ts:63-65 | without a company in the session the answer is 401 whatever the body, and nothing is looked up |
| Repairs.RequiredFieldsBeforeLookups | app/api/repairs/route.ts:83-88 | a missing vehicle or problem gives 400 before any lookup |
| Repairs.OwnershipCheckOrder | app/api/repairs/route.ts:105-151 | the vehicle's 404 comes before the client's, and the client's before the employee's; the first failing check decides the 404, its message and the exact lookups made so far |
| Repairs.ProceedIffAllChecksPass | app/api/repairs/route.ts:63-151 | a request is accepted exactly when it is signed in, both required fields are present and every given id belongs to the company |
| Repairs.Store.Post | app/api/repairs/route.ts:59-241 | a rejected request changes no table. An accepted one stores one `RECEPTION` order, numbered from the company's count and holding the cleaned ids, and one log entry whose new status is `RECEPTION`, then answers 201. The database calls come in order |
| Repairs.ConsecutiveOrdersNumberedApart | app/api/repairs/route.ts:154-188 | two accepted requests of the same company in a row get different order numbers |
| DashboardStats.LastCount | app/api/dashboard/stats/route.ts:92-103 | the reference definition of a table entry: the count of the last row naming the status, or 0 |
| DashboardStats.AbsentStatusIsZero | app/api/dashboard/stats/route.ts:92-103 | a status absent from the grouped rows stays 0 |
| DashboardStats.LastRowWins | app/api/dashboard/stats/route.ts:101-103 | each status's entry is the count of the last row that names it |
| DashboardStats.FormatStatusCounts | app/api/dashboard/stats/route.ts:92-103 | the table has all six keys, and each holds the count of the last row naming that status, or 0 |
| DashboardStats.CountStatus | app/api/dashboard/stats/route.ts:84-88 | the definition of one `groupBy` count: the company's orders in a given status |
| DashboardStats.CountCompany | app/api/dashboard/stats/route.ts:44-49 | the definition of the company's order count, against which the active count is checked |
| DashboardStats.IsGrouping | app/api/dashboard/stats/route.ts:84-88 | the definition of a true `groupBy` result: distinct statuses, each row holding the company's count for its status, and every status with orders present |
| DashboardStats.ActiveRepairs | app/api/dashboard/stats/route.ts:44-49 | the definition of active repairs: the company's orders whose status is not `DELIVERED` |
| DashboardStats.ActiveIsAllButDelivered | app/api/dashboard/stats/route.ts:44-49 | active repairs are the company's orders minus the delivered ones, which is the sum of the other five statuses |
| DashboardStats.TableHoldsCounts | app/api/dashboard/stats/route.ts:84-103 | with rows that are the true grouping, every table entry equals the company's count for that status |
| DashboardStats.GetStats | app/api/dashboard/stats/route.ts:9-112 | the answer is 401 exactly when there is no company in the session; otherwise it gives the active-repairs count and the status table |
| DashboardStats.StatsAreConsistent | app/api/dashboard/stats/route.ts:44-103 | with a true grouping, active repairs plus the delivered entry equal the company's order count |

## Left out

- File-system I/O and console output of the script (`os.path.exists`, `open`, `print`): files are a map from path to text.
- Newline translation of the script's text-mode `open`: the map holds the text after reading has turned `\r\n` and `\r` into `\n`. "Unchanged" (`MigratedIsFixpoint`, `FixRoutes`) is about that text; writing it back can still change a file's line endings on disk.
- The general regular-expression engine: only the four fixed patterns of the script are modelled, as literal search.
- Python and JavaScript string indexing by code point or UTF-16 unit: strings are sequences of characters.
- Unicode case mapping: `toUpperCase` and `toLowerCase` are modelled on ASCII letters only.
- The HTTP request of `decodeVIN`, JSON parsing, and `Value` fields that are `null` or not strings: a reply is an input, and every `Value` is a string.
- Camera access, ZXing, Tesseract, canvas cropping, and the `setTimeout`/`setInterval` timers of the scanner: their outputs are inputs. The scheduled stop after a detection, the 30-second timeout and `startScanning` itself are not modelled. A scheduled start or restart is returned instead.
- The mounted-ref checks and null element refs of the scanner: the model assumes a mounted component with its video and canvas present.
- VinScanner.Scanner.InitializeDevices: records the error it reports even when no `onError` callback was given.
- VinScanner.Scanner.InitializeDevices: the `onError` callback for an empty device list is assumed not to throw. If it threw inside the `try`, the `catch` would overwrite both messages with `Failed to access cameras` and `Camera access failed` and report a second error; the model does not reach that state.
- VinScanner.Scanner.ProcessOcr: the `onVinDetected` callback is assumed not to throw. If it threw inside the `try`, the `catch` would set `OCR processing failed` while the result stayed set to the match; the model instead ends with the detection status.
- Toast notifications and `handleVinFromScanner` of the VIN field. The mapping of NHTSA data into the form's record is not modelled either: found data is an opaque map.
- SmartVinInput.VinField.HandleVinSearch: the `onVehicleDataFound` callback is assumed not to throw. If it threw, the `catch` would set status `error` while the found data and its source stayed set; the model has no such state.
- SmartVinInput.VinField.HandleVinSearch: a search runs to completion before the next event, so interleaving with edits while a request is pending is not modelled.
- Prisma queries, next-auth sessions, and the event where a database call throws (the 500 of each handler after the body is read): tables are sets and sequences in `Repairs.Store`, and the session is an input.
- Repairs.Store.Post: runs atomically. The handler awaits between the `count` and the `create`, so two concurrent requests of one company can read the same count and get the same order number. `ConsecutiveOrdersNumberedApart` holds only for requests handled one after another.
- Repairs.Store.Post: body values are optional strings. A number or boolean in `vehicleId`, `clientId` or another field follows JavaScript truthiness instead: `0` is refused with 400 and `5` is kept. This is not modelled.
- Repairs.Store.Post: the cost (`parseFloat`) and the end date (`new Date`) of an order are not modelled. Neither are the `include` selections of the reply and the database-assigned id, which is modelled as the order's position in the table.
- Repairs.OrderNumber: JavaScript numbers are unbounded here; precision loss beyond 2^53 orders is not modelled.
- DashboardStats.GetStats: the vehicle, client and appointment counts and the recent-orders list are not modelled. They are plain queries or date logic. The grouped rows are an input; `TableHoldsCounts` relates them to the order table when they are the true grouping.
- The VIN check digit: it is computed nowhere in the source.
