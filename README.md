# odata-mock core in Dafny

A model of the request-handling core of the odata-mock server, a mock OData
version 4 service. Test suites store JSON entries in it and read them back
through OData URLs. The model covers these parts:

- **FilterExpressionVisitor**: evaluates a parsed `$filter` tree against one
  entity. Members read a property, literals become strings, Ints or dates,
  and unary, arithmetic, comparison and Boolean operators check the runtime
  classes of their operands. `contains` is the only method call; enums give
  their member value. Every unsupported node answers NOT_IMPLEMENTED, a wrong
  operand type BAD_REQUEST, and a comparison of an unknown class
  INTERNAL_SERVER_ERROR (module `Filter`, file `filter.dfy`).
- **DataContainer**: the process-wide list of stored entries. Each entry has
  a UUID, a name and a JSON payload. It can add, find by id, list by name,
  remove by id, remove by key property and remove by name (class
  `Store.DataContainer`, file `store.dfy`). Its invariant is that every
  entry has an id and no two entries share one.
- **SessionContainer**: the list of active session ids (class
  `Sessions.SessionContainer`, file `sessions.dfy`). Its invariant is that no
  id is listed twice.
- **DataProvider**: `readAll` decodes the entries stored under an entity
  type's name; `read` finds the first entity that some key predicate
  matches (module `Provider`, file `provider.dfy`).
- **ODataProcessor**: the collection read (`$filter`, then `$skip`, then
  `$top` or the `odata.maxpagesize` preference), the read of one entity,
  key generation on create (`getNextId`), key copying on update, and the
  operations rejected as not implemented (module `Processor`, file
  `processor.dfy`).

Helper modules write out the Kotlin and JVM behaviour the core relies on:

- `Text` covers `String.contains`, `split` (empty pieces kept), `trim(char)`
  (every leading and trailing occurrence), `toString`, `toInt` and `toLong`.
- `JvmInt` covers 32-bit Int and 64-bit Long wrap-around and truncating `/`
  and `%`.
- `Seqs` covers `filter`, `removeIf`, `find` and `remove`.
- `Outcomes` holds the HTTP statuses and a `Result` type.

An `ODataApplicationException` with status *s* is `Err(AppError(s))`. The
provider's `DataProviderException("Wrong key!")` is `Err(WrongKey)`.

Behaviour that the model keeps as the code has it:

- **Key matching in `read`.**
  - The formatted value, wrapped in single quotes, must equal the key's URL
    text exactly. The quoted form is the only one compared.
  - An integer key such as `(5)` therefore never finds anything
    (`Provider.IntegerKeyNeverHits`, `Provider.UnquotedKeysFindNothing`).
  - With several keys, a hit on any one of them is enough
    (`Provider.MatchAnyKey`).
- **`removeEntryByKey`.** It compares texts after `trim('"')`, which strips
  every surrounding double quote, not one pair. The JSON string `"5"`
  therefore matches the Int `5` (`Store.StringKeyMatchesNumber`).
- **`odata.maxpagesize` and `$top`.** The preference replaces `$top` even
  when `$top` is smaller (`Processor.MaxPageSizeOverridesTop`). The
  `Prefer` header is only read when it contains exactly one `=`.
- **`getNextId`.**
  - It is the largest key plus one, in Long arithmetic. When the largest
    key is `Long.MAX_VALUE` it wraps around to `Long.MIN_VALUE`
    (`Processor.NextIdExceedsKeys`).
  - Filter arithmetic on Ints wraps at 32 bits. `-Int.MIN_VALUE` is
    `Int.MIN_VALUE` (`Filter.MinusInvolution`).
- **Create and update store each entry twice.**
  - `createSerializedEntity` stores the entry and serializes it.
  - The caller then stores the serialized text again.
  - So every create and every update adds two entries under two new ids
    (`Processor.CreateEntity`, `Processor.UpdateEntity`).
- **Names used by create, read and update.**
  - Create stores under the entity **set**'s name.
  - `readAll` reads under the entity **type**'s name.
  - Update removes and stores under the type's name.
  - The model keeps the two names apart (`setName`, `typeName`).

## Model

| member | source | states |
|---|---|---|
| Filter.FirstParseIsFirstSuccess | src/main/kotlin/fi/metatavu/odata/mock/data/FilterExpressionVisitor.kt:339-349 | parseDate fails exactly when no format parses the text; otherwise it returns what the first format that parses gives, and every earlier format failed |
| Filter.ParseDate | src/main/kotlin/fi/metatavu/odata/mock/data/FilterExpressionVisitor.kt:339-349 | the loop over the formats returns the first successful parse, None when all fail |
| Filter.StringLiteralUnquotes | src/main/kotlin/fi/metatavu/odata/mock/data/FilterExpressionVisitor.kt:37-44 | dropping the first and last character of a quoted literal gives back exactly the quoted text, inner quotes kept |
| Filter.StringLiteralRoundTrip | src/main/kotlin/fi/metatavu/odata/mock/data/FilterExpressionVisitor.kt:35-44 | a string literal `'s'` evaluates to the string s |
| Filter.IntLiteralRoundTrip | src/main/kotlin/fi/metatavu/odata/mock/data/FilterExpressionVisitor.kt:58-68 | an Int16, Int32 or Int64 literal written as the text of an Int n evaluates to the Int n |
| Filter.UnsupportedLiteral | src/main/kotlin/fi/metatavu/odata/mock/data/FilterExpressionVisitor.kt:70-74 | a literal of any other type (Boolean, Decimal, Guid, null, …) is NOT_IMPLEMENTED |
| Filter.DateLiteralFirstFormat | src/main/kotlin/fi/metatavu/odata/mock/data/FilterExpressionVisitor.kt:46-56 | a date, dateTimeOffset or timeOfDay literal evaluates to what the first of its formats that parses gives: a Date for dateTimeOffset, a Calendar otherwise |
| Filter.MemberReadsProperty | src/main/kotlin/fi/metatavu/odata/mock/data/FilterExpressionVisitor.kt:21-33 | a one-segment primitive property path reads that property of the entity, which is never null (a null value is the NullPointerException of the non-null `Any` return, left as a precondition); any other path is NOT_IMPLEMENTED |
| Filter.NotInvolution | src/main/kotlin/fi/metatavu/odata/mock/data/FilterExpressionVisitor.kt:78-89 | NOT succeeds exactly on Booleans, is BAD_REQUEST otherwise, and applying it twice gives the operand back |
| Filter.MinusInvolution | src/main/kotlin/fi/metatavu/odata/mock/data/FilterExpressionVisitor.kt:78-89 | unary minus succeeds exactly on Ints, is BAD_REQUEST otherwise, applied twice gives the operand back, and maps Int.MIN_VALUE to itself |
| Filter.BinaryListRejected | src/main/kotlin/fi/metatavu/odata/mock/data/FilterExpressionVisitor.kt:91-96 | a binary list fails with its head's error, and is NOT_IMPLEMENTED once its operands evaluate |
| Filter.UnsupportedOperators | src/main/kotlin/fi/metatavu/odata/mock/data/FilterExpressionVisitor.kt:98-113 | a binary operator is NOT_IMPLEMENTED exactly when it is neither arithmetic, comparison nor Boolean (has, in) |
| Filter.BinaryEvaluationOrder | src/main/kotlin/fi/metatavu/odata/mock/data/FilterExpressionVisitor.kt:98-113 | the left operand is evaluated first and its error wins, then the right operand's, and only then the operator is applied |
| Filter.LogicalOutcome | src/main/kotlin/fi/metatavu/odata/mock/data/FilterExpressionVisitor.kt:123-136 | AND and OR succeed exactly on two Booleans, are BAD_REQUEST otherwise, and are symmetric |
| Filter.ComparisonOutcome | src/main/kotlin/fi/metatavu/odata/mock/data/FilterExpressionVisitor.kt:146-208 | a comparison is BAD_REQUEST exactly when the operands are not comparable, INTERNAL_SERVER_ERROR exactly when they are comparable but not Int, String, Boolean, Calendar or Date, and otherwise a Boolean |
| Filter.CompareStringsOrder | src/main/kotlin/fi/metatavu/odata/mock/data/FilterExpressionVisitor.kt:150 | String.compareTo is zero exactly on equal strings and changes sign when the operands are swapped |
| Filter.CompareValuesZero | src/main/kotlin/fi/metatavu/odata/mock/data/FilterExpressionVisitor.kt:148-160 | compareTo is zero exactly on equal values (Calendars and Dates by their instant) and antisymmetric |
| Filter.EqualityComparison | src/main/kotlin/fi/metatavu/odata/mock/data/FilterExpressionVisitor.kt:146-181 | on comparable known values, eq is true exactly when the values are equal and ne exactly when they differ |
| Filter.ComparisonSwap | src/main/kotlin/fi/metatavu/odata/mock/data/FilterExpressionVisitor.kt:146-181 | lt is gt with swapped operands, le is ge swapped, eq and ne are symmetric, le is lt or eq, and exactly one of lt, eq, gt holds |
| Filter.ArithmeticOutcome | src/main/kotlin/fi/metatavu/odata/mock/data/FilterExpressionVisitor.kt:218-241 | arithmetic succeeds exactly on two Ints, is BAD_REQUEST otherwise, and always yields an Int in the 32-bit range |
| Filter.ArithmeticExactInRange | src/main/kotlin/fi/metatavu/odata/mock/data/FilterExpressionVisitor.kt:218-241 | when the exact result of add, sub or mul is an Int, that is the result (no wrap-around) |
| Filter.DivModIdentity | src/main/kotlin/fi/metatavu/odata/mock/data/FilterExpressionVisitor.kt:230-233 | div and mod on Ints fit together: (a div b) mul b add (a mod b) is a, including Int.MIN_VALUE div -1 |
| Filter.ContainsMethodSubstring | src/main/kotlin/fi/metatavu/odata/mock/data/FilterExpressionVisitor.kt:243-261 | contains on two strings is true exactly when the second occurs in the first; other arguments are BAD_REQUEST |
| Filter.UnsupportedNodes | src/main/kotlin/fi/metatavu/odata/mock/data/FilterExpressionVisitor.kt:263-312 | type literals, aliases, lambda expressions and lambda references are NOT_IMPLEMENTED |
| Filter.EnumRoundTrip | src/main/kotlin/fi/metatavu/odata/mock/data/FilterExpressionVisitor.kt:277-298 | an integral enum member whose value is the text of an Int n evaluates to n |
| Filter.EnumNull | src/main/kotlin/fi/metatavu/odata/mock/data/FilterExpressionVisitor.kt:277-285 | no value, an unknown member or a member without a value is null |
| Filter.EvalAllElements | src/main/kotlin/fi/metatavu/odata/mock/data/FilterExpressionVisitor.kt:243-248 | the parameters of a method call are evaluated in order: on success the i-th value is the i-th parameter's; on failure an earlier parameter evaluated and a later one failed with that error |
| Filter.Eval | src/main/kotlin/fi/metatavu/odata/mock/data/FilterExpressionVisitor.kt:21-312 | evaluating a filter tree fails only with the visitor's own statuses: BAD_REQUEST, NOT_IMPLEMENTED or INTERNAL_SERVER_ERROR |
| Filter.EvalLiteral | src/main/kotlin/fi/metatavu/odata/mock/data/FilterExpressionVisitor.kt:35-74 | a literal evaluates exactly when it is an Edm.String, an integer type or a date type, is NOT_IMPLEMENTED otherwise, and yields a String, an Int in the 32-bit range, a Calendar or a Date |
| Filter.EvalMember | src/main/kotlin/fi/metatavu/odata/mock/data/FilterExpressionVisitor.kt:21-33 | a member evaluates exactly when its path is one primitive property, is NOT_IMPLEMENTED otherwise, and yields one of the entity's values, never null |
| Filter.EvalUnary | src/main/kotlin/fi/metatavu/odata/mock/data/FilterExpressionVisitor.kt:78-89 | NOT succeeds exactly on a Boolean and minus exactly on an Int, anything else is BAD_REQUEST, and the result has the operand's class |
| Filter.EvalLogical | src/main/kotlin/fi/metatavu/odata/mock/data/FilterExpressionVisitor.kt:123-136 | AND and OR succeed exactly on two Booleans and yield a Boolean; otherwise BAD_REQUEST |
| Filter.EvalComparison | src/main/kotlin/fi/metatavu/odata/mock/data/FilterExpressionVisitor.kt:146-181 | a comparison is BAD_REQUEST exactly when the operands are not comparable, fails with nothing but BAD_REQUEST or INTERNAL_SERVER_ERROR, and otherwise yields a Boolean |
| Filter.ComparableSymmetric | src/main/kotlin/fi/metatavu/odata/mock/data/FilterExpressionVisitor.kt:190-208 | isComparable is symmetric, never holds for null, and holds for any two values of the same known class |
| Filter.EvalArithmetic | src/main/kotlin/fi/metatavu/odata/mock/data/FilterExpressionVisitor.kt:218-241 | arithmetic succeeds exactly on two Ints and yields an Int; otherwise BAD_REQUEST |
| Filter.EvalBinary | src/main/kotlin/fi/metatavu/odata/mock/data/FilterExpressionVisitor.kt:98-113 | a binary operator is NOT_IMPLEMENTED exactly when it is neither arithmetic, comparison nor Boolean; arithmetic yields an Int and the others a Boolean |
| Filter.EvalMethod | src/main/kotlin/fi/metatavu/odata/mock/data/FilterExpressionVisitor.kt:243-261 | a method call succeeds exactly when it is contains on two strings, yielding a Boolean; every other method is NOT_IMPLEMENTED |
| Filter.EvalEnum | src/main/kotlin/fi/metatavu/odata/mock/data/FilterExpressionVisitor.kt:277-298 | an enum is null exactly when there is no value, the member is unknown or it has no value; it fails only with NOT_IMPLEMENTED, for an underlying type neither integral nor String; an Int it yields is in the 32-bit range |
| Text.ContainsIsSubstring | src/main/kotlin/fi/metatavu/odata/mock/processor/ODataProcessor.kt:592 | String.contains holds exactly when the text occurs at some index |
| Text.JoinSplit | src/main/kotlin/fi/metatavu/odata/mock/processor/ODataProcessor.kt:593 | split loses nothing: joining its pieces with the separator gives the input back |
| Text.SplitAround | src/main/kotlin/fi/metatavu/odata/mock/processor/ODataProcessor.kt:593-595 | a string with one separator splits into exactly the two parts around it |
| Text.TrimIsSlice | src/main/kotlin/fi/metatavu/odata/mock/data/DataContainer.kt:75-76 | trim(c) keeps a contiguous slice that neither starts nor ends with c, and everything cut off is c |
| Text.TrimEnclosed | src/main/kotlin/fi/metatavu/odata/mock/data/DataContainer.kt:75-76 | one pair of enclosing quotes (a JSON string) makes no difference to trim |
| Text.TrimIdempotent | src/main/kotlin/fi/metatavu/odata/mock/data/DataContainer.kt:75-76 | trimming twice trims nothing more |
| Text.ParseShowInt | src/main/kotlin/fi/metatavu/odata/mock/processor/ODataProcessor.kt:578 | the decimal text of any integer reads back as that integer |
| JvmInt.IntDivRemIdentity | src/main/kotlin/fi/metatavu/odata/mock/data/FilterExpressionVisitor.kt:225-233 | Kotlin's Int `/`, `%`, `*` and `+` satisfy (a / b) * b + a % b == a on every Int input |
| JvmInt.TruncDivision | src/main/kotlin/fi/metatavu/odata/mock/data/FilterExpressionVisitor.kt:231-233 | truncating division and remainder: a == b*q + r, the remainder smaller than the divisor with the dividend's sign |
| JvmInt.ParseLongShowInt | src/main/kotlin/fi/metatavu/odata/mock/processor/ODataProcessor.kt:578 | `toString().toLong()` gives back every Long |
| JvmInt.LongSuccessor | src/main/kotlin/fi/metatavu/odata/mock/processor/ODataProcessor.kt:581 | Long `+ 1` is exact below Long.MAX_VALUE and gives Long.MIN_VALUE from it |
| Seqs.FilterAppend | src/main/kotlin/fi/metatavu/odata/mock/data/DataContainer.kt:50 | filter works piecewise over concatenation, keeping order |
| Seqs.FilterKeepsAll | src/main/kotlin/fi/metatavu/odata/mock/data/DataContainer.kt:59 | removeIf changes nothing exactly when no element matches |
| Seqs.FilterCommute | src/main/kotlin/fi/metatavu/odata/mock/data/DataContainer.kt:72-93 | two removeIf passes give the same list in either order |
| Seqs.RemoveFirstMultiset | src/main/kotlin/fi/metatavu/odata/mock/sessions/SessionContainer.kt:30 | remove(x) takes away one x, if present, and nothing else |
| Seqs.RemoveFirstAt | src/main/kotlin/fi/metatavu/odata/mock/sessions/SessionContainer.kt:30 | remove(x) cuts out exactly the first occurrence of x, keeping what precedes and follows in order |
| Seqs.RemoveFirstOfDistinct | src/main/kotlin/fi/metatavu/odata/mock/sessions/SessionContainer.kt:30 | in a list without duplicates, remove(x) leaves no x and still no duplicates |
| Store.DataContainer.constructor | src/main/kotlin/fi/metatavu/odata/mock/data/DataContainer.kt:15 | the store starts empty |
| Store.DataContainer.AddEntry | src/main/kotlin/fi/metatavu/odata/mock/data/DataContainer.kt:23-27 | a copy of the entry with the new id is appended and returned; ids stay unique and getEntry finds the copy by its id |
| Store.DataContainer.GetEntry | src/main/kotlin/fi/metatavu/odata/mock/data/DataContainer.kt:35-37 | the first stored entry with the id; null exactly when no entry has it |
| Store.DataContainer.GetEntries | src/main/kotlin/fi/metatavu/odata/mock/data/DataContainer.kt:45-51 | all entries for a null or empty name; otherwise exactly the stored entries with that name |
| Store.DataContainer.RemoveEntry | src/main/kotlin/fi/metatavu/odata/mock/data/DataContainer.kt:58-60 | every entry with the id is removed, the rest kept in order; afterwards no entry has the id |
| Store.DataContainer.RemoveEntryByKey | src/main/kotlin/fi/metatavu/odata/mock/data/DataContainer.kt:69-82 | exactly the entries of the name whose trimmed key text equals the value's trimmed text are removed; ids stay unique |
| Store.DataContainer.RemoveEntries | src/main/kotlin/fi/metatavu/odata/mock/data/DataContainer.kt:89-95 | a null or empty name clears the store; otherwise exactly the entries with the name go, after which none is listed under it |
| Store.AppendKeepsIdsUnique | src/main/kotlin/fi/metatavu/odata/mock/data/DataContainer.kt:24-25 | appending an entry with a fresh id keeps every id unique |
| Store.FilterKeepsIdsUnique | src/main/kotlin/fi/metatavu/odata/mock/data/DataContainer.kt:59 | removing entries keeps every remaining id unique |
| Store.FindAppended | src/main/kotlin/fi/metatavu/odata/mock/data/DataContainer.kt:35-37 | after appending an entry with a fresh id, find by that id returns the appended entry |
| Store.WithoutNameKeepsOthers | src/main/kotlin/fi/metatavu/odata/mock/data/DataContainer.kt:93 | removing one name leaves the entries of every other name exactly as they were |
| Store.WithoutKeyKeepsOtherNames | src/main/kotlin/fi/metatavu/odata/mock/data/DataContainer.kt:72-81 | removing by key never touches the entries of another name |
| Store.WithoutKeyRemovesMatches | src/main/kotlin/fi/metatavu/odata/mock/data/DataContainer.kt:72-81 | a stored entry survives removal by key exactly when its key does not match the value |
| Store.WithoutAbsentId | src/main/kotlin/fi/metatavu/odata/mock/data/DataContainer.kt:59 | removing an id no entry has changes nothing |
| Store.StringKeyMatches | src/main/kotlin/fi/metatavu/odata/mock/data/DataContainer.kt:73-77 | a stored JSON string property matches the same string value |
| Store.NumberKeyMatches | src/main/kotlin/fi/metatavu/odata/mock/data/DataContainer.kt:73-77 | a stored JSON number matches an integral value exactly when the numbers are equal |
| Store.StringKeyMatchesNumber | src/main/kotlin/fi/metatavu/odata/mock/data/DataContainer.kt:75-77 | the stored string "5" matches the Int 5, because trim removes the JSON quotes |
| Sessions.SessionContainer.constructor | src/main/kotlin/fi/metatavu/odata/mock/sessions/SessionContainer.kt:11 | no session is active at first |
| Sessions.SessionContainer.AddSession | src/main/kotlin/fi/metatavu/odata/mock/sessions/SessionContainer.kt:18-22 | the new id is appended and returned; it is active, every other id keeps its state, no id is listed twice |
| Sessions.SessionContainer.RemoveSession | src/main/kotlin/fi/metatavu/odata/mock/sessions/SessionContainer.kt:29-31 | the first occurrence is removed (an absent id changes nothing); the session is no longer active and every other id keeps its state |
| Sessions.SessionContainer.IsActive | src/main/kotlin/fi/metatavu/odata/mock/sessions/SessionContainer.kt:39-41 | a session is active exactly when removing it would shorten the list |
| Provider.Decoded | src/main/kotlin/fi/metatavu/odata/mock/data/DataProvider.kt:33-38 | one decoded entity per stored entry, in order |
| Provider.ReadAll | src/main/kotlin/fi/metatavu/odata/mock/data/DataProvider.kt:27-41 | the entities decoded from exactly the entries stored under the type's name, in order |
| Provider.Read | src/main/kotlin/fi/metatavu/odata/mock/data/DataProvider.kt:49-77 | the nested loops compute the first entity some key matches, null when none does, Wrong key when formatting fails first |
| Provider.MatchKeys | src/main/kotlin/fi/metatavu/odata/mock/data/DataProvider.kt:55-70 | the inner loop over the key predicates fails only with "Wrong key!" |
| Provider.Scan | src/main/kotlin/fi/metatavu/odata/mock/data/DataProvider.kt:54-74 | the outer loop fails only with "Wrong key!", and the entity it finds is one of the entities read |
| Provider.MatchAnyKey | src/main/kotlin/fi/metatavu/odata/mock/data/DataProvider.kt:55-70 | when every key formats, an entity matches exactly when some key hits |
| Provider.ScanFindsFirst | src/main/kotlin/fi/metatavu/odata/mock/data/DataProvider.kt:54-70 | a found entity is matched by some key, and every earlier entity matched none |
| Provider.ScanNotFound | src/main/kotlin/fi/metatavu/odata/mock/data/DataProvider.kt:49-77 | read returns null exactly when no entity matches |
| Provider.UnquotedKeyNeverHits | src/main/kotlin/fi/metatavu/odata/mock/data/DataProvider.kt:67 | key text that does not start with a single quote never hits |
| Provider.IntegerKeyNeverHits | src/main/kotlin/fi/metatavu/odata/mock/data/DataProvider.kt:58-67 | an integer key, written without quotes in the URL, never hits |
| Provider.UnquotedKeysFindNothing | src/main/kotlin/fi/metatavu/odata/mock/data/DataProvider.kt:49-77 | when no key is quoted, read finds nothing (or fails with Wrong key) |
| Provider.NoHitNoMatch | src/main/kotlin/fi/metatavu/odata/mock/data/DataProvider.kt:55-70 | when no key text is quoted, no entity is matched (the inner loop never answers true) |
| Processor.FilterSucceedsOnBooleans | src/main/kotlin/fi/metatavu/odata/mock/processor/ODataProcessor.kt:65-93 | the filter step succeeds exactly when the filter gives a Boolean on every entity |
| Processor.FilterKeepsTrueInOrder | src/main/kotlin/fi/metatavu/odata/mock/processor/ODataProcessor.kt:65-93 | on success the filter keeps exactly the entities it is true of, in their original order |
| Processor.FilterFailsAtFirstNonBoolean | src/main/kotlin/fi/metatavu/odata/mock/processor/ODataProcessor.kt:69-85 | on failure some entity gives no Boolean, every earlier one gives a Boolean, and the error is that entity's own or BAD_REQUEST |
| Processor.FilterEntities | src/main/kotlin/fi/metatavu/odata/mock/processor/ODataProcessor.kt:65-93 | the filtered list is no longer than the input, and it fails only with the visitor's statuses |
| Processor.ApplyFilter | src/main/kotlin/fi/metatavu/odata/mock/processor/ODataProcessor.kt:65-93 | the iterator loop that removes rejected entities computes the filter step |
| Processor.SkipEntities | src/main/kotlin/fi/metatavu/odata/mock/processor/ODataProcessor.kt:95-115 | the removeAt(0) loop drops the first skip entities, clears the list when skip exceeds it, and rejects a negative skip |
| Processor.Skip | src/main/kotlin/fi/metatavu/odata/mock/processor/ODataProcessor.kt:95-115 | $skip is BAD_REQUEST exactly when negative; otherwise it keeps a suffix of the list, min(skip, size) shorter |
| Processor.Top | src/main/kotlin/fi/metatavu/odata/mock/processor/ODataProcessor.kt:117-135 | $top is BAD_REQUEST exactly when negative; otherwise it keeps a prefix of the list of length min(top, size) |
| Processor.TopEntities | src/main/kotlin/fi/metatavu/odata/mock/processor/ODataProcessor.kt:117-135 | the loop removing the last entity keeps the first maxpagesize (else top) entities and rejects a negative size |
| Processor.PagingWindow | src/main/kotlin/fi/metatavu/odata/mock/processor/ODataProcessor.kt:95-135 | $skip s then $top t return the window f[min(s,n)..min(s+t,n)] of the filtered list, in order |
| Processor.MaxPageSizeOverridesTop | src/main/kotlin/fi/metatavu/odata/mock/processor/ODataProcessor.kt:120-121 | with an odata.maxpagesize preference the page is its first maxpagesize entities, whatever $top says |
| Processor.PageComesFromFilter | src/main/kotlin/fi/metatavu/odata/mock/processor/ODataProcessor.kt:51-135 | every entity on a page is a stored entity the filter is true of, and a page never exceeds odata.maxpagesize |
| Processor.ReadEntityCollection | src/main/kotlin/fi/metatavu/odata/mock/processor/ODataProcessor.kt:51-135 | readAll, then the filter, skip and top steps, give the collection read; a failing filter or $skip is answered before the Prefer header is read, so only a request that reaches $top needs a well-formed odata.maxpagesize |
| Processor.MaxPageSizePresent | src/main/kotlin/fi/metatavu/odata/mock/processor/ODataProcessor.kt:590-601 | the preference is read exactly when the header contains `odata.maxpagesize=` and splits at `=` into two parts |
| Processor.MaxPageSizeRoundTrip | src/main/kotlin/fi/metatavu/odata/mock/processor/ODataProcessor.kt:590-601 | the header `odata.maxpagesize=n` yields n for every Int n |
| Processor.GetMaxPageSize | src/main/kotlin/fi/metatavu/odata/mock/processor/ODataProcessor.kt:590-601 | a page size is found only when the Prefer header contains odata.maxpagesize=, and it is an Int |
| Processor.Max | src/main/kotlin/fi/metatavu/odata/mock/processor/ODataProcessor.kt:577-579 | maxByOrNull of a non-empty list is an element no element exceeds |
| Processor.GetNextId | src/main/kotlin/fi/metatavu/odata/mock/processor/ODataProcessor.kt:576-582 | the next id is a Long: 1 for an empty collection, otherwise the largest key number plus one, wrapped to 64 bits |
| Processor.NextIdExceedsKeys | src/main/kotlin/fi/metatavu/odata/mock/processor/ODataProcessor.kt:576-582 | the next id is 1 for an empty collection; unless some key is Long.MAX_VALUE it exceeds every key and is exactly one more than some key; with a Long.MAX_VALUE key it is Long.MIN_VALUE |
| Processor.ReadEntity | src/main/kotlin/fi/metatavu/odata/mock/processor/ODataProcessor.kt:160-177 | the entity read finds; Wrong key becomes status 500 and a missing entity NOT_FOUND |
| Processor.PutNextIdsSetsKeys | src/main/kotlin/fi/metatavu/odata/mock/processor/ODataProcessor.kt:213-217 | every key property is set to its next id as a number; every other body property stays |
| Processor.CreatedKeysExceedExisting | src/main/kotlin/fi/metatavu/odata/mock/processor/ODataProcessor.kt:211-217 | a created key exceeds the same key of every stored entity (when none is Long.MAX_VALUE) |
| Processor.SetNextIds | src/main/kotlin/fi/metatavu/odata/mock/processor/ODataProcessor.kt:213-217 | the forEach over the keys builds the body with every key set to its next id |
| Processor.PutNextIds | src/main/kotlin/fi/metatavu/odata/mock/processor/ODataProcessor.kt:213-217 | the body after the loop has exactly its own properties and the key properties |
| Processor.CreateSerializedEntity | src/main/kotlin/fi/metatavu/odata/mock/processor/ODataProcessor.kt:537-565 | the entry is stored under a new id and its serialized form returned |
| Processor.CreateEntity | src/main/kotlin/fi/metatavu/odata/mock/processor/ODataProcessor.kt:203-233 | the body with fresh keys, and then its serialized form, are appended under the set's name; the serialized form is returned |
| Processor.CopyKeysKeepsOldKeys | src/main/kotlin/fi/metatavu/odata/mock/processor/ODataProcessor.kt:500-510 | every key of the old entity overrides the body's (every java.lang.Number as a number, its toLong(); anything else as its text); every other body property stays |
| Processor.UpdatedEntryKeepsKey | src/main/kotlin/fi/metatavu/odata/mock/processor/ODataProcessor.kt:494-510 | the updated entry matches again the key value it was removed by, whatever that value is unless it is a non-integral Number |
| Processor.ReplaceEntity | src/main/kotlin/fi/metatavu/odata/mock/processor/ODataProcessor.kt:488-521 | the old entity's entries are removed by its first key, then the body with the old keys copied in is stored as built and as serialized, under fresh ids; the serialized form is returned |
| Processor.CopyOldKeys | src/main/kotlin/fi/metatavu/odata/mock/processor/ODataProcessor.kt:500-510 | the forEach over the keys builds the body with every old key copied onto it, every java.lang.Number as its toLong() and anything else as its text |
| Processor.CopyKeys | src/main/kotlin/fi/metatavu/odata/mock/processor/ODataProcessor.kt:500-510 | the body after the loop has exactly its own properties and the key properties |
| Processor.KeyJson | src/main/kotlin/fi/metatavu/odata/mock/processor/ODataProcessor.kt:505-509 | a key value is stored as a JSON number exactly when it is a java.lang.Number, and then as its toLong(); anything else keeps its text up to surrounding quotes |
| Processor.UpdateEntity | src/main/kotlin/fi/metatavu/odata/mock/processor/ODataProcessor.kt:477-526 | a read failure is passed on and a missing entity is NOT_FOUND, both leaving the store alone; otherwise the entries with the old first key go and the rebuilt entry and its serialized form are appended |
| Processor.Reject | src/main/kotlin/fi/metatavu/odata/mock/processor/ODataProcessor.kt:424-475 | property updates and deletes (and deleteEntity, lines 235-240) fail with NOT_IMPLEMENTED, status 501 |

## Left out

- **Rendering and HTTP plumbing.** The model leaves out Olingo's serializers, deserializer and context URLs. It also leaves out `$count`, `$expand` and `$select` and the response headers and status of success. These belong to Olingo, not to this code. The deserializer is the `decode` parameter. `EdmPrimitiveType.valueToString` is the `format` parameter. `SimpleDateFormat` parsing is the `parse` parameter. The read-back and serialization in `createSerializedEntity` are the `serialize` parameter.
- `getEdmEntitySet`, `readPrimitive`, `readComplex`, `readPrimitiveValue` and `readProperty` are not modelled. The entity set arrives as parameters instead: set name, type name and key names. Those four handlers render one property of an entity that `read` finds.
- `DataProvider.readByEntryId` is not part of this model. It is folded into the `serialize` parameter.
- **Randomness.** `UUID.randomUUID()` becomes parameters (`newId`, `firstId`, `secondId`), each required to be unused.
- **Concurrency.** The companion objects' lists are shared between servlet threads without locking. The model is sequential.
- **JVM exceptions outside the typed error model.** Division by zero, a `toInt`/`toLong` that fails, a date no format parses, a null operand, a missing property and a property whose value is null (NullPointerException) are preconditions, not modelled as errors. The preconditions are `Filter.Defined` (with `Filter.MemberDefined`), `Processor.FilterDefined`, `Processor.NextIdsDefined`, `Processor.MaxPageSizeDefined`, `Processor.HasKeys` and `Provider.ScanDefined`.
- Processor.ApplyFilter: the `catch (ExpressionVisitException)` that turns such an exception into status 500 is not modelled. The modelled visitor only raises `ODataApplicationException`.
- **JSON and numbers.**
  - JSON string escaping is not modelled: a stored string's text is the string in double quotes.
  - A stored fractional number, object or array is `Store.JOther`, carried only by its `toString()` text; that text is all `removeEntryByKey` looks at.
  - Non-integral numbers (Double, BigDecimal) and any other runtime class are `VOther`, compared only by class. A `VOther` that is a `java.lang.Number` carries its `toLong()`, which is what key copying on update stores.
- Filter.CompareStrings and Text.ParseDecimal: strings are sequences of Unicode scalar values, so `String.compareTo` is modelled on scalar values rather than on UTF-16 code units (the two orders differ once a character outside the Basic Multilingual Plane is involved, e.g. "\uFFFF" against "\U{10000}"), and `toInt`/`toLong` accept only ASCII digits where Java accepts every Unicode decimal digit.
- **Dates.** A Calendar or Date is its instant in milliseconds plus its `toString` text. Time zones and calendar fields are not modelled.
