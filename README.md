# Relay pagination of the Tauri GraphQL todo backend, in Dafny

This project models the part of the todo backend that has a contract: the Relay-style
pagination layer and what it depends on. It covers these pieces:

- the opaque `Cursor` token, which is base64url of the text `"{created_at}:{id}"`;
- the rules `Pagination::validate` uses to accept or refuse `first`/`after`/`last`/`before`,
  and the page size `limit()`;
- the connection builder and the order of steps in `Connection::new`;
- the `ID`, `Integer`, `Timestamp` and `Boolean` scalar codecs;
- the `Todo` record and its cursor;
- the `TodoRepository`, modelled over an in-memory table.

The encodings under the codecs are written out and specified:

- unpadded base64url as in section 5 of RFC 4648;
- UTF-8 as in RFC 3629, matching `std::str::from_utf8`;
- Rust's `i64` `Display` and `FromStr`;
- `i64::to_be_bytes`;
- the `as` casts between `usize`, `i64` and `i32`.

The modules, in dependency order:

| module | file | what it holds |
|---|---|---|
| `Wrappers` | `wrappers.dfy` | `Option`, `Result`, `Outcome` |
| `Machine` | `machine.dfy` | `i64`/`i32`/`u8`, `as i32` truncation, `i32 as usize` sign extension |
| `Decimal` | `decimal.dfy` | `i64` to text and text to `i64`, with the four `ParseIntError` kinds an `i64` parse can produce |
| `Base64Url` | `base64url.dfy` | unpadded, canonical base64url |
| `Utf8` | `utf8.dfy` | UTF-8 encoding and the strict decoder |
| `Scalar` | `scalar.dfy` | the GraphQL wire values and the scalar codecs |
| `RelayCursor` | `cursor.dfy` | the cursor, its text codec and its scalar |
| `RelayPagination` | `pagination.dfy` | `Pagination`, `validate`, `limit` |
| `Relay` | `relay.dfy` | edges, page info, `build_connection`, `Connection::new` |
| `TodoModel` | `todo_model.dfy` | `Todo` and `ConnectionNode::cursor` |
| `TodoRepo` | `todo_repo.dfy` | the table, the keyset query of `list_todos`, the mutators as a class |
| `TodoPages` | `todo_pages.dfy` | `list_todos` feeding `build_connection`, end to end |

The repository is a class. Its `rows` field is the `todos` table and its `lastRowId`
field is the table's AUTOINCREMENT counter.

- Each UPDATE and DELETE method runs its statement with a loop over the rows. It
  returns "rows affected > 0".
- Each UPDATE method is proved against the function `Changed`, and each DELETE method
  against `Keep`.
- The constraint the table keeps is `TodoRepository.Valid()`: the primary key is unique
  (`UniqueIds`), and every id is one the counter handed out (`IdsUpTo`).
- `list_todos` builds its SQL text and arguments step by step, as the source does.
  The builder's contract ties the text to the rows it selects: it returns the
  `Plan` (filter, order, limit) that the text stands for. The rows returned are
  `Run(rows, plan)`.

Known quirk, kept as written: `list_todos` fetches exactly `limit()` rows, not
`limit() + 1`. So `build_connection` never sees more nodes than were asked for, and on
the end-to-end path `hasNextPage` and `hasPreviousPage` are always false.
`TodoPages.NoFurtherPages` states this.

Three behaviours of the code worth noting:

- The order is descending exactly when `last` is given. `before` alone does not
  reverse it (`src-tauri/src/repositories/todo.rs:135-139`).
- When both cursors are given, `after` decides the filter and `before` is ignored
  (`src-tauri/src/repositories/todo.rs:116-134`).
- Cursor decoding is not canonical, as `parse::<i64>` accepts a '+' and leading zeros:
  `"+5:007"` and `"5:7"` give the same cursor (`src-tauri/src/graphql/relay/cursor.rs:46-50`,
  `RelayCursor.ParseTextNotCanonical`). The `ID` codec, by contrast, is canonical
  (`Scalar.IdInputIsCanonical`).

## Model

| member | source | states |
|---|---|---|
| Machine.TruncateToI32 | src-tauri/src/graphql/scalar.rs:37 | `x as i32` keeps the value modulo 2^32 and is the identity inside the `i32` range |
| Machine.I32AsUsize | src-tauri/src/graphql/relay/mod.rs:33 | `take_length as usize` is the value itself when it is not negative; a negative value becomes a count of at least 2^64 - 2^31, equal to it modulo 2^64 |
| Machine.MinI32 | src-tauri/src/graphql/relay/mod.rs:29 | `i32::min` is the smaller of the two arguments |
| Decimal.NatToText | src-tauri/src/graphql/scalar.rs:86-90 | the decimal digits of a number: never empty, digits only, a leading zero only for 0 |
| Decimal.I64ToText | src-tauri/src/graphql/scalar.rs:136-140 | `Display` of an `i64`: digits, with a '-' in front exactly for negative values |
| Decimal.ParseI64 | src-tauri/src/graphql/relay/cursor.rs:48-49 | `str::parse::<i64>` fails with `Empty` exactly on the empty string; what else it accepts and returns is stated by `ParseI64Sound` |
| Decimal.NatToTextValue | src-tauri/src/graphql/scalar.rs:136-140 | the digits of a number read back give the number |
| Decimal.ScanDigitsValue | src-tauri/src/graphql/relay/cursor.rs:48-49 | the digit loop accepts a digit string whose value stays within the bound and returns that value |
| Decimal.ParseI64OfText | src-tauri/src/graphql/relay/cursor.rs:36-49 | parsing the text that `Display` writes for any `i64` gives the same `i64` |
| Decimal.ScanDigitsRejectsNonDigit | src-tauri/src/graphql/relay/cursor.rs:48-49 | a character that is not a digit makes the digit loop fail |
| Decimal.ParseI64RejectsNonDigit | src-tauri/src/graphql/relay/cursor.rs:48-49 | any character other than a digit or a leading sign makes the parse fail, with `InvalidDigit` or the sign's overflow kind |
| Decimal.ScanDigitsSound | src-tauri/src/graphql/relay/cursor.rs:48-49 | whatever the digit loop accepts is a digit string, and the result is its value |
| Decimal.ScanDigitsOverflow | src-tauri/src/graphql/scalar.rs:42-44 | a digit string whose value exceeds the bound makes the digit loop fail with the overflow error |
| Decimal.ParseI64Sound | src-tauri/src/graphql/scalar.rs:42-44 | `parse::<i64>` accepts exactly an optional sign followed by a nonempty digit string, leading zeros allowed, whose value fits (up to 2^63 - 1, or 2^63 after '-'); the result is that value, negated after '-'; a digit string that does not fit gives `PosOverflow`, or `NegOverflow` after '-' |
| Decimal.ParseI64NonCanonical | src-tauri/src/graphql/relay/cursor.rs:48-49 | texts `Display` never writes are accepted too: `"+5"` is 5, `"007"` is 7, `"-0"` is 0 |
| Decimal.ScanDigitsInvalidDigit | src-tauri/src/graphql/scalar.rs:42-44 | the digit loop fails with `InvalidDigit` at the first non-digit when the digits before it stay within the bound |
| Decimal.ScanDigitsOverflowPrefix | src-tauri/src/graphql/scalar.rs:42-44 | the digit loop fails with the overflow error as soon as the digits read exceed the bound, whatever follows |
| Decimal.ParseI64InvalidDigit | src-tauri/src/graphql/scalar.rs:42-44 | a non-digit after the optional sign gives `InvalidDigit` when the digits before it fit in an `i64` |
| Decimal.ParseI64OverflowBeforeNonDigit | src-tauri/src/graphql/scalar.rs:42-44 | a text whose leading digits already exceed the `i64` range reports `PosOverflow`, not `InvalidDigit`, although a non-digit follows |
| Base64Url.SextetOf | src-tauri/src/graphql/relay/cursor.rs:44 | the alphabet of RFC 4648 section 5: a character's 6-bit value, inverse to the table |
| Base64Url.SextetOfCharOf | src-tauri/src/graphql/relay/cursor.rs:36 | every 6-bit value's character maps back to that value |
| Base64Url.Encode | src-tauri/src/graphql/relay/cursor.rs:36 | `base64_url::encode`; its contract is carried by `EncodeLength`, `EncodeInAlphabet` and `DecodeEncode` |
| Base64Url.Decode | src-tauri/src/graphql/relay/cursor.rs:44 | `base64_url::decode`; its contract is carried by `DecodeLength`, `EncodeDecode`, `DecodeRejectsForeignChar` and `DecodeRejectsLength` |
| Base64Url.EncodeLength | src-tauri/src/graphql/relay/cursor.rs:36 | unpadded encoding: the output length is ceil(4n/3) for n bytes |
| Base64Url.DecodeLength | src-tauri/src/graphql/relay/cursor.rs:44 | decoding an accepted string gives floor(3m/4) bytes for m characters |
| Base64Url.GroupRoundTrip | src-tauri/src/graphql/relay/cursor.rs:36-44 | a full group of three bytes decodes back to the same bytes |
| Base64Url.Tail1RoundTrip | src-tauri/src/graphql/relay/cursor.rs:36-44 | a final single byte decodes back to itself |
| Base64Url.Tail2RoundTrip | src-tauri/src/graphql/relay/cursor.rs:36-44 | a final pair of bytes decodes back to itself |
| Base64Url.GroupStrict | src-tauri/src/graphql/relay/cursor.rs:44 | a group that decodes is the encoding of what it decodes to |
| Base64Url.Tail1Strict | src-tauri/src/graphql/relay/cursor.rs:44 | a two-character tail decodes only when its unused bits are zero, and then it is the encoding of its byte |
| Base64Url.Tail2Strict | src-tauri/src/graphql/relay/cursor.rs:44 | a three-character tail decodes only when its unused bits are zero, and then it is the encoding of its bytes |
| Base64Url.DecodeEncode | src-tauri/src/graphql/relay/cursor.rs:36-44 | decoding the encoding of any bytes gives the bytes back |
| Base64Url.EncodeDecode | src-tauri/src/graphql/relay/cursor.rs:44 | every accepted string is the encoding of its result, so each byte string has exactly one accepted text |
| Base64Url.DecodeRejectsForeignChar | src-tauri/src/graphql/relay/cursor.rs:44 | a character outside the alphabet, '=' included, makes decoding fail |
| Base64Url.DecodeRejectsLength | src-tauri/src/graphql/relay/cursor.rs:44 | a string whose length has the form 4k+1 is refused |
| Base64Url.EncodeInAlphabet | src-tauri/src/graphql/relay/cursor.rs:36 | every character of an encoding is in the URL-safe alphabet |
| Utf8.EncodeChar | src-tauri/src/graphql/relay/cursor.rs:36 | a character takes one to four bytes |
| Utf8.DecodeChar | src-tauri/src/graphql/relay/cursor.rs:45 | a character read from the front takes at least one byte and no more bytes than are there; that those bytes are the character's shortest encoding is `DecodeCharStrict` |
| Utf8.DecodeCharStrict | src-tauri/src/graphql/relay/cursor.rs:45 | the bytes the decoder takes for a character are exactly that character's shortest encoding, so overlong forms, surrogates and values above U+10FFFF are refused |
| Utf8.Encode | src-tauri/src/graphql/relay/cursor.rs:36 | `as_bytes`; its contract is carried by `DecodeEncode` and `DecodeStrict` |
| Utf8.Decode | src-tauri/src/graphql/relay/cursor.rs:45 | `std::str::from_utf8`; its contract is carried by `DecodeEncode`, `DecodeStrict` and `DecodeRejectsBadLead` |
| Utf8.DecodeEncodeChar | src-tauri/src/graphql/relay/cursor.rs:36-45 | one character's bytes decode back to it, whatever follows |
| Utf8.DecodeEncode | src-tauri/src/graphql/relay/cursor.rs:36-45 | the bytes of any string are valid UTF-8 and decode back to the string |
| Utf8.DecodeStrict | src-tauri/src/graphql/relay/cursor.rs:45 | every byte sequence `from_utf8` accepts is the encoding of the text it returns |
| Utf8.DecodeRejectsBadLead | src-tauri/src/graphql/relay/cursor.rs:45 | a byte that cannot start a character makes `from_utf8` fail |
| Scalar.AsStringValue | src-tauri/src/graphql/relay/cursor.rs:19 | only a string scalar has a string value |
| Scalar.IdFromI64 | src-tauri/src/graphql/scalar.rs:126-130 | `ID::from(i64)` holds the given value |
| Scalar.I64FromId | src-tauri/src/graphql/scalar.rs:131-135 | `i64::from(ID)` is the held value |
| Scalar.TimestampFromI64 | src-tauri/src/graphql/scalar.rs:76-80 | `Timestamp::from(i64)` holds the given value |
| Scalar.I64FromTimestamp | src-tauri/src/graphql/scalar.rs:81-85 | `i64::from(Timestamp)` is the held value |
| Scalar.IdEqualsI64 | src-tauri/src/graphql/scalar.rs:150-154 | `ID == i64` is true exactly when the held value is the `i64` |
| Scalar.BooleanFromI64 | src-tauri/src/graphql/scalar.rs:170-174 | `Boolean::from(i64)` is true exactly when the integer is nonzero |
| Scalar.BooleanFromBool | src-tauri/src/graphql/scalar.rs:160-164 | `Boolean::from(bool)` holds the flag |
| Scalar.BoolFromBoolean | src-tauri/src/graphql/scalar.rs:165-169 | `bool::from(Boolean)` is the held flag |
| Scalar.IdConversionsInverse | src-tauri/src/graphql/scalar.rs:126-135 | the two `ID`/`i64` conversions are mutual inverses |
| Scalar.TimestampConversionsInverse | src-tauri/src/graphql/scalar.rs:76-85 | the two `Timestamp`/`i64` conversions are mutual inverses |
| Scalar.ToBeBytes | src-tauri/src/graphql/scalar.rs:108 | `i64::to_be_bytes` gives 8 bytes whose big-endian value is the two's complement of the `i64` |
| Scalar.FromBeBytes | src-tauri/src/graphql/scalar.rs:118 | `i64::from_be_bytes`; its contract is carried by `BeBytesRoundTrip` |
| Scalar.FromBigEndianOf | src-tauri/src/graphql/scalar.rs:108-118 | writing a number as n big-endian bytes and reading them back gives the number |
| Scalar.BigEndianOf | src-tauri/src/graphql/scalar.rs:108-118 | reading bytes and writing the value back as bytes gives the same bytes |
| Scalar.BeBytesRoundTrip | src-tauri/src/graphql/scalar.rs:108-118 | `from_be_bytes` and `to_be_bytes` are mutual inverses on `i64` and 8-byte arrays |
| Scalar.IdToOutput | src-tauri/src/graphql/scalar.rs:107-110 | an `ID` is sent as an 11-character string that decodes to the 8 big-endian bytes of its value |
| Scalar.IdFromInput | src-tauri/src/graphql/scalar.rs:111-113 | a non-string input is refused with "Expected `String`" before any decoding |
| Scalar.IdRoundTrip | src-tauri/src/graphql/scalar.rs:107-124 | `from_input` of `to_output(id)` gives back `id` |
| Scalar.IdInputIsCanonical | src-tauri/src/graphql/scalar.rs:111-124 | an `ID` string is accepted exactly when it is the output of the `ID` it decodes to |
| Scalar.IdInputErrors | src-tauri/src/graphql/scalar.rs:115-121 | a string that is not base64url is refused as an invalid ID; valid base64url that is not 11 characters long, so not 8 bytes, is refused with "Invalid byte length" |
| Scalar.IntegerToOutput | src-tauri/src/graphql/scalar.rs:35-38 | `Integer` is sent as an `Int` holding `v as i32`, the low 32 bits in two's complement |
| Scalar.IntegerFromInput | src-tauri/src/graphql/scalar.rs:39-46 | a non-string is refused; a string is accepted exactly when it parses as an `i64`, and then gives that value; otherwise the parse error is reported |
| Scalar.IntegerFromDecimalText | src-tauri/src/graphql/scalar.rs:39-46 | the decimal text of any `i64`, sent as a string, is read as that value |
| Scalar.IntegerOutputIsNotAnInput | src-tauri/src/graphql/scalar.rs:35-46 | what `to_output` writes (an `Int`) is refused by `from_input`, which accepts only strings |
| RelayCursor.Text | src-tauri/src/graphql/relay/cursor.rs:36 | the text `"{created_at}:{id}"`; its contract is carried by `SplitText` and `EncodeFormat` |
| RelayCursor.Encode | src-tauri/src/graphql/relay/cursor.rs:34-37 | the cursor string is base64url of the UTF-8 bytes of `"{created_at}:{id}"` |
| RelayCursor.Decode | src-tauri/src/graphql/relay/cursor.rs:40-52 | `Cursor::try_from(&str)`; its contract is carried by `DecodeEncode`, `DecodeFailures`, `DecodeRejectsBadNumber`, `DecodeRejectsSecondColon` and `DecodeSound` |
| RelayCursor.ParseText | src-tauri/src/graphql/relay/cursor.rs:46-50 | the split and the two `parse::<i64>` calls of `try_from`; its contract is carried by `ParseTextSound`, `ParseTextRejectsBadNumber`, `ParseTextRejectsSecondColon` and `ParseTextNotCanonical` |
| RelayCursor.SplitOnce | src-tauri/src/graphql/relay/cursor.rs:46 | `split_once` finds nothing exactly when the separator is absent; otherwise the text is left + separator + right, with no separator in the left part |
| RelayCursor.ToOutput | src-tauri/src/graphql/relay/cursor.rs:15-17 | a cursor is sent as a string scalar that is valid base64url |
| RelayCursor.FromInput | src-tauri/src/graphql/relay/cursor.rs:18-25 | a non-string input is refused before decoding; a string is accepted exactly when `try_from` accepts it, with the same cursor |
| RelayCursor.SplitText | src-tauri/src/graphql/relay/cursor.rs:36-46 | the cursor text splits at its own ':' into the decimal `created_at` and the decimal `id` |
| RelayCursor.SplitPrefixUnique | src-tauri/src/graphql/relay/cursor.rs:46 | the split at the first separator is unique |
| RelayCursor.DecodeEncode | src-tauri/src/graphql/relay/cursor.rs:34-51 | decoding the encoding of any cursor gives the same `id` and `created_at` |
| RelayCursor.EncodeInjective | src-tauri/src/graphql/relay/cursor.rs:34-37 | two cursors have the same string exactly when they are equal |
| RelayCursor.ScalarRoundTrip | src-tauri/src/graphql/relay/cursor.rs:15-25 | the cursor scalar reads back what it writes |
| RelayCursor.DecodeFailures | src-tauri/src/graphql/relay/cursor.rs:43-46 | "Invalid cursor format" when the text is not base64url, when the bytes are not UTF-8, and when there is no ':' |
| RelayCursor.ParseTextRejectsSecondColon | src-tauri/src/graphql/relay/cursor.rs:46-50 | a text with a second ':' is refused, because the id part after the first ':' then is not an `i64` |
| RelayCursor.DecodeRejectsSecondColon | src-tauri/src/graphql/relay/cursor.rs:46-50 | a cursor string whose decoded text has a second ':' is refused |
| RelayCursor.ParseTextRejectsBadNumber | src-tauri/src/graphql/relay/cursor.rs:46-50 | when the part before or the part after the first ':' is not an `i64`, the text is refused |
| RelayCursor.DecodeRejectsBadNumber | src-tauri/src/graphql/relay/cursor.rs:43-50 | a cursor string whose decoded text has a side of its first ':' that is not an `i64` is refused |
| RelayCursor.ParseTextSound | src-tauri/src/graphql/relay/cursor.rs:46-50 | a text is accepted exactly when it has a ':' and both sides of the first one parse as `i64`; `created_at` is the left value and `id` the right one |
| RelayCursor.DecodeSound | src-tauri/src/graphql/relay/cursor.rs:43-50 | an accepted cursor string is base64url of valid UTF-8 whose text is accepted, with the same cursor |
| RelayCursor.ParseTextNotCanonical | src-tauri/src/graphql/relay/cursor.rs:46-50 | decoding is not canonical: `"+5:007"` and `"5:7"` give the same cursor |
| RelayCursor.EncodeFormat | src-tauri/src/graphql/relay/cursor.rs:34-37 | the cursor string decodes to the decimal `created_at`, a ':', then the decimal `id` |
| RelayPagination.Limit | src-tauri/src/graphql/relay/pagination.rs:61-63 | the page size is `first` if given, else `last` if given, else 10 |
| RelayPagination.Validate | src-tauri/src/graphql/relay/pagination.rs:14-58 | `Pagination::validate`; its contract is carried by `ValidateAcceptsLegal` and `ValidateErrors` |
| RelayPagination.ValidateAcceptsLegal | src-tauri/src/graphql/relay/pagination.rs:14-58 | `validate` accepts exactly the combinations with no negative size, not both sizes, no `first` with `before` and no `last` with `after`; this includes `after` with `before`, and no arguments at all |
| RelayPagination.ValidateErrors | src-tauri/src/graphql/relay/pagination.rs:19-55 | for each of the five errors, the exact combinations that report it, in match order: a negative `first` first, then a negative `last`, then both sizes, then `first` with `before`, then `last` with `after` |
| RelayPagination.LimitOfValid | src-tauri/src/graphql/relay/pagination.rs:19-34 | after a successful `validate` the page size is at least 0, and 10 when no size is given |
| Relay.KeptCount | src-tauri/src/graphql/relay/mod.rs:22-33 | the number of nodes kept is at most the number loaded, and `min(len, limit)` when len fits an `i32` and the limit is not negative |
| Relay.BuildConnection | src-tauri/src/graphql/relay/mod.rs:17-49 | the edges are the first kept nodes in order, each with its own node's cursor; the total is passed through; the start and end cursors are those of the first and last edge, or absent with no edges |
| Relay.PageFlags | src-tauri/src/graphql/relay/mod.rs:22-26 | for fewer than 2^31 nodes (where `len as i32` is exact): `hasNextPage` exactly when `first` is given and more nodes came than it; `hasPreviousPage` likewise for `last`; with neither, both are false |
| Relay.PageEdges | src-tauri/src/graphql/relay/mod.rs:29-44 | for fewer than 2^31 nodes and a non-negative `limit()`: the edges are the `min(len, limit)` first nodes, in order, with their own cursors |
| Relay.New | src-tauri/src/graphql/relay/mod.rs:51-75 | invalid arguments fail before any load; then the loader runs; the total loader runs only when `totalCount` is selected; a load error is returned as is; on success the result is `build_connection` of the loaded nodes, with total 0 when not selected |
| TodoModel.Todo.Cursor | src-tauri/src/models/todo.rs:29-32 | the cursor of a todo holds its `id` and its `created_at` |
| TodoModel.CursorTextIdentifiesKey | src-tauri/src/models/todo.rs:29-32 | two todos have the same cursor string exactly when they agree on `id` and `created_at` |
| TodoRepo.Keep | src-tauri/src/repositories/todo.rs:65-90 | the rows kept by a condition are exactly the rows of the table that satisfy it, no more than the table holds |
| TodoRepo.Count | src-tauri/src/repositories/todo.rs:44 | the rows affected are positive exactly when some row satisfies the condition |
| TodoRepo.Changed | src-tauri/src/repositories/todo.rs:32-63 | an UPDATE keeps the number of rows and changes each row the condition selects, leaving every other row as it was |
| TodoRepo.KeepCount | src-tauri/src/repositories/todo.rs:65-90 | the rows a DELETE keeps plus the rows it affects are all the rows |
| TodoRepo.KeepUniqueIds | src-tauri/src/repositories/todo.rs:65-90 | deleting rows keeps the primary key unique |
| TodoRepo.ChangedKeepsIds | src-tauri/src/repositories/todo.rs:32-63 | an UPDATE that leaves ids alone keeps the key unique and every id one that was handed out |
| TodoRepo.CountIdAtMostOne | src-tauri/src/repositories/todo.rs:37 | with a unique key, `WHERE id = ?` matches at most one row |
| TodoRepo.Insert | src-tauri/src/repositories/todo.rs:135-139 | inserting a row adds exactly that row to the multiset |
| TodoRepo.InsertSorted | src-tauri/src/repositories/todo.rs:135-139 | inserting into a sorted sequence keeps it sorted |
| TodoRepo.Sort | src-tauri/src/repositories/todo.rs:135-139 | `ORDER BY id, created_at` gives a permutation of the rows that is sorted in the direction asked for |
| TodoRepo.ApplyLimit | src-tauri/src/repositories/todo.rs:140-141 | `LIMIT n` gives a prefix of n rows, or all rows when there are fewer; a negative limit gives all rows |
| TodoRepo.Joined | src-tauri/src/repositories/todo.rs:113-140 | a text built by appending starts with what came first and ends with what came last |
| TodoRepo.WhereClauseText | src-tauri/src/repositories/todo.rs:117-131 | with no arguments yet, the keyset condition uses the placeholders `?1` and `?2` |
| TodoRepo.KeysetCondition | src-tauri/src/repositories/todo.rs:116-134 | the condition text and its arguments are those of the filter the plan uses: `after` if given, else `before`, else none |
| TodoRepo.BuildListQuery | src-tauri/src/repositories/todo.rs:113-141 | the text and the arguments built step by step are those of the plan `Select` runs |
| TodoRepo.ListQueryShape | src-tauri/src/repositories/todo.rs:113-141 | with `after`, the text starts with the SELECT and `(id, created_at) > (?1, ?2)`, bound to the cursor's id and timestamp; with only `before`, the same with `<`; with neither, the ORDER BY follows the SELECT and the limit is the only argument; every text ends with the ORDER BY of the direction and `LIMIT ?n`, where the n-th and last argument is `limit()` |
| TodoRepo.SelectFilters | src-tauri/src/repositories/todo.rs:116-134 | every row returned is in the table; with `after`, its `(id, created_at)` is lexicographically greater than the cursor's pair; with `before` and no `after`, smaller |
| TodoRepo.AfterWinsOverBefore | src-tauri/src/repositories/todo.rs:116-125 | when `after` is given, `before` makes no difference |
| TodoRepo.SelectOrder | src-tauri/src/repositories/todo.rs:135-139 | the rows are sorted by `(id, created_at)`, descending exactly when `last` is given |
| TodoRepo.SelectSize | src-tauri/src/repositories/todo.rs:140-141 | the number of rows is the smaller of `limit()` and the number of matching rows, or all matching rows for a negative limit |
| TodoRepo.SelectIsFront | src-tauri/src/repositories/todo.rs:116-141 | a matching row that is not returned comes, in the query's order, after every row that is |
| TodoRepo.TodoRepository.AddTodo | src-tauri/src/repositories/todo.rs:16-30 | the new row has the next AUTOINCREMENT id, the given description, is not done, is stamped now, and is appended; the id is new and is returned; when the counter is at the `i64` maximum the insert fails and nothing changes |
| TodoRepo.UpdateRows | src-tauri/src/repositories/todo.rs:32-63 | scanning the rows of an UPDATE one by one yields `Changed` of the table and the number of matching rows |
| TodoRepo.DeleteRows | src-tauri/src/repositories/todo.rs:65-90 | scanning the rows of a DELETE one by one keeps the non-matching rows in order and counts the matching ones |
| TodoRepo.TodoRepository.Update | src-tauri/src/repositories/todo.rs:32-63 | an UPDATE turns the table into `Changed` of it and returns the number of matching rows; the key stays valid |
| TodoRepo.TodoRepository.Delete | src-tauri/src/repositories/todo.rs:65-90 | a DELETE keeps exactly the rows that do not match, in order, and returns the number of matching rows |
| TodoRepo.TodoRepository.CompleteTodo | src-tauri/src/repositories/todo.rs:32-47 | only the `done` field of the row with that id changes, and every other row stays as it was; the result is true exactly when such a row exists |
| TodoRepo.TodoRepository.EditTodo | src-tauri/src/repositories/todo.rs:92-107 | only the `description` field of the row with that id changes, and every other row stays as it was; the result is true exactly when such a row exists |
| TodoRepo.TodoRepository.ToggleAll | src-tauri/src/repositories/todo.rs:49-63 | afterwards every row has `done = d` and nothing else changed; the result is true exactly when some row's `done` differed |
| TodoRepo.TodoRepository.RemoveTodo | src-tauri/src/repositories/todo.rs:65-77 | exactly the row with that id is gone, and the others keep their order; the result is true exactly when it existed, and then the table is one row shorter |
| TodoRepo.TodoRepository.ClearCompleted | src-tauri/src/repositories/todo.rs:79-90 | exactly the done rows are gone, and the not-done rows keep their order; the result is true exactly when there was a done row |
| TodoRepo.TodoRepository.ListTodos | src-tauri/src/repositories/todo.rs:109-154 | the rows returned are `Select` of the table for the arguments (filter, order and limit as above) |
| TodoRepo.TodoRepository.Total | src-tauri/src/repositories/todo.rs:156-161 | `COUNT(*) as i32` is the number of rows, whatever the pagination, exact below 2^31 and modulo 2^32 above it |
| TodoPages.NoFurtherPages | src-tauri/src/repositories/todo.rs:140-141 | end to end, for accepted arguments, neither `hasNextPage` nor `hasPreviousPage` is ever true, because at most `limit()` rows are fetched |
| TodoPages.EveryRowIsAnEdge | src-tauri/src/graphql/relay/mod.rs:29-38 | end to end, the builder truncates nothing: each fetched row becomes an edge, in order, carrying its own cursor |

## Left out

- The body of the `base64_url` helper is not part of this model. `Base64Url` implements
  unpadded base64url as in section 5 of RFC 4648, with canonical decoding: '=' is
  refused, and the unused bits of the last character are zero. The error text of a
  base64 failure inside an "Invalid ID" message is not modelled. Only the error's kind is.
- `Timestamp`'s RFC 3339 `to_output`/`from_input` rely on calendar arithmetic. In this
  model `Timestamp` is an opaque `i64`.
- The `Float` scalar is present only as a tag, without its value (floating point).
- The sqlx `Encode`/`Decode`/`Type` impls are left out (foreign traits). `Todo.done` is a
  plain `bool` that the store decodes. `Scalar.BooleanFromI64` models the `From<i64>`
  conversion of `Boolean` and nothing more.
- The migrations are not part of this model. The table layout is assumed:
  - `id` is an `INTEGER PRIMARY KEY AUTOINCREMENT`;
  - `done` defaults to false;
  - `created_at` defaults to the insert time, which `AddTodo` takes as a parameter.
- SQLite behaviour modelled by assumption:
  - a new id is one more than the largest id ever handed out;
  - at the `i64` maximum the insert fails;
  - a negative `LIMIT` means no limit;
  - rows affected counts every row the WHERE clause matches.
- SQL execution is left out: the connection pool, async/await, the store's I/O errors
  and the error logging in `list_todos`. The model never fails to reach the store. The
  query text is built as in the source, and `Run` gives what it selects.
- `TodoRepo.TodoRepository.ListTodos` runs the plan its query text stands for. The
  model does not parse SQL.
- In `Connection::new`, the juniper look-ahead is modelled as the list of selected field
  names. The two loaders are model functions and their results are parameters.
- `schema.rs`, the Tauri command, the context, `lib.rs`, `main.rs` and `state.rs` are
  wiring and I/O. So are the juniper glue in `connection.rs` and `edge.rs` (type
  registration and field dispatch) and the UI. None are modelled.
- The `Todo` accessors return its fields unchanged. They are the fields of the
  `TodoModel.Todo` datatype, not separate functions.
- `Utf8.Decode` gives the text or nothing. The position in `Utf8Error` is not modelled,
  since the cursor decoder discards it.
