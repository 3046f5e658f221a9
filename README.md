# Personal-data logging, Basic authentication and the user store

This project models, in Dafny, the core of a small Python back end for user data:

- **Log redaction** (`0x00-personal_data/filtered_logger.py`). `filter_datum` rewrites a log line once per field. Each pass is the substitution of `field=[^;]+` by the matched text followed by `separator + redaction`. `RedactingFormatter` applies it with the fixed token `***` and the separator `;`. `PII_FIELDS` is the default field list.
- **HTTP Basic authentication** (`0x01-Basic_authentication/api/v1/auth/basic_auth.py`). The chain runs from an `Authorization` header to a user:
  - strip the `Basic ` prefix;
  - base 64 decode (section 4 of RFC 4648), then UTF-8 decode (RFC 3629);
  - split at the first `:`;
  - look the email up and check the password.
- **The user table** (`0x03-user_authentication_service/user.py` and `db.py`).
  - A `User` row has five columns.
  - `DatabaseHandler` starts with an empty table.
  - It adds a row with a fresh key.
  - It finds the first row that satisfies a conjunction of column equalities.
  - It overwrites named columns of the row with a given id. When the UPDATE fails, no row changes.

Files:

- `wrappers.dfy`: `Option`, `Result` and `Outcome`, plus the `Byte` type.
- `filtered_logger.dfy`: the pattern match, one substitution pass (`Pass`) and its chunk structure, the fold over the fields (`FilterAll`), the looping `FilterDatum` method, and the formatter class.
- `base64.dfy` and `utf8.dfy`: the two decoders and their encoders. For both, decoding is proved to undo encoding. For UTF-8 the converse holds as well, so the UTF-8 decoder is the exact inverse of its encoder. For base 64 it does not: the pad bits of a final group are not checked, so `YR==` decodes to the same octet as `YQ==`.
- `basic_auth.dfy`: the five stages and `current_user`. The user store (`User.search`) is a sequence of users with an email accessor. The password check (`is_valid_password`) is a predicate parameter.
- `user.dfy`: columns, values, rows, reading and writing one column, and applying an update map.
- `db.dfy`: the specification of each query (`FindSpec`, `UpdateSpec`) and the class `DatabaseHandler`, whose `users` field holds the rows. Each method is proved equal to its specification. The lemmas state what the specifications promise.

Points where the code's behaviour is easy to misread:

- `filter_datum` (filtered_logger.py:14-33) is documented as obfuscating fields. Its substitution keeps the matched `field=value` and inserts the token after it: `password=abc123;user=bob` becomes `password=abc123;***;user=bob` (`ExampleValueKept`).
- `update_user` looks the row up first (db.py:91), and `find_user_by` raises `NoResultFound` when no row has the id. So an unknown id raises, and the `if user is None: return` at db.py:92-93 is never reached (`UpdateUnknownId`).
- The row lookup at db.py:91 comes before the update names are checked at db.py:95-99. An unknown id with an unknown name raises `NoResultFound`, not `ValueError`.
- The `email` column (user.py:34) carries no unique constraint. Lookups answer the earliest row with the email (`FindFirstOfSharedEmail`).
- Basic authentication looks users up through `User.search` (basic_auth.py:39), which may return several users with one email. Only the first of them is tried (`OnlyFirstUserTried`).

## Model

| member | source | states |
|---|---|---|
| FilteredLogger.Pass | 0x00-personal_data/filtered_logger.py:28-32 | one `re.sub` pass, scanning left to right; its properties are the lemmas below (`PassIsJoin`, `PassStep`, `PassLength`, `PassUnchanged`) |
| FilteredLogger.FilterAll | 0x00-personal_data/filtered_logger.py:27-33 | `filter_datum` as the passes of the fields applied in list order; characterised by `FilterAllCons`, `FilterAllNoMatch` and `FilterAllGrows` |
| FilteredLogger.RunLength | 0x00-personal_data/filtered_logger.py:29 | the `[^;]*` run stops at the first `;` or at the end, and holds no `;` |
| FilteredLogger.MatchAt | 0x00-personal_data/filtered_logger.py:29 | `field=[^;]+` matches at the start exactly when the text starts with the pattern and a non-`;` follows; a match runs greedily to the next `;` or the end |
| FilteredLogger.FilterDatum | 0x00-personal_data/filtered_logger.py:14-33 | the loop's result is the fold of one substitution pass per field, in list order |
| FilteredLogger.PassIsJoin | 0x00-personal_data/filtered_logger.py:28-32 | one pass is the input cut into chunks, joined by `separator + redaction` |
| FilteredLogger.Chunks | 0x00-personal_data/filtered_logger.py:28-32 | the chunks concatenate back to the input |
| FilteredLogger.ChunksEndWithMatches | 0x00-personal_data/filtered_logger.py:29 | every chunk but the last ends with a complete match of the pattern and no earlier match starts in it; the last chunk holds no match, so the text is inserted after every match and nowhere else |
| FilteredLogger.PassLength | 0x00-personal_data/filtered_logger.py:28-32 | a pass lengthens the line by the inserted text once per match |
| FilteredLogger.MatchCountZero | 0x00-personal_data/filtered_logger.py:29 | there are zero matches exactly when the pattern matches nowhere |
| FilteredLogger.PassUnchanged | 0x00-personal_data/filtered_logger.py:28-32 | a pass leaves the line unchanged exactly when the inserted text is empty or nothing matches |
| FilteredLogger.FilterAllCons | 0x00-personal_data/filtered_logger.py:27-32 | the first field is applied first and the rest work on its output |
| FilteredLogger.FilterAllNoMatch | 0x00-personal_data/filtered_logger.py:27-33 | a line in which no field's pattern matches comes back unchanged |
| FilteredLogger.FilterAllGrows | 0x00-personal_data/filtered_logger.py:27-33 | redaction never shortens a line: nothing is deleted |
| FilteredLogger.PassSkip | 0x00-personal_data/filtered_logger.py:28-32 | text before the first match is copied through unchanged |
| FilteredLogger.PassStep | 0x00-personal_data/filtered_logger.py:28-32 | at a match, the pass keeps `field=value`, inserts `separator + redaction` right after the value, and continues on the rest of the line, whatever further matches it holds |
| FilteredLogger.ExampleTwoValues | 0x00-personal_data/filtered_logger.py:27-33 | `password=a;password=b` becomes `password=a;***;password=b;***`: every occurrence is redacted in one pass |
| FilteredLogger.PassOverValue | 0x00-personal_data/filtered_logger.py:29-30 | a matched `field=value` is kept and the token is inserted right after the value |
| FilteredLogger.RedactsOneValue | 0x00-personal_data/filtered_logger.py:29-30 | for one field occurring once, the output is the input with `separator + redaction` inserted after the value, at the next `;` or the end |
| FilteredLogger.ExampleValueKept | 0x00-personal_data/filtered_logger.py:29-30 | `password=abc123;user=bob` becomes `password=abc123;***;user=bob`: the value is kept |
| FilteredLogger.ExampleUnanchored | 0x00-personal_data/filtered_logger.py:29 | the pattern is unanchored: field `name` also matches inside `username=bob` |
| FilteredLogger.ExampleSeparatorIsNotTerminator | 0x00-personal_data/filtered_logger.py:29-30 | a value ends at `;` even when the separator is `,` |
| FilteredLogger.ExampleEmptyValueKept | 0x00-personal_data/filtered_logger.py:29 | an empty value (`password=;`) is not matched and the line is unchanged |
| FilteredLogger.RedactingFormatter.constructor | 0x00-personal_data/filtered_logger.py:45-53 | the field list is fixed at construction |
| FilteredLogger.RedactingFormatter.Format | 0x00-personal_data/filtered_logger.py:55-66 | the rendered line is redacted with token `***` and separator `;` for the configured fields |
| Base64.SextetOfCharOf | 0x01-Basic_authentication/api/v1/auth/basic_auth.py:22 | the alphabet maps each 6-bit value to a character that decodes back to it |
| Base64.DecodeGroup | 0x01-Basic_authentication/api/v1/auth/basic_auth.py:22 | a group of four characters gives one to three octets; fewer than three only for a final group ending in `=` |
| Base64.Decode | 0x01-Basic_authentication/api/v1/auth/basic_auth.py:22 | accepted text is exactly four characters per three octets, rounded up |
| Base64.Encode | 0x01-Basic_authentication/api/v1/auth/basic_auth.py:22 | the encoding of n octets is 4 * ceil(n / 3) characters |
| Base64.DecodeGroupOfEncoding | 0x01-Basic_authentication/api/v1/auth/basic_auth.py:22 | each encoded group of one to three octets decodes back to those octets |
| Base64.DecodeEncode | 0x01-Basic_authentication/api/v1/auth/basic_auth.py:22 | decoding undoes encoding for every octet string |
| Base64.DecodeRejectsLength | 0x01-Basic_authentication/api/v1/auth/basic_auth.py:22-25 | text whose length is not a multiple of four is rejected |
| Utf8.DecodeScalar | 0x01-Basic_authentication/api/v1/auth/basic_auth.py:22 | the first scalar value and the one to four octets it takes, or None for a malformed sequence; its inverse relation to `EncodeScalar` is `DecodeEncodeScalar` and `EncodeDecodeScalar` |
| Utf8.Decode | 0x01-Basic_authentication/api/v1/auth/basic_auth.py:22 | `bytes.decode('utf-8')`, characterised as the exact inverse of `Encode` by `DecodeEncode` and `EncodeDecode` |
| Utf8.Encode | 0x01-Basic_authentication/api/v1/auth/basic_auth.py:22 | `str.encode('utf-8')`, the partner of `Decode` in `DecodeEncode` and `EncodeDecode` |
| Utf8.DecodeEncodeScalar | 0x01-Basic_authentication/api/v1/auth/basic_auth.py:22 | the encoding of a scalar value decodes back to it, whatever follows |
| Utf8.EncodeDecodeScalar | 0x01-Basic_authentication/api/v1/auth/basic_auth.py:22 | every accepted sequence is the shortest form of the value it decodes to |
| Utf8.DecodeEncode | 0x01-Basic_authentication/api/v1/auth/basic_auth.py:22 | UTF-8 decoding undoes encoding for every text |
| Utf8.EncodeDecode | 0x01-Basic_authentication/api/v1/auth/basic_auth.py:22 | a decoded text re-encodes to the very octets, so decoding is the exact inverse of encoding |
| Utf8.EncodeAscii | 0x01-Basic_authentication/api/v1/auth/basic_auth.py:22 | ASCII text encodes to its character codes, one octet each |
| BasicAuth.ExtractBase64AuthorizationHeader | 0x01-Basic_authentication/api/v1/auth/basic_auth.py:9-15 | a token comes back exactly when the header is present and starts with `Basic `; the header is the prefix followed by the token |
| BasicAuth.ExtractExamples | 0x01-Basic_authentication/api/v1/auth/basic_auth.py:11-15 | the scheme name is case-sensitive; a bare `Basic ` gives the empty token; a bearer token, the empty header and no header give None |
| BasicAuth.DecodeBase64AuthorizationHeader | 0x01-Basic_authentication/api/v1/auth/basic_auth.py:17-25 | a text comes back only when the token decodes to that text's UTF-8 octets, and whenever the token spells the UTF-8 octets of some text, that text comes back |
| BasicAuth.DecodeExample | 0x01-Basic_authentication/api/v1/auth/basic_auth.py:17-25 | `dXNlcjpwYXNz` decodes to `user:pass` |
| BasicAuth.FirstColon | 0x01-Basic_authentication/api/v1/auth/basic_auth.py:33 | the index is a `:` with no `:` before it |
| BasicAuth.ExtractUserCredentials | 0x01-Basic_authentication/api/v1/auth/basic_auth.py:27-33 | both parts come back exactly when there is a text holding `:`; the email holds no `:` and email, `:`, password rebuild the text |
| BasicAuth.SplitAtFirstColon | 0x01-Basic_authentication/api/v1/auth/basic_auth.py:33 | `email:password` splits back into its parts when the email holds no `:`, even if the password does |
| BasicAuth.SplitExample | 0x01-Basic_authentication/api/v1/auth/basic_auth.py:27-33 | `user:pass` splits into `user` and `pass` |
| BasicAuth.Search | 0x01-Basic_authentication/api/v1/auth/basic_auth.py:39 | `User.search({"email": email})`: the users with the email in storage order; `SearchStartsWithFirst` ties it to `FirstWithEmail` |
| BasicAuth.FirstWithEmail | 0x01-Basic_authentication/api/v1/auth/basic_auth.py:39-42 | the position of the first user with the email, or None when no user has it |
| BasicAuth.SearchStartsWithFirst | 0x01-Basic_authentication/api/v1/auth/basic_auth.py:39-42 | the search is empty exactly when no user has the email, and otherwise starts with the first such user |
| BasicAuth.UserObjectFromCredentials | 0x01-Basic_authentication/api/v1/auth/basic_auth.py:35-45 | a user comes back exactly when both credentials are present, some user has the email and the first such user accepts the password; it is that user |
| BasicAuth.OnlyFirstUserTried | 0x01-Basic_authentication/api/v1/auth/basic_auth.py:39-45 | a later user with the same email is never tried, even when its password would pass |
| BasicAuth.CurrentUser | 0x01-Basic_authentication/api/v1/auth/basic_auth.py:47-61 | a user comes back only for a `Basic ` header whose token decodes to `email:password` with that user's email and a password its check accepts |
| BasicAuth.CurrentUserOfBasicHeader | 0x01-Basic_authentication/api/v1/auth/basic_auth.py:47-61 | a header built from any credentials (email without `:`) gives the same answer as looking those credentials up directly |
| BasicAuth.OtherSchemesRejected | 0x01-Basic_authentication/api/v1/auth/basic_auth.py:52-54 | a header that does not start with `Basic ` authenticates nobody |
| UserModel.ColumnOf | 0x03-user_authentication_service/user.py:33-37 | a name denotes a column exactly when it is one of the five column names, and it is that column's name |
| UserModel.ColumnOfNameOf | 0x03-user_authentication_service/user.py:33-37 | column names and columns correspond one to one |
| UserModel.NullFitsNullable | 0x03-user_authentication_service/user.py:33-37 | NULL fits exactly the nullable columns `session_id` and `reset_token` |
| UserModel.NewUser | 0x03-user_authentication_service/user.py:39-53 | a new row holds the given email and hash, and NULL session id and reset token unless they are given |
| UserModel.Get | 0x03-user_authentication_service/user.py:33-37 | every stored value fits its column, and a value is NULL only in an unset nullable column |
| UserModel.SameColumnsSameUser | 0x03-user_authentication_service/user.py:33-37 | a row is determined by its five columns |
| UserModel.Set | 0x03-user_authentication_service/db.py:101-104 | writing a column changes that column to the value and no other |
| UserModel.Apply | 0x03-user_authentication_service/db.py:101-104 | the columns the update names take the new values, and the others keep theirs |
| UserModel.ApplyIdempotent | 0x03-user_authentication_service/db.py:101-104 | applying the same update twice is the same as applying it once |
| UserModel.ApplyNothing | 0x03-user_authentication_service/db.py:101-104 | an empty update leaves the row as it is |
| Database.Resolve | 0x03-user_authentication_service/db.py:73-78 | the names resolve exactly when every one is a column, each to its own column, in order |
| Database.ResolveFailure | 0x03-user_authentication_service/db.py:73-78 | a failure names the first argument that is not a column |
| Database.ResolveFailsAt | 0x03-user_authentication_service/db.py:73-78 | once a name fails, every longer argument list fails on that name |
| Database.Values | 0x03-user_authentication_service/db.py:73-76 | the values are the arguments' values, in order |
| Database.FindSpec | 0x03-user_authentication_service/db.py:69-86 | what `find_user_by` answers; characterised by `FindRejectsUnknownName`, `FindReturnsFirstSatisfying` and `FindNoneSatisfying` |
| Database.UpdateSpec | 0x03-user_authentication_service/db.py:88-105 | what `update_user` answers and leaves in the table; characterised by `UpdateUnknownId`, `UpdateRejectsUnknownName`, `UpdateRejectsInadmissible`, `UpdateAdmissibleSucceeds` and `UpdateOnlyNamedColumns` |
| Database.Admissible | 0x03-user_authentication_service/db.py:101-105 | the UPDATE succeeds when every value fits its column and a new id is held by no other row; `UpdateKeepsIdsDistinct` shows it keeps the primary key |
| Database.FirstMatching | 0x03-user_authentication_service/db.py:80-82 | the first row in insertion order that satisfies every equality, or None when no row does |
| Database.Assign | 0x03-user_authentication_service/db.py:94-97 | the update map has exactly the named columns as keys |
| Database.AssignLast | 0x03-user_authentication_service/db.py:94-97 | a column's entry holds the value of the last argument that names it |
| Database.Changes | 0x03-user_authentication_service/db.py:94-99 | the map's keys are the columns some argument names, and each holds the value of the last argument naming it |
| Database.UpdateRows | 0x03-user_authentication_service/db.py:101-104 | on the rows with the id, each named column takes its new value and every other column keeps its value; every other row is kept whole |
| Database.NextId | 0x03-user_authentication_service/db.py:61-63 | the key a new row gets is larger than every key in the table |
| Database.DatabaseHandler.constructor | 0x03-user_authentication_service/db.py:40-46 | the schema is recreated: the table is empty |
| Database.DatabaseHandler.AddNewUser | 0x03-user_authentication_service/db.py:57-67 | a missing email or hash rolls back (None, table unchanged); otherwise exactly one row is appended with a fresh key, and the keys stay distinct |
| Database.DatabaseHandler.FindUserBy | 0x03-user_authentication_service/db.py:69-86 | the answer is the query specification: InvalidRequest for the first unknown name, else the first satisfying row, else NoResultFound |
| Database.DatabaseHandler.UpdateUser | 0x03-user_authentication_service/db.py:88-105 | the outcome and the new table are the update specification, and the keys stay distinct |
| Database.UpdateKeepsIdsDistinct | 0x03-user_authentication_service/db.py:101-105 | an admissible update keeps the primary key distinct |
| Database.MatchesIffSatisfies | 0x03-user_authentication_service/db.py:80-82 | the query's tuple condition holds exactly when the row satisfies every filter |
| Database.SingleFilter | 0x03-user_authentication_service/db.py:80-82 | a one-column filter holds exactly when the row's value equals it in the SQL sense |
| Database.FindRejectsUnknownName | 0x03-user_authentication_service/db.py:73-78 | the first unknown filter name raises InvalidRequest, whatever the rows are |
| Database.FindReturnsFirstSatisfying | 0x03-user_authentication_service/db.py:80-86 | the answer is the first row in insertion order that satisfies every filter |
| Database.FindNoneSatisfying | 0x03-user_authentication_service/db.py:84-85 | with no satisfying row, NoResultFound is raised |
| Database.FindFirstOfSharedEmail | 0x03-user_authentication_service/db.py:80-82 | when rows share an email, the earliest is found |
| Database.FindNullMatchesNothing | 0x03-user_authentication_service/db.py:80-85 | a NULL filter value matches no row, not even a NULL column |
| Database.FindById | 0x03-user_authentication_service/db.py:80-86 | with distinct keys, looking a key up finds its row |
| Database.AddThenFind | 0x03-user_authentication_service/db.py:57-86 | an added row keeps the keys distinct and is found again by its key |
| Database.UpdateUnknownId | 0x03-user_authentication_service/db.py:91-93 | an id no row has raises NoResultFound before the update names are checked, and nothing is written |
| Database.UpdateRejectsUnknownName | 0x03-user_authentication_service/db.py:95-99 | for an existing row, the first unknown update name raises ValueError and nothing is written |
| Database.UpdateRejectsMisfit | 0x03-user_authentication_service/db.py:101-105 | a one-argument update putting NULL in a required column, or a value of the wrong kind, makes the UPDATE fail and no row changes |
| Database.UpdateRejectsMisfitAmong | 0x03-user_authentication_service/db.py:94-105 | among any number of arguments, a misfit value that no later argument overrides makes the UPDATE fail and no row changes |
| Database.UpdateRejectsTakenId | 0x03-user_authentication_service/db.py:101-105 | an update giving the row an id another row holds makes the UPDATE fail and no row changes |
| Database.UpdateRejectsInadmissible | 0x03-user_authentication_service/db.py:88-105 | for an existing row and names that all resolve, an inadmissible update map fails with IntegrityError and no row changes |
| Database.UpdateAdmissibleSucceeds | 0x03-user_authentication_service/db.py:88-105 | for an existing row, names that all resolve and an admissible map, the update succeeds and writes that map to the rows with the id |
| Database.IdFound | 0x03-user_authentication_service/db.py:91 | the id of an existing row is always found |
| Database.UpdateOnlyNamedColumns | 0x03-user_authentication_service/db.py:101-105 | a successful update overwrites exactly the named columns of the rows with the id; every other column and row is unchanged |

## Left out

- `get_logger`, `get_db` and `encrypt_password.py` are logging, MySQL and bcrypt I/O. The password check is a predicate parameter of the authentication functions.
- The base `logging.Formatter` rendering (template, timestamp, level) is left out. `RedactingFormatter.Format` receives the rendered line. `FORMAT` is kept only as a constant.
- Regular-expression metacharacters in field names are not modelled. Fields are literal text.
- FilteredLogger.Pass: the replacement template at filtered_logger.py:30 is `\1` followed by the separator and the redaction, and `re.sub` parses it as a template. The model inserts `separator + redaction` literally. So it does not capture these cases:
  - a backslash anywhere in the separator or redaction;
  - a separator that starts with a digit, or an empty separator with a redaction that starts with a digit. The digit merges with `\1`: `\12` is an invalid group reference, which makes `re.sub` raise even on a line with no match, and `\123` is an octal escape for `S`, so the match is replaced by `S***`.
- Base64.Decode: Python's `b64decode` without `validate=True` is lenient in two ways the model is not, and the model returns None for both:
  - it discards characters outside the alphabet;
  - it stops at the first completed pad group and ignores what follows, so `YQ==YQ==` gives `a`.
  Every token a standard encoder produces is decoded alike by both.
- Database.Resolve: `hasattr(User, name)` also accepts non-column attributes such as methods or `metadata`. The model takes only the five column names.
- Database.Admissible: SQLite's type affinity would coerce an integer into a text column or a numeric text into the key. The model rejects any value that does not fit its column as IntegrityError.
- Database.Matches: equality compares values of the same kind only. Cross-type coercion in SQLite comparisons is not modelled.
- Database.FirstMatching: answers the first matching row in insertion order, the order of the `users` sequence. The query behind `.first()` (db.py:80-82) has no ORDER BY, so SQLite need not answer in that order, for instance once `update_user` has changed an id.
- An empty filter list is treated as a conjunction that every row satisfies. An empty update list is treated as no change.
- Connection failures are not modelled, nor UPDATE failures other than a missing required value, a misfit value or a duplicate key.
- The 64-bit limit of SQLite row ids is not modelled, nor the `String(250)` length, which SQLite does not enforce.
- The `DB` class, the engine and the session property are SQLAlchemy plumbing. The table is the `users` field.
- `db.py` imports `Base` from `user.py`, which defines none. The model assumes the mapping the column declarations describe.
- `Auth.authorization_header` and `User.search` are outside these files. The header is an `Option<string>` parameter. The store is a sequence of users with an email accessor.
