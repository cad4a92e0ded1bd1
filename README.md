# rusty-toolkit password manager, modelled in Dafny

This project models the password-manager core of rusty-toolkit:

- **The entry store** (`src/utils/database.rs`). It is a table of password entries keyed by integer id. The password column holds the entry's password, encrypted under the master password and then Base64-encoded. The model covers create, read, update, delete and search.
- **The front end** (`src/cli/password.rs`):
  - the complexity policy (a lowercase letter, an uppercase letter, a digit and a special character);
  - the check that a password length is 8 to 64;
  - the random generator, which retries until a candidate meets the policy;
  - start-up, which either bootstraps the `master.key` file or checks the master password against it.
- **The placeholder `Encryption`** (`src/utils/encryption.rs`).
- **The configuration** (`src/utils/config.rs`): the defaults, the log-level mapping, loading with a default file written on first use, and the database path.

Modules:

- `Basics`: `Option`, `Result` and `byte`.
- `Utf8`: a Rust `String` as its UTF-8 bytes. Decoding rejects overlong forms, surrogates and values above U+10FFFF. Decoding an encoding gives the text back.
- `Base64`: the standard alphabet with `=` padding (RFC 4648, section 4), as the `STANDARD` engine the store uses. Decoding is canonical, so it refuses non-zero trailing bits and misplaced padding. It proves `Decode(Encode(b)) == Some(b)`, and that everything `Decode` accepts is re-encoded to the same text.
- `Encryption`: the placeholder type, which keeps a key and passes text through unchanged.
- `Cipher`: the keyed cipher the store and start-up code call. It is abstract: a pair of functions, with the properties callers rely on stated as predicates.
  - `RoundTrips`: decrypting under the same key gives the plaintext back.
  - `NeverForges`: decrypting under any key either fails or gives the original plaintext.
  - `IdentityCipher`, the placeholder on UTF-8 bytes, is proved to satisfy both.
- `Database`: the store as a class over `map<int, Row>`. Each operation is specified by a function on the table. Ghost views say what `read` and `search` return.
- `Password`: the policy, the length check, the generator and start-up; the `master.key` file is a class with one mutable field.
- `Config`: the configuration records, the level mapping, Unix `PathBuf::join`, and `load` over a configuration-file object.

Randomness, the clock and the platform's configuration directory are parameters:

- The generator reads a finite byte stream.
- Timestamps are strings the caller supplies. `create` takes two, because it reads the clock once for each timestamp.
- The configuration directory is an `Option<string>`.

## Model

| member | source | states |
|---|---|---|
| `Utf8.Encode` | src/utils/database.rs:96-97 | the bytes of a `String`, as Base64-encoded here and written to `master.key` at src/cli/password.rs:42, number between one and four per character |
| `Utf8.DecodeEncode` | src/cli/password.rs:41-53 | the bytes written for a text decode back to exactly that text |
| `Base64.Encode` | src/utils/database.rs:97 | standard Base64 output has four characters per started group of three bytes |
| `Base64.Value` | src/utils/database.rs:131 | a character has a value exactly when it is one of the 64 alphabet symbols, and that symbol maps back to it |
| `Base64.DecodeEncode` | src/utils/database.rs:131 | decoding the encoding of any byte string gives the byte string back |
| `Base64.EncodeDecode` | src/utils/database.rs:131 | every text the decoder accepts is the encoding of what it decodes to (decoding is canonical) |
| `Base64.Decode` | src/utils/database.rs:131 | an accepted text has a multiple of four characters: four per started group of three decoded bytes (it inverts `Encode`, see `DecodeEncode` and `EncodeDecode`) |
| `Encryption.New` | src/utils/encryption.rs:6-8 | the encryption keeps the key it was given |
| `Encryption.Encryption.Encrypt` | src/utils/encryption.rs:10-12 | the placeholder returns its input unchanged, whatever the key |
| `Encryption.Encryption.Decrypt` | src/utils/encryption.rs:14-16 | the placeholder returns its input unchanged, whatever the key |
| `Encryption.Encryption.VerifyKey` | src/utils/encryption.rs:22-24 | a key is accepted exactly when an encryption built from it equals this one |
| `Encryption.GenerateKey` | src/utils/encryption.rs:18-20 | the generated key is the fixed text "key" |
| `Encryption.StubRoundTrip` | src/utils/encryption.rs:10-16 | decrypting an encryption under any key gives the text back |
| `Encryption.GeneratedKeyVerifies` | src/utils/encryption.rs:18-24 | an encryption from the generated key accepts "key" and nothing else |
| `Cipher.IdentityCipherIsSound` | src/utils/encryption.rs:10-16 | the placeholder on UTF-8 bytes round-trips under the same key and never yields a different plaintext under another key |
| `Database.NewEntry` | src/utils/database.rs:245-263 | a new entry has no id and exactly the given fields and timestamps |
| `Database.Open` | src/utils/database.rs:130-132 | opening fails as not-Base64 exactly when the stored text does not decode; it succeeds exactly when the stored text is the Base64 of a ciphertext that decrypts, and then gives that decryption |
| `Database.Seal` | src/utils/database.rs:96-97 | the text `create` (and `update`, database.rs:168-169) stores decodes to exactly the ciphertext of the password; `OpenSeal` gives it back |
| `Database.OpenSeal` | src/utils/database.rs:96-97 | with a round-tripping cipher, what `create` and `update` store opens to the entry's password |
| `Database.NextRowId` | src/utils/database.rs:62-63 | a new row's id is unused, larger than every existing id, 1 in an empty table, and one more than the largest id otherwise |
| `Database.CreateThenRead` | src/utils/database.rs:95-112 | after `create` the table has one more row under a fresh id; it opens to the entry's password, fields and the two clock readings, and every other row and what it opens to is unchanged |
| `Database.InsertedTable` | src/utils/database.rs:100-110 | an insert adds exactly one row, under an id not in the table, and keeps every other row |
| `Database.Inserted` | src/utils/database.rs:99-110 | the table gains exactly the id `NextRowId` gives, which was unused, holding the new row; every earlier row is kept |
| `Database.InsertedView` | src/utils/database.rs:123-152 | adding a row at a fresh id adds its opened entry to what `read` returns and leaves the other entries as they were |
| `Database.Updated` | src/utils/database.rs:171-184 | the table keeps its ids, and every row other than the one with the entry's id is unchanged; `UpdateThenRead` states what the row itself becomes |
| `Database.UpdateThenRead` | src/utils/database.rs:167-186 | `update` rewrites the fields, the password and `updated_at` of the row with the entry's id and keeps its `created_at`; other rows are unchanged; a `None` or unknown id changes nothing |
| `Database.DeleteThenRead` | src/utils/database.rs:201-205 | `delete` removes exactly the row with that id; an absent id changes nothing; deleting the only row leaves nothing to read |
| `Database.Deleted` | src/utils/database.rs:202-203 | the table loses exactly that id and every other row is unchanged |
| `Database.NewestIdIsReused` | src/utils/database.rs:62-63 | after deleting the row with the largest id, the next row's id is no larger than the deleted one; after deleting the only row, the next id is 1 again |
| `Database.RowMatches` | src/utils/database.rs:224-227 | a row matches only when the query is no longer than its service or its username, and the empty query matches every row; `SearchScope` and `Database.Search` state the substring test |
| `Database.SearchScope` | src/utils/database.rs:220-242 | search results come from rows whose service or username contains the query, with the password column as stored and not decrypted |
| `Database.EmptyQueryMatchesAll` | src/utils/database.rs:227 | the empty query selects every row |
| `Database.Database.constructor` | src/utils/database.rs:40-79 | opening the store gives the table its file holds (empty on first use, since the table is created only if missing) and keeps its cipher and key |
| `Database.Database.Create` | src/utils/database.rs:95-112 | inserts the sealed entry under the next row id, with both clock readings |
| `Database.Database.Update` | src/utils/database.rs:167-186 | the table becomes the update of the old table |
| `Database.Database.Delete` | src/utils/database.rs:201-205 | the table loses that id |
| `Database.Database.Read` | src/utils/database.rs:123-152 | succeeds exactly when every row opens; then it lists each row once, opened, with the same count as the table; otherwise the error is that of a row that does not open |
| `Database.Database.Search` | src/utils/database.rs:220-242 | lists, each once, exactly the rows whose service or username contains the query, with their stored password text |
| `Database.CrudScenario` | src/utils/database.rs:310-351 | create, read, update, search and delete run in sequence: the entry gets id 1 and reads back its password, it is renamed and found by substring, and after deletion nothing remains |
| `Password.ClassOf` | src/cli/password.rs:151-161 | each character counts for exactly one class, tested in the order lowercase, uppercase, digit, with everything else special |
| `Password.IsValidPassword` | src/cli/password.rs:145-164 | the flag loop says yes exactly when some character of each of the four classes occurs |
| `Password.ComplexHasFourCharacters` | src/cli/password.rs:163 | a password that meets the policy (`IsComplex`, one character of each of the four disjoint classes) has at least four characters |
| `Password.ExamplePasswordIsComplex` | src/cli/password.rs:195-198 | "Password123!" meets the policy |
| `Password.NoDigitIsNotComplex` | src/cli/password.rs:163 | a password without an ASCII digit fails the policy |
| `Password.ParseUsize` | src/cli/password.rs:176 | an accepted text is an optional `+` and then decimal digits at most the largest `usize`, and its value is the value of those digits, with or without the `+` |
| `Password.ParseUsizeComplete` | src/cli/password.rs:176 | every run of digits whose value fits in a `usize` is accepted, with or without a leading `+`, and parses to its value |
| `Password.IsValidPasswordLength` | src/cli/password.rs:175-181 | the length text passes exactly when it parses to a number from 8 to 64, and never when it does not parse |
| `Password.LengthTextCheck` | src/cli/password.rs:175-181 | a run of digits, with leading zeros or a `+`, passes exactly when its value is 8 to 64 |
| `Password.SignedAndPaddedLengths` | src/cli/password.rs:175-181 | "+16" and "016" pass, "-16" does not |
| `Password.DecimalString` | src/cli/password.rs:90 | a printed length is a non-empty run of digits without a leading zero |
| `Password.ParsePrinted` | src/cli/password.rs:90 | parsing a printed length gives the length back |
| `Password.LengthCheck` | src/cli/password.rs:89-93 | for a length given as a number, the check passes exactly from 8 to 64 |
| `Password.SixteenIsValidLength` | src/cli/password.rs:201-203 | "16" is a valid length |
| `Password.CharFor` | src/cli/password.rs:125-126 | a random byte selects the charset character at the byte's value modulo 76 |
| `Password.ModuloBias` | src/cli/password.rs:125 | 'a' is selected by the four bytes 0, 76, 152 and 228, but '+' only by 75, 151 and 227 |
| `Password.CharsetAt` | src/cli/password.rs:86-87 | the charset has 76 characters in four runs, 26 lowercase letters from `a`, 26 uppercase letters, 10 digits and 14 specials, all ASCII and each counted in its run's class; `+` occurs once, as the last character (index 75) |
| `Password.Chars` | src/cli/password.rs:122-127 | a candidate has one character per random byte, each the one that byte selects |
| `Password.Retried` | src/cli/password.rs:119-133 | for any acceptance test, a returned password has the requested length; `RetriedFromLastDraw` states which bytes spell it |
| `Password.Generated` | src/cli/password.rs:119-133 | the generator with the policy as its test returns a password of the requested length; `GeneratedIsComplex`, `LeftoverIsSuffix` and `GeneratedFromLastDraw` state the rest |
| `Password.GeneratePassword` | src/cli/password.rs:85-134 | the for-loop generator with its retry computes exactly the password and leftover stream of the reference definition |
| `Password.GeneratedIsComplex` | src/cli/password.rs:129-133 | a generated password has the requested length, meets the policy and uses only charset characters |
| `Password.LeftoverIsSuffix` | src/cli/password.rs:119-133 | the generator only consumes: what is left of the random stream is a suffix of it |
| `Password.GeneratedFromLastDraw` | src/cli/password.rs:122-130 | the password returned is spelled by the last `length` bytes taken from the stream |
| `Password.RetriedFromLastDraw` | src/cli/password.rs:119-133 | for any acceptance test, the retry loop consumes at least `length` bytes and returns the candidate spelled by the last `length` of them |
| `Password.GeneratedRefusesLength` | src/cli/password.rs:89-93 | generation refuses the length exactly when it is outside 8 to 64, and then draws no randomness |
| `Password.CharsetByteLength` | src/cli/password.rs:126 | a text of charset characters has as many UTF-8 bytes as characters |
| `Password.SixteenCharacters` | src/cli/password.rs:189-192 | a successful 16-character request gives a password of 16 characters and 16 bytes |
| `Password.GeneratesFromFirstBytes` | src/cli/password.rs:122-130 | the stream 0, 26, 52, 62, 1, 2, 3, 4, 9, whose first eight bytes select a character of each class, yields "aA0!bcde" on the first draw and leaves [9] |
| `Password.ManagerFor` | src/cli/password.rs:64-70 | the manager a master password opens has default length 16, and both its database key and its encryption key are that password |
| `Password.NewManager` | src/cli/password.rs:24-71 | without the file, the chosen or generated password is written encrypted under itself and opens the manager; with the file, start-up succeeds exactly when the entered password decrypts the file to itself, and the file is not changed |
| `Password.ChooseThenUnlock` | src/cli/password.rs:29-61 | after a first start with a chosen password, a second start succeeds exactly when the same password is entered, and opens the same manager |
| `Password.GenerateThenUnlock` | src/cli/password.rs:29-44 | a first start with a generated password succeeds exactly when the generator does, with a 16-character password that meets the policy; a second start succeeds exactly when that password is entered |
| `Config.Default` | src/utils/config.rs:23-34 | the default log level is "info" and the default database name is "pass.db" |
| `Config.LevelName` | src/utils/config.rs:125-130 | every filter except `Off` has a configuration name |
| `Config.LevelOf` | src/utils/config.rs:125-132 | the mapping is total, never yields `Off`, and a non-`Info` result is the filter named by the input |
| `Config.LevelOfName` | src/utils/config.rs:125-130 | each of the five names selects its own filter |
| `Config.UnknownLevelIsInfo` | src/utils/config.rs:131 | any string that names no filter selects `Info` |
| `Config.LevelNamesAreCaseSensitive` | src/utils/config.rs:131 | "DEBUG", "Error" and "" select `Info` |
| `Config.DefaultLevel` | src/utils/config.rs:27 | the default configuration logs at `Info` |
| `Config.Join` | src/utils/config.rs:77 | an absolute path replaces the base; otherwise it is appended, with a `/` exactly when the base is non-empty and does not end in one |
| `Config.ConfigDir` | src/utils/config.rs:75-84 | fails exactly when the platform has no configuration directory; otherwise the result is a non-empty path that does not end in `/` |
| `Config.DbPath` | src/utils/config.rs:154-159 | fails exactly when the platform has no configuration directory |
| `Config.DbNameIsLastComponent` | src/utils/config.rs:154-159 | a relative database name follows the application directory after one `/` and is the final path component |
| `Config.DefaultDbPath` | src/utils/config.rs:154-159 | the default database is `<config dir>/karnes-development/rusty-toolkit/pass.db` |
| `Config.AbsoluteDbNameWins` | src/utils/config.rs:156 | an absolute database name is used unchanged |
| `Config.Load` | src/utils/config.rs:48-64 | with no file, load returns the default and writes it; with a file, it returns what the file parses to and leaves the file alone; a missing configuration directory is an error |
| `Config.LoadTwice` | src/utils/config.rs:174-180 | on first use, two loads in a row both give the default configuration |

## Left out

- Real encryption and key derivation: SQLCipher's `PRAGMA key` set-up and `get_key` (database.rs:47-59). The store and start-up are proved for any cipher that satisfies `RoundTrips` (and `NeverForges` where a wrong password must be refused).
- Cipher: it is deterministic. A real AEAD draws a fresh nonce for each encryption. The proofs rely only on the two predicates.
- Storage failures: an SQLite statement that fails is not modelled. This covers the `INSERT` (database.rs:99-110), `UPDATE` (database.rs:171-184) and `DELETE` (database.rs:202-203), and the `prepare`, `query_map` and `row.get` of `read` (database.rs:124-148) and `search` (database.rs:221-241). So the model's create, update and delete always succeed, and read and search fail for no storage reason. Likewise the I/O errors of `read_to_string` (config.rs:53) and `fs::write` (config.rs:58) are not modelled, so `Config.Load` fails only with `NoConfigDir` or `Unparsable`.
- The SQL layer: connection set-up, `CREATE TABLE`, WAL and foreign keys (database.rs:40-80), and the row order of a `SELECT` without `ORDER BY`. `read` and `search` are proved to list each row exactly once, in an unspecified order.
- Database.Database.Search: it uses a plain substring test. SQLite `LIKE` is case-insensitive for ASCII letters, and a `%` or `_` in the query acts as a wildcard.
- Database.Database.Read: a row that does not open aborts the whole read with an error value. The source panics on it (`unwrap` at database.rs:131-132).
- Database.Database.constructor: the table a reopened file holds is taken to have positive ids only. This program's inserts create no others; rows written with explicit ids by another tool are not modelled.
- Database.NextRowId: row ids are unbounded integers. The source reads them into `i32` (database.rs:13), and SQLite's rowid limit and overflow behaviour are not modelled.
- Timestamp formatting (`to_rfc3339`): timestamps are opaque strings.
- Password.ClassOf: letters are ASCII only. Rust's `is_lowercase` and `is_uppercase` also accept non-ASCII letters; the model counts those as special.
- The interactive branch of `generate_password` (length `None`), which prompts for a length and validates it (password.rs:95-116), and every other `inquire` prompt. `NewManager` takes the confirm answer and the typed password as parameters.
- Password.ParseUsize: it assumes a 64-bit `usize`, so the largest accepted value is 2^64 - 1. On a 32-bit target `parse::<usize>` refuses values above 2^32 - 1. The length check is unaffected, since it accepts only 8 to 64.
- Password.GeneratePassword: the random source is a finite byte stream. Running out of bytes is reported as `Exhausted`; the source's `SystemRandom` never runs out. If `rng.fill` panics, that is not modelled.
- Password.NewManager: it models the master-key file as one mutable field. The surrounding `Config::load`, `get_config_dir` and `Database::new` calls (password.rs:25-27 and 68), and the I/O errors of reading and writing the file, are not modelled.
- Config.Load: TOML parsing and printing are abstract. A present file is recorded with the configuration it parses to, or as unparsable. Writing the default assumes its TOML text parses back to the default.
- Directory creation (`create_dir_all`), `get_log_dir` and logger set-up (`setup_logger` apart from its level mapping).
- `PathBuf::join` is modelled for Unix paths only.
- `src/cli/file_search.rs`, `src/cli/commands.rs`, `src/main.rs`, `src/lib.rs` and `src/utils/errors.rs`: argument parsing, a filesystem walk and error wrappers. None is part of this model.

## Notes on the code

- Row ids follow SQLite's `INTEGER PRIMARY KEY`: a new row gets one more than the largest id, or 1 in an empty table. The table has no `AUTOINCREMENT`, so ids are not monotonic. After the newest row is deleted its id can be handed out again (`Database.NewestIdIsReused`).
- The generator maps each random byte with `% 76`. It does not use rejection sampling, so the first 28 charset characters are a third more likely than the rest (`Password.ModuloBias`).
- When start-up generates the master password, it writes that password to `master.key` but never shows it. The next start succeeds only if exactly that password is typed (`Password.GenerateThenUnlock`).
- The source files do not agree on the `Encryption` interface:
  - database.rs:47-48 calls `Encryption::new(master_password, salt)` and `get_key`, which encryption.rs does not have;
  - password.rs passes `&String` where encryption.rs takes `String`;
  - password.rs:53 decrypts a byte vector where a `&str` is expected.

  The model follows encryption.rs as written and reads the byte view through UTF-8.
