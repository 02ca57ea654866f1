# License activation logic of the desktop timer backend

This project models, in Dafny, the offline license scheme of the application's
Rust backend (`src-tauri/src/lib.rs`):

- **Key validation** (`validate_license_key`). A key is 29 bytes long. It splits on
  `-` into five segments of five ASCII letters or digits. The character codes of
  those 25 characters, summed with a reduction modulo 256 after every addition, must
  land in 100..255. `LicenseKey.ValidateLicenseKey` is the source's loop over
  segments with early exits. It then calls `SegmentsChecksum`, which is the
  nested checksum loop. It is proved equal to the predicate
  `IsValidKey`, which follows the source step by step. Lemmas then prove
  `IsValidKey` equal to a declarative statement: `-` at indices 5, 11, 17 and 23,
  an alphanumeric everywhere else, and the plain code sum of the non-`-` characters
  at least 100 modulo 256.
- **The license store** (`check_license`, `activate_license`, `remove_license`).
  The single file `license.json` is the field `file` of class `LicenseStore.Store`.
  The field records what the code can observe: `Absent`, `Unreadable` (exists, but
  cannot be read as UTF-8 text), `Corrupt` (read, but not the JSON of a
  `LicenseData`) or `Stored(LicenseData(key, activatedAt))`. The three commands are
  methods that change `file`. What the file system does on a delete or write, and
  the current time, are method parameters.
- **Rust string operations** the code relies on (module `Text`): `str::len` (UTF-8
  byte length), `str::split`, `str::trim` (Unicode White_Space) and `to_uppercase`
  (ASCII letters only; see below).

Two behaviours of the code worth noting:
- `check_license` deletes the file only when the file was read and then failed to
  parse, or parsed with an invalid key. A file that exists but cannot be read is
  left in place.
- `check_license` has the type `Result<bool, String>` but only ever returns `Ok`.
- The commands report every error as a message string. There is no separate
  error kind, so the model returns the source's exact messages.

## Model

| member | source | states |
|---|---|---|
| `Text.Utf8Len` | src-tauri/src/lib.rs:31 | The byte length `key.len()` is at least the number of characters, and equal to it exactly when every character is ASCII |
| `Text.Split` | src-tauri/src/lib.rs:35 | `split('-')` always yields at least one segment, and no segment contains `-` |
| `Text.JoinSplit` | src-tauri/src/lib.rs:35 | Joining the segments of a split with `-` gives back the original key |
| `Text.SplitJoin` | src-tauri/src/lib.rs:35 | Splitting a `-`-join of pieces that contain no `-` gives back exactly those pieces |
| `Text.ConcatSplit` | src-tauri/src/lib.rs:51-55 | Reading the segments in order reads exactly the key's characters other than `-`, in order |
| `Text.Trim` | src-tauri/src/lib.rs:95 | `trim()` gives a piece of the input with only whitespace around it. It is empty exactly when the input is all whitespace; otherwise it starts and ends with a non-whitespace character |
| `Text.TrimUntrimmed` | src-tauri/src/lib.rs:95 | Trimming a string that neither starts nor ends with whitespace leaves it unchanged |
| `LicenseKey.AllBKeyIsValid` | src-tauri/src/lib.rs:29-58 | The key `BBBBB-BBBBB-BBBBB-BBBBB-BBBBB` is accepted: its code sum 1650 is 114 modulo 256. So valid keys exist, and the success cases of the store are reachable |
| `LicenseKey.AllAKeyIsInvalid` | src-tauri/src/lib.rs:29-58 | The key `AAAAA-AAAAA-AAAAA-AAAAA-AAAAA` has the right shape but is refused: its code sum 1625 is 89 modulo 256, below 100 |
| `LicenseKey.ValidateLicenseKey` | src-tauri/src/lib.rs:29-59 | The method with the source's early returns returns exactly `IsValidKey(key)`: byte length 29, five segments of five alphanumeric bytes, running checksum in 100..255 |
| `LicenseKey.SegmentsChecksum` | src-tauri/src/lib.rs:50-55 | The nested loop leaves in its accumulator the running checksum of all segments read in order. The accumulator is always below 256 |
| `LicenseKey.RunningChecksumIsSumMod` | src-tauri/src/lib.rs:50-55 | Reducing modulo 256 after every addition equals reducing the total code sum once |
| `LicenseKey.WellFormedIffCanonical` | src-tauri/src/lib.rs:31-47 | The length, split and segment checks pass exactly for the 29-character strings with `-` at indices 5, 11, 17, 23 and ASCII alphanumerics elsewhere (both directions) |
| `LicenseKey.ValidKeyIff` | src-tauri/src/lib.rs:29-58 | A key is accepted exactly when it has that canonical shape and the code sum of its non-`-` characters is at least 100 modulo 256. The upper bound 255 never rejects |
| `Text.AsciiUpper` | src-tauri/src/lib.rs:95 | Upper-casing one character gives no ASCII lowercase letter. The result agrees with the input once both are lower-cased, so `a` becomes `A`. Any character that is not a lowercase letter is unchanged |
| `Text.ToUppercase` | src-tauri/src/lib.rs:95 | `to_uppercase()` keeps the length and leaves no ASCII lowercase letter. The result equals the input up to ASCII case and keeps every character that is not a lowercase letter |
| `Text.UppercaseUnique` | src-tauri/src/lib.rs:95 | Any string of the same length, with no lowercase letters, that equals the input up to ASCII case is exactly `ToUppercase` of the input. So the contract determines upper-casing |
| `LicenseStore.NormalizeKey` | src-tauri/src/lib.rs:95 | `key.trim().to_uppercase()` is empty exactly for an all-whitespace input; otherwise it neither starts nor ends with whitespace. It holds no ASCII lowercase letter and equals the trimmed input up to ASCII case |
| `LicenseStore.NormalizeIdempotent` | src-tauri/src/lib.rs:95 | Trim-then-upper-case, applied twice, equals applying it once. So a stored key normalises to itself |
| `LicenseStore.Store.CheckLicense` | src-tauri/src/lib.rs:62-91 | Returns `Ok(true)` exactly when the file holds a record with a valid key, and never an error. Absent and unreadable files are untouched. A corrupt file or an invalid record is deleted when the deletion succeeds, otherwise left. A licensed file is untouched |
| `LicenseStore.Store.ActivateLicense` | src-tauri/src/lib.rs:94-124 | An empty normalised key gives the "cannot be empty" error and leaves the file as it was. A normalised key that fails validation gives the format error and leaves the file as it was. Otherwise a completed write stores `LicenseData(normalised key, now)` and returns `Ok(true)`. A failed write returns "Failed to save license: " plus the cause, and the file is either unchanged or truncated. Every success leaves a licensed file |
| `LicenseStore.Store.RemoveLicense` | src-tauri/src/lib.rs:127-138 | Returns `Ok(true)` with the file absent when it was absent or is now deleted. When deleting an existing file fails, returns "Failed to remove license: " plus the cause and leaves the file. `Ok` exactly when the file is absent afterwards |
| `LicenseStore.ActivateThenCheck` | src-tauri/src/lib.rs:69-118 | After a successful activation, a check returns `Ok(true)` and the file still holds the normalised key and timestamp |
| `LicenseStore.RefusedActivationThenCheck` | src-tauri/src/lib.rs:95-103 | An activation refused for its key returns one of the two key errors, and a check afterwards answers exactly as it would have before |
| `LicenseStore.CheckTwice` | src-tauri/src/lib.rs:65-89 | When the file is not licensed and the first cleanup deletion succeeds, two checks both return false. The file ends absent, unless it was unreadable, in which case it stays unreadable |
| `LicenseStore.RemoveTwice` | src-tauri/src/lib.rs:127-137 | Removal is idempotent. After a successful removal, a second removal returns `Ok(true)` whatever the file system would do, and the file stays absent |

## Left out

- `get_license_path` (src-tauri/src/lib.rs:19-26): it resolves and creates the host's data directory through the Tauri app handle and panics on failure. The model has one implicit file and no panic.
- JSON (serde): parsing is abstracted into the `Corrupt` / `Stored` states. The model takes as given that a written record parses back as the same `LicenseData`. The serialisation-error branch (line 122) cannot fail for a string and a `u64`, and is not modelled.
- `SystemTime::now()` (lines 107-110): the wall clock is the parameter `now`; the `unwrap` on a clock before the epoch is not modelled.
- File-system outcomes are parameters: the result of `fs::remove_file` and of `fs::write`. A failed write either leaves the file unchanged or truncated. Nothing else that an interrupted write might leave is modelled. `exists()` reporting false on a metadata error is covered by the `Absent` state.
- `NormalizeKey`: `to_uppercase` is modelled on ASCII letters only. Full Unicode upper-casing can turn some non-ASCII characters into ASCII letters (U+0131 to `I`, U+017F to `S`, ligatures such as U+FB00 to `FF`). The source therefore accepts some inputs that the model refuses.
- Concurrency: simultaneous commands on the same file are not modelled; each method runs to completion.
- `greet` and `run` (lines 3-5, 141-148): a format string and the Tauri application bootstrap.
- generate-logos.js: asynchronous image rasterisation through an external library, with file and console I/O.
- The content-addressed media store (upload and get of images and sounds, hashing): no source for it is part of this model.
- Concrete keys at the checksum boundaries (sums of 99, 100, 255 and 256 modulo 256) are not proved as separate examples. `AllBKeyIsValid` and `AllAKeyIsInvalid` show a concrete key on each side of the threshold, and `ValidKeyIff` covers every key.
