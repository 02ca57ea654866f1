/**
 * The single-record license store of src-tauri/src/lib.rs: `check_license`,
 * `activate_license` and `remove_license`, which read, write and delete the one
 * file `license.json` in the application's data directory.
 *
 * The file is modelled by what the code can observe about it (LicenseFile):
 * absent, present but unreadable as UTF-8 text, readable but not a JSON
 * LicenseData, or holding a LicenseData. What the file system does when asked to
 * delete or write the file is not decided by the code, so each method receives
 * it as a parameter; the clock reading of `activate_license` is a parameter too.
 */
module LicenseStore {
  import opened Text
  import opened LicenseKey

  /** Rust's `u64`. */
  type U64 = n: int | 0 <= n < 0x1_0000_0000_0000_0000

  /** The record kept in `license.json`. */
  datatype LicenseData = LicenseData(key: string, activatedAt: U64)

  /** What the code can tell about `license.json`. */
  datatype LicenseFile =
    | Absent                    // `exists()` is false
    | Unreadable                // it exists, but `fs::read_to_string` fails
    | Corrupt                   // it is read, but is not the JSON of a LicenseData
    | Stored(data: LicenseData) // it is read and parses as `data`

  /** The outcome of `fs::remove_file`. */
  datatype RemoveOutcome = Removed | RemoveFailed(cause: string)

  /**
   * The outcome of `fs::write`: the contents were written, the file could not be
   * opened (nothing changes), or writing stopped part way through (the file is
   * left truncated, which no longer parses).
   */
  datatype WriteOutcome = Written | OpenFailed(cause: string) | WriteInterrupted(cause: string)

  /** `Result<T, String>`: the commands report errors as messages. */
  datatype Result<T> = Ok(value: T) | Err(message: string)

  const EmptyKeyMessage: string := "License key cannot be empty"
  const InvalidKeyMessage: string :=
    "Invalid license key format. Expected format: XXXXX-XXXXX-XXXXX-XXXXX-XXXXX"
  const SaveFailedPrefix: string := "Failed to save license: "
  const RemoveFailedPrefix: string := "Failed to remove license: "

  /** The file holds a record whose key passes validation. */
  predicate Licensed(file: LicenseFile) {
    file.Stored? && IsValidKey(file.data.key)
  }

  /**
   * `key.trim().to_uppercase()`, with upper-casing on ASCII letters: empty
   * exactly for an all-whitespace input, otherwise free of whitespace at either
   * end; free of ASCII lowercase letters; and equal to the trimmed input up to
   * ASCII case.
   */
  function NormalizeKey(key: string): (r: string)
    ensures r == [] <==> AllWhitespace(key)
    ensures r != [] ==> !IsWhitespace(r[0]) && !IsWhitespace(r[|r| - 1])
    ensures forall k :: 0 <= k < |r| ==> !IsAsciiLowercase(r[k])
    ensures |r| == |Trim(key)|
    ensures forall k :: 0 <= k < |r| ==> AsciiLower(r[k]) == AsciiLower(Trim(key)[k])
  {
    ToUppercase(Trim(key))
  }

  /**
   * Normalising twice is normalising once; in particular a key that activation
   * stored normalises to itself, so activating it again stores the same key.
   */
  lemma NormalizeIdempotent(key: string)
    ensures NormalizeKey(NormalizeKey(key)) == NormalizeKey(key)
  {
    var u := NormalizeKey(key);
    TrimUntrimmed(u);
    var v := ToUppercase(u);
    forall k | 0 <= k < |u| ensures v[k] == u[k] {
      assert !IsAsciiLowercase(u[k]);
    }
    assert v == u;
  }

  /** A license store over the one file `license.json`. */
  class Store {
    var file: LicenseFile

    constructor (initial: LicenseFile)
      ensures file == initial
    {
      file := initial;
    }

    /**
     * `check_license`: true exactly when the file holds a record with a valid key.
     * It never reports an error. An absent or unreadable file is left alone; a
     * corrupt file, or a record whose key fails validation, is deleted (the
     * result of the deletion is ignored, so a failed deletion leaves it).
     */
    method CheckLicense(deletion: RemoveOutcome) returns (r: Result<bool>)
      modifies this
      ensures r == Ok(Licensed(old(file)))
      ensures match old(file)
        case Absent => file == Absent
        case Unreadable => file == Unreadable
        case Corrupt => file == if deletion.Removed? then Absent else Corrupt
        case Stored(data) =>
          file == if IsValidKey(data.key) || deletion.RemoveFailed? then old(file) else Absent
    {
      if file.Absent? {
        return Ok(false);
      }
      match file {
        case Unreadable =>
          r := Ok(false);
        case Corrupt =>
          if deletion.Removed? {
            file := Absent;
          }
          r := Ok(false);
        case Stored(data) =>
          var valid := ValidateLicenseKey(data.key);
          if valid {
            r := Ok(true);
          } else {
            if deletion.Removed? {
              file := Absent;
            }
            r := Ok(false);
          }
      }
    }

    /**
     * `activate_license`: normalise the key; refuse it, leaving the file as it
     * was, when it is empty or fails validation; otherwise write a record of the
     * normalised key and `now`, the current time in seconds since the Unix epoch.
     */
    method ActivateLicense(key: string, now: U64, write: WriteOutcome) returns (r: Result<bool>)
      modifies this
      ensures var normalized := NormalizeKey(key);
        if normalized == [] then
          r == Err(EmptyKeyMessage) && file == old(file)
        else if !IsValidKey(normalized) then
          r == Err(InvalidKeyMessage) && file == old(file)
        else match write
          case Written => r == Ok(true) && file == Stored(LicenseData(normalized, now))
          case OpenFailed(cause) => r == Err(SaveFailedPrefix + cause) && file == old(file)
          case WriteInterrupted(cause) => r == Err(SaveFailedPrefix + cause) && file == Corrupt
      ensures r.Ok? ==> r.value && Licensed(file)
    {
      var keyUpper := NormalizeKey(key);
      if keyUpper == [] {
        return Err(EmptyKeyMessage);
      }
      var valid := ValidateLicenseKey(keyUpper);
      if !valid {
        return Err(InvalidKeyMessage);
      }
      var data := LicenseData(keyUpper, now);
      match write {
        case Written =>
          file := Stored(data);
          r := Ok(true);
        case OpenFailed(cause) =>
          r := Err(SaveFailedPrefix + cause);
        case WriteInterrupted(cause) =>
          file := Corrupt;
          r := Err(SaveFailedPrefix + cause);
      }
    }

    /**
     * `remove_license`: delete the file if it exists. Succeeds with true when the
     * file was already absent or is deleted now; fails only when deleting an
     * existing file fails, and then the file is as it was.
     */
    method RemoveLicense(deletion: RemoveOutcome) returns (r: Result<bool>)
      modifies this
      ensures old(file).Absent? ==> r == Ok(true) && file == Absent
      ensures !old(file).Absent? ==> match deletion
        case Removed => r == Ok(true) && file == Absent
        case RemoveFailed(cause) => r == Err(RemoveFailedPrefix + cause) && file == old(file)
      ensures r.Ok? <==> file == Absent
    {
      if !file.Absent? {
        match deletion {
          case Removed =>
            file := Absent;
            r := Ok(true);
          case RemoveFailed(cause) =>
            r := Err(RemoveFailedPrefix + cause);
        }
      } else {
        r := Ok(true);
      }
    }
  }

  // ---------------------------------------------------------------------------
  // Properties across calls
  // ---------------------------------------------------------------------------

  /** After a successful activation, a check accepts and leaves the file alone. */
  method ActivateThenCheck(store: Store, key: string, now: U64, deletion: RemoveOutcome)
    returns (activated: Result<bool>, checked: Result<bool>)
    modifies store
    ensures activated.Ok? ==>
      checked == Ok(true) && store.file == Stored(LicenseData(NormalizeKey(key), now))
  {
    activated := store.ActivateLicense(key, now, Written);
    checked := store.CheckLicense(deletion);
  }

  /** A refused key changes nothing, so a later check answers as it would have before. */
  method RefusedActivationThenCheck(store: Store, key: string, now: U64, write: WriteOutcome,
                                    deletion: RemoveOutcome)
    returns (activated: Result<bool>, checked: Result<bool>)
    modifies store
    requires !IsValidKey(NormalizeKey(key))
    ensures activated.Err? && activated.message in {EmptyKeyMessage, InvalidKeyMessage}
    ensures checked == Ok(Licensed(old(store.file)))
  {
    activated := store.ActivateLicense(key, now, write);
    checked := store.CheckLicense(deletion);
  }

  /** A check that deletes a bad file leaves nothing for the next check to accept or delete. */
  method CheckTwice(store: Store, first: RemoveOutcome, second: RemoveOutcome)
    returns (r1: Result<bool>, r2: Result<bool>)
    modifies store
    requires !Licensed(store.file)
    requires first.Removed?
    ensures r1 == Ok(false) && r2 == Ok(false)
    ensures old(store.file) != Unreadable ==> store.file == Absent
    ensures old(store.file) == Unreadable ==> store.file == Unreadable
  {
    r1 := store.CheckLicense(first);
    r2 := store.CheckLicense(second);
  }

  /**
   * Removing is idempotent: after any first removal that succeeds, a second one
   * succeeds whatever the file system would do, and the file stays absent.
   */
  method RemoveTwice(store: Store, first: RemoveOutcome, second: RemoveOutcome)
    returns (r1: Result<bool>, r2: Result<bool>)
    modifies store
    ensures r1.Ok? ==> r2 == Ok(true) && store.file == Absent
  {
    r1 := store.RemoveLicense(first);
    r2 := store.RemoveLicense(second);
  }
}
