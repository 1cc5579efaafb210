# Password vault, modelled in Dafny

This project models the logic of a small local password vault written in
Python with Tkinter and SQLite, and proves properties of that model. The
model covers:

- the field cipher (`EncryptionService`). The key is derived with
  PBKDF2-HMAC-SHA256 over a fixed salt and base64url-encoded. `encrypt` and
  `decrypt` map `""` to `""`, and `decrypt` turns every failure into `""`;
- the record store (`DatabaseService`): the `password_entries` table with
  its AUTOINCREMENT counter, and `get_all_entries`, `save_entry` and
  `delete_entry`;
- the entry record (`PasswordEntry`), its defaults and `masked_password`;
- the logic of the three windows:
  - the main window's load, search filter, tree rows (masked password,
    notes cut to 50 characters), entry count and lookup of the selected
    entry;
  - the entry dialog's save validation, text normalisation, password
    generator and cancel;
  - the login window's length check, cancel and result.

Base64url (section 5 of RFC 4648) is modelled concretely, and its round
trip is proved. PBKDF2 (section 5.2 of RFC 8018), Fernet and UTF-8 are
library code. They enter as a record of functions, `CryptoLibrary.Library`.
The contract the model relies on is the predicate `CryptoLibrary.Sound`:

- PBKDF2 returns the requested length;
- Fernet opens a token under the key that made it and under no other key;
- a Fernet token is never empty;
- UTF-8 decoding undoes encoding.

`CryptoLibrary.ToyLibraryIsSound` exhibits a record that meets the
contract.

ISO timestamp text is handled the same way, as `Timestamps.IsoCodec` with
`Timestamps.IsoSound`. Things the program reads from outside become
parameters:

- the clock (`now`);
- Fernet's IV and time;
- the draws of `secrets.choice` (`picks`);
- the widgets' texts;
- a failure to open the database (`connectFails`);
- a storage failure (`storageFails`).

The SQLite table is held in memory as a sequence of rows in rowid order
(ascending id) plus the AUTOINCREMENT counter. `ORDER BY website` is a
stable insertion sort under code-point order. `PasswordEntry` and the
window and service objects are classes whose methods update their fields.

The model follows the code as written, which differs from a hardened design:

- the salt is one constant (`b'salt_1234567890'`), not a random salt per
  vault;
- notes are stored in plaintext; only the password column is encrypted;
- there is no lock/unlock state machine beyond rebuilding the services.

## Model

| member | source | states |
|---|---|---|
| EncryptionServices.DeriveKey | services/encryption_service.py:14-22 | the key text is base64url of the PBKDF2 output, and decodes back to exactly those bytes; for 32 bytes it is 44 characters, 43 in the URL-safe alphabet and a final "=" |
| EncryptionServices.KeyTextShape | services/encryption_service.py:15-21 | any 32 bytes encode to 44 characters: 43 alphabet characters and one "=" |
| EncryptionServices.FernetKeyFromText | services/encryption_service.py:12 | Fernet accepts the key text exactly when it decodes to 32 bytes, and then holds those bytes |
| EncryptionServices.NewService | services/encryption_service.py:7-12 | construction succeeds whenever the library meets its contract; the salt is the fixed constant; the Fernet key is PBKDF2 of the UTF-8 password, so nothing but the password decides it |
| EncryptionServices.Encrypt | services/encryption_service.py:24-28 | "" encrypts to "" without using the cipher; any other text gives a non-empty ciphertext of whole quartets, using only the URL-safe alphabet and "=" |
| EncryptionServices.Decrypt | services/encryption_service.py:30-38 | total: "" gives ""; a base64url, Fernet or UTF-8 failure gives ""; a non-empty result is exactly the text all three steps produce |
| EncryptionServices.DecryptEncrypt | services/encryption_service.py:24-38 | decrypting what the same service encrypted gives the plaintext back, for every plaintext, IV and time |
| EncryptionServices.DecryptUnderOtherKey | services/encryption_service.py:33-38 | a ciphertext made under one key reads as "" under any other key |
| EncryptionServices.WrongMasterPasswordReadsEmpty | services/encryption_service.py:7-12 | a service built from a master password with a different PBKDF2 output reads every stored password as "" |
| EncryptionServices.SameMasterPasswordReads | services/encryption_service.py:9-12 | two services built from the same master password read each other's ciphertexts, because salt and iterations are constants |
| Base64Url.SextetChar | services/encryption_service.py:21 | the encoding table: 0-25 are exactly the capitals, 26-51 the small letters, 52-61 the digits, 62 is "-" and 63 is "_"; no value gives "=" |
| Base64Url.SextetValue | services/encryption_service.py:34 | a character in the alphabet stands for a value below 64 that maps back to that character |
| Base64Url.SextetRoundTrip | services/encryption_service.py:21 | each of the 64 values maps to a character that reads back as that value |
| Base64Url.EncodeTriple | services/encryption_service.py:21 | three bytes become four alphabet characters |
| Base64Url.EncodeTail | services/encryption_service.py:21 | a final one or two bytes become a quartet ending in "==" or "=", with alphabet characters before the padding |
| Base64Url.Encode | services/encryption_service.py:21 | the output is four characters per started group of three bytes |
| Base64Url.EncodeShape | services/encryption_service.py:21 | the output is alphabet characters followed by exactly the padding the input length calls for (none, "==" or "=") |
| Base64Url.EncodeIsUrlSafe | services/encryption_service.py:28 | every output character is in the URL-safe alphabet or is "=" |
| Base64Url.EncodeEmptyIff | services/encryption_service.py:28 | the encoding is empty exactly for empty input |
| Base64Url.DecodeQuartet | services/encryption_service.py:34 | a decoded full quartet is three bytes |
| Base64Url.DecodeLastQuartet | services/encryption_service.py:34 | a decoded final quartet is one to three bytes |
| Base64Url.Decode | services/encryption_service.py:34 | only text of whole quartets decodes, to at most three bytes per quartet |
| Base64Url.TripleRoundTrip | services/encryption_service.py:21-34 | a full quartet decodes back to its three bytes |
| Base64Url.TailRoundTrip | services/encryption_service.py:21-34 | a padded final quartet decodes back to its one or two bytes |
| Base64Url.DecodeEncode | services/encryption_service.py:21-34 | decoding undoes encoding for every byte sequence |
| PasswordEntries.PasswordEntry.constructor | models/password_entry.py:7-20 | every field takes the given value; a timestamp that is not supplied is read from the clock, and a supplied one is kept |
| PasswordEntries.PasswordEntry.Default | models/password_entry.py:7-20 | a default entry has id 0, empty texts and both timestamps from the clock |
| PasswordEntries.PasswordEntry.MaskedPassword | models/password_entry.py:22-24 | one "*" per password character, and "" for an empty password |
| DatabaseServices.InsertByWebsite | services/database_service.py:45 | the result holds the rows plus the new one, as a multiset |
| DatabaseServices.InsertKeepsSorted | services/database_service.py:45 | inserting into a website-sorted list keeps it sorted |
| DatabaseServices.OrderByWebsite | services/database_service.py:41-46 | ORDER BY website returns a permutation of the table that is non-decreasing by website |
| DatabaseServices.OrEmpty | services/database_service.py:52-55 | a NULL column reads as "" and any other is kept |
| DatabaseServices.ReadTimestamp | services/database_service.py:56-57 | a NULL or empty date column reads the clock; any other is parsed from ISO text, which may fail |
| DatabaseServices.LoadRow | services/database_service.py:49-58 | converting a row fails exactly when one of its dates cannot be parsed (an undecryptable password does not fail it); id and website pass through |
| DatabaseServices.LoadRowColumns | services/database_service.py:49-58 | a loaded row's username, email and notes are the columns with NULL as ""; its password is decrypt of the stored text; its dates are read as above |
| DatabaseServices.LoadRows | services/database_service.py:48-59 | loading succeeds exactly when every row's dates can be read, and then gives one entry per row |
| DatabaseServices.LoadRowsEach | services/database_service.py:48-59 | each loaded entry is the conversion of the row at the same position |
| DatabaseServices.LoadRowsFails | services/database_service.py:48-59 | one unreadable row makes the whole load fail |
| DatabaseServices.LoadRowsOfEach | services/database_service.py:48-59 | rows converted one by one, with none failing, are the load of the table |
| DatabaseServices.LoadKeepsKeys | services/database_service.py:50-51 | each loaded entry keeps the id and website of its row |
| DatabaseServices.LoadedEntriesMatchTable | services/database_service.py:37-61 | on a well-formed table a load gives exactly one entry per stored row: every stored id appears, no id twice, in non-decreasing website order |
| DatabaseServices.PermutationKeepsIds | services/database_service.py:41-46 | reordering the rows loses no id |
| DatabaseServices.UpdateById | services/database_service.py:83-97 | UPDATE ... WHERE id=? rewrites website, username, email, password, notes and date_modified of the matching row, keeps its id and date_created, and leaves every other row as it was |
| DatabaseServices.DeleteById | services/database_service.py:105-111 | DELETE keeps exactly the rows with other ids and changes nothing when no row has the id; the contract speaks of membership, and the order of what is kept follows from DeleteKeepsOrder |
| DatabaseServices.DeleteKeepsOrder | services/database_service.py:105-111 | deleting keeps the table well formed: ids positive, strictly increasing and not above the counter |
| DatabaseServices.AppendKeepsTable | services/database_service.py:69-82 | a row under the next AUTOINCREMENT id, appended, keeps the table well formed |
| DatabaseServices.UpdateKeepsTable | services/database_service.py:83-97 | an update keeps the table well formed |
| DatabaseServices.InsertThenLoad | services/database_service.py:67-82 | a row written by INSERT loads back as the saved entry under its new id: the password decrypts to what was typed, the notes and other texts come back verbatim |
| DatabaseServices.UpdateThenLoad | services/database_service.py:83-97 | a row rewritten by UPDATE loads back with the edited fields, the new modification time and its original creation date |
| DatabaseServices.DatabaseService.constructor | services/database_service.py:9-12 | the service holds the encryption service built from the master password, over a well-formed stored table |
| DatabaseServices.DatabaseService.EntryOfRow | services/database_service.py:49-58 | builds a fresh entry whose value is the row's conversion, or reports that the conversion fails |
| DatabaseServices.DatabaseService.GetAllEntries | services/database_service.py:37-61 | returns fresh entries whose values are the load of the table in website order, one per stored row, or fails exactly when that load fails |
| DatabaseServices.DatabaseService.EntriesOfRows | services/database_service.py:48-59 | the loop appends one fresh entry per row, in order, and stops at the first row that cannot be converted |
| DatabaseServices.InsertedRow | services/database_service.py:70-82 | the INSERTed row holds the new id, the website, the ciphertext as password, the username, email and notes that read back as the entry's, and date columns that parse back to the entry's dates |
| DatabaseServices.DatabaseService.SaveEntry | services/database_service.py:63-103 | see below this table |
| DatabaseServices.DatabaseService.DeleteEntry | services/database_service.py:105-114 | deletes the rows with that id and reports success even when none matched; a storage failure leaves the table and returns false |
| Text.Strip | gui/entry_window.py:117-134 | str.strip(): the result is the input minus its leading and trailing whitespace; it is empty exactly when the input is all whitespace |
| Text.StripTrimmed | gui/entry_window.py:117-118 | a text with no whitespace at either end is left as it is |
| Text.StripIdempotent | gui/entry_window.py:117-118 | stripping twice is stripping once |
| Text.StripAppendSpace | gui/entry_window.py:134 | the newline the Tk text box appends makes no difference once the notes are stripped |
| Text.LowerChar | gui/main_window.py:135-143 | str.lower() on one character: each capital becomes the small letter 32 code points above it, no capital remains, and nothing else changes |
| Text.Lower | gui/main_window.py:135-143 | lower-casing works character by character and keeps the length |
| Text.LowerIdempotent | gui/main_window.py:135-143 | lower-casing the lower-cased query again changes nothing |
| Text.Contains | gui/main_window.py:141-143 | Python's `q in s`: the scan holds exactly when q occurs in s at some position |
| Text.IsSpace | gui/entry_window.py:117-118 | the characters str.isspace() accepts in ASCII: space, tab, LF, VT, FF, CR and the separators 0x1C-0x1F, and no others |
| Text.LexLe | services/database_service.py:45 | ORDER BY website under code-point order: a comes first exactly when it is a prefix of b or has the smaller character where the two first differ |
| Text.EmptyIsContained | gui/main_window.py:136-137 | the empty query occurs in every text |
| Text.LexLeTotal | services/database_service.py:45 | any two websites are ordered one way or the other |
| Text.LexLeTransitive | services/database_service.py:45 | the website order is transitive |
| Text.LexLeAntisymmetric | services/database_service.py:45 | two websites ordered both ways are equal |
| MainWindows.NotesPreview | gui/main_window.py:126 | notes of up to 50 characters are shown whole; longer notes show their first 50 characters followed by "..." |
| MainWindows.DisplayRow | gui/main_window.py:121-127 | a tree row is tagged with the entry's id, shows its website, username and email, one "*" per password character, and the notes preview |
| MainWindows.Matches | gui/main_window.py:141-143 | an entry matches exactly when the lower-cased query occurs in its lower-cased website, username or email |
| MainWindows.Filter | gui/main_window.py:139-144 | the search keeps exactly the entries that match, in their order, and adds none |
| MainWindows.FilterKeepsEveryCopy | gui/main_window.py:139-144 | each matching entry occurs in the filtered list as often as in the full list, and any other entry not at all |
| MainWindows.FilterEmptyQuery | gui/main_window.py:135-144 | filtering with the empty query keeps the whole list, so the separate empty-search branch agrees with the comprehension |
| MainWindows.MatchIgnoresPasswordAndNotes | gui/main_window.py:141-143 | entries that agree on website, username and email match the same queries, whatever their passwords and notes |
| MainWindows.IndexOfId | gui/main_window.py:157-160 | the first position holding an entry with the id, or the length of the list if none has it |
| MainWindows.SubsequenceMembers | gui/main_window.py:139-144 | every entry of the filtered list is in the full list |
| MainWindows.SubsequenceReflexive | gui/main_window.py:134-137 | a copy of the list is one of its own subsequences |
| MainWindows.MainWindow.constructor | gui/main_window.py:10-21 | the window starts with empty lists and an empty search, then loads: when the table loads, the entries hold the loaded values in order, the filtered list is the whole list, the tree shows one display row per entry in order, the count is the number of entries and the status reads "Ready"; when it fails, the failure is recorded, both lists and the tree stay empty, the count stays 0 and the status "Ready" |
| MainWindows.MainWindow.RefreshTree | gui/main_window.py:114-127 | the tree shows one row per filtered entry, in order |
| MainWindows.MainWindow.UpdateStatus | gui/main_window.py:129-132 | the count label is the length of the filtered list and the status reads "Ready" |
| MainWindows.MainWindow.LoadEntries | gui/main_window.py:105-112 | the list becomes the database's entries in website order and the filtered list the whole list, whatever the search text; the tree shows one display row per entry in order, the count is the number of entries and the status reads "Ready"; a failed load shows an error and keeps both lists, the tree, the count and the status |
| MainWindows.MainWindow.ShowEntries | gui/main_window.py:107-110 | the list and the filtered list become the loaded entries, and the tree and the count are redrawn |
| MainWindows.MainWindow.ReportLoadFailure | gui/main_window.py:111-112 | the error is recorded and nothing else changes |
| MainWindows.MainWindow.OnSearch | gui/main_window.py:134-147 | the filtered list becomes the whole list for an empty lower-cased search text, and otherwise the matching entries; it is always a subsequence of the list; the tree shows one display row per filtered entry in order, the count is their number and the status reads "Ready" |
| MainWindows.MainWindow.GetSelectedEntry | gui/main_window.py:149-160 | no selection gives None; otherwise the first entry of the full list, not the filtered one, whose id is the selected tag, or None if no entry has it |
| EntryWindows.SaveForm | gui/entry_window.py:116-137 | Save is refused exactly when the stripped website or the stripped password is empty, with the website checked first; an accepted form gives the stripped texts, keeps id and timestamps, and is well formed |
| EntryWindows.ReopenAndSaveKeepsEntry | gui/entry_window.py:116-137 | opening a well-formed entry and saving it unchanged gives back the same entry |
| EntryWindows.CharRange | gui/entry_window.py:110 | a run of consecutive characters of the given length |
| EntryWindows.PasswordAlphabetMembers | gui/entry_window.py:110 | the generator's alphabet holds exactly the ASCII letters, the digits and "!@#$%^&*" |
| EntryWindows.AlphabetHasNoSpace | gui/entry_window.py:110 | the generator's alphabet has 70 characters, none of them whitespace |
| EntryWindows.GeneratedPassword | gui/entry_window.py:109-111 | a generated password has 16 characters, each from the letters, digits and "!@#$%^&*" |
| EntryWindows.GeneratedPasswordPassesSave | gui/entry_window.py:111-128 | a generated password survives the strip in Save and is never refused as empty |
| EntryWindows.GeneratorCoversAlphabet | gui/entry_window.py:109-111 | every 16-character text over the alphabet can be generated |
| EntryWindows.EntryWindow.constructor | gui/entry_window.py:8-30 | an entry that is given is edited in place and titled "Edit Entry"; without one a fresh default entry is titled "Add Entry"; the widgets show the entry's fields and there is no result yet |
| EntryWindows.EntryWindow.LoadEntryData | gui/entry_window.py:100-105 | the five widgets show the entry's five texts |
| EntryWindows.EntryWindow.GeneratePassword | gui/entry_window.py:107-114 | the password box is replaced by the generated password |
| EntryWindows.EntryWindow.Save | gui/entry_window.py:116-137 | a refused form shows its message and changes neither the entry nor the result; an accepted one writes the form's value into the entry, makes that same entry the result and closes the window |
| EntryWindows.EntryWindow.Accept | gui/entry_window.py:130-137 | the five stripped texts are written into the entry, which becomes the result, and the window closes |
| EntryWindows.EntryWindow.Cancel | gui/entry_window.py:139-141 | the result is None and the window closes |
| EntryWindows.EntryWindow.Show | gui/entry_window.py:150-153 | the result is None or the window's own entry, well formed |
| LoginWindows.CheckLogin | gui/login_window.py:57-69 | a password is accepted exactly when it has at least 6 characters, and then verbatim; an empty one and a short one are refused with their own messages |
| LoginWindows.ThresholdIsSix | gui/login_window.py:64-66 | a 6-character password is accepted and the same password one character shorter is refused as too short |
| LoginWindows.LoginWindow.constructor | gui/login_window.py:5-6 | no master password yet |
| LoginWindows.LoginWindow.Login | gui/login_window.py:57-69 | a refusal shows its message and leaves the master password as it was; an accepted password is kept as typed and the window's loop ends |
| LoginWindows.LoginWindow.Cancel | gui/login_window.py:71-72 | the loop ends and the master password is left untouched |
| LoginWindows.LoginWindow.Show | gui/login_window.py:74-76 | returns the accepted master password, which has at least 6 characters, or None |

`DatabaseServices.DatabaseService.SaveEntry` states the following.

- The password is encrypted and stored. Notes and the other texts are
  stored as they are.
- With id 0 the entry is inserted under the next AUTOINCREMENT id. That id
  is above every earlier one, and it is not written back into the entry.
- With any other id, the entry's date_modified is first set to the clock.
  Then the matching row is rewritten (see UpdateById).
- A failure to open the database comes before all of this. It returns
  false and changes nothing, not even the entry's date_modified.
- A failure of the statement or the commit comes after the stamp. It
  returns false and leaves the table unchanged.
- The table stays well formed in every case.

## Left out

- Tkinter is not modelled. This covers widget construction, layout, window
  geometry and centering, event bindings, grab and modality, and the main
  loop. Widget contents are fields and dialogs are flags.
- Message boxes are not modelled. The validation dialogs of the entry
  window are recorded as `errorMessage`. The main window's load error is
  recorded as `loadFailed`, and its status texts are not tracked apart
  from "Ready".
- `_add_entry`, `_edit_entry` and `_delete_entry` are not modelled. They
  only chain a window, a service call and a reload. The same holds for the
  clipboard copies (pyperclip), the context menu, `_lock_app` and main.py:
  foreign side effects and process plumbing.
- SQLite plumbing is not modelled: connections, the database file path,
  `os.makedirs` and `CREATE TABLE`. The table is an in-memory sequence of
  rows in rowid order, not a map from id to row. Ordering by id is what
  makes the strictly-increasing-ids invariant expressible.
- `delete_entry`'s failure path covers only a storage failure, given as a
  parameter. The `print` of the error in the except branches of
  `save_entry` and `delete_entry` is not modelled.
- Ties in `ORDER BY website` are not modelled as the engine does them.
  SQLite leaves the order of equal websites unspecified. The model keeps
  rowid order among them, and the proved properties do not depend on it.
- Collation is simplified. SQLite's BINARY collation compares UTF-8 bytes,
  which for valid text is the code-point order `Text.LexLe` uses.
- `Text.Strip` and `Text.Lower`: whitespace and case are ASCII only.
  Python's Unicode `isspace` and `lower` rules are left out, because they
  are Unicode tables the model does not carry.
- `Base64Url.Decode`: strict where Python is lenient. `urlsafe_b64decode`
  first maps "-" and "_" to "+" and "/", so it also reads "+" and "/" as 62
  and 63. It drops other characters outside the alphabet, and it stops at
  the first padding that completes a quartet, ignoring what follows. This
  decoder fails on all of these. `decrypt` maps every failure to "", and
  `encrypt` never produces such text, so only ciphertexts that `encrypt`
  did not produce can read differently.
- The insides of PBKDF2-HMAC-SHA256, Fernet (AES-128-CBC, HMAC-SHA256, the
  token's timestamp and TTL) and UTF-8 are not modelled. They are library
  code and enter only through `CryptoLibrary.Sound`.
- `CryptoLibrary.Sound` idealises Fernet's rejection of a wrong key. A
  Fernet key is a 16-byte signing half and a 16-byte encryption half, and
  a token is checked only with the signing half. Under a different key
  with the same signing half, the check passes and decryption fails only
  with high probability, on the padding or the UTF-8. The contract says it
  always fails.
- Randomness and time are parameters, not effects. This covers Fernet's IV
  and clock, `secrets.choice` (the `picks` sequence) and `datetime.now`.
  `get_all_entries` reads the clock once per call, as one `now`; the source
  reads it once per defaulted column.
- Timestamps are integers. ISO 8601 text is abstract (`Timestamps.IsoCodec`).
- `DatabaseServices.LoadRow`: its own contract states only when it
  succeeds and that id and website pass through. The column mapping is
  stated by `DatabaseServices.LoadRowColumns`, and kept out of LoadRow to
  keep the proofs about whole loads small.
- `MainWindows.MainWindow.LoadEntries`: it states each loaded entry's
  value, not that the entries are fresh objects. Freshness is stated by
  `DatabaseServices.DatabaseService.GetAllEntries`.
- `LoginWindows.LoginWindow.Cancel`: it states only that the loop ends.
  That `show` then returns None when no login succeeded follows from its
  frame: Cancel cannot change the master password, and `Show` returns that
  field.
