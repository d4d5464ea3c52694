# SPAM — Simple PAssword Manager, modelled in Dafny

SPAM keeps a table of account names and secrets in one encrypted file. The file holds
the lines `name=secret`, encrypted with AES-256 in CBC mode with PKCS#7 padding and an
all-zero IV, under a key that is the SHA-256 digest of the user's password. The
command-line front end (`SPAManager`) picks one command from its options: list, add,
show, update, delete, dump, import, rename, search or merge. It runs that command
against the `PasswordContainer`, which holds the table in memory and saves it back.

The model covers four parts:

- `Encryption` (`encryption.dfy`) models `EncryptionManager`. It covers key derivation,
  serialising the table to lines, and the line parser of `decrypt` as a loop. It also
  covers `performCryptographicOperation`, which fills a preallocated array from the
  padded CBC cipher (`cipher.dfy`, built on an abstract AES engine). The main results:
  - A table whose names and secrets fit the line format reads back exactly
    (`SaveLoadRoundTrip`).
  - The zero bytes that decryption leaves at the end of the array become one token of
    NUL characters. The parser logs that token as an invalid entry and otherwise
    ignores it.
- `Container` (`password_container.dfy`) models `PasswordContainer` as a class whose
  table is updated in place. Merging follows what the container's test asks of it, with
  the unique suffix supplied from outside.
- `Manager` (`spa_manager.dfy`) models `SPAManager` as a class holding the container
  and the list of events shown to the user. The command choice is a pure function.
  Each handler states how the table changes and what is shown and saved.
- `Menu` (`menu_options.dfy`) models `MenuOptions` and its lookup by id.

The supporting modules give the library behaviour the core relies on:
- `Bytes`: bytes and XOR.
- `Utf8`: `String.getBytes` and `new String` in UTF-8.
- `StringUtils`: commons-lang `split`, `isBlank`, `containsIgnoreCase` and
  `difference`, `String.indexOf`, and the natural `String` order.
- `Files`: `FileProxy`.
- `Wrappers`: `Option`, `Result` and `Outcome`.

## Model

| member | source | states |
|---|---|---|
| Bytes.XorCancel | src/main/java/com/softinite/spam/encrdecr/EncryptionManager.java:54 | XOR-ing with the same block twice gives back the original bytes: what makes CBC chaining invertible |
| Utf8.DecodeEncode | src/main/java/com/softinite/spam/encrdecr/EncryptionManager.java:76 | decoding the UTF-8 bytes of any string gives that string back |
| Utf8.DecodeEncodeThen | src/main/java/com/softinite/spam/encrdecr/EncryptionManager.java:88 | decoding an encoded string followed by more bytes gives the string followed by the decoding of the rest |
| Utf8.DecodeZeros | src/main/java/com/softinite/spam/encrdecr/EncryptionManager.java:88 | n zero bytes decode to n NUL characters |
| StringUtils.Split | src/main/java/com/softinite/spam/encrdecr/EncryptionManager.java:89 | no token is empty and no token contains the separator |
| StringUtils.SplitToken | src/main/java/com/softinite/spam/encrdecr/EncryptionManager.java:89 | a token followed by the separator splits off as the first token |
| StringUtils.SplitAppend | src/main/java/com/softinite/spam/encrdecr/EncryptionManager.java:89 | splitting text that ends at a separator, followed by more text, gives the tokens of both parts in order |
| StringUtils.SplitSingle | src/main/java/com/softinite/spam/encrdecr/EncryptionManager.java:89 | a non-empty string without the separator is its own single token |
| StringUtils.IndexOf | src/main/java/com/softinite/spam/encrdecr/EncryptionManager.java:93 | -1 exactly when the character is absent, otherwise the position of its first occurrence |
| StringUtils.ContainsIgnoreCase | src/main/java/com/softinite/spam/SPAManager.java:237 | true exactly when the pattern matches, ignoring case, at some position of the string |
| StringUtils.Difference | src/main/java/com/softinite/spam/SPAManager.java:126 | the result is the rest of the second string after the longest prefix it shares with the first; its first character differs from the first string there, or the first string ends there; it is empty exactly when the second string is a prefix of the first |
| StringUtils.LessIrreflexive | src/main/java/com/softinite/spam/SPAManager.java:238 | no string sorts before itself |
| StringUtils.LessTransitive | src/main/java/com/softinite/spam/SPAManager.java:238 | the string order used by `sorted()` is transitive |
| StringUtils.LessTotal | src/main/java/com/softinite/spam/SPAManager.java:238 | any two different strings are ordered one way or the other |
| StringUtils.LeastExists | src/main/java/com/softinite/spam/SPAManager.java:238 | every non-empty set of strings has a least element |
| StringUtils.SortedSeq | src/main/java/com/softinite/spam/SPAManager.java:238 | the sorted sequence is strictly ascending and holds exactly the elements of the set |
| Cipher.PadLength | src/main/java/com/softinite/spam/encrdecr/EncryptionManager.java:54 | PKCS#7 adds 1 to 16 bytes and brings the length to a whole number of blocks |
| Cipher.Pad | src/main/java/com/softinite/spam/encrdecr/EncryptionManager.java:54 | the padded input starts with the input and every added byte holds the pad length |
| Cipher.PadCountOfPad | src/main/java/com/softinite/spam/encrdecr/EncryptionManager.java:54 | the padding check on the last padded block succeeds and finds the pad length |
| Cipher.CbcRoundTrip | src/main/java/com/softinite/spam/encrdecr/EncryptionManager.java:54 | CBC decryption undoes CBC encryption from the same chaining value |
| Cipher.CbcEncryptSplit | src/main/java/com/softinite/spam/encrdecr/EncryptionManager.java:54 | encrypting in two pieces, the second chained from the first's last block, equals encrypting the whole |
| Cipher.CbcDecryptSplit | src/main/java/com/softinite/spam/encrdecr/EncryptionManager.java:54 | the same for decryption |
| Cipher.OutputFits | src/main/java/com/softinite/spam/encrdecr/EncryptionManager.java:46-48 | what `processBytes` and `doFinal` write fits the array of `getOutputSize` bytes |
| Cipher.EncryptionFillsOutput | src/main/java/com/softinite/spam/encrdecr/EncryptionManager.java:45-49 | on encryption the two calls write exactly the CBC encryption of the padded input, filling the array |
| Cipher.DecryptionOfEncryption | src/main/java/com/softinite/spam/encrdecr/EncryptionManager.java:45-49 | decrypting that ciphertext succeeds and writes exactly the plaintext, while the array has room for the padding too |
| Files.TrimSeparatorsIsPrefix | src/main/java/com/softinite/spam/encrdecr/FileProxy.java:27-28 | dropping the trailing separators keeps a prefix of the path that no longer ends in a separator, and drops nothing else |
| Files.LastComponentIsSuffix | src/main/java/com/softinite/spam/encrdecr/FileProxy.java:27-28 | the last component holds no separator, ends the path, and follows a separator unless it is the whole path |
| Files.FileNameIsLast | src/main/java/com/softinite/spam/encrdecr/FileProxy.java:27-28 | `getName()` holds no separator and is the last name of the path once its trailing separators are dropped |
| Files.FileNameOfName | src/main/java/com/softinite/spam/encrdecr/FileProxy.java:27-28 | a name without a separator is its own `getName()` |
| Files.Open | src/main/java/com/softinite/spam/SPAManager.java:88-92 | the proxy keeps the path it was made from, exists exactly when a file is at that path, and a missing file is empty |
| Files.Touch | src/main/java/com/softinite/spam/SPAManager.java:122 | afterwards the file at the same path exists; an existing file is left alone and a new one is empty |
| Encryption.GenerateKey | src/main/java/com/softinite/spam/encrdecr/EncryptionManager.java:62-68 | the key is 32 bytes and is the digest of the password's UTF-8 bytes |
| Encryption.BuildCipher | src/main/java/com/softinite/spam/encrdecr/EncryptionManager.java:52-60 | both directions use the AES engine and the same key derived from the password |
| Encryption.CryptographicOutput | src/main/java/com/softinite/spam/encrdecr/EncryptionManager.java:45-50 | on success the returned array has exactly `getOutputSize` bytes |
| Encryption.Overwrite | src/main/java/com/softinite/spam/encrdecr/EncryptionManager.java:47-48 | the array after a copy holds the copied bytes at their positions and its old bytes everywhere else |
| Encryption.OverwriteZeros | src/main/java/com/softinite/spam/encrdecr/EncryptionManager.java:46-48 | writing the `processBytes` output and then the `doFinal` output into a zeroed array leaves both in front, followed by zeros |
| Encryption.WriteAt | src/main/java/com/softinite/spam/encrdecr/EncryptionManager.java:47-48 | a cipher call writing into the output array changes exactly the positions it writes |
| Encryption.PerformCryptographicOperation | src/main/java/com/softinite/spam/encrdecr/EncryptionManager.java:45-50 | the array holds what the cipher wrote and zeros after it; a padding failure is returned as an error |
| Encryption.EncryptionOutputIsExact | src/main/java/com/softinite/spam/encrdecr/EncryptionManager.java:45-50 | on encryption the array is exactly the CBC encryption of the padded input, with no zeros left |
| Encryption.DecryptionOutputCarriesZeros | src/main/java/com/softinite/spam/encrdecr/EncryptionManager.java:45-50 | on decryption of what encryption wrote, the array is the plaintext followed by one zero byte per padding byte |
| Encryption.PlainText | src/main/java/com/softinite/spam/encrdecr/EncryptionManager.java:72-75 | the serialised text is empty or ends with a line break |
| Encryption.LoadPlainText | src/main/java/com/softinite/spam/encrdecr/EncryptionManager.java:70-79 | a null table and an empty table both give no bytes |
| Encryption.ParseToken | src/main/java/com/softinite/spam/encrdecr/EncryptionManager.java:92-100 | blank exactly for blank tokens; an entry splits at the first `=` into a non-empty key without `=` and the rest; invalid exactly when a non-blank token has no `=` or starts with one |
| Encryption.ParsedStep | src/main/java/com/softinite/spam/encrdecr/EncryptionManager.java:91-101 | one more turn of the parsing loop applies that token to the table and logs it exactly when it is invalid |
| Encryption.Decrypt | src/main/java/com/softinite/spam/encrdecr/EncryptionManager.java:81-104 | the parsing loop builds the table of all the tokens and returns the invalid ones as warnings; cipher failures propagate |
| Encryption.IterationOrder | src/main/java/com/softinite/spam/encrdecr/EncryptionManager.java:72-74 | the order lists every key exactly once |
| Encryption.Encrypt | src/main/java/com/softinite/spam/encrdecr/EncryptionManager.java:34-43 | the named file holds the encryption of the serialised table in some iteration order |
| Encryption.ParseEntry | src/main/java/com/softinite/spam/encrdecr/EncryptionManager.java:93-97 | `key=value` with a non-empty key free of `=` parses to that key and value, even when the value holds `=` |
| Encryption.LaterLineWins | src/main/java/com/softinite/spam/encrdecr/EncryptionManager.java:97 | a later line for the same key overwrites the earlier one |
| Encryption.UnusableLineIgnored | src/main/java/com/softinite/spam/encrdecr/EncryptionManager.java:92-100 | a blank or invalid token leaves the table unchanged; only a non-blank one is logged |
| Encryption.ParseLine | src/main/java/com/softinite/spam/encrdecr/EncryptionManager.java:75-97 | one serialised line splits to its single token, which parses back to its entry |
| Encryption.Restrict | src/main/java/com/softinite/spam/encrdecr/EncryptionManager.java:72-75 | the entries of the table at exactly the visited keys |
| Encryption.PlainTextParses | src/main/java/com/softinite/spam/encrdecr/EncryptionManager.java:70-100 | parsing the serialised lines of a well-formed table gives back its entries, with no warnings |
| Encryption.PlainTextStep | src/main/java/com/softinite/spam/encrdecr/EncryptionManager.java:72-75 | appending one serialised line adds exactly that account to what the text parses to, and no warning |
| Encryption.RestrictSnoc | src/main/java/com/softinite/spam/encrdecr/EncryptionManager.java:72-75 | visiting one more key adds that key's account to the visited entries |
| Encryption.SplitTrailingNuls | src/main/java/com/softinite/spam/encrdecr/EncryptionManager.java:88-89 | trailing NUL characters after the last line break form one extra token |
| Encryption.NulTokenIsInvalid | src/main/java/com/softinite/spam/encrdecr/EncryptionManager.java:92-100 | that token is neither blank nor an entry |
| Encryption.DecryptsToPlainText | src/main/java/com/softinite/spam/encrdecr/EncryptionManager.java:34-43 | the bytes `encrypt` writes decrypt to the serialised text followed by one NUL per padding byte |
| Encryption.TextWithNulsParses | src/main/java/com/softinite/spam/encrdecr/EncryptionManager.java:88-103 | that text parses to the table it serialises, with the NUL run as the only warning |
| Encryption.SaveLoadRoundTrip | src/main/java/com/softinite/spam/encrdecr/EncryptionManager.java:34-104 | decrypting what `encrypt` wrote for a well-formed table gives back exactly that table, logging one invalid entry of 1 to 16 NULs |
| Encryption.DecryptRejectsPartialBlock | src/main/java/com/softinite/spam/encrdecr/EncryptionManager.java:83-86 | empty content, or content that is not whole blocks, fails with an incomplete last block |
| Container.Suffixed | src/test/java/com/softinite/spam/encrdecr/PasswordContainerTest.java:58 | the suffixed name starts with the name and is longer by the suffix plus one |
| Container.SuffixedInjective | src/test/java/com/softinite/spam/encrdecr/PasswordContainerTest.java:58 | different names stay different under the same suffix |
| Container.Added | src/test/java/com/softinite/spam/encrdecr/PasswordContainerTest.java:57 | exactly the accounts only the other table has, with its secrets |
| Container.Renamed | src/test/java/com/softinite/spam/encrdecr/PasswordContainerTest.java:56-58 | every conflicting account under its suffixed name with the other table's secret, and nothing else |
| Container.MergedSpec | src/test/java/com/softinite/spam/encrdecr/PasswordContainerTest.java:23-59 | own accounts kept, absent ones added, identical ones not duplicated, conflicting ones added under the suffixed name, nothing else |
| Container.MergeInOrderIsMerged | src/test/java/com/softinite/spam/encrdecr/PasswordContainerTest.java:44-51 | merging entry by entry in any order of the other table gives the same merged table |
| Container.MergeEntryStep | src/test/java/com/softinite/spam/encrdecr/PasswordContainerTest.java:44-51 | merging one more entry of the other table into the merge of the rest gives the merge of both |
| Container.MergeScenarioInOrder | src/test/java/com/softinite/spam/encrdecr/PasswordContainerTest.java:40-51 | merging the test's other table entry by entry (new, identical, conflicting) gives the own accounts plus the new one plus the conflicting one under its suffixed name |
| Container.MergeScenario | src/test/java/com/softinite/spam/encrdecr/PasswordContainerTest.java:40-58 | for any distinct names and a fresh suffix, the test's merge is exactly that five-entry table |
| Container.MergeExample | src/test/java/com/softinite/spam/encrdecr/PasswordContainerTest.java:40-58 | the test's merge yields exactly five accounts (the three own ones, the new one and `acct3_123`) with the secrets it asserts |
| Container.InitialAccounts | src/main/java/com/softinite/spam/encrdecr/PasswordContainer.java:29-33 | a zero-length file loads as the empty table without decrypting |
| Container.InitAfterSave | src/main/java/com/softinite/spam/encrdecr/PasswordContainer.java:25-58 | a file `save` wrote loads back under the same password as the table that was saved |
| Container.PasswordContainer.Init | src/main/java/com/softinite/spam/encrdecr/PasswordContainer.java:25-34 | password, the file's bare name (`getName()`) and manager are recorded; the table is what the file loads to, unchanged on a cipher failure |
| Container.PasswordContainer.Decrypt | src/main/java/com/softinite/spam/encrdecr/PasswordContainer.java:36-38 | the table becomes the decrypted one; the other fields stay |
| Container.PasswordContainer.DoesAccountExist | src/main/java/com/softinite/spam/encrdecr/PasswordContainer.java:92-94 | membership of the name, by value |
| Container.PasswordContainer.LoadKeys | src/main/java/com/softinite/spam/encrdecr/PasswordContainer.java:40-42 | exactly the names for which an account exists |
| Container.PasswordContainer.LoadSecret | src/main/java/com/softinite/spam/encrdecr/PasswordContainer.java:84-86 | the secret of an existing account, and nothing for a missing one |
| Container.PasswordContainer.AddAccount | src/main/java/com/softinite/spam/encrdecr/PasswordContainer.java:52-54 | upsert: the name has the new secret and every other name keeps its own |
| Container.PasswordContainer.Modify | src/main/java/com/softinite/spam/encrdecr/PasswordContainer.java:96-98 | the same upsert, with no existence check |
| Container.PasswordContainer.Remove | src/main/java/com/softinite/spam/encrdecr/PasswordContainer.java:88-90 | the name no longer exists, every other account keeps its secret, and a missing name changes nothing |
| Container.PasswordContainer.Rename | src/main/java/com/softinite/spam/SPAManager.java:224 | the table becomes what the supplied rename gives |
| Container.PasswordContainer.ImportAccounts | src/main/java/com/softinite/spam/SPAManager.java:209 | the table becomes what the supplied import gives |
| Container.PasswordContainer.MergeFrom | src/test/java/com/softinite/spam/encrdecr/PasswordContainerTest.java:48-58 | the table becomes the merge of the old table with the other container's |
| Container.PasswordContainer.Save | src/main/java/com/softinite/spam/encrdecr/PasswordContainer.java:56-58 | the recorded file receives the table encrypted under the recorded password; a well-formed table decrypts back to itself |
| Menu.Values | src/main/java/com/softinite/spam/cli/MenuOptions.java:8-16 | nine constants in declaration order, the one at position i having id i |
| Menu.FirstWithId | src/main/java/com/softinite/spam/cli/MenuOptions.java:30-37 | a constant with the id when one is listed, `NONE` when none is |
| Menu.From | src/main/java/com/softinite/spam/cli/MenuOptions.java:30-37 | the loop with its early return finds the first constant with the id |
| Menu.FromRange | src/main/java/com/softinite/spam/cli/MenuOptions.java:30-36 | ids 0 to 8 find the constant with that id; any other id and null give `NONE` |
| Menu.FromId | src/main/java/com/softinite/spam/cli/MenuOptions.java:8-35 | looking up the id of any constant finds that constant |
| Manager.Requested | src/main/java/com/softinite/spam/SPAManager.java:94-116 | the requested commands never include the no-command case |
| Manager.RequestedFlags | src/main/java/com/softinite/spam/SPAManager.java:95-104 | the commands requested by the five plain flags never include the no-command case |
| Manager.RequestedFiles | src/main/java/com/softinite/spam/SPAManager.java:105-115 | the commands requested by the last five options never include the no-command case |
| Manager.SelectCommand | src/main/java/com/softinite/spam/SPAManager.java:94-116 | no command exactly when none is requested, otherwise the first requested in the order list, new, show, update, delete, dump, import, rename, search, merge |
| Manager.SearchResults | src/main/java/com/softinite/spam/SPAManager.java:231-240 | strictly ascending, and exactly the names containing the pattern ignoring case |
| Manager.ValidateNewName | src/main/java/com/softinite/spam/SPAManager.java:257-263 | an existing name fails with `ACCT_ALREADY_EXISTS` followed by the name; any other is returned as it is |
| Manager.ShownEach | src/main/java/com/softinite/spam/SPAManager.java:239 | one message per text, in order |
| Manager.ListStep | src/main/java/com/softinite/spam/SPAManager.java:130-133 | listing keeps the table, saves nothing and ends normally; its one message is the set of all names |
| Manager.NewStep | src/main/java/com/softinite/spam/SPAManager.java:135-146 | adding gives the named account the secret read, keeping every other one, always saves the table as the last act, and ends normally |
| Manager.ShowStep | src/main/java/com/softinite/spam/SPAManager.java:148-157 | showing keeps the table, saves nothing and ends normally; the one message is the secret of an existing name, or `ACCT_NOT_FOUND_MSG` followed by a missing name |
| Manager.UpdateStep | src/main/java/com/softinite/spam/SPAManager.java:159-173 | an existing name, or a missing one after a yes, gets the new secret and the table is saved as the last act; a missing name without a yes changes nothing and saves nothing; it always ends normally |
| Manager.DeleteStep | src/main/java/com/softinite/spam/SPAManager.java:175-184 | an existing name is removed and the table saved, as the only event; a missing name changes nothing and saves nothing; it always ends normally |
| Manager.DumpStep | src/main/java/com/softinite/spam/SPAManager.java:186-199 | dumping keeps the table, saves nothing and ends normally; a blank name or an existing target shows one error, and otherwise the accounts are dumped to that name |
| Manager.ImportStep | src/main/java/com/softinite/spam/SPAManager.java:201-215 | a blank name or a missing file shows one error and changes and saves nothing; otherwise the table becomes the import of that file and is saved, as the only event; it always ends normally |
| Manager.RenameStep | src/main/java/com/softinite/spam/SPAManager.java:218-229 | a missing old name is reported and changes and saves nothing; an existing new name fails with `ACCT_ALREADY_EXISTS` followed by it and keeps the table; otherwise the table becomes the rename and is saved as the last act; the table changes only when the old name exists and the new one does not |
| Manager.SearchStep | src/main/java/com/softinite/spam/SPAManager.java:231-240 | searching keeps the table, saves nothing and ends normally; it shows the search results (the matching names in ascending order), one message each |
| Manager.MergeStep | src/main/java/com/softinite/spam/SPAManager.java:242-255 | when the other file loads under its password, the table becomes the merge of the two (`Merged`, whose properties `MergedSpec` states) and is saved, as the only event, even when the merge changes nothing, and it ends normally; when loading fails, the table is kept, nothing is shown and it fails with `CannotDecrypt` and the cause |
| Manager.ReadOnlyKeepsAccounts | src/main/java/com/softinite/spam/SPAManager.java:94-116 | whichever of list, show, dump and search is selected keeps the table, saves nothing and ends normally |
| Manager.ChangesAreSaved | src/main/java/com/softinite/spam/SPAManager.java:94-116 | whichever command is selected, a changed table is saved to the storage file as the command's last act |
| Manager.FailureChangesNothing | src/main/java/com/softinite/spam/SPAManager.java:94-116 | whichever command is selected, a failure keeps the table and saves nothing |
| Manager.SPAManager.SaveContainer | src/main/java/com/softinite/spam/SPAManager.java:145 | the save is recorded with the file name and the table |
| Manager.SPAManager.ListAllAccounts | src/main/java/com/softinite/spam/SPAManager.java:130-133 | shows the set of all names and leaves the container untouched: exactly `ListStep` |
| Manager.SPAManager.AddAccountNamed | src/main/java/com/softinite/spam/SPAManager.java:141-146 | upserts the secret read and saves once |
| Manager.SPAManager.AddAccount | src/main/java/com/softinite/spam/SPAManager.java:135-139 | reads the name and upserts it as above: the table and events are exactly `NewStep`'s |
| Manager.SPAManager.ShowSecret | src/main/java/com/softinite/spam/SPAManager.java:148-157 | shows the secret of an existing account and the not-found error for a missing one: exactly `ShowStep` |
| Manager.SPAManager.ModifySecret | src/main/java/com/softinite/spam/SPAManager.java:159-173 | an existing account is updated and saved; a missing one is offered and added (and saved) only on yes: exactly `UpdateStep` |
| Manager.SPAManager.RemoveAccount | src/main/java/com/softinite/spam/SPAManager.java:175-184 | an existing account is removed and saved; a missing one changes nothing and is not saved: exactly `DeleteStep` |
| Manager.SPAManager.DumpAccounts | src/main/java/com/softinite/spam/SPAManager.java:186-199 | a blank name and an existing file are refused; otherwise the accounts are dumped: exactly `DumpStep` |
| Manager.SPAManager.ImportAccounts | src/main/java/com/softinite/spam/SPAManager.java:201-215 | a blank name and a missing file are refused and change nothing; otherwise the import is applied and saved: exactly `ImportStep` |
| Manager.SPAManager.RenameAccount | src/main/java/com/softinite/spam/SPAManager.java:218-229 | renames and saves only when the old name exists and the new one does not; an existing new name fails with `ACCT_ALREADY_EXISTS`: exactly `RenameStep`, whose outcome is returned |
| Manager.SPAManager.SearchAccounts | src/main/java/com/softinite/spam/SPAManager.java:231-240 | shows the search results one by one: exactly `SearchStep` |
| Manager.SPAManager.MergeFiles | src/main/java/com/softinite/spam/SPAManager.java:242-255 | the other file is loaded with its own password (a missing file gives no accounts), merged in and saved; a decryption failure changes nothing: exactly `MergeStep`, whose outcome is returned |
| Manager.SPAManager.CreateFile | src/main/java/com/softinite/spam/SPAManager.java:118-128 | on a matching confirmation the file is touched, recorded under its bare name, and the empty table saved to it once; otherwise it fails with the difference and touches nothing |
| Manager.SPAManager.ExecuteUserCommand | src/main/java/com/softinite/spam/SPAManager.java:94-116 | the table and events become exactly those of the handler `SelectCommand` picks (`CommandStep`), whose outcome is returned; no command changes nothing; the container keeps its password, file and manager, and help is never shown |
| Manager.SPAManager.RunReadOnly | src/main/java/com/softinite/spam/SPAManager.java:95-112 | listing, showing, searching and dumping take exactly their handler's step, end normally, leave the container untouched and never show help |
| Manager.SPAManager.RunUpdating | src/main/java/com/softinite/spam/SPAManager.java:97-115 | adding, updating, deleting, importing, renaming and merging take exactly their handler's step and return its outcome; they keep the container's password, file and manager and never show help |
| Manager.SPAManager.RunEditing | src/main/java/com/softinite/spam/SPAManager.java:97-104 | adding, updating and deleting take exactly their handler's step and end normally |
| Manager.SPAManager.RunLoading | src/main/java/com/softinite/spam/SPAManager.java:107-115 | importing, renaming and merging take exactly their handler's step and return its outcome |
| Manager.SPAManager.ExecuteWithFile | src/main/java/com/softinite/spam/SPAManager.java:74-86 | an existing file is loaded with the password read and recorded under its bare name; a cipher failure ends the run, otherwise the selected command takes its step on the loaded table; a missing file asked to be created is touched and saved empty on a matching confirmation and fails with the difference otherwise; a missing file not to be created is reported by its bare name |
| Manager.SPAManager.Execute | src/main/java/com/softinite/spam/SPAManager.java:57-72 | a blank or absent file option shows help and nothing else; otherwise `executeWithFile` runs, with all its effects, on the file opened at the given path |

## Left out

- AES, CBC chaining inside BouncyCastle and SHA-256 are not modelled. The AES engine is a pair of keyed block functions that are assumed to invert each other. The digest is any function that yields 32 bytes. `Cipher` rebuilds the padded CBC buffering over that engine from the library's documented behaviour; it is not the library's code.
- Files are not modelled as I/O. A file is a snapshot: path, existence and bytes. `exists`, `isEmpty` and `touch` use the full path, but `decrypt` reads and `save` writes through the bare name (`getName()`), that is, in the working directory. The model's bytes are those at the path, so it agrees with the program only when the path has no directory part. Paths use the Unix separator `/` only.
- The console is not modelled. Every prompt's answer is a field of `Answers`. The blank-name check that the console tests expect is not in the shown `readAccountName`, so it is not modelled.
- Command-line parsing (JCommander, the help flag, `showHelp`'s text, `main`) is not modelled. The options are plain fields.
- The platform default charset and `System.lineSeparator()` are fixed as UTF-8 and "\n". With "\r\n" every secret would read back with a trailing carriage return.
- Utf8.Decode: a malformed byte decodes to one U+FFFD and consumes one byte. Java replaces maximal invalid subsequences instead. The two agree on every valid encoding, and only output from a wrong password is affected.
- Java strings are UTF-16. The model's characters are code points, so `sorted()` compares code points and `containsIgnoreCase` folds only ASCII letters.
- The hash iteration order of `Properties` is not modelled. `encrypt` may write the lines in any order, and `EncryptsTo` quantifies over that order.
- Container.PasswordContainer.Rename, Container.PasswordContainer.ImportAccounts: their bodies are not shown. The resulting table is a function supplied by the caller, and `dumpToNewFile` is only an event.
- Container.PasswordContainer.MergeFrom: its body is not shown. It follows the test's assertions with one suffix for all conflicting names, and it requires the suffix to be fresh. The manager takes `generateUniqueSuffix` as a function of both tables assumed to keep that promise.
- Container.PasswordContainer.LoadKeys: Java returns a live view of the keys; the model returns the set at the time of the call.
- Encryption.Decrypt: the logged warnings are returned but not written anywhere. Logging in general is not modelled.
- Decryption under a wrong password is not characterised: the padding check may fail or the text may be garbage.
- The checked exceptions of I/O and of the JCE are not modelled. The runtime exceptions of `createFile` and `readAndValidateNewName` and the cipher failure are returned as `Error` values. The nulls of an uninitialised container are not modelled: a fresh container has an empty table, and `save` requires `init` to have run.
- Menu labels are modelled but no property is stated about them.
