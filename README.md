# OpenPGPCrypto batch encryption, modelled in Dafny

`OpenPGPCrypto` (AppManager's `crypto` package) encrypts or decrypts a batch
of files through an out-of-process OpenPGP provider. It waits for the provider
service to be bound. It then takes the files one after the other:
- it derives the output path (`.gpg` appended on encryption, the path cut at
  its last `.gpg` on decryption) and records it in `newFiles`;
- it opens input and output and lets the provider transform one into the other;
- it classifies the reply into `successFlag` / `errorFlag` and waits;
- it then either deletes the output and gives up, or, when encrypting, deletes
  the plaintext and goes on.

This model keeps that control logic. It abstracts the environment:
- The binding is a function `ready: nat -> bool` that says what the k-th poll
  of the service finds.
- Each file gets a `Batch.FileOutcome` that says what happens to it: the
  provider's reply (result code and pending intent), the place where an
  `IOException` is thrown if any, whether `file.delete()` succeeds and whether
  `IOUtils.deleteSilently` removes the output.
- The file system is the set of existing paths, held in the object as `disk`.

Files:
- `output_path.dfy`: the path policy and its round trips.
- `key_ids.dfy`: the constructor's key-id parsing (`split(",")`, `Long.parseLong`,
  and the loop that fills the array).
- `provider_result.dfy`: `handleResult` as a function on the two flags.
- `batch.dfy`: `doAction` as a function (`Run`) of the batch, the outcomes and
  the file system, with the lemmas about it. `Run` takes the output name of
  each file (`Names`, None where deriving it throws) as an argument; the
  derivation is pure, so this is the same as deriving it in the loop, which
  the method `DoAction` does.
- `open_pgp_crypto.dfy`: the class `OpenPgpCrypto`, whose methods (`HandleFiles`,
  `DoAction`, `HandleResult`, the two waits, `GetNewFiles`) are proved against
  those functions.

## Quirks of the code that the model reproduces

- **Outputs of a failed batch.** The failing file's output is recorded in
  `newFiles` before the attempt. So a batch that fails at its n-th file lists
  n outputs, the failing file's included. Also, `|newFiles| == |files|` holds
  when the last file fails as well as when the batch succeeds.
- **Nothing is rolled back.** A batch that returns false leaves the outputs
  of the files before the failing one in place and, when encrypting, their
  plaintexts deleted. An `IOException` while closing the output leaves that
  output on disk too; only a stop on `errorFlag` deletes it.
- **Unknown codes and interaction replies.** A reply with an unknown result
  code, or an interaction-required reply that carries an intent, raises
  neither flag. Nothing raises a flag during `waitForResult`, so the wait
  runs out (1002 sleeps) and the file counts as done.
- **Failed intent hand-off.** A failed hand-off of the intent is only logged.
  It is not an error.
- **Wait budget.** Both waits break once their counter exceeds 1000, the
  service wait included.
- **Where decryption cuts.** It cuts at the last `.gpg` anywhere in the
  absolute path, directory names included. It does not look for a trailing
  suffix; a name ending in `.gpg` is cut there only because that is the last
  occurrence. A path without `.gpg` makes `substring(0, -1)` throw
  `StringIndexOutOfBoundsException`, modelled as the outcome
  `ThrowsIndexOutOfBounds`.
- **Empty key-id fields.** `split` drops trailing empty fields of the key-id
  preference, except that an empty preference splits into one empty field.
  `Long.parseLong` throws on every remaining empty field, that one included,
  so the object cannot be built.

## Model

| member | source | states |
|---|---|---|
| `OutputPath.LastIndexOf` | app/src/main/java/io/github/muntashirakon/AppManager/crypto/OpenPGPCrypto.java:106 | -1 exactly when the extension does not occur; otherwise an index where it occurs with none after it |
| `OutputPath.EncryptPath` | app/src/main/java/io/github/muntashirakon/AppManager/crypto/OpenPGPCrypto.java:107 | the output starts with the input and ends with ".gpg", four characters longer |
| `OutputPath.DecryptPath` | app/src/main/java/io/github/muntashirakon/AppManager/crypto/OpenPGPCrypto.java:106 | the output is the prefix of the input that ends where the last ".gpg" starts; requires that ".gpg" occurs |
| `OutputPath.RoundTrip` | app/src/main/java/io/github/muntashirakon/AppManager/crypto/OpenPGPCrypto.java:106-107 | decrypting the encrypted name of any path gives the path back |
| `OutputPath.EncryptAfterDecrypt` | app/src/main/java/io/github/muntashirakon/AppManager/crypto/OpenPGPCrypto.java:106-107 | re-encrypting a decrypted name restores it if and only if the name ends in ".gpg" |
| `OutputPath.OutputFor` | app/src/main/java/io/github/muntashirakon/AppManager/crypto/OpenPGPCrypto.java:104-107 | the direction picks the expression; there is no output path exactly when decrypting a path without ".gpg" (where `substring(0, -1)` throws), and an output path never equals its input path |
| `OutputPath.DecryptCutsAtDirectory` | app/src/main/java/io/github/muntashirakon/AppManager/crypto/OpenPGPCrypto.java:106 | a file without the extension in a directory named `*.gpg` decrypts to that directory's path |
| `KeyIds.ParseLong` | app/src/main/java/io/github/muntashirakon/AppManager/crypto/OpenPGPCrypto.java:67 | a value exactly when, after an optional sign, the text is a non-empty run of decimal digits whose signed value fits a long; that value is the result, negative only after a '-' |
| `KeyIds.ParseDecimal` | app/src/main/java/io/github/muntashirakon/AppManager/crypto/OpenPGPCrypto.java:67 | every long written in decimal (with '-' when negative) parses back to itself |
| `KeyIds.Fields` | app/src/main/java/io/github/muntashirakon/AppManager/crypto/OpenPGPCrypto.java:65 | at least one field, none containing a comma |
| `KeyIds.JoinFields` | app/src/main/java/io/github/muntashirakon/AppManager/crypto/OpenPGPCrypto.java:65 | the fields joined with commas give the string back |
| `KeyIds.DropTrailingEmpty` | app/src/main/java/io/github/muntashirakon/AppManager/crypto/OpenPGPCrypto.java:65 | a prefix of the fields, ending in a non-empty one, with only empty fields removed |
| `KeyIds.SplitOnComma` | app/src/main/java/io/github/muntashirakon/AppManager/crypto/OpenPGPCrypto.java:65 | without a comma the whole string is the one piece; otherwise the pieces are the leading fields, ending in a non-empty one, and only empty fields are dropped |
| `KeyIds.SplitOnCommaExact` | app/src/main/java/io/github/muntashirakon/AppManager/crypto/OpenPGPCrypto.java:65 | for a preference not ending in a comma, split returns exactly its fields, which join back to it |
| `KeyIds.ParseKeyIds` | app/src/main/java/io/github/muntashirakon/AppManager/crypto/OpenPGPCrypto.java:64-67 | one key id per split field, each the parsed field, in order; None exactly when some field does not parse |
| `ProviderResult.ResultCode` | app/src/main/java/io/github/muntashirakon/AppManager/crypto/OpenPGPCrypto.java:199 | the code read is the RESULT_CODE extra when present; it is ERROR exactly when the extra is absent or is ERROR |
| `ProviderResult.AfterResult` | app/src/main/java/io/github/muntashirakon/AppManager/crypto/OpenPGPCrypto.java:197-225 | successFlag iff the code (ERROR when absent) is SUCCESS; errorFlag iff already raised, or ERROR, or interaction-required without an intent; never both when errorFlag was clear |
| `ProviderResult.ResultOutcomes` | app/src/main/java/io/github/muntashirakon/AppManager/crypto/OpenPGPCrypto.java:198-224 | from errorFlag clear, exactly four outcomes; neither flag exactly for an interaction reply with an intent or an unknown code |
| `Batch.Attempt` | app/src/main/java/io/github/muntashirakon/AppManager/crypto/OpenPGPCrypto.java:110-131 | one file goes on iff errorFlag is clear, the input exists and the environment lets it through; then disk is the old disk plus the output (minus the input when encrypting); a missing or unopenable input or an unopenable output changes neither disk nor flags; a failed output close returns false with the output left in place; an error reply (no IOException) returns false and removes the output when deleteSilently works; when encrypting, a failed plaintext delete (no IOException, no error reply) returns false with both files on disk; from errorFlag clear only an error reply or a failed close leaves errorFlag raised |
| `Batch.AttemptFrame` | app/src/main/java/io/github/muntashirakon/AppManager/crypto/OpenPGPCrypto.java:110-131 | one attempt changes at most its input and its output on disk, and decrypting never removes anything but the output |
| `Batch.Run` | app/src/main/java/io/github/muntashirakon/AppManager/crypto/OpenPGPCrypto.java:103-108 | from any point of the loop: newFiles keeps what it had and gains at most one entry per remaining file, the k-th new entry being the output name of the k-th file reached, in input order |
| `Batch.RunEnds` | app/src/main/java/io/github/muntashirakon/AppManager/crypto/OpenPGPCrypto.java:103-137 | all remaining files get an output on true, at least the failing one on false, and an exception happens exactly at a file without output name |
| `Batch.BatchOutputs` | app/src/main/java/io/github/muntashirakon/AppManager/crypto/OpenPGPCrypto.java:96-108 | after a batch, newFiles[k] is the output path of files[k] for every k; on true it has one entry per file; on false at least one; the exception comes from a decrypt path without ".gpg" |
| `Batch.RunFrame` | app/src/main/java/io/github/muntashirakon/AppManager/crypto/OpenPGPCrypto.java:103-131 | any path that is neither a reached input nor a recorded output exists after the loop exactly when it existed before; files after the failing one are not touched |
| `Batch.DecryptKeepsInputs` | app/src/main/java/io/github/muntashirakon/AppManager/crypto/OpenPGPCrypto.java:116-131 | when decrypting, every existing path that is not a recorded output still exists afterwards |
| `Batch.CompletedDisk` | app/src/main/java/io/github/muntashirakon/AppManager/crypto/OpenPGPCrypto.java:103-137 | after a batch that returns true, a path exists iff it existed before or is a recorded output, and (encrypting) is not an input; provided no output name is an input |
| `Batch.RunCreatesOnlyOutputs` | app/src/main/java/io/github/muntashirakon/AppManager/crypto/OpenPGPCrypto.java:103-131 | the loop creates nothing but the outputs it records: a path that did not exist and is not one of them still does not exist afterwards |
| `Batch.AbortKeepsEarlierFiles` | app/src/main/java/io/github/muntashirakon/AppManager/crypto/OpenPGPCrypto.java:116-131 | a batch that returns false keeps every output recorded before the failing file's and, when encrypting, has deleted every input before the failing file; provided outputs are distinct and none is an input |
| `Batch.CompletedOnlyIfClean` | app/src/main/java/io/github/muntashirakon/AppManager/crypto/OpenPGPCrypto.java:116-131 | a non-empty batch returns true only if errorFlag started clear and every file had no IOException, no error reply and (encrypting) a deleted plaintext; errorFlag stays clear |
| `Batch.CleanBatchCompletes` | app/src/main/java/io/github/muntashirakon/AppManager/crypto/OpenPGPCrypto.java:103-137 | existing, nameable inputs (distinct when encrypting) that the environment lets through make the batch return true |
| `Batch.BatchCompletesIff` | app/src/main/java/io/github/muntashirakon/AppManager/crypto/OpenPGPCrypto.java:100-137 | for a well-formed batch, true exactly when every file is let through |
| `Batch.ErrorOnlyOnStop` | app/src/main/java/io/github/muntashirakon/AppManager/crypto/OpenPGPCrypto.java:116-124 | errorFlag ends raised only after a stop on an error reply or a failed close of the output |
| `Batch.ErrorCleanup` | app/src/main/java/io/github/muntashirakon/AppManager/crypto/OpenPGPCrypto.java:116-124 | a stop on errorFlag leaves it raised and follows an error reply for the last file reached |
| `Batch.ErrorRemovesOutput` | app/src/main/java/io/github/muntashirakon/AppManager/crypto/OpenPGPCrypto.java:116-120 | after a stop on errorFlag, the last recorded output is gone when deleteSilently works |
| `Batch.StopsAtFirstFailure` | app/src/main/java/io/github/muntashirakon/AppManager/crypto/OpenPGPCrypto.java:103-131 | the batch returns false at the first file not let through, with the outputs of that file and all before it recorded, the failing file's last; an error reply there removes its output when deleteSilently works, a failed close keeps it, a failed plaintext delete keeps input and output |
| `Batch.EmptyBatch` | app/src/main/java/io/github/muntashirakon/AppManager/crypto/OpenPGPCrypto.java:101-102 | an empty batch returns true with newFiles empty and the disk unchanged |
| `Batch.SecondOfTwoFails` | app/src/main/java/io/github/muntashirakon/AppManager/crypto/OpenPGPCrypto.java:103-131 | encrypting two files where the second is rejected: false, both outputs listed, the first input deleted and its output kept, the second output deleted |
| `Batch.InteractionCountsAsSuccess` | app/src/main/java/io/github/muntashirakon/AppManager/crypto/OpenPGPCrypto.java:114-116 | an interaction-required reply with an intent lets the file through as done |
| `Crypto.BoundWaitExit` | app/src/main/java/io/github/muntashirakon/AppManager/crypto/OpenPGPCrypto.java:164-177 | the service loop stops at the first poll that finds the service, or at poll 1001 |
| `Crypto.StaysBoundFrom` | app/src/main/java/io/github/muntashirakon/AppManager/crypto/OpenPGPCrypto.java:165 | a binding that persists is seen by every later poll |
| `Crypto.BoundWaitVerdict` | app/src/main/java/io/github/muntashirakon/AppManager/crypto/OpenPGPCrypto.java:163-179 | with a persistent binding, the wait reports whether the service is bound by poll 1002 |
| `Crypto.OpenPgpCrypto.constructor` | app/src/main/java/io/github/muntashirakon/AppManager/crypto/OpenPGPCrypto.java:62-70 | stores key ids, provider and file system; flags clear, no batch, no outputs |
| `Crypto.OpenPgpCrypto.Create` | app/src/main/java/io/github/muntashirakon/AppManager/crypto/OpenPGPCrypto.java:62-70 | fails exactly when a key-id field does not parse; otherwise a fresh object whose key ids are the parsed fields |
| `Crypto.OpenPgpCrypto.Encrypt` | app/src/main/java/io/github/muntashirakon/AppManager/crypto/OpenPGPCrypto.java:85-91 | handleFiles in encrypt mode; never throws |
| `Crypto.OpenPgpCrypto.Decrypt` | app/src/main/java/io/github/muntashirakon/AppManager/crypto/OpenPGPCrypto.java:78-83 | handleFiles in decrypt mode |
| `Crypto.OpenPgpCrypto.HandleFiles` | app/src/main/java/io/github/muntashirakon/AppManager/crypto/OpenPGPCrypto.java:93-98 | unbound: false with nothing changed (newFiles keeps the previous batch); bound: files, newFiles, disk and flags are those of doAction from a cleared newFiles |
| `Crypto.OpenPgpCrypto.DoAction` | app/src/main/java/io/github/muntashirakon/AppManager/crypto/OpenPGPCrypto.java:100-138 | result, newFiles, disk and flags are exactly those of `Batch.DoActionRun` (the loop over the batch's output names) from errorFlag cleared |
| `Crypto.OpenPgpCrypto.DoFile` | app/src/main/java/io/github/muntashirakon/AppManager/crypto/OpenPGPCrypto.java:104-131 | one pass of the loop body: from the state `Batch.Run` expects before file i, either goes on in the state it expects before file i+1, or returns what `Batch.Run` ends with (false, or the exception of a path without output name) in its final state |
| `Crypto.OpenPgpCrypto.TryFile` | app/src/main/java/io/github/muntashirakon/AppManager/crypto/OpenPGPCrypto.java:110-131 | goes on, and leaves disk and flags, exactly as `Batch.Attempt` says |
| `Crypto.OpenPgpCrypto.GetNewFiles` | app/src/main/java/io/github/muntashirakon/AppManager/crypto/OpenPGPCrypto.java:142-144 | a fresh array with the contents of newFiles |
| `Crypto.OpenPgpCrypto.WaitForServiceBound` | app/src/main/java/io/github/muntashirakon/AppManager/crypto/OpenPGPCrypto.java:163-179 | the answer is the poll after the loop's exit poll; false when no poll up to 1002 finds the service; true at once when the first two do |
| `Crypto.OpenPgpCrypto.WaitForResult` | app/src/main/java/io/github/muntashirakon/AppManager/crypto/OpenPGPCrypto.java:181-195 | no sleep when a flag is raised, 1002 sleeps (the timeout) otherwise; the flags are unchanged |
| `Crypto.OpenPgpCrypto.HandleResult` | app/src/main/java/io/github/muntashirakon/AppManager/crypto/OpenPGPCrypto.java:197-225 | the new flags are `ProviderResult.AfterResult` of the reply and the old flags |

## Left out

- Binding and unbinding the service (`bind`, `close`, the `OnBound` callbacks) run over Android IPC. The model has the oracle `ready` instead, and `close` is not modelled.
- The OpenPGP transform itself (`OpenPgpApi.executeApi`) and the bytes of the streams are not modelled. The key ids are parsed and kept, but nothing uses them. The reply is modelled by its result code and by whether it carries a pending intent. The `OpenPgpError` detail is only logged.
- `startIntentSender` is not modelled. Its `SendIntentException` is only logged and changes no flag.
- `Thread.sleep`, `InterruptedException` and `interrupt()` are timing and thread matters. Only the counters are kept, and `WaitForResult` reports its sleeps.
- Logging, `AppPref` and `AppManager.getContext()` are not modelled. The two preferences are parameters of `Create`.
- The input stream's `close` is taken never to fail. Only a failure to close the output is modelled.
- Paths are plain strings. The normalisation `new File(...)` applies (for example, to a trailing separator) is not modelled.
- KeyIds.ParseLong: reads ASCII digits only; the non-ASCII decimal digits that Character.digit also accepts are not modelled.
- WaitForServiceBound: the poll results are taken as given. Concurrent changes to the flags during `waitForResult` are not modelled, since only `handleResult` writes them, synchronously.
