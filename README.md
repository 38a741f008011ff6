# Secure Document Management System — a Dafny model of its core

The system stores documents encrypted at rest. On upload, a document gets a fresh AES-256
key. The file is encrypted with AES-CBC under a random IV and written to
`uploads/encrypted_<name>` as `IV || ciphertext`. The AES key is wrapped with RSA-OAEP
under the owner's public key, base64-encoded and stored in the `documents` table beside
the hex SHA-256 digest of the plaintext. Download reverses the chain with a private key
the caller supplies. It writes `downloads/decrypted_<name>` only when the digest of the
decrypted data matches the stored one. Users register with a SHA-256 password hash and
log in against it. Sharing adds a `(document, user)` row to `document_shares`.

The model has five modules:

- `Crypto` (crypto.py) holds the envelope's building blocks.
  - AES-CBC, RSA-OAEP, SHA-256 and base64 are function-valued fields of a `Primitives`
    record.
  - What the model relies on about them is stated once, as the predicates `AesSound`,
    `RsaSound`, `RsaMismatch`, `HashSound` and `B64Sound`.
  - `Ideal` is one choice of primitives that meets them all (`IdealIsSound`), so these
    assumptions are consistent.
  - Everything around the library calls is concrete: PKCS#7 padding (section 6.3 of
    RFC 5652), the IV framing, hex digests, the chunked file hash and the OAEP payload
    limit (section 7.1.1 of RFC 8017).
  - Randomness is an explicit `Entropy` source.
- `Storage` (database.py) is a `Database` class.
  - The three tables are sequences of rows in rowid order.
  - The AUTOINCREMENT counters are fields of the class.
  - The UNIQUE constraints are the invariant `Valid`.
  - Queries are functions of the tables.
- `Auth` (auth.py) has an `AuthManager` class whose `RegisterUser` changes the store.
  Login, the admin check and password hashing are functions.
- `Documents` (document_manager.py) has a `DocumentManager` class over a `Database` and a
  file system, which is a map from path to bytes.
  - Upload is proved against `Seal` and download against `Open`.
  - `OwnerOpensSealed` and `OpensOnlyWithSealingKey` state which keys open an envelope.
- `Scenario` (the flow cli.py drives) enrols two users, uploads, shares twice and
  downloads.

As written, sharing records a row but stores no key for the recipient, and download
never consults `document_shares`. The only wrapped key is the owner's. A recipient whose
keypair differs from the owner's therefore cannot open a shared document: the unwrap
fails. `OpensOnlyWithSealingKey` proves this for every requester. `ShareThenDownload`
shows it in one scenario: the share succeeds, the recipient's download fails, and the
owner's download returns the file. The code has no per-recipient re-wrap of the document
key on share, and the model follows the code. The premise of that scenario, two users
with different public keys, can be met: `IdealKeysDiffer` gives two such keypairs under
the `Ideal` primitives.

## Model

| member | source | states |
|---|---|---|
| Crypto.GetRandomBytes | crypto.py:42 | the n random bytes are the first n bytes of the entropy source, in order |
| Crypto.GenerateAesKey | crypto.py:36-38 | a document key is 32 bytes, a valid AES key length |
| Crypto.Pad | crypto.py:45-46 | the padded text is block-aligned, 1 to 16 bytes longer, starts with the data and ends in bytes equal to the pad length |
| Crypto.Unpad | crypto.py:57-58 | empty input fails as zero-length; unaligned input and a last byte of 0 or above 16 fail; a success needs an aligned input of at least one block and returns it minus its last 1 to 16 bytes |
| Crypto.UnpadPad | crypto.py:46-58 | unpadding the padding of any data gives the data back |
| Crypto.PadUnpad | crypto.py:46-58 | any input unpad accepts is exactly the padding of what it returns |
| Crypto.UnpadIsInverse | crypto.py:46-58 | unpad returns `data` if and only if `padded` is the padding of `data` |
| Crypto.EncryptWithAes | crypto.py:40-49 | succeeds exactly for 16, 24 or 32-byte keys; output is the drawn IV followed by a ciphertext as long as the padded data |
| Crypto.DecryptWithAes | crypto.py:51-60 | a success needs a valid key and a block-aligned body after a full 16-byte IV; the plaintext is 1 to 16 bytes shorter than the body |
| Crypto.AesRoundTrip | crypto.py:40-60 | decrypting what encryption produced under the same key returns the original data |
| Crypto.GenerateRsaKeypair | crypto.py:14-20 | the pair is (public key, private key), the public key being the public half of the generated private key |
| Crypto.EncryptWithRsa | crypto.py:22-27 | OAEP encryption under a public key, None when it raises; what it promises is stated by RsaRoundTrip and OpensOnlyWithSealingKey |
| Crypto.DecryptWithRsa | crypto.py:29-34 | OAEP decryption under a private key, None when it raises; it recovers what the matching public key wrapped (RsaRoundTrip) and fails for any other (OpensOnlyWithSealingKey) |
| Crypto.RsaRoundTrip | crypto.py:14-34 | under a generated keypair, wrapping any payload up to the OAEP limit succeeds and unwrapping with the private half recovers it |
| Crypto.HexDigest | crypto.py:75 | the hex text has two lower-case hex digits per byte |
| Crypto.HexDigestInjective | crypto.py:75 | two digests have the same hex text if and only if they are the same bytes |
| Crypto.CalculateDataHash | crypto.py:73-75 | the data hash is 64 lower-case hex characters |
| Crypto.CalculateFileHash | crypto.py:62-71 | hashing a file chunk by chunk gives the data hash of its whole content; a missing file gives nothing |
| Crypto.DataHashesEqual | document_manager.py:86-89 | comparing hex hashes, as the integrity check does, is comparing SHA-256 digests |
| Storage.FetchOne | database.py:85-86 | fetchone returns a matching row of the table, and none exactly when no row matches |
| Storage.GetUser | database.py:80-89 | the result is a row with that username, and none exactly when no row has it |
| Storage.GetUserById | database.py:91-100 | the result is a row with that id, and none exactly when no row has it |
| Storage.GetDocument | database.py:118-127 | the result is a document row with that id, and none exactly when no row has it |
| Storage.GetUserDocuments | database.py:129-143 | a document is listed if and only if it is in the table and owned by the user |
| Storage.GetSharedDocuments | database.py:162-179 | a document is listed, with an owner's name, exactly when it is stored, has a share row for the user and that owner's row exists (the join) |
| Storage.GetUserFindsRow | database.py:21-31 | with unique usernames, get_user of a stored row's name returns that very row |
| Storage.GetDocumentFindsRow | database.py:34-45 | with increasing primary keys, get_document of a stored row's id returns that very row |
| Storage.InsertedDocumentListed | database.py:102-143 | an inserted document joins its owner's list and leaves every other user's list unchanged |
| Storage.InsertedShareListed | database.py:145-179 | a share row puts the document, with its owner's name, in the target's shared list and changes no one else's |
| Storage.KeysUpdateLookup | database.py:181-193 | the key update keeps every row's id and name and unique names; afterwards get_user finds the updated row; an unknown name changes nothing |
| Storage.Database.constructor | database.py:15-61 | a new database has empty tables and counters at zero, and satisfies the table constraints |
| Storage.Database.AddUser | database.py:63-78 | insert succeeds exactly when the name is free; the new row takes the next id, larger than every earlier one; a failure changes nothing |
| Storage.Database.AddDocument | database.py:102-116 | the returned id is the next counter value, larger than every stored id; the row is appended and get_document finds it |
| Storage.Database.ShareDocument | database.py:145-160 | insert succeeds exactly when the pair is not yet shared; only the share table changes |
| Storage.Database.UpdateUserKeys | database.py:181-193 | every row with that name gets both keys, every other row is untouched; the constraints still hold |
| Auth.HashPassword | auth.py:9-11 | a password hash is 64 lower-case hex characters |
| Auth.LoginUser | auth.py:25-43 | "User not found" exactly when no row has the name; success only for a row whose stored hash is the password's; "Invalid password" only for a row whose hash differs |
| Auth.LoginAfterRegister | auth.py:13-43 | after a registration, login succeeds if and only if the attempt's SHA-256 equals the password's, and returns the new id and role; otherwise "Invalid password" |
| Auth.AdminAfterLogin | auth.py:45-47 | the admin check on login's result holds exactly when login succeeded for a row whose role is "admin" |
| Auth.IsAdmin | auth.py:45-47 | true only for present user data whose role is "admin"; on login's result this is exactly a successful login of an admin row (AdminAfterLogin) |
| Auth.AuthManager.constructor | auth.py:6-7 | the manager works on the given database |
| Auth.AuthManager.RegisterUser | auth.py:13-23 | registration succeeds exactly when the name is free; it then appends a row with the password's hash, never the password, and the given role; otherwise "Username already exists" and nothing changes |
| Documents.BaseName | document_manager.py:42 | the base name holds no '/', ends the path, and is preceded there by a '/' unless it is the whole path |
| Documents.UploadPathCollides | document_manager.py:42-44 | two uploads write the same ciphertext file if and only if their paths have the same base name |
| Documents.Seal | document_manager.py:26-50 | an envelope exists exactly when wrapping the fresh key succeeds; it carries the plaintext's data hash and a ciphertext of IV plus padded length |
| Documents.DecryptEnvelope | document_manager.py:68-83 | the decode, unwrap, read and decrypt chain in source order; its failures are never the integrity failure, and a plaintext comes only from an existing ciphertext file, shorter than it |
| Documents.Open | document_manager.py:68-89 | a failure of the decryption chain is returned as is; a decrypted plaintext is returned exactly when its data hash equals the stored file hash, and otherwise the result is the integrity failure, which arises in no other way |
| Documents.OpenIgnoresOwner | document_manager.py:60-104 | download's outcome never depends on owner_id |
| Documents.OwnerOpensSealed | document_manager.py:26-89 | the private half of the keypair whose public half sealed a document opens it and gets the plaintext back |
| Documents.OpensOnlyWithSealingKey | document_manager.py:36-76 | for a document sealed under a generated keypair's public key, another generated key opens it if and only if its public half is that key; any other generated key fails at the unwrap |
| Documents.DocumentManager.constructor | document_manager.py:8-12 | the manager works on the given database, primitives and files |
| Documents.DocumentManager.UploadDocument | document_manager.py:19-58 | a missing file gives "File not found"; success exactly when sealing succeeds; the ciphertext goes to uploads/encrypted_<basename> and a row with the next id, base name, path, hash and wrapped key is appended; a failure writes nothing |
| Documents.DocumentManager.DownloadDocument | document_manager.py:60-104 | an unknown id gives "Document not found"; otherwise the outcome is that of opening the envelope; only a success writes downloads/decrypted_<filename> |
| Documents.DocumentManager.ShareDocumentWithUser | document_manager.py:106-122 | a missing document or wrong owner is refused, then an unknown target; otherwise the share succeeds exactly when the pair is new; only the share table changes |
| Documents.DocumentManager.ListUserDocuments | document_manager.py:124-126 | a document is listed if and only if the user owns it |
| Documents.DocumentManager.ListSharedDocuments | document_manager.py:128-130 | a document is listed, with an owner's name, exactly when it is stored, has a share row for the user and that owner's row exists (the join) |
| Scenario.RegisterWithKeys | cli.py:38-44 | registration succeeds exactly when the name is free, and then one row with the hash and both generated keys is appended; a taken name changes no row, so the existing user keeps their keys |
| Scenario.KeysLandOnNewRow | database.py:181-193 | right after an insert, the key update touches the new row alone |
| Scenario.Enrol | cli.py:26-46 | two registrations on an empty database give rows 1 and 2 with their hashes and keypairs |
| Scenario.Publish | document_manager.py:19-58 | after enrolment, the first user logs in and uploads; document 1 holds the sealed envelope under that user's public key, and both users can log in |
| Scenario.ShareTwice | document_manager.py:106-122 | the owner's first share with a registered user succeeds and the second is refused as already shared |
| Scenario.DownloadBoth | document_manager.py:60-104 | a download with a key that cannot unwrap fails; one with the key that can writes the plaintext to downloads/decrypted_<filename>; that one path is the only change to the file system |
| Scenario.ShareThenDownload | document_manager.py:60-122 | after a successful share, the recipient's download fails while the owner's returns the original file |

## Left out

- The command-line front end (cli.py, main.py) is left out as I/O. Only its register, login, upload, share and download sequence appears, in `Scenario`. cli.py defines `login` twice; the second definition, which does not regenerate keys, is the one Python keeps.
- The real ciphers are not modelled. AES, RSA-OAEP, SHA-256 and base64 are treated as functions obeying the stated predicates.
  - OAEP's randomness is not modelled: encryption is a function of key and payload.
  - `RsaMismatch` idealises OAEP. Decrypting with a private key whose public half did not encrypt always raises; a real scheme fails only with overwhelming probability.
  - `RsaMismatch` speaks only of public keys exported from generated keypairs, and identifies a key with that exported text. `RSA.import_key` also accepts a private key's PEM, and OAEP then encrypts under its public half; wrapping under such other encodings of a key is not modelled.
- Keys are PEM text. The `bytes`/`str` conversions between the CLI and the crypto calls (`encode('utf-8')`, `decode('utf-8')`) are left out.
- Documents.Seal: the freshness of the IV and of the document key is not stated. Both come from caller-supplied entropy sources.
- SQLite connections, commits and `created_at`/`uploaded_at`/`shared_at` timestamps are left out. So are the share table's own id column and the `ORDER BY` of the list queries, which is why those queries return sets.
- Foreign keys are declared but not enforced by SQLite, so `owner_id` and share ids are plain integers in the model.
- `ensure_upload_dir` and the `os.makedirs` of the downloads directory are left out: the file system is a map from path to bytes with no directories.
- `os.path.join` is modelled for a relative file name only.
- Documents.BaseName follows POSIX `os.path.basename`, which splits on '/' only. On Windows, `ntpath.basename` also splits on '\\' and after a drive letter; that behaviour is not modelled.
- `Documents.UploadOutcome.Message` and `Documents.DownloadOutcome.Message`: the failure texts end at the fixed prefix. The exception text that follows is not modelled.
- Storage.Database.constructor starts from an empty database file. Reopening an existing `sdms.db` is not modelled.
