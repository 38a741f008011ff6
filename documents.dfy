/**
 * The document protocol of document_manager.py: upload seals a file into an envelope
 * (ciphertext on disk, hash and wrapped key in the documents table), download opens it
 * with the private key the caller supplies, and share adds a row to document_shares.
 *
 * Files on disk are a map from path to content. Download looks only at the document
 * row and the supplied key: it never consults owner_id or document_shares, and the
 * only wrapped key stored is the owner's.
 */
module Documents {
  import opened Wrappers
  import opened Crypto
  import opened Storage

  const UploadDir := "uploads"
  const DownloadDir := "downloads"

  /** os.path.basename on POSIX: what follows the last '/'. */
  function BaseName(path: string): (name: string)
    ensures '/' !in name
    ensures |name| <= |path| && path[|path| - |name|..] == name
    ensures |name| < |path| ==> path[|path| - |name| - 1] == '/'
  {
    if path == [] || path[|path| - 1] == '/' then []
    else BaseName(path[..|path| - 1]) + [path[|path| - 1]]
  }

  /** os.path.join(upload_dir, f"encrypted_{filename}"). */
  function UploadPath(filename: string): string {
    UploadDir + "/encrypted_" + filename
  }

  /** os.path.join(download_dir, f"decrypted_{original_filename}"). */
  function DownloadPath(filename: string): string {
    DownloadDir + "/decrypted_" + filename
  }

  /** The ciphertext path depends on the base name alone: two uploads whose paths share a
      base name write the same file, and only those do. */
  lemma UploadPathCollides(path1: string, path2: string)
    ensures UploadPath(BaseName(path1)) == UploadPath(BaseName(path2)) <==> BaseName(path1) == BaseName(path2)
  {
    var prefix := UploadDir + "/encrypted_";
    var p1, p2 := UploadPath(BaseName(path1)), UploadPath(BaseName(path2));
    if p1 == p2 {
      assert p1[|prefix|..] == BaseName(path1);
      assert p2[|prefix|..] == BaseName(path2);
    }
  }

  // ----- Sealing and opening an envelope -----

  /** What upload produces from a plaintext: the IV-framed ciphertext written to disk,
      the hex digest of the plaintext, and the base64 of the AES key wrapped under the
      owner's public key. None when the RSA call raises. */
  datatype Envelope = Envelope(blob: bytes, fileHash: string, encryptedKey: string)

  function Seal(c: Primitives, data: bytes, keySource: Entropy, ivSource: Entropy, ownerPublicKey: string)
    : (e: Option<Envelope>)
    requires AesSound(c) && HashSound(c)
    ensures e.Some? <==> EncryptWithRsa(c, ownerPublicKey, GenerateAesKey(keySource)).Some?
    ensures e.Some? ==> e.value.fileHash == CalculateDataHash(c, data)
    ensures e.Some? ==> |e.value.blob| == IvLength + |Pad(data)|
  {
    var aesKey := GenerateAesKey(keySource);
    var encryptedData := EncryptWithAes(c, data, aesKey, ivSource).value;
    match EncryptWithRsa(c, ownerPublicKey, aesKey)
    case None => None
    case Some(wrapped) => Some(Envelope(encryptedData, CalculateDataHash(c, data), c.b64encode(wrapped)))
  }

  /** The document row and the file on disk hold the envelope. */
  ghost predicate Holds(d: Document, files: map<string, bytes>, e: Envelope) {
    d.filePath in files && files[d.filePath] == e.blob && d.fileHash == e.fileHash && d.encryptedKey == e.encryptedKey
  }

  /** Why opening an envelope fails; all but IntegrityMismatch surface as exceptions. */
  datatype OpenError =
    | KeyNotDecodable          // base64 decoding of encrypted_key raised
    | UnwrapFailed             // RSA-OAEP decryption with the supplied key raised
    | CiphertextMissing        // the encrypted file could not be read
    | DecryptFailed(cause: CipherError)
    | IntegrityMismatch        // the decrypted data does not hash to file_hash

  /** The decryption chain of download_document on a found row, in its order: decode the
      wrapped key, unwrap it with the supplied private key, read the ciphertext file and
      decrypt it. Its failures are the exceptions the chain raises. */
  function DecryptEnvelope(c: Primitives, d: Document, files: map<string, bytes>, privateKey: string)
    : (r: Result<bytes, OpenError>)
    requires AesSound(c)
    ensures r.Failure? ==> r.error != IntegrityMismatch
    ensures r.Success? ==> d.filePath in files && |r.value| < |files[d.filePath]|
  {
    match c.b64decode(d.encryptedKey)
    case None => Failure(KeyNotDecodable)
    case Some(wrapped) =>
      match DecryptWithRsa(c, privateKey, wrapped)
      case None => Failure(UnwrapFailed)
      case Some(aesKey) =>
        if d.filePath !in files then Failure(CiphertextMissing)
        else
          match DecryptWithAes(c, files[d.filePath], aesKey)
          case Failure(cause) => Failure(DecryptFailed(cause))
          case Success(plain) => Success(plain)
  }

  /** download_document on a found row: the decryption chain, then the integrity check
      against the stored file_hash. */
  function Open(c: Primitives, d: Document, files: map<string, bytes>, privateKey: string)
    : (r: Result<bytes, OpenError>)
    requires AesSound(c) && HashSound(c)
    ensures r.Success? ==> CalculateDataHash(c, r.value) == d.fileHash
    ensures r.Success? ==> d.filePath in files && |r.value| < |files[d.filePath]|
    ensures DecryptEnvelope(c, d, files, privateKey).Failure? ==> r == DecryptEnvelope(c, d, files, privateKey)
    ensures DecryptEnvelope(c, d, files, privateKey).Success? ==>
      var plain := DecryptEnvelope(c, d, files, privateKey).value;
      r == if CalculateDataHash(c, plain) == d.fileHash then Success(plain) else Failure(IntegrityMismatch)
    ensures r == Failure(IntegrityMismatch) <==>
      && DecryptEnvelope(c, d, files, privateKey).Success?
      && CalculateDataHash(c, DecryptEnvelope(c, d, files, privateKey).value) != d.fileHash
  {
    match DecryptEnvelope(c, d, files, privateKey)
    case Failure(e) => Failure(e)
    case Success(plain) =>
      if CalculateDataHash(c, plain) != d.fileHash then Failure(IntegrityMismatch)
      else Success(plain)
  }

  /** Opening never looks at the owner: rows that differ only in owner_id open alike. */
  lemma OpenIgnoresOwner(c: Primitives, d: Document, files: map<string, bytes>, privateKey: string, otherOwner: int)
    requires AesSound(c) && HashSound(c)
    ensures Open(c, d, files, privateKey) == Open(c, d.(ownerId := otherOwner), files, privateKey)
  {
  }

  /** The owner opens what was sealed for the owner's public key and gets the plaintext back. */
  lemma OwnerOpensSealed(c: Primitives, data: bytes, keySource: Entropy, ivSource: Entropy,
                         owner: Entropy, d: Document, files: map<string, bytes>)
    requires Sound(c)
    requires Holds(d, files, Seal(c, data, keySource, ivSource, GenerateRsaKeypair(c, owner).0).value)
    ensures Open(c, d, files, GenerateRsaKeypair(c, owner).1) == Success(data)
  {
    var (pub, priv) := GenerateRsaKeypair(c, owner);
    var aesKey := GenerateAesKey(keySource);
    RsaRoundTrip(c, owner, aesKey);
    AesRoundTrip(c, data, aesKey, ivSource);
  }

  /** Which generated keys open a sealed document: exactly those whose public half sealed
      it. Any other key fails at the unwrap, whoever holds it and whatever the share table says. */
  lemma OpensOnlyWithSealingKey(c: Primitives, data: bytes, keySource: Entropy, ivSource: Entropy,
                                owner: Entropy, requester: Entropy, d: Document, files: map<string, bytes>)
    requires Sound(c)
    requires Holds(d, files, Seal(c, data, keySource, ivSource, GenerateRsaKeypair(c, owner).0).value)
    ensures Open(c, d, files, GenerateRsaKeypair(c, requester).1).Success?
      <==> GenerateRsaKeypair(c, requester).0 == GenerateRsaKeypair(c, owner).0
    ensures GenerateRsaKeypair(c, requester).0 != GenerateRsaKeypair(c, owner).0 ==>
      Open(c, d, files, GenerateRsaKeypair(c, requester).1) == Failure(UnwrapFailed)
  {
    var ownerPublicKey := GenerateRsaKeypair(c, owner).0;
    var (pub, priv) := GenerateRsaKeypair(c, requester);
    var aesKey := GenerateAesKey(keySource);
    var wrapped := EncryptWithRsa(c, ownerPublicKey, aesKey).value;
    assert c.b64decode(d.encryptedKey) == Some(wrapped);
    if pub == ownerPublicKey {
      OwnerOpensSealed(c, data, keySource, ivSource, requester, d, files);
    } else {
      assert DecryptWithRsa(c, priv, wrapped).None?;
    }
  }

  // ----- Outcomes, with the messages the source returns -----

  function NatToDecimal(n: nat): string {
    if n < 10 then [('0' as int + n) as char]
    else NatToDecimal(n / 10) + [('0' as int + n % 10) as char]
  }

  datatype UploadOutcome = Uploaded(documentId: nat) | FileNotFound | UploadFailed
  {
    predicate Success() { Uploaded? }

    function Message(): string {
      match this
      case Uploaded(id) => "Document uploaded successfully (ID: " + NatToDecimal(id) + ")"
      case FileNotFound => "File not found"
      case UploadFailed => "Upload failed: "
    }
  }

  datatype DownloadOutcome = Downloaded(path: string) | DocumentNotFound | IntegrityCheckFailed | DownloadFailed
  {
    predicate Success() { Downloaded? }

    function Message(): string {
      match this
      case Downloaded(path) => "Document downloaded to: " + path
      case DocumentNotFound => "Document not found"
      case IntegrityCheckFailed => "Integrity check failed: File may have been tampered with"
      case DownloadFailed => "Download failed: "
    }
  }

  datatype ShareOutcome = SharedWith(targetUsername: string) | NotFoundOrDenied | TargetUserNotFound | AlreadyShared
  {
    predicate Success() { SharedWith? }

    function Message(): string {
      match this
      case SharedWith(name) => "Document shared successfully with " + name
      case NotFoundOrDenied => "Document not found or access denied"
      case TargetUserNotFound => "Target user not found"
      case AlreadyShared => "Document already shared with this user"
    }
  }

  class DocumentManager {
    const db: Database
    const crypto: Primitives
    var files: map<string, bytes>

    constructor (db: Database, crypto: Primitives, files: map<string, bytes>)
      ensures this.db == db && this.crypto == crypto && this.files == files
    {
      this.db := db;
      this.crypto := crypto;
      this.files := files;
    }

    /** upload_document: seal the file for its owner, write the ciphertext to
        uploads/encrypted_<basename>, and insert the document row. */
    method UploadDocument(filePath: string, ownerId: int, ownerPublicKey: string, keySource: Entropy, ivSource: Entropy)
      returns (outcome: UploadOutcome)
      requires db.Valid() && AesSound(crypto) && HashSound(crypto)
      modifies this, db
      ensures db.Valid()
      ensures filePath !in old(files) ==> outcome == FileNotFound
      ensures outcome.Uploaded? <==>
        filePath in old(files) && Seal(crypto, old(files)[filePath], keySource, ivSource, ownerPublicKey).Some?
      ensures filePath in old(files) && !outcome.Uploaded? ==> outcome == UploadFailed
      ensures !outcome.Uploaded? ==>
        files == old(files) && db.documents == old(db.documents) && db.documentSeq == old(db.documentSeq)
      ensures outcome.Uploaded? ==>
        var e := Seal(crypto, old(files)[filePath], keySource, ivSource, ownerPublicKey).value;
        && outcome.documentId == db.documentSeq == old(db.documentSeq) + 1
        && (forall d | d in old(db.documents) :: d.id < outcome.documentId)
        && files == old(files)[UploadPath(BaseName(filePath)) := e.blob]
        && db.documents == old(db.documents) +
             [Document(outcome.documentId, BaseName(filePath), UploadPath(BaseName(filePath)), e.fileHash, e.encryptedKey, ownerId)]
      ensures db.users == old(db.users) && db.shares == old(db.shares) && db.userSeq == old(db.userSeq)
    {
      if filePath !in files {
        return FileNotFound;
      }
      var aesKey := GenerateAesKey(keySource);
      var fileData := files[filePath];
      var encryptedData := EncryptWithAes(crypto, fileData, aesKey, ivSource).value;
      var encryptedAesKey := EncryptWithRsa(crypto, ownerPublicKey, aesKey);
      if encryptedAesKey.None? {
        return UploadFailed;
      }
      var fileHash := CalculateDataHash(crypto, fileData);
      var filename := BaseName(filePath);
      var encryptedFilePath := UploadPath(filename);
      files := files[encryptedFilePath := encryptedData];
      var encryptedKeyB64 := crypto.b64encode(encryptedAesKey.value);
      var documentId := db.AddDocument(filename, encryptedFilePath, fileHash, encryptedKeyB64, ownerId);
      outcome := Uploaded(documentId);
    }

    /** download_document: find the row, open the envelope with the supplied private key
        and, only when the hash matches, write downloads/decrypted_<filename>. */
    method DownloadDocument(documentId: int, userPrivateKey: string) returns (outcome: DownloadOutcome)
      requires AesSound(crypto) && HashSound(crypto)
      modifies this
      ensures GetDocument(db.documents, documentId).None? ==> outcome == DocumentNotFound && files == old(files)
      ensures GetDocument(db.documents, documentId).Some? ==>
        var d := GetDocument(db.documents, documentId).value;
        match Open(crypto, d, old(files), userPrivateKey)
        case Success(plain) =>
          outcome == Downloaded(DownloadPath(d.filename)) && files == old(files)[DownloadPath(d.filename) := plain]
        case Failure(IntegrityMismatch) => outcome == IntegrityCheckFailed && files == old(files)
        case Failure(_) => outcome == DownloadFailed && files == old(files)
    {
      var document := GetDocument(db.documents, documentId);
      if document.None? {
        return DocumentNotFound;
      }
      var d := document.value;
      var encryptedAesKey := crypto.b64decode(d.encryptedKey);
      if encryptedAesKey.None? {
        return DownloadFailed;
      }
      var aesKey := DecryptWithRsa(crypto, userPrivateKey, encryptedAesKey.value);
      if aesKey.None? {
        return DownloadFailed;
      }
      if d.filePath !in files {
        return DownloadFailed;
      }
      var encryptedData := files[d.filePath];
      var decryptedData := DecryptWithAes(crypto, encryptedData, aesKey.value);
      if decryptedData.Failure? {
        return DownloadFailed;
      }
      var calculatedHash := CalculateDataHash(crypto, decryptedData.value);
      if calculatedHash != d.fileHash {
        return IntegrityCheckFailed;
      }
      var downloadPath := DownloadPath(d.filename);
      files := files[downloadPath := decryptedData.value];
      outcome := Downloaded(downloadPath);
    }

    /** share_document_with_user: the caller must own the document and the target must
        exist; the share row is then inserted unless the pair is already there. The
        document row, and with it the wrapped key, is left as it was. */
    method ShareDocumentWithUser(documentId: int, ownerId: int, targetUsername: string)
      returns (outcome: ShareOutcome)
      requires db.Valid()
      modifies db
      ensures db.Valid()
      ensures var doc := GetDocument(old(db.documents), documentId);
        doc.None? || doc.value.ownerId != ownerId ==> outcome == NotFoundOrDenied
      ensures var doc := GetDocument(old(db.documents), documentId);
        doc.Some? && doc.value.ownerId == ownerId && GetUser(old(db.users), targetUsername).None? ==>
          outcome == TargetUserNotFound
      ensures var doc := GetDocument(old(db.documents), documentId);
        var target := GetUser(old(db.users), targetUsername);
        doc.Some? && doc.value.ownerId == ownerId && target.Some? ==>
          outcome == if Share(documentId, target.value.id) in old(db.shares) then AlreadyShared else SharedWith(targetUsername)
      ensures db.shares == if outcome.SharedWith?
        then old(db.shares) + [Share(documentId, GetUser(old(db.users), targetUsername).value.id)]
        else old(db.shares)
      ensures db.users == old(db.users) && db.documents == old(db.documents)
      ensures db.userSeq == old(db.userSeq) && db.documentSeq == old(db.documentSeq)
    {
      var document := GetDocument(db.documents, documentId);
      if document.None? || document.value.ownerId != ownerId {
        return NotFoundOrDenied;
      }
      var targetUser := GetUser(db.users, targetUsername);
      if targetUser.None? {
        return TargetUserNotFound;
      }
      var ok := db.ShareDocument(documentId, targetUser.value.id);
      if ok {
        outcome := SharedWith(targetUsername);
      } else {
        outcome := AlreadyShared;
      }
    }

    /** list_user_documents: the documents the user owns. */
    function ListUserDocuments(userId: int): (r: set<Document>)
      reads db
      ensures forall d :: d in r <==> d in db.documents && d.ownerId == userId
    {
      GetUserDocuments(db.documents, userId)
    }

    /** list_shared_documents: the documents shared with the user, each with its owner's name. */
    function ListSharedDocuments(userId: int): (r: set<SharedDocument>)
      reads db
      ensures forall x | x in r ::
        && x.document in db.documents
        && Share(x.document.id, userId) in db.shares
        && exists o | o in db.users :: o.id == x.document.ownerId && o.username == x.ownerName
      ensures forall s, d, o | s in db.shares && d in db.documents && o in db.users ::
        s.userId == userId && s.documentId == d.id && d.ownerId == o.id ==> SharedDocument(d, o.username) in r
    {
      GetSharedDocuments(db.shares, db.documents, db.users, userId)
    }
  }
}
