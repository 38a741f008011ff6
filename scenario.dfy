/**
 * The flow the command-line front end drives (cli.py: register, then store a fresh
 * keypair; log in; upload; share; download), modelled against one database, with what the
 * protocol lets each identity do afterwards.
 */
module Scenario {
  import opened Wrappers
  import opened Crypto
  import opened Storage
  import opened Auth
  import opened Documents

  /** cli.register: register_user and, only when it succeeds, store a freshly generated
      keypair under the new name with update_user_keys. A taken name leaves every row,
      and the existing user's keys, as they were. */
  method RegisterWithKeys(auth: AuthManager, name: string, password: string, keys: (string, string))
    returns (reply: RegisterReply)
    requires auth.db.Valid() && HashSound(auth.primitives)
    modifies auth.db
    ensures auth.db.Valid()
    ensures reply == Registered <==> GetUser(old(auth.db.users), name).None?
    ensures reply != Registered ==>
      reply == UsernameExists && auth.db.users == old(auth.db.users) && auth.db.userSeq == old(auth.db.userSeq)
    ensures reply == Registered ==>
      && auth.db.userSeq == old(auth.db.userSeq) + 1
      && auth.db.users == old(auth.db.users) +
           [User(auth.db.userSeq, name, HashPassword(auth.primitives, password), DefaultRole, Some(keys.0), Some(keys.1))]
    ensures auth.db.documents == old(auth.db.documents) && auth.db.shares == old(auth.db.shares)
    ensures auth.db.documentSeq == old(auth.db.documentSeq)
  {
    var db := auth.db;
    ghost var before := db.users;
    reply := auth.RegisterUser(name, password);
    if reply == Registered {
      ghost var registered := db.users;
      var row := User(db.userSeq, name, HashPassword(auth.primitives, password), DefaultRole, None, None);
      db.UpdateUserKeys(name, keys.0, keys.1);
      KeysLandOnNewRow(before, row, registered, db.users, keys.0, keys.1);
    } else {
      assert db.users == before;
    }
  }

  /** update_user_keys right after the insert of `row` touches that row alone. */
  lemma KeysLandOnNewRow(before: seq<User>, row: User, registered: seq<User>, after: seq<User>,
                         publicKey: string, privateKey: string)
    requires GetUser(before, row.username).None? && registered == before + [row]
    requires |after| == |registered|
    requires forall i :: 0 <= i < |after| ==>
      after[i] == if registered[i].username == row.username
                  then registered[i].(publicKey := Some(publicKey), privateKey := Some(privateKey))
                  else registered[i]
    ensures after == before + [row.(publicKey := Some(publicKey), privateKey := Some(privateKey))]
  {
    forall i | 0 <= i < |before|
      ensures after[i] == before[i]
    {
      assert registered[i] == before[i] && before[i] in before;
    }
  }

  /** Two users register in turn on a fresh database. */
  method Enrol(c: Primitives, name1: string, password1: string, keys1: (string, string),
               name2: string, password2: string, keys2: (string, string))
    returns (db: Database, auth: AuthManager)
    requires HashSound(c) && name1 != name2
    ensures fresh(db) && db.Valid() && auth.db == db
    ensures db.users == [
      User(1, name1, HashPassword(c, password1), DefaultRole, Some(keys1.0), Some(keys1.1)),
      User(2, name2, HashPassword(c, password2), DefaultRole, Some(keys2.0), Some(keys2.1))]
    ensures db.documents == [] && db.shares == [] && db.documentSeq == 0
  {
    db := new Database();
    auth := new AuthManager(db, c);
    var registered := RegisterWithKeys(auth, name1, password1, keys1);
    assert db.users[0].username == name1 && |db.users| == 1;
    registered := RegisterWithKeys(auth, name2, password2, keys2);
  }

  /** Alice and Bob register with the keypairs drawn from their entropy; Alice logs in
      and uploads `filePath` with the public key her session holds. */
  method Publish(c: Primitives, alice: string, alicePassword: string, aliceKeys: Entropy,
                 bob: string, bobPassword: string, bobKeys: Entropy,
                 filePath: string, plaintext: bytes, keySource: Entropy, ivSource: Entropy)
    returns (manager: DocumentManager, documentId: int)
    requires Sound(c) && alice != bob
    ensures fresh(manager) && fresh(manager.db) && manager.crypto == c && manager.db.Valid()
    ensures Seal(c, plaintext, keySource, ivSource, GenerateRsaKeypair(c, aliceKeys).0).Some?
    ensures |manager.db.documents| == 1 && manager.db.shares == []
    ensures var d := manager.db.documents[0];
      && d.id == documentId && documentId == 1 && d.ownerId == 1
      && Holds(d, manager.files, Seal(c, plaintext, keySource, ivSource, GenerateRsaKeypair(c, aliceKeys).0).value)
    ensures manager.db.users == [
      User(1, alice, HashPassword(c, alicePassword), DefaultRole,
           Some(GenerateRsaKeypair(c, aliceKeys).0), Some(GenerateRsaKeypair(c, aliceKeys).1)),
      User(2, bob, HashPassword(c, bobPassword), DefaultRole,
           Some(GenerateRsaKeypair(c, bobKeys).0), Some(GenerateRsaKeypair(c, bobKeys).1))]
    ensures LoginUser(c, manager.db.users, alice, alicePassword) == LoggedIn(ToUserData(manager.db.users[0]))
    ensures LoginUser(c, manager.db.users, bob, bobPassword) == LoggedIn(ToUserData(manager.db.users[1]))
  {
    var alicePair, bobPair := GenerateRsaKeypair(c, aliceKeys), GenerateRsaKeypair(c, bobKeys);
    var db, auth := Enrol(c, alice, alicePassword, alicePair, bob, bobPassword, bobPair);
    GetUserFindsRow(db.users, db.users[0]);
    GetUserFindsRow(db.users, db.users[1]);
    manager := new DocumentManager(db, c, map[filePath := plaintext]);
    var aliceLogin := LoginUser(c, db.users, alice, alicePassword);
    assert aliceLogin == LoggedIn(ToUserData(db.users[0]));
    RsaRoundTrip(c, aliceKeys, GenerateAesKey(keySource));
    var uploaded := manager.UploadDocument(filePath, aliceLogin.user.id, aliceLogin.user.publicKey.value,
                                           keySource, ivSource);
    documentId := uploaded.documentId;
  }

  /** The owner shares a document with a registered user twice: the first share is
      recorded, the second is refused as a duplicate. */
  method ShareTwice(manager: DocumentManager, documentId: int, ownerId: int, target: string)
    returns (shared: ShareOutcome, sharedAgain: ShareOutcome)
    requires manager.db.Valid() && manager.db.shares == []
    requires GetDocument(manager.db.documents, documentId).Some?
    requires GetDocument(manager.db.documents, documentId).value.ownerId == ownerId
    requires GetUser(manager.db.users, target).Some?
    modifies manager.db
    ensures manager.db.Valid()
    ensures shared == SharedWith(target) && sharedAgain == AlreadyShared
    ensures manager.db.documents == old(manager.db.documents) && manager.db.users == old(manager.db.users)
    ensures manager.db.shares == [Share(documentId, GetUser(manager.db.users, target).value.id)]
  {
    shared := manager.ShareDocumentWithUser(documentId, ownerId, target);
    sharedAgain := manager.ShareDocumentWithUser(documentId, ownerId, target);
  }

  /** A download with a key that cannot open the document fails; one with the key that
      can writes the plaintext to the download path. */
  method DownloadBoth(manager: DocumentManager, documentId: int, d: Document,
                      deniedKey: string, grantedKey: string, plaintext: bytes)
    returns (denied: DownloadOutcome, granted: DownloadOutcome, copy: Option<bytes>)
    requires AesSound(manager.crypto) && HashSound(manager.crypto)
    requires GetDocument(manager.db.documents, documentId) == Some(d)
    requires Open(manager.crypto, d, manager.files, deniedKey) == Failure(UnwrapFailed)
    requires Open(manager.crypto, d, manager.files, grantedKey) == Success(plaintext)
    modifies manager
    ensures denied == DownloadFailed
    ensures granted == Downloaded(DownloadPath(d.filename)) && copy == Some(plaintext)
    ensures manager.files == old(manager.files)[DownloadPath(d.filename) := plaintext]
  {
    denied := manager.DownloadDocument(documentId, deniedKey);
    granted := manager.DownloadDocument(documentId, grantedKey);
    copy := if granted.Downloaded? && granted.path in manager.files then Some(manager.files[granted.path]) else None;
  }

  /** Alice uploads a file and shares it with Bob. Alice can download it and gets her
      file back; sharing twice is refused; Bob, whose keypair differs from Alice's,
      cannot download it although the share row exists, because the only wrapped key
      stored is the one under Alice's public key. */
  method ShareThenDownload(c: Primitives, alice: string, alicePassword: string, aliceKeys: Entropy,
                           bob: string, bobPassword: string, bobKeys: Entropy,
                           filePath: string, plaintext: bytes, keySource: Entropy, ivSource: Entropy)
    returns (shared: ShareOutcome, sharedAgain: ShareOutcome,
             bobResult: DownloadOutcome, aliceResult: DownloadOutcome, aliceCopy: Option<bytes>)
    requires Sound(c) && alice != bob
    requires GenerateRsaKeypair(c, aliceKeys).0 != GenerateRsaKeypair(c, bobKeys).0
    ensures shared == SharedWith(bob)
    ensures sharedAgain == AlreadyShared
    ensures bobResult == DownloadFailed
    ensures aliceResult.Downloaded? && aliceCopy == Some(plaintext)
  {
    var manager, documentId := Publish(c, alice, alicePassword, aliceKeys, bob, bobPassword, bobKeys,
                                       filePath, plaintext, keySource, ivSource);
    var d := manager.db.documents[0];
    GetDocumentFindsRow(manager.db.documents, d);
    shared, sharedAgain := ShareTwice(manager, documentId, 1, bob);

    // Each downloads with the private key their session holds.
    var bobLogin := LoginUser(c, manager.db.users, bob, bobPassword);
    var aliceLogin := LoginUser(c, manager.db.users, alice, alicePassword);
    OpensOnlyWithSealingKey(c, plaintext, keySource, ivSource, aliceKeys, bobKeys, d, manager.files);
    OwnerOpensSealed(c, plaintext, keySource, ivSource, aliceKeys, d, manager.files);
    bobResult, aliceResult, aliceCopy :=
      DownloadBoth(manager, documentId, d, bobLogin.user.privateKey.value, aliceLogin.user.privateKey.value, plaintext);
  }
}
