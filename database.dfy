/**
 * The metadata store of database.py: three SQLite tables held in memory.
 *
 * Each table is a sequence of rows in rowid order. `users` and `documents` carry their
 * AUTOINCREMENT counters (SQLite's sqlite_sequence), and the UNIQUE constraints
 * (users.username, document_shares(document_id, user_id)) are what makes an insert
 * return False. Queries are functions over the tables; the list queries return sets.
 */
module Storage {
  import opened Wrappers

  const DefaultRole := "user"

  /** A row of `users`. The keys are NULL until update_user_keys sets them. */
  datatype User = User(
    id: int,
    username: string,
    passwordHash: string,
    role: string,
    publicKey: Option<string>,
    privateKey: Option<string>)

  /** A row of `documents`. `owner_id` is a plain integer: foreign keys are not enforced. */
  datatype Document = Document(
    id: int,
    filename: string,
    filePath: string,
    fileHash: string,
    encryptedKey: string,
    ownerId: int)

  /** A row of `document_shares`, keyed by the pair it holds. */
  datatype Share = Share(documentId: int, userId: int)

  /** A row of the shared-documents join: the document and its owner's username. */
  datatype SharedDocument = SharedDocument(document: Document, ownerName: string)

  /** `cursor.fetchone()` after a SELECT ... WHERE: the first row, in rowid order, that matches. */
  function FetchOne<T>(rows: seq<T>, matches: T -> bool): (r: Option<T>)
    ensures r.Some? ==> r.value in rows && matches(r.value)
    ensures r.None? <==> forall x | x in rows :: !matches(x)
  {
    if rows == [] then None
    else if matches(rows[0]) then Some(rows[0])
    else FetchOne(rows[1..], matches)
  }

  /** get_user: the row with this username, if any. */
  function GetUser(users: seq<User>, username: string): (r: Option<User>)
    ensures r.Some? ==> r.value in users && r.value.username == username
    ensures r.None? <==> forall u | u in users :: u.username != username
  {
    FetchOne(users, (u: User) => u.username == username)
  }

  /** get_user_by_id: the row with this id, if any. */
  function GetUserById(users: seq<User>, userId: int): (r: Option<User>)
    ensures r.Some? ==> r.value in users && r.value.id == userId
    ensures r.None? <==> forall u | u in users :: u.id != userId
  {
    FetchOne(users, (u: User) => u.id == userId)
  }

  /** get_document: the row with this id, if any. */
  function GetDocument(documents: seq<Document>, documentId: int): (r: Option<Document>)
    ensures r.Some? ==> r.value in documents && r.value.id == documentId
    ensures r.None? <==> forall d | d in documents :: d.id != documentId
  {
    FetchOne(documents, (d: Document) => d.id == documentId)
  }

  /** get_user_documents: every document whose owner_id is the user. */
  function GetUserDocuments(documents: seq<Document>, userId: int): (r: set<Document>)
    ensures forall d :: d in r <==> d in documents && d.ownerId == userId
  {
    set d | d in documents && d.ownerId == userId
  }

  /** get_shared_documents: documents JOIN document_shares ON d.id = ds.document_id
      JOIN users ON d.owner_id = u.id WHERE ds.user_id = userId, with the owner's name. */
  function GetSharedDocuments(shares: seq<Share>, documents: seq<Document>, users: seq<User>, userId: int)
    : (r: set<SharedDocument>)
    ensures forall x | x in r ::
      && x.document in documents
      && Share(x.document.id, userId) in shares
      && exists o | o in users :: o.id == x.document.ownerId && o.username == x.ownerName
    ensures forall s, d, o | s in shares && d in documents && o in users ::
      s.userId == userId && s.documentId == d.id && d.ownerId == o.id ==> SharedDocument(d, o.username) in r
  {
    set s, d, o | s in shares && d in documents && o in users
      && s.userId == userId && s.documentId == d.id && d.ownerId == o.id
      :: SharedDocument(d, o.username)
  }

  // ----- Table constraints, as predicates on the tables -----

  ghost predicate UsernamesUnique(users: seq<User>) {
    forall i, j :: 0 <= i < j < |users| ==> users[i].username != users[j].username
  }

  ghost predicate IdsIncreasing(documents: seq<Document>) {
    forall i, j :: 0 <= i < j < |documents| ==> documents[i].id < documents[j].id
  }

  /** Under UNIQUE(username), get_user of a stored row's name returns that very row. */
  lemma GetUserFindsRow(users: seq<User>, u: User)
    requires UsernamesUnique(users) && u in users
    ensures GetUser(users, u.username) == Some(u)
  {
    var r := GetUser(users, u.username).value;
    var i :| 0 <= i < |users| && users[i] == u;
    var j :| 0 <= j < |users| && users[j] == r;
    assert i == j;
  }

  /** Under the increasing primary key, get_document of a stored row's id returns that row. */
  lemma GetDocumentFindsRow(documents: seq<Document>, d: Document)
    requires IdsIncreasing(documents) && d in documents
    ensures GetDocument(documents, d.id) == Some(d)
  {
    var r := GetDocument(documents, d.id).value;
    var i :| 0 <= i < |documents| && documents[i] == d;
    var j :| 0 <= j < |documents| && documents[j] == r;
    assert i == j;
  }

  /** An inserted document joins its owner's list and no one else's. */
  lemma InsertedDocumentListed(documents: seq<Document>, row: Document, userId: int)
    ensures GetUserDocuments(documents + [row], userId) ==
      if row.ownerId == userId then GetUserDocuments(documents, userId) + {row}
      else GetUserDocuments(documents, userId)
  {
  }

  /** An inserted share row puts the document, with its owner's name, in the target's
      shared list, provided the owner's row exists for the join; nobody else's list changes. */
  lemma InsertedShareListed(shares: seq<Share>, documents: seq<Document>, users: seq<User>,
                            d: Document, owner: User, target: int, userId: int)
    requires d in documents && owner in users && owner.id == d.ownerId
    ensures target == userId ==>
      SharedDocument(d, owner.username) in GetSharedDocuments(shares + [Share(d.id, target)], documents, users, userId)
    ensures target != userId ==>
      GetSharedDocuments(shares + [Share(d.id, target)], documents, users, userId)
        == GetSharedDocuments(shares, documents, users, userId)
  {
    if target == userId {
      var s := Share(d.id, target);
      assert s in shares + [s];
    }
  }

  /** The users table after UPDATE ... SET public_key, private_key WHERE username = ?. */
  function WithKeys(rows: seq<User>, username: string, publicKey: string, privateKey: string): (after: seq<User>)
    ensures |after| == |rows|
    ensures forall i :: 0 <= i < |after| ==>
      after[i] == if rows[i].username == username
                  then rows[i].(publicKey := Some(publicKey), privateKey := Some(privateKey))
                  else rows[i]
  {
    seq(|rows|, i requires 0 <= i < |rows| =>
      if rows[i].username == username
      then rows[i].(publicKey := Some(publicKey), privateKey := Some(privateKey))
      else rows[i])
  }

  /** Setting the keys of every row named `username` keeps each row's name and id, and
      get_user then finds the updated row (or, with no such row, the same table). */
  lemma KeysUpdateLookup(rows: seq<User>, username: string, publicKey: string, privateKey: string)
    ensures var after := WithKeys(rows, username, publicKey, privateKey);
      && (forall i :: 0 <= i < |after| ==> after[i].username == rows[i].username && after[i].id == rows[i].id)
      && (UsernamesUnique(rows) ==> UsernamesUnique(after))
      && (GetUser(rows, username).None? ==> after == rows)
      && (GetUser(rows, username).Some? && UsernamesUnique(rows) ==>
            GetUser(after, username) ==
              Some(GetUser(rows, username).value.(publicKey := Some(publicKey), privateKey := Some(privateKey))))
  {
    var after := WithKeys(rows, username, publicKey, privateKey);
    if GetUser(rows, username).None? {
      forall i | 0 <= i < |rows| ensures after[i] == rows[i] {
        assert rows[i] in rows;
      }
    } else if UsernamesUnique(rows) {
      var r := GetUser(rows, username).value;
      var k :| 0 <= k < |rows| && rows[k] == r;
      var updated := r.(publicKey := Some(publicKey), privateKey := Some(privateKey));
      assert after[k] == updated;
      assert UsernamesUnique(after);
      GetUserFindsRow(after, updated);
    }
  }

  class Database {
    var users: seq<User>
    var documents: seq<Document>
    var shares: seq<Share>
    var userSeq: nat        // largest users.id handed out so far
    var documentSeq: nat    // largest documents.id handed out so far

    /** The table constraints: ids are positive, increase in rowid order and never exceed
        their counter; usernames and share pairs are unique. */
    ghost predicate Valid()
      reads this
    {
      && (forall i :: 0 <= i < |users| ==> 0 < users[i].id <= userSeq)
      && (forall i, j :: 0 <= i < j < |users| ==> users[i].id < users[j].id)
      && UsernamesUnique(users)
      && (forall i :: 0 <= i < |documents| ==> 0 < documents[i].id <= documentSeq)
      && IdsIncreasing(documents)
      && (forall i, j :: 0 <= i < j < |shares| ==> shares[i] != shares[j])
    }

    /** A database file with freshly created, empty tables. */
    constructor ()
      ensures Valid()
      ensures users == [] && documents == [] && shares == []
      ensures userSeq == 0 && documentSeq == 0
    {
      users, documents, shares := [], [], [];
      userSeq, documentSeq := 0, 0;
    }

    /** add_user: INSERT INTO users; False when the username is already taken. */
    method AddUser(username: string, passwordHash: string, role: string := DefaultRole,
                   publicKey: Option<string> := None, privateKey: Option<string> := None)
      returns (ok: bool)
      requires Valid()
      modifies this
      ensures Valid()
      ensures ok <==> GetUser(old(users), username).None?
      ensures ok ==>
        && userSeq == old(userSeq) + 1
        && (forall u | u in old(users) :: u.id < userSeq)
        && users == old(users) + [User(userSeq, username, passwordHash, role, publicKey, privateKey)]
        && GetUser(users, username) == Some(User(userSeq, username, passwordHash, role, publicKey, privateKey))
      ensures !ok ==> users == old(users) && userSeq == old(userSeq)
      ensures documents == old(documents) && shares == old(shares) && documentSeq == old(documentSeq)
    {
      if GetUser(users, username).Some? {
        return false;
      }
      userSeq := userSeq + 1;
      users := users + [User(userSeq, username, passwordHash, role, publicKey, privateKey)];
      ok := true;
    }

    /** add_document: INSERT INTO documents and return the new row's id. */
    method AddDocument(filename: string, filePath: string, fileHash: string, encryptedKey: string, ownerId: int)
      returns (documentId: int)
      requires Valid()
      modifies this
      ensures Valid()
      ensures documentId == documentSeq == old(documentSeq) + 1
      ensures forall d | d in old(documents) :: d.id < documentId
      ensures documents == old(documents) + [Document(documentId, filename, filePath, fileHash, encryptedKey, ownerId)]
      ensures GetDocument(documents, documentId) == Some(Document(documentId, filename, filePath, fileHash, encryptedKey, ownerId))
      ensures users == old(users) && shares == old(shares) && userSeq == old(userSeq)
    {
      documentSeq := documentSeq + 1;
      documentId := documentSeq;
      documents := documents + [Document(documentId, filename, filePath, fileHash, encryptedKey, ownerId)];
    }

    /** share_document: INSERT INTO document_shares; False when the pair is already there. */
    method ShareDocument(documentId: int, userId: int) returns (ok: bool)
      requires Valid()
      modifies this
      ensures Valid()
      ensures ok <==> Share(documentId, userId) !in old(shares)
      ensures shares == if ok then old(shares) + [Share(documentId, userId)] else old(shares)
      ensures users == old(users) && documents == old(documents)
      ensures userSeq == old(userSeq) && documentSeq == old(documentSeq)
    {
      if Share(documentId, userId) in shares {
        return false;
      }
      shares := shares + [Share(documentId, userId)];
      ok := true;
    }

    /** update_user_keys: UPDATE users SET public_key, private_key WHERE username = ?. */
    method UpdateUserKeys(username: string, publicKey: string, privateKey: string)
      requires Valid()
      modifies this
      ensures Valid()
      ensures |users| == |old(users)|
      ensures forall i :: 0 <= i < |users| ==>
        users[i] == if old(users[i]).username == username
                    then old(users[i]).(publicKey := Some(publicKey), privateKey := Some(privateKey))
                    else old(users[i])
      ensures GetUser(old(users), username).None? ==> users == old(users)
      ensures GetUser(old(users), username).Some? ==>
        GetUser(users, username) == Some(GetUser(old(users), username).value.(publicKey := Some(publicKey), privateKey := Some(privateKey)))
      ensures documents == old(documents) && shares == old(shares)
      ensures userSeq == old(userSeq) && documentSeq == old(documentSeq)
    {
      KeysUpdateLookup(users, username, publicKey, privateKey);
      users := WithKeys(users, username, publicKey, privateKey);
    }
  }
}
