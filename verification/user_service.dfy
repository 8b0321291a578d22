/**
 * UserService: creating a user with a generated password, the field-wise
 * partial update, and the CSV import that creates one user per row.
 * Each method is specified by a function on the stored rows; the lemmas
 * below state what those functions guarantee.
 */
module Service {
  import opened Optional
  import opened Hex
  import opened Entity
  import opened Orm

  /** One line of the import file as fgetcsv splits it. */
  type CsvRow = seq<string>

  /** A row createUser can be called with: columns 0 to 3 are present. */
  predicate Complete(row: CsvRow) {
    4 <= |row|
  }

  predicate AllComplete(csv: seq<CsvRow>) {
    forall i :: 0 <= i < |csv| ==> Complete(csv[i])
  }

  /**
   * How the import ends: it returns (a file that cannot be opened is
   * modelled as a plain return, though Symfony's debug error handler throws
   * fopen's warning as an exception; the store is unchanged either way),
   * or row `row` lacks one of columns 0..3 and the import stops with an
   * error there (the undefined-key warning raised as an exception, or the
   * TypeError of passing null to createUser).
   */
  datatype ImportOutcome = Returned | FailedAt(row: nat)

  // ---------------------------------------------------------------- createUser

  /**
   * The user as it stands when the hasher is called: the four columns set
   * on a new User (whose other columns are the assumed defaults of Blank).
   */
  function Filled(email: string, nom: string, prenom: string, matricule: string): UserData {
    Blank().(email := email, nom := nom, prenom := prenom, matricule := matricule)
  }

  /** The row createUser stores under `id`. */
  function NewRecord(id: int, email: string, nom: string, prenom: string, matricule: string,
                     random: RandomBlock, hash: Hasher): UserData
  {
    var u := Filled(email, nom, prenom, matricule);
    u.(id := Some(id), password := hash(u, GeneratePlainPassword(random)))
  }

  /** The database after createUser inserts its row under `id`. */
  function Created(rows: map<int, UserData>, id: int, email: string, nom: string, prenom: string,
                   matricule: string, random: RandomBlock, hash: Hasher): map<int, UserData>
  {
    rows[id := NewRecord(id, email, nom, prenom, matricule, random, hash)]
  }

  /** Hashes in the modular crypt format ("$2y$...", "$argon2id$...") start with '$'. */
  predicate IsCryptHash(h: string) {
    |h| > 0 && h[0] == '$'
  }

  /** createUser adds exactly one row under a fresh id and leaves every other row as it was. */
  lemma CreateAddsOneRow(rows: map<int, UserData>, nextId: int, email: string, nom: string, prenom: string,
                         matricule: string, random: RandomBlock, hash: Hasher)
    requires WellKeyed(rows, nextId)
    ensures var r := Created(rows, nextId, email, nom, prenom, matricule, random, hash);
      && r.Keys == rows.Keys + {nextId}
      && |r| == |rows| + 1
      && (forall k :: k in rows ==> r[k] == rows[k])
      && WellKeyed(r, nextId + 1)
  {
  }

  /** No uniqueness check: the new row is added even when another row already has the same email. */
  lemma CreateAllowsDuplicateEmail(rows: map<int, UserData>, nextId: int, existing: int, email: string, nom: string,
                                   prenom: string, matricule: string, random: RandomBlock, hash: Hasher)
    requires WellKeyed(rows, nextId)
    requires existing in rows && rows[existing].email == email
    ensures var r := Created(rows, nextId, email, nom, prenom, matricule, random, hash);
      && existing != nextId
      && existing in r && r[existing].email == email
      && nextId in r && r[nextId].email == email
  {
  }

  /** With a hasher that writes crypt-format hashes, the stored password is never the generated plaintext. */
  lemma StoredPasswordIsNotPlaintext(id: int, email: string, nom: string, prenom: string, matricule: string,
                                     random: RandomBlock, hash: Hasher)
    requires forall u, p :: IsCryptHash(hash(u, p))
    ensures NewRecord(id, email, nom, prenom, matricule, random, hash).password != GeneratePlainPassword(random)
  {
  }

  // ---------------------------------------------------------------- importUsersFromCsv

  /**
   * The database after createUser has run on each row of `csv` in order,
   * row i with columns 0..3 and the i-th random block, ids counting up
   * from `firstId`.
   */
  function Imported(rows: map<int, UserData>, firstId: int, csv: seq<CsvRow>, entropy: seq<RandomBlock>,
                    hash: Hasher): map<int, UserData>
    requires AllComplete(csv) && |csv| <= |entropy|
    decreases |csv|
  {
    if csv == [] then rows
    else
      var n := |csv| - 1;
      var row := csv[n];
      Created(Imported(rows, firstId, csv[..n], entropy, hash), firstId + n,
              row[0], row[1], row[2], row[3], entropy[n], hash)
  }

  /** How many leading rows are complete: the import stops with an error at the first row that is not. */
  function CompletePrefix(csv: seq<CsvRow>): (n: nat)
    ensures n <= |csv|
    ensures forall i :: 0 <= i < n ==> Complete(csv[i])
    ensures n < |csv| ==> !Complete(csv[n])
  {
    if csv == [] || !Complete(csv[0]) then 0 else 1 + CompletePrefix(csv[1..])
  }

  /** The import's keys are the old keys and one new id per row, firstId .. firstId + |csv| - 1. */
  lemma {:induction false} ImportedKeys(rows: map<int, UserData>, firstId: int, csv: seq<CsvRow>,
                                        entropy: seq<RandomBlock>, hash: Hasher)
    requires AllComplete(csv) && |csv| <= |entropy|
    ensures forall k :: k in Imported(rows, firstId, csv, entropy, hash) <==> k in rows || firstId <= k < firstId + |csv|
  {
    if csv != [] {
      ImportedKeys(rows, firstId, csv[..|csv| - 1], entropy, hash);
    }
  }

  /** N complete rows add exactly N rows to a well-keyed database, which stays well-keyed. */
  lemma {:induction false} ImportedCount(rows: map<int, UserData>, firstId: int, csv: seq<CsvRow>,
                                         entropy: seq<RandomBlock>, hash: Hasher)
    requires AllComplete(csv) && |csv| <= |entropy|
    requires WellKeyed(rows, firstId)
    ensures |Imported(rows, firstId, csv, entropy, hash)| == |rows| + |csv|
    ensures WellKeyed(Imported(rows, firstId, csv, entropy, hash), firstId + |csv|)
  {
    if csv != [] {
      var n := |csv| - 1;
      ImportedCount(rows, firstId, csv[..n], entropy, hash);
      CreateAddsOneRow(Imported(rows, firstId, csv[..n], entropy, hash), firstId + n,
                       csv[n][0], csv[n][1], csv[n][2], csv[n][3], entropy[n], hash);
    }
  }

  /** Row i of the file becomes the user with id firstId + i, made from its columns 0..3. */
  lemma {:induction false} ImportedRow(rows: map<int, UserData>, firstId: int, csv: seq<CsvRow>,
                                       entropy: seq<RandomBlock>, hash: Hasher, i: int)
    requires AllComplete(csv) && |csv| <= |entropy|
    requires 0 <= i < |csv|
    ensures firstId + i in Imported(rows, firstId, csv, entropy, hash)
    ensures Imported(rows, firstId, csv, entropy, hash)[firstId + i]
            == NewRecord(firstId + i, csv[i][0], csv[i][1], csv[i][2], csv[i][3], entropy[i], hash)
  {
    var n := |csv| - 1;
    if i < n {
      ImportedRow(rows, firstId, csv[..n], entropy, hash, i);
    }
  }

  /** Rows already stored before the import keep their values. */
  lemma {:induction false} ImportedKeepsExisting(rows: map<int, UserData>, firstId: int, csv: seq<CsvRow>,
                                                 entropy: seq<RandomBlock>, hash: Hasher, k: int)
    requires AllComplete(csv) && |csv| <= |entropy|
    requires WellKeyed(rows, firstId)
    requires k in rows
    ensures k in Imported(rows, firstId, csv, entropy, hash)
    ensures Imported(rows, firstId, csv, entropy, hash)[k] == rows[k]
  {
    if csv != [] {
      ImportedKeepsExisting(rows, firstId, csv[..|csv| - 1], entropy, hash, k);
    }
  }

  /** Every row is committed on its own: what the first j rows stored is still stored after the rest. */
  lemma {:induction false} ImportedKeepsEarlierRows(rows: map<int, UserData>, firstId: int, csv: seq<CsvRow>,
                                                    entropy: seq<RandomBlock>, hash: Hasher, j: int, k: int)
    requires AllComplete(csv) && |csv| <= |entropy|
    requires 0 <= j <= |csv|
    requires k in Imported(rows, firstId, csv[..j], entropy, hash) && k < firstId + j
    ensures k in Imported(rows, firstId, csv, entropy, hash)
    ensures Imported(rows, firstId, csv, entropy, hash)[k] == Imported(rows, firstId, csv[..j], entropy, hash)[k]
  {
    if j < |csv| {
      var n := |csv| - 1;
      assert csv[..n][..j] == csv[..j];
      ImportedKeepsEarlierRows(rows, firstId, csv[..n], entropy, hash, j, k);
    } else {
      assert csv[..j] == csv;
    }
  }

  /** Columns after the fourth are never read. */
  lemma {:induction false} ImportIgnoresExtraColumns(rows: map<int, UserData>, firstId: int, csv: seq<CsvRow>,
                                                     csv': seq<CsvRow>, entropy: seq<RandomBlock>, hash: Hasher)
    requires AllComplete(csv) && AllComplete(csv') && |csv| <= |entropy|
    requires |csv| == |csv'|
    requires forall i :: 0 <= i < |csv| ==> csv[i][..4] == csv'[i][..4]
    ensures Imported(rows, firstId, csv, entropy, hash) == Imported(rows, firstId, csv', entropy, hash)
  {
    if csv != [] {
      var n := |csv| - 1;
      ImportIgnoresExtraColumns(rows, firstId, csv[..n], csv'[..n], entropy, hash);
      assert csv[n][..4][0] == csv'[n][..4][0] && csv[n][..4][1] == csv'[n][..4][1];
      assert csv[n][..4][2] == csv'[n][..4][2] && csv[n][..4][3] == csv'[n][..4][3];
    }
  }

  // ---------------------------------------------------------------- updateUser

  /** The value a nullable argument leaves in its field: the argument if given, else the old value. */
  function Overwrite(arg: Option<string>, old_: string): string {
    if arg.Some? then arg.value else old_
  }

  /**
   * The entity after updateUser: each given field overwritten, then, if a
   * new plaintext is given, the password replaced by its hash (computed on
   * the already updated entity).
   */
  function Updated(u: UserData, newEmail: Option<string>, newNom: Option<string>, newPrenom: Option<string>,
                   newMatricule: Option<string>, newPlainPassword: Option<string>, hash: Hasher): UserData
  {
    var fields := u.(email := Overwrite(newEmail, u.email), nom := Overwrite(newNom, u.nom),
                     prenom := Overwrite(newPrenom, u.prenom), matricule := Overwrite(newMatricule, u.matricule));
    if newPlainPassword.Some? then fields.(password := hash(fields, newPlainPassword.value)) else fields
  }

  /** Each non-null argument overwrites its field and each null one leaves it; id, roles and isActive are never touched. */
  lemma UpdateIsFieldwise(u: UserData, newEmail: Option<string>, newNom: Option<string>, newPrenom: Option<string>,
                          newMatricule: Option<string>, newPlainPassword: Option<string>, hash: Hasher)
    ensures var r := Updated(u, newEmail, newNom, newPrenom, newMatricule, newPlainPassword, hash);
      && (newEmail.Some? ==> r.email == newEmail.value) && (newEmail.None? ==> r.email == u.email)
      && (newNom.Some? ==> r.nom == newNom.value) && (newNom.None? ==> r.nom == u.nom)
      && (newPrenom.Some? ==> r.prenom == newPrenom.value) && (newPrenom.None? ==> r.prenom == u.prenom)
      && (newMatricule.Some? ==> r.matricule == newMatricule.value) && (newMatricule.None? ==> r.matricule == u.matricule)
      && r.id == u.id && r.roles == u.roles && r.isActive == u.isActive
  {
  }

  /** The password is rehashed exactly when a new plaintext is given, and then from the updated entity. */
  lemma UpdateRehashesOnlyWithPassword(u: UserData, newEmail: Option<string>, newNom: Option<string>,
                                       newPrenom: Option<string>, newMatricule: Option<string>,
                                       newPlainPassword: Option<string>, hash: Hasher)
    ensures var r := Updated(u, newEmail, newNom, newPrenom, newMatricule, newPlainPassword, hash);
      && (newPlainPassword.None? ==> r.password == u.password)
      && (newPlainPassword.Some? ==> r.password == hash(r.(password := u.password), newPlainPassword.value))
  {
  }

  /** An update with every argument null changes nothing. */
  lemma NullUpdateIsIdentity(u: UserData, hash: Hasher)
    ensures Updated(u, None, None, None, None, None, hash) == u
  {
  }

  /** Without a new password, applying the same update twice is the same as applying it once. */
  lemma UpdateIsIdempotent(u: UserData, newEmail: Option<string>, newNom: Option<string>, newPrenom: Option<string>,
                           newMatricule: Option<string>, hash: Hasher)
    ensures var once := Updated(u, newEmail, newNom, newPrenom, newMatricule, None, hash);
      Updated(once, newEmail, newNom, newPrenom, newMatricule, None, hash) == once
  {
  }

  /** Passing the entity's own values and a null password changes nothing. */
  lemma UpdateWithOwnValuesIsIdentity(u: UserData, hash: Hasher)
    ensures Updated(u, Some(u.email), Some(u.nom), Some(u.prenom), Some(u.matricule), None, hash) == u
  {
  }

  // ---------------------------------------------------------------- the service

  class UserService {
    const store: Store
    const hash: Hasher

    constructor (store: Store, hash: Hasher)
      ensures this.store == store && this.hash == hash
    {
      this.store := store;
      this.hash := hash;
    }

    method CreateUser(email: string, nom: string, prenom: string, matricule: string, random: RandomBlock)
      returns (user: User)
      requires store.Idle()
      modifies store
      ensures store.Idle() && fresh(user)
      ensures user.id == Some(old(store.nextId)) && old(store.nextId) !in old(store.rows)
      ensures user.email == email && user.nom == nom && user.prenom == prenom && user.matricule == matricule
      ensures user.roles == [] && !user.isActive && user.plainPassword == None
      ensures user.password == hash(Filled(email, nom, prenom, matricule), GeneratePlainPassword(random))
      ensures user.Data() == NewRecord(old(store.nextId), email, nom, prenom, matricule, random, hash)
      ensures store.rows == Created(old(store.rows), old(store.nextId), email, nom, prenom, matricule, random, hash)
      ensures store.nextId == old(store.nextId) + 1 && store.flushes == old(store.flushes) + 1
    {
      user := new User();
      user.email := email;
      user.nom := nom;
      user.prenom := prenom;
      user.matricule := matricule;

      var plainPassword := GeneratePlainPassword(random);
      var hashedPassword := hash(user.Data(), plainPassword);
      user.password := hashedPassword;

      store.Save(user);
    }

    /**
     * `file` is the parsed content of the uploaded file, None when it cannot
     * be opened; `entropy` supplies one random block per row.
     */
    method ImportUsersFromCsv(file: Option<seq<CsvRow>>, entropy: seq<RandomBlock>) returns (outcome: ImportOutcome)
      requires store.Idle()
      requires file.Some? ==> |file.value| <= |entropy|
      modifies store
      ensures store.Idle()
      ensures file.None? ==> outcome == Returned && store.rows == old(store.rows)
                             && store.nextId == old(store.nextId) && store.flushes == old(store.flushes)
      ensures file.Some? ==>
        var n := CompletePrefix(file.value);
        && outcome == (if n == |file.value| then Returned else FailedAt(n))
        && store.rows == Imported(old(store.rows), old(store.nextId), file.value[..n], entropy, hash)
        && store.nextId == old(store.nextId) + n
        && store.flushes == old(store.flushes) + n
    {
      outcome := Returned;
      if file.Some? {
        var csv := file.value;
        var i := 0;
        while i < |csv|
          invariant 0 <= i <= CompletePrefix(csv)
          invariant store.Idle()
          invariant store.rows == Imported(old(store.rows), old(store.nextId), csv[..i], entropy, hash)
          invariant store.nextId == old(store.nextId) + i
          invariant store.flushes == old(store.flushes) + i
        {
          var data := csv[i];
          if !Complete(data) {
            outcome := FailedAt(i);
            return;
          }
          var created := CreateUser(data[0], data[1], data[2], data[3], entropy[i]);
          assert csv[..i + 1][..i] == csv[..i];
          i := i + 1;
        }
      }
    }

    /** The four nullable setters of updateUser: each given argument overwrites its field. */
    static method SetGivenFields(user: User, newEmail: Option<string>, newNom: Option<string>,
                                 newPrenom: Option<string>, newMatricule: Option<string>)
      modifies user
      ensures user.Data() == old(user.Data()).(email := Overwrite(newEmail, old(user.email)),
                                               nom := Overwrite(newNom, old(user.nom)),
                                               prenom := Overwrite(newPrenom, old(user.prenom)),
                                               matricule := Overwrite(newMatricule, old(user.matricule)))
      ensures user.plainPassword == old(user.plainPassword)
    {
      if newEmail.Some? {
        user.email := newEmail.value;
      }
      if newNom.Some? {
        user.nom := newNom.value;
      }
      if newPrenom.Some? {
        user.prenom := newPrenom.value;
      }
      if newMatricule.Some? {
        user.matricule := newMatricule.value;
      }
    }

    method UpdateUser(user: User, newEmail: Option<string>, newNom: Option<string>, newPrenom: Option<string>,
                      newMatricule: Option<string>, newPlainPassword: Option<string>) returns (r: User)
      requires store.Idle()
      requires user.id.Some? ==> user.id.value in store.rows
      modifies user, store
      ensures store.Idle() && r == user
      ensures user.Data() == Updated(old(user.Data()), newEmail, newNom, newPrenom, newMatricule, newPlainPassword, hash)
                               .(id := user.id)
      ensures user.plainPassword == old(user.plainPassword)
      ensures user.id == if old(user.id).Some? then old(user.id) else Some(old(store.nextId))
      ensures store.nextId == if old(user.id).Some? then old(store.nextId) else old(store.nextId) + 1
      ensures store.rows == old(store.rows)[user.id.value := user.Data()]
      ensures store.flushes == old(store.flushes) + 1
    {
      SetGivenFields(user, newEmail, newNom, newPrenom, newMatricule);
      if newPlainPassword.Some? {
        var hashedPassword := hash(user.Data(), newPlainPassword.value);
        user.password := hashedPassword;
      }
      ghost var updated := user.Data();
      assert updated == Updated(old(user.Data()), newEmail, newNom, newPrenom, newMatricule, newPlainPassword, hash);
      store.Save(user);
      r := user;
    }
  }
}
