/**
 * The password rule of the admin edit form in UserCrudController.
 * Opening the edit form snapshots the stored hash into the transient
 * plainPassword; on submit, the password is rehashed only when the form is
 * valid and the submitted password is given and differs from that
 * snapshot. persistEntity then runs updateUser with the entity's own
 * values (a no-op) for an existing user, and saves it.
 */
module UserCrud {
  import opened Optional
  import opened Entity
  import opened Orm
  import opened Service

  /** The test of the POST_SUBMIT listener: hash only a valid, given and changed password. */
  function ShouldRehash(formValid: bool, submitted: Option<string>, snapshot: Option<string>): (r: bool)
    ensures r ==> formValid && submitted.Some? && submitted != snapshot
    ensures formValid && submitted.Some? && submitted != snapshot ==> r
  {
    if !formValid then false
    else if submitted.None? || submitted == snapshot then false
    else true
  }

  /** The stored password after the listener has run on entity `u` with snapshot `snapshot`. */
  function PasswordAfterSubmit(u: UserData, snapshot: Option<string>, formValid: bool, submitted: Option<string>,
                               hash: Hasher): string
  {
    if ShouldRehash(formValid, submitted, snapshot) then hash(u, submitted.value) else u.password
  }

  /** PHP's `!$entity->getId()`: no id yet, or the falsy id 0. */
  function IsNew(id: Option<int>): (r: bool)
    ensures id.None? ==> r
    ensures id == Some(0) ==> r
    ensures id.Some? && id.value != 0 ==> !r
  {
    id.None? || id.value == 0
  }

  /** An invalid form never touches the password. */
  lemma InvalidFormKeepsPassword(u: UserData, snapshot: Option<string>, submitted: Option<string>, hash: Hasher)
    ensures PasswordAfterSubmit(u, snapshot, false, submitted, hash) == u.password
  {
  }

  /** An empty password field, or one equal to the snapshot, keeps the stored hash. */
  lemma UnchangedPasswordKeepsHash(u: UserData, snapshot: Option<string>, formValid: bool, submitted: Option<string>,
                                   hash: Hasher)
    requires submitted.None? || submitted == snapshot
    ensures PasswordAfterSubmit(u, snapshot, formValid, submitted, hash) == u.password
  {
  }

  /** A valid form with a new password stores its hash. */
  lemma ChangedPasswordIsRehashed(u: UserData, snapshot: Option<string>, submitted: string, hash: Hasher)
    requires snapshot != Some(submitted)
    ensures PasswordAfterSubmit(u, snapshot, true, Some(submitted), hash) == hash(u, submitted)
  {
  }

  /** On the new-user form nothing was snapshotted, so any given password of a valid form is hashed. */
  lemma NewFormHashesAnyPassword(u: UserData, submitted: string, hash: Hasher)
    ensures PasswordAfterSubmit(u, None, true, Some(submitted), hash) == hash(u, submitted)
  {
  }

  /** Editing and submitting the snapshot value back leaves the stored hash as it was. */
  lemma EditWithoutRetypingKeepsHash(u: UserData, formValid: bool, hash: Hasher)
    ensures PasswordAfterSubmit(u, Some(u.password), formValid, Some(u.password), hash) == u.password
    ensures PasswordAfterSubmit(u, Some(u.password), formValid, None, hash) == u.password
  {
  }

  /** A user loaded from the store is never taken for a new one. */
  lemma StoredUserIsNotNew(rows: map<int, UserData>, nextId: int, k: int)
    requires WellKeyed(rows, nextId) && k in rows
    ensures !IsNew(rows[k].id)
  {
  }

  class UserCrudController {
    const userService: UserService
    const userPasswordHasher: Hasher

    constructor (userService: UserService, userPasswordHasher: Hasher)
      ensures this.userService == userService && this.userPasswordHasher == userPasswordHasher
    {
      this.userService := userService;
      this.userPasswordHasher := userPasswordHasher;
    }

    /** createEditFormBuilder: keeps the current hash as the snapshot. */
    method StartEdit(user: User)
      modifies user`plainPassword
      ensures user.plainPassword == Some(user.password)
    {
      user.plainPassword := Some(user.password);
    }

    /** The POST_SUBMIT listener on the entity the form edits. */
    method OnSubmit(user: User, formValid: bool, submitted: Option<string>)
      modifies user`password
      ensures user.Data() == old(user.Data()).(password :=
        PasswordAfterSubmit(old(user.Data()), user.plainPassword, formValid, submitted, userPasswordHasher))
    {
      if !formValid {
        return;
      }
      if submitted.None? || submitted == user.plainPassword {
        return;
      }
      var hash := userPasswordHasher(user.Data(), submitted.value);
      user.password := hash;
    }

    /**
     * persistEntity: an existing user goes through updateUser with its own
     * values and a null password; then the entity is persisted and flushed.
     */
    method PersistEntity(entityInstance: User)
      requires userService.store.Idle()
      requires entityInstance.id.Some? ==> entityInstance.id.value in userService.store.rows
      modifies entityInstance, userService.store
      ensures userService.store.Idle()
      ensures entityInstance.Data() == old(entityInstance.Data()).(id := entityInstance.id)
      ensures entityInstance.plainPassword == old(entityInstance.plainPassword)
      ensures entityInstance.id == if old(entityInstance.id).Some? then old(entityInstance.id)
                                   else Some(old(userService.store.nextId))
      ensures userService.store.nextId == if old(entityInstance.id).Some? then old(userService.store.nextId)
                                          else old(userService.store.nextId) + 1
      ensures userService.store.rows == old(userService.store.rows)[entityInstance.id.value := entityInstance.Data()]
      ensures userService.store.flushes == old(userService.store.flushes) + (if IsNew(old(entityInstance.id)) then 1 else 2)
    {
      if !IsNew(entityInstance.id) {
        UpdateWithOwnValuesIsIdentity(entityInstance.Data(), userService.hash);
        var updated := userService.UpdateUser(entityInstance, Some(entityInstance.email), Some(entityInstance.nom),
                                              Some(entityInstance.prenom), Some(entityInstance.matricule), None);
      }
      userService.store.Save(entityInstance);
    }
  }
}
