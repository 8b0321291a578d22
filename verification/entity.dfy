/**
 * The User entity. UserData is one persisted row (the columns the store
 * keeps); User is the in-memory entity object whose fields the service and
 * the admin form change in place through its setters. The transient
 * plainPassword lives only on the object and is never part of a row.
 */
module Entity {
  import opened Optional

  datatype UserData = UserData(
    id: Option<int>,
    email: string,
    nom: string,
    prenom: string,
    matricule: string,
    roles: seq<string>,
    isActive: bool,
    password: string)

  /** The password hasher: hashPassword(user, plaintext). Opaque to the model. */
  type Hasher = (UserData, string) -> string

  /** The row of a freshly constructed `new User()`: no id, nothing set yet. */
  function Blank(): UserData {
    UserData(None, "", "", "", "", [], false, "")
  }

  class User {
    var id: Option<int>
    var email: string
    var nom: string
    var prenom: string
    var matricule: string
    var roles: seq<string>
    var isActive: bool
    var password: string
    var plainPassword: Option<string>

    /** `new User()`. */
    constructor ()
      ensures Data() == Blank() && plainPassword == None
    {
      id, email, nom, prenom, matricule := None, "", "", "", "";
      roles, isActive, password, plainPassword := [], false, "", None;
    }

    /** An entity loaded from a stored row. */
    constructor Load(row: UserData)
      ensures Data() == row && plainPassword == None
    {
      id, email, nom, prenom, matricule := row.id, row.email, row.nom, row.prenom, row.matricule;
      roles, isActive, password, plainPassword := row.roles, row.isActive, row.password, None;
    }

    /** The row this entity would be written as. */
    function Data(): UserData
      reads this
    {
      UserData(id, email, nom, prenom, matricule, roles, isActive, password)
    }
  }
}
