# User management rules of the quizDWWM back-office, in Dafny

The repository is a Symfony/EasyAdmin back-office for user accounts. Its only
decision logic is in three places, and this project models those:

- `UserService` creates a user from four strings with a generated password
  (`bin2hex` of ten random bytes, hashed). It also performs the field-wise
  partial `updateUser` and imports users from a CSV file, one `createUser`
  call per row.
- `DashboardController::batchDelete` removes every listed user that exists,
  skips the other ids, and commits once.
- `UserCrudController` holds the edit-form password rule. Opening the edit
  form snapshots the stored hash into the transient `plainPassword`. On
  submit, the password is rehashed only when the form is valid and the
  submitted password is given and differs from the snapshot. `persistEntity`
  runs `updateUser` with the entity's own values.

Modules, one per component:

- `Optional`: PHP's nullable values.
- `Hex`: `bin2hex` and a lower-case reference decoder as its inverse.
- `Entity`: the persisted row `UserData` and the entity class `User`.
- `Orm`: the Doctrine entity manager over a `map<int, UserData>` database.
- `Service`: `UserService` and the functions that specify it.
- `Dashboard`: `batchDelete`.
- `UserCrud`: the edit-form rule and `persistEntity`.

Each method that changes state is specified by a function on the stored rows
(`Created`, `Imported`, `Updated`, `AfterBatchDelete`, `PasswordAfterSubmit`).
The lemmas state what those functions guarantee: exact add and remove counts,
"nothing else changes", row order, idempotent and no-op updates.

The password hasher is a function parameter `Hasher = (UserData, string) -> string`.
`random_bytes(10)` is a `RandomBlock` parameter: a sequence of exactly ten bytes.

## Model

| member | source | states |
|---|---|---|
| `Hex.Bin2Hex` | src/Service/UserService.php:26 | bin2hex writes two characters per byte, each one of [0-9a-f] |
| `Hex.DecodeHex` | src/Service/UserService.php:26 | the reference decoder accepts only digit pairs, and each pair gives back one byte |
| `Hex.GeneratePlainPassword` | src/Service/UserService.php:26 | the generated plaintext is exactly 20 characters, all in [0-9a-f], as the comment on that line says |
| `Hex.Bin2HexRoundTrip` | src/Service/UserService.php:26 | decoding what bin2hex wrote gives back the original bytes |
| `Hex.DecodeHexRoundTrip` | src/Service/UserService.php:26 | every string the decoder accepts is exactly bin2hex of the bytes it returns, so the two are inverse in both directions |
| `Hex.Bin2HexInjective` | src/Service/UserService.php:26 | distinct random blocks give distinct plaintexts |
| `Service.UserService.CreateUser` | src/Service/UserService.php:18-34 | the new user has exactly the four given email, nom, prenom and matricule. Its password is `Hash(user, bin2hex(random))`, computed on the user with those four fields set. It is stored under a fresh id, the database gains exactly that row, and one flush happens |
| `Service.CreateAddsOneRow` | src/Service/UserService.php:30-31 | createUser adds exactly one row under a fresh id, every existing row keeps its value, and the store stays well-keyed |
| `Service.CreateAllowsDuplicateEmail` | src/Service/UserService.php:18-33 | there is no uniqueness check: the row is added even when a stored user already has the same email |
| `Service.StoredPasswordIsNotPlaintext` | src/Service/UserService.php:26-28 | with a hasher that writes crypt-format hashes (starting with '$'), the stored password never equals the generated plaintext |
| `Service.UserService.ImportUsersFromCsv` | src/Service/UserService.php:36-47 | a file that cannot be opened changes nothing. Otherwise the complete rows are imported in file order, one createUser and one flush per row. At the first row without four columns the import stops with an error, and the rows before it stay stored |
| `Service.CompletePrefix` | src/Service/UserService.php:38-43 | counts the rows read before the first row that lacks one of columns 0..3: every row before it has four columns |
| `Service.ImportedKeys` | src/Service/UserService.php:38-44 | after the import the stored ids are exactly the old ones plus one new id per row, counting up from the next free id |
| `Service.ImportedCount` | src/Service/UserService.php:38-44 | N complete rows add exactly N rows, and the store stays well-keyed |
| `Service.ImportedRow` | src/Service/UserService.php:39-43 | row i becomes the user with id firstId + i, built from columns 0, 1, 2 and 3 as email, nom, prenom and matricule, with the i-th random block |
| `Service.ImportedKeepsExisting` | src/Service/UserService.php:38-44 | users stored before the import keep their values |
| `Service.ImportedKeepsEarlierRows` | src/Service/UserService.php:30-31 | each row is committed on its own: what the first j rows stored is still stored after the remaining rows |
| `Service.ImportIgnoresExtraColumns` | src/Service/UserService.php:39-42 | columns after the fourth never affect the result |
| `Service.UserService.SetGivenFields` | src/Service/UserService.php:50-61 | each non-null argument overwrites its field, each null one leaves it, and nothing else changes |
| `Service.UserService.UpdateUser` | src/Service/UserService.php:49-71 | the entity becomes `Updated(old entity, arguments)`, the transient snapshot is kept, the entity is saved under its id (a fresh one if it had none), and one flush happens |
| `Service.UpdateIsFieldwise` | src/Service/UserService.php:50-61 | each non-null argument overwrites its field and each null argument leaves it. id, roles and isActive never change |
| `Service.UpdateRehashesOnlyWithPassword` | src/Service/UserService.php:62-65 | the password changes only when a new plaintext is given. It then becomes `Hash` of the already updated user and that plaintext |
| `Service.NullUpdateIsIdentity` | src/Service/UserService.php:49-65 | an update with every argument null leaves the user unchanged |
| `Service.UpdateIsIdempotent` | src/Service/UserService.php:50-61 | applying the same update without a password twice equals applying it once |
| `Service.UpdateWithOwnValuesIsIdentity` | src/Controller/Admin/UserCrudController.php:156-163 | updateUser with the user's own email, nom, prenom and matricule and a null password changes nothing |
| `Dashboard.BatchDelete` | src/Controller/Admin/DashboardController.php:33-47 | the database becomes the old one minus every listed id. No id is assigned. An empty list makes no flush; otherwise exactly one flush happens, after the loop |
| `Dashboard.BatchDeleteRemovesListed` | src/Controller/Admin/DashboardController.php:37-41 | after the batch, no listed id is stored |
| `Dashboard.BatchDeleteKeepsUnlisted` | src/Controller/Admin/DashboardController.php:37-43 | rows whose id is not listed are unchanged, and no row is added |
| `Dashboard.BatchDeleteCount` | src/Controller/Admin/DashboardController.php:37-43 | the store shrinks by exactly the number of distinct listed ids that were stored |
| `Dashboard.BatchDeleteSkipsMissing` | src/Controller/Admin/DashboardController.php:38-39 | listing an id that resolves to no user changes nothing |
| `Dashboard.BatchDeleteOfThree` | src/Controller/Admin/DashboardController.php:37-43 | deleting [a, b, c] when b does not exist removes exactly a and c, and the count drops by two |
| `UserCrud.ShouldRehash` | src/Controller/Admin/UserCrudController.php:131-135 | the listener rehashes exactly when the form is valid, a password was submitted and it differs from the snapshot |
| `UserCrud.IsNew` | src/Controller/Admin/UserCrudController.php:152 | PHP's `!$entityInstance->getId()`: true for a missing id, false for any non-zero id |
| `UserCrud.UserCrudController.StartEdit` | src/Controller/Admin/UserCrudController.php:114-120 | opening the edit form sets plainPassword to the stored password hash |
| `UserCrud.UserCrudController.OnSubmit` | src/Controller/Admin/UserCrudController.php:127-142 | the submit listener changes only the password, to `PasswordAfterSubmit(entity, snapshot, valid, submitted)` |
| `UserCrud.InvalidFormKeepsPassword` | src/Controller/Admin/UserCrudController.php:131-133 | an invalid form never changes the password |
| `UserCrud.UnchangedPasswordKeepsHash` | src/Controller/Admin/UserCrudController.php:134-137 | a null submitted password, or one equal to the snapshot, keeps the stored hash |
| `UserCrud.ChangedPasswordIsRehashed` | src/Controller/Admin/UserCrudController.php:139-140 | a valid form with a password different from the snapshot stores `Hash(user, submitted)` |
| `UserCrud.NewFormHashesAnyPassword` | src/Controller/Admin/UserCrudController.php:108-112 | the new-user form takes no snapshot, so any password given in a valid form is hashed |
| `UserCrud.EditWithoutRetypingKeepsHash` | src/Controller/Admin/UserCrudController.php:118-137 | after the edit snapshot, submitting nothing or the snapshot value keeps the stored hash |
| `UserCrud.StoredUserIsNotNew` | src/Controller/Admin/UserCrudController.php:152 | a user loaded from the store always has a truthy id, so persistEntity takes the update branch for it |
| `UserCrud.UserCrudController.PersistEntity` | src/Controller/Admin/UserCrudController.php:150-167 | no field of the entity changes except a newly assigned id. It is saved under its id, and only a new user advances the next id. A new user (no id) skips updateUser and costs one flush; an existing one goes through updateUser and costs two |

## Left out

- Reading the file: `fopen`/`fgetcsv`/`fclose` are library I/O. The file is an already parsed `Option<seq<seq<string>>>`, and `None` stands for a file that cannot be opened. A blank line, which `fgetcsv` returns as a single null field, is a row with fewer than four columns.
- Unopenable file: `ImportUsersFromCsv` models the `None` case as a plain return (`Returned`). Under Symfony's debug error handler the warning of a failed `fopen` is thrown as an ErrorException instead; that exception is not modelled. The store is unchanged in both cases.
- Short rows: reading a missing column raises an "Undefined array key" warning, which Symfony's debug error handler throws as an ErrorException; without that handler the column reads as null and passing it to the `string` parameters of `createUser` throws a TypeError. Either way the import stops at that row with the earlier rows stored, and the model returns `FailedAt(row)` without telling the two exception types apart. It does not model the unclosed file handle or the HTTP error that follows.
- Randomness and hashing: `random_bytes` and the password hasher are parameters. Salting, hash verification and the distinctness of the generated passwords are not modelled. The hasher is given the persisted columns of the user, not the object with its transient field.
- Doctrine: `persist` followed by `flush` is one operation, `Store.Save`, because every call site pairs them. `find` hydrates a fresh entity object; Doctrine's identity map, change tracking of other managed entities at flush, and any unique index on email in the database are not modelled.
- Request scope: every controller or service entry point starts with no pending removals (`Store.Idle`), as each request has its own unit of work.
- src/Entity/User.php is not part of this model, and the defaults of `new User()` are not known. The model assumes a fresh `User` has no id, empty strings, no roles, `isActive` false and an empty password (`Entity.Blank`); the entity's columns may well default to null instead. The clause `ensures user.roles == [] && !user.isActive` of `Service.UserService.CreateUser`, and the user `Service.Filled` that CreateUser hands to the hasher, depend on this assumption. The setters are modelled as direct field assignments.
- Form binding: EasyAdmin writes the edited fields into the entity before the submit listener runs. The model takes the entity as it is at that point. The registration of the listener (`addEventListener`, `POST_SUBMIT`) is wiring and is not modelled.
- EasyAdmin configuration (`configureCrud`, `configureActions`, `configureFields`, `createEntity`, `configureDashboard`, `configureMenuItems`) is declarative UI setup.
- HTTP: routes (including the `admin_import_users` name declared in both controllers), redirects, flash messages, templates, the dashboard `index` and `importUsers` redirects, and the upload action `UserCrudController::importUsers` (`uniqid` file names, `move`, `csv_directory`, the `FileException` notice). The import is modelled from the point where `importUsersFromCsv` is called.
- Ids are `int`. The ids in the batch-delete request are form strings that Doctrine casts.
- Request parsing in `batchDelete` is assumed to follow Symfony 5.x `InputBag::get`, where an absent `batch_action_ids` yields the `[]` default and an array value is returned as is; the model's id list is that value. From Symfony 6.0 that call throws for an array default or value before any `find`, leaving the store unchanged; the framework version is not known, so this behaviour is not modelled.

Behaviour of the code worth knowing:

- createUser generates exactly ten random bytes.
- No email uniqueness check exists in UserService.
- The submit listener rehashes only a valid form with a non-null password that differs from the snapshot.
- A row missing one of its first four columns stops the import with an error; earlier rows stay stored.
