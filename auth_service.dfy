/**
 * The authentication service's bookkeeping: the per-user vault of encrypted
 * secrets, the older single-file key vault, the allocation of user ids, and
 * the order in which authenticate_wg_gesucht and get_credentials check their
 * inputs and fail. Encryption is an abstract sealing under a key: opening with
 * the same key gives the text back and any other key fails. Each database call
 * is the client's reply (an answer, or the HTTPException the client raises);
 * the browser login and the session token are parameters.
 */
module AuthService {
  import opened Wrappers
  import opened Text
  import opened DatabaseClient
  import BrowserManager

  // ---------------------------------------------------------------- the cipher

  /** A Fernet token: the text sealed under a key. */
  datatype Sealed = Sealed(key: nat, plaintext: string)

  function Encrypt(key: nat, plaintext: string): Sealed {
    Sealed(key, plaintext)
  }

  /** Fernet.decrypt: the text for the right key, InvalidToken (None) for any other. */
  function Decrypt(key: nat, token: Sealed): (r: Option<string>)
    ensures r.Some? <==> token.key == key
    ensures r.Some? ==> Encrypt(key, r.value) == token
  {
    if token.key == key then Some(token.plaintext) else None
  }

  // ---------------------------------------------------------------- UserVault

  /** What store_secret is given: a string, or any other value, which it stores as its JSON text. */
  datatype SecretData = Text(text: string) | Structured(json: string)

  function SecretText(data: SecretData): string {
    match data
    case Text(t) => t
    case Structured(json) => json
  }

  /** The secret files after store_secret: this type's file replaced, every other file as it was. */
  function Stored(files: map<string, Sealed>, masterKey: nat, secretType: string, data: SecretData): map<string, Sealed> {
    files[secretType := Encrypt(masterKey, SecretText(data))]
  }

  /** get_secret: None for a missing file or a file that does not decrypt under the master key. */
  function SecretOf(files: map<string, Sealed>, masterKey: nat, secretType: string): (r: Option<string>)
    ensures r.Some? ==> secretType in files
  {
    if secretType !in files then None else Decrypt(masterKey, files[secretType])
  }

  /** Getting a secret just stored gives its text back; the other types read as before. */
  lemma StoreThenGet(files: map<string, Sealed>, masterKey: nat, secretType: string, data: SecretData, other: string)
    ensures SecretOf(Stored(files, masterKey, secretType, data), masterKey, secretType) == Some(SecretText(data))
    ensures other != secretType ==>
      SecretOf(Stored(files, masterKey, secretType, data), masterKey, other) == SecretOf(files, masterKey, other)
  {
  }

  /**
   * A user's vault directory as the stand-alone KeyVault object: the master key
   * and one encrypted file per secret type. Service below keeps every user's
   * vault as the pair of its master key and its files (masterKeys, vaults) and
   * updates them with the same Stored and SecretOf this class uses.
   */
  class UserVault {
    const masterKey: nat
    var files: map<string, Sealed>

    /** The vault of a user whose directory already holds this master key and these files. */
    constructor (masterKey: nat, files: map<string, Sealed>)
      ensures this.masterKey == masterKey && this.files == files
    {
      this.masterKey := masterKey;
      this.files := files;
    }

    method StoreSecret(secretType: string, data: SecretData)
      modifies this
      ensures files == Stored(old(files), masterKey, secretType, data)
    {
      files := files[secretType := Encrypt(masterKey, SecretText(data))];
    }

    method GetSecret(secretType: string) returns (r: Option<string>)
      ensures r == SecretOf(files, masterKey, secretType)
    {
      if secretType !in files {
        return None;
      }
      r := Decrypt(masterKey, files[secretType]);
    }

    /** list_secrets: the types that have a file (the listing order is the file system's). */
    method ListSecrets() returns (r: set<string>)
      ensures forall t :: t in r <==> t in files
    {
      r := files.Keys;
    }

    /** delete_secret: true exactly when the file existed; afterwards it does not. */
    method DeleteSecret(secretType: string) returns (existed: bool)
      modifies this
      ensures existed == (secretType in old(files))
      ensures files == old(files) - {secretType}
      ensures SecretOf(files, masterKey, secretType) == None
    {
      existed := secretType in files;
      if existed {
        files := files - {secretType};
      }
    }
  }

  // ---------------------------------------------------------------- _save_to_vault / _load_from_vault

  /** The bytes of the single key_vault.enc file: a Fernet key, or a dict sealed under one. */
  datatype VaultFile = KeyBytes(key: nat) | SealedDict(sealedUnder: nat, entries: map<string, string>)

  /** Fernet(...) on bytes that are not a key raises ValueError; decrypting the wrong bytes raises InvalidToken. */
  datatype VaultError = InvalidKey | InvalidToken

  /** _initialize_vault: create the file with a fresh key, or read the key it holds. */
  function InitializeVault(file: Option<VaultFile>, freshKey: nat): (r: (VaultFile, Result<nat, VaultError>))
    ensures file.None? ==> r == (KeyBytes(freshKey), Ok(freshKey))
    ensures file.Some? ==> r.0 == file.value
    ensures file.Some? && file.value.KeyBytes? ==> r.1 == Ok(file.value.key)
    ensures file.Some? && file.value.SealedDict? ==> r.1 == Err(InvalidKey)
  {
    if file.None? then (KeyBytes(freshKey), Ok(freshKey))
    else
      match file.value
      case KeyBytes(k) => (file.value, Ok(k))
      case SealedDict(_, _) => (file.value, Err(InvalidKey))
  }

  /**
   * _save_to_vault as written: the one-entry dict, sealed under the file's key,
   * replaces the file that held the key; a file that no longer holds a key fails.
   */
  function SaveToVaultAsWritten(file: Option<VaultFile>, key: string, value: string, freshKey: nat): (r: Result<VaultFile, VaultError>)
    ensures file.None? ==> r == Ok(SealedDict(freshKey, map[key := value]))
    ensures file.Some? && file.value.KeyBytes? ==> r == Ok(SealedDict(file.value.key, map[key := value]))
    ensures file.Some? && file.value.SealedDict? ==> r == Err(InvalidKey)
    ensures r.Ok? ==> r.value.SealedDict? && r.value.entries.Keys == {key}
  {
    var (_, cipher) := InitializeVault(file, freshKey);
    match cipher
    case Err(e) => Err(e)
    case Ok(k) => Ok(SealedDict(k, map[key := value]))
  }

  /**
   * _load_from_vault as written: initialise (which creates the file), then decrypt
   * the file's bytes with the key read from those same bytes. It never returns a
   * value: a key file is not a token, and a saved dict is not a key.
   */
  function LoadFromVaultAsWritten(file: Option<VaultFile>, key: string, freshKey: nat): (r: Result<Option<string>, VaultError>)
    ensures r.Err?
    ensures r.Err? ==> (r.error == InvalidKey <==> file.Some? && file.value.SealedDict?)
  {
    var (current, cipher) := InitializeVault(file, freshKey);
    match cipher
    case Err(e) => Err(e)
    case Ok(k) =>
      match current
      case KeyBytes(_) => Err(InvalidToken)
      case SealedDict(under, entries) =>
        if under != k then Err(InvalidToken)
        else Ok(DictGet(entries, key))
  }

  /** dict.get: the entry, or None. */
  function DictGet(entries: map<string, string>, key: string): Option<string> {
    if key in entries then Some(entries[key]) else None
  }

  /** As written, nothing saved can be loaded, and a second save fails: the saved file no longer holds a key. */
  lemma VaultAsWrittenNeverLoads(file: Option<VaultFile>, key: string, value: string, other: string, k1: nat, k2: nat)
    ensures SaveToVaultAsWritten(file, key, value, k1).Ok? ==>
      LoadFromVaultAsWritten(Some(SaveToVaultAsWritten(file, key, value, k1).value), other, k2) == Err(InvalidKey)
    ensures SaveToVaultAsWritten(file, key, value, k1).Ok? ==>
      SaveToVaultAsWritten(Some(SaveToVaultAsWritten(file, key, value, k1).value), other, value, k2) == Err(InvalidKey)
  {
  }

  /** The vault as its documentation describes it: the key in its own file, and one sealed dict of all entries. */
  datatype Vault = Vault(keyFile: Option<nat>, data: Option<SealedEntries>)
  datatype SealedEntries = SealedEntries(sealedUnder: nat, entries: map<string, string>)

  /** The dict is sealed under the vault's own key. */
  predicate WellFormed(v: Vault) {
    v.data.Some? ==> v.keyFile.Some? && v.data.value.sealedUnder == v.keyFile.value
  }

  function Entries(v: Vault): map<string, string> {
    if v.data.None? then map[] else v.data.value.entries
  }

  /** _save_to_vault: add the entry to the stored dict, leaving the key file and the other entries alone. */
  function SaveToVault(v: Vault, key: string, value: string, freshKey: nat): (r: Vault)
    requires WellFormed(v)
    ensures WellFormed(r)
    ensures Entries(r) == Entries(v)[key := value]
    ensures v.keyFile.Some? ==> r.keyFile == v.keyFile
  {
    var k := if v.keyFile.Some? then v.keyFile.value else freshKey;
    Vault(Some(k), Some(SealedEntries(k, Entries(v)[key := value])))
  }

  /** _load_from_vault: None without a vault or without the entry, else the entry. */
  function LoadFromVault(v: Vault, key: string): (r: Option<string>)
    requires WellFormed(v)
    ensures v.data.None? ==> r.None?
    ensures r.Some? <==> v.data.Some? && key in v.data.value.entries
    ensures r.Some? ==> r.value == v.data.value.entries[key]
  {
    if key in Entries(v) then Some(Entries(v)[key]) else None
  }

  /** Loading after saving gives the value saved, and every other key as it was. */
  lemma SaveThenLoad(v: Vault, key: string, value: string, other: string, freshKey: nat)
    requires WellFormed(v)
    ensures LoadFromVault(SaveToVault(v, key, value, freshKey), key) == Some(value)
    ensures other != key ==> LoadFromVault(SaveToVault(v, key, value, freshKey), other) == LoadFromVault(v, other)
  {
  }

  /** Two saves of different keys are both loadable, as the credential retrieval expects. */
  lemma TwoSavesBothLoad(v: Vault, k1: string, x1: string, k2: string, x2: string, f1: nat, f2: nat)
    requires WellFormed(v) && k1 != k2
    ensures LoadFromVault(SaveToVault(SaveToVault(v, k1, x1, f1), k2, x2, f2), k1) == Some(x1)
    ensures LoadFromVault(SaveToVault(SaveToVault(v, k1, x1, f1), k2, x2, f2), k2) == Some(x2)
  {
    SaveThenLoad(v, k1, x1, k2, f1);
    SaveThenLoad(SaveToVault(v, k1, x1, f1), k2, x2, k1, f2);
  }

  // ---------------------------------------------------------------- errors

  /** The exceptions that leave the service: an HTTPException, or anything else, named. */
  datatype Failure = Http(status: int, detail: string) | Uncaught(name: string)

  /**
   * `except Exception as e: raise HTTPException(500, str(e))` around an HTTPException:
   * the status is lost and str(e) is "<status>: <detail>".
   */
  function Rewrapped(status: int, detail: string): Failure {
    Http(500, IntToString(status) + ": " + detail)
  }

  // ---------------------------------------------------------------- _get_or_create_user

  function MaxOf(ids: seq<int>): (m: int)
    requires ids != []
    ensures m in ids && forall i | 0 <= i < |ids| :: ids[i] <= m
    decreases |ids|
  {
    if |ids| == 1 then ids[0]
    else
      var rest := MaxOf(ids[1..]);
      if ids[0] >= rest then ids[0] else rest
  }

  /** The id a new user gets: 1 for the first user, else one more than the largest id. */
  function NextUserId(ids: seq<int>): (r: int)
    ensures forall i | 0 <= i < |ids| :: ids[i] < r
    ensures ids == [] ==> r == 1
    ensures ids != [] ==> r - 1 in ids
  {
    if ids == [] then 1 else MaxOf(ids) + 1
  }

  /** A new id is taken by no user, and ids only grow: a later allocation exceeds an earlier one. */
  lemma NextUserIdFresh(ids: seq<int>)
    ensures NextUserId(ids) !in ids
    ensures NextUserId(ids + [NextUserId(ids)]) == NextUserId(ids) + 1
  {
    var n := NextUserId(ids);
    var more := ids + [n];
    assert more[|ids|] == n;
  }

  /**
   * The HTTPException the client raises for a call it cannot complete, as the
   * service's `except Exception` re-raises it: a 500 whose detail is the
   * original's text.
   */
  function RaisedThrough<T>(reply: Reply<T>): Failure
    requires !reply.Answered?
  {
    Rewrapped(Status(reply), Detail(reply))
  }

  /**
   * _get_or_create_user: the existing user's id, or a new id allocated from the
   * ids select and inserted. The result's flag says whether a user was created.
   * The selects answer with the rows' ids. The checks of `result["success"]`
   * never fail, since the client raises instead; its exception is rewrapped.
   */
  function GetOrCreateUser(byEmail: Reply<seq<int>>, allIds: Reply<seq<int>>, insert: Reply<()>)
    : (r: Result<(string, bool), Failure>)
    ensures !byEmail.Answered? ==> r == Err(RaisedThrough(byEmail))
    ensures byEmail.Answered? && byEmail.value != [] ==> r == Ok((IntToString(byEmail.value[0]), false))
    ensures byEmail == Answered([]) && !allIds.Answered? ==> r == Err(RaisedThrough(allIds))
    ensures byEmail == Answered([]) && allIds.Answered? && !insert.Answered? ==> r == Err(RaisedThrough(insert))
    ensures byEmail == Answered([]) && allIds.Answered? && insert.Answered? ==>
      r == Ok((IntToString(NextUserId(allIds.value)), true))
    ensures r.Err? ==> r.error.Http? && r.error.status == 500
  {
    match byEmail
    case Answered(found) =>
      if found != [] then Ok((IntToString(found[0]), false))
      else if !allIds.Answered? then Err(RaisedThrough(allIds))
      else if !insert.Answered? then Err(RaisedThrough(insert))
      else Ok((IntToString(NextUserId(allIds.value)), true))
    case _ => Err(RaisedThrough(byEmail))
  }

  /** A new user gets "1" when there are no users, and never the id of an existing user. */
  lemma NewUserIds(allIds: seq<int>)
    ensures GetOrCreateUser(Answered([]), Answered([]), Answered(())) == Ok(("1", true))
    ensures GetOrCreateUser(Answered([]), Answered(allIds), Answered(())).Ok?
    ensures forall i | 0 <= i < |allIds| ::
      GetOrCreateUser(Answered([]), Answered(allIds), Answered(())).value.0 != IntToString(allIds[i])
  {
    assert IntToString(1) == "1";
    forall i | 0 <= i < |allIds| ensures IntToString(NextUserId(allIds)) != IntToString(allIds[i]) {
      IntToStringInjective(NextUserId(allIds), allIds[i]);
    }
  }

  lemma IntToStringInjective(a: int, b: int)
    requires a != b
    ensures IntToString(a) != IntToString(b)
  {
    if a >= 0 && b >= 0 {
      NatToStringInjective(a, b);
    } else if a < 0 && b < 0 {
      NegativeText(a);
      NegativeText(b);
      NatToStringInjective(-a, -b);
    } else if a < 0 {
      NatToStringDigitFirst(b);
      NegativeText(a);
    } else {
      NatToStringDigitFirst(a);
      NegativeText(b);
    }
  }

  lemma NatToStringInjective(a: nat, b: nat)
    requires a != b
    ensures NatToString(a) != NatToString(b)
  {
    NatToStringValue(a);
    NatToStringValue(b);
  }

  lemma NegativeText(a: int)
    requires a < 0
    ensures |IntToString(a)| > 0 && IntToString(a)[0] == '-' && IntToString(a)[1..] == NatToString(-a)
  {
  }

  lemma NatToStringDigitFirst(n: nat)
    ensures IntToString(n)[0] != '-'
  {
    assert IsDigit(NatToString(n)[0]);
  }

  // ---------------------------------------------------------------- get_credentials

  const InvalidSession := "Invalid session token"
  const MissingCredentials := "Missing required credentials in vault"

  function UserNotFound(userId: string): string {
    "User with ID " + userId + " not found"
  }

  /**
   * _get_user_data as written: the users select answers with the rows' "email"
   * fields (None where absent). The client's exception and the method's own 404
   * are both caught by its `except Exception` and re-raised as 500.
   */
  function UserDataAsWritten(userId: string, rows: Reply<seq<Option<string>>>): (r: Result<Option<string>, Failure>)
    ensures r.Err? ==> r.error.Http? && r.error.status == 500
    ensures !rows.Answered? ==> r == Err(RaisedThrough(rows))
    ensures rows.Answered? && rows.value != [] ==> r == Ok(rows.value[0])
    ensures rows == Answered([]) ==> r == Err(Rewrapped(404, UserNotFound(userId)))
  {
    match rows
    case Answered(emails) =>
      if emails == [] then Err(Rewrapped(404, UserNotFound(userId))) else Ok(emails[0])
    case _ => Err(RaisedThrough(rows))
  }

  /**
   * _get_user_data as documented: 404 for a missing user, and the client's
   * HTTPException passed on as it is.
   */
  function UserData(userId: string, rows: Reply<seq<Option<string>>>): (r: Result<Option<string>, Failure>)
    ensures rows == Answered([]) ==> r == Err(Http(404, UserNotFound(userId)))
    ensures !rows.Answered? ==> r == Err(Http(Status(rows), Detail(rows)))
    ensures rows.Answered? && rows.value != [] ==> r == Ok(rows.value[0])
  {
    match rows
    case Answered(emails) =>
      if emails == [] then Err(Http(404, UserNotFound(userId))) else Ok(emails[0])
    case _ => Err(Http(Status(rows), Detail(rows)))
  }

  /** The status texts the rewrapping puts in front of a detail. */
  lemma StatusTexts()
    ensures IntToString(400) == "400" && IntToString(404) == "404"
  {
    assert Digit(4) == '4' && Digit(0) == '0';
    assert NatToString(4) == "4";
    assert NatToString(40) == NatToString(4) + [Digit(0)] == "40";
    assert NatToString(400) == NatToString(40) + [Digit(0)] == "400";
    assert NatToString(404) == NatToString(40) + [Digit(4)] == "404";
  }

  /**
   * As written, a missing user is reported as a 500 whose detail starts with "404";
   * as documented, as a 404. A user that is found reads the same either way.
   */
  lemma MissingUserStatus(userId: string, rows: Reply<seq<Option<string>>>)
    ensures UserDataAsWritten(userId, Answered([])) == Err(Http(500, "404: " + UserNotFound(userId)))
    ensures UserData(userId, Answered([])) == Err(Http(404, UserNotFound(userId)))
    ensures rows.Answered? && rows.value != [] ==> UserDataAsWritten(userId, rows) == UserData(userId, rows)
  {
    StatusTexts();
    assert IntToString(404) + ": " == "404: ";
  }

  datatype Credentials = Credentials(email: string, wgPassword: string, openaiKey: Option<string>)

  /**
   * get_credentials over a lookup of the user's row: the session's user (401), the
   * lookup's error, both secrets from the vault, then 500 unless the WG-Gesucht
   * password is there and not empty; the OpenAI key may be missing. A row without
   * an email is a KeyError, reported as 500 "'email'". The code looks the user up
   * with _get_user_data as written, `u => UserDataAsWritten(u, rows)`, whose
   * HTTPException passes the `except HTTPException: raise` unchanged
   * (CredentialsLookupAsWritten); the documented lookup is UserData.
   */
  function GetCredentials(sessionUser: Option<string>, userData: string -> Result<Option<string>, Failure>,
                          files: map<string, Sealed>, masterKey: nat)
    : (r: Result<Credentials, Failure>)
    ensures sessionUser.None? ==> r == Err(Http(401, InvalidSession))
    ensures sessionUser.Some? && userData(sessionUser.value).Err? ==> r == Err(userData(sessionUser.value).error)
    ensures sessionUser.Some? && userData(sessionUser.value).Ok? && SecretOf(files, masterKey, "wg_password") in {None, Some("")} ==>
      r == Err(Http(500, MissingCredentials))
    ensures r.Ok? ==>
      sessionUser.Some? && userData(sessionUser.value) == Ok(Some(r.value.email))
      && r.value.wgPassword != "" && SecretOf(files, masterKey, "wg_password") == Some(r.value.wgPassword)
      && r.value.openaiKey == SecretOf(files, masterKey, "openai_key")
  {
    if sessionUser.None? then Err(Http(401, InvalidSession))
    else
      match userData(sessionUser.value)
      case Err(e) => Err(e)
      case Ok(email) =>
        var wgPassword := SecretOf(files, masterKey, "wg_password");
        var openaiKey := SecretOf(files, masterKey, "openai_key");
        if wgPassword.None? || wgPassword.value == "" then Err(Http(500, MissingCredentials))
        else if email.None? then Err(Http(500, "'email'"))
        else Ok(Credentials(email.value, wgPassword.value, openaiKey))
  }

  /**
   * get_credentials as written: a user with no row reaches the caller as 500
   * "404: …", and a users select the database refuses as 500 "400: …", where the
   * documented lookup gives 404 and 400 with the plain detail.
   */
  lemma CredentialsLookupAsWritten(userId: string, rows: Reply<seq<Option<string>>>, files: map<string, Sealed>, masterKey: nat)
    ensures GetCredentials(Some(userId), u => UserDataAsWritten(u, Answered([])), files, masterKey)
      == Err(Http(500, "404: " + UserNotFound(userId)))
    ensures GetCredentials(Some(userId), u => UserData(u, Answered([])), files, masterKey)
      == Err(Http(404, UserNotFound(userId)))
    ensures rows.Refused? ==>
      GetCredentials(Some(userId), u => UserDataAsWritten(u, rows), files, masterKey) == Err(Http(500, "400: " + rows.error))
    ensures rows.Refused? ==>
      GetCredentials(Some(userId), u => UserData(u, rows), files, masterKey) == Err(Http(400, rows.error))
  {
    StatusTexts();
    MissingUserStatus(userId, rows);
    var missing: string -> Result<Option<string>, Failure> := u => UserDataAsWritten(u, Answered([]));
    assert missing(userId) == Err(Http(500, "404: " + UserNotFound(userId)));
    if rows.Refused? {
      var refused: string -> Result<Option<string>, Failure> := u => UserDataAsWritten(u, rows);
      assert refused(userId) == Err(Rewrapped(400, rows.error));
      assert Rewrapped(400, rows.error) == Http(500, "400: " + rows.error);
    }
  }

  /**
   * With a valid session and a known user, the credentials are the secrets stored
   * in the vault: the password must be there, the OpenAI key may not be.
   */
  lemma CredentialsFromVault(userId: string, email: string, files: map<string, Sealed>, masterKey: nat,
                             password: string, openaiKey: Option<string>)
    requires password != ""
    ensures var vault := Stored(files, masterKey, "wg_password", Text(password));
      var withKey := if openaiKey.Some? then Stored(vault, masterKey, "openai_key", Text(openaiKey.value)) else vault - {"openai_key"};
      GetCredentials(Some(userId), u => UserDataAsWritten(u, Answered([Some(email)])), withKey, masterKey)
        == Ok(Credentials(email, password, openaiKey))
  {
    var vault := Stored(files, masterKey, "wg_password", Text(password));
    var withKey := if openaiKey.Some? then Stored(vault, masterKey, "openai_key", Text(openaiKey.value)) else vault - {"openai_key"};
    assert "wg_password" != "openai_key";
    assert SecretOf(withKey, masterKey, "wg_password") == Some(password);
    assert SecretOf(withKey, masterKey, "openai_key") == openaiKey;
  }

  // ---------------------------------------------------------------- authenticate_wg_gesucht

  const MissingEmailOrPassword := "Missing email or password"
  const InvalidWgCredentials := "Invalid WG-Gesucht credentials"
  const Authenticated := "Successfully authenticated with WG-Gesucht"

  datatype AuthResponse = AuthResponse(message: string, userId: string, sessionToken: string)

  /** A credential that is present and not empty. */
  predicate Given(s: Option<string>) {
    s.Some? && s.value != ""
  }

  /** The service's state: the browser registry and every user's vault (master key and secret files). */
  class Service {
    const browsers: BrowserManager.Manager
    var masterKeys: map<string, nat>
    var vaults: map<string, map<string, Sealed>>

    ghost predicate Valid()
      reads this, browsers
    {
      browsers.Valid() && vaults.Keys <= masterKeys.Keys
    }

    constructor (browsers: BrowserManager.Manager)
      requires browsers.Valid()
      ensures Valid() && this.browsers == browsers && masterKeys == map[] && vaults == map[]
    {
      this.browsers := browsers;
      masterKeys := map[];
      vaults := map[];
    }

    /** The vault step of authenticate_wg_gesucht: the user keeps (or gets) a master key and the password is stored under it. */
    method StorePassword(userId: string, password: string, freshKey: nat)
      requires Valid()
      modifies this
      ensures Valid() && userId in vaults && userId in masterKeys
      ensures masterKeys == old(masterKeys)[userId := if userId in old(masterKeys) then old(masterKeys)[userId] else freshKey]
      ensures vaults == old(vaults)[userId := Stored(if userId in old(vaults) then old(vaults)[userId] else map[],
                                                     masterKeys[userId], "wg_password", Text(password))]
      ensures SecretOf(vaults[userId], masterKeys[userId], "wg_password") == Some(password)
    {
      var key := if userId in masterKeys then masterKeys[userId] else freshKey;
      var files := if userId in vaults then vaults[userId] else map[];
      masterKeys := masterKeys[userId := key];
      vaults := vaults[userId := Stored(files, key, "wg_password", Text(password))];
    }

    /**
     * authenticate_wg_gesucht: 400 without an email or password; otherwise the
     * user's browser (a WebDriverException if it cannot be launched) logs in (401
     * if it fails), the user is found or created, the password goes into the
     * user's vault and the session is inserted. The session insert comes after the
     * vault write, so a failed insert leaves the password stored; its exception is
     * rewrapped by _create_session and passes the `except ValueError` untouched.
     * Whatever happens, the `finally` closes the browser registered for the email.
     */
    method AuthenticateWgGesucht(email: Option<string>, password: Option<string>, now: int, launchSucceeds: bool,
                                 loginSucceeds: bool, byEmail: Reply<seq<int>>, allIds: Reply<seq<int>>, insert: Reply<()>,
                                 freshKey: nat, token: string, session: Reply<()>)
      returns (r: Result<AuthResponse, Failure>)
      requires Valid()
      modifies this, browsers
      ensures Valid()
      ensures email.Some? ==> browsers.active == old(browsers.active) - {email.value}
      ensures email.None? ==> browsers.active == old(browsers.active)
      ensures !Given(email) || !Given(password) ==>
        r == Err(Http(400, MissingEmailOrPassword)) && vaults == old(vaults) && masterKeys == old(masterKeys)
      ensures Given(email) && Given(password) && email.value !in old(browsers.active) && !launchSucceeds ==>
        r == Err(Uncaught("WebDriverException")) && vaults == old(vaults) && masterKeys == old(masterKeys)
      ensures Given(email) && Given(password) && (email.value in old(browsers.active) || launchSucceeds) && !loginSucceeds ==>
        r == Err(Http(401, InvalidWgCredentials)) && vaults == old(vaults) && masterKeys == old(masterKeys)
      ensures Given(email) && Given(password) && (email.value in old(browsers.active) || launchSucceeds) && loginSucceeds
              && GetOrCreateUser(byEmail, allIds, insert).Err? ==>
        r == Err(GetOrCreateUser(byEmail, allIds, insert).error) && vaults == old(vaults) && masterKeys == old(masterKeys)
      ensures Given(email) && Given(password) && (email.value in old(browsers.active) || launchSucceeds) && loginSucceeds
              && GetOrCreateUser(byEmail, allIds, insert).Ok? ==>
        var userId := GetOrCreateUser(byEmail, allIds, insert).value.0;
        masterKeys == old(masterKeys)[userId := if userId in old(masterKeys) then old(masterKeys)[userId] else freshKey]
        && vaults == old(vaults)[userId := Stored(if userId in old(vaults) then old(vaults)[userId] else map[],
                                                  masterKeys[userId], "wg_password", Text(password.value))]
        && r == (if session.Answered? then Ok(AuthResponse(Authenticated, userId, token)) else Err(RaisedThrough(session)))
      ensures r.Ok? ==>
        r.value.userId in vaults && SecretOf(vaults[r.value.userId], masterKeys[r.value.userId], "wg_password") == password
    {
      if !Given(email) || !Given(password) {
        r := Err(Http(400, MissingEmailOrPassword));
      } else {
        var browser := browsers.GetBrowserForUser(email.value, now, launchSucceeds);
        if browser.Err? {
          r := Err(Uncaught("WebDriverException"));
        } else if !loginSucceeds {
          r := Err(Http(401, InvalidWgCredentials));
        } else {
          var user := GetOrCreateUser(byEmail, allIds, insert);
          if user.Err? {
            r := Err(user.error);
          } else {
            var userId := user.value.0;
            StorePassword(userId, password.value, freshKey);
            if !session.Answered? {
              r := Err(RaisedThrough(session));
            } else {
              r := Ok(AuthResponse(Authenticated, userId, token));
            }
          }
        }
      }
      if email.Some? {
        browsers.CloseUserBrowser(email.value);
      }
    }
  }
}
