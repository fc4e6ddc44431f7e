/**
 The key hierarchy: a secret key wrapped under the master password, the keys derived from it, and
 the changes of password that re-wrap it.

 Cryptography is ideal and symbolic: keys are terms, derivation is a constructor, and a sealed box
 opens only under its own key, nonce and associated data.
 */
module KeyHierarchy {
  import opened Prelude

  datatype Argon2Params = Argon2Params(memory: nat, time: nat, parallelism: nat)

  datatype Key =
    | SecretKey(seed: nat)
    | WrappingKey(password: string, salt: nat, params: Argon2Params)
    | Kek(sk: Key)
    | Dek(kek: Key, version: nat)

  datatype Plaintext = KeyBytes(key: Key) | Text(text: string)

  datatype Box = Sealed(key: Key, nonce: nat, aad: string, body: Plaintext) | Forged(tag: nat)

  function Unseal(box: Box, nonce: nat, aad: string, key: Key): Option<Plaintext> {
    if box.Sealed? && box.key == key && box.nonce == nonce && box.aad == aad then Some(box.body) else None
  }

  // ---------------------------------------------------------------------------
  // The keystore file
  // ---------------------------------------------------------------------------

  const TWO32: nat := 0x1_0000_0000
  const ALGORITHM := "xchacha20-poly1305"

  /** A parsed keystore; a field is `None` if it is missing or not decodable to its fixed size. */
  datatype Document = Document(
    version: Option<nat>, algorithm: Option<string>,
    salt: Option<nat>, timeCost: Option<nat>, memoryCost: Option<nat>, parallelism: Option<nat>,
    wrapped: Option<Box>, nonce: Option<nat>, language: Option<string>)

  datatype FileContent = Json(doc: Document) | Torn

  datatype Language = English | ChineseSimplified

  datatype UnlockError =
    | NoFile | NotJson | UnsupportedVersion | UnsupportedAlgorithm | BadKdf | BadWrappedKey | WrongKey

  datatype KeyStore = KeyStore(sk: Key, language: Language)

  function LanguageOf(value: Option<string>): Language {
    if value == Some("zh-CN") then ChineseSimplified else English
  }

  function LanguageValue(language: Language): string {
    match language
    case English => "en"
    case ChineseSimplified => "zh-CN"
  }

  /** What unlocking and changing the password both read: the unwrapped key and the parameters. */
  datatype Unwrapped = Unwrapped(sk: Key, params: Argon2Params, language: Option<string>)

  /** The costs are stored as 64-bit numbers and cast to 32 bits. */
  function ParamsOf(doc: Document): Option<Argon2Params> {
    if doc.timeCost.None? || doc.memoryCost.None? || doc.parallelism.None? then None
    else Some(Argon2Params(doc.memoryCost.value % TWO32, doc.timeCost.value % TWO32, doc.parallelism.value % TWO32))
  }

  function Unwrap(file: Option<FileContent>, password: string, accepts: Argon2Params -> bool)
    : Result<Unwrapped, UnlockError>
  {
    if file.None? then Err(NoFile)
    else if file.value.Torn? then Err(NotJson)
    else
      var doc := file.value.doc;
      if doc.version != Some(1) then Err(UnsupportedVersion)
      else if doc.algorithm != Some(ALGORITHM) then Err(UnsupportedAlgorithm)
      else if doc.salt.None? || ParamsOf(doc).None? || !accepts(ParamsOf(doc).value) then Err(BadKdf)
      else if doc.wrapped.None? || doc.nonce.None? then Err(BadWrappedKey)
      else
        var params := ParamsOf(doc).value;
        match Unseal(doc.wrapped.value, doc.nonce.value, "", WrappingKey(password, doc.salt.value, params))
        case Some(KeyBytes(sk)) => Ok(Unwrapped(sk, params, doc.language))
        case _ => Err(WrongKey)
  }

  function Unlock(file: Option<FileContent>, password: string, accepts: Argon2Params -> bool)
    : Result<KeyStore, UnlockError>
  {
    match Unwrap(file, password, accepts)
    case Err(e) => Err(e)
    case Ok(u) => Ok(KeyStore(u.sk, LanguageOf(u.language)))
  }

  /** What it takes to unlock a keystore file, whoever wrote it. */
  lemma UnlockIff(file: Option<FileContent>, password: string, accepts: Argon2Params -> bool, ks: KeyStore)
    ensures Unlock(file, password, accepts) == Ok(ks) <==>
            && file.Some? && file.value.Json?
            && var doc := file.value.doc;
            && doc.version == Some(1) && doc.algorithm == Some("xchacha20-poly1305")
            && doc.salt.Some? && doc.nonce.Some?
            && doc.memoryCost.Some? && doc.timeCost.Some? && doc.parallelism.Some?
            && var params := Argon2Params(doc.memoryCost.value % 0x1_0000_0000, doc.timeCost.value % 0x1_0000_0000,
                                          doc.parallelism.value % 0x1_0000_0000);
            && accepts(params)
            && doc.wrapped
                == Some(Sealed(WrappingKey(password, doc.salt.value, params), doc.nonce.value, "", KeyBytes(ks.sk)))
            && (ks.language == ChineseSimplified <==> doc.language == Some("zh-CN"))
  {
  }

  function NewDocument(sk: Key, password: string, salt: nat, nonce: nat, params: Argon2Params,
                       language: string): Document
  {
    Document(Some(1), Some(ALGORITHM), Some(salt), Some(params.time), Some(params.memory), Some(params.parallelism),
             Some(Sealed(WrappingKey(password, salt, params), nonce, "", KeyBytes(sk))), Some(nonce), Some(language))
  }

  predicate FitsU32(params: Argon2Params) {
    params.time < TWO32 && params.memory < TWO32 && params.parallelism < TWO32
  }

  /** The file wraps this secret key under this password, with these parameters and language. */
  ghost predicate Wraps(file: Option<FileContent>, password: string, sk: Key, params: Argon2Params,
                        language: Language)
  {
    exists salt, nonce, value ::
      file == Some(Json(NewDocument(sk, password, salt, nonce, params, value))) && LanguageOf(Some(value)) == language
  }

  /** Such a file unlocks under its password and no other, to its key and language. */
  lemma WrappedUnlocksIff(file: Option<FileContent>, password: string, sk: Key, params: Argon2Params,
                          language: Language,
                          accepts: Argon2Params -> bool, attempt: string)
    requires Wraps(file, password, sk, params, language) && FitsU32(params) && accepts(params)
    ensures Unlock(file, attempt, accepts) == if attempt == password then Ok(KeyStore(sk, language)) else Err(WrongKey)
    ensures attempt == password ==> Unwrap(file, attempt, accepts).value.params == params
  {
    var salt, nonce, value :|
      file == Some(Json(NewDocument(sk, password, salt, nonce, params, value))) && LanguageOf(Some(value)) == language;
    assert ParamsOf(file.value.doc) == Some(params);
  }

  datatype InitError = DeriveFailed | WriteFailed | InitPermissionsFailed

  datatype ChangeError =
    | CannotUnwrap(cause: UnlockError) | CannotDerive | CannotWriteTemp | CannotRename | PermissionsFailed

  /** Whether the keystore file was replaced: also when only the permission step after it failed. */
  predicate Replaced(result: Result<(), ChangeError>) {
    result.Ok? || result.error.PermissionsFailed?
  }

  datatype Change = Change(oldPassword: string, newPassword: string, result: Result<(), ChangeError>)

  /** What one password change does to the file. */
  ghost predicate ChangeStep(before: Option<FileContent>, c: Change, after: Option<FileContent>,
                             accepts: Argon2Params -> bool)
  {
    var unwrapped := Unwrap(before, c.oldPassword, accepts);
    && (unwrapped.Err? <==> c.result.Err? && c.result.error.CannotUnwrap?)
    && (unwrapped.Err? ==> c.result.error.cause == unwrapped.error)
    && if Replaced(c.result)
       then WrittenFor(after, unwrapped.value.sk, c.newPassword, unwrapped.value.params,
         LanguageKept(unwrapped.value.language))
       else after == before
  }

  ghost predicate WrittenFor(file: Option<FileContent>, sk: Key, password: string, params: Argon2Params,
                             value: string)
  {
    exists salt, nonce :: file == Some(Json(NewDocument(sk, password, salt, nonce, params, value)))
  }

  /** The language is carried over as the string it was stored as. */
  function LanguageKept(stored: Option<string>): string {
    if stored.Some? then stored.value else "en"
  }

  class KeystoreDir {
    const accepts: Argon2Params -> bool
    var file: Option<FileContent>
    var temp: Option<FileContent>
    /** Every content the keystore file has had, latest last. */
    ghost var history: seq<Option<FileContent>>

    constructor (accepts: Argon2Params -> bool)
      ensures this.accepts == accepts && file == None && temp == None && history == [None]
    {
      this.accepts, file, temp, history := accepts, None, None, [None];
    }

    ghost predicate Logged()
      reads this
    {
      history != [] && history[|history| - 1] == file
    }

    /** `KeyStore::initialize` writes the file in place, so a crash or a failed write can leave it torn. */
    method Initialize(sk: Key, password: string, params: Argon2Params, language: Language)
      returns (result: Result<KeyStore, InitError>)
      requires Logged()
      modifies this
      ensures Logged()
      ensures result.Ok? ==> result.value == KeyStore(sk, language)
      ensures result.Ok? || result.error.InitPermissionsFailed? ==>
        Wraps(file, password, sk, params, language) && accepts(params)
      ensures result.Ok? || result.error.InitPermissionsFailed? ==> history == old(history) + [Some(Torn), file]
      ensures !accepts(params) ==> result == Err(DeriveFailed)
      ensures result.Err? && result.error.DeriveFailed? ==> file == old(file) && history == old(history)
      ensures result.Err? && result.error.WriteFailed? ==>
        || (file == old(file) && history == old(history))
        || (file == Some(Torn) && history == old(history) + [file])
      ensures temp == old(temp)
    {
      var salt: nat, nonce: nat := *, *;
      var derives: bool := *;
      if !accepts(params) || !derives {
        return Err(DeriveFailed);
      }
      var opens: bool, completes: bool, secured: bool := *, *, *;
      if !opens {
        return Err(WriteFailed);
      }
      file := Some(Torn);
      history := history + [file];
      if !completes {
        return Err(WriteFailed);
      }
      var doc := NewDocument(sk, password, salt, nonce, params, LanguageValue(language));
      file := Some(Json(doc));
      history := history + [file];
      assert file == Some(Json(NewDocument(sk, password, salt, nonce, params, LanguageValue(language))));
      if !secured {
        return Err(InitPermissionsFailed);
      }
      result := Ok(KeyStore(sk, language));
    }

    /**
     `KeyStore::change_cmk`: re-wrap into a temp file, then rename it over the keystore. At every
     moment the keystore file is wholly the old one or wholly the new one, and it goes from old to
     new at most once.
     */
    method ChangeCmk(oldPassword: string, newPassword: string) returns (result: Result<(), ChangeError>)
      requires Logged()
      modifies this
      ensures Logged()
      ensures ChangeStep(old(file), Change(oldPassword, newPassword, result), file, accepts)
      ensures history == old(history) + (if Replaced(result) then [file] else [])
      ensures Replaced(result) ==> temp == None
      ensures result.Err? && (result.error.CannotUnwrap? || result.error.CannotDerive?) ==> temp == old(temp)
      ensures result == Err(CannotWriteTemp) ==> temp == old(temp) || temp == Some(Torn)
      ensures result == Err(CannotRename) ==>
        var was := Unwrap(old(file), oldPassword, accepts).value;
        WrittenFor(temp, was.sk, newPassword, was.params, LanguageKept(was.language))
    {
      var unwrapped := Unwrap(file, oldPassword, accepts);
      if unwrapped.Err? {
        return Err(CannotUnwrap(unwrapped.error));
      }
      var sk, params := unwrapped.value.sk, unwrapped.value.params;
      var salt: nat, nonce: nat := *, *;
      var derives: bool := *;
      if !derives {
        return Err(CannotDerive);
      }
      var language := LanguageKept(unwrapped.value.language);
      var doc := NewDocument(sk, newPassword, salt, nonce, params, language);
      var creates: bool, written: bool, renames: bool, secured: bool := *, *, *, *;
      if !creates {
        return Err(CannotWriteTemp);
      }
      temp := Some(Torn);
      if !written {
        return Err(CannotWriteTemp);
      }
      temp := Some(Json(doc));
      if !renames {
        return Err(CannotRename);
      }
      file, temp := temp, None;
      history := history + [file];
      if !secured {
        return Err(PermissionsFailed);
      }
      result := Ok(());
    }
  }

  // ---------------------------------------------------------------------------
  // Histories of password changes
  // ---------------------------------------------------------------------------

  /** The password in force after some changes: the last one whose new file reached its place. */
  function CurrentPassword(initial: string, changes: seq<Change>): string {
    if changes == [] then initial
    else
      var n := |changes| - 1;
      if Replaced(changes[n].result) then changes[n].newPassword else CurrentPassword(initial, changes[..n])
  }

  /** The keystore file before, between and after the changes. */
  ghost predicate History(files: seq<Option<FileContent>>, changes: seq<Change>, accepts: Argon2Params -> bool) {
    && |files| == |changes| + 1
    && forall k :: 0 <= k < |changes| ==> ChangeStep(files[k], changes[k], files[k + 1], accepts)
  }

  /**
   After any sequence of successful and failed changes, the file wraps the original secret key with
   the original parameters and language, under the current password.
   */
  lemma {:induction false} ChangesKeepSecretKey(files: seq<Option<FileContent>>, changes: seq<Change>, initial: string,
                                                sk: Key, params: Argon2Params, language: Language,
                                                accepts: Argon2Params -> bool)
    requires History(files, changes, accepts) && FitsU32(params) && accepts(params)
    requires Wraps(files[0], initial, sk, params, language)
    ensures Wraps(files[|changes|], CurrentPassword(initial, changes), sk, params, language)
  {
    if changes != [] {
      var n := |changes| - 1;
      ChangesKeepSecretKey(files[..|changes|], changes[..n], initial, sk, params, language, accepts);
      var password := CurrentPassword(initial, changes[..n]);
      var c, before, after := changes[n], files[n], files[n + 1];
      assert ChangeStep(before, c, after, accepts);
      WrappedUnlocksIff(before, password, sk, params, language, accepts, c.oldPassword);
      if Replaced(c.result) {
        var unwrapped := Unwrap(before, c.oldPassword, accepts);
        assert unwrapped.Ok?;
        var value := LanguageKept(unwrapped.value.language);
        var salt, nonce :| after
          == Some(Json(NewDocument(unwrapped.value.sk, c.newPassword, salt, nonce, unwrapped.value.params, value)));
        assert LanguageOf(Some(value)) == language;
        assert after == Some(Json(NewDocument(sk, c.newPassword, salt, nonce, params, value)));
      }
    }
  }

  /** So the current password, and only it, unlocks the original key and language. */
  lemma CurrentPasswordUnlocksIff(files: seq<Option<FileContent>>, changes: seq<Change>, initial: string,
                                  sk: Key, params: Argon2Params, language: Language,
                                  accepts: Argon2Params -> bool, attempt: string)
    requires History(files, changes, accepts) && FitsU32(params) && accepts(params)
    requires Wraps(files[0], initial, sk, params, language)
    ensures Unlock(files[|changes|], attempt, accepts)
         == if attempt == CurrentPassword(initial, changes) then Ok(KeyStore(sk, language)) else Err(WrongKey)
  {
    ChangesKeepSecretKey(files, changes, initial, sk, params, language, accepts);
    WrappedUnlocksIff(files[|changes|], CurrentPassword(initial, changes), sk, params, language, accepts, attempt);
  }

  /**
   A reported failure does not always mean the old password stays: the new one is in force after a
   failed change exactly when the failure was the permission step that follows the rename.
   */
  lemma FailedChangeTookEffectIff(before: Option<FileContent>, c: Change, after: Option<FileContent>, sk: Key,
                                  params: Argon2Params, language: Language, accepts: Argon2Params -> bool)
    requires ChangeStep(before, c, after, accepts) && FitsU32(params) && accepts(params)
    requires Wraps(before, c.oldPassword, sk, params, language)
    requires c.result.Err? && c.oldPassword != c.newPassword
    ensures Unlock(after, c.newPassword, accepts).Ok? <==> c.result.error.PermissionsFailed?
    ensures Unlock(after, c.oldPassword, accepts).Ok? <==> !c.result.error.PermissionsFailed?
  {
    var files, changes := [before, after], [c];
    assert changes[..0] == [];
    CurrentPasswordUnlocksIff(files, changes, c.oldPassword, sk, params, language, accepts, c.newPassword);
    CurrentPasswordUnlocksIff(files, changes, c.oldPassword, sk, params, language, accepts, c.oldPassword);
  }

  // ---------------------------------------------------------------------------
  // Records
  // ---------------------------------------------------------------------------

  datatype CryptoError = NotUnlocked | UnlockFailed(cause: UnlockError) | DecryptionFailed

  function DekOf(keystore: KeyStore, version: nat): Key {
    Dek(Kek(keystore.sk), version)
  }

  function DecryptWith(keystore: Option<KeyStore>, box: Box, nonce: nat, aad: string, dekVersion: nat)
    : Result<string, CryptoError>
  {
    if keystore.None? then Err(NotUnlocked)
    else match Unseal(box, nonce, aad, DekOf(keystore.value, dekVersion))
      case Some(Text(text)) => Ok(text)
      case _ => Err(DecryptionFailed)
  }

  /** The two fields of the crypto manager. */
  datatype Manager = Manager(keystore: Option<KeyStore>, dekVersion: nat)

  /** A stored record, and the secret key that was in use when it was sealed. */
  datatype SealedRecord = SealedRecord(box: Box, nonce: nat, aad: string, version: nat, text: string, writer: Key)

  datatype SessionEvent =
    | ChangePassword(change: Change, after: Option<FileContent>)
    | Enter(password: string)
    | Recover(key: Key)                       // the key given by the recovery words
    | Leave                                   // lock
    | Store(text: string, nonce: nat, aad: string)

  /** What each event does to the crypto manager. */
  function ManagerStep(m: Manager, e: SessionEvent, file: Option<FileContent>, accepts: Argon2Params -> bool): Manager {
    match e
    case Enter(password) =>
      (match Unlock(file, password, accepts)
       case Ok(ks) => Manager(Some(ks), 1)
       case Err(_) => m)
    case Recover(key) => Manager(Some(KeyStore(key, English)), 1)
    case Leave => m.(keystore := None)
    case ChangePassword(_, _) => m
    case Store(_, _, _) => m
  }

  /** The record made by sealing a text with the manager's current key. */
  function SealedBy(m: Manager, text: string, nonce: nat, aad: string): Option<SealedRecord> {
    if m.keystore.None? then None
    else
      var ks := m.keystore.value;
      Some(SealedRecord(Sealed(DekOf(ks, m.dekVersion), nonce, aad, Text(text)), nonce, aad, m.dekVersion, text, ks.sk))
  }

  class CryptoManager {
    var keystore: Option<KeyStore>
    var currentDekVersion: nat

    constructor ()
      ensures keystore == None && currentDekVersion == 1
    {
      keystore, currentDekVersion := None, 1;
    }

    ghost function View(): Manager
      reads this
    {
      Manager(keystore, currentDekVersion)
    }

    method UnlockWithPassword(dir: KeystoreDir, password: string) returns (result: Result<(), CryptoError>)
      modifies this
      ensures View() == ManagerStep(old(View()), Enter(password), dir.file, dir.accepts)
      ensures Unlock(dir.file, password, dir.accepts).Ok? ==>
                keystore == Some(Unlock(dir.file, password, dir.accepts).value) && currentDekVersion == 1
      ensures Unlock(dir.file, password, dir.accepts).Err? ==> View() == old(View())
      ensures result == match Unlock(dir.file, password, dir.accepts)
                        case Ok(_) => Ok(())
                        case Err(e) => Err(UnlockFailed(e))
    {
      var unlocked := Unlock(dir.file, password, dir.accepts);
      if unlocked.Err? {
        return Err(UnlockFailed(unlocked.error));
      }
      currentDekVersion := 1;
      keystore := Some(unlocked.value);
      result := Ok(());
    }

    /** The recovery words give the secret key directly; the language is always taken as English. */
    method UnlockWithMnemonic(sk: Key)
      modifies this
      ensures keystore == Some(KeyStore(sk, English)) && currentDekVersion == 1
      ensures forall file, accepts :: View() == ManagerStep(old(View()), Recover(sk), file, accepts)
    {
      keystore := Some(KeyStore(sk, English));
      currentDekVersion := 1;
    }

    method Lock()
      modifies this`keystore
      ensures keystore == None
      ensures forall file, accepts :: View() == ManagerStep(old(View()), Leave, file, accepts)
      ensures forall box, nonce, aad, version :: DecryptWith(keystore, box, nonce, aad, version) == Err(NotUnlocked)
    {
      keystore := None;
    }

    method Encrypt(plaintext: string, aad: string) returns (result: Result<(Box, nat), CryptoError>)
      ensures result.Ok? <==> keystore.Some?
      ensures result.Err? ==> result.error == NotUnlocked
      ensures result.Ok? ==>
                var record := SealedBy(View(), plaintext, result.value.1, aad);
                record.Some? && record.value.box == result.value.0
      ensures result.Ok? ==>
                forall opener, version ::
                  DecryptWith(Some(opener), result.value.0, result.value.1, aad, version) == Ok(plaintext) <==>
                  opener.sk == keystore.value.sk && version == currentDekVersion
    {
      if keystore.None? {
        return Err(NotUnlocked);
      }
      var nonce: nat := *;
      result := Ok((Sealed(DekOf(keystore.value, currentDekVersion), nonce, aad, Text(plaintext)), nonce));
    }

    method Decrypt(box: Box, nonce: nat, aad: string, dekVersion: nat) returns (result: Result<string, CryptoError>)
      ensures result == DecryptWith(keystore, box, nonce, aad, dekVersion)
    {
      if keystore.None? {
        return Err(NotUnlocked);
      }
      var body := Unseal(box, nonce, aad, DekOf(keystore.value, dekVersion));
      if body.Some? && body.value.Text? {
        return Ok(body.value.text);
      }
      result := Err(DecryptionFailed);
    }
  }

  /**
   A record sealed after the i-th change, by whoever unlocked with the password then in force, opens
   after the j-th change, with the password in force at that time and the record's own key version,
   for any i and j; with a different version or associated data it does not.
   */
  lemma EarlierRecordsStayReadable(files: seq<Option<FileContent>>, changes: seq<Change>, initial: string,
                                   sk: Key, params: Argon2Params, language: Language, accepts: Argon2Params -> bool,
                                   i: nat, j: nat, plaintext: string, nonce: nat, aad: string, version: nat)
    requires History(files, changes, accepts) && FitsU32(params) && accepts(params)
    requires Wraps(files[0], initial, sk, params, language)
    requires i <= |changes| && j <= |changes|
    ensures var writer := Unlock(files[i], CurrentPassword(initial, changes[..i]), accepts);
            var reader := Unlock(files[j], CurrentPassword(initial, changes[..j]), accepts);
            && writer.Ok? && reader.Ok?
            && var box := Sealed(DekOf(writer.value, version), nonce, aad, Text(plaintext));
            forall v, a :: DecryptWith(Some(reader.value), box, nonce, a, v) == Ok(plaintext) <==>
              v == version && a == aad
  {
    assert files[..i + 1][i] == files[i] && files[..j + 1][j] == files[j];
    CurrentPasswordUnlocksIff(files[..i + 1], changes[..i], initial, sk, params, language, accepts,
                              CurrentPassword(initial, changes[..i]));
    CurrentPasswordUnlocksIff(files[..j + 1], changes[..j], initial, sk, params, language, accepts,
                              CurrentPassword(initial, changes[..j]));
  }

  // ---------------------------------------------------------------------------
  // Sessions
  // ---------------------------------------------------------------------------

  /** The keystore file, the password in force, the crypto manager and the records. */
  datatype Session = Session(file: Option<FileContent>, current: string, manager: Manager, records: seq<SealedRecord>)

  function Start(file: Option<FileContent>, password: string): Session {
    Session(file, password, Manager(None, 1), [])
  }

  function Next(s: Session, e: SessionEvent, accepts: Argon2Params -> bool): Session {
    var manager := ManagerStep(s.manager, e, s.file, accepts);
    match e
    case ChangePassword(c, after) =>
      Session(after, if Replaced(c.result) then c.newPassword else s.current, manager, s.records)
    case Store(text, nonce, aad) =>
      (match SealedBy(s.manager, text, nonce, aad)
       case Some(record) => s.(records := s.records + [record])
       case None => s)
    case _ => s.(manager := manager)
  }

  function Run(s: Session, run: seq<SessionEvent>, accepts: Argon2Params -> bool): Session {
    if run == [] then s else Next(Run(s, run[..|run| - 1], accepts), run[|run| - 1], accepts)
  }

  /** Every password change in the run does to the file what a change does. */
  ghost predicate Possible(s: Session, run: seq<SessionEvent>, accepts: Argon2Params -> bool) {
    forall k :: 0 <= k < |run| && run[k].ChangePassword? ==>
      ChangeStep(Run(s, run[..k], accepts).file, run[k].change, run[k].after, accepts)
  }

  predicate Recovers(run: seq<SessionEvent>, key: Key) {
    exists k :: 0 <= k < |run| && run[k] == Recover(key)
  }

  ghost predicate Consistent(s: Session, run: seq<SessionEvent>, sk: Key, params: Argon2Params, language: Language) {
    && Wraps(s.file, s.current, sk, params, language)
    && (s.manager.keystore.Some? ==> s.manager.keystore.value.sk == sk || Recovers(run, s.manager.keystore.value.sk))
    && forall k :: 0 <= k < |s.records| ==>
         var r := s.records[k];
         r.box == Sealed(Dek(Kek(r.writer), r.version), r.nonce, r.aad, Text(r.text))
           && (r.writer == sk || Recovers(run, r.writer))
  }

  lemma {:induction false} SessionsStayConsistent(file: Option<FileContent>, password: string, run: seq<SessionEvent>,
                                                  sk: Key, params: Argon2Params, language: Language,
                                                  accepts: Argon2Params -> bool)
    requires Possible(Start(file, password), run, accepts) && FitsU32(params) && accepts(params)
    requires Wraps(file, password, sk, params, language)
    ensures Consistent(Run(Start(file, password), run, accepts), run, sk, params, language)
  {
    if run != [] {
      var n := |run| - 1;
      var front := run[..n];
      assert forall k :: 0 <= k < n ==> front[..k] == run[..k] && front[k] == run[k];
      SessionsStayConsistent(file, password, front, sk, params, language, accepts);
      assert run[..n] == front && run == front + [run[n]];
      assert run[n].ChangePassword? ==>
        ChangeStep(Run(Start(file, password), run[..n], accepts).file, run[n].change, run[n].after, accepts);
      StepStaysConsistent(Run(Start(file, password), front, accepts), front, run[n], sk, params, language, accepts);
    }
  }

  lemma StepStaysConsistent(s: Session, front: seq<SessionEvent>, e: SessionEvent,
                            sk: Key, params: Argon2Params, language: Language, accepts: Argon2Params -> bool)
    requires Consistent(s, front, sk, params, language) && FitsU32(params) && accepts(params)
    requires e.ChangePassword? ==> ChangeStep(s.file, e.change, e.after, accepts)
    ensures Consistent(Next(s, e, accepts), front + [e], sk, params, language)
  {
    assert forall key :: Recovers(front, key) ==> Recovers(front + [e], key) by {
      assert forall k :: 0 <= k < |front| ==> (front + [e])[k] == front[k];
    }
    match e {
      case ChangePassword(c, after) =>
        assert [c][..0] == [];
        ChangesKeepSecretKey([s.file, after], [c], s.current, sk, params, language, accepts);
      case Enter(password) =>
        WrappedUnlocksIff(s.file, s.current, sk, params, language, accepts, password);
      case Recover(key) =>
        assert (front + [e])[|front|] == Recover(key);
      case Leave =>
      case Store(_, _, _) =>
    }
  }

  /**
   Over any interleaving of password changes, unlocks right and wrong, recoveries, locks and stored
   records: a record opens at any later time exactly if the manager is unlocked with the secret key
   that sealed it. That key is the original one or one given by some recovery words, and the
   password in force unlocks the original one.
   */
  lemma SessionsKeepRecordsReadable(file: Option<FileContent>, password: string, run: seq<SessionEvent>,
                                    sk: Key, params: Argon2Params, language: Language, accepts: Argon2Params -> bool)
    requires Possible(Start(file, password), run, accepts) && FitsU32(params) && accepts(params)
    requires Wraps(file, password, sk, params, language)
    ensures var s := Run(Start(file, password), run, accepts);
            && (forall attempt :: Unlock(s.file, attempt, accepts)
                                  == if attempt == s.current then Ok(KeyStore(sk, language)) else Err(WrongKey))
            && forall k :: 0 <= k < |s.records| ==>
                 var r := s.records[k];
                 var reading := DecryptWith(s.manager.keystore, r.box, r.nonce, r.aad, r.version);
                 && (r.writer == sk || Recovers(run, r.writer))
                 && (s.manager.keystore.None? ==> reading == Err(NotUnlocked))
                 && (reading == Ok(r.text) <==> s.manager.keystore.Some? && s.manager.keystore.value.sk == r.writer)
  {
    SessionsStayConsistent(file, password, run, sk, params, language, accepts);
    var s := Run(Start(file, password), run, accepts);
    forall attempt
      ensures Unlock(s.file, attempt, accepts)
           == if attempt == s.current then Ok(KeyStore(sk, language)) else Err(WrongKey)
    {
      WrappedUnlocksIff(s.file, s.current, sk, params, language, accepts, attempt);
    }
  }

  /** The keystore an event hands to the manager: a right password's or the recovered one. */
  function Granted(s: Session, e: SessionEvent, accepts: Argon2Params -> bool): Option<KeyStore> {
    match e
    case Enter(password) =>
      (match Unlock(s.file, password, accepts)
       case Ok(ks) => Some(ks)
       case Err(_) => None)
    case Recover(key) => Some(KeyStore(key, English))
    case _ => None
  }

  /** The k-th event handed over this keystore, and since then there was neither a lock nor another one. */
  predicate HandedOver(s: Session, run: seq<SessionEvent>, accepts: Argon2Params -> bool, ks: KeyStore, k: nat) {
    && k < |run| && Granted(Run(s, run[..k], accepts), run[k], accepts) == Some(ks)
    && forall j :: k < j < |run| ==> !run[j].Leave? && Granted(Run(s, run[..j], accepts), run[j], accepts) == None
  }

  /**
   After any run that starts locked, the manager holds a keystore exactly if some unlocking or
   recovery handed it over and nothing has locked or replaced it since; and it is at version one.
   */
  lemma {:induction false} HoldsIffHandedOver(s: Session, run: seq<SessionEvent>, accepts: Argon2Params -> bool,
                                              ks: KeyStore)
    requires s.manager == Manager(None, 1)
    ensures Run(s, run, accepts).manager.keystore == Some(ks) <==> exists k: nat :: HandedOver(s, run, accepts, ks, k)
    ensures Run(s, run, accepts).manager.dekVersion == 1
  {
    if run != [] {
      var n := |run| - 1;
      var front, e := run[..n], run[n];
      HoldsIffHandedOver(s, front, accepts, ks);
      StepHandsOver(Run(s, front, accepts), e, accepts);
      var granted := Granted(Run(s, front, accepts), e, accepts);
      HandedOverSnoc(s, run, accepts, ks);
      hide Granted, HandedOver, Next;
    }
  }

  lemma StepHandsOver(s: Session, e: SessionEvent, accepts: Argon2Params -> bool)
    ensures var t := Next(s, e, accepts);
            && t.manager.keystore == (if e.Leave? then None
                                      else if Granted(s, e, accepts).Some? then Granted(s, e, accepts)
                                      else s.manager.keystore)
            && (t.manager.dekVersion == 1 || t.manager.dekVersion == s.manager.dekVersion)
  {
  }

  lemma HandedOverSnoc(s: Session, run: seq<SessionEvent>, accepts: Argon2Params -> bool, ks: KeyStore)
    requires run != []
    ensures var n := |run| - 1;
            var granted := Granted(Run(s, run[..n], accepts), run[n], accepts);
            (exists k: nat :: HandedOver(s, run, accepts, ks, k)) <==>
            granted == Some(ks)
            || (granted == None && !run[n].Leave? && exists k: nat :: HandedOver(s, run[..n], accepts, ks, k))
  {
    hide Run, Granted;
    var n := |run| - 1;
    var front, granted := run[..n], Granted(Run(s, run[..n], accepts), run[n], accepts);
    forall k: nat | k < n
      ensures HandedOver(s, run, accepts, ks, k) <==>
              HandedOver(s, front, accepts, ks, k) && granted == None && !run[n].Leave?
    {
      assert forall j :: 0 <= j < n ==> front[..j] == run[..j] && front[j] == run[j];
    }
    if granted == Some(ks) { assert HandedOver(s, run, accepts, ks, n); }
    if k: nat :| HandedOver(s, run, accepts, ks, k) { assert k < n || k == n; }
  }

  /** With the right words, everything ever stored opens whenever the manager is unlocked. */
  lemma RightWordsOpenEverything(file: Option<FileContent>, password: string, run: seq<SessionEvent>,
                                 sk: Key, params: Argon2Params, language: Language, accepts: Argon2Params -> bool)
    requires Possible(Start(file, password), run, accepts) && FitsU32(params) && accepts(params)
    requires Wraps(file, password, sk, params, language)
    requires forall key :: Recovers(run, key) ==> key == sk
    ensures var s := Run(Start(file, password), run, accepts);
            s.manager.keystore.Some? ==> forall k :: 0 <= k < |s.records| ==>
              DecryptWith(s.manager.keystore, s.records[k].box, s.records[k].nonce, s.records[k].aad,
                s.records[k].version) == Ok(s.records[k].text)
  {
    SessionsStayConsistent(file, password, run, sk, params, language, accepts);
  }
}
