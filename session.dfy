/**
 * The session logic of `SecureFormProvider`: four state cells, the
 * `localStorage` entries `userIdentifier` and `<storageKey>.data`, the
 * auto-login attempt on mount, and `login`, `logout`, `setValues` and
 * `submit`.
 *
 * The WebAuthn ceremonies, the random IV, JSON and the outcome of each
 * `localStorage.setItem` come in as parameters. Every operation runs to
 * completion; the interleaving of concurrent asynchronous calls is not
 * modelled.
 */
module SecureForm {
  import opened Wrappers
  import opened Exceptions
  import opened Base64Url
  import opened Cipher

  /** `localStorage`, as string keys to string values. */
  type Store = map<string, string>

  /**
   * Whether `localStorage.setItem(key, value)` throws (a QuotaExceededError,
   * say): `None` when the write goes through.
   */
  type StorageFault = (string, string) -> Option<Thrown>

  /** The entry `submit` writes the registered credential's id to. */
  const UserIdentifierKey: string := "userIdentifier"

  /** The entry that holds the encrypted blob: `${storageKey}.data`. */
  function BlobKey(storageKey: string): string {
    storageKey + ".data"
  }

  /**
   * What a WebAuthn ceremony (`startRegistration` or `startAuthentication`)
   * gives the session: the credential's raw id, or the error it threw.
   */
  datatype Ceremony = Credential(rawId: seq<byte>) | CeremonyFailed(thrown: Thrown)

  /** `JSON.stringify` and `JSON.parse` at the value type of the form. */
  datatype Json<!T> = Json(stringify: T -> string, parse: string -> Result<T, Thrown>)

  /**
   * `JSON.parse` inverts `JSON.stringify` on `v`. JSON text never starts
   * with a byte-order mark (an object's starts with `{`).
   */
  ghost predicate JsonRoundTrip<T>(json: Json<T>, v: T) {
    json.parse(json.stringify(v)) == Ok(v) && NoLeadingBom(json.stringify(v))
  }

  /** How an asynchronous operation settles: resolved, or rejected with a thrown value. */
  datatype Outcome = Done | Threw(thrown: Thrown)

  /** What the provider renders: the fallback with its props, or the children with the values. */
  datatype View<T> = Fallback(error: Option<string>, isLoading: bool) | Children(values: T)

  /** `getItem(k)` is truthy: the entry exists and is not the empty string. */
  predicate Present(store: Store, k: string) {
    k in store && store[k] != ""
  }

  /** `e.message || 'Login failed'`. */
  function LoginMessage(e: Thrown): (m: string)
    ensures m != ""
    ensures e.ErrorObject? && e.message != "" ==> m == e.message
  {
    if e.ErrorObject? && e.message != "" then e.message else "Login failed"
  }

  /**
   * `e instanceof Error ? e.message : 'Failed to save'`: unlike `login`, an
   * `Error` with an empty message records the empty string.
   */
  function SubmitMessage(e: Thrown): (m: string)
    ensures e.ErrorObject? ==> m == e.message
    ensures e.NonError? ==> m == "Failed to save"
  {
    if e.ErrorObject? then e.message else "Failed to save"
  }

  const NotAuthenticated: Thrown := PlainError("Not authenticated")

  /** The store after `setItem(k, v)`, and how the call settles. */
  function Written(store: Store, k: string, v: string, fault: StorageFault): Store {
    if fault(k, v).None? then store[k := v] else store
  }

  function WriteOutcome(k: string, v: string, fault: StorageFault): Outcome {
    if fault(k, v).None? then Done else Threw(fault(k, v).value)
  }

  /**
   * `decryptFromStorage`: `null` when no blob is stored, else the parsed
   * plaintext, or what decryption or `JSON.parse` threw.
   */
  function DecryptFromStorage<T>(p: Primitives, json: Json<T>, store: Store, storageKey: string, key: Key)
    : (r: Result<Option<T>, Thrown>)
    ensures r == Ok(None) <==> !Present(store, BlobKey(storageKey))
    ensures r.Ok? && Present(store, BlobKey(storageKey)) ==>
              DecryptData(p, key, store[BlobKey(storageKey)]).Ok? &&
              json.parse(DecryptData(p, key, store[BlobKey(storageKey)]).value) == Ok(r.value.value)
  {
    if !Present(store, BlobKey(storageKey)) then Ok(None)
    else
      match DecryptData(p, key, store[BlobKey(storageKey)])
      case Err(e) => Err(e)
      case Ok(text) =>
        match json.parse(text)
        case Err(e) => Err(e)
        case Ok(v) => Ok(Some(v))
  }

  /** The auto-login effect goes past its guard only when both entries are present. */
  predicate AutoLoginAttempted(store: Store, storageKey: string) {
    Present(store, UserIdentifierKey) && Present(store, BlobKey(storageKey))
  }

  /** The key the authenticate-derive steps leave set: a credential always installs one. */
  function KeyAfterCeremony(p: Primitives, held: Option<Key>, assertion: Ceremony): Option<Key> {
    match assertion
    case Credential(rawId) => Some(DeriveKey(p, rawId))
    case CeremonyFailed(_) => held
  }

  /** What the authenticate-derive-decrypt steps of auto-login and `login` yield. */
  function UnlockResult<T>(p: Primitives, json: Json<T>, store: Store, storageKey: string, assertion: Ceremony)
    : Result<Option<T>, Thrown>
  {
    match assertion
    case CeremonyFailed(e) => Err(e)
    case Credential(rawId) => DecryptFromStorage(p, json, store, storageKey, DeriveKey(p, rawId))
  }

  /**
   * A blob written by `encryptAndStore` reads back, under the same key, as
   * the values it was made from.
   */
  lemma VaultRoundTrip<T>(p: Primitives, json: Json<T>, store: Store, storageKey: string,
                          key: Key, v: T, iv: seq<byte>)
    requires |iv| == IvLength && AeadCorrect(p) && TextRoundTrip(p) && JsonRoundTrip(json, v)
    ensures DecryptFromStorage(p, json, store[BlobKey(storageKey) := SealedBlob(p, key, json.stringify(v), iv)],
                               storageKey, key) == Ok(Some(v))
  {
    SealedBlobLength(p, key, json.stringify(v), iv);
    DecryptSealedBlob(p, key, json.stringify(v), iv);
  }

  /** Without a blob, a successful ceremony unlocks to `null` values. */
  lemma UnlockWithoutBlob<T>(p: Primitives, json: Json<T>, store: Store, storageKey: string, rawId: seq<byte>)
    requires !Present(store, BlobKey(storageKey))
    ensures UnlockResult(p, json, store, storageKey, Credential(rawId)) == Ok(None)
  {
  }

  class SecureFormProvider<T> {
    const storageKey: string
    const primitives: Primitives
    const json: Json<T>

    var encryptionKey: Option<Key>
    var values: Option<T>
    var error: Option<string>
    var isLoading: bool
    var store: Store

    /** A freshly mounted provider over the current contents of `localStorage`. */
    constructor (storageKey: string, primitives: Primitives, json: Json<T>, store: Store)
      ensures this.storageKey == storageKey && this.primitives == primitives && this.json == json
      ensures encryptionKey == None && values == None && error == None && !isLoading
      ensures this.store == store
    {
      this.storageKey := storageKey;
      this.primitives := primitives;
      this.json := json;
      this.store := store;
      encryptionKey, values, error, isLoading := None, None, None, false;
    }

    /** The context's `isAuthenticated`: `!!encryptionKey`, and a `CryptoKey` is always truthy. */
    function IsAuthenticated(): (r: bool)
      reads this
      ensures r <==> encryptionKey.Some?
    {
      encryptionKey.Some?
    }

    /**
     * `needFallback`: the form is withheld unless the session is
     * authenticated and the values have been loaded.
     */
    function NeedFallback(): (r: bool)
      reads this
      ensures !IsAuthenticated() ==> r
      ensures !r <==> IsAuthenticated() && values.Some?
    {
      encryptionKey.None? || values.None?
    }

    /**
     * The provider's render: the children exactly when a key is held and
     * values are loaded; otherwise the fallback, which sees `error ||
     * undefined` (so an empty message shows as no error) and the loading flag.
     */
    function Render(): (v: View<T>)
      reads this
      ensures v.Children? <==> IsAuthenticated() && values.Some?
      ensures v.Children? ==> v.values == values.value
      ensures v.Fallback? ==> v.isLoading == isLoading
      ensures v.Fallback? ==> (v.error.Some? <==> error.Some? && error.value != "")
      ensures v.Fallback? && v.error.Some? ==> v.error == error
    {
      if NeedFallback() then
        Fallback(if error.Some? && error.value != "" then error else None, isLoading)
      else
        Children(values.value)
    }

    /** `localStorage.setItem`. */
    method SetItem(k: string, v: string, fault: StorageFault) returns (r: Outcome)
      modifies this`store
      ensures r == WriteOutcome(k, v, fault)
      ensures store == Written(old(store), k, v, fault)
    {
      match fault(k, v)
      case None =>
        store := store[k := v];
        r := Done;
      case Some(e) =>
        r := Threw(e);
    }

    /** `deriveAndSetKey`: the key is set as soon as it is derived. */
    method DeriveAndSetKey(rawIdBase64: string) returns (r: Result<Key, Thrown>)
      modifies this`encryptionKey
      ensures r == match Decode(rawIdBase64)
                   case Err(e) => Err(e)
                   case Ok(buf) => Ok(DeriveKey(primitives, buf))
      ensures encryptionKey == if r.Ok? then Some(r.value) else old(encryptionKey)
    {
      var buf :- Base64UrlStringToBuffer(rawIdBase64);
      var key := DeriveKey(primitives, buf);
      encryptionKey := Some(key);
      r := Ok(key);
    }

    /** `encryptAndStore`: encrypts the JSON of `v` and writes the blob. */
    method EncryptAndStore(key: Key, v: T, iv: seq<byte>, fault: StorageFault) returns (r: Outcome)
      requires |iv| == IvLength
      modifies this`store
      ensures var blob := SealedBlob(primitives, key, json.stringify(v), iv);
              r == WriteOutcome(BlobKey(storageKey), blob, fault) &&
              store == Written(old(store), BlobKey(storageKey), blob, fault)
    {
      var cipher := EncryptData(primitives, key, json.stringify(v), iv);
      r := SetItem(BlobKey(storageKey), cipher, fault);
    }

    /**
     * The `try` body that auto-login and `login` share: authenticate,
     * derive and set the key, decrypt, set the values. The credential's raw
     * id goes through the base64url string `startAuthentication` returns,
     * which decodes back to the same bytes, so a credential always installs
     * its key, even when decryption then fails.
     */
    method Unlock(assertion: Ceremony) returns (r: Outcome)
      modifies this`encryptionKey, this`values
      ensures encryptionKey == KeyAfterCeremony(primitives, old(encryptionKey), assertion)
      ensures var u := UnlockResult(primitives, json, store, storageKey, assertion);
              r == (if u.Ok? then Done else Threw(u.error)) &&
              values == (if u.Ok? then u.value else old(values))
    {
      match assertion
      case CeremonyFailed(e) =>
        r := Threw(e);
      case Credential(raw) =>
        var rawId := BufferToBase64UrlString(raw);
        DecodeEncode(raw);
        var k := DeriveAndSetKey(rawId);
        var v := DecryptFromStorage(primitives, json, store, storageKey, k.value);
        if v.Ok? {
          values := v.value;
          r := Done;
        } else {
          r := Threw(v.error);
        }
    }

    /**
     * The auto-login effect on mount. It runs only when both entries are
     * present; its failures are logged and never reach `error`.
     */
    method AutoLogin(assertion: Ceremony)
      modifies this`encryptionKey, this`values, this`isLoading
      ensures store == old(store) && error == old(error)
      ensures !AutoLoginAttempted(store, storageKey) ==>
                encryptionKey == old(encryptionKey) && values == old(values) && isLoading == old(isLoading)
      ensures AutoLoginAttempted(store, storageKey) ==>
                var u := UnlockResult(primitives, json, store, storageKey, assertion);
                !isLoading &&
                encryptionKey == KeyAfterCeremony(primitives, old(encryptionKey), assertion) &&
                values == (if u.Ok? then u.value else old(values))
    {
      var hasId := Present(store, UserIdentifierKey);
      var hasBlob := Present(store, BlobKey(storageKey));
      if !hasId || !hasBlob {
        return;
      }
      isLoading := true;
      var _ := Unlock(assertion);
      isLoading := false;
    }

    /**
     * `login`: the same steps as auto-login, but a failure sets `error` to
     * the message (or "Login failed") and is re-thrown.
     */
    method Login(assertion: Ceremony) returns (r: Outcome)
      modifies this`encryptionKey, this`values, this`error, this`isLoading
      ensures store == old(store) && !isLoading
      ensures encryptionKey == KeyAfterCeremony(primitives, old(encryptionKey), assertion)
      ensures var u := UnlockResult(primitives, json, store, storageKey, assertion);
              r == (if u.Ok? then Done else Threw(u.error)) &&
              values == (if u.Ok? then u.value else old(values))
      ensures error == if r.Threw? then Some(LoginMessage(r.thrown)) else None
    {
      isLoading := true;
      error := None;
      r := Unlock(assertion);
      if r.Threw? {
        error := Some(LoginMessage(r.thrown));
      }
      isLoading := false;
    }

    /** `logout`: forgets key, values and error; both stored entries stay. */
    method Logout()
      modifies this`encryptionKey, this`values, this`error
      ensures encryptionKey == None && values == None && error == None
      ensures store == old(store) && isLoading == old(isLoading)
    {
      encryptionKey := None;
      values := None;
      error := None;
    }

    /**
     * `setValues`: without a key it throws "Not authenticated" and changes
     * nothing; otherwise the blob is written first and `values` follows
     * only when the write succeeded.
     */
    method SetValues(v: T, iv: seq<byte>, fault: StorageFault) returns (r: Outcome)
      requires |iv| == IvLength
      modifies this`store, this`values
      ensures old(encryptionKey).None? ==> r == Threw(NotAuthenticated) && store == old(store) && values == old(values)
      ensures old(encryptionKey).Some? ==>
                var blob := SealedBlob(primitives, encryptionKey.value, json.stringify(v), iv);
                r == WriteOutcome(BlobKey(storageKey), blob, fault) &&
                store == Written(old(store), BlobKey(storageKey), blob, fault) &&
                values == (if r.Done? then Some(v) else old(values))
      ensures r.Done? && AeadCorrect(primitives) && TextRoundTrip(primitives) && JsonRoundTrip(json, v) ==>
                encryptionKey.Some? &&
                DecryptFromStorage(primitives, json, store, storageKey, encryptionKey.value) == Ok(Some(v))
    {
      if encryptionKey.None? {
        r := Threw(NotAuthenticated);
        return;
      }
      r := EncryptAndStore(encryptionKey.value, v, iv, fault);
      if r.Done? {
        values := Some(v);
        if AeadCorrect(primitives) && TextRoundTrip(primitives) && JsonRoundTrip(json, v) {
          VaultRoundTrip(primitives, json, old(store), storageKey, encryptionKey.value, v, iv);
        }
      }
    }

    /**
     * Submit's first-time branch: register a credential labelled with the
     * storage key, derive and set its key, then store its id under
     * `userIdentifier`. A failed ceremony changes nothing.
     */
    method Register(register: string -> Ceremony, fault: StorageFault) returns (r: Outcome)
      modifies this`encryptionKey, this`store
      ensures register(storageKey).CeremonyFailed? ==>
                r == Threw(register(storageKey).thrown) &&
                encryptionKey == old(encryptionKey) && store == old(store)
      ensures register(storageKey).Credential? ==>
                var rawId := register(storageKey).rawId;
                var id := Encode(rawId);
                encryptionKey == Some(DeriveKey(primitives, rawId)) &&
                r == WriteOutcome(UserIdentifierKey, id, fault) &&
                store == Written(old(store), UserIdentifierKey, id, fault)
    {
      var cred := register(storageKey);
      match cred
      case CeremonyFailed(e) =>
        r := Threw(e);
      case Credential(raw) =>
        var rawId := BufferToBase64UrlString(raw);
        DecodeEncode(raw);
        var k := DeriveAndSetKey(rawId);
        r := SetItem(UserIdentifierKey, rawId, fault);
    }

    /**
     * `submit`, the fallback's handler. Only when no key is held does it
     * register a credential labelled with the storage key, derive and set
     * the key, and store the credential's id under `userIdentifier`. It then
     * writes the blob and sets `values`. A failure sets `error` and is
     * re-thrown; `isLoading` ends false either way.
     */
    method Submit(formVals: T, register: string -> Ceremony, iv: seq<byte>, fault: StorageFault)
      returns (r: Outcome)
      requires |iv| == IvLength
      modifies this`encryptionKey, this`values, this`error, this`isLoading, this`store
      ensures !isLoading
      ensures error == if r.Threw? then Some(SubmitMessage(r.thrown)) else None
      ensures values == if r.Done? then Some(formVals) else old(values)
      // A key is already held: no ceremony, just the blob.
      ensures old(encryptionKey).Some? ==>
                var blob := SealedBlob(primitives, old(encryptionKey).value, json.stringify(formVals), iv);
                encryptionKey == old(encryptionKey) &&
                r == WriteOutcome(BlobKey(storageKey), blob, fault) &&
                store == Written(old(store), BlobKey(storageKey), blob, fault)
      // Registration fails: nothing else happens.
      ensures old(encryptionKey).None? && register(storageKey).CeremonyFailed? ==>
                r == Threw(register(storageKey).thrown) && encryptionKey == None && store == old(store)
      // Registration succeeds: the key is set before anything is written.
      ensures old(encryptionKey).None? && register(storageKey).Credential? ==>
                var rawId := register(storageKey).rawId;
                var key := DeriveKey(primitives, rawId);
                var id := Encode(rawId);
                var blob := SealedBlob(primitives, key, json.stringify(formVals), iv);
                encryptionKey == Some(key) &&
                (fault(UserIdentifierKey, id).Some? ==>
                   r == Threw(fault(UserIdentifierKey, id).value) && store == old(store)) &&
                (fault(UserIdentifierKey, id).None? ==>
                   r == WriteOutcome(BlobKey(storageKey), blob, fault) &&
                   store == Written(old(store)[UserIdentifierKey := id], BlobKey(storageKey), blob, fault))
      ensures r.Done? && AeadCorrect(primitives) && TextRoundTrip(primitives) && JsonRoundTrip(json, formVals) ==>
                encryptionKey.Some? &&
                DecryptFromStorage(primitives, json, store, storageKey, encryptionKey.value) == Ok(Some(formVals))
    {
      isLoading := true;
      error := None;
      r := Done;
      if encryptionKey.None? {
        r := Register(register, fault);
      }
      var key := encryptionKey;
      if r.Done? {
        ghost var before := store;
        r := EncryptAndStore(key.value, formVals, iv, fault);
        if r.Done? {
          values := Some(formVals);
          if AeadCorrect(primitives) && TextRoundTrip(primitives) && JsonRoundTrip(json, formVals) {
            VaultRoundTrip(primitives, json, before, storageKey, key.value, formVals, iv);
          }
        }
      }
      if r.Threw? {
        error := Some(SubmitMessage(r.thrown));
      }
      isLoading := false;
    }
  }

  // -----------------------------------------------------------------------
  // Whole-session scenarios
  // -----------------------------------------------------------------------

  /**
   * A fresh user sees the fallback; `submit` registers the credential,
   * stores its id and the blob, and the children show the submitted values.
   */
  method FreshUserSubmit<T>(p: Primitives, json: Json<T>, storageKey: string,
                            rawId: seq<byte>, v: T, iv: seq<byte>)
    returns (initial: View<T>, afterSubmit: View<T>, stored: Store)
    requires |iv| == IvLength
    ensures initial == Fallback(None, false)
    ensures afterSubmit == Children(v)
    ensures stored == map[UserIdentifierKey := Encode(rawId),
                          BlobKey(storageKey) := SealedBlob(p, DeriveKey(p, rawId), json.stringify(v), iv)]
  {
    var provider := new SecureFormProvider(storageKey, p, json, map[]);
    provider.AutoLogin(CeremonyFailed(NonError));
    initial := provider.Render();
    var r := provider.Submit(v, _ => Credential(rawId), iv, (_, _) => None);
    assert r == Done;
    afterSubmit := provider.Render();
    stored := provider.store;
  }

  /**
   * A later mount over what the first visit stored, with the authenticator
   * approving the same credential. No key is held on mount, so the first
   * render is the fallback; auto-login then shows the values last stored.
   */
  method ReturnApproved<T>(p: Primitives, json: Json<T>, storageKey: string,
                           rawId: seq<byte>, v: T, iv: seq<byte>)
    returns (initial: View<T>, onReturn: View<T>)
    requires |iv| == IvLength && |rawId| > 0
    requires AeadCorrect(p) && TextRoundTrip(p) && JsonRoundTrip(json, v)
    ensures initial == Fallback(None, false)
    ensures onReturn == Children(v)
  {
    var key := DeriveKey(p, rawId);
    var blob := SealedBlob(p, key, json.stringify(v), iv);
    var stored := map[UserIdentifierKey := Encode(rawId), BlobKey(storageKey) := blob];
    EncodeAlphabet(rawId);
    VaultRoundTrip(p, json, map[UserIdentifierKey := Encode(rawId)], storageKey, key, v, iv);
    assert stored == map[UserIdentifierKey := Encode(rawId)][BlobKey(storageKey) := blob];
    SealedBlobLength(p, key, json.stringify(v), iv);
    assert AutoLoginAttempted(stored, storageKey);
    var provider := new SecureFormProvider(storageKey, p, json, stored);
    initial := provider.Render();
    provider.AutoLogin(Credential(rawId));
    onReturn := provider.Render();
  }

  /**
   * A returning user whose authenticator denies the assertion: auto-login
   * fails silently, the fallback shows no error and is not loading.
   */
  method ReturnDenied<T>(p: Primitives, json: Json<T>, storageKey: string,
                         store: Store, denial: Thrown)
    returns (view: View<T>)
    requires AutoLoginAttempted(store, storageKey)
    ensures view == Fallback(None, false)
  {
    var provider := new SecureFormProvider(storageKey, p, json, store);
    provider.AutoLogin(CeremonyFailed(denial));
    view := provider.Render();
  }

  /**
   * An explicit `login` with a different credential, whose key AES-GCM
   * rejects: the call throws and sets `error`, yet the wrongly derived key
   * stays set, so `isAuthenticated` is true while the fallback is shown.
   */
  method LoginWithWrongCredential<T>(p: Primitives, json: Json<T>, storageKey: string,
                                     rawId: seq<byte>, otherId: seq<byte>, v: T, iv: seq<byte>)
    returns (r: Outcome, authenticated: bool, view: View<T>)
    requires |iv| == IvLength
    requires p.gcmDecrypt(DeriveKey(p, otherId), iv,
                          p.gcmEncrypt(DeriveKey(p, rawId), iv, p.textEncode(json.stringify(v)))).Err?
    ensures r.Threw? && authenticated
    ensures view == Fallback(Some(LoginMessage(r.thrown)), false)
  {
    var first := new SecureFormProvider(storageKey, p, json, map[]);
    var _ := first.Submit(v, _ => Credential(rawId), iv, (_, _) => None);
    var second := new SecureFormProvider(storageKey, p, json, first.store);
    SealedBlobLength(p, DeriveKey(p, rawId), json.stringify(v), iv);
    DecryptWrongKey(p, DeriveKey(p, rawId), DeriveKey(p, otherId), json.stringify(v), iv);
    r := second.Login(Credential(otherId));
    authenticated := second.IsAuthenticated();
    view := second.Render();
  }

  /**
   * An explicit `login` when no blob is stored: the call resolves and the
   * key stays set, so `isAuthenticated` is true, yet `values` settles to
   * `null` and the fallback is still shown, with no error.
   */
  method LoginWithoutBlob<T>(p: Primitives, json: Json<T>, storageKey: string, rawId: seq<byte>)
    returns (r: Outcome, authenticated: bool, view: View<T>)
    ensures r == Done && authenticated
    ensures view == Fallback(None, false)
  {
    var provider := new SecureFormProvider(storageKey, p, json, map[]);
    r := provider.Login(Credential(rawId));
    authenticated := provider.IsAuthenticated();
    view := provider.Render();
  }

  /**
   * A first `submit` whose storage writes all throw an `Error` with an empty
   * message: the call throws, `error` records the empty string, and the
   * fallback shows that as no error at all.
   */
  method SubmitEmptyMessage<T>(p: Primitives, json: Json<T>, storageKey: string,
                               rawId: seq<byte>, v: T, iv: seq<byte>)
    returns (r: Outcome, recorded: Option<string>, view: View<T>)
    requires |iv| == IvLength
    ensures r == Threw(ErrorObject("QuotaExceededError", "")) && recorded == Some("")
    ensures view == Fallback(None, false)
  {
    var provider := new SecureFormProvider(storageKey, p, json, map[]);
    r := provider.Submit(v, _ => Credential(rawId), iv, (_, _) => Some(ErrorObject("QuotaExceededError", "")));
    recorded := provider.error;
    view := provider.Render();
  }

  /** `setValues` before any key is held throws "Not authenticated" and leaves `localStorage` alone. */
  method SetValuesLoggedOut<T>(p: Primitives, json: Json<T>, storageKey: string,
                               store: Store, v: T, iv: seq<byte>, fault: StorageFault)
    returns (r: Outcome, after: Store)
    requires |iv| == IvLength
    ensures r == Threw(NotAuthenticated) && after == store
  {
    var provider := new SecureFormProvider(storageKey, p, json, store);
    r := provider.SetValues(v, iv, fault);
    after := provider.store;
  }
}
