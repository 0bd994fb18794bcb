# Passkey-backed form vault and todo list, modelled in Dafny

This project models the secure form provider of a small web application,
along with its todo list. The provider binds a WebAuthn platform credential
to an AES-GCM key and keeps a form's values encrypted in `localStorage`.
The model has five parts:

- **Base64url codec** (`base64url.dfy`, module `Base64Url`) covers
  `bufferToBase64URLString` and `base64URLStringToBuffer`.
  - The encoder copies bytes into a binary string and hands it to `btoa`.
    `btoa` is the padded base 64 of section 4 of RFC 4648. The encoder then
    rewrites the result into the base64url alphabet of section 5 and strips
    the padding, as section 3.2 allows.
  - The decoder reverses the alphabet change and restores 0-3 `=`.
  - It then hands the text to `atob`. `atob` is modelled as the WHATWG Infra
    "forgiving-base64 decode": it strips ASCII whitespace and drops one or
    two trailing `=` when the length is a multiple of four. It fails on
    length 1 mod 4 and on any character outside the alphabet. It discards
    unused trailing bits.
  - The decoder then fills a fresh byte array.
  - Both operations are methods with the source's loops. Each is proved
    against a specification function (`Encode`, `Decode`).
- **Cipher** (`cipher.dfy`, module `Cipher`) covers `deriveKey`,
  `encryptData` and `decryptData`.
  - PBKDF2-HMAC-SHA-256 (section 5.2 of RFC 8018), AES-256-GCM (NIST SP
    800-38D) and the UTF-8 text codec are modelled as callable fields of
    `Primitives`. The model never looks inside them.
  - Their contract is stated as the predicates `AeadCorrect` and
    `TextRoundTrip`. `TextRoundTrip` is the browser's behaviour: a default
    `TextDecoder` gives back what `TextEncoder` encoded, except that it
    skips one leading U+FEFF.
  - The constants are the source's: the salt `passkey-demo-salt`, 100000
    iterations, a 256-bit key and a 12-byte IV.
  - A blob is the IV followed by the AEAD output, base64url-encoded.
    Decryption splits it with `slice(0, 12)` and `slice(12)`, which clamp
    to the buffer's length.
- **Session** (`session.dfy`, module `SecureForm`) is the class
  `SecureFormProvider`.
  - It holds the four state cells `encryptionKey`, `values`, `error` and
    `isLoading`, plus `localStorage` as a `map<string, string>`.
  - Its methods are the auto-login effect, `login`, `logout`, `setValues`
    and `submit`. The helpers `deriveAndSetKey` and `encryptAndStore` are
    methods too. `decryptFromStorage` is a function.
  - `IsAuthenticated`, `NeedFallback` and `Render` model the context's
    `isAuthenticated` and the `needFallback` choice. The scenarios state
    what they show after a whole session.
  - Inputs the model cannot compute are parameters:
    - WebAuthn ceremony outcomes (a raw credential id, or the thrown error).
    - The 12 random IV bytes.
    - `JSON.stringify`/`JSON.parse`.
    - Whether each `localStorage.setItem` throws.
  - JavaScript truthiness is modelled: `getItem` returning `""` counts as
    absent.
  - A credential's raw id goes through the base64url string that
    `startAuthentication` returns. `deriveAndSetKey` then decodes that
    string. The codec round trip is what proves that decoding never fails
    there.
- **Scenarios** (module `SecureForm`) are methods that run whole sessions:
  - a fresh user submitting;
  - a returning user who is approved or denied;
  - a login with the wrong credential;
  - a login when no blob is stored;
  - a first `submit` whose storage write throws an `Error` with an empty
    message;
  - `setValues` while logged out.
- **Todo list** (`todo.dfy`, module `Todo`) covers `addTodo`, `toggleTodo`,
  `deleteTodo`, `clearCompleted` and the footer's completed count and
  "Clear completed" button. All of them are pure functions on sequences.
  `trim` is modelled with ECMAScript's whitespace and line-terminator set.

`wrappers.dfy` defines `Option` and `Result`. `exceptions.dfy` defines the
thrown values the `catch` blocks inspect: an `Error` with a name and
message, or a non-`Error`.

### Behaviour a reader might not expect (the model follows the code)

- **A failed decrypt leaves the key set.** One might expect the key and
  the values to change together or not at all. In the code,
  `deriveAndSetKey` sets the key before decryption runs.
  - After `login` with the wrong credential, `isAuthenticated` is true,
    `error` is set and the fallback is shown; the session does not fall
    back to logged out. `LoginWithWrongCredential` proves this.
  - `submit` behaves the same way after registering: a failed write leaves
    the new key set.
- **No stored blob settles to `null`.** A login with no stored blob leaves
  a key but `null` values: authenticated, yet the fallback is shown
  (`LoginWithoutBlob`).
- **A returning user first sees the fallback.** On mount no key is held,
  so the first render is the fallback, without error and not loading.
  It shows again, loading, while the ceremony runs. Only after auto-login
  succeeds do the children appear (`ReturnApproved`).
- **The decoder is forgiving.** One might expect a modified blob to fail
  decryption, and the decoder to accept only the URL-safe alphabet. The
  code's decoder also accepts:
  - `+` and `/`;
  - ASCII whitespace;
  - trailing padding;
  - non-zero unused bits.

  So distinct texts decode to the same bytes (`DecodeNotInjective`). Some
  edits of the stored text therefore decrypt fine, to the original
  plaintext. It does reject:
  - length 1 mod 4 (`DecodeAcceptsIff`);
  - any other character, such as `!` (`DecodeRejectsForeignChar`);
  - a `=` in the second place of a four-character group, for example
    `A=AA` (`DecodeRejectsInnerPadding`).
- **The registration label is the storage key.** One might expect a user
  label; the code passes `storageKey`.
- **`setValues` does not touch `error`.** Without a key it throws "Not
  authenticated"; with a key, a storage failure propagates as the thrown
  value.
- **A leading U+FEFF does not survive encryption.** One might expect
  `decryptData(k, encryptData(k, s))` to be `s` for every string. The
  decoder at line 196 is a default `TextDecoder`, which skips a leading
  byte-order mark, so text that starts with U+FEFF comes back without it
  (`DecryptDropsBom`). The vault is not affected: it encrypts JSON text,
  which never starts with U+FEFF (`VaultRoundTrip`).
- **Errors from `submit` keep an empty message.** `submit` records
  `e.message` even when it is empty, where `login` falls back to "Login
  failed"; the fallback then shows no error (`SubmitEmptyMessage`).

## Model

| member | source | states |
|---|---|---|
| Base64Url.BufferToBase64UrlString | src/providers/SecureFormProvider.tsx:104-118 | the loop builds the binary string of the bytes; the result is the URL-safe rewrite of `btoa`'s padded encoding: `Encode(buffer)` |
| Base64Url.Base64UrlStringToBuffer | src/providers/SecureFormProvider.tsx:120-137 | undoes the alphabet rewrite, pads with `PadLength` `=`, runs `atob` and copies its char codes into a byte array: `Decode(s)`, or the InvalidCharacterError `atob` throws |
| Base64Url.DecodeEncode | src/providers/SecureFormProvider.tsx:104-137 | round trip: for every byte sequence, the empty one included, decoding the encoding yields `Ok` of the same bytes |
| Base64Url.EncodeAlphabet | src/providers/SecureFormProvider.tsx:114-117 | the encoder's output consists only of `A-Z a-z 0-9 - _` (never `=`), and has length 4*(n/3) plus 0, 2 or 3 |
| Base64Url.PadLength | src/providers/SecureFormProvider.tsx:125-126 | the padding is 0-3 `=` and makes the length a multiple of four |
| Base64Url.CharCodes | src/providers/SecureFormProvider.tsx:129-134 | the copy loop fills a byte array whose every entry is the char code of the binary string at that index |
| Base64Url.RestoredPadding | src/providers/SecureFormProvider.tsx:125-126 | the `=` the decoder appends are exactly the padding the encoder stripped |
| Base64Url.ForgivingDecodeOfRestored | src/providers/SecureFormProvider.tsx:125-128 | on base 64 digits with the restored padding, `atob` fails exactly when the length is 1 mod 4 and otherwise yields the digits' bytes |
| Base64Url.DecodeAcceptsIff | src/providers/SecureFormProvider.tsx:121-128 | on base64url text, decoding succeeds exactly when the length is not 1 mod 4, with the digits' bytes; at length 1 mod 4 the three added `=` make `atob` throw |
| Base64Url.DecodeNotInjective | src/providers/SecureFormProvider.tsx:125-128 | `atob` discards unused bits, so "AA" and "AB" both decode to the single byte 0 |
| Base64Url.Btoa | src/providers/SecureFormProvider.tsx:112 | `btoa` throws InvalidCharacterError exactly when a character is above U+00FF; otherwise its output is whole groups of four base 64 digits and `=` |
| Base64Url.Atob | src/providers/SecureFormProvider.tsx:128 | `atob` throws only InvalidCharacterError, and a successful result has one character below U+0100 per byte |
| Base64Url.DecodeRejectsForeignChar | src/providers/SecureFormProvider.tsx:121-128 | a character outside both alphabets that is neither `=` nor ASCII whitespace, at any position, makes the decoder throw InvalidCharacterError |
| Base64Url.DecodeRejectsInnerPadding | src/providers/SecureFormProvider.tsx:125-128 | a `=` in the second of four digits is not padding and makes the decoder throw |
| Base64Url.BtoaOfBinary | src/providers/SecureFormProvider.tsx:108-112 | `btoa` never throws on the string built from bytes, and returns their padded base 64 encoding |
| Base64Url.AtobOfStdEncode | src/providers/SecureFormProvider.tsx:128 | `atob` inverts the padded encoding: no whitespace is stripped, exactly the padding is dropped, and the digits decode to the bytes |
| Base64Url.UrlSafeDigits | src/providers/SecureFormProvider.tsx:114-123 | the encoder's three replacements map base 64 digits one to one onto base64url digits, and the decoder's two replacements map them back |
| Base64Url.DecodeEncodeDigits | src/providers/SecureFormProvider.tsx:112-128 | decoding the unpadded digits of any bytes gives the bytes back |
| Cipher.Slice | src/providers/SecureFormProvider.tsx:184-185 | `ArrayBuffer.slice` clamps both ends: the exact sub-range when in bounds, the rest from `begin` when `end` is past the length, empty when the range is empty or begins past the end |
| Cipher.DecryptData | src/providers/SecureFormProvider.tsx:182-197 | undecodable text throws `atob`'s error; a plaintext comes back only when AES-GCM accepts the first 12 bytes as IV and the rest, and it is their UTF-8 decoding |
| Cipher.DecryptShortData | src/providers/SecureFormProvider.tsx:183-185 | a blob of at most 12 bytes is all IV: AES-GCM gets the whole buffer as IV and an empty input, and its verdict decides the outcome |
| Cipher.DeriveKeyOfEncodedId | src/providers/SecureFormProvider.tsx:139-160 | `deriveKey` of the id decoded from its base64url text is the key of the raw id: login re-derives the key registration derived |
| Cipher.EncryptData | src/providers/SecureFormProvider.tsx:162-180 | the blob decodes to the 12-byte IV followed by the AES-GCM output of the UTF-8 plaintext; under the AEAD and text contracts it decrypts back to the plaintext less any leading U+FEFF, so to the plaintext itself when it has none |
| Cipher.SplitFrameOfFrame | src/providers/SecureFormProvider.tsx:175-185 | `slice(0,12)`/`slice(12)` of IV plus AEAD output recover exactly that IV and output |
| Cipher.FrameOfSplitFrame | src/providers/SecureFormProvider.tsx:184-185 | the two slices always concatenate back to the data, and the first is 12 bytes exactly when the data has at least 12 |
| Cipher.DecryptFramed | src/providers/SecureFormProvider.tsx:182-197 | decrypting a framed blob passes AES-GCM exactly the framed IV and output; it succeeds with the decoded text exactly when AES-GCM accepts, and otherwise throws what AES-GCM threw |
| Cipher.DecryptSealedBlob | src/providers/SecureFormProvider.tsx:162-197 | cipher round trip: under the AEAD and browser text contracts, decrypt of encrypt is the plaintext with any leading U+FEFF dropped, for every key, IV and string, and is the plaintext itself when it does not start with U+FEFF |
| Cipher.DecryptDropsBom | src/providers/SecureFormProvider.tsx:162-196 | text that starts with U+FEFF decrypts to the text without it, never to the text itself, because the default `TextDecoder` skips a leading byte-order mark |
| Cipher.DecryptWrongKey | src/providers/SecureFormProvider.tsx:187-194 | when AES-GCM rejects output sealed under another key, decryption fails with that same error and yields no plaintext |
| Cipher.SealedBlobLength | src/providers/SecureFormProvider.tsx:175-179 | every blob is at least 16 characters, so it is never the falsy empty string |
| SecureForm.SubmitEmptyMessage | src/providers/SecureFormProvider.tsx:306-341 | a first `submit` whose storage write throws an `Error` with an empty message rejects, records that empty message rather than "Failed to save" (line 318), and the fallback, passed `error \|\| undefined`, shows no error and is not loading |
| SecureForm.DecryptFromStorage | src/providers/SecureFormProvider.tsx:234-239 | `null` exactly when no truthy blob is stored; a value only when the stored blob decrypts and its text parses to that value |
| SecureForm.LoginMessage | src/providers/SecureFormProvider.tsx:286 | the error `login` records is the thrown message when it is non-empty, else "Login failed"; never empty |
| SecureForm.VaultRoundTrip | src/providers/SecureFormProvider.tsx:234-244 | a blob written by `encryptAndStore` makes `decryptFromStorage` under the same key return the stored values |
| SecureForm.UnlockWithoutBlob | src/providers/SecureFormProvider.tsx:234-236 | with no blob stored, a successful ceremony unlocks to `null` values without error |
| SecureForm.SecureFormProvider.constructor | src/providers/SecureFormProvider.tsx:225-228 | a mounted provider starts with no key, no values, no error and not loading, over the existing storage |
| SecureForm.LoginWithoutBlob | src/providers/SecureFormProvider.tsx:279-335 | `login` with a credential when no blob is stored resolves with no error, since `decryptFromStorage` returns `null` (lines 234-236); the derived key stays set, so `isAuthenticated` (line 323) is true, yet `needFallback` (line 335) holds and the fallback is rendered |
| SecureForm.SecureFormProvider.SetItem | src/providers/SecureFormProvider.tsx:243 | `localStorage.setItem` either writes the entry or throws and leaves storage unchanged |
| SecureForm.SecureFormProvider.DeriveAndSetKey | src/providers/SecureFormProvider.tsx:246-251 | decodes the id (or throws `atob`'s error, key unchanged), derives the key with the fixed salt and iterations, and sets it |
| SecureForm.SecureFormProvider.EncryptAndStore | src/providers/SecureFormProvider.tsx:241-244 | writes the sealed blob of the values' JSON under `<storageKey>.data`, or throws the storage error with storage unchanged |
| SecureForm.SecureFormProvider.Unlock | src/providers/SecureFormProvider.tsx:264-268 | authenticate, derive, decrypt: a credential always installs its derived key; values become the decrypted result (`null` without a blob) only on success; storage is untouched |
| SecureForm.SecureFormProvider.AutoLogin | src/providers/SecureFormProvider.tsx:257-273 | attempted only when both `userIdentifier` and `<storageKey>.data` are present; never sets `error`; leaves storage unchanged; ends not loading when attempted and changes nothing otherwise |
| SecureForm.SecureFormProvider.Login | src/providers/SecureFormProvider.tsx:279-288 | the same steps as auto-login; on failure `error` is the message or "Login failed" and the error is re-thrown, on success `error` is cleared; ends not loading |
| SecureForm.SecureFormProvider.Logout | src/providers/SecureFormProvider.tsx:290-294 | clears key, values and error; both stored entries and the loading flag stay |
| SecureForm.SecureFormProvider.SetValues | src/providers/SecureFormProvider.tsx:296-300 | without a key it throws "Not authenticated" and changes nothing; otherwise the blob is written first, values follow only when the write succeeds, and the new blob decrypts to the values |
| SecureForm.SecureFormProvider.Register | src/providers/SecureFormProvider.tsx:310-314 | registration labelled with the storage key; a failed ceremony changes nothing, a credential installs its derived key and then the encoded id is written under `userIdentifier` (or the write throws, storage unchanged) |
| SecureForm.SecureFormProvider.Submit | src/providers/SecureFormProvider.tsx:306-320 | registers (labelled with the storage key) only when no key is held, sets the derived key, stores the encoded raw id under `userIdentifier`, then writes the blob and sets values; failures set `error` and re-throw; ends not loading |
| SecureForm.FreshUserSubmit | src/providers/SecureFormProvider.tsx:257-320 | a fresh user sees the fallback without error; after `submit` the children show the values, and storage holds exactly the encoded id and the blob |
| SecureForm.ReturnApproved | src/providers/SecureFormProvider.tsx:225-273 | a later mount over that storage first renders the fallback without error and not loading; with the same credential approved, auto-login then shows the last stored values |
| SecureForm.ReturnDenied | src/providers/SecureFormProvider.tsx:264-270 | when the authenticator denies the assertion, auto-login fails silently: fallback, no error, not loading |
| SecureForm.LoginWithWrongCredential | src/providers/SecureFormProvider.tsx:279-288 | `login` with a credential whose key AES-GCM rejects throws and sets the error, yet `isAuthenticated` is true and the fallback shows that error |
| SecureForm.SetValuesLoggedOut | src/providers/SecureFormProvider.tsx:296-297 | `setValues` on a provider with no key throws "Not authenticated" and leaves storage exactly as it was |
| Todo.Trim | src/components/Todo.tsx:38 | `trim()` returns the piece of the input that starts right after the leading whitespace, with only whitespace cut off on either side (`StripsTo`), and it never starts or ends with whitespace |
| Todo.TrimEmptyIffBlank | src/components/Todo.tsx:38 | `trim()` yields "" exactly when the input is empty or all whitespace |
| Todo.AddTodo | src/components/Todo.tsx:37-48 | nothing changes exactly when the input is blank; otherwise one todo with the untrimmed text and `completed` false is appended after the unchanged earlier todos, and the input is cleared |
| Todo.ToggleTodo | src/components/Todo.tsx:50-56 | same length, order, ids and texts; `completed` flips exactly on the entries with that id |
| Todo.ToggleTwice | src/components/Todo.tsx:50-56 | toggling an id twice restores the list |
| Todo.Filter | src/components/Todo.tsx:59-63 | `filter` keeps only elements the predicate accepts and never lengthens the list |
| Todo.FilterCount | src/components/Todo.tsx:59-63 | `filter` keeps each accepted element as many times as it occurs, and no rejected one |
| Todo.FilterIsSubsequence | src/components/Todo.tsx:59-63 | `filter`'s result is a subsequence of its input, so the original order is kept |
| Todo.DeleteTodo | src/components/Todo.tsx:58-60 | no todo with that id is left, every todo with another id is kept, in the original order |
| Todo.DeleteTodoSpec | src/components/Todo.tsx:58-60 | `deleteTodo` keeps every todo with another id exactly as often as it occurred, and no todo with that id |
| Todo.ClearCompleted | src/components/Todo.tsx:62-64 | no completed todo is left, every incomplete one is kept, in the original order |
| Todo.ClearCompletedSpec | src/components/Todo.tsx:62-64 | `clearCompleted` keeps every incomplete todo exactly as often as it occurred and no completed one; applying it twice equals applying it once |
| Todo.CompletedCount | src/components/Todo.tsx:126 | the completed count is at most the total and, with what `clearCompleted` keeps, makes up the whole list |
| Todo.ShowClearCompleted | src/components/Todo.tsx:128 | `todos.some(t => t.completed)`: "Clear completed" is offered exactly when the completed count is positive |
| Todo.SomeCompletedIffCount | src/components/Todo.tsx:126-128 | some todo is completed exactly when the filter for completed todos is non-empty |

## Left out

- The WebAuthn ceremonies `startRegistration`/`startAuthentication`
  (src/providers/SecureFormProvider.tsx:11-102) are external round trips to
  the authenticator. Only their outcome is modelled: a raw id, or the error
  they throw. This includes the "not supported" error. The model keeps only
  the base64url encoding of `rawId` (lines 55 and 90). The challenge, user
  handle, options and other response fields are dropped: nothing
  downstream reads them.
- PBKDF2, AES-GCM, `TextEncoder`/`TextDecoder`, `JSON.stringify` and
  `JSON.parse` are foreign calls. They are abstract functions, and their
  round trips are stated as assumptions.
- Rejection paths of these calls are dropped. The fields `pbkdf2`,
  `gcmEncrypt` and `textEncode` (`Primitives`) and `stringify` (`Json`) are
  total. So the model does not capture:
  - `importKey`/`deriveKey` (lines 140-159) or `crypto.subtle.encrypt`
    (line 166) rejecting their promise;
  - `JSON.stringify` throwing on a BigInt or a cyclic value (line 242).

  Consequences:
  - `Unlock` and `Register` always install the derived key once a
    credential is obtained. In the source, a failed derivation would
    leave the key unset and reject.
  - `SetValues` and `Submit` can fail inside `encryptAndStore` only through
    storage.

  Of the crypto, text and JSON calls, only `gcmDecrypt` and `parse` can
  throw in the model. Of the codec built-ins, `atob` can throw, and `btoa`
  only on text that is not a binary string. The ceremonies, `setItem` and
  `setValues` without a key throw as the source does.
- `JSON.parse` returning `null` (a stored text of `null`) is not modelled:
  `parse` yields a value of the form's type or throws.
- `crypto.getRandomValues` is not modelled. The IV is a parameter, and the
  source always draws 12 bytes, hence `|iv| == 12`.
- Concurrent `login`/`submit` calls and their interleavings at `await`
  points are not modelled. No semantics are defined for them, so each
  operation runs to completion.
- React state-update scheduling is not modelled. State setters take
  effect at once, and a closure's `encryptionKey` is the current field.
- React rendering, the context object and the `useSecureForm` hook are UI
  plumbing. `Render` stands in for the choice at line 335.
- `console.error` logging in auto-login is not modelled.
- The message texts of DOMExceptions depend on the browser. They are
  represented by fixed constants (`AtobInvalidCharacter`,
  `BtoaInvalidCharacter`).
- JavaScript string lengths count UTF-16 code units; here a character is
  a Unicode scalar value. The difference could only change the padding of
  text that holds a non-BMP character, and such text fails in `atob`
  either way. JavaScript strings can also hold lone surrogates, which
  `TextEncoder` turns into U+FFFD. A `char` cannot hold one, so such
  strings are outside the model.
- src/lib/storage.ts is not modelled: it is a `localStorage` and JSON
  wrapper (I/O). The todo load/save effects (src/components/Todo.tsx:24-35)
  and the `isLoaded` flag are left out for the same reason.
- Todo ids from `Date.now()` are not modelled; the id is a parameter of
  `AddTodo`. The list's JSX rendering is not modelled.
- Header, Footer, the page, the service-worker scripts, the build config
  and the two UI tests are not part of this model.
- Cipher.DecryptWrongKey: assumes AES-GCM rejects the foreign ciphertext
  and does not prove it. Wrong-key and tamper rejection are cryptographic
  properties of AES-GCM that an abstract model cannot prove.
- SecureForm.SecureFormProvider.AutoLogin: runs once per call, with the
  storage contents of that moment. The effect's re-run when `storageKey`
  changes is not modelled.
