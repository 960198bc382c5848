# Lockify credential vault — verified model of the envelope codec and page logic

Lockify stores website passwords encrypted under a key derived from the user's master
password. This project models, in Dafny, the part of it with real invariants:

* the **envelope codec** of `utils/encryption.ts`. `generateKey` runs PBKDF2 with HMAC-SHA-256,
  100000 iterations, and yields a 32-byte key. `encryptPassword` uses AES-256-CBC with PKCS#7
  padding and writes the token `hex(iv):hex(ciphertext):salt`. `decryptPassword` splits the
  token, derives the key again from the salt text, deciphers, and turns every failure into `null`;
* the **root page guard** `middleware.ts`, with its `config.matcher` pattern;
* the **older guard** `app/middleware.ts`, which checks a prefix and then verifies a JWT;
* the **list logic of the dashboard page**: the 40-second reveal countdown, the test that decides
  which card shows a password, and the guard in front of adding a password; and three helpers
  the page defines but never calls — `handleDragEnd` (drag reordering), `filteredPasswords`
  (site search) and `renderPassword` (masking). The page never renders the drag-and-drop
  components it imports, maps `passwords` directly rather than `filteredPasswords`, and never
  calls `setSearchQuery`, so its search query is always `''`. Its card list decides which card
  shows a password by its own test, `viewingPassword?.id === password.id`. That test differs from
  `renderPassword`'s `viewingPassword && viewingPassword.id === password.id` for an entry without
  an `id`. Both tests are modelled, and the masking lemmas say where they agree.

## How the model is built

* `results.dfy` holds `Option`/`Result`. `None` stands for `null`/`undefined`. `Err` stands for a
  thrown exception and carries its reason.
* `bytes.dfy` holds the byte type, XOR (defined bit by bit), and INT(i) of RFC 8018.
* `strings.dfy` holds `startsWith`, `includes`, `toLowerCase` and `split`/`join` on one separator,
  and the UTF-16 code units a JavaScript string is stored as. A Dafny `char` is a Unicode scalar
  value; a character above U+FFFF is one `char` but two JavaScript code units. `split(':')` is
  unaffected, since no surrogate equals ':'.
* `hex.dfy` is base16 (section 8 of RFC 4648) as Node's `Buffer` implements it. Encoding writes
  lowercase digits. Decoding is lenient and runs over UTF-16 code units: `Buffer.from(s, 'hex')`
  narrows each unit to its low byte, stops at the first pair that is not two hex digits and drops
  an odd last unit. It never throws. So a character above U+00FF can read as a digit (U+0161 as
  'a'), and a character above U+FFFF is two units.
* `utf8.dfy` is UTF-8 (RFC 3629): a concrete encoder and a strict decoder.
* `pkcs7.dfy` is PKCS#7 padding (section 6.3 of RFC 5652) on 16-byte blocks.
* `crypto.dfy` holds the primitives Node's `crypto` computes and the model does not: HMAC-SHA-256,
  the AES-256 block function and its inverse, and Node's lenient UTF-8 decoder. They are fields of
  type `Suite`. The ghost predicate `Sound` states the only things assumed of them:
  * HMAC output is 32 bytes;
  * the block functions map 16 bytes to 16 bytes;
  * under a 32-byte key, the inverse undoes the forward function;
  * Node's decoder agrees with the strict decoder on well-formed input.

  Function values are deterministic, so "the KDF is deterministic" holds by construction.
  `SoundIsSatisfiable` exhibits a suite that meets `Sound`.
* `pbkdf2.dfy` is PBKDF2 (section 5.2 of RFC 8018), written out over the abstract PRF.
* `aes_cbc.dfy` is CBC chaining (section 6.2 of NIST SP 800-38A) over the abstract block function,
  plus OpenSSL's padding and its error cases.
* `encryption.dfy` holds `generateKey`, `encryptPassword` and `decryptPassword`.
* `routing.dfy`, `page_guard.dfy` and `app_guard.dfy` model the two middlewares.
* `dashboard.dfy` models the page logic.

Randomness is a parameter. `iv` and `random` stand for the results of `crypto.randomBytes(16)`.
`decryptPassword` also takes `random`, because a token with fewer than three fields leaves `salt`
undefined. The default parameter of `generateKey` then draws a random salt. The JWT check of
`app/middleware.ts` is the predicate `verifies`. That predicate covers the secret, the signature
and the clock.

Behaviour of the code that the model keeps:
* The salt is the 32-character hex **text**, and it is fed to PBKDF2 as UTF-8 text, not decoded.
  A token's third field is used verbatim, whatever it contains.
* Hex fields are not validated. Non-hex content only shortens the decoded bytes, so there is no
  separate parse failure.
* The codec does not return three kinds of result. Every failure, whatever its reason, becomes
  `null`.
* Fields after the third are ignored. They are not an error.
* A list entry's `id` may be absent. The `Password` interface declares it, but nothing in the page
  sets it, and the database supplies `_id`. With nothing viewed, the card list's test holds for
  such an entry (`undefined === undefined`).

## Model

| member | source | states |
|---|---|---|
| Strings.Split | utils/encryption.ts:27 | `split(':')` always yields at least one field; no field contains the separator; there is exactly one field iff the string has no separator |
| Strings.JoinSplit | utils/encryption.ts:27 | joining the fields of a split with the separator gives back the original string |
| Strings.SplitJoin | utils/encryption.ts:19-27 | splitting a join of separator-free fields gives back exactly those fields |
| Strings.Includes | app/dashboard/page.tsx:344 | `includes` is true iff the needle occurs at some offset of the haystack (the empty needle always occurs) |
| Hex.Encode | utils/encryption.ts:19 | `toString('hex')` yields exactly two lowercase hex digits per byte |
| Hex.DecodeLenient | utils/encryption.ts:29-30 | `Buffer.from(s, 'hex')` is total and yields at most half as many bytes as the string has UTF-16 code units, and never more bytes than characters |
| Hex.UnitDigit | utils/encryption.ts:29-30 | a code unit is read as a hex digit through its low byte; below U+0100 that is the character's own digit value |
| Hex.DecodeUnits | utils/encryption.ts:29-30 | decoding over code units yields at most one byte per two units |
| Hex.Latin1Pair | utils/encryption.ts:29-30 | on characters below U+0100, two hex digits give the byte they spell followed by the decoding of the rest, and any other leading pair gives no bytes at all |
| Hex.NarrowedUnits | utils/encryption.ts:29-30 | a character above U+00FF reads through its low byte: 'š0' decodes to 0xA0, as 'a0' does |
| Hex.AstralIsTwoUnits | utils/encryption.ts:29-30 | a character above U+FFFF is two code units that pair up as digits: U+1CC31 alone decodes to one byte, 0x31 |
| Strings.Utf16 | utils/encryption.ts:29-30 | a JavaScript string holds between one and two 16-bit code units per character |
| Strings.CodeUnitsPair | utils/encryption.ts:29-30 | the surrogate pair stored for a character above U+FFFF determines its code point |
| Strings.Utf16Bmp | utils/encryption.ts:29-30 | below U+10000 each character is stored as one code unit, its own code |
| Hex.DecodeEncode | utils/encryption.ts:19-30 | decoding the hex Node writes gives back the bytes |
| Hex.EncodeDecode | utils/encryption.ts:19-30 | encoding the bytes of even-length lowercase hex gives back the text (with DecodeEncode: a bijection) |
| Hex.LowerHexHasNoColon | utils/encryption.ts:19 | hex text never contains the token separator ':' |
| Utf8.EncodeChar | utils/encryption.ts:17 | a character encodes to 1 to 4 bytes; an ASCII character encodes to its own code |
| Utf8.Encode | utils/encryption.ts:17 | the UTF-8 encoding of a string has between 1 and 4 bytes per character |
| Utf8.DecodeEncode | utils/encryption.ts:17-34 | strict UTF-8 decoding of an encoded string gives the string back (the text round trip of `update(password, 'utf-8')` and `toString('utf-8')`) |
| Pkcs7.Pad | utils/encryption.ts:17 | padding yields a whole number of 16-byte blocks, is 1 to 16 bytes longer, and starts with the data |
| Pkcs7.UnpadPad | utils/encryption.ts:33 | `final()`'s padding check accepts a buffer iff it is the padding of some data, and returns that data |
| Crypto.SoundIsSatisfiable | utils/encryption.ts:7-15 | the assumptions made about HMAC, AES and the UTF-8 decoder can all hold at once |
| Pbkdf2.XorChain | utils/encryption.ts:7 | the XOR of the iterated PRF outputs U_j..U_c is one 32-byte digest |
| Pbkdf2.Derive | utils/encryption.ts:7 | PBKDF2 fails ("derived key too long") iff dkLen > (2^32-1)*32; otherwise the key has exactly dkLen bytes |
| Pbkdf2.OneBlockKey | utils/encryption.ts:7 | a 32-byte key is the single block F(P, S, c, 1) |
| AesCbc.DecryptEncryptBlocks | utils/encryption.ts:15-33 | CBC decryption under the same key and IV inverts CBC encryption |
| AesCbc.Encrypt | utils/encryption.ts:15-17 | `update` plus `final` yields a positive whole number of blocks: 1 to 16 bytes more than the plaintext |
| AesCbc.Decrypt | utils/encryption.ts:32-33 | decipher succeeds only with a 32-byte key, a 16-byte IV and a non-empty block-aligned ciphertext; it returns 1 to 16 bytes fewer than the ciphertext |
| AesCbc.DecryptEncrypt | utils/encryption.ts:15-33 | deciphering with the key and IV used to encipher returns the plaintext |
| Encryption.FreshSalt | utils/encryption.ts:6 | the default salt is 32 lowercase hex characters, has no ':', and encodes the 16 random bytes |
| Encryption.GenerateKey | utils/encryption.ts:6-8 | a supplied salt comes back unchanged, and a missing one is the fresh hex salt; the key is 32 bytes of PBKDF2-HMAC-SHA-256 over the UTF-8 of the password and of the salt text, 100000 iterations |
| Encryption.Render | utils/encryption.ts:19 | the token splits on ':' into exactly hex(iv), hex(ciphertext) and the salt |
| Encryption.Seal | utils/encryption.ts:12-17 | the envelope carries the given IV and the fresh salt; its ciphertext is a whole number of blocks, 1 to 16 bytes longer than the UTF-8 password |
| Encryption.EncryptPassword | utils/encryption.ts:12-21 | the token has three fields: 32 hex digits of IV, a positive multiple of 32 lowercase hex digits of ciphertext, and the fresh salt |
| Encryption.DecryptPassword | utils/encryption.ts:24-38 | total (never throws); success needs a second field, a first field whose hex prefix gives 16 bytes, and a second giving a positive multiple of 16 bytes |
| Encryption.RoundTrip | utils/encryption.ts:12-38 | decrypting a token made by `encryptPassword` with the same master password returns the password, whatever randomness decryption sees |
| Encryption.ExtraFieldsIgnored | utils/encryption.ts:27 | decryption reads only the first three fields; a token decrypts as its first three fields rejoined |
| Encryption.SaltedTokenIgnoresRandom | utils/encryption.ts:6-28 | once a salt field is present, the random default salt plays no part |
| Encryption.NoSeparatorFails | utils/encryption.ts:27-37 | a token without ':' leaves the ciphertext undefined and yields `null` |
| Encryption.EmptyPasswordCiphertext | utils/encryption.ts:17-19 | the empty password still gives 32 hex digits (one padded block) of ciphertext |
| PageGuard.Route | middleware.ts:4-25 | `/api...` always passes; redirect to /login iff not API, no (or empty) token, and not an auth page; redirect to /dashboard iff not API, token present, and auth page; /login and /dashboard are the only targets |
| PageGuard.RedirectSettles | middleware.ts:15-24 | following a redirect with the same cookie reaches a page that passes, so the guard cannot loop |
| PageGuard.Handle | middleware.ts:4-37 | a request is redirected to /login iff the matcher selects its path, it is not an API route, it has no (or an empty) token and it is not an auth page; to /dashboard iff matched, not API, with a token and on an auth page; nothing else is redirected |
| PageGuard.AssetsPass | middleware.ts:36 | paths whose text after '/' begins with `_next/static`, `_next/image`, `favicon.ico` or `public` are never redirected |
| PageGuard.WildcardDot | middleware.ts:36 | the unescaped '.' in `favicon.ico` matches any character: every path `/favicon` + c + `ico` + tail is excluded and never redirected |
| AppGuard.AnyPrefix | app/middleware.ts:6-9 | `some(startsWith)` holds iff some listed route is a prefix of the path |
| AppGuard.Route | app/middleware.ts:8-26 | outside `/dashboard`/`/add` the request passes; inside, it passes iff a non-empty token is present and verifies, and otherwise redirects; /login is the only target |
| AppGuard.Handle | app/middleware.ts:8-30 | a request is redirected iff its path is `/add` or under `/add/` and its token is missing, empty or fails verification, and then only to /login; so `/dashboard`, though listed as protected, is never guarded by this file |
| AppGuard.MatchedRoute | app/middleware.ts:8-30 | on a path the matcher selects, the guard redirects exactly the `/add` requests without a verified token |
| AppGuard.ApiDashboardAlwaysPasses | app/middleware.ts:9-29 | `/api/dashboard/...` is matched but never protected, so it always passes, whatever the token |
| AppGuard.AddIsGuarded | app/middleware.ts:9-29 | under `/add` the request passes iff the token is present and verifies |
| Dashboard.SpliceStart | app/dashboard/page.tsx:338-339 | splice's start index lies within 0..n and equals the given index when that is already in range |
| Dashboard.Reorder | app/dashboard/page.tsx:335-341 | (`handleDragEnd`, defined but never called by the page) no destination leaves the list unchanged; otherwise the length and multiset of items are preserved, the moved item lands at the destination, and the rest keep their order |
| Dashboard.ReorderUndo | app/dashboard/page.tsx:335-341 | dragging the item back from its destination to its source restores the list |
| Dashboard.Filter | app/dashboard/page.tsx:343-345 | (`filteredPasswords`, computed but never rendered) the search result is an order-preserving subsequence of the list; it holds each entry whose lowercased site includes the lowercased query exactly as often as the list does, and no other entry |
| Dashboard.EmptyQueryKeepsAll | app/dashboard/page.tsx:343-345 | an empty query keeps every entry, in order |
| Dashboard.Tick | app/dashboard/page.tsx:95-103 | the updater hides the password iff the counter is at most 1, then resets to 40; otherwise it counts down by one; it keeps the counter within 1..40 |
| Dashboard.Second | app/dashboard/page.tsx:92-107 | with nothing shown the state does not change; the counter stays within 1..40 |
| Dashboard.CountdownFrom | app/dashboard/page.tsx:95-103 | with t seconds left, the password is shown for t-1 more seconds with the counter at t-n, and hidden at the t-th with the counter at 40 |
| Dashboard.RevealExpires | app/dashboard/page.tsx:92-107 | after a reveal (counter set to 40), the password stays visible with counter 40-n for n < 40, and is gone after 40 seconds |
| Dashboard.CardPassword | app/dashboard/page.tsx:506-515 | a card shows the password block iff a password is viewed and its id is the card's, or nothing is viewed and the card has no id; the block holds the viewed password (undefined when nothing is viewed) and the countdown |
| Dashboard.CardAgreesWithRender | app/dashboard/page.tsx:348-358 | for an entry with an id, the card list's test and `renderPassword`'s guarded test agree, and show the same password |
| Dashboard.AtMostOneShown | app/dashboard/page.tsx:506 | when ids are distinct (at most one entry lacks one), at most one card shows a password block |
| Dashboard.AllMaskedAfterExpiry | app/dashboard/page.tsx:348-358 | forty seconds after a reveal, `renderPassword` masks every row, and no card with an id shows a password block |
| Dashboard.IdlessCardShowsAfterExpiry | app/dashboard/page.tsx:506-515 | forty seconds after a reveal, a card without an id shows the password block, empty, with the counter at 40 |
| Dashboard.SentRequestsComplete | app/dashboard/page.tsx:159-183 | every request the add guard lets through has a non-empty site and password, carries the form's three fields unchanged and the master password; every other form is refused with "Site and password are required" before any request |
| Dashboard.AddSendsExactlyComplete | app/dashboard/page.tsx:159-183 | the guard posts a request, unchanged, from the form it was read from iff the request has a non-empty site and password |

## Findings

| source | as written | input that shows it | evidently intended | confidence | as-written member | corrected member |
|---|---|---|---|---|---|---|
| app/dashboard/page.tsx:506 | `viewingPassword?.id === password.id` holds when nothing is viewed and the entry has no `id` | an entry `{ _id, site, password }` without `id`, after a reveal has expired (`viewingPassword` is `null`) | `viewingPassword && viewingPassword.id === password.id`, the page's own guarded test at :349 | low: depends on the list data lacking `id`, which the interface rules out; not executed | Dashboard.IdlessCardShowsAfterExpiry | Dashboard.AllMaskedAfterExpiry |

## Left out

- HMAC-SHA-256, the AES-256 block function and Node's decoding of ill-formed UTF-8 are not computed. They are abstract functions constrained by `Crypto.Sound`. Their cryptographic strength is not modelled, so neither is "a wrong master password is rejected": that holds only with overwhelming probability.
- `crypto.randomBytes` is not modelled. Its results are parameters. So is the probabilistic uniqueness of IVs and salts.
- Encryption.DecryptPassword: its contract gives only necessary conditions for success. Whether a token that meets them decrypts depends on the cipher, as does the outcome for two-field tokens. Those draw a random salt and almost always fail, but not certainly.
- Node's hex decoder stops silently at a non-hex pair. So the model does not claim that non-hex tokens are rejected.
- JavaScript strings may hold lone surrogates, which do not survive UTF-8. A Dafny string holds only Unicode scalar values, so such strings are outside the model.
- `toLowerCase` is modelled for ASCII letters only. Unicode case mappings, including length-changing ones, are not modelled.
- Dashboard.Reorder requires the source index to fall inside the list after splice's normalisation. Otherwise JavaScript would insert `undefined`, which a list of entries cannot hold. (`handleDragEnd` has no caller in the page, so no caller constrains the indices either.)
- How Next.js compiles a `matcher` into a regular expression is not modelled: optional trailing slash, case handling, locale and `_next/data` prefixes. The patterns are modelled as written. In `/:path*` patterns, `:path*` is read as "nothing, or '/' and further segments".
- Next.js runs only the project-root middleware. Both middleware files are modelled on their own, without deciding which one is deployed.
- `console.error` logging, the `NextResponse` objects and the request URL are not modelled. A redirect is represented by its target path.
- Real timers are not modelled. This includes the separate 40-second `setTimeout` that also clears the shown password. Only one interval step per second is modelled.
- The dashboard's JSX, fetch calls, toasts, theme and localStorage handling are UI and I/O, and are not modelled. The same goes for the login, signup and how-it's-safe pages.
- The API route handlers, `utils/email.ts`, `utils/authMiddleware.ts`, `lib/mongo.ts` and `models/*` are database, JWT, bcrypt and e-mail glue, and are not part of this model. The add route stores the submitted password without calling `encryptPassword`, so nothing here assumes that stored records are envelopes.
