# Multilingual FAQ service: translation fan-out, read cache and admin sessions

A Dafny model of the parts of a small Express/MongoDB/Redis FAQ service that
hold real logic:

- **`getTranslations`** (module `Translations`). It seeds a translations map
  with the original text. It then walks the target languages in order and asks
  a translation provider for each question and answer. When a target fails, it
  falls back to re-translating both texts into English, and that fallback
  overwrites the `"en"` entry. The provider is a parameter of type
  `(call index, text, language) -> Option<string>`. The index lets a provider
  fail on chosen calls only, as a test double that rejects its first call does.
  A run also records every provider call and every failed language; the second
  record is the handler's error log.
- **`getAllFaq`** (module `FaqRead`). It projects the published records onto
  the requested language, with no fallback to another language. It sits behind
  a read-through cache keyed `faqs:<lang>`.
- **`createFaq` and `updateFaq`** (module `FaqWrite`). Create stores a
  published record created by the calling admin. Update models the
  re-translation gate exactly as the handler evaluates it, and also a corrected
  version (see Findings).
- **`register`, `login`, `refreshToken` and `logout`** (module `Auth`). These
  are transitions over the admin collection. Password hashing is an abstract
  `Hasher`, and the only fact assumed of it is that a password matches its own
  hash. Signed tokens are plain inputs.
- `Http` models the shared catch block. An `ApiError` keeps its status and
  message; anything else becomes a 500 with the message
  "Internal server error".

Stores are sequences in natural order, so `findOne` is "the first match".
In three places the model keeps what the code does, although a reader of the
handlers might expect otherwise:
- A throwing English fallback is not caught. It aborts the whole create or
  update with a 500 "Translation failed", where a failed target is only logged.
- The public listing has no English fallback: a record without the requested
  language is left out.
- The update gate does not compare by value (see Findings).

## Model

| member | source | states |
|---|---|---|
| Http.Catch | src/controllers/faqController.ts:82-89 | an `ApiError` is answered with its own status and message, anything else with 500 "Internal server error" |
| Translations.Fallback | src/controllers/faqController.ts:36-45 | the catch branch adds at most the English key, keeps every other entry, makes one or two English calls, and when it aborts the last call was an English call that threw |
| Translations.Step | src/controllers/faqController.ts:24-45 | the original language is skipped with no call; a translated target adds exactly its own key; a failed target is logged, adds nothing of its own, and may change only the English entry; calls target only the language or, after a failure, English |
| Translations.Loop | src/controllers/faqController.ts:24-46 | a run that has stopped is left as it is; otherwise the trace of provider calls and the failure log are only extended and no key is ever removed |
| Translations.Seed | src/controllers/faqController.ts:18-22 | a run starts with the original text under the original language and no other key, no call made and nothing logged |
| Translations.Translate | src/controllers/faqController.ts:18-47 | the original language always has an entry, and a run stops early only after some target failed |
| Translations.GetTranslations | src/controllers/faqController.ts:12-48 | a failure is always ApiError 500 "Translation failed"; a success always contains the original language |
| Translations.LoopKeysGrow | src/controllers/faqController.ts:24-47 | keys are never removed, and every new key is a target language or English |
| Translations.LoopFailures | src/controllers/faqController.ts:28-45 | the error log only grows, only with targets other than the original, and a run aborts only after a logged failure whose English fallback call threw |
| Translations.LoopCalls | src/controllers/faqController.ts:24-45 | every call targets a listed language other than the original, or is an English fallback made after a logged failure |
| Translations.LoopKeepsSeed | src/controllers/faqController.ts:18-45 | the original entry survives the loop, unchanged unless it is English and a target failed |
| Translations.LoopCoversTargets | src/controllers/faqController.ts:24-35 | with no failure the keys grow by exactly the targets other than the original |
| Translations.LoopFallbackPresent | src/controllers/faqController.ts:36-45 | after any failure, a run that did not abort has an English entry |
| Translations.LoopAppend | src/controllers/faqController.ts:24-46 | the loop over `t1 + t2` is the loop over `t1` followed by the loop over `t2` (sequential, in list order) |
| Translations.LoopAlways | src/controllers/faqController.ts:24-35 | with a provider that never fails, each target other than the original holds the provider's text and every other entry is untouched |
| Translations.OriginalEntryKept | src/controllers/faqController.ts:18-47 | the result always has the original key; it holds the input text verbatim unless the original is English and a target failed; keys are only the original, targets and English |
| Translations.OriginalNeverRequested | src/controllers/faqController.ts:24-27 | the original language is requested only when it is English and a fallback ran; no other call names a language outside the targets |
| Translations.CoverageOfRun | src/controllers/faqController.ts:24-45 | no failure means exactly `{original} + targets` as keys; a failure in a completed run means an English entry; logged failures are targets other than the original |
| Translations.FallbackFailurePropagates | src/controllers/faqController.ts:36-44 | `getTranslations` fails exactly when the run aborted, which needs a logged failure followed by an English call that threw |
| Translations.AlwaysTranslates | src/controllers/faqController.ts:19-35 | with a never-failing provider: success, keys exactly `{original} + targets`, the original text verbatim, and `(tr(question, L), tr(answer, L))` under every other key L |
| Translations.StepOutcome | src/controllers/faqController.ts:28-45 | one iteration in terms of the provider's answers at the next call indices: success writes `L`; failure logs `L`, discards a successful question translation, and writes only the English fallback, or aborts |
| Translations.LastTarget | src/controllers/faqController.ts:28-45 | a failing last target overwrites English with its fallback, whatever earlier targets wrote there (last write wins); a successful one adds its own entry only |
| Translations.FirstCallRejected | src/tests/faq.test.ts:72-84 | with the first provider call rejected over targets `["en","es","fr"]` from English, the run succeeds with English holding the fallback, French translated and no Spanish entry |
| FaqRead.RequestedLanguage | src/controllers/faqController.ts:186-189 | a missing or empty `lang` reads as English, any other value is kept |
| FaqRead.CacheKey | src/controllers/faqController.ts:192 | the key is `faqs:` followed by the language itself |
| FaqRead.CacheKeyInjective | src/controllers/faqController.ts:192 | distinct languages never share a cache key |
| FaqRead.Visible | src/controllers/faqController.ts:201-208 | defines which records a language lists: published ones whose translations map holds that language, with no fallback to another language |
| FaqRead.ItemOf | src/controllers/faqController.ts:210-215 | a listing entry carries the record's id and category and the question and answer stored under the language |
| FaqRead.Project | src/controllers/faqController.ts:201-219 | at most one entry per record; no entry exactly when no record is visible; one per record exactly when every record is visible (order and contents are stated by `FaqRead.Positions`) |
| FaqRead.Positions | src/controllers/faqController.ts:201-219 | the listing is, in store order, exactly one entry `{id, question, answer, category}` per published record whose translations map holds the language; nothing else appears |
| FaqRead.GetAllFaq | src/controllers/faqController.ts:184-232 | a cached key returns the cached list and leaves the cache alone; a miss returns the projection of the store and caches exactly that list under the key |
| FaqRead.CacheHitIgnoresStore | src/controllers/faqController.ts:192-199 | on a hit any two stores give the same answer |
| FaqRead.StaleReadAfterWrite | src/tests/faq.test.ts:116-128 | after one read, the same language returns the same list from any later store, including an emptied one |
| FaqRead.ReadsIndependent | src/controllers/faqController.ts:192-227 | a read changes no other language's cache entry or listing |
| FaqRead.ListingScenario | src/tests/faq.test.ts:87-128 | the default language lists the English text, `es` the Spanish text, and the cached English list survives emptying the store |
| FaqWrite.Storable | src/models/Faq.ts:4-10 | a translations map passes the schema exactly when every entry has a non-empty question and answer (a required string rejects "") |
| FaqWrite.CreateFaq | src/controllers/faqController.ts:50-90 | a missing target list gives a 500; a translation failure gives 500 "Translation failed"; after a successful translation it replies 201 exactly when the original language is non-empty and every entry has non-empty text, and 500 otherwise; every failure leaves the store unchanged; success appends one published record with the fresh id, the admin as `createdBy`, the body's fields and exactly the map `getTranslations` returned, and replies 201 with it |
| FaqWrite.CreateKeepsStoreGood | src/controllers/faqController.ts:62-76 | creation keeps ids unique and every published record's source entry present |
| FaqWrite.Find | src/controllers/faqController.ts:124 | the first record with the id, or none when the id is absent |
| FaqWrite.Lookup | src/controllers/faqController.ts:124-130 | the record the update finds, present exactly when the id is stored |
| FaqWrite.ApplyFields | src/controllers/faqController.ts:124-130 | the category, target list and original language the body supplies overwrite the stored ones, missing ones keep the stored value, and id, status, creator and translations are untouched |
| FaqWrite.Gate | src/controllers/faqController.ts:134-139 | with a stored record the gate is always open; without one it is open exactly when any of the four compared fields is supplied |
| FaqWrite.RebuildLanguage | src/controllers/faqController.ts:144 | the rebuild's base language is the stored original language when it is non-empty, otherwise English; never empty |
| FaqWrite.UpdateFaq | src/controllers/faqController.ts:115-162 | an empty id gives 400 and no change; an absent record means nothing is saved and no record is sent back, with 200 when the gate is closed; for a found record the schema fields are committed first; a missing question, answer or target list then gives 500 "Internal server error" and a translation failure 500 "Translation failed", both keeping the committed fields; a successful rebuild from the request text under the stored original language replaces the map wholesale and replies 200 with the record as it was before, carrying the new map, unless `save()` rejects the loaded record (an entry with empty text, or an empty stored original language), which gives 500 "Internal server error" with the committed fields kept; no other record changes |
| FaqWrite.EmptyStoredLanguageFails | src/controllers/faqController.ts:124-148 | with an empty stored original language the rebuild runs under English, but saving the loaded record fails the required language check (src/models/Faq.ts:14-18), so the update answers 500 |
| FaqWrite.CategoryOnlyUpdateFails | src/controllers/faqController.ts:132-150 | a category-only update of an existing record answers 500, with the category stored and the translations untouched |
| FaqWrite.LanguageChangeDropsSource | src/controllers/faqController.ts:124-149 | changing the original language from `en` to `fr` stores `fr` with a map rebuilt under `en`, breaking the source-entry invariant |
| FaqWrite.RebuildText | src/controllers/faqController.ts:140-143 | the corrected rebuild text: the supplied question and answer, each defaulting to the stored source entry; none exactly when a part is missing and there is no source entry |
| FaqWrite.UpdateFaqByValue | src/controllers/faqController.ts:132-150 | the corrected update writes nothing unless it succeeds; a closed value gate updates the schema fields and leaves the map; an open gate with a question or answer missing and no stored source entry to take it from does the same; otherwise an open gate rebuilds from the updated target list and original language and saves fields and map together (200), or answers 500 "Translation failed", or 500 "Internal server error" when the schema rejects the map or the empty original language, and changes nothing |
| FaqWrite.CategoryOnlyUpdateKeepsTranslations | src/controllers/faqController.ts:132 | with the value gate a category-only update answers 200 and changes only the category |
| FaqWrite.UpdateByValueKeepsStoreGood | src/controllers/faqController.ts:140-149 | the corrected update keeps every published record's source entry present |
| Auth.FindByEmail | src/controllers/authController.ts:11 | the first admin with the email, or none when no admin has it |
| Auth.FindByToken | src/controllers/authController.ts:50 | the first admin holding the token, or none when no admin holds it |
| Auth.SessionCookies | src/controllers/authController.ts:28-37 | exactly two cookies are set: the refresh token under `refreshToken` and the access token under `accessToken` |
| Auth.Register | src/controllers/authController.ts:93-124 | a taken email gives 400 "Admin already exists" and no change; it succeeds (201) exactly for a new email with non-empty email and password, appending one admin with the hashed password and the new refresh token, and setting both cookies; a new email with an empty email or password fails the schema's required check (src/models/admin.ts:5-14) with 500 "Internal server error", no cookies and no change |
| Auth.Login | src/controllers/authController.ts:7-45 | it succeeds exactly when the first admin with the email matches the password; failures are 401 "Invalid email or password" with no change; success sets only that admin's refresh token, sets both cookies and sends no status or body |
| Auth.Refresh | src/controllers/authController.ts:47-70 | it fails with 401 "Invalid refresh token" exactly when no admin holds the token; otherwise 200 with the access token and its cookie; the store never changes |
| Auth.Logout | src/controllers/authController.ts:72-91 | it fails with 401 exactly when no admin holds the token, with no change; otherwise it clears only that admin's refresh token and both cookies |
| Auth.RegisterThenLogin | src/models/admin.ts:28-43 | a registered password is stored as its hash and matches it, so a login with the same credentials then succeeds |
| Auth.RegisterKeepsValid | src/controllers/authController.ts:96-104 | registration keeps emails, ids and live refresh tokens unique, given a fresh token |
| Auth.LoginKeepsValid | src/controllers/authController.ts:11-26 | login keeps the collection valid, given a fresh token |
| Auth.RefreshAndLogoutKeepValid | src/controllers/authController.ts:50-80 | refresh and logout keep the collection valid |
| Auth.LoginFailuresAlike | src/controllers/authController.ts:11-21 | an unknown email and a wrong password produce the identical response and leave the store unchanged |
| Auth.LogoutRevokes | src/controllers/authController.ts:75-80 | after a logout in a valid collection, refresh and logout with the same token both fail with 401 |

## Findings

| source | as written | input that shows it | evidently intended | confidence | as-written member | corrected member |
|---|---|---|---|---|---|---|
| src/controllers/faqController.ts:134-139 | question and answer are compared with properties of the translations Map object, which are always undefined, and the target lists are compared by reference; so the gate is open for every stored record | an existing record updated with the body `{category: "x"}`: the gate opens, the loop iterates an undefined target list and the handler answers 500 | the comment at line 132 and the test at src/tests/faq.test.ts:165-177: a category-only update keeps the translations and answers 200 | high, not executed | FaqWrite.CategoryOnlyUpdateFails | FaqWrite.CategoryOnlyUpdateKeepsTranslations |
| src/controllers/faqController.ts:124-149 | the update stores the new `originalLanguage`, but the map is rebuilt under the stored (old) one | record `{originalLanguage: "en", translations: {en}}` updated with `{question: "Q2", answer: "A2", targetLanguages: [], originalLanguage: "fr"}`: the record says `fr` and its map holds only `en` | rebuild under the language the record ends up with, so that a published record keeps its source entry | medium, not executed | FaqWrite.LanguageChangeDropsSource | FaqWrite.UpdateByValueKeepsStoreGood |

## Left out

- Translation provider internals are not modelled. The provider is a function parameter. Every failure becomes `ApiError("Translation failed", 500)`, as src/service/translate.ts:15-17 does.
- Timeouts and concurrency are not modelled. Calls are sequential, and a hanging provider call is outside a total function.
- The `console.error` output is kept only as the list of failed languages in a run.
- Token signing and verification (jsonwebtoken) and the authentication middleware are foreign calls. Signed tokens are inputs to the handlers. Callers of the FAQ write handlers are assumed authenticated.
- bcrypt and the pre-save hook are abstract. The model stores `hash(password)` and assumes only that a password matches its own hash.
- Auth.RegisterThenLogin: states that the stored value is `hash(password)`, not that it differs from the plaintext. That difference is a property of bcrypt.
- Fresh ids are not generated: `newId` is a parameter that must not be in the store.
- Mongo query semantics are not modelled: cast errors on malformed ids, and the unique index as a store-level check. Register checks the email before creating, and uniqueness is proved as an invariant.
- FaqWrite.UpdateFaq: for fields missing from the body, the model assumes the store update keeps the stored value.
- FaqWrite.UpdateFaq: when the gate is open but `question` or `answer` is missing, the model answers 500. It does not follow the undefined text through the provider and schema validation, and with no stored record the real handler may answer 200 instead.
- FaqWrite.CreateFaq: takes `question` and `answer` as strings. A body without them, which the code would send to the provider as undefined, is not modelled.
- FaqWrite.CreateFaq: takes `originalLanguage` as a string. A body without it makes the code seed the key `"undefined"` while the schema stores `"en"`.
- The schema's empty-string rejection is modelled. Absent (undefined) email or password in `register` and `login` is not.
- Auth.Refresh: a request with no refresh cookie queries `{refreshToken: undefined}`. What that matches depends on the Mongoose version, so only a presented token string is modelled. The same applies to Auth.Logout.
- Property keys special to JavaScript objects (`__proto__`) are not modelled, and neither is a `lang` query given more than once (an array).
- Redis serialization, the one-day expiry and cache or store errors are not modelled. The cache is a map that never expires, and the 500 catch path of `getAllFaq` is omitted.
- `getFaqById` and `deleteFaq` are single lookups with no logic beyond 404/200. They are not modelled.
- Routing, the server, database configuration, cookie options (`maxAge`, `secure`) and timestamps are not modelled.
- Test assertions that contradict the code are not modelled:
  - the 200 expected for a category-only update (see Findings);
  - the 200 expected from login, which sends no status;
  - `set-cookie` compared with `true`;
  - the `/faqs` and `/auth` paths and Bearer headers, where the code uses `/faq`, `/admin` and cookies.
