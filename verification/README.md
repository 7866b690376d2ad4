# URL shortener record lifecycle, modelled in Dafny

This project models the core of a small URL-shortening service. The service keeps one table
of URL records. Each record has an `id`, a six-letter public `key`, an owner-only
`secret_key`, a `target_url`, an `is_active` flag and a `clicks` counter. A few HTTP
handlers act on that table:

- create a short link;
- redirect a visitor and count the visit;
- show a record to its owner;
- toggle a record on or off;
- delete a record.

The table is a `seq<Record>` (`Records.Store`). Each write is a pure function that returns
the new store together with its answer (`Records.Step`). The lookups and the admin-info
handler return only their answer. A query's `.first()` is
the earliest match in sequence order (`Db.First`).

Modules:

- `Wrappers` holds `Option` and `Result`.
- `Records` holds the record, the store, and the uniqueness predicates on the store.
- `KeyGen` models `generate_url_key`.
- `Db` models the store functions of `shortener_app/db.py`.
- `Handlers` models the state and response logic of `shortener_app/main.py`.
- `Lifecycle` holds the properties that span several handler calls.

Abstractions:

- The random choices of `generate_url_key` are passed in as indices into the alphabet.
- The key-retry loop takes the sequence of keys the generator would yield, in order.
- The `uuid4` secret is a parameter that no record may hold yet.
- The database-assigned `id` is a parameter that no record may hold yet.
- `validators.url` is an arbitrary predicate `isUrl`.
- The column defaults (`is_active` true, `clicks` 0) come from a table definition that is
  not part of this model. They are stated as the assumed constants
  `Records.DefaultIsActive` and `Records.DefaultClicks`.

Three points about the code shape the model:

- The retry loop checks only ACTIVE records (`shortener_app/db.py:32`). So a key held by a
  switched-off record can be issued again. `Db.InsertPreservesUniqueness` proves that
  insert keeps active keys unique. `Lifecycle.ReissuedKeyCollides` is a worked example
  with two fixed records. It shows, with ordinary handler calls, that a toggle can break
  this: switching the old record back on leaves two active records with the same key. This needs the table to have no unique constraint on
  `key`. With such a constraint, the second insert's commit (`shortener_app/db.py:36`)
  would fail instead. If `.first()` returns rows in insertion order, the shared key then
  redirects to the older record's target.
- After such a collision, switching off or deleting one of the two records does not take
  the key off the redirect path: the key still redirects. This is proved for every store
  (`Lifecycle.CollisionOutlivesSwitchOff`, `Lifecycle.CollisionOutlivesDelete`). The 404
  promised after a switch-off or a delete (`Lifecycle.DeactivatedKeyNotFound`,
  `Lifecycle.DeletedKeyNotFound`) holds only while active keys are unique.
- No store function toggles or deletes. The handlers do it themselves
  (`shortener_app/main.py:91`, `shortener_app/main.py:107`), and the model places both
  operations in `Handlers`.

## Model

| member | source | states |
|---|---|---|
| KeyGen.GenerateUrlKey | shortener_app/db.py:8-9 | a generated key has exactly 6 characters; each is an ASCII letter; character i is the letter chosen by draw i |
| KeyGen.GenerateUrlKeyRoundTrip | shortener_app/db.py:8-9 | every 6-letter key is a possible output of the generator, and each output comes from exactly one sequence of choices |
| KeyGen.AsciiLettersLiteral | shortener_app/db.py:3 | the alphabet is exactly `string.ascii_letters`: a-z followed by A-Z |
| Db.First | shortener_app/db.py:51-52 | `.first()` returns nothing iff no record matches the filter; otherwise it returns the position of a match with no match before it |
| Db.GetActiveUrlByKey | shortener_app/db.py:41-52 | returns nothing iff no record has the key with `is_active` true; a returned record has both, and it is the first such record |
| Db.GetUrlByKey | shortener_app/db.py:55-65 | returns nothing iff no record has the key, whatever its state; a returned record carries the key and is the first one that does |
| Db.GetUrlBySecretKey | shortener_app/db.py:68-79 | returns nothing iff no record has the secret; a returned record's `secret_key` equals the argument, and it is the first such record |
| Db.ActiveLookupRefinesKeyLookup | shortener_app/db.py:51-65 | if the active lookup finds a record, the plain key lookup finds one too; if the plain lookup's record is active, both lookups return the same record |
| Db.CreateNewDbUrlObject | shortener_app/db.py:12-27 | the new record keeps `target_url` and `key` exactly as passed, carries the fresh secret, and has the assumed defaults active and 0 clicks |
| Db.FirstFreeCandidate | shortener_app/db.py:31-33 | the retry loop stops at the first generated key that no ACTIVE record holds; every key before it was held by an active record |
| Db.InsertNewUrlRecord | shortener_app/db.py:30-38 | insert appends exactly one record, which carries the given `target_url`; all existing records stay in place unchanged; the record's key is a valid generated key that no active record held |
| Db.InsertReusesInactiveKey | shortener_app/db.py:32 | a key held only by inactive records is issued again when it is drawn first: the uniqueness check ignores inactive records |
| Db.InsertPreservesUniqueness | shortener_app/db.py:30-38 | insert preserves "no two active records share a key"; given fresh values, it also preserves unique secrets and unique ids |
| Db.UpdateVisitCount | shortener_app/db.py:82-98 | with no active record for the key, it returns nothing and leaves the store unchanged; otherwise the first such record's `clicks` grows by 1, no other record changes, and the updated record is returned |
| Db.UpdateVisitCountFrame | shortener_app/db.py:92-98 | a visit changes no field other than `clicks` and never lowers a counter; it preserves every uniqueness property of the store |
| Handlers.RaiseBadRequest | shortener_app/main.py:23-24 | a bad request has status 400 and carries the caller's message unchanged |
| Handlers.RaiseNotFound | shortener_app/main.py:27-29 | a not-found has status 404; its detail is the request URL between the fixed text `URL '` and `' doesn't exist`, and the URL can be read back from it |
| Handlers.NotFoundNamesRequest | shortener_app/main.py:27-29 | two 404s are equal exactly when they name the same request URL |
| Handlers.CreateUrl | shortener_app/main.py:37-46 | a URL the validator rejects gives 400 "Invalid URL" and an unchanged store; otherwise the response has `url == key` and `admin_url == secret_key`, and the store gains exactly the new active record with 0 clicks |
| Handlers.ForwardUrlKey | shortener_app/main.py:54-65 | the response is a redirect exactly when an active record has the key; it redirects to that record's `target_url`, and only that record's clicks grow by 1; otherwise it is 404 "URL '<request url>' doesn't exist" and the store is unchanged |
| Handlers.GetUrlAdmin | shortener_app/main.py:68-79 | read-only; succeeds iff some record has the secret, and then returns the first such record; otherwise 404 with the request URL in the message |
| Handlers.DeactivateUrl | shortener_app/main.py:82-95 | flips `is_active` of the record found by secret and changes nothing else; the message says "activated" iff the new state is active; an unknown secret gives 404 and an unchanged store |
| Handlers.DeleteUrl | shortener_app/main.py:98-111 | removes exactly the record found by secret, and the others keep their order and contents; an unknown secret gives 404 and an unchanged store |
| Lifecycle.ToggleTwiceRestores | shortener_app/main.py:88-93 | toggling twice with the same secret restores the original store, and the two messages differ |
| Lifecycle.TogglePreservesUniqueness | shortener_app/main.py:88-92 | a toggle never breaks unique secrets or ids; switching a record off never breaks unique active keys |
| Lifecycle.RemovalPreservesUniqueness | shortener_app/main.py:107 | removing one record keeps every other record, in order, and keeps each uniqueness property |
| Lifecycle.DeletePreservesUniqueness | shortener_app/main.py:104-109 | delete preserves unique active keys, unique secrets and unique ids |
| Lifecycle.DeleteIsTerminal | shortener_app/main.py:104-111 | with unique secrets, after a delete the admin info, a second delete and a toggle with that secret all give 404 |
| Lifecycle.RemovalKeepsActiveKey | shortener_app/main.py:107 | with unique active keys, after one record is removed its key is still held by an active record iff the removed record was inactive and an active record held the key |
| Lifecycle.DeletedKeyNotFound | shortener_app/main.py:104-109 | with unique active keys, after a delete the record's short key still redirects iff the deleted record was inactive and some active record holds the key; deleting an active record makes its key give 404 |
| Lifecycle.DeactivatedKeyNotFound | shortener_app/main.py:88-93 | with unique active keys, after a toggle that answers "deactivated" the record's short key gives 404 |
| Lifecycle.CreateThenForward | shortener_app/main.py:37-65 | a newly created link redirects to its target; its clicks go from 0 to 1 on the first visit and to 2 on the second |
| Lifecycle.ActiveQueryIgnoresInactive | shortener_app/db.py:51-52 | the active lookup returns the same record whether or not the inactive records are in the store |
| Lifecycle.ForwardIgnoresInactive | shortener_app/main.py:60-65 | the redirect answer equals the one the store gives with every inactive record removed, so an inactive key and a missing key look the same |
| Lifecycle.FirstCreateIssuesKey | shortener_app/db.py:30-38 | example step, for the fixed key "abcdef", secret "secret-a" and id 1: on the empty store, insert can run and issues that key to the new active record `FirstLink` |
| Lifecycle.SecondCreateReusesKey | shortener_app/db.py:31-33 | example step: in the store holding only `FirstLink` switched off, insert can run and issues "abcdef" again, to the active record `SecondLink` (the general fact is `Db.InsertReusesInactiveKey`) |
| Lifecycle.ReissuedKeyCollides | shortener_app/db.py:31-33 | example: with the fixed records `FirstLink` and `SecondLink`, create, toggle off, create and toggle on, all with one drawn key, give two active records with the same key; with `.first()` in store order, that key then redirects to the first record's target |
| Lifecycle.CollisionOutlivesSwitchOff | shortener_app/main.py:88-92 | in every store where two active records share a key, toggling through the secret of one of them succeeds, answers "deactivated" when secrets are unique, and the key still redirects |
| Lifecycle.CollisionOutlivesDelete | shortener_app/main.py:104-109 | in every store where two active records share a key, deleting through the secret of one of them answers "URL successfully deleted", and the key still redirects |
| Lifecycle.CollisionOutlivesSwitchOffExample | shortener_app/main.py:88-109 | example: in the store `[FirstLink, SecondLink]`, switching off or deleting `FirstLink` answers success, and "abcdef" then redirects to `SecondLink`'s target |

## Left out

- FastAPI app construction, routing, `Depends(get_db)` session handling and table creation
  (`shortener_app/main.py:11-20`): framework and I/O plumbing.
- `read_root` and `get_all_urls` (`shortener_app/main.py:32-34`, `shortener_app/main.py:49-51`):
  a constant string and an unfiltered listing of the store.
- SQLAlchemy `add`, `commit`, `refresh` and `delete`: each write is a pure update of the
  store. The framework's response-model filtering of the returned object is not modelled.
- `RedirectResponse` and `HTTPException`: only the redirect target, or the status and
  detail, is modelled. The redirect's status code is not.
- The internals of `validators.url`, `secrets.choice` and `uuid.uuid4`. They are foreign
  libraries or randomness, and they become parameters.
- Db.InsertNewUrlRecord: requires that some drawn key is free among active records. The
  source loops forever when no free key is ever drawn, and a terminating model cannot
  represent that.
- Db.InsertNewUrlRecord: requires that the `uuid4` secret and the database id are unused.
  The source relies on randomness and the database for this and does not check it.
- Column defaults and constraints: the table definition is not part of this model. The
  defaults true and 0 are assumptions. No unique constraint on `key` or `secret_key` is
  assumed, so an insert never fails at commit.
- `.first()` is taken to return rows in insertion order, which is the store's sequence
  order. A query without ORDER BY promises no particular order, so where several records
  match, which one the service really returns is not modelled.
- Filter equality (`key ==`, `secret_key ==`) is taken to be exact, case-sensitive string
  comparison. A database collation that compares differently is not modelled.
- Races between concurrent requests, for example between the key check and the insert, or
  between reading and writing the click counter: the model is sequential.
