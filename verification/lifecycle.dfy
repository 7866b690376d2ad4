/** Properties of the record lifecycle across handler calls: ACTIVE and INACTIVE toggle into
    each other, delete is terminal, and what the uniqueness of active keys does and does not
    survive. */
module Lifecycle {
  import opened Wrappers
  import opened Records
  import opened Db
  import opened Handlers
  import KeyGen

  /** Toggling twice with the same secret restores the store and flips the message. */
  lemma ToggleTwiceRestores(s: Store, secret: string, requestUrl: string)
    ensures var once := DeactivateUrl(s, secret, requestUrl);
            var twice := DeactivateUrl(once.store, secret, requestUrl);
            && twice.store == s
            && (once.out.Success? <==> twice.out.Success?)
            && (once.out.Success? ==> once.out.value != twice.out.value)
  {
    var once := DeactivateUrl(s, secret, requestUrl);
    if once.out.Success? {
      var i :| IsFirstMatch(s, SecretIs(secret), i) && SameExcept(s, once.store, i)
               && once.store[i] == s[i].(isActive := !s[i].isActive);
      assert IsFirstMatch(once.store, SecretIs(secret), i);
      FirstMatchIsFirst(once.store, SecretIs(secret), i);
    }
  }

  /** A toggle never touches secrets or ids, and switching a record off never creates a
      duplicate active key. */
  lemma TogglePreservesUniqueness(s: Store, secret: string, requestUrl: string)
    ensures var r := DeactivateUrl(s, secret, requestUrl);
            && (SecretsUnique(s) ==> SecretsUnique(r.store))
            && (IdsUnique(s) ==> IdsUnique(r.store))
            && (ActiveKeysUnique(s) && r.out != Success("URL successfully activated")
                ==> ActiveKeysUnique(r.store))
  {
  }

  /** Where the record at position `a` of the store came from after removing position `i`. */
  function Origin(i: int, a: int): int {
    if a < i then a else a + 1
  }

  lemma RemovalPreservesUniqueness(s: Store, t: Store, i: int)
    requires RemovedAt(s, t, i)
    ensures forall a :: 0 <= a < |t| ==> 0 <= Origin(i, a) < |s| && t[a] == s[Origin(i, a)]
    ensures ActiveKeysUnique(s) ==> ActiveKeysUnique(t)
    ensures SecretsUnique(s) ==> SecretsUnique(t)
    ensures IdsUnique(s) ==> IdsUnique(t)
  {
    forall a | 0 <= a < |t| ensures t[a] == s[Origin(i, a)] {
      if a >= i { assert t[(a + 1) - 1] == s[a + 1]; }
    }
  }

  /** Delete keeps every uniqueness property: it only removes a record. */
  lemma DeletePreservesUniqueness(s: Store, secret: string, requestUrl: string)
    ensures var t := DeleteUrl(s, secret, requestUrl).store;
            && (ActiveKeysUnique(s) ==> ActiveKeysUnique(t))
            && (SecretsUnique(s) ==> SecretsUnique(t))
            && (IdsUnique(s) ==> IdsUnique(t))
  {
    var r := DeleteUrl(s, secret, requestUrl);
    if r.out.Success? {
      var i :| IsFirstMatch(s, SecretIs(secret), i) && RemovedAt(s, r.store, i);
      RemovalPreservesUniqueness(s, r.store, i);
    }
  }

  /** With unique secrets, a deleted record is gone for good: admin info and a second delete
      both answer 404. */
  lemma DeleteIsTerminal(s: Store, secret: string, requestUrl: string)
    requires SecretsUnique(s)
    ensures var t := DeleteUrl(s, secret, requestUrl).store;
            && GetUrlAdmin(t, secret, requestUrl) == Failure(RaiseNotFound(requestUrl))
            && DeleteUrl(t, secret, requestUrl) == Step(t, Failure(RaiseNotFound(requestUrl)))
            && DeactivateUrl(t, secret, requestUrl) == Step(t, Failure(RaiseNotFound(requestUrl)))
  {
    var r := DeleteUrl(s, secret, requestUrl);
    if r.out.Success? {
      var i :| IsFirstMatch(s, SecretIs(secret), i) && RemovedAt(s, r.store, i);
      var t := r.store;
      forall a | 0 <= a < |t| ensures t[a].secretKey != secret {
        if a >= i { assert t[(a + 1) - 1] == s[a + 1]; }
      }
    }
  }

  /** With unique active keys, removing record `i` leaves its key on the redirect path
      exactly when that record was inactive and another, active, record holds the key. */
  lemma RemovalKeepsActiveKey(s: Store, t: Store, i: int)
    requires RemovedAt(s, t, i)
    requires ActiveKeysUnique(s)
    ensures HasActiveKey(t, s[i].key) <==> !s[i].isActive && HasActiveKey(s, s[i].key)
  {
    RemovalPreservesUniqueness(s, t, i);
    var k := s[i].key;
    if HasActiveKey(t, k) {
      var a :| 0 <= a < |t| && t[a].key == k && t[a].isActive;
      assert s[Origin(i, a)] == t[a];
    }
    if !s[i].isActive && HasActiveKey(s, k) {
      var b :| 0 <= b < |s| && s[b].key == k && s[b].isActive;
      var a := if b < i then b else b - 1;
      assert Origin(i, a) == b;
      assert t[a] == s[b];
    }
  }

  /** With unique active keys, deleting a record takes its short key off the redirect path
      when the record was active; deleting an inactive record leaves the key as it was. */
  lemma DeletedKeyNotFound(s: Store, secret: string, requestUrl: string, visitUrl: string)
    requires ActiveKeysUnique(s)
    requires HasSecret(s, secret)
    ensures var gone := GetUrlBySecretKey(s, secret).value;
            var t := DeleteUrl(s, secret, requestUrl).store;
            && (ForwardUrlKey(t, gone.key, visitUrl).out.Success?
                <==> !gone.isActive && HasActiveKey(s, gone.key))
            && (gone.isActive ==> ForwardUrlKey(t, gone.key, visitUrl) == Step(t, Failure(RaiseNotFound(visitUrl))))
  {
    var t := DeleteUrl(s, secret, requestUrl).store;
    var i :| IsFirstMatch(s, SecretIs(secret), i) && RemovedAt(s, t, i);
    FirstMatchIsFirst(s, SecretIs(secret), i);
    RemovalKeepsActiveKey(s, t, i);
  }

  /** With unique active keys, switching a link off makes its short key answer 404. */
  lemma DeactivatedKeyNotFound(s: Store, secret: string, requestUrl: string, visitUrl: string)
    requires ActiveKeysUnique(s)
    requires HasSecret(s, secret)
    requires DeactivateUrl(s, secret, requestUrl).out == Success("URL successfully deactivated")
    ensures var t := DeactivateUrl(s, secret, requestUrl).store;
            var key := GetUrlBySecretKey(s, secret).value.key;
            ForwardUrlKey(t, key, visitUrl) == Step(t, Failure(RaiseNotFound(visitUrl)))
  {
    var r := DeactivateUrl(s, secret, requestUrl);
    var i :| IsFirstMatch(s, SecretIs(secret), i) && SameExcept(s, r.store, i)
             && r.store[i] == s[i].(isActive := !s[i].isActive)
             && (r.out.value == "URL successfully deactivated" <==> !r.store[i].isActive);
    FirstMatchIsFirst(s, SecretIs(secret), i);
    var key := s[i].key;
    assert !HasActiveKey(r.store, key);
  }

  /** A fresh link redirects to its target, and each visit adds exactly one click. */
  lemma CreateThenForward(s: Store, targetUrl: string, isUrl: string -> bool,
                          candidates: seq<string>, secret: string, id: int, requestUrl: string)
    requires isUrl(targetUrl) && CanInsert(s, candidates, secret, id)
    ensures var c := CreateUrl(s, targetUrl, isUrl, candidates, secret, id);
            var key := c.out.value.url;
            var v1 := ForwardUrlKey(c.store, key, requestUrl);
            var v2 := ForwardUrlKey(v1.store, key, requestUrl);
            && v1.out == Success(Redirect(targetUrl))
            && v2.out == Success(Redirect(targetUrl))
            && v1.store[|s|].clicks == 1
            && v2.store[|s|].clicks == 2
  {
    var c := CreateUrl(s, targetUrl, isUrl, candidates, secret, id);
    var rec := c.out.value.record;
    var n := |s|;
    assert IsFirstMatch(c.store, ActiveKeyIs(rec.key), n);
    FirstMatchIsFirst(c.store, ActiveKeyIs(rec.key), n);
    var v1 := ForwardUrlKey(c.store, rec.key, requestUrl);
    assert IsFirstMatch(v1.store, ActiveKeyIs(rec.key), n);
    FirstMatchIsFirst(v1.store, ActiveKeyIs(rec.key), n);
  }

  /** The records the public redirect path can see. */
  function ActiveOnly(s: Store): (t: Store)
    ensures forall r :: r in t <==> r in s && r.isActive
  {
    if |s| == 0 then []
    else if s[0].isActive then [s[0]] + ActiveOnly(s[1..])
    else ActiveOnly(s[1..])
  }

  lemma {:induction false} ActiveQueryIgnoresInactive(s: Store, urlKey: string)
    ensures Query(s, ActiveKeyIs(urlKey)) == Query(ActiveOnly(s), ActiveKeyIs(urlKey))
    decreases |s|
  {
    if |s| > 0 {
      ActiveQueryIgnoresInactive(s[1..], urlKey);
      if !Matches(ActiveKeyIs(urlKey), s[0]) {
        assert Query(s, ActiveKeyIs(urlKey)) == Query(s[1..], ActiveKeyIs(urlKey));
        if s[0].isActive {
          var t := ActiveOnly(s);
          assert t[1..] == ActiveOnly(s[1..]);
          assert Query(t, ActiveKeyIs(urlKey)) == Query(t[1..], ActiveKeyIs(urlKey));
        }
      }
    }
  }

  /** Inactive records are invisible to a visitor: the redirect answer is the one the store
      would give with every inactive record removed, so an inactive key and a missing key
      cannot be told apart. */
  lemma ForwardIgnoresInactive(s: Store, urlKey: string, requestUrl: string)
    ensures ForwardUrlKey(s, urlKey, requestUrl).out == ForwardUrlKey(ActiveOnly(s), urlKey, requestUrl).out
  {
    ActiveQueryIgnoresInactive(s, urlKey);
  }

  const ReusedKey: string := "abcdef"

  /** A first link, created active. */
  const FirstLink: Record := Record(1, ReusedKey, "secret-a", "https://a.example", true, 0)

  /** A second link that received the same key while the first was switched off. */
  const SecondLink: Record := Record(2, ReusedKey, "secret-b", "https://b.example", true, 0)

  /** Example step: on the empty store, creating `FirstLink`'s target with `ReusedKey` drawn
      first issues that key to the active record `FirstLink`. */
  lemma FirstCreateIssuesKey(isUrl: string -> bool)
    requires isUrl(FirstLink.targetUrl)
    ensures CanInsert([], [ReusedKey], FirstLink.secretKey, FirstLink.id)
    ensures CreateUrl([], FirstLink.targetUrl, isUrl, [ReusedKey], FirstLink.secretKey, FirstLink.id).store
            == [FirstLink]
  {
    assert KeyGen.ValidKey(ReusedKey);
    assert [ReusedKey][0] == ReusedKey;
  }

  /** Example step: in the store holding only `FirstLink` switched off, creating
      `SecondLink`'s target with `ReusedKey` drawn first issues the same key again. */
  lemma SecondCreateReusesKey(isUrl: string -> bool)
    requires isUrl(SecondLink.targetUrl)
    ensures CanInsert([FirstLink.(isActive := false)], [ReusedKey], SecondLink.secretKey, SecondLink.id)
    ensures CreateUrl([FirstLink.(isActive := false)], SecondLink.targetUrl, isUrl, [ReusedKey],
                      SecondLink.secretKey, SecondLink.id).store
            == [FirstLink.(isActive := false), SecondLink]
  {
    assert KeyGen.ValidKey(ReusedKey);
    assert [ReusedKey][0] == ReusedKey;
    var off := [FirstLink.(isActive := false)];
    assert !HasActiveKey(off, ReusedKey);
    assert !HasSecret(off, SecondLink.secretKey);
  }

  /** Example: insert checks only active records, so a switched-off key is issued again; switching the
      old record back on then leaves two active records with one key. With `.first()` taken
      as store order, the key then sends visitors to the OLD target. Every step is an
      ordinary handler call; the table is taken to have no unique constraint on `key`
      (with one, the second insert's commit would fail instead). */
  lemma ReissuedKeyCollides(isUrl: string -> bool, requestUrl: string)
    requires isUrl(FirstLink.targetUrl) && isUrl(SecondLink.targetUrl)
    ensures CanInsert([], [ReusedKey], FirstLink.secretKey, FirstLink.id)
    ensures CreateUrl([], FirstLink.targetUrl, isUrl, [ReusedKey], FirstLink.secretKey, FirstLink.id).store
            == [FirstLink]
    ensures DeactivateUrl([FirstLink], FirstLink.secretKey, requestUrl)
            == Step([FirstLink.(isActive := false)], Success("URL successfully deactivated"))
    ensures CanInsert([FirstLink.(isActive := false)], [ReusedKey], SecondLink.secretKey, SecondLink.id)
    ensures CreateUrl([FirstLink.(isActive := false)], SecondLink.targetUrl, isUrl, [ReusedKey],
                      SecondLink.secretKey, SecondLink.id).store
            == [FirstLink.(isActive := false), SecondLink]
    ensures DeactivateUrl([FirstLink.(isActive := false), SecondLink], FirstLink.secretKey, requestUrl)
            == Step([FirstLink, SecondLink], Success("URL successfully activated"))
    ensures ActiveKeysUnique([FirstLink]) && ActiveKeysUnique([FirstLink.(isActive := false), SecondLink])
    ensures !ActiveKeysUnique([FirstLink, SecondLink])
    ensures ForwardUrlKey([FirstLink, SecondLink], ReusedKey, requestUrl).out
            == Success(Redirect(FirstLink.targetUrl))
  {
    FirstCreateIssuesKey(isUrl);
    SecondCreateReusesKey(isUrl);
    var both := [FirstLink, SecondLink];
    assert IsFirstMatch(both, ActiveKeyIs(ReusedKey), 0);
    FirstMatchIsFirst(both, ActiveKeyIs(ReusedKey), 0);
  }

  /** Once two active records share a key, switching off one of them through its secret does
      not take the key off the redirect path: the other record, or the switched one if a
      shared secret made the toggle hit the other, is still active. With unique secrets
      the toggle answers "deactivated", so the owner is told the link is off while the key
      still redirects. The lemmas that promise a 404 after switch-off need unique active
      keys for exactly this reason. */
  lemma CollisionOutlivesSwitchOff(s: Store, i: int, j: int, requestUrl: string, visitUrl: string)
    requires 0 <= i < |s| && 0 <= j < |s| && i != j
    requires s[i].isActive && s[j].isActive && s[i].key == s[j].key
    ensures var r := DeactivateUrl(s, s[i].secretKey, requestUrl);
            && r.out.Success?
            && (SecretsUnique(s) ==> r.out == Success("URL successfully deactivated"))
            && ForwardUrlKey(r.store, s[i].key, visitUrl).out.Success?
  {
    var r := DeactivateUrl(s, s[i].secretKey, requestUrl);
    var t := r.store;
    var m :| IsFirstMatch(s, SecretIs(s[i].secretKey), m) && SameExcept(s, t, m)
             && t[m] == s[m].(isActive := !s[m].isActive)
             && (r.out.value == "URL successfully deactivated" <==> !t[m].isActive);
    if m == j { assert t[i] == s[i]; } else { assert t[j] == s[j]; }
  }

  /** Once two active records share a key, deleting one of them through its secret answers
      success, yet the key still redirects: one of the two records survives. The lemma that
      promises a 404 after delete needs unique active keys for exactly this reason. */
  lemma CollisionOutlivesDelete(s: Store, i: int, j: int, requestUrl: string, visitUrl: string)
    requires 0 <= i < |s| && 0 <= j < |s| && i != j
    requires s[i].isActive && s[j].isActive && s[i].key == s[j].key
    ensures var r := DeleteUrl(s, s[i].secretKey, requestUrl);
            && r.out == Success("URL successfully deleted")
            && ForwardUrlKey(r.store, s[i].key, visitUrl).out.Success?
  {
    var t := DeleteUrl(s, s[i].secretKey, requestUrl).store;
    var m :| IsFirstMatch(s, SecretIs(s[i].secretKey), m) && RemovedAt(s, t, m);
    RemovalPreservesUniqueness(s, t, m);
    var c := if m == j then i else j;
    var a := if c < m then c else c - 1;
    assert Origin(m, a) == c;
    assert t[a] == s[c];
  }

  /** Example of both: in the store `[FirstLink, SecondLink]`, switching off or deleting
      `FirstLink` leaves `ReusedKey` redirecting to `SecondLink`'s target. */
  lemma CollisionOutlivesSwitchOffExample(requestUrl: string, visitUrl: string)
    ensures DeactivateUrl([FirstLink, SecondLink], FirstLink.secretKey, requestUrl)
            == Step([FirstLink.(isActive := false), SecondLink], Success("URL successfully deactivated"))
    ensures ForwardUrlKey([FirstLink.(isActive := false), SecondLink], ReusedKey, visitUrl).out
            == Success(Redirect(SecondLink.targetUrl))
    ensures DeleteUrl([FirstLink, SecondLink], FirstLink.secretKey, requestUrl)
            == Step([SecondLink], Success("URL successfully deleted"))
    ensures ForwardUrlKey([SecondLink], ReusedKey, visitUrl).out == Success(Redirect(SecondLink.targetUrl))
  {
    var both := [FirstLink, SecondLink];
    assert IsFirstMatch(both, SecretIs(FirstLink.secretKey), 0);
    FirstMatchIsFirst(both, SecretIs(FirstLink.secretKey), 0);
    var off := [FirstLink.(isActive := false), SecondLink];
    assert IsFirstMatch(off, ActiveKeyIs(ReusedKey), 1);
    FirstMatchIsFirst(off, ActiveKeyIs(ReusedKey), 1);
    assert IsFirstMatch([SecondLink], ActiveKeyIs(ReusedKey), 0);
    FirstMatchIsFirst([SecondLink], ActiveKeyIs(ReusedKey), 0);
    assert both[1..] == [SecondLink];
  }
}
