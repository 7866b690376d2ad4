/** The record store of `shortener_app/db.py`: queries over the URL table, the key-retry
    insert and the click counter. Each write is a pure update of the store. */
module Db {
  import opened Wrappers
  import opened Records
  import KeyGen

  /** The WHERE clauses the store issues. */
  datatype Filter =
    | ActiveKeyIs(key: string)   // key == k AND is_active
    | KeyIs(key: string)         // key == k
    | SecretIs(secret: string)   // secret_key == s

  predicate Matches(f: Filter, r: Record) {
    match f
    case ActiveKeyIs(k) => r.key == k && r.isActive
    case KeyIs(k) => r.key == k
    case SecretIs(x) => r.secretKey == x
  }

  /** Position `i` holds the first record the filter selects. */
  predicate IsFirstMatch(s: Store, f: Filter, i: int) {
    0 <= i < |s| && Matches(f, s[i]) && forall j :: 0 <= j < i ==> !Matches(f, s[j])
  }

  /** The position `.first()` picks: the earliest match in store order. */
  function First(s: Store, f: Filter): (r: Option<nat>)
    ensures r.None? <==> forall i :: 0 <= i < |s| ==> !Matches(f, s[i])
    ensures r.Some? ==> IsFirstMatch(s, f, r.value)
  {
    if |s| == 0 then None
    else if Matches(f, s[0]) then Some(0)
    else match First(s[1..], f)
      case None => None
      case Some(i) => Some(i + 1)
  }

  /** `db.query(URL).filter(f).first()`. */
  function Query(s: Store, f: Filter): Option<Record> {
    match First(s, f)
    case None => None
    case Some(i) => Some(s[i])
  }

  /** There is at most one first match. */
  lemma FirstMatchIsFirst(s: Store, f: Filter, i: int)
    requires IsFirstMatch(s, f, i)
    ensures First(s, f) == Some(i)
  {
  }

  function GetActiveUrlByKey(s: Store, urlKey: string): (r: Option<Record>)
    ensures r.None? <==> !HasActiveKey(s, urlKey)
    ensures r.Some? ==> r.value.key == urlKey && r.value.isActive
    ensures r.Some? ==> exists i :: IsFirstMatch(s, ActiveKeyIs(urlKey), i) && s[i] == r.value
  {
    Query(s, ActiveKeyIs(urlKey))
  }

  function GetUrlByKey(s: Store, urlKey: string): (r: Option<Record>)
    ensures r.None? <==> !HasKey(s, urlKey)
    ensures r.Some? ==> r.value.key == urlKey
    ensures r.Some? ==> exists i :: IsFirstMatch(s, KeyIs(urlKey), i) && s[i] == r.value
  {
    Query(s, KeyIs(urlKey))
  }

  function GetUrlBySecretKey(s: Store, secret: string): (r: Option<Record>)
    ensures r.None? <==> !HasSecret(s, secret)
    ensures r.Some? ==> r.value.secretKey == secret
    ensures r.Some? ==> exists i :: IsFirstMatch(s, SecretIs(secret), i) && s[i] == r.value
  {
    Query(s, SecretIs(secret))
  }

  /** Dropping the `is_active` condition can only widen the answer; when the record the
      plain lookup finds is active, both lookups agree. */
  lemma ActiveLookupRefinesKeyLookup(s: Store, urlKey: string)
    ensures GetActiveUrlByKey(s, urlKey).Some? ==> GetUrlByKey(s, urlKey).Some?
    ensures GetUrlByKey(s, urlKey).Some? && GetUrlByKey(s, urlKey).value.isActive
            ==> GetActiveUrlByKey(s, urlKey) == GetUrlByKey(s, urlKey)
  {
    if GetUrlByKey(s, urlKey).Some? && GetUrlByKey(s, urlKey).value.isActive {
      var i := First(s, KeyIs(urlKey)).value;
      assert IsFirstMatch(s, ActiveKeyIs(urlKey), i);
      FirstMatchIsFirst(s, ActiveKeyIs(urlKey), i);
    }
  }

  /** `create_new_db_url_object`: `secret` is the fresh `uuid4` string and `id` the identifier
      the database assigns when the row is flushed. */
  function CreateNewDbUrlObject(targetUrl: string, key: string, secret: string, id: int): (r: Record)
    ensures r.targetUrl == targetUrl && r.key == key && r.secretKey == secret && r.id == id
    ensures r.isActive == DefaultIsActive && r.clicks == DefaultClicks
  {
    Record(id, key, secret, targetUrl, DefaultIsActive, DefaultClicks)
  }

  /** What an insert needs from its environment: the keys `generate_url_key` yields in turn,
      one of which is not held by an active record, a `uuid4` secret no record holds and an
      unused identifier. */
  predicate CanInsert(s: Store, candidates: seq<string>, secret: string, id: int) {
    && (forall i :: 0 <= i < |candidates| ==> KeyGen.ValidKey(candidates[i]))
    && (exists i :: 0 <= i < |candidates| && !HasActiveKey(s, candidates[i]))
    && !HasSecret(s, secret)
    && !HasId(s, id)
  }

  /** The retry loop of `insert_new_url_record`: the position of the first candidate key
      that no active record holds. */
  function FirstFreeCandidate(s: Store, candidates: seq<string>): (n: nat)
    requires exists i :: 0 <= i < |candidates| && !HasActiveKey(s, candidates[i])
    ensures n < |candidates| && !HasActiveKey(s, candidates[n])
    ensures forall j :: 0 <= j < n ==> HasActiveKey(s, candidates[j])
    decreases |candidates|
  {
    if GetActiveUrlByKey(s, candidates[0]).None? then 0
    else
      assert forall i :: 0 < i < |candidates| ==> candidates[i] == candidates[1..][i - 1];
      1 + FirstFreeCandidate(s, candidates[1..])
  }

  /** `insert_new_url_record`: retry keys until one is free among ACTIVE records, then append
      the new record. Inactive records are not consulted, so their keys can be issued again. */
  function InsertNewUrlRecord(s: Store, targetUrl: string, candidates: seq<string>, secret: string, id: int)
    : (r: Step<Record>)
    requires CanInsert(s, candidates, secret, id)
    ensures r.out.targetUrl == targetUrl && r.out.secretKey == secret && r.out.id == id
    ensures r.out.isActive == DefaultIsActive && r.out.clicks == DefaultClicks
    ensures KeyGen.ValidKey(r.out.key) && !HasActiveKey(s, r.out.key)
    ensures exists n :: 0 <= n < |candidates| && r.out.key == candidates[n]
                        && forall j :: 0 <= j < n ==> HasActiveKey(s, candidates[j])
    ensures |r.store| == |s| + 1 && r.store[..|s|] == s && r.store[|s|] == r.out
  {
    var key := candidates[FirstFreeCandidate(s, candidates)];
    var rec := CreateNewDbUrlObject(targetUrl, key, secret, id);
    Step(s + [rec], rec)
  }

  /** A key held only by inactive records is handed out again when it is drawn first. */
  lemma InsertReusesInactiveKey(s: Store, targetUrl: string, candidates: seq<string>, secret: string, id: int)
    requires CanInsert(s, candidates, secret, id)
    requires |candidates| > 0 && !HasActiveKey(s, candidates[0])
    ensures InsertNewUrlRecord(s, targetUrl, candidates, secret, id).out.key == candidates[0]
  {
  }

  /** Insert keeps the table's uniqueness properties: active keys stay unique because the
      chosen key is free among active records, secrets and ids because they are fresh. */
  lemma InsertPreservesUniqueness(s: Store, targetUrl: string, candidates: seq<string>, secret: string, id: int)
    requires CanInsert(s, candidates, secret, id)
    ensures var t := InsertNewUrlRecord(s, targetUrl, candidates, secret, id).store;
            && (ActiveKeysUnique(s) ==> ActiveKeysUnique(t))
            && (SecretsUnique(s) ==> SecretsUnique(t))
            && (IdsUnique(s) ==> IdsUnique(t))
  {
    var r := InsertNewUrlRecord(s, targetUrl, candidates, secret, id);
    var t := r.store;
    forall i | 0 <= i < |s| ensures t[i] == s[i] {
      assert t[..|s|][i] == s[i];
    }
  }

  /** `update_visit_count`: bump the clicks of the first active record with the key. */
  function UpdateVisitCount(s: Store, urlKey: string): (r: Step<Option<Record>>)
    ensures r.out.None? <==> !HasActiveKey(s, urlKey)
    ensures r.out.None? ==> r.store == s
    ensures r.out.Some? ==> exists i :: && IsFirstMatch(s, ActiveKeyIs(urlKey), i)
                                        && SameExcept(s, r.store, i)
                                        && r.store[i] == s[i].(clicks := s[i].clicks + 1)
                                        && r.out.value == r.store[i]
  {
    match First(s, ActiveKeyIs(urlKey))
    case None => Step(s, None)
    case Some(i) =>
      var updated := s[i].(clicks := s[i].clicks + 1);
      Step(s[i := updated], Some(updated))
  }

  /** A visit never lowers a counter and never touches anything but one counter. */
  lemma UpdateVisitCountFrame(s: Store, urlKey: string)
    ensures var t := UpdateVisitCount(s, urlKey).store;
            && |t| == |s|
            && (forall i :: 0 <= i < |s| ==> t[i].clicks >= s[i].clicks)
            && (forall i :: 0 <= i < |s| ==> t[i] == s[i].(clicks := t[i].clicks))
            && (ActiveKeysUnique(s) ==> ActiveKeysUnique(t))
            && (SecretsUnique(s) ==> SecretsUnique(t))
            && (IdsUnique(s) ==> IdsUnique(t))
  {
  }
}
