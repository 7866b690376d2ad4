/** The single entity of the service, the URL record, and the table that holds them. */
module Records {

  /** Default of the `is_active` column for a new record. The table definition is not
      part of this model, so this value is an assumption. */
  const DefaultIsActive: bool := true

  /** Default of the `clicks` column for a new record (an assumption, as above). */
  const DefaultClicks: int := 0

  /** One row of the URL table. */
  datatype Record = Record(
    id: int,
    key: string,
    secretKey: string,
    targetUrl: string,
    isActive: bool,
    clicks: int
  )

  /** The table, in the order a query without ORDER BY walks it. */
  type Store = seq<Record>

  /** The store after an operation together with what the operation returned. */
  datatype Step<+T> = Step(store: Store, out: T)

  predicate HasActiveKey(s: Store, key: string) {
    exists i :: 0 <= i < |s| && s[i].key == key && s[i].isActive
  }

  predicate HasKey(s: Store, key: string) {
    exists i :: 0 <= i < |s| && s[i].key == key
  }

  predicate HasSecret(s: Store, secret: string) {
    exists i :: 0 <= i < |s| && s[i].secretKey == secret
  }

  predicate HasId(s: Store, id: int) {
    exists i :: 0 <= i < |s| && s[i].id == id
  }

  /** No two active records share a key: what makes a short link resolve to one target. */
  predicate ActiveKeysUnique(s: Store) {
    forall i, j :: 0 <= i < |s| && 0 <= j < |s| && s[i].isActive && s[j].isActive && s[i].key == s[j].key ==> i == j
  }

  /** No two records share a secret key: the secret alone identifies the owner's record. */
  predicate SecretsUnique(s: Store) {
    forall i, j :: 0 <= i < |s| && 0 <= j < |s| && s[i].secretKey == s[j].secretKey ==> i == j
  }

  predicate IdsUnique(s: Store) {
    forall i, j :: 0 <= i < |s| && 0 <= j < |s| && s[i].id == s[j].id ==> i == j
  }

  /** `t` is `s` with at most the record at position `i` replaced. */
  predicate SameExcept(s: Store, t: Store, i: int) {
    |s| == |t| && forall j :: 0 <= j < |s| && j != i ==> s[j] == t[j]
  }

  /** `t` is `s` with the record at position `i` removed, the others kept in order. */
  predicate RemovedAt(s: Store, t: Store, i: int) {
    && 0 <= i < |s|
    && |t| == |s| - 1
    && (forall j :: 0 <= j < i ==> t[j] == s[j])
    && (forall j :: i < j < |s| ==> t[j - 1] == s[j])
  }
}
