/**
 * Table-level primitives shared by the sync modules: the two preservation
 * rules of the `ON CONFLICT ... DO UPDATE` clauses, and the sweep
 * `DELETE ... WHERE key NOT IN (active)` (or `DELETE` of every row when the
 * active set is empty), whose `rowCount` becomes `eliminados`.
 */
module Store {
  import opened Wrappers

  /** One gallery entry, `{ id, url }`. */
  datatype Media = Media(id: string, url: string)

  /** A JSONB column as the merge rules see it: SQL NULL, an array, or any other JSON value. */
  datatype Jsonb = JNull | JArray(items: seq<Media>) | JOther

  /** `CASE WHEN stored IS NOT NULL THEN stored ELSE EXCLUDED END` */
  function KeepNonNull<T>(stored: Option<T>, incoming: Option<T>): (r: Option<T>)
    ensures stored.Some? ==> r == stored
    ensures stored.None? ==> r == incoming
    ensures r.Some? <==> stored.Some? || incoming.Some?
  {
    if stored.Some? then stored else incoming
  }

  /** `jsonb_typeof(x) = 'array' AND jsonb_array_length(x) > 0` */
  predicate NonEmptyArray(j: Jsonb) {
    j.JArray? && |j.items| > 0
  }

  /** `CASE WHEN <stored is a non-empty array> THEN stored ELSE EXCLUDED END` */
  function KeepNonEmptyArray(stored: Jsonb, incoming: Jsonb): (r: Jsonb)
    ensures NonEmptyArray(stored) ==> r == stored
    ensures !NonEmptyArray(stored) ==> r == incoming
    ensures NonEmptyArray(r) <==> NonEmptyArray(stored) || NonEmptyArray(incoming)
  {
    if NonEmptyArray(stored) then stored else incoming
  }

  /** The value a curated column holds after a sequence of upserts carrying `incoming`. */
  function SettleNonNull<T>(stored: Option<T>, incoming: seq<Option<T>>): Option<T>
    decreases |incoming|
  {
    if incoming == [] then stored else SettleNonNull(KeepNonNull(stored, incoming[0]), incoming[1..])
  }

  /**
   * However many upserts follow, a curated column holds the first non-null
   * value it ever received: the stored one if there was one, else the first
   * non-null incoming value.
   */
  lemma {:induction false} SettleNonNullFirst<T>(stored: Option<T>, incoming: seq<Option<T>>)
    ensures stored.Some? ==> SettleNonNull(stored, incoming) == stored
    ensures stored.None? ==>
      (SettleNonNull(stored, incoming).None? <==> forall i :: 0 <= i < |incoming| ==> incoming[i].None?)
    ensures stored.None? && SettleNonNull(stored, incoming).Some? ==>
      exists i :: 0 <= i < |incoming| && SettleNonNull(stored, incoming) == incoming[i]
        && forall j :: 0 <= j < i ==> incoming[j].None?
    decreases |incoming|
  {
    if incoming != [] {
      var tail := incoming[1..];
      SettleNonNullFirst(KeepNonNull(stored, incoming[0]), tail);
      assert forall i :: 1 <= i < |incoming| ==> incoming[i] == tail[i - 1];
      if stored.None? && incoming[0].None? && SettleNonNull(stored, incoming).Some? {
        var i :| 0 <= i < |tail| && SettleNonNull(stored, incoming) == tail[i]
          && forall j :: 0 <= j < i ==> tail[j].None?;
        assert SettleNonNull(stored, incoming) == incoming[i + 1];
      }
    }
  }

  /** The result of a sweep: the rows left, and how many the DELETE removed. */
  datatype Swept<K, R> = Swept(table: map<K, R>, deleted: nat)

  /** Removes every row whose key is not active; with no active key at all, every row. */
  function Sweep<K, R>(table: map<K, R>, active: set<K>): (s: Swept<K, R>)
    ensures s.table.Keys == table.Keys * active
    ensures forall k :: k in s.table ==> s.table[k] == table[k]
    ensures s.deleted == |table.Keys - active|
    ensures s.deleted + |s.table| == |table|
  {
    var gone := table.Keys - active;
    assert table.Keys == (table.Keys * active) + gone;
    if |active| > 0 then
      var kept := map k | k in table && k in active :: table[k];
      assert kept.Keys == table.Keys * active;
      Swept(kept, |gone|)
    else
      assert gone == table.Keys;
      Swept(map[], |table|)
  }

  /** A second sweep with the same active set finds nothing to delete. */
  lemma SweepIdempotent<K, R>(table: map<K, R>, active: set<K>)
    ensures Sweep(Sweep(table, active).table, active) == Swept(Sweep(table, active).table, 0)
  {
    var once := Sweep(table, active).table;
    var twice := Sweep(once, active);
    assert once.Keys - active == {};
    assert twice.table.Keys == once.Keys;
  }
}
