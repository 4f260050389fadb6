/**
 * Phase 2 of the mark/sync/sweep runs of the attributes and mega-projects
 * syncs: every fetched record, in order, is either rejected before any
 * write (`invalid_data`) or upserted; an upsert may throw (a position in
 * `fails`), which is recorded and the loop goes on.
 */
module Reconcile {
  import opened Wrappers
  import opened Report
  import opened Store

  /** What a record asks of the table. */
  datatype Plan<Row> = Upsert(key: string, row: Row) | Invalid(reference: string)

  function Lookup<K, V>(m: map<K, V>, k: K): Option<V> {
    if k in m then Some(m[k]) else None
  }

  /** One plan per record, in order: each record is validated and mapped on its own. */
  function PlanAll<R, Row>(records: seq<R>, planOf: R -> Plan<Row>): (plans: seq<Plan<Row>>)
    ensures |plans| == |records|
    ensures forall i :: 0 <= i < |records| ==> plans[i] == planOf(records[i])
  {
    seq(|records|, i requires 0 <= i < |records| => planOf(records[i]))
  }

  /**
   * The positions whose write fails: those whose statement the database
   * rejects, and those whose lookup throws before the statement is sent.
   */
  function FailsWith<R>(records: seq<R>, fails: set<nat>, throws: R -> bool): (f: set<nat>)
    ensures forall i :: 0 <= i < |records| ==> (i in f <==> i in fails || throws(records[i]))
  {
    fails + set i | 0 <= i < |records| && throws(records[i])
  }

  /** The keys the plans would write if nothing failed. */
  function PlannedKeys<Row>(plans: seq<Plan<Row>>): set<string> {
    if plans == [] then {}
    else (if plans[0].Upsert? then {plans[0].key} else {}) + PlannedKeys(plans[1..])
  }

  /** A key is planned exactly when some plan upserts it. */
  lemma {:induction false} PlannedKeysAt<Row>(plans: seq<Plan<Row>>)
    ensures forall k :: k in PlannedKeys(plans) <==> exists i :: 0 <= i < |plans| && plans[i].Upsert? && plans[i].key == k
  {
    if plans != [] {
      PlannedKeysAt(plans[1..]);
      forall k | k in PlannedKeys(plans)
        ensures exists i :: 0 <= i < |plans| && plans[i].Upsert? && plans[i].key == k
      {
        if !(plans[0].Upsert? && plans[0].key == k) {
          assert PlannedKeys(plans) == (if plans[0].Upsert? then {plans[0].key} else {}) + PlannedKeys(plans[1..]);
          assert k in PlannedKeys(plans[1..]);
          var i :| 0 <= i < |plans[1..]| && plans[1..][i].Upsert? && plans[1..][i].key == k;
          assert plans[i + 1] == plans[1..][i];
        }
      }
      forall k | exists i :: 0 <= i < |plans| && plans[i].Upsert? && plans[i].key == k
        ensures k in PlannedKeys(plans)
      {
        var i :| 0 <= i < |plans| && plans[i].Upsert? && plans[i].key == k;
        if i > 0 {
          assert plans[1..][i - 1] == plans[i];
        }
      }
    }
  }

  /** The ids present in a sequence of optional ids. */
  function IdSet(ids: seq<Option<string>>): set<string> {
    set i | 0 <= i < |ids| && ids[i].Some? :: ids[i].value
  }

  /**
   * When every upsert is keyed by its record's id, the planned keys are
   * among the ids; and when every record with an id is upserted, they are
   * all of them.
   */
  lemma PlannedWithin<Row>(plans: seq<Plan<Row>>, ids: seq<Option<string>>)
    requires |plans| == |ids|
    requires forall i :: 0 <= i < |plans| && plans[i].Upsert? ==> ids[i] == Some(plans[i].key)
    ensures PlannedKeys(plans) <= IdSet(ids)
    ensures (forall i :: 0 <= i < |plans| && ids[i].Some? ==> plans[i].Upsert?) ==> PlannedKeys(plans) == IdSet(ids)
  {
    PlannedKeysAt(plans);
    forall k | k in PlannedKeys(plans) ensures k in IdSet(ids) {
      var i :| 0 <= i < |plans| && plans[i].Upsert? && plans[i].key == k;
      assert ids[i] == Some(k);
    }
    if forall i :: 0 <= i < |plans| && ids[i].Some? ==> plans[i].Upsert? {
      forall k | k in IdSet(ids) ensures k in PlannedKeys(plans) {
        var i :| 0 <= i < |ids| && ids[i].Some? && ids[i].value == k;
        assert plans[i].Upsert?;
      }
    }
  }

  /** The keys of the upserts that did not throw; `pos` is the position of `plans[0]`. */
  function Written<Row>(plans: seq<Plan<Row>>, pos: nat, fails: set<nat>): (w: set<string>)
    ensures w <= PlannedKeys(plans)
  {
    if plans == [] then {}
    else (if plans[0].Upsert? && pos !in fails then {plans[0].key} else {}) + Written(plans[1..], pos + 1, fails)
  }

  /** Nothing fails: every plan is an upsert at a position outside `fails`. */
  predicate AllWritten<Row>(plans: seq<Plan<Row>>, pos: nat, fails: set<nat>) {
    forall i :: 0 <= i < |plans| ==> plans[i].Upsert? && pos + i !in fails
  }

  /** The row of the last upsert of `k` that did not throw. */
  function LastWrite<Row>(plans: seq<Plan<Row>>, pos: nat, fails: set<nat>, k: string): Option<Row> {
    if plans == [] then None
    else
      match LastWrite(plans[1..], pos + 1, fails, k)
      case Some(r) => Some(r)
      case None => if plans[0].Upsert? && plans[0].key == k && pos !in fails then Some(plans[0].row) else None
  }

  /** With no last write of `k`, no upsert of `k` went through. */
  lemma {:induction false} NoWriteOf<Row>(plans: seq<Plan<Row>>, pos: nat, fails: set<nat>, k: string)
    requires LastWrite(plans, pos, fails, k).None?
    ensures forall j :: 0 <= j < |plans| ==> !(plans[j].Upsert? && plans[j].key == k && pos + j !in fails)
    decreases |plans|
  {
    if plans != [] {
      NoWriteOf(plans[1..], pos + 1, fails, k);
      forall j | 1 <= j < |plans| ensures plans[j] == plans[1..][j - 1] {
      }
    }
  }

  /**
   * The last write of `k` is the row of an upsert of `k` that went through,
   * and no later upsert of `k` went through.
   */
  lemma {:induction false} LastWriteAt<Row>(plans: seq<Plan<Row>>, pos: nat, fails: set<nat>, k: string) returns (i: nat)
    requires LastWrite(plans, pos, fails, k).Some?
    ensures i < |plans| && pos + i !in fails
    ensures plans[i] == Upsert(k, LastWrite(plans, pos, fails, k).value)
    ensures forall j :: i < j < |plans| ==> !(plans[j].Upsert? && plans[j].key == k && pos + j !in fails)
    decreases |plans|
  {
    if LastWrite(plans[1..], pos + 1, fails, k).Some? {
      var t := LastWriteAt(plans[1..], pos + 1, fails, k);
      i := t + 1;
      forall j | i < j < |plans| ensures plans[j] == plans[1..][j - 1] {
      }
    } else {
      NoWriteOf(plans[1..], pos + 1, fails, k);
      i := 0;
      forall j | 0 < j < |plans| ensures plans[j] == plans[1..][j - 1] {
      }
    }
  }

  /**
   * With each plan upserting under its record's id (`ids[i]`, None for a
   * record rejected before any write), the last write of `k` is the row of
   * the last record with id `k` whose upsert went through, whenever one did.
   */
  lemma LastWriteOfId<Row>(plans: seq<Plan<Row>>, fails: set<nat>, ids: seq<Option<string>>, k: string) returns (i: nat)
    requires |plans| == |ids|
    requires forall j :: 0 <= j < |plans| ==> (plans[j].Upsert? <==> ids[j].Some?)
    requires forall j :: 0 <= j < |plans| && plans[j].Upsert? ==> ids[j] == Some(plans[j].key)
    requires exists j :: 0 <= j < |ids| && ids[j] == Some(k) && j !in fails
    ensures i < |plans| && ids[i] == Some(k) && i !in fails
    ensures forall j :: i < j < |ids| && ids[j] == Some(k) ==> j in fails
    ensures LastWrite(plans, 0, fails, k) == Some(plans[i].row)
  {
    if LastWrite(plans, 0, fails, k).None? {
      NoWriteOf(plans, 0, fails, k);
      assert false;
    }
    i := LastWriteAt(plans, 0, fails, k);
    forall j | i < j < |ids| && ids[j] == Some(k) ensures j in fails {
      assert plans[j].Upsert? && plans[j].key == k;
      assert !(0 + j !in fails);
    }
  }

  /**
   * The per-record loop. `merge(stored, incoming)` is the row an upsert
   * leaves: the table's `ON CONFLICT` rule, with `stored == None` for a
   * plain insert.
   */
  function SyncAll<Row>(plans: seq<Plan<Row>>, pos: nat, fails: set<nat>, merge: (Option<Row>, Row) -> Row,
                        table: map<string, Row>, rep: Report<Metrics>): (res: (map<string, Row>, Report<Metrics>))
    ensures res.1.tarea == rep.tarea && res.1.estado == rep.estado
    ensures res.1.metricas.obtenidos == rep.metricas.obtenidos
    ensures res.1.metricas.procesados == rep.metricas.procesados
    ensures res.1.metricas.eliminados == rep.metricas.eliminados
    ensures res.1.metricas.exitosos + res.1.metricas.fallidos == rep.metricas.exitosos + rep.metricas.fallidos + |plans|
    ensures res.1.metricas.fallidos >= rep.metricas.fallidos
    ensures res.1.metricas.fallidos == rep.metricas.fallidos <==> AllWritten(plans, pos, fails)
    ensures Consistent(rep) ==> Consistent(res.1)
    ensures |res.1.errores| == |rep.errores| + (res.1.metricas.fallidos - rep.metricas.fallidos)
    ensures res.0.Keys == table.Keys + Written(plans, pos, fails)
    ensures forall k :: k in table && k !in Written(plans, pos, fails) ==> res.0[k] == table[k]
    decreases |plans|
  {
    if plans == [] then (table, rep)
    else
      var step :=
        match plans[0]
        case Invalid(reference) => (table, Failed(rep, reference, InvalidData))
        case Upsert(k, row) =>
          if pos in fails then (table, Failed(rep, k, DbError))
          else (table[k := merge(Lookup(table, k), row)], Succeeded(rep));
      var res := SyncAll(plans[1..], pos + 1, fails, merge, step.0, step.1);
      AllWrittenCons(plans, pos, fails);
      res
  }

  lemma AllWrittenCons<Row>(plans: seq<Plan<Row>>, pos: nat, fails: set<nat>)
    requires plans != []
    ensures AllWritten(plans, pos, fails) <==>
      plans[0].Upsert? && pos !in fails && AllWritten(plans[1..], pos + 1, fails)
  {
    var tail := plans[1..];
    if AllWritten(plans, pos, fails) {
      forall i | 0 <= i < |tail| ensures tail[i].Upsert? && pos + 1 + i !in fails {
        assert tail[i] == plans[i + 1];
        assert pos + (i + 1) !in fails;
      }
      assert plans[0].Upsert? && pos + 0 !in fails;
      assert AllWritten(tail, pos + 1, fails);
    }
    if plans[0].Upsert? && pos !in fails && AllWritten(tail, pos + 1, fails) {
      forall i | 0 <= i < |plans| ensures plans[i].Upsert? && pos + i !in fails {
        if i > 0 {
          assert plans[i] == tail[i - 1];
          assert pos + 1 + (i - 1) !in fails;
        }
      }
      assert AllWritten(plans, pos, fails);
    }
  }

  /** With nothing failing, the upserts wrote every planned key. */
  lemma {:induction false} AllWrittenCovers<Row>(plans: seq<Plan<Row>>, pos: nat, fails: set<nat>)
    requires AllWritten(plans, pos, fails)
    ensures Written(plans, pos, fails) == PlannedKeys(plans)
    decreases |plans|
  {
    if plans != [] {
      assert AllWritten(plans[1..], pos + 1, fails) by {
        forall i | 0 <= i < |plans[1..]| ensures plans[1..][i].Upsert? && pos + 1 + i !in fails {
          assert plans[1..][i] == plans[i + 1];
        }
      }
      AllWrittenCovers(plans[1..], pos + 1, fails);
    }
  }

  /** A key was written exactly when some upsert of it did not throw. */
  lemma {:induction false} WrittenHasLastWrite<Row>(plans: seq<Plan<Row>>, pos: nat, fails: set<nat>, k: string)
    ensures k in Written(plans, pos, fails) <==> LastWrite(plans, pos, fails, k).Some?
    decreases |plans|
  {
    if plans != [] {
      WrittenHasLastWrite(plans[1..], pos + 1, fails, k);
    }
  }

  /**
   * When every upsert overwrites some view of the row (`view(merge(o, n)) ==
   * view(n)`), each written key shows that view of the row of its last
   * successful upsert: a later record with the same key wins over an earlier
   * one.
   */
  lemma {:induction false} OverwriteLastWins<Row, V>(plans: seq<Plan<Row>>, pos: nat, fails: set<nat>, merge: (Option<Row>, Row) -> Row,
                                                    table: map<string, Row>, rep: Report<Metrics>, k: string, view: Row -> V)
    requires forall o, n :: view(merge(o, n)) == view(n)
    requires LastWrite(plans, pos, fails, k).Some?
    ensures var res := SyncAll(plans, pos, fails, merge, table, rep);
      k in res.0 && view(res.0[k]) == view(LastWrite(plans, pos, fails, k).value)
    decreases |plans|
  {
    var step := Step(plans[0], pos, fails, merge, table, rep);
    SyncAllUnfold(plans, pos, fails, merge, table, rep);
    if LastWrite(plans[1..], pos + 1, fails, k).Some? {
      OverwriteLastWins(plans[1..], pos + 1, fails, merge, step.0, step.1, k, view);
    } else {
      WrittenHasLastWrite(plans[1..], pos + 1, fails, k);
    }
  }

  /** The table and report after the first plan; `SyncAll` goes on from here. */
  function Step<Row>(plan: Plan<Row>, pos: nat, fails: set<nat>, merge: (Option<Row>, Row) -> Row,
                     table: map<string, Row>, rep: Report<Metrics>): (map<string, Row>, Report<Metrics>) {
    match plan
    case Invalid(reference) => (table, Failed(rep, reference, InvalidData))
    case Upsert(k, row) =>
      if pos in fails then (table, Failed(rep, k, DbError))
      else (table[k := merge(Lookup(table, k), row)], Succeeded(rep))
  }

  lemma SyncAllUnfold<Row>(plans: seq<Plan<Row>>, pos: nat, fails: set<nat>, merge: (Option<Row>, Row) -> Row,
                           table: map<string, Row>, rep: Report<Metrics>)
    requires plans != []
    ensures var step := Step(plans[0], pos, fails, merge, table, rep);
      SyncAll(plans, pos, fails, merge, table, rep) == SyncAll(plans[1..], pos + 1, fails, merge, step.0, step.1)
  {
  }

  lemma Compose<Row>(keep: (Row, Row) -> bool, x: Row, y: Row, z: Row)
    requires forall a, b, c {:trigger keep(a, b), keep(b, c)} :: keep(a, b) && keep(b, c) ==> keep(a, c)
    requires keep(x, y) && keep(y, z)
    ensures keep(x, z)
  {
  }

  /**
   * A relation that every merge keeps between the stored row and the row it
   * leaves, and that composes, holds between a stored row and the row the
   * whole loop leaves: a stored row is never lost, and what the merge rule
   * preserves survives any number of upserts.
   */
  lemma {:induction false} SyncKeeps<Row>(plans: seq<Plan<Row>>, pos: nat, fails: set<nat>, merge: (Option<Row>, Row) -> Row,
                                         table: map<string, Row>, rep: Report<Metrics>, k: string, keep: (Row, Row) -> bool)
    requires forall r :: keep(r, r)
    requires forall a, b, c {:trigger keep(a, b), keep(b, c)} :: keep(a, b) && keep(b, c) ==> keep(a, c)
    requires forall o, n :: keep(o, merge(Some(o), n))
    requires k in table
    ensures var res := SyncAll(plans, pos, fails, merge, table, rep);
      k in res.0 && keep(table[k], res.0[k])
    decreases |plans|
  {
    if plans != [] {
      var step := Step(plans[0], pos, fails, merge, table, rep);
      SyncAllUnfold(plans, pos, fails, merge, table, rep);
      SyncKeeps(plans[1..], pos + 1, fails, merge, step.0, step.1, k, keep);
      var res := SyncAll(plans[1..], pos + 1, fails, merge, step.0, step.1);
      var x, y, z := table[k], step.0[k], res.0[k];
      assert keep(x, y) && keep(y, z);
      Compose(keep, x, y, z);
    } else {
      assert keep(table[k], table[k]);
    }
  }

  /**
   * A property of rows that every incoming row has and that every merge
   * keeps (from nothing stored, or from a stored row that has it) holds of
   * every row the loop leaves whose stored row had it or that is new.
   */
  lemma {:induction false} SyncFresh<Row>(plans: seq<Plan<Row>>, pos: nat, fails: set<nat>, merge: (Option<Row>, Row) -> Row,
                                         table: map<string, Row>, rep: Report<Metrics>, holds: Row -> bool)
    requires forall i :: 0 <= i < |plans| && plans[i].Upsert? ==> holds(plans[i].row)
    requires forall o: Option<Row>, n :: (o.None? || holds(o.value)) && holds(n) ==> holds(merge(o, n))
    ensures var res := SyncAll(plans, pos, fails, merge, table, rep);
      forall k :: k in res.0 && (k !in table || holds(table[k])) ==> holds(res.0[k])
    decreases |plans|
  {
    if plans != [] {
      var step := Step(plans[0], pos, fails, merge, table, rep);
      SyncAllUnfold(plans, pos, fails, merge, table, rep);
      assert forall i :: 0 <= i < |plans[1..]| && plans[1..][i].Upsert? ==> holds(plans[1..][i].row) by {
        forall i | 0 <= i < |plans[1..]| ensures plans[1..][i] == plans[i + 1] { }
      }
      SyncFresh(plans[1..], pos + 1, fails, merge, step.0, step.1, holds);
      var res := SyncAll(plans, pos, fails, merge, table, rep);
      forall k | k in res.0 && (k !in table || holds(table[k])) ensures holds(res.0[k]) {
        if plans[0].Upsert? && pos !in fails && plans[0].key == k {
          assert holds(plans[0].row);
          assert holds(step.0[k]);
        }
      }
    }
  }

  /**
   * Phase 2 over plans that only upsert active keys and that, when nothing
   * fails, write every one of them: rows outside `active` are left alone,
   * active rows are kept, and with no new failure every active key is in
   * the table.
   */
  function SyncActive<Row>(plans: seq<Plan<Row>>, fails: set<nat>, merge: (Option<Row>, Row) -> Row,
                           table: map<string, Row>, rep: Report<Metrics>, active: set<string>): (res: (map<string, Row>, Report<Metrics>))
    requires PlannedKeys(plans) <= active
    requires AllWritten(plans, 0, fails) ==> Written(plans, 0, fails) == active
    ensures res.1.tarea == rep.tarea && res.1.estado == rep.estado
    ensures res.1.metricas.obtenidos == rep.metricas.obtenidos
    ensures res.1.metricas.procesados == rep.metricas.procesados
    ensures res.1.metricas.eliminados == rep.metricas.eliminados
    ensures res.1.metricas.exitosos + res.1.metricas.fallidos == rep.metricas.exitosos + rep.metricas.fallidos + |plans|
    ensures Consistent(rep) ==> Consistent(res.1)
    ensures res.0.Keys - active == table.Keys - active
    ensures res.0.Keys * active >= table.Keys * active
    ensures res.1.metricas.fallidos == rep.metricas.fallidos ==> active <= res.0.Keys
  {
    SyncAll(plans, 0, fails, merge, table, rep)
  }

  /**
   * Phase 3 after a phase 2 that left the inactive rows alone, kept every
   * active row and, with no failure, wrote every active key: unless the
   * DELETE throws, every inactive row goes and the report closes; a
   * throwing DELETE aborts with the table as phase 2 left it.
   */
  function Close<Row>(table: map<string, Row>, active: set<string>, synced: map<string, Row>,
                      rep: Report<Metrics>, sweepFails: bool): (res: (map<string, Row>, Report<Metrics>))
    requires rep.estado == Pendiente && Consistent(rep) && rep.metricas.eliminados == 0
    requires synced.Keys - active == table.Keys - active
    requires synced.Keys * active >= table.Keys * active
    requires rep.metricas.fallidos == 0 ==> active <= synced.Keys
    ensures res.1.tarea == rep.tarea
    ensures res.1.estado == ErrorCritico <==> sweepFails
    ensures sweepFails ==> res.0 == synced && res.1.metricas == rep.metricas
    ensures !sweepFails ==>
      && res.1.metricas == rep.metricas.(eliminados := |table.Keys - active|)
      && (res.1.estado == Exitoso <==> rep.metricas.fallidos == 0)
      && res.1.estado != Pendiente
      && Consistent(res.1)
      && res.0.Keys <= active
      && table.Keys * active <= res.0.Keys
      && (res.1.estado == Exitoso ==> res.0.Keys == active)
      && forall k :: k in res.0 ==> k in synced && res.0[k] == synced[k]
  {
    if sweepFails then (synced, Abort(rep))
    else
      var swept := Sweep(synced, active);
      assert synced.Keys - active == table.Keys - active;
      (swept.table, Finalize(rep.(metricas := rep.metricas.(eliminados := swept.deleted))))
  }
}
