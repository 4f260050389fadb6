/**
 * The project-attributes sync (src/projectAttributes.js): fetch every
 * attribute, mark the ids of all of them, upsert each valid one (name and
 * lower-cased icon, both overwritten on conflict), then delete every row
 * whose id was not fetched.
 */
module ProjectAttributes {
  import opened Wrappers
  import opened Text
  import opened Pager
  import opened Report
  import opened Reconcile
  import opened Store

  const Tarea: string := "Sincronización de Atributos de Proyecto"

  /** One attribute as the CRM returns it. `id == None` is a null id, on which `toString()` throws. */
  datatype Attribute = Attribute(id: Option<string>, name: Option<string>, icon: Option<string>)

  /** A row of the attributes table, keyed by id. */
  datatype AttributeRow = AttributeRow(name: string, icon: string)

  /** `syncAttributeInPostgres` up to the write: the validation, and the row it writes. */
  function PlanOf(a: Attribute): Plan<AttributeRow> {
    if !Present(a.id) || !Present(a.name) || !Present(a.icon) then Invalid(OrElse(a.id, "N/A"))
    else Upsert(a.id.value, AttributeRow(a.name.value, Lower(a.icon.value)))
  }

  /**
   * An attribute is written exactly when it has an id, a name and an icon;
   * it is written under its id, with its name, and with its icon in lower
   * case (same length, no upper-case letter left, a second lowering changes
   * nothing).
   */
  lemma PlanOfShape(a: Attribute)
    ensures PlanOf(a).Upsert? <==> Present(a.id) && Present(a.name) && Present(a.icon)
    ensures PlanOf(a).Upsert? ==>
      var p := PlanOf(a);
      && p.key == a.id.value && p.row.name == a.name.value
      && |p.row.icon| == |a.icon.value|
      && (forall i :: 0 <= i < |p.row.icon| ==> !IsUpperAscii(p.row.icon[i]))
      && Lower(p.row.icon) == p.row.icon
    ensures PlanOf(a).Invalid? ==> PlanOf(a).reference == OrElse(a.id, "N/A")
  {
    if PlanOf(a).Upsert? {
      LowerIdempotent(a.icon.value);
    }
  }

  /** `ON CONFLICT (id) DO UPDATE SET name = EXCLUDED.name, icon = EXCLUDED.icon` */
  function Overwrite(stored: Option<AttributeRow>, incoming: AttributeRow): AttributeRow {
    incoming
  }

  function Plans(attrs: seq<Attribute>): seq<Plan<AttributeRow>> {
    PlanAll(attrs, PlanOf)
  }

  /** `new Set(attrs.map(a => a.id.toString()))`: None when some id is null, which throws. */
  function ActiveIds(attrs: seq<Attribute>): (r: Option<set<string>>)
    ensures r.None? <==> exists i :: 0 <= i < |attrs| && attrs[i].id.None?
    ensures r.Some? ==> forall k :: k in r.value <==> exists i :: 0 <= i < |attrs| && attrs[i].id == Some(k)
  {
    if exists i :: 0 <= i < |attrs| && attrs[i].id.None? then None
    else Some(set i | 0 <= i < |attrs| :: attrs[i].id.value)
  }

  /** The database's answers: the positions whose upsert throws, and whether the DELETE throws. */
  datatype AttributeDb = AttributeDb(fails: set<nat>, sweepFails: bool)

  datatype RunResult = RunResult(report: Report<Metrics>, table: map<string, AttributeRow>)

  /** The planned keys are ids of fetched attributes, hence active. */
  lemma PlannedAreActive(attrs: seq<Attribute>, active: set<string>)
    requires ActiveIds(attrs) == Some(active)
    ensures PlannedKeys(Plans(attrs)) <= active
    ensures AllWritten(Plans(attrs), 0, {}) ==> PlannedKeys(Plans(attrs)) == active
  {
    var plans := Plans(attrs);
    PlannedKeysAt(plans);
    forall k | k in PlannedKeys(plans) ensures k in active {
      var i :| 0 <= i < |plans| && plans[i].Upsert? && plans[i].key == k;
      assert attrs[i].id == Some(k);
    }
    if AllWritten(plans, 0, {}) {
      forall k | k in active ensures k in PlannedKeys(plans) {
        var i :| 0 <= i < |attrs| && attrs[i].id == Some(k);
        assert plans[i].Upsert?;
      }
    }
  }

  /** Nothing failing means every plan is an upsert, whatever the failure oracle. */
  lemma AllWrittenUpserts(plans: seq<Plan<AttributeRow>>, fails: set<nat>)
    requires AllWritten(plans, 0, fails)
    ensures AllWritten(plans, 0, {})
  {
  }

  /**
   * The sync phase only adds active keys, and when it records no failure it
   * has written every active key.
   */
  lemma SyncedKeys(attrs: seq<Attribute>, active: set<string>, fails: set<nat>,
                   table: map<string, AttributeRow>, rep: Report<Metrics>)
    requires ActiveIds(attrs) == Some(active)
    ensures var synced := SyncAll(Plans(attrs), 0, fails, Overwrite, table, rep);
      && synced.0.Keys - active == table.Keys - active
      && synced.0.Keys * active >= table.Keys * active
      && (synced.1.metricas.fallidos == rep.metricas.fallidos ==> active <= synced.0.Keys)
  {
    var plans := Plans(attrs);
    PlannedAreActive(attrs, active);
    var synced := SyncAll(plans, 0, fails, Overwrite, table, rep);
    if synced.1.metricas.fallidos == rep.metricas.fallidos {
      AllWrittenCovers(plans, 0, fails);
      AllWrittenUpserts(plans, fails);
    }
  }

  /** The report after fetching: the counters `obtenidos` and `procesados` set. */
  function Fetched(attrs: seq<Attribute>): Report<Metrics> {
    Counted(Tarea, |attrs|)
  }

  /**
   * Phase 2: every attribute is upserted or fails, after the counters
   * `obtenidos` and `procesados` are set; it only adds active keys, and when
   * it records no failure it has written every active key.
   */
  function Phase2(attrs: seq<Attribute>, active: set<string>, table: map<string, AttributeRow>,
                  db: AttributeDb): (res: (map<string, AttributeRow>, Report<Metrics>))
    requires ActiveIds(attrs) == Some(active)
    ensures var m := res.1.metricas;
      && res.1.tarea == Tarea && res.1.estado == Pendiente
      && m.obtenidos == |attrs| && m.procesados == |attrs|
      && m.exitosos + m.fallidos == |attrs| && m.eliminados == 0
      && Consistent(res.1)
      && res.0.Keys - active == table.Keys - active
      && res.0.Keys * active >= table.Keys * active
      && (m.fallidos == 0 ==> active <= res.0.Keys)
  {
    SyncedKeys(attrs, active, db.fails, table, Fetched(attrs));
    SyncAll(Plans(attrs), 0, db.fails, Overwrite, table, Fetched(attrs))
  }

  /**
   * Phases 2 and 3 once every id is known: upsert each attribute, then
   * sweep; a throwing DELETE leaves the table and the counters of phase 2.
   */
  function SyncAndSweep(attrs: seq<Attribute>, active: set<string>, table: map<string, AttributeRow>, db: AttributeDb): (res: RunResult)
    requires ActiveIds(attrs) == Some(active)
    ensures res.report.tarea == Tarea
    ensures res.report.estado == ErrorCritico <==> db.sweepFails
    ensures db.sweepFails ==>
      res.table == Phase2(attrs, active, table, db).0 && res.report.metricas == Phase2(attrs, active, table, db).1.metricas
    ensures res.report.estado != ErrorCritico ==>
      var m := res.report.metricas;
      && m.obtenidos == |attrs| && m.procesados == |attrs|
      && m.exitosos + m.fallidos == |attrs|
      && m.eliminados == |table.Keys - active|
      && (res.report.estado == Exitoso <==> m.fallidos == 0)
      && res.report.estado != Pendiente
      && Consistent(res.report)
      && res.table.Keys <= active
      && table.Keys * active <= res.table.Keys
      && (res.report.estado == Exitoso ==> res.table.Keys == active)
  {
    var synced := Phase2(attrs, active, table, db);
    var closed := Close(table, active, synced.0, synced.1, db.sweepFails);
    RunResult(closed.1, closed.0)
  }

  /**
   * `run()`: mark, sync, sweep, and the final state. With no transaction, a
   * run cut short keeps what it did: a failed page request or an attribute
   * without an id touches no row (the latter after setting `obtenidos` and
   * `procesados`), and a throwing DELETE keeps phase 2.
   */
  function Run(pages: seq<Page<Attribute>>, table: map<string, AttributeRow>, db: AttributeDb): (res: RunResult)
    ensures res.report.tarea == Tarea
    ensures var d := DrainWhileMore(pages, 0);
      res.report.estado == ErrorCritico <==> d.failed || ActiveIds(d.records).None? || db.sweepFails
    ensures var d := DrainWhileMore(pages, 0);
      d.failed || ActiveIds(d.records).None? ==> res.table == table
    ensures DrainWhileMore(pages, 0).failed ==> res.report.metricas == Metrics(0, 0, 0, 0, 0)
    ensures var d := DrainWhileMore(pages, 0);
      !d.failed && ActiveIds(d.records).None? ==> res.report.metricas == Metrics(|d.records|, |d.records|, 0, 0, 0)
    ensures var d := DrainWhileMore(pages, 0);
      !d.failed && ActiveIds(d.records).Some? && db.sweepFails ==>
        var synced := Phase2(d.records, ActiveIds(d.records).value, table, db);
        res.table == synced.0 && res.report.metricas == synced.1.metricas
    ensures res.report.estado != ErrorCritico ==>
      var attrs := DrainWhileMore(pages, 0).records;
      var active := ActiveIds(attrs).value;
      var m := res.report.metricas;
      && m.obtenidos == |attrs| && m.procesados == |attrs|
      && m.exitosos + m.fallidos == |attrs|
      && m.eliminados == |table.Keys - active|
      && (res.report.estado == Exitoso <==> m.fallidos == 0)
      && res.report.estado != Pendiente
      && Consistent(res.report)
      && res.table.Keys <= active
      && table.Keys * active <= res.table.Keys
      && (res.report.estado == Exitoso ==> res.table.Keys == active)
  {
    var drained := DrainWhileMore(pages, 0);
    if drained.failed then RunResult(Abort(NewReport(Tarea)), table)
    else
      match ActiveIds(drained.records)
      case None => RunResult(Abort(Fetched(drained.records)), table)
      case Some(active) => SyncAndSweep(drained.records, active, table, db)
  }

  /**
   * After a run that reaches the sweep, each row is either an untouched
   * active row or holds the name and lower-cased icon of the last fetched
   * attribute with its id whose upsert went through.
   */
  lemma RunRows(pages: seq<Page<Attribute>>, table: map<string, AttributeRow>, db: AttributeDb, k: string)
    requires Run(pages, table, db).report.estado != ErrorCritico
    requires k in Run(pages, table, db).table
    ensures var plans := Plans(DrainWhileMore(pages, 0).records);
      var res := Run(pages, table, db).table;
      || (k in table && res[k] == table[k] && LastWrite(plans, 0, db.fails, k).None?)
      || (LastWrite(plans, 0, db.fails, k).Some? && res[k] == LastWrite(plans, 0, db.fails, k).value)
  {
    var attrs := DrainWhileMore(pages, 0).records;
    var rep1 := Fetched(attrs);
    var plans := Plans(attrs);
    var synced := SyncAll(plans, 0, db.fails, Overwrite, table, rep1);
    var active := ActiveIds(attrs).value;
    assert Run(pages, table, db) == SyncAndSweep(attrs, active, table, db);
    assert Run(pages, table, db).table == Sweep(synced.0, active).table;
    WrittenHasLastWrite(plans, 0, db.fails, k);
    if LastWrite(plans, 0, db.fails, k).Some? {
      OverwriteLastWins(plans, 0, db.fails, Overwrite, table, rep1, k, (r: AttributeRow) => r);
    }
  }

  /**
   * An attribute that fails validation but has an id still counts as
   * active: its stored row, if any, survives the sweep.
   */
  lemma InvalidNotSwept(pages: seq<Page<Attribute>>, table: map<string, AttributeRow>, db: AttributeDb, i: nat)
    requires Run(pages, table, db).report.estado != ErrorCritico
    requires i < |DrainWhileMore(pages, 0).records|
    requires var a := DrainWhileMore(pages, 0).records[i]; a.id.Some? && a.id.value in table
    ensures DrainWhileMore(pages, 0).records[i].id.value in Run(pages, table, db).table
  {
  }
}
