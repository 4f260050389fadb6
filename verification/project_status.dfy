/**
 * The project-states sync (src/projectStatus.js): read every `Estado` of
 * the commercial projects, insert each distinct name the table lacks under
 * a fresh id (the largest id plus one, counting on), then delete by name
 * every row whose name no project carries any more.
 */
module ProjectStatus {
  import opened Wrappers
  import opened Text
  import opened Pager
  import opened Report
  import opened IdentityIndex
  import opened SqlLiteral

  const Tarea: string := "Sincronización de Estados de Proyecto"

  /** The first id of an empty table. */
  const InitialId: int := 1000000000000000001

  /** A row of `Project_Status`, in the order `SELECT id, name` returns them. */
  datatype StatusRow = StatusRow(id: int, name: string)

  /** The names the table holds. */
  function Names(rows: seq<StatusRow>): set<string> {
    set i | 0 <= i < |rows| :: rows[i].name
  }

  /** The names of the rows, in row order (the insertion order of `dbStateMap`). */
  function NameList(rows: seq<StatusRow>): (l: seq<string>)
    ensures |l| == |rows|
    ensures forall x :: x in l <==> x in Names(rows)
  {
    var l := seq(|rows|, i requires 0 <= i < |rows| => rows[i].name);
    assert forall x :: x in Names(rows) ==> x in l by {
      forall x | x in Names(rows) ensures x in l {
        var i :| 0 <= i < |rows| && rows[i].name == x;
        assert l[i] == x;
      }
    }
    l
  }

  /** The names of `names` outside `present`, in order. */
  function Missing(names: seq<string>, present: set<string>): (r: seq<string>)
    ensures forall x :: x in r <==> x in names && x !in present
    ensures Distinct(names) ==> Distinct(r)
    decreases |names|
  {
    if names == [] then []
    else
      var rest := Missing(names[1..], present);
      assert forall x :: x in names <==> x == names[0] || x in names[1..];
      if names[0] in present then rest
      else
        assert Distinct(names) ==> names[0] !in rest && Distinct(names[1..]) by {
          if Distinct(names) {
            forall j | 0 <= j < |names[1..]| ensures names[1..][j] != names[0] {
              assert names[1..][j] == names[j + 1];
            }
            forall i, j | 0 <= i < j < |names[1..]| ensures names[1..][i] != names[1..][j] {
              assert names[1..][i] == names[i + 1] && names[1..][j] == names[j + 1];
            }
          }
        }
        [names[0]] + rest
  }

  /** The largest id of a non-empty table: `SELECT MAX(id::bigint)`. */
  function MaxId(rows: seq<StatusRow>): (m: int)
    requires rows != []
    ensures forall i :: 0 <= i < |rows| ==> rows[i].id <= m
    ensures exists i :: 0 <= i < |rows| && rows[i].id == m
  {
    if |rows| == 1 then rows[0].id
    else
      var m := MaxId(rows[1..]);
      assert forall i :: 1 <= i < |rows| ==> rows[i] == rows[1..][i - 1];
      var j :| 0 <= j < |rows[1..]| && rows[1..][j].id == m;
      assert rows[j + 1].id == m;
      if rows[0].id > m then rows[0].id else m
  }

  /** The first id to hand out: the largest id plus one, or `InitialId` when the table is empty. */
  function NextId(rows: seq<StatusRow>): (n: int)
    ensures rows == [] ==> n == InitialId
    ensures forall i :: 0 <= i < |rows| ==> rows[i].id < n
    ensures rows != [] ==> exists i :: 0 <= i < |rows| && rows[i].id == n - 1
  {
    if rows == [] then InitialId else MaxId(rows) + 1
  }

  /** The names whose insert went through: those at positions outside `fails`, in order. */
  function Inserted(names: seq<string>, pos: nat, fails: set<nat>): (r: seq<string>)
    ensures |r| <= |names|
    ensures forall x :: x in r ==> x in names
    decreases |names|
  {
    if names == [] then []
    else (if pos in fails then [] else [names[0]]) + Inserted(names[1..], pos + 1, fails)
  }

  /** Rows numbered from `start` on, one per name. */
  function Numbered(names: seq<string>, start: int): (r: seq<StatusRow>)
    ensures |r| == |names|
    ensures forall j :: 0 <= j < |names| ==> r[j] == StatusRow(start + j, names[j])
  {
    seq(|names|, j requires 0 <= j < |names| => StatusRow(start + j, names[j]))
  }

  lemma NumberedCons(x: string, rest: seq<string>, start: int)
    ensures [StatusRow(start, x)] + Numbered(rest, start + 1) == Numbered([x] + rest, start)
  {
    var a := [StatusRow(start, x)] + Numbered(rest, start + 1);
    var b := Numbered([x] + rest, start);
    assert |a| == |b|;
    forall j | 0 <= j < |a| ensures a[j] == b[j] {
      if j > 0 {
        assert ([x] + rest)[j] == rest[j - 1];
      }
    }
  }

  /** What the insert loop leaves: the rows, the report, and the next free id. */
  datatype Inserting = Inserting(rows: seq<StatusRow>, report: Report<Metrics>, next: int)

  /**
   * The insert loop: each name gets the current id, which advances only
   * when the insert goes through; a failed insert is recorded and the loop
   * goes on.
   */
  function InsertAll(names: seq<string>, pos: nat, fails: set<nat>, next: int,
                     rows: seq<StatusRow>, rep: Report<Metrics>): (res: Inserting)
    ensures var ok := Inserted(names, pos, fails);
      && res.rows == rows + Numbered(ok, next)
      && res.next == next + |ok|
    ensures res.report.tarea == rep.tarea && res.report.estado == rep.estado
    ensures var m, m0 := res.report.metricas, rep.metricas;
      && m.obtenidos == m0.obtenidos && m.procesados == m0.procesados && m.eliminados == m0.eliminados
      && m.exitosos == m0.exitosos + |Inserted(names, pos, fails)|
      && m.exitosos + m.fallidos == m0.exitosos + m0.fallidos + |names|
    ensures Consistent(rep) ==> Consistent(res.report)
    decreases |names|
  {
    if names == [] then Inserting(rows, rep, next)
    else if pos in fails then
      InsertAll(names[1..], pos + 1, fails, next, rows, Failed(rep, names[0], DbError))
    else
      var res := InsertAll(names[1..], pos + 1, fails, next + 1, rows + [StatusRow(next, names[0])], Succeeded(rep));
      NumberedCons(names[0], Inserted(names[1..], pos + 1, fails), next);
      res
  }

  /** The rows a `DELETE ... WHERE name IN (listed)` leaves. */
  function Survivors(rows: seq<StatusRow>, listed: set<string>): (r: seq<StatusRow>)
    ensures |r| <= |rows|
    ensures forall x :: x in r <==> x in rows && x.name !in listed
  {
    if rows == [] then []
    else
      var rest := Survivors(rows[1..], listed);
      assert forall x :: x in rows <==> x == rows[0] || x in rows[1..];
      if rows[0].name in listed then rest else [rows[0]] + rest
  }

  /** The positions, from `from` on, of the rows whose name is listed: the rows the DELETE removes. */
  function ListedAt(rows: seq<StatusRow>, listed: set<string>, from: nat): set<int> {
    set i | from <= i < |rows| && rows[i].name in listed
  }

  /** The positions of the rows whose name is listed. */
  function Deleted(rows: seq<StatusRow>, listed: set<string>): set<int> {
    ListedAt(rows, listed, 0)
  }

  /** The DELETE filters row by row: order and duplicate rows are kept. */
  lemma {:induction false} SurvivorsAppend(a: seq<StatusRow>, b: seq<StatusRow>, listed: set<string>)
    ensures Survivors(a + b, listed) == Survivors(a, listed) + Survivors(b, listed)
    ensures |b| == 1 ==> Survivors(b, listed) == if b[0].name in listed then [] else b
    decreases |a|
  {
    if a != [] {
      var head := if a[0].name in listed then [] else [a[0]];
      assert (a + b)[0] == a[0];
      assert (a + b)[1..] == a[1..] + b;
      SurvivorsAppend(a[1..], b, listed);
      SurvivorsCons(a + b, listed);
      SurvivorsCons(a, listed);
      assert head + (Survivors(a[1..], listed) + Survivors(b, listed))
          == (head + Survivors(a[1..], listed)) + Survivors(b, listed);
    } else {
      assert a + b == b;
      assert Survivors(a, listed) == [];
    }
    if |b| == 1 {
      SurvivorsCons(b, listed);
      assert b[1..] == [];
    }
  }

  /** The DELETE decides the first row, then the rest. */
  lemma SurvivorsCons(rows: seq<StatusRow>, listed: set<string>)
    requires rows != []
    ensures Survivors(rows, listed) == (if rows[0].name in listed then [] else [rows[0]]) + Survivors(rows[1..], listed)
  {
  }

  /** The rows a DELETE keeps number the rows minus those whose name is listed. */
  lemma {:induction false} SurvivorsCount(rows: seq<StatusRow>, listed: set<string>, from: nat)
    requires from <= |rows|
    ensures |Survivors(rows[from..], listed)| == |rows| - from - |ListedAt(rows, listed, from)|
    decreases |rows| - from
  {
    if from == |rows| {
      assert ListedAt(rows, listed, from) == {};
    } else {
      SurvivorsCount(rows, listed, from + 1);
      assert rows[from..][1..] == rows[from + 1..];
      assert rows[from..][0] == rows[from];
      var rest := ListedAt(rows, listed, from + 1);
      assert from !in rest;
      if rows[from].name in listed {
        assert ListedAt(rows, listed, from) == {from} + rest;
      } else {
        assert ListedAt(rows, listed, from) == rest;
      }
    }
  }

  /** The set of the names in a list. */
  function SetOf(names: seq<string>): set<string> {
    set x | x in names
  }

  /** The database's answers: the positions (in insert order) whose insert throws, and whether the DELETE throws. */
  datatype StatusDb = StatusDb(insertFails: set<nat>, deleteFails: bool)

  datatype RunResult = RunResult(report: Report<Metrics>, rows: seq<StatusRow>)

  /** Phase 1: the state names of every fetched project, empty ones dropped, duplicates kept. */
  function States(pages: seq<Page<Option<string>>>): seq<string> {
    Truthy(DrainWhileMore(pages, 0).records)
  }

  /** Phase 2: the distinct names the table lacks, in first-occurrence order. */
  function ToInsert(states: seq<string>, rows: seq<StatusRow>): (r: seq<string>)
    ensures Distinct(r)
    ensures forall x :: x in r <==> x in states && x !in Names(rows)
  {
    Missing(Dedup(states), Names(rows))
  }

  /** Phase 3: the distinct names of the table that no project carries any more. */
  function Obsolete(states: seq<string>, rows: seq<StatusRow>): (r: seq<string>)
    ensures forall x :: x in r <==> x in Names(rows) && x !in SetOf(states)
  {
    Missing(Dedup(NameList(rows)), SetOf(states))
  }

  /** The report after phase 1: raw and distinct counts. */
  function Fetched(states: seq<string>): (rep: Report<Metrics>)
    ensures rep.tarea == Tarea && rep.estado == Pendiente && rep.errores == []
    ensures rep.metricas == Metrics(|states|, |SetOf(states)|, 0, 0, 0)
  {
    DedupSize(states);
    var rep := NewReport(Tarea);
    rep.(metricas := rep.metricas.(obtenidos := |states|, procesados := |Dedup(states)|))
  }

  /**
   * Phase 2 on its own: the table holds the old rows followed by the
   * inserted names under consecutive ids, and every name to insert is
   * counted once; nothing is deleted yet.
   */
  function Inserts(states: seq<string>, rows: seq<StatusRow>, db: StatusDb): (ins: Inserting)
    ensures var ok := Inserted(ToInsert(states, rows), 0, db.insertFails);
      && ins.rows == rows + Numbered(ok, NextId(rows))
      && ins.report.metricas.exitosos == |ok|
    ensures ins.report.tarea == Tarea && ins.report.estado == Pendiente && Consistent(ins.report)
    ensures var m := ins.report.metricas;
      && m.obtenidos == |states| && m.procesados == |SetOf(states)|
      && m.exitosos + m.fallidos == |ToInsert(states, rows)|
      && m.eliminados == 0
  {
    InsertAll(ToInsert(states, rows), 0, db.insertFails, NextId(rows), rows, Fetched(states))
  }

  /** Phases 2 and 3 once the names are fetched. */
  function Reconcile(states: seq<string>, rows: seq<StatusRow>, db: StatusDb): RunResult {
    var ins := Inserts(states, rows, db);
    var obsolete := Obsolete(states, rows);
    if obsolete == [] then RunResult(Finalize(ins.report), ins.rows)
    else if db.deleteFails then RunResult(Abort(ins.report), ins.rows)
    else
      match ReadList(InList(obsolete))
      case None => RunResult(Abort(ins.report), ins.rows)
      case Some(listed) =>
        var kept := Survivors(ins.rows, SetOf(listed));
        var rep := ins.report.(metricas := ins.report.metricas.(eliminados := |ins.rows| - |kept|));
        RunResult(Finalize(rep), kept)
  }

  /** `run()` */
  function Run(pages: seq<Page<Option<string>>>, rows: seq<StatusRow>, db: StatusDb): RunResult {
    if DrainWhileMore(pages, 0).failed then RunResult(Abort(NewReport(Tarea)), rows)
    else Reconcile(States(pages), rows, db)
  }

  /**
   * The IN list the DELETE sends reads back as exactly the obsolete names,
   * quotes and all: the SQL text never fails to parse and never names
   * another row.
   */
  lemma DeleteListExact(states: seq<string>, rows: seq<StatusRow>)
    requires Obsolete(states, rows) != []
    ensures ReadList(InList(Obsolete(states, rows))) == Some(Obsolete(states, rows))
  {
    InListRoundTrip(Obsolete(states, rows));
  }

  /**
   * The outcome of a run: `error_critico` exactly when a page request or
   * the DELETE throws; otherwise `obtenidos` counts every non-empty state,
   * `procesados` the distinct ones, each name to insert is counted once as
   * inserted or failed, nothing is deleted when nothing is obsolete, and
   * the state is `exitoso` exactly when no insert failed.
   */
  lemma RunReport(pages: seq<Page<Option<string>>>, rows: seq<StatusRow>, db: StatusDb)
    ensures var res := Run(pages, rows, db).report;
      var states := States(pages);
      var obsolete := Obsolete(states, rows);
      && res.tarea == Tarea
      && (res.estado == ErrorCritico <==> DrainWhileMore(pages, 0).failed || (obsolete != [] && db.deleteFails))
      && (DrainWhileMore(pages, 0).failed ==> res.metricas == Metrics(0, 0, 0, 0, 0))
      && (!DrainWhileMore(pages, 0).failed && obsolete != [] && db.deleteFails ==>
            && res.metricas.obtenidos == |states|
            && res.metricas.procesados == |SetOf(states)|
            && res.metricas.exitosos + res.metricas.fallidos == |ToInsert(states, rows)|
            && res.metricas.eliminados == 0)
      && (res.estado != ErrorCritico ==>
            && res.metricas.obtenidos == |states|
            && res.metricas.procesados == |SetOf(states)|
            && res.metricas.exitosos + res.metricas.fallidos == |ToInsert(states, rows)|
            && (obsolete == [] ==> res.metricas.eliminados == 0)
            && (obsolete != [] ==> res.metricas.eliminados == |Deleted(rows, SetOf(obsolete))|)
            && (res.estado == Exitoso <==> res.metricas.fallidos == 0)
            && res.estado != Pendiente
            && Consistent(res))
  {
    if !DrainWhileMore(pages, 0).failed {
      var states := States(pages);
      if Obsolete(states, rows) != [] {
        DeleteListExact(states, rows);
        if !db.deleteFails {
          DeletedCount(states, rows, db);
        }
      }
    }
  }

  /**
   * A run cut short keeps what it did before the throw, as there is no
   * transaction: a failed page request touches no row and counts nothing;
   * a throwing DELETE leaves the inserted rows and the insert counters,
   * with nothing deleted.
   */
  lemma RunAborted(pages: seq<Page<Option<string>>>, rows: seq<StatusRow>, db: StatusDb)
    ensures DrainWhileMore(pages, 0).failed ==> Run(pages, rows, db).rows == rows
    ensures var states := States(pages);
      var ins := Inserts(states, rows, db);
      !DrainWhileMore(pages, 0).failed && Obsolete(states, rows) != [] && db.deleteFails ==>
        && Run(pages, rows, db).rows == ins.rows
        && Run(pages, rows, db).report.metricas == ins.report.metricas
  {
  }

  /** A successful DELETE counts exactly the stored rows whose name is obsolete; new rows carry fetched names. */
  lemma DeletedCount(states: seq<string>, rows: seq<StatusRow>, db: StatusDb)
    requires Obsolete(states, rows) != [] && !db.deleteFails
    ensures Reconcile(states, rows, db).report.metricas.eliminados == |Deleted(rows, SetOf(Obsolete(states, rows)))|
  {
    var obsolete := Obsolete(states, rows);
    var listed := SetOf(obsolete);
    var toInsert := ToInsert(states, rows);
    var ok := Inserted(toInsert, 0, db.insertFails);
    var ins := Inserts(states, rows, db);
    DeleteListExact(states, rows);
    SurvivorsCount(ins.rows, listed, 0);
    assert ins.rows[0..] == ins.rows;
    forall i | i in ListedAt(ins.rows, listed, 0) ensures i in Deleted(rows, listed) {
      if i >= |rows| {
        assert false;
      } else {
        assert ins.rows[i] == rows[i];
      }
    }
    forall i | i in Deleted(rows, listed) ensures i in ListedAt(ins.rows, listed, 0) {
      assert ins.rows[i] == rows[i];
    }
    assert ListedAt(ins.rows, listed, 0) == Deleted(rows, listed);
  }

  /** Appending numbered rows adds exactly their names. */
  lemma AppendNames(rows: seq<StatusRow>, ok: seq<string>, next: int)
    ensures Names(rows + Numbered(ok, next)) == Names(rows) + SetOf(ok)
  {
    var all := rows + Numbered(ok, next);
    forall x | x in Names(all) ensures x in Names(rows) + SetOf(ok) {
      var i :| 0 <= i < |all| && all[i].name == x;
      if i >= |rows| {
        assert all[i] == Numbered(ok, next)[i - |rows|];
      } else {
        assert all[i] == rows[i];
      }
    }
    forall x | x in Names(rows) + SetOf(ok) ensures x in Names(all) {
      if x in Names(rows) {
        var i :| 0 <= i < |rows| && rows[i].name == x;
        assert all[i] == rows[i];
      } else {
        var j :| 0 <= j < |ok| && ok[j] == x;
        assert all[|rows| + j] == Numbered(ok, next)[j];
      }
    }
  }

  /** The DELETE removes exactly the listed names. */
  lemma SurvivorNames(rows: seq<StatusRow>, listed: set<string>)
    ensures Names(Survivors(rows, listed)) == Names(rows) - listed
  {
    var kept := Survivors(rows, listed);
    forall x | x in Names(kept) ensures x in Names(rows) - listed {
      var i :| 0 <= i < |kept| && kept[i].name == x;
      assert kept[i] in rows;
      var j :| 0 <= j < |rows| && rows[j] == kept[i];
    }
    forall x | x in Names(rows) - listed ensures x in Names(kept) {
      var i :| 0 <= i < |rows| && rows[i].name == x;
      assert rows[i] in kept;
      var j :| 0 <= j < |kept| && kept[j] == rows[i];
    }
  }

  /**
   * Inserted rows get consecutive ids from the largest id plus one (or from
   * `InitialId`), skipping none for a failed insert; each is above every id
   * the table had, so none reuses one.
   */
  lemma InsertIds(names: seq<string>, fails: set<nat>, rows: seq<StatusRow>, rep: Report<Metrics>)
    ensures var ins := InsertAll(names, 0, fails, NextId(rows), rows, rep);
      && |ins.rows| == |rows| + |Inserted(names, 0, fails)|
      && ins.rows[..|rows|] == rows
      && (forall j :: |rows| <= j < |ins.rows| ==> ins.rows[j].id == NextId(rows) + (j - |rows|))
      && (forall i, j :: 0 <= i < |rows| <= j < |ins.rows| ==> ins.rows[i].id < ins.rows[j].id)
      && (rows == [] ==> forall j :: 0 <= j < |ins.rows| ==> ins.rows[j].id == InitialId + j)
  {
    var ins := InsertAll(names, 0, fails, NextId(rows), rows, rep);
    var added := Numbered(Inserted(names, 0, fails), NextId(rows));
    assert ins.rows == rows + added;
    forall j | |rows| <= j < |ins.rows| ensures ins.rows[j].id == NextId(rows) + (j - |rows|) {
      assert ins.rows[j] == added[j - |rows|];
    }
  }

  /** The names in the table once the inserts are done: the old ones and the inserted ones. */
  lemma InsertedNames(states: seq<string>, rows: seq<StatusRow>, db: StatusDb)
    ensures var ins := Inserts(states, rows, db);
      && Names(ins.rows) <= Names(rows) + SetOf(states)
      && (ins.report.metricas.fallidos == 0 ==> Names(ins.rows) == Names(rows) + SetOf(states))
  {
    var toInsert := ToInsert(states, rows);
    var ok := Inserted(toInsert, 0, db.insertFails);
    var ins := Inserts(states, rows, db);
    AppendNames(rows, ok, NextId(rows));
    if ins.report.metricas.fallidos == 0 {
      InsertedFull(toInsert, 0, db.insertFails);
    }
  }

  /**
   * After a run that reaches the end, every name in the table is a fetched
   * state; with no failed insert the table's names are exactly the fetched
   * states.
   */
  lemma RunNames(pages: seq<Page<Option<string>>>, rows: seq<StatusRow>, db: StatusDb)
    requires Run(pages, rows, db).report.estado != ErrorCritico
    ensures var res := Run(pages, rows, db);
      var states := SetOf(States(pages));
      && Names(res.rows) <= states
      && (res.report.metricas.fallidos == 0 ==> Names(res.rows) == states)
  {
    var states := States(pages);
    var ins := Inserts(states, rows, db);
    var obsolete := Obsolete(states, rows);
    RunRows(pages, rows, db);
    InsertedNames(states, rows, db);
    if obsolete != [] {
      KeptNames(states, rows, ins.rows);
    } else {
      assert Names(rows) <= SetOf(states);
    }
  }

  /** The DELETE leaves only fetched names of what the inserts left. */
  lemma KeptNames(states: seq<string>, rows: seq<StatusRow>, inserted: seq<StatusRow>)
    requires Names(inserted) <= Names(rows) + SetOf(states)
    ensures var kept := Names(Survivors(inserted, SetOf(Obsolete(states, rows))));
      && kept <= SetOf(states)
      && (Names(inserted) == Names(rows) + SetOf(states) ==> kept == SetOf(states))
  {
    var obsolete := Obsolete(states, rows);
    SurvivorNames(inserted, SetOf(obsolete));
    assert SetOf(obsolete) == Names(rows) - SetOf(states);
  }

  /**
   * The rows a run that reaches the end leaves: the rows after the inserts,
   * less the obsolete names; the failures counted are those of the inserts.
   */
  lemma RunRows(pages: seq<Page<Option<string>>>, rows: seq<StatusRow>, db: StatusDb)
    requires Run(pages, rows, db).report.estado != ErrorCritico
    ensures var states := States(pages);
      var obsolete := Obsolete(states, rows);
      var ins := Inserts(states, rows, db);
      && !DrainWhileMore(pages, 0).failed
      && Run(pages, rows, db).report.metricas.fallidos == ins.report.metricas.fallidos
      && (obsolete == [] ==> Run(pages, rows, db).rows == ins.rows)
      && (obsolete != [] ==> Run(pages, rows, db).rows == Survivors(ins.rows, SetOf(obsolete)))
  {
    var states := States(pages);
    if Obsolete(states, rows) != [] {
      DeleteListExact(states, rows);
    }
  }

  /** When every name was inserted, no position failed. */
  lemma {:induction false} InsertedFull(names: seq<string>, pos: nat, fails: set<nat>)
    requires |Inserted(names, pos, fails)| == |names|
    ensures Inserted(names, pos, fails) == names
    decreases |names|
  {
    if names != [] {
      assert |Inserted(names[1..], pos + 1, fails)| <= |names| - 1;
      InsertedFull(names[1..], pos + 1, fails);
    }
  }
}
