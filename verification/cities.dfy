/**
 * The cities sync (src/cities.js): fetch every `Ciudad.id`/`Ciudad.Name`
 * pair, drop duplicate ids (the last record wins), clean each name, and
 * upsert it with `is_public = false`. This sync never deletes a row.
 */
module Cities {
  import opened Wrappers
  import opened Text
  import opened Pager
  import opened Report
  import opened IdentityIndex

  const Tarea: string := "Sincronización de Ciudades"

  /** One answer row: `Ciudad.id` and `Ciudad.Name`. */
  datatype City = City(id: Option<string>, name: Option<string>)

  /** A row of the cities table, keyed by id. */
  datatype CityRow = CityRow(name: string, isPublic: bool)

  /** What the database does with the upsert at each position: throw, or answer `rowCount` 0. */
  datatype CityDb = CityDb(fails: set<nat>, noRows: set<nat>)

  /** The records that have an id, keyed by it, in order. */
  function Keyed(records: seq<City>): (pairs: seq<(string, City)>)
    ensures forall i :: 0 <= i < |pairs| ==> pairs[i].1.id == Some(pairs[i].0) && Present(pairs[i].1.id)
  {
    if records == [] then []
    else
      var rest := Keyed(records[1..]);
      if Present(records[0].id) then [(records[0].id.value, records[0])] + rest else rest
  }

  /** The keys of the keyed records are the ids present. */
  lemma {:induction false} KeyedIds(records: seq<City>)
    ensures KeysOf(Keyed(records)) == Ids(records)
  {
    if records != [] {
      var tail := records[1..];
      KeyedIds(tail);
      var pairs := Keyed(records);
      var rest := Keyed(tail);
      assert forall j :: 1 <= j < |records| ==> records[j] == tail[j - 1];
      var head := if Present(records[0].id) then {records[0].id.value} else {};
      assert Ids(records) == head + Ids(tail) by {
        forall k | k in Ids(records) ensures k in head + Ids(tail) {
          var j :| 0 <= j < |records| && Present(records[j].id) && records[j].id.value == k;
          if j > 0 { assert tail[j - 1] == records[j]; }
        }
        forall k | k in Ids(tail) ensures k in Ids(records) {
          var j :| 0 <= j < |tail| && Present(tail[j].id) && tail[j].id.value == k;
          assert records[j + 1] == tail[j];
        }
      }
      if Present(records[0].id) {
        assert pairs == [(records[0].id.value, records[0])] + rest;
        assert forall j :: 1 <= j < |pairs| ==> pairs[j] == rest[j - 1];
        assert KeysOf(pairs) == head + KeysOf(rest) by {
          assert pairs[0].0 == records[0].id.value;
          forall k | k in KeysOf(pairs) ensures k in head + KeysOf(rest) {
            var i :| 0 <= i < |pairs| && pairs[i].0 == k;
            if i > 0 { assert rest[i - 1] == pairs[i]; }
          }
          forall k | k in KeysOf(rest) ensures k in KeysOf(pairs) {
            var i :| 0 <= i < |rest| && rest[i].0 == k;
            assert pairs[i + 1] == rest[i];
          }
        }
      } else {
        assert pairs == rest;
      }
    }
  }

  /** The distinct ids of the records that have one. */
  function Ids(records: seq<City>): set<string> {
    set i | 0 <= i < |records| && Present(records[i].id) :: records[i].id.value
  }

  /** `Array.from(citiesMap.values())`: one record per id, the last one seen. */
  function Unique(records: seq<City>): seq<City> {
    Values(Build(Keyed(records)))
  }

  /** What the loop does with one unique record. */
  datatype Outcome = Wrote(key: string, row: CityRow) | Rejected(reference: string, reason: Reason) | Unreported

  /** The body of the loop over unique cities, for the record at position `pos`. */
  function Classify(c: City, pos: nat, db: CityDb): Outcome {
    if !Present(c.id) || !Present(c.name) then Rejected(OrElse(c.id, "N/A"), InvalidData)
    else if CitySegment(c.name.value) == [] then Rejected(c.id.value, EmptyName)
    else if pos in db.fails then Rejected(c.id.value, DbError)
    else if pos in db.noRows then Unreported
    else Wrote(c.id.value, CityRow(CityName(c.name.value), false))
  }

  /** Every row the loop writes is a cleaned, non-empty city name that is not public. */
  lemma ClassifyWrites(c: City, pos: nat, db: CityDb)
    requires Classify(c, pos, db).Wrote?
    ensures c.id == Some(Classify(c, pos, db).key)
    ensures Classify(c, pos, db).row.name != [] && !Classify(c, pos, db).row.isPublic
    ensures Present(c.name) && Classify(c, pos, db).row.name == CityName(c.name.value)
  {
    CityNameShape(c.name.value);
  }

  /**
   * The fate of one unique record: rejected as invalid exactly when it lacks
   * an id or a name, rejected as blank exactly when its cleaned name is
   * empty, rejected for the database exactly when its upsert throws, and
   * written otherwise unless the upsert reports no row.
   */
  lemma ClassifyCases(c: City, pos: nat, db: CityDb)
    ensures var out := Classify(c, pos, db);
      && (out == Rejected(OrElse(c.id, "N/A"), InvalidData) <==> !Present(c.id) || !Present(c.name))
      && (out.Rejected? && out.reason == EmptyName <==>
            Present(c.id) && Present(c.name) && CityName(c.name.value) == [])
      && (out.Rejected? && out.reason == DbError <==>
            Present(c.id) && Present(c.name) && CityName(c.name.value) != [] && pos in db.fails)
      && (out.Wrote? <==>
            Present(c.id) && Present(c.name) && CityName(c.name.value) != [] && pos !in db.fails && pos !in db.noRows)
  {
    if Present(c.name) {
      CityNameShape(c.name.value);
    }
  }

  /** The outcomes of the loop over unique cities, position by position. */
  function Outcomes(cities: seq<City>, db: CityDb): (outs: seq<Outcome>)
    ensures |outs| == |cities|
    ensures forall i :: 0 <= i < |cities| ==> outs[i] == Classify(cities[i], i, db)
  {
    seq(|cities|, i requires 0 <= i < |cities| => Classify(cities[i], i, db))
  }

  /** What one outcome does to the table and the report. */
  function Apply(out: Outcome, table: map<string, CityRow>, rep: Report<Metrics>)
    : (res: (map<string, CityRow>, Report<Metrics>))
    ensures Consistent(rep) ==> Consistent(res.1)
  {
    match out
    case Wrote(k, row) => (table[k := row], Succeeded(rep))
    case Rejected(reference, reason) => (table, Failed(rep, reference, reason))
    case Unreported => (table, rep)
  }

  /** The loop over unique cities, once each record's outcome is known. */
  function ApplyAll(outs: seq<Outcome>, table: map<string, CityRow>, rep: Report<Metrics>)
    : (res: (map<string, CityRow>, Report<Metrics>))
    ensures res.1.tarea == rep.tarea && res.1.estado == rep.estado
    ensures res.1.metricas.obtenidos == rep.metricas.obtenidos
    ensures res.1.metricas.procesados == rep.metricas.procesados
    ensures res.1.metricas.eliminados == rep.metricas.eliminados
    ensures res.1.metricas.exitosos >= rep.metricas.exitosos && res.1.metricas.fallidos >= rep.metricas.fallidos
    ensures res.1.metricas.exitosos + res.1.metricas.fallidos <= rep.metricas.exitosos + rep.metricas.fallidos + |outs|
    ensures (forall i :: 0 <= i < |outs| ==> !outs[i].Unreported?) ==>
      res.1.metricas.exitosos + res.1.metricas.fallidos == rep.metricas.exitosos + rep.metricas.fallidos + |outs|
    ensures res.1.metricas.fallidos == rep.metricas.fallidos <==> forall i :: 0 <= i < |outs| ==> !outs[i].Rejected?
    ensures Consistent(rep) ==> Consistent(res.1)
    ensures table.Keys <= res.0.Keys
    ensures forall k :: k in res.0 && k !in table ==> exists i :: 0 <= i < |outs| && outs[i].Wrote? && outs[i].key == k
    decreases |outs|
  {
    if outs == [] then (table, rep)
    else
      var step := Apply(outs[0], table, rep);
      var res := ApplyAll(outs[1..], step.0, step.1);
      assert forall i :: 1 <= i < |outs| ==> outs[i] == outs[1..][i - 1];
      assert forall k :: k in res.0 && k !in step.0 ==> exists i :: 0 <= i < |outs[1..]| && outs[1..][i].Wrote? && outs[1..][i].key == k;
      res
  }

  /** A written row is the one the table ends with, unless a later record writes the same id. */
  lemma {:induction false} ApplyAllStores(outs: seq<Outcome>, table: map<string, CityRow>, rep: Report<Metrics>, i: nat)
    requires i < |outs| && outs[i].Wrote?
    requires forall j :: i < j < |outs| && outs[j].Wrote? ==> outs[j].key != outs[i].key
    ensures var res := ApplyAll(outs, table, rep).0;
      outs[i].key in res && res[outs[i].key] == outs[i].row
    decreases |outs|
  {
    var step := Apply(outs[0], table, rep);
    assert forall j :: 1 <= j < |outs| ==> outs[j] == outs[1..][j - 1];
    if i == 0 {
      ApplyAllFrame(outs[1..], step.0, step.1, outs[0].key);
    } else {
      ApplyAllStores(outs[1..], step.0, step.1, i - 1);
    }
  }

  /** A row no later record writes keeps its value. */
  lemma {:induction false} ApplyAllFrame(outs: seq<Outcome>, table: map<string, CityRow>, rep: Report<Metrics>, k: string)
    requires k in table
    requires forall j :: 0 <= j < |outs| && outs[j].Wrote? ==> outs[j].key != k
    ensures k in ApplyAll(outs, table, rep).0 && ApplyAll(outs, table, rep).0[k] == table[k]
    decreases |outs|
  {
    if outs != [] {
      var step := Apply(outs[0], table, rep);
      assert forall j :: 1 <= j < |outs| ==> outs[j] == outs[1..][j - 1];
      ApplyAllFrame(outs[1..], step.0, step.1, k);
    }
  }

  /** `insertCitiesIntoPostgres(cities, reporte)`: nothing at all for an empty answer. */
  function InsertCities(records: seq<City>, db: CityDb, table: map<string, CityRow>, rep: Report<Metrics>)
    : (res: (map<string, CityRow>, Report<Metrics>))
    ensures res.1.tarea == rep.tarea && res.1.estado == rep.estado
    ensures res.1.metricas.obtenidos == rep.metricas.obtenidos
    ensures res.1.metricas.eliminados == rep.metricas.eliminados
    ensures records == [] ==> res == (table, rep)
    ensures records != [] ==> res.1.metricas.procesados == |Ids(records)|
    ensures res.1.metricas.exitosos + res.1.metricas.fallidos <= rep.metricas.exitosos + rep.metricas.fallidos + |Ids(records)|
    ensures db.noRows == {} ==>
      res.1.metricas.exitosos + res.1.metricas.fallidos == rep.metricas.exitosos + rep.metricas.fallidos + |Ids(records)|
    ensures Consistent(rep) ==> Consistent(res.1)
    ensures table.Keys <= res.0.Keys <= table.Keys + Ids(records)
  {
    if records == [] then
      assert Ids(records) == {};
      (table, rep)
    else
      var unique := Unique(records);
      var rep2 := rep.(metricas := rep.metricas.(procesados := |unique|));
      UniqueCount(records);
      UniqueWrites(records, db, table, rep2);
      ApplyAll(Outcomes(unique, db), table, rep2)
  }

  /** The loop over unique records adds only fetched ids, and counts every record when every upsert reports a row. */
  lemma UniqueWrites(records: seq<City>, db: CityDb, table: map<string, CityRow>, rep: Report<Metrics>)
    ensures var outs := Outcomes(Unique(records), db);
      && ApplyAll(outs, table, rep).0.Keys <= table.Keys + Ids(records)
      && (db.noRows == {} ==> forall i :: 0 <= i < |outs| ==> !outs[i].Unreported?)
  {
    var unique := Unique(records);
    var outs := Outcomes(unique, db);
    UniqueIds(records);
    OutcomesWrite(unique, db);
    var res := ApplyAll(outs, table, rep).0;
    forall k | k in res && k !in table ensures k in Ids(records) {
      var i :| 0 <= i < |outs| && outs[i].Wrote? && outs[i].key == k;
      assert unique[i].id == Some(k);
    }
  }

  /** The outcome of a run: the report and the cities table. */
  datatype RunResult = RunResult(report: Report<Metrics>, table: map<string, CityRow>)

  /** `run()`: fetch every page, then `insertCitiesIntoPostgres`, then the final state. */
  function Run(pages: seq<Page<City>>, table: map<string, CityRow>, db: CityDb): (res: RunResult)
    ensures res.report.tarea == Tarea
    ensures res.report.estado == ErrorCritico <==> DrainWhileMore(pages, 0).failed
    ensures res.report.estado == ErrorCritico ==>
      res.table == table && res.report.metricas == Metrics(0, 0, 0, 0, 0) && res.report.errores == [GeneralError]
    ensures res.report.estado != ErrorCritico ==>
      var records := DrainWhileMore(pages, 0).records;
      && res.report.metricas.obtenidos == |records|
      && res.report.metricas.procesados == |Ids(records)|
      && res.report.metricas.eliminados == 0
      && res.report.metricas.exitosos + res.report.metricas.fallidos <= res.report.metricas.procesados
      && (db.noRows == {} ==> res.report.metricas.exitosos + res.report.metricas.fallidos == res.report.metricas.procesados)
      && (res.report.estado == Exitoso <==> res.report.metricas.fallidos == 0)
      && res.report.estado != Pendiente
      && Consistent(res.report)
      && table.Keys <= res.table.Keys <= table.Keys + Ids(records)
  {
    var drained := DrainWhileMore(pages, 0);
    var rep := NewReport(Tarea);
    if drained.failed then RunResult(Abort(rep), table)
    else
      var records := drained.records;
      var rep1 := rep.(metricas := rep.metricas.(obtenidos := |records|));
      var inserted := InsertCities(records, db, table, rep1);
      RunResult(Finalize(inserted.1), inserted.0)
  }

  /** There are as many unique records as distinct ids. */
  lemma UniqueCount(records: seq<City>)
    ensures |Unique(records)| == |Ids(records)|
  {
    BuildSize(Keyed(records));
    KeyedIds(records);
  }

  /** Each unique record is the last record with its id, and carries that id. */
  lemma UniqueIds(records: seq<City>)
    ensures var pairs := Keyed(records); var ix := Build(pairs);
      forall i :: 0 <= i < |Unique(records)| ==>
        && Unique(records)[i].id == Some(ix.order[i])
        && ix.order[i] in Ids(records)
        && LastIndex(pairs, ix.order[i]).Some?
        && Unique(records)[i] == pairs[LastIndex(pairs, ix.order[i]).value].1
  {
    var pairs := Keyed(records);
    var ix := Build(pairs);
    forall i | 0 <= i < |Unique(records)|
      ensures Unique(records)[i].id == Some(ix.order[i]) && ix.order[i] in Ids(records)
      ensures LastIndex(pairs, ix.order[i]).Some? && Unique(records)[i] == pairs[LastIndex(pairs, ix.order[i]).value].1
    {
      var k := ix.order[i];
      assert k in ix.values;
      BuildLastWins(pairs, k);
      var j := LastIndex(pairs, k).value;
      assert pairs[j].1.id == Some(k);
      KeyedIds(records);
      assert k in KeysOf(pairs);
    }
  }

  /** Every written key is the id of the record, and every record is either rejected, unreported or written. */
  lemma OutcomesWrite(cities: seq<City>, db: CityDb)
    ensures var outs := Outcomes(cities, db);
      && (db.noRows == {} ==> forall i :: 0 <= i < |outs| ==> !outs[i].Unreported?)
      && forall i :: 0 <= i < |outs| && outs[i].Wrote? ==> cities[i].id == Some(outs[i].key)
  {
    var outs := Outcomes(cities, db);
    forall i | 0 <= i < |outs| && outs[i].Wrote? ensures cities[i].id == Some(outs[i].key) {
      ClassifyWrites(cities[i], i, db);
    }
  }

  /** The outcomes of the unique records write pairwise different keys. */
  lemma UniqueOutcomes(records: seq<City>, db: CityDb)
    ensures var outs := Outcomes(Unique(records), db);
      && (forall i, j :: 0 <= i < j < |outs| && outs[i].Wrote? && outs[j].Wrote? ==> outs[i].key != outs[j].key)
      && (db.noRows == {} ==> forall i :: 0 <= i < |outs| ==> !outs[i].Unreported?)
  {
    UniqueDistinct(records);
    OutcomesWrite(Unique(records), db);
  }

  /** No two unique records share an id. */
  lemma UniqueDistinct(records: seq<City>)
    ensures var u := Unique(records); forall a, b :: 0 <= a < b < |u| ==> u[a].id != u[b].id
  {
    UniqueIds(records);
  }

  /**
   * An insert pass that records no failure (and where every upsert reports
   * a row) leaves, for every fetched id, the cleaned name of the last record
   * with that id, not public.
   */
  lemma InsertConverges(records: seq<City>, db: CityDb, table: map<string, CityRow>, rep: Report<Metrics>, k: string)
    requires db.noRows == {}
    requires InsertCities(records, db, table, rep).1.metricas.fallidos == rep.metricas.fallidos
    requires k in Ids(records)
    ensures var pairs := Keyed(records);
      var res := InsertCities(records, db, table, rep).0;
      && LastIndex(pairs, k).Some?
      && var last := pairs[LastIndex(pairs, k).value].1;
      && Present(last.name)
      && k in res && res[k] == CityRow(CityName(last.name.value), false)
      && res[k].name != []
  {
    var unique := Unique(records);
    var rep2 := rep.(metricas := rep.metricas.(procesados := |unique|));
    var outs := Outcomes(unique, db);
    var written := ApplyAll(outs, table, rep2);
    assert InsertCities(records, db, table, rep) == written;
    var i := UniquePosition(records, k);
    UniqueOutcomes(records, db);
    assert !outs[i].Rejected? && !outs[i].Unreported?;
    ApplyAllStores(outs, table, rep2, i);
    ClassifyWrites(unique[i], i, db);
  }

  /** Every fetched id has one unique record: the last fetched record with that id. */
  lemma UniquePosition(records: seq<City>, k: string) returns (i: nat)
    requires k in Ids(records)
    ensures var pairs := Keyed(records);
      && i < |Unique(records)| && Unique(records)[i].id == Some(k)
      && LastIndex(pairs, k).Some? && Unique(records)[i] == pairs[LastIndex(pairs, k).value].1
  {
    var pairs := Keyed(records);
    var ix := Build(pairs);
    UniqueIds(records);
    KeyedIds(records);
    BuildSize(pairs);
    assert k in (set x | x in ix.order);
    i :| 0 <= i < |ix.order| && ix.order[i] == k;
  }

  /**
   * A run that ends with state `exitoso` (and where every upsert reports a
   * row) leaves, for every id fetched, the cleaned name of the last record
   * with that id, and `is_public` false.
   */
  lemma RunConverges(pages: seq<Page<City>>, table: map<string, CityRow>, db: CityDb, k: string)
    requires db.noRows == {}
    requires Run(pages, table, db).report.estado == Exitoso
    requires k in Ids(DrainWhileMore(pages, 0).records)
    ensures var records := DrainWhileMore(pages, 0).records;
      var pairs := Keyed(records);
      var res := Run(pages, table, db).table;
      && LastIndex(pairs, k).Some?
      && var last := pairs[LastIndex(pairs, k).value].1;
      && Present(last.name)
      && k in res && res[k] == CityRow(CityName(last.name.value), false)
      && res[k].name != []
  {
    var records := DrainWhileMore(pages, 0).records;
    var rep := NewReport(Tarea);
    var rep1 := rep.(metricas := rep.metricas.(obtenidos := |records|));
    assert Run(pages, table, db) == RunResult(Finalize(InsertCities(records, db, table, rep1).1), InsertCities(records, db, table, rep1).0);
    InsertConverges(records, db, table, rep1, k);
  }
}
