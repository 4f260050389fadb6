/**
 * The mega-projects sync (src/megaProyectos.js): collect the ids of every
 * fetched mega-project, upsert each one (content columns overwritten,
 * curated columns kept once set), then delete every row whose id was not
 * fetched.
 */
module MegaProjects {
  import opened Wrappers
  import opened Text
  import opened Slug
  import opened Pager
  import opened Report
  import opened Store
  import opened Reconcile

  const Tarea: string := "Sincronización de Mega Proyectos"

  /**
   * One mega-project as the CRM returns it. `latitude`/`longitude` are the
   * coordinate texts the row stores, taken as given. `attributes` is the
   * answer of the attribute lookup: the `Atributo.id` of each related
   * attribute, or None when the lookup throws.
   */
  datatype MegaRecord = MegaRecord(
    id: Option<string>, name: Option<string>, address: Option<string>, slogan: Option<string>,
    description: Option<string>, recordImage: Option<string>, latitude: string, longitude: string,
    attributes: Option<seq<Option<string>>>)

  /** The columns every upsert overwrites. */
  datatype MegaContent = MegaContent(
    slug: string, name: string, address: string, slogan: string, description: string,
    attributes: seq<string>, latitude: string, longitude: string)

  /** A row of the mega-projects table: the content, and the curated columns. */
  datatype MegaRow = MegaRow(
    content: MegaContent, seoTitle: Option<string>, seoMeta: Option<string>, gallery: Jsonb, isPublic: Option<bool>)

  /** The gallery of a new row: the record image as its one entry, or an empty list. */
  function Gallery(image: Option<string>): (g: Jsonb)
    ensures g.JArray?
    ensures NonEmptyArray(g) <==> Present(image)
    ensures Present(image) ==> g.items == [Media(image.value, image.value)]
  {
    if Present(image) then JArray([Media(image.value, image.value)]) else JArray([])
  }

  /** The row `insertMegaProjectIntoPostgres` writes for a record with an id. */
  function RowOf(p: MegaRecord): MegaRow {
    MegaRow(
      MegaContent(
        MegaSlug(p.name), TitleCase(OrElse(p.name, "")),
        OrElse(p.address, ""), OrElse(p.slogan, ""), OrElse(p.description, ""),
        Truthy(p.attributes.GetOr([])), p.latitude, p.longitude),
      None, None, Gallery(p.recordImage), Some(false))
  }

  /**
   * A new row has no SEO text and is not public; its slug is well formed and
   * keeps the letters and digits of the name (or of "sin-nombre"); its name
   * is the title-cased name; its gallery holds the record image exactly when
   * there is one.
   */
  lemma RowOfShape(p: MegaRecord)
    ensures var r := RowOf(p);
      && r.seoTitle.None? && r.seoMeta.None? && r.isPublic == Some(false)
      && WellFormed(r.content.slug)
      && Alnum(r.content.slug) == Alnum(Lower(OrElse(p.name, "sin-nombre")))
      && (!Present(p.name) ==> r.content.slug == "sin-nombre")
      && |r.content.name| == |OrElse(p.name, "")|
      && (forall i :: 0 <= i < |r.content.name| ==> r.content.name[i] == TitleCharAt(OrElse(p.name, ""), i))
      && (NonEmptyArray(r.gallery) <==> Present(p.recordImage))
  {
    SlugifyShape(OrElse(p.name, "sin-nombre"));
    TitleCaseChars(OrElse(p.name, ""));
    if !Present(p.name) {
      MegaSlugDefault(p.name);
    }
  }

  /** Validation: a record without an id is rejected before any lookup or write. */
  function PlanOf(p: MegaRecord): Plan<MegaRow> {
    if Present(p.id) then Upsert(p.id.value, RowOf(p)) else Invalid(OrElse(p.id, "N/A"))
  }

  function Plans(records: seq<MegaRecord>): seq<Plan<MegaRow>> {
    PlanAll(records, PlanOf)
  }

  /** A record is rejected as invalid data exactly when it has no id, and is otherwise written under its id. */
  lemma PlanOfRejects(p: MegaRecord)
    ensures PlanOf(p).Invalid? <==> !Present(p.id)
    ensures PlanOf(p).Upsert? ==> Some(PlanOf(p).key) == OrNull(p.id)
  {
  }

  /**
   * The `ON CONFLICT (id) DO UPDATE` rule: the content comes from the
   * incoming row; SEO texts and `is_public` keep a non-null stored value and
   * the gallery keeps a stored non-empty array.
   */
  function MergeMega(stored: Option<MegaRow>, incoming: MegaRow): (r: MegaRow)
    ensures r.content == incoming.content
    ensures stored.None? ==> r == incoming
    ensures stored.Some? ==> CuratedKept(stored.value, r)
    ensures stored.Some? && stored.value.seoTitle.None? ==> r.seoTitle == incoming.seoTitle
    ensures stored.Some? && stored.value.seoMeta.None? ==> r.seoMeta == incoming.seoMeta
    ensures stored.Some? && stored.value.isPublic.None? ==> r.isPublic == incoming.isPublic
    ensures stored.Some? && !NonEmptyArray(stored.value.gallery) ==> r.gallery == incoming.gallery
  {
    match stored
    case None => incoming
    case Some(s) =>
      MegaRow(incoming.content,
              KeepNonNull(s.seoTitle, incoming.seoTitle), KeepNonNull(s.seoMeta, incoming.seoMeta),
              KeepNonEmptyArray(s.gallery, incoming.gallery), KeepNonNull(s.isPublic, incoming.isPublic))
  }

  /** Every curated value `a` holds (non-null, or a non-empty gallery) is still in `b`. */
  predicate CuratedKept(a: MegaRow, b: MegaRow) {
    && (a.seoTitle.Some? ==> b.seoTitle == a.seoTitle)
    && (a.seoMeta.Some? ==> b.seoMeta == a.seoMeta)
    && (a.isPublic.Some? ==> b.isPublic == a.isPublic)
    && (NonEmptyArray(a.gallery) ==> b.gallery == a.gallery)
  }
  /** Keeping curated values is reflexive and transitive, and every upsert keeps them. */
  lemma CuratedKeptLaws()
    ensures forall r :: CuratedKept(r, r)
    ensures forall a, b, c {:trigger CuratedKept(a, b), CuratedKept(b, c)} :: CuratedKept(a, b) && CuratedKept(b, c) ==> CuratedKept(a, c)
    ensures forall o, n :: CuratedKept(o, MergeMega(Some(o), n))
  {
  }


  /** Phase 1: the ids of the records that have one, as a set. */
  function ActiveIds(records: seq<MegaRecord>): set<string> {
    IdSet(Ids(records))
  }

  /** The id of each record, when it has one. */
  function Ids(records: seq<MegaRecord>): (ids: seq<Option<string>>)
    ensures |ids| == |records| && forall i :: 0 <= i < |records| ==> ids[i] == OrNull(records[i].id)
  {
    seq(|records|, i requires 0 <= i < |records| => OrNull(records[i].id))
  }

  /**
   * The database's answers: the positions whose upsert throws, and whether
   * the DELETE throws.
   */
  datatype MegaDb = MegaDb(fails: set<nat>, sweepFails: bool)

  /** A record whose attribute lookup throws fails like a throwing upsert (`db_error`). */
  function Fails(records: seq<MegaRecord>, db: MegaDb): set<nat> {
    FailsWith(records, db.fails, (r: MegaRecord) => r.attributes.None?)
  }

  datatype RunResult = RunResult(report: Report<Metrics>, table: map<string, MegaRow>)

  /** The report after phase 1 and the page counts of phase 2. */
  function Fetched(records: seq<MegaRecord>): (rep: Report<Metrics>)
    ensures rep.tarea == Tarea && rep.estado == Pendiente && rep.errores == []
    ensures rep.metricas == Metrics(|ActiveIds(records)|, |records|, 0, 0, 0)
  {
    var rep := NewReport(Tarea);
    rep.(metricas := rep.metricas.(obtenidos := |ActiveIds(records)|, procesados := |records|))
  }

  /** The planned keys are exactly the active ids, and with nothing failing all of them are written. */
  lemma PlannedAreActive(records: seq<MegaRecord>, fails: set<nat>)
    ensures PlannedKeys(Plans(records)) == ActiveIds(records)
    ensures AllWritten(Plans(records), 0, fails) ==> Written(Plans(records), 0, fails) == ActiveIds(records)
  {
    var plans := Plans(records);
    var ids := Ids(records);
    forall i | 0 <= i < |plans| && plans[i].Upsert? ensures ids[i] == Some(plans[i].key) {
    }
    forall i | 0 <= i < |plans| && ids[i].Some? ensures plans[i].Upsert? {
    }
    PlannedWithin(plans, ids);
    if AllWritten(plans, 0, fails) {
      AllWrittenCovers(plans, 0, fails);
    }
  }

  /**
   * Phase 2: every record is upserted or fails; it only adds active keys,
   * and when it records no failure it has written every active key.
   */
  function Phase2(records: seq<MegaRecord>, table: map<string, MegaRow>, db: MegaDb): (res: (map<string, MegaRow>, Report<Metrics>))
    ensures var active := ActiveIds(records);
      var m := res.1.metricas;
      && res.1.tarea == Tarea && res.1.estado == Pendiente
      && m.obtenidos == |active| && m.procesados == |records|
      && m.exitosos + m.fallidos == |records| && m.eliminados == 0
      && Consistent(res.1)
      && res.0.Keys - active == table.Keys - active
      && res.0.Keys * active >= table.Keys * active
      && (m.fallidos == 0 ==> active <= res.0.Keys)
  {
    var fails := Fails(records, db);
    PlannedAreActive(records, fails);
    SyncActive(Plans(records), fails, MergeMega, table, Fetched(records), ActiveIds(records))
  }

  /** Phases 2 and 3 on the fetched records: upsert each one, then sweep. */
  function SyncAndSweep(records: seq<MegaRecord>, table: map<string, MegaRow>, db: MegaDb): (res: RunResult)
    ensures res.report.tarea == Tarea
    ensures res.report.estado == ErrorCritico <==> db.sweepFails
    ensures db.sweepFails ==>
      res.table == Phase2(records, table, db).0 && res.report.metricas == Phase2(records, table, db).1.metricas
    ensures res.report.estado != ErrorCritico ==>
      var active := ActiveIds(records);
      var m := res.report.metricas;
      && m.obtenidos == |active| && m.procesados == |records|
      && m.exitosos + m.fallidos == |records|
      && m.eliminados == |table.Keys - active|
      && (res.report.estado == Exitoso <==> m.fallidos == 0)
      && res.report.estado != Pendiente
      && Consistent(res.report)
      && res.table.Keys <= active
      && table.Keys * active <= res.table.Keys
      && (res.report.estado == Exitoso ==> res.table.Keys == active)
  {
    var synced := Phase2(records, table, db);
    var closed := Close(table, ActiveIds(records), synced.0, synced.1, db.sweepFails);
    RunResult(closed.1, closed.0)
  }

  /** Phase 2 is the shared upsert loop over the plans, each row merged into the stored one. */
  lemma Phase2Loop(records: seq<MegaRecord>, table: map<string, MegaRow>, db: MegaDb)
    ensures Phase2(records, table, db) == SyncAll(Plans(records), 0, Fails(records, db), MergeMega, table, Fetched(records))
  {
  }

  /** `run()`: mark, sync, sweep, and the final state. */
  function Run(pages: seq<Page<MegaRecord>>, table: map<string, MegaRow>, db: MegaDb): (res: RunResult)
    ensures res.report.tarea == Tarea
    ensures res.report.estado == ErrorCritico <==> DrainUntilEmpty(pages, 0).failed || db.sweepFails
    ensures DrainUntilEmpty(pages, 0).failed ==>
      res.report.metricas == Metrics(0, 0, 0, 0, 0) && res.table == table
    ensures var records := DrainUntilEmpty(pages, 0).records;
      !DrainUntilEmpty(pages, 0).failed && db.sweepFails ==>
        res.table == Phase2(records, table, db).0 && res.report.metricas == Phase2(records, table, db).1.metricas
    ensures res.report.estado != ErrorCritico ==>
      var records := DrainUntilEmpty(pages, 0).records;
      var active := ActiveIds(records);
      var m := res.report.metricas;
      && m.obtenidos == |active| && m.procesados == |records|
      && m.exitosos + m.fallidos == |records|
      && m.eliminados == |table.Keys - active|
      && (res.report.estado == Exitoso <==> m.fallidos == 0)
      && res.report.estado != Pendiente
      && Consistent(res.report)
      && res.table.Keys <= active
      && table.Keys * active <= res.table.Keys
      && (res.report.estado == Exitoso ==> res.table.Keys == active)
  {
    var drained := DrainUntilEmpty(pages, 0);
    if drained.failed then RunResult(Abort(NewReport(Tarea)), table)
    else SyncAndSweep(drained.records, table, db)
  }

  lemma RunTable(pages: seq<Page<MegaRecord>>, table: map<string, MegaRow>, db: MegaDb)
    requires Run(pages, table, db).report.estado != ErrorCritico
    ensures var records := DrainUntilEmpty(pages, 0).records;
      Run(pages, table, db).table == Sweep(Phase2(records, table, db).0, ActiveIds(records)).table
  {
    var records := DrainUntilEmpty(pages, 0).records;
    assert Run(pages, table, db) == SyncAndSweep(records, table, db);
  }

  /** A row after a run is the row phase 2 left under an active id. */
  lemma RunRow(pages: seq<Page<MegaRecord>>, table: map<string, MegaRow>, db: MegaDb, k: string)
    requires Run(pages, table, db).report.estado != ErrorCritico
    requires k in Run(pages, table, db).table
    ensures var records := DrainUntilEmpty(pages, 0).records;
      && k in ActiveIds(records) && k in Phase2(records, table, db).0
      && Run(pages, table, db).table[k] == Phase2(records, table, db).0[k]
  {
    RunTable(pages, table, db);
  }

  /** Every row the plans would write is unpublished and has no SEO text. */
  lemma PlansUnpublished(records: seq<MegaRecord>)
    ensures forall i :: 0 <= i < |Plans(records)| && Plans(records)[i].Upsert? ==>
      var r := Plans(records)[i].row;
      r.seoTitle.None? && r.seoMeta.None? && r.isPublic == Some(false)
  {
  }

  /** Phase 2 keeps every curated value of a stored row. */
  lemma SyncedKeepsCurated(records: seq<MegaRecord>, table: map<string, MegaRow>, db: MegaDb, k: string)
    requires k in table
    ensures k in Phase2(records, table, db).0 && CuratedKept(table[k], Phase2(records, table, db).0[k])
  {
    Phase2Loop(records, table, db);
    CuratedKeptLaws();
    SyncKeeps(Plans(records), 0, Fails(records, db), MergeMega, table, Fetched(records), k,
              CuratedKept);
  }

  /** Phase 2 never sets `is_public` to true. */
  lemma SyncedUnpublished(records: seq<MegaRecord>, table: map<string, MegaRow>, db: MegaDb, k: string)
    requires k in Phase2(records, table, db).0
    requires k !in table || table[k].isPublic != Some(true)
    ensures Phase2(records, table, db).0[k].isPublic != Some(true)
  {
    Phase2Loop(records, table, db);
    PlansUnpublished(records);
    SyncFresh(Plans(records), 0, Fails(records, db), MergeMega, table, Fetched(records),
              (r: MegaRow) => r.isPublic != Some(true));
  }

  /** A row phase 2 inserts has no SEO text, is not public, and holds the content of its last write. */
  lemma SyncedNewRow(records: seq<MegaRecord>, table: map<string, MegaRow>, db: MegaDb, k: string)
    requires k in Phase2(records, table, db).0 && k !in table
    ensures var r := Phase2(records, table, db).0[k];
      var w := LastWrite(Plans(records), 0, Fails(records, db), k);
      && r.seoTitle.None? && r.seoMeta.None? && r.isPublic == Some(false)
      && w.Some? && r.content == w.value.content
  {
    Phase2Loop(records, table, db);
    var plans := Plans(records);
    var fails := Fails(records, db);
    PlansUnpublished(records);
    SyncFresh(plans, 0, fails, MergeMega, table, Fetched(records),
              (r: MegaRow) => r.seoTitle.None? && r.seoMeta.None? && r.isPublic == Some(false));
    WrittenHasLastWrite(plans, 0, fails, k);
    OverwriteLastWins(plans, 0, fails, MergeMega, table, Fetched(records), k, (r: MegaRow) => r.content);
  }

  /**
   * A stored row whose id is still fetched keeps every curated value it had:
   * a non-null SEO title, SEO description or `is_public`, and a non-empty
   * gallery.
   */
  lemma RunKeepsCurated(pages: seq<Page<MegaRecord>>, table: map<string, MegaRow>, db: MegaDb, k: string)
    requires Run(pages, table, db).report.estado != ErrorCritico
    requires k in table && k in ActiveIds(DrainUntilEmpty(pages, 0).records)
    ensures k in Run(pages, table, db).table
    ensures CuratedKept(table[k], Run(pages, table, db).table[k])
  {
    var records := DrainUntilEmpty(pages, 0).records;
    RunTable(pages, table, db);
    SyncedKeepsCurated(records, table, db, k);
  }

  /**
   * The sync never publishes a mega-project: a row that is public after a
   * run was stored, and public, before it.
   */
  lemma RunNeverPublishes(pages: seq<Page<MegaRecord>>, table: map<string, MegaRow>, db: MegaDb, k: string)
    requires Run(pages, table, db).report.estado != ErrorCritico
    requires k in Run(pages, table, db).table
    requires Run(pages, table, db).table[k].isPublic == Some(true)
    ensures k in table && table[k].isPublic == Some(true)
  {
    var records := DrainUntilEmpty(pages, 0).records;
    RunRow(pages, table, db, k);
    if !(k in table && table[k].isPublic == Some(true)) {
      SyncedUnpublished(records, table, db, k);
    }
  }

  /**
   * A row the run inserts is not public and has no SEO text, and its
   * content is that of the last fetched record with its id whose upsert
   * went through.
   */
  lemma RunNewRows(pages: seq<Page<MegaRecord>>, table: map<string, MegaRow>, db: MegaDb, k: string)
    requires Run(pages, table, db).report.estado != ErrorCritico
    requires k in Run(pages, table, db).table && k !in table
    ensures var records := DrainUntilEmpty(pages, 0).records;
      var r := Run(pages, table, db).table[k];
      var w := LastWrite(Plans(records), 0, Fails(records, db), k);
      && r.seoTitle.None? && r.seoMeta.None? && r.isPublic == Some(false)
      && w.Some? && r.content == w.value.content
  {
    var records := DrainUntilEmpty(pages, 0).records;
    RunRow(pages, table, db, k);
    SyncedNewRow(records, table, db, k);
  }
}
