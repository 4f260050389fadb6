/**
 * The commercial-projects sync (src/projects.js): phase 1 collects the ids
 * of every fetched project and of every typology of those projects; phase
 * 2 upserts each project (content overwritten, curated columns kept once
 * set), writes its typologies and the least delivery time and deposit
 * back to it; phase 3 deletes every typology and every project whose id
 * was not collected.
 */
module Projects {
  import opened Wrappers
  import opened Text
  import opened Numbers
  import opened Pager
  import opened Report
  import opened Store
  import opened Reconcile
  import opened Typologies
  import ProjectStatus

  const Tarea: string := "Sincronización de Proyectos y Tipologías"

  /** `Habitaciones` and `Ba_os`: a single value or an array, each item read with `parseInt`. */
  datatype Count = Scalar(value: Option<int>) | Many(items: seq<Option<int>>)

  /** The sales-room lookup's answer, each field `|| null`. */
  datatype SalesRoom = SalesRoom(address: Option<string>, schedule: Option<string>, latitude: Option<string>, longitude: Option<string>)

  /**
   * One project as the CRM returns it, with the answers of the lookups made
   * for it. Integer fields hold `parseInt`'s result (None for NaN); areas
   * and coordinates are the texts the row stores, taken as given.
   * `salesRoom` is None when there is no sales room or its lookup throws;
   * `attributes` (the related attribute ids) is None when that lookup
   * throws; a throwing related-projects lookup answers []; `typologies` is
   * None when the typology fetch throws.
   */
  datatype ProjectRecord = ProjectRecord(
    id: Option<string>, name: Option<string>, slug: Option<string>, slogan: Option<string>,
    address: Option<string>, shortDescription: Option<string>, longDescription: Option<string>,
    sic: Option<string>, city: Option<string>, smmlvCount: Option<int>, priceInSmmlv: bool,
    discount: Option<string>, bonusRef: Option<string>, priceFrom: Option<int>, priceUp: Option<int>,
    kind: Option<string>, estado: Option<string>, highlighted: Option<bool>,
    builtArea: string, privateArea: string, rooms: Count, bathrooms: Count,
    latitude: string, longitude: string, megaProjectId: Option<string>,
    salesRoom: Option<SalesRoom>, attributes: Option<seq<Option<string>>>, related: seq<Option<string>>,
    typologies: Option<seq<Typology>>)

  /** The columns every upsert overwrites. */
  datatype ProjectContent = ProjectContent(
    name: string, slug: string, slogan: string, address: string, city: string,
    shortDescription: string, longDescription: string, sic: string,
    salesRoomAddress: string, salesRoomSchedule: string, salesRoomLatitude: string, salesRoomLongitude: string,
    salaryMinimumCount: int, discount: Option<string>, bonusRef: Option<string>,
    priceFrom: int, priceUp: int, attributes: seq<string>, kind: string, status: seq<string>,
    highlighted: bool, builtArea: string, privateArea: string, rooms: int, bathrooms: int,
    relatedProjects: seq<string>, latitude: string, longitude: string, megaProjectId: Option<string>)

  /**
   * A row of the projects table: the content, the curated columns, and the
   * delivery time and deposit that `syncProjectData` writes back.
   */
  datatype ProjectRow = ProjectRow(
    content: ProjectContent, seoTitle: Option<string>, seoMeta: Option<string>,
    gallery: Jsonb, urbanPlans: Jsonb, workProgress: Jsonb, tour360: Option<string>, isPublic: Option<bool>,
    deliveryTime: int, deposit: int)

  /** `rooms` and `bathrooms`: the largest parsed item of an array (never below 0), or `parseInt(x) || 0`. */
  function CountOf(c: Count): (n: int)
    ensures c.Many? ==> n >= 0
    ensures c.Many? ==> forall i :: 0 <= i < |c.items| && c.items[i].Some? ==> c.items[i].value <= n
    ensures c.Many? && n != 0 ==> exists i :: 0 <= i < |c.items| && c.items[i] == Some(n)
    ensures c.Scalar? ==> n == OrZero(c.value)
  {
    match c
    case Scalar(v) => OrZero(v)
    case Many(items) => MaxParsed(items)
  }

  /** `city`: the capitalised first `/` segment of `Ciudad.Name`, or "" when there is none. */
  function CityOf(city: Option<string>): string {
    if Present(city) then CityName(city.value) else ""
  }

  /**
   * `getStatusObjectFromDb`: the id, as text, of the first state whose name
   * equals the trimmed `Estado` ignoring case; nothing when `Estado` is
   * missing or no state matches. The column holds it as a one-element list.
   */
  function StatusOf(estado: Option<string>, states: seq<ProjectStatus.StatusRow>): (r: seq<string>)
    ensures |r| <= 1
    ensures |r| == 1 ==>
      && Present(estado)
      && exists i :: 0 <= i < |states| && Lower(states[i].name) == Lower(Trim(estado.value)) && r[0] == IntToString(states[i].id)
    ensures r == [] ==>
      || !Present(estado)
      || forall i :: 0 <= i < |states| ==> Lower(states[i].name) != Lower(Trim(estado.value))
    decreases |states|
  {
    if !Present(estado) || states == [] then []
    else if Lower(states[0].name) == Lower(Trim(estado.value)) then [IntToString(states[0].id)]
    else
      var r := StatusOf(estado, states[1..]);
      assert forall i :: 1 <= i < |states| ==> states[i] == states[1..][i - 1];
      r
  }

  /** `salesRoomDetails?.X`: no sales room reads as every field missing. */
  function RoomOf(p: ProjectRecord): SalesRoom {
    p.salesRoom.GetOr(SalesRoom(None, None, None, None))
  }

  /** The content columns `insertProjectIntoPostgres` writes for a record with an id. */
  function ContentOf(p: ProjectRecord, states: seq<ProjectStatus.StatusRow>): ProjectContent {
    ProjectContent(
      TitleCase(OrElse(p.name, "")), OrElse(p.slug, ""), OrElse(p.slogan, ""), OrElse(p.address, ""),
      CityOf(p.city), OrElse(p.shortDescription, ""), OrElse(p.longDescription, ""), OrElse(p.sic, ""),
      OrElse(RoomOf(p).address, ""), OrElse(RoomOf(p).schedule, ""),
      OrElse(RoomOf(p).latitude, "0"), OrElse(RoomOf(p).longitude, "0"),
      if p.priceInSmmlv then OrZero(p.smmlvCount) else 0,
      OrNull(p.discount), OrNull(p.bonusRef), OrZero(p.priceFrom), OrZero(p.priceUp),
      Truthy(p.attributes.GetOr([])), OrElse(p.kind, ""), StatusOf(p.estado, states),
      p.highlighted.GetOr(false), p.builtArea, p.privateArea, CountOf(p.rooms), CountOf(p.bathrooms),
      Truthy(p.related), p.latitude, p.longitude, OrNull(p.megaProjectId))
  }

  /**
   * The row a successful write leaves before the conflict rule: a new row
   * has no SEO texts and no tour, empty galleries, and is not public. When
   * the project has typologies and the write-back goes through, delivery
   * time and deposit are their aggregates; otherwise the 0 the upsert wrote.
   */
  function RowOf(p: ProjectRecord, states: seq<ProjectStatus.StatusRow>, aggregateFails: bool): ProjectRow {
    var agg := Aggregate(p.typologies.GetOr([]));
    var (dt, dep) := if agg.Some? && !aggregateFails then agg.value else (0, 0);
    ProjectRow(ContentOf(p, states), None, None, JArray([]), JArray([]), JArray([]), None, Some(false), dt, dep)
  }

  /**
   * A new row's content: the city is the capitalised first `/` segment of
   * the city field ("" without one); rooms and bathrooms of an array are
   * never negative; the minimum-salary count is 0 unless `Precio_en_SMMLV`
   * is true; the name is title-cased.
   */
  lemma ContentOfShape(p: ProjectRecord, states: seq<ProjectStatus.StatusRow>)
    ensures var c := ContentOf(p, states);
      && (!Present(p.city) ==> c.city == "")
      && (Present(p.city) ==>
            var seg := CitySegment(p.city.value);
            && |c.city| == |seg| && '/' !in c.city
            && (c.city != [] ==> c.city[0] == UpperChar(seg[0]))
            && (forall i :: 1 <= i < |c.city| ==> c.city[i] == LowerChar(seg[i])))
      && (p.rooms.Many? ==> c.rooms >= 0)
      && (p.bathrooms.Many? ==> c.bathrooms >= 0)
      && (p.rooms.Scalar? ==> c.rooms == OrZero(p.rooms.value))
      && (!p.priceInSmmlv ==> c.salaryMinimumCount == 0)
      && (p.priceInSmmlv ==> c.salaryMinimumCount == OrZero(p.smmlvCount))
      && |c.name| == |OrElse(p.name, "")|
      && (forall i :: 0 <= i < |c.name| ==> c.name[i] == TitleCharAt(OrElse(p.name, ""), i))
  {
    if Present(p.city) {
      CityNameShape(p.city.value);
    }
    var s := OrElse(p.name, "");
    TitleCaseChars(s);
    assert ContentOf(p, states).name == TitleCase(s);
  }

  /**
   * The delivery time and deposit a write leaves: the least qualifying
   * values over all of the project's typologies (eligible or not) when it
   * has some and the write-back goes through, 0 otherwise.
   */
  lemma RowOfAggregates(p: ProjectRecord, states: seq<ProjectStatus.StatusRow>, aggregateFails: bool)
    ensures var r := RowOf(p, states, aggregateFails); var ts := p.typologies.GetOr([]);
      && r.seoTitle.None? && r.seoMeta.None? && r.tour360.None? && r.isPublic == Some(false)
      && r.gallery == JArray([]) && r.urbanPlans == JArray([]) && r.workProgress == JArray([])
      && (ts == [] || aggregateFails ==> r.deliveryTime == 0 && r.deposit == 0)
      && (ts != [] && !aggregateFails ==>
            && (forall i :: 0 <= i < |ts| && Qualifies(ts[i].deliveryTime) ==> r.deliveryTime <= ts[i].deliveryTime.value)
            && (r.deliveryTime == 0 <==> forall i :: 0 <= i < |ts| ==> !Qualifies(ts[i].deliveryTime))
            && (forall i :: 0 <= i < |ts| && Qualifies(ts[i].deposit) ==> r.deposit <= ts[i].deposit.value)
            && (r.deposit == 0 <==> forall i :: 0 <= i < |ts| ==> !Qualifies(ts[i].deposit)))
  {
    if p.typologies.GetOr([]) != [] {
      AggregateIsLeast(p.typologies.GetOr([]));
    }
  }

  /** Validation: a record without an id is rejected before any lookup or write. */
  function PlanOf(p: ProjectRecord, states: seq<ProjectStatus.StatusRow>, aggregateFails: bool): Plan<ProjectRow> {
    if Present(p.id) then Upsert(p.id.value, RowOf(p, states, aggregateFails)) else Invalid(OrElse(p.id, ""))
  }

  /**
   * The database's answers: the positions whose project upsert throws, the
   * typology positions that throw per project position, the positions
   * whose write-back of delivery time and deposit throws (and is only
   * logged), and whether each DELETE throws.
   */
  datatype ProjectDb = ProjectDb(
    fails: set<nat>, typologyFails: map<nat, set<nat>>, aggregateFails: set<nat>,
    typologySweepFails: bool, projectSweepFails: bool)

  function Plans(records: seq<ProjectRecord>, states: seq<ProjectStatus.StatusRow>, db: ProjectDb): (plans: seq<Plan<ProjectRow>>)
    ensures |plans| == |records|
    ensures forall i :: 0 <= i < |records| ==> plans[i] == PlanOf(records[i], states, i in db.aggregateFails)
  {
    seq(|records|, i requires 0 <= i < |records| => PlanOf(records[i], states, i in db.aggregateFails))
  }

  /**
   * The `ON CONFLICT (hc) DO UPDATE` rule: the content, delivery time and
   * deposit come from the incoming row; SEO texts, tour and `is_public`
   * keep a non-null stored value, and the three galleries keep a stored
   * non-empty array.
   */
  function MergeProject(stored: Option<ProjectRow>, incoming: ProjectRow): (r: ProjectRow)
    ensures r.content == incoming.content
    ensures r.deliveryTime == incoming.deliveryTime && r.deposit == incoming.deposit
    ensures stored.None? ==> r == incoming
    ensures stored.Some? ==> CuratedKept(stored.value, r)
    ensures stored.Some? && stored.value.seoTitle.None? ==> r.seoTitle == incoming.seoTitle
    ensures stored.Some? && stored.value.seoMeta.None? ==> r.seoMeta == incoming.seoMeta
    ensures stored.Some? && stored.value.tour360.None? ==> r.tour360 == incoming.tour360
    ensures stored.Some? && stored.value.isPublic.None? ==> r.isPublic == incoming.isPublic
    ensures stored.Some? && !NonEmptyArray(stored.value.gallery) ==> r.gallery == incoming.gallery
    ensures stored.Some? && !NonEmptyArray(stored.value.urbanPlans) ==> r.urbanPlans == incoming.urbanPlans
    ensures stored.Some? && !NonEmptyArray(stored.value.workProgress) ==> r.workProgress == incoming.workProgress
  {
    match stored
    case None => incoming
    case Some(s) =>
      ProjectRow(incoming.content,
                 KeepNonNull(s.seoTitle, incoming.seoTitle), KeepNonNull(s.seoMeta, incoming.seoMeta),
                 KeepNonEmptyArray(s.gallery, incoming.gallery), KeepNonEmptyArray(s.urbanPlans, incoming.urbanPlans),
                 KeepNonEmptyArray(s.workProgress, incoming.workProgress),
                 KeepNonNull(s.tour360, incoming.tour360), KeepNonNull(s.isPublic, incoming.isPublic),
                 incoming.deliveryTime, incoming.deposit)
  }

  /** Every curated value `a` holds (non-null, or a non-empty array) is still in `b`. */
  predicate CuratedKept(a: ProjectRow, b: ProjectRow) {
    && (a.seoTitle.Some? ==> b.seoTitle == a.seoTitle)
    && (a.seoMeta.Some? ==> b.seoMeta == a.seoMeta)
    && (a.tour360.Some? ==> b.tour360 == a.tour360)
    && (a.isPublic.Some? ==> b.isPublic == a.isPublic)
    && (NonEmptyArray(a.gallery) ==> b.gallery == a.gallery)
    && (NonEmptyArray(a.urbanPlans) ==> b.urbanPlans == a.urbanPlans)
    && (NonEmptyArray(a.workProgress) ==> b.workProgress == a.workProgress)
  }
  /** Keeping curated values is reflexive and transitive, and every upsert keeps them. */
  lemma CuratedKeptLaws()
    ensures forall r :: CuratedKept(r, r)
    ensures forall a, b, c {:trigger CuratedKept(a, b), CuratedKept(b, c)} :: CuratedKept(a, b) && CuratedKept(b, c) ==> CuratedKept(a, c)
    ensures forall o, n :: CuratedKept(o, MergeProject(Some(o), n))
  {
  }

  // ---------------------------------------------------------------------
  // Phase 1
  // ---------------------------------------------------------------------

  /** Every id `toString()` meets is there, and every typology fetch answered. */
  predicate MarkOk(records: seq<ProjectRecord>) {
    forall i :: 0 <= i < |records| ==>
      && records[i].id.Some? && records[i].typologies.Some?
      && forall j :: 0 <= j < |records[i].typologies.value| ==> records[i].typologies.value[j].id.Some?
  }

  /** The id of each fetched project, as `toString()` reads it. */
  function Ids(records: seq<ProjectRecord>): (ids: seq<Option<string>>)
    ensures |ids| == |records| && forall i :: 0 <= i < |records| ==> ids[i] == records[i].id
  {
    seq(|records|, i requires 0 <= i < |records| => records[i].id)
  }

  /** The ids of the fetched projects. */
  function ActiveProjects(records: seq<ProjectRecord>): set<string> {
    IdSet(Ids(records))
  }

  /** The ids of every typology of every fetched project. */
  function ActiveTypologies(records: seq<ProjectRecord>): set<string> {
    set i, j | 0 <= i < |records| && records[i].typologies.Some? && 0 <= j < |records[i].typologies.value|
                 && records[i].typologies.value[j].id.Some? :: records[i].typologies.value[j].id.value
  }

  /** `tipologias.obtenidas` at the end of phase 1, or where it threw. */
  function Obtained(records: seq<ProjectRecord>): nat {
    if records == [] then 0
    else
      var p := records[0];
      if p.id.None? || p.typologies.None? then 0
      else if exists j :: 0 <= j < |p.typologies.value| && p.typologies.value[j].id.None? then |p.typologies.value|
      else |p.typologies.value| + Obtained(records[1..])
  }

  // ---------------------------------------------------------------------
  // Phase 2
  // ---------------------------------------------------------------------

  /** A record whose attribute lookup throws fails like a throwing upsert (`db_error`). */
  function Fails(records: seq<ProjectRecord>, db: ProjectDb): set<nat> {
    FailsWith(records, db.fails, (r: ProjectRecord) => r.attributes.None?)
  }

  function FailsAt(m: map<nat, set<nat>>, i: nat): set<nat> {
    if i in m then m[i] else {}
  }

  /**
   * The typology side of phase 2 from position `i` on: for each project
   * whose upsert went through and that has typologies, `insertTypologies`,
   * adding the size of its processed set to `procesadas`.
   */
  function TypologyPass(records: seq<ProjectRecord>, i: nat, fails: set<nat>, db: ProjectDb,
                        rows: seq<TypologyRow>, processed: nat): (res: (seq<TypologyRow>, nat))
    ensures res.1 >= processed
    ensures |res.0| >= |rows|
    ensures forall k :: 0 <= k < |rows| ==> res.0[k].projectId == rows[k].projectId && res.0[k].name == rows[k].name
    ensures forall k :: 0 <= k < |rows| && rows[k].projectId !in CalledIds(records, i, fails) ==> res.0[k] == rows[k]
    ensures forall k :: |rows| <= k < |res.0| ==> res.0[k].projectId in CalledIds(records, i, fails)
    decreases |records| - i
  {
    if i >= |records| then (rows, processed)
    else
      var next := Step(records, i, fails, db, rows, processed);
      TypologyPass(records, i + 1, fails, db, next.0, next.1)
  }

  /**
   * Position `i` of the pass: `insertTypologies` for the project when it
   * is called, which touches only rows of that project and appends only
   * rows of it; otherwise nothing.
   */
  function Step(records: seq<ProjectRecord>, i: nat, fails: set<nat>, db: ProjectDb, rows: seq<TypologyRow>, processed: nat)
    : (next: (seq<TypologyRow>, nat))
    requires i < |records|
    ensures next.1 >= processed
    ensures |next.0| >= |rows|
    ensures forall k :: 0 <= k < |rows| ==> next.0[k].projectId == rows[k].projectId && next.0[k].name == rows[k].name
    ensures forall k :: 0 <= k < |rows| && (!Called(records, i, fails) || rows[k].projectId != records[i].id.value) ==>
      next.0[k] == rows[k]
    ensures forall k :: |rows| <= k < |next.0| ==> Called(records, i, fails) && next.0[k].projectId == records[i].id.value
  {
    if Called(records, i, fails) then
      var hc := records[i].id.value;
      var ts := records[i].typologies.value;
      var r := InsertTypologies(hc, ts, FailsAt(db.typologyFails, i), rows);
      assert r == Typologies.Loop(hc, ts, 0, FailsAt(db.typologyFails, i), rows, {});
      (r.rows, processed + |r.processed|)
    else (rows, processed)
  }

  /** The project at position `j` reaches `insertTypologies`: its upsert went through and it has typologies. */
  predicate Called(records: seq<ProjectRecord>, j: nat, fails: set<nat>)
    requires j < |records|
  {
    Present(records[j].id) && j !in fails && records[j].typologies.GetOr([]) != []
  }

  /** The projects whose typologies the pass writes from position `i` on. */
  function CalledIds(records: seq<ProjectRecord>, i: nat, fails: set<nat>): set<string>
    decreases |records| - i
  {
    if i >= |records| then {}
    else (if Called(records, i, fails) then {records[i].id.value} else {}) + CalledIds(records, i + 1, fails)
  }

  /**
   * Project `w` is the last of its id to reach `insertTypologies`, none of
   * its statements throws, and its typology `v` is eligible and the last
   * eligible one with its name.
   */
  predicate LastOfName(records: seq<ProjectRecord>, fails: set<nat>, db: ProjectDb, w: nat, v: nat)
    requires w < |records|
  {
    && Called(records, w, fails)
    && records[w].id.value !in CalledIds(records, w + 1, fails)
    && var ts := records[w].typologies.value;
    && v < |ts| && Eligible(ts[v])
    && NoFailure(ts, 0, FailsAt(db.typologyFails, w))
    && forall u :: v < u < |ts| && Eligible(ts[u]) ==> ts[u].nombre != ts[v].nombre
  }

  /**
   * Across the whole pass, the last typology of a name wins: when project
   * `w` is the last one of its id to reach `insertTypologies`, none of its
   * statements throws, and `v` is its last eligible typology with that
   * name, the pass leaves (project, name) stored with `v`'s id and fields.
   */
  lemma {:induction false} TypologyPassLastWins(records: seq<ProjectRecord>, i: nat, fails: set<nat>, db: ProjectDb,
                                                rows: seq<TypologyRow>, processed: nat, w: nat, v: nat)
    requires i <= w < |records| && LastOfName(records, fails, db, w, v)
    ensures var ts := records[w].typologies.value;
      Settled(TypologyPass(records, i, fails, db, rows, processed).0,
              records[w].id.value, ts[v].nombre.value, ts[v].id.value, FieldsOf(ts[v]))
    decreases w - i
  {
    if i < w {
      var next := Step(records, i, fails, db, rows, processed);
      PassStep(records, i, fails, db, rows, processed);
      TypologyPassLastWins(records, i + 1, fails, db, next.0, next.1, w, v);
    } else {
      LastWinsAt(records, fails, db, rows, processed, w, v);
    }
  }

  /** The pass from project `w` on, when `w` is the last of its id to reach `insertTypologies`. */
  lemma LastWinsAt(records: seq<ProjectRecord>, fails: set<nat>, db: ProjectDb,
                   rows: seq<TypologyRow>, processed: nat, w: nat, v: nat)
    requires w < |records| && LastOfName(records, fails, db, w, v)
    ensures var ts := records[w].typologies.value;
      Settled(TypologyPass(records, w, fails, db, rows, processed).0,
              records[w].id.value, ts[v].nombre.value, ts[v].id.value, FieldsOf(ts[v]))
  {
    var ts := records[w].typologies.value;
    var hc := records[w].id.value;
    var f := FailsAt(db.typologyFails, w);
    var r := InsertTypologies(hc, ts, f, rows);
    assert r == Typologies.Loop(hc, ts, 0, f, rows, {});
    PassStep(records, w, fails, db, rows, processed);
    LastNameWins(hc, ts, 0, f, rows, {}, v);
    assert Settled(r.rows, hc, ts[v].nombre.value, ts[v].id.value, FieldsOf(ts[v]));
    PassKeepsSettled(records, w + 1, fails, db, r.rows, processed + |r.processed|,
                     hc, ts[v].nombre.value, ts[v].id.value, FieldsOf(ts[v]));
  }

  /** One position of the pass. */
  lemma PassStep(records: seq<ProjectRecord>, i: nat, fails: set<nat>, db: ProjectDb, rows: seq<TypologyRow>, processed: nat)
    requires i < |records|
    ensures var next := Step(records, i, fails, db, rows, processed);
      TypologyPass(records, i, fails, db, rows, processed) == TypologyPass(records, i + 1, fails, db, next.0, next.1)
  {
  }

  /** A pass that writes no typology of project `hc` leaves what is settled under it as it is. */
  lemma PassKeepsSettled(records: seq<ProjectRecord>, i: nat, fails: set<nat>, db: ProjectDb,
                         rows: seq<TypologyRow>, processed: nat, hc: string, name: string, id: string, fields: TypologyFields)
    requires hc !in CalledIds(records, i, fails)
    requires Settled(rows, hc, name, id, fields)
    ensures Settled(TypologyPass(records, i, fails, db, rows, processed).0, hc, name, id, fields)
  {
    var after := TypologyPass(records, i, fails, db, rows, processed).0;
    var k0 :| 0 <= k0 < |rows| && Matches(rows[k0], hc, name);
    assert Matches(after[k0], hc, name);
    forall k | 0 <= k < |after| && Matches(after[k], hc, name)
      ensures after[k].id == id && after[k].fields == fields
    {
      assert k < |rows|;
    }
  }

  /** The typologies table after phase 2 of a run whose phase 1 went through. */
  function TypologiesSynced(records: seq<ProjectRecord>, typologies: seq<TypologyRow>, db: ProjectDb): seq<TypologyRow> {
    TypologyPass(records, 0, Fails(records, db), db, typologies, 0).0
  }

  datatype TypologyMetrics = TypologyMetrics(obtenidas: nat, procesadas: nat, eliminadas: nat)

  datatype ProjectMetrics = ProjectMetrics(proyectos: Metrics, tipologias: TypologyMetrics)

  /** The project counters and error entries agree, as in every other report. */
  predicate ConsistentProjects(r: Report<ProjectMetrics>) {
    Consistent(Report(r.tarea, r.estado, r.metricas.proyectos, r.errores))
  }

  function WithTypologies(r: Report<Metrics>, t: TypologyMetrics): (r': Report<ProjectMetrics>)
    ensures r'.tarea == r.tarea && r'.estado == r.estado && r'.errores == r.errores
    ensures r'.metricas == ProjectMetrics(r.metricas, t)
    ensures Consistent(r) ==> ConsistentProjects(r')
  {
    Report(r.tarea, r.estado, ProjectMetrics(r.metricas, t), r.errores)
  }

  /** The project report after phase 1: `obtenidos` and `procesados` both count every record. */
  function Fetched(records: seq<ProjectRecord>): Report<Metrics> {
    Counted(Tarea, |records|)
  }

  /** The planned keys are the ids of the records that pass validation. */
  lemma PlannedAreActive(records: seq<ProjectRecord>, states: seq<ProjectStatus.StatusRow>, db: ProjectDb, fails: set<nat>)
    ensures PlannedKeys(Plans(records, states, db)) <= ActiveProjects(records)
    ensures AllWritten(Plans(records, states, db), 0, fails) ==>
      Written(Plans(records, states, db), 0, fails) == ActiveProjects(records)
  {
    var plans := Plans(records, states, db);
    var ids := Ids(records);
    forall i | 0 <= i < |plans| && plans[i].Upsert? ensures ids[i] == Some(plans[i].key) {
    }
    PlannedWithin(plans, ids);
    if AllWritten(plans, 0, fails) {
      AllWrittenCovers(plans, 0, fails);
    }
  }

  /**
   * Phase 2 on the projects table: every record is upserted or fails; it
   * only adds active keys, and when it records no failure it has written
   * every active key.
   */
  function Phase2(records: seq<ProjectRecord>, states: seq<ProjectStatus.StatusRow>, table: map<string, ProjectRow>,
                  db: ProjectDb): (res: (map<string, ProjectRow>, Report<Metrics>))
    ensures var active := ActiveProjects(records);
      var m := res.1.metricas;
      && res.1.tarea == Tarea && res.1.estado == Pendiente
      && m.obtenidos == |records| && m.procesados == |records|
      && m.exitosos + m.fallidos == |records| && m.eliminados == 0
      && Consistent(res.1)
      && res.0.Keys - active == table.Keys - active
      && res.0.Keys * active >= table.Keys * active
      && (m.fallidos == 0 ==> active <= res.0.Keys)
  {
    var fails := Fails(records, db);
    PlannedAreActive(records, states, db, fails);
    SyncActive(Plans(records, states, db), fails, MergeProject, table, Fetched(records), ActiveProjects(records))
  }

  // ---------------------------------------------------------------------
  // Phase 3 and the run
  // ---------------------------------------------------------------------

  /** `DELETE FROM "Typologies" WHERE id NOT IN (active)`; with no active id, every row goes. */
  function SweepTypologies(rows: seq<TypologyRow>, active: set<string>): (r: seq<TypologyRow>)
    ensures |r| <= |rows|
    ensures forall x :: x in r <==> x in rows && x.id in active
  {
    if rows == [] then []
    else
      var rest := SweepTypologies(rows[1..], active);
      assert forall x :: x in rows <==> x == rows[0] || x in rows[1..];
      if rows[0].id in active then [rows[0]] + rest else rest
  }

  /** The DELETE acts row by row: a row survives, in place and with its duplicates, exactly when its id is active. */
  lemma {:induction false} SweepTypologiesAppend(a: seq<TypologyRow>, b: seq<TypologyRow>, active: set<string>)
    ensures SweepTypologies(a + b, active) == SweepTypologies(a, active) + SweepTypologies(b, active)
    ensures |b| == 1 ==> SweepTypologies(b, active) == if b[0].id in active then b else []
    decreases |a|
  {
    if a != [] {
      assert (a + b)[0] == a[0];
      assert (a + b)[1..] == a[1..] + b;
      SweepTypologiesAppend(a[1..], b, active);
    } else {
      assert a + b == b;
    }
    if |b| == 1 {
      assert b[1..] == [];
    }
  }

  /** What is settled under (project, name) with an active id survives the DELETE. */
  lemma SweepKeepsSettled(rows: seq<TypologyRow>, active: set<string>, hc: string, name: string, id: string, fields: TypologyFields)
    requires Settled(rows, hc, name, id, fields) && id in active
    ensures Settled(SweepTypologies(rows, active), hc, name, id, fields)
  {
    var swept := SweepTypologies(rows, active);
    var k0 :| 0 <= k0 < |rows| && Matches(rows[k0], hc, name);
    assert rows[k0] in swept;
    var j0 :| 0 <= j0 < |swept| && swept[j0] == rows[k0];
    assert Matches(swept[j0], hc, name);
    forall k | 0 <= k < |swept| && Matches(swept[k], hc, name) ensures swept[k].id == id && swept[k].fields == fields {
      assert swept[k] in rows;
    }
  }

  /** Both tables. */
  datatype Tables = Tables(projects: map<string, ProjectRow>, typologies: seq<TypologyRow>)

  datatype RunResult = RunResult(report: Report<ProjectMetrics>, tables: Tables)

  /** Phases 2 and 3 once phase 1 went through. */
  function SyncAndSweep(records: seq<ProjectRecord>, states: seq<ProjectStatus.StatusRow>, tables: Tables, db: ProjectDb): (res: RunResult)
    ensures res.report.tarea == Tarea
    ensures res.report.estado == ErrorCritico <==> db.typologySweepFails || db.projectSweepFails
    ensures res.report.metricas.tipologias.obtenidas == Obtained(records)
    ensures db.typologySweepFails || db.projectSweepFails ==>
      && res.tables.projects == Phase2(records, states, tables.projects, db).0
      && res.report.metricas.proyectos.eliminados == 0
    ensures !db.typologySweepFails ==> forall x :: x in res.tables.typologies ==> x.id in ActiveTypologies(records)
    ensures res.tables.typologies ==
      if db.typologySweepFails then TypologiesSynced(records, tables.typologies, db)
      else SweepTypologies(TypologiesSynced(records, tables.typologies, db), ActiveTypologies(records))
    ensures res.report.estado != ErrorCritico ==>
      var active := ActiveProjects(records);
      var m := res.report.metricas.proyectos;
      && m.obtenidos == |records| && m.procesados == |records|
      && m.exitosos + m.fallidos == |records|
      && m.eliminados == |tables.projects.Keys - active|
      && (res.report.estado == Exitoso <==> m.fallidos == 0)
      && res.report.estado != Pendiente
      && ConsistentProjects(res.report)
      && res.tables.projects.Keys <= active
      && tables.projects.Keys * active <= res.tables.projects.Keys
      && (res.report.estado == Exitoso ==> res.tables.projects.Keys == active)
      && forall x :: x in res.tables.typologies ==> x.id in ActiveTypologies(records)
  {
    var synced := Phase2(records, states, tables.projects, db);
    var typos := TypologyPass(records, 0, Fails(records, db), db, tables.typologies, 0);
    assert typos.0 == TypologiesSynced(records, tables.typologies, db);
    var counts := TypologyMetrics(Obtained(records), typos.1, 0);
    if db.typologySweepFails then
      var aborted := Abort(WithTypologies(synced.1, counts));
      assert aborted.metricas.proyectos == synced.1.metricas;
      RunResult(aborted, Tables(synced.0, typos.0))
    else
      var kept := SweepTypologies(typos.0, ActiveTypologies(records));
      assert forall x :: x in kept ==> x.id in ActiveTypologies(records);
      var counts := counts.(eliminadas := |typos.0| - |kept|);
      var closed := Close(tables.projects, ActiveProjects(records), synced.0, synced.1, db.projectSweepFails);
      assert db.projectSweepFails ==> closed.0 == synced.0 && closed.1.metricas.eliminados == 0;
      RunResult(WithTypologies(closed.1, counts), Tables(closed.0, kept))
  }

  /** `run()`: the three phases and the final state. */
  function Run(pages: seq<Page<ProjectRecord>>, states: seq<ProjectStatus.StatusRow>, tables: Tables, db: ProjectDb): (res: RunResult)
    ensures res.report.tarea == Tarea
    ensures var d := DrainUntilEmpty(pages, 0);
      res.report.estado == ErrorCritico <==>
        d.failed || !MarkOk(d.records) || db.typologySweepFails || db.projectSweepFails
    ensures var d := DrainUntilEmpty(pages, 0);
      d.failed || !MarkOk(d.records) ==>
        && res.report.metricas == ProjectMetrics(Metrics(0, 0, 0, 0, 0), TypologyMetrics(Obtained(d.records), 0, 0))
        && res.tables == tables
    ensures var d := DrainUntilEmpty(pages, 0);
      !d.failed && MarkOk(d.records) && (db.typologySweepFails || db.projectSweepFails) ==>
        && res.tables.projects == Phase2(d.records, states, tables.projects, db).0
        && res.report.metricas.proyectos.eliminados == 0
    ensures var d := DrainUntilEmpty(pages, 0);
      !d.failed && MarkOk(d.records) && !db.typologySweepFails ==>
        forall x :: x in res.tables.typologies ==> x.id in ActiveTypologies(d.records)
    ensures var d := DrainUntilEmpty(pages, 0);
      !d.failed && MarkOk(d.records) ==>
        res.tables.typologies ==
          if db.typologySweepFails then TypologiesSynced(d.records, tables.typologies, db)
          else SweepTypologies(TypologiesSynced(d.records, tables.typologies, db), ActiveTypologies(d.records))
    ensures res.report.estado != ErrorCritico ==>
      var records := DrainUntilEmpty(pages, 0).records;
      var active := ActiveProjects(records);
      var m := res.report.metricas.proyectos;
      && m.obtenidos == |records| && m.procesados == |records|
      && m.exitosos + m.fallidos == |records|
      && m.eliminados == |tables.projects.Keys - active|
      && (res.report.estado == Exitoso <==> m.fallidos == 0)
      && res.report.estado != Pendiente
      && ConsistentProjects(res.report)
      && res.tables.projects.Keys <= active
      && tables.projects.Keys * active <= res.tables.projects.Keys
      && (res.report.estado == Exitoso ==> res.tables.projects.Keys == active)
      && forall x :: x in res.tables.typologies ==> x.id in ActiveTypologies(records)
  {
    var drained := DrainUntilEmpty(pages, 0);
    if drained.failed || !MarkOk(drained.records) then
      var counts := TypologyMetrics(Obtained(drained.records), 0, 0);
      RunResult(Abort(WithTypologies(NewReport(Tarea), counts)), tables)
    else SyncAndSweep(drained.records, states, tables, db)
  }

  /**
   * After a run whose phase 1 went through, the last typology of a name
   * wins: when project `w` is the last of its id to reach
   * `insertTypologies`, none of its statements throws, and `v` is its last
   * eligible typology with that name, (project, name) is stored with `v`'s
   * id and fields, whether or not the typology DELETE went through.
   */
  lemma RunTypologyLastWins(pages: seq<Page<ProjectRecord>>, states: seq<ProjectStatus.StatusRow>, tables: Tables, db: ProjectDb,
                            w: nat, v: nat)
    requires var d := DrainUntilEmpty(pages, 0); !d.failed && MarkOk(d.records)
    requires var records := DrainUntilEmpty(pages, 0).records; var fails := Fails(records, db);
      w < |records| && LastOfName(records, fails, db, w, v)
    ensures var records := DrainUntilEmpty(pages, 0).records; var ts := records[w].typologies.value;
      Settled(Run(pages, states, tables, db).tables.typologies,
              records[w].id.value, ts[v].nombre.value, ts[v].id.value, FieldsOf(ts[v]))
  {
    var records := DrainUntilEmpty(pages, 0).records;
    var ts := records[w].typologies.value;
    TypologyPassLastWins(records, 0, Fails(records, db), db, tables.typologies, 0, w, v);
    if !db.typologySweepFails {
      assert ts[v].id.value in ActiveTypologies(records);
      SweepKeepsSettled(TypologiesSynced(records, tables.typologies, db), ActiveTypologies(records),
                        records[w].id.value, ts[v].nombre.value, ts[v].id.value, FieldsOf(ts[v]));
    }
  }

  /**
   * A stored typology of a project that does not reach `insertTypologies`
   * is left as it is by phase 2, and after a run whose phase 1 went
   * through it is still there exactly when the DELETE threw or its id is
   * active.
   */
  lemma RunUntouchedTypologies(pages: seq<Page<ProjectRecord>>, states: seq<ProjectStatus.StatusRow>, tables: Tables, db: ProjectDb,
                               k: nat)
    requires var d := DrainUntilEmpty(pages, 0); !d.failed && MarkOk(d.records)
    requires var records := DrainUntilEmpty(pages, 0).records;
      k < |tables.typologies| && tables.typologies[k].projectId !in CalledIds(records, 0, Fails(records, db))
    ensures var records := DrainUntilEmpty(pages, 0).records; var x := tables.typologies[k];
      && TypologiesSynced(records, tables.typologies, db)[k] == x
      && (x in Run(pages, states, tables, db).tables.typologies <==> db.typologySweepFails || x.id in ActiveTypologies(records))
  {
    var records := DrainUntilEmpty(pages, 0).records;
    var synced := TypologiesSynced(records, tables.typologies, db);
    assert synced[k] == tables.typologies[k];
    assert tables.typologies[k] in synced;
  }

  // ---------------------------------------------------------------------
  // What a run leaves in the projects table
  // ---------------------------------------------------------------------

  /** Phase 2 is the shared upsert loop over the plans, each row merged into the stored one. */
  lemma Phase2Loop(records: seq<ProjectRecord>, states: seq<ProjectStatus.StatusRow>, table: map<string, ProjectRow>, db: ProjectDb)
    ensures Phase2(records, states, table, db) == SyncAll(Plans(records, states, db), 0, Fails(records, db), MergeProject, table, Fetched(records))
  {
  }

  /** A row after a run that did not abort is the row phase 2 left. */
  lemma RunRow(pages: seq<Page<ProjectRecord>>, states: seq<ProjectStatus.StatusRow>, tables: Tables, db: ProjectDb, k: string)
    requires Run(pages, states, tables, db).report.estado != ErrorCritico
    requires k in Run(pages, states, tables, db).tables.projects
    ensures var records := DrainUntilEmpty(pages, 0).records;
      && k in Phase2(records, states, tables.projects, db).0
      && Run(pages, states, tables, db).tables.projects[k] == Phase2(records, states, tables.projects, db).0[k]
  {
    var records := DrainUntilEmpty(pages, 0).records;
    assert Run(pages, states, tables, db) == SyncAndSweep(records, states, tables, db);
  }

  /** The columns every successful upsert overwrites. */
  function Overwritten(r: ProjectRow): (ProjectContent, int, int) {
    (r.content, r.deliveryTime, r.deposit)
  }

  /** The row of a new project: no SEO texts, no tour, not public, empty galleries. */
  predicate Defaults(r: ProjectRow) {
    && r.seoTitle.None? && r.seoMeta.None? && r.tour360.None? && r.isPublic == Some(false)
    && r.gallery == JArray([]) && r.urbanPlans == JArray([]) && r.workProgress == JArray([])
  }

  /** Phase 2 keeps every curated value of a stored row. */
  lemma SyncedKeepsCurated(records: seq<ProjectRecord>, states: seq<ProjectStatus.StatusRow>, table: map<string, ProjectRow>,
                           db: ProjectDb, k: string)
    requires k in table
    ensures k in Phase2(records, states, table, db).0 && CuratedKept(table[k], Phase2(records, states, table, db).0[k])
  {
    CuratedKeptLaws();
    SyncKeeps(Plans(records, states, db), 0, Fails(records, db), MergeProject, table, Fetched(records), k,
              CuratedKept);
    Phase2Loop(records, states, table, db);
  }

  /**
   * After phase 2 a row holds the overwritten columns of the last upsert of
   * its key that went through; with none, it is the stored row.
   */
  lemma SyncedLastWrite(records: seq<ProjectRecord>, states: seq<ProjectStatus.StatusRow>, table: map<string, ProjectRow>,
                        db: ProjectDb, k: string)
    requires k in Phase2(records, states, table, db).0
    ensures var w := LastWrite(Plans(records, states, db), 0, Fails(records, db), k);
      var r := Phase2(records, states, table, db).0[k];
      && (w.Some? ==> Overwritten(r) == Overwritten(w.value))
      && (w.None? ==> k in table && r == table[k])
  {
    var plans := Plans(records, states, db);
    var fails := Fails(records, db);
    Phase2Loop(records, states, table, db);
    WrittenHasLastWrite(plans, 0, fails, k);
    if LastWrite(plans, 0, fails, k).Some? {
      OverwriteLastWins(plans, 0, fails, MergeProject, table, Fetched(records), k, Overwritten);
    }
  }

  /** A row phase 2 inserts has the defaults of a new row and a last write. */
  lemma SyncedNewRow(records: seq<ProjectRecord>, states: seq<ProjectStatus.StatusRow>, table: map<string, ProjectRow>,
                     db: ProjectDb, k: string)
    requires k in Phase2(records, states, table, db).0 && k !in table
    ensures Defaults(Phase2(records, states, table, db).0[k])
    ensures LastWrite(Plans(records, states, db), 0, Fails(records, db), k).Some?
  {
    var plans := Plans(records, states, db);
    var fails := Fails(records, db);
    Phase2Loop(records, states, table, db);
    forall i | 0 <= i < |plans| && plans[i].Upsert? ensures Defaults(plans[i].row) {
      RowOfAggregates(records[i], states, i in db.aggregateFails);
    }
    SyncFresh(plans, 0, fails, MergeProject, table, Fetched(records), Defaults);
    WrittenHasLastWrite(plans, 0, fails, k);
  }

  /**
   * The record behind a last write: the last fetched record with id `k`
   * whose upsert went through, when there is one.
   */
  lemma LastWriteSource(records: seq<ProjectRecord>, states: seq<ProjectStatus.StatusRow>, db: ProjectDb, k: string) returns (i: nat)
    requires exists j :: 0 <= j < |records| && records[j].id == Some(k) && Present(records[j].id) && j !in Fails(records, db)
    ensures i < |records|
    ensures records[i].id == Some(k) && i !in Fails(records, db)
    ensures forall j :: i < j < |records| && records[j].id == Some(k) && Present(records[j].id) ==> j in Fails(records, db)
    ensures LastWrite(Plans(records, states, db), 0, Fails(records, db), k) == Some(RowOf(records[i], states, i in db.aggregateFails))
  {
    var plans := Plans(records, states, db);
    var ids := ValidIds(records);
    forall j | 0 <= j < |records|
      ensures plans[j].Upsert? <==> ids[j].Some?
      ensures plans[j].Upsert? ==> ids[j] == Some(plans[j].key)
    {
      PlanKey(records, states, db, j);
    }
    var j :| 0 <= j < |records| && records[j].id == Some(k) && Present(records[j].id) && j !in Fails(records, db);
    assert ids[j] == Some(k);
    i := LastWriteOfId(plans, Fails(records, db), ids, k);
    PlanKey(records, states, db, i);
  }

  /** The ids validation lets through, by position. */
  function ValidIds(records: seq<ProjectRecord>): (ids: seq<Option<string>>)
    ensures |ids| == |records|
    ensures forall i :: 0 <= i < |records| ==> ids[i] == if Present(records[i].id) then records[i].id else None
  {
    seq(|records|, i requires 0 <= i < |records| => if Present(records[i].id) then records[i].id else None)
  }

  /** Which plan a record gives: an upsert under its id exactly when it has one. */
  lemma PlanKey(records: seq<ProjectRecord>, states: seq<ProjectStatus.StatusRow>, db: ProjectDb, j: nat)
    requires j < |records|
    ensures Plans(records, states, db)[j].Upsert? <==> Present(records[j].id)
    ensures Present(records[j].id) ==>
      Plans(records, states, db)[j] == Upsert(records[j].id.value, RowOf(records[j], states, j in db.aggregateFails))
  {
  }

  /**
   * A stored project whose id is still fetched keeps every curated value:
   * a non-null SEO title, SEO description, tour or `is_public`, and each
   * non-empty gallery.
   */
  lemma RunKeepsCurated(pages: seq<Page<ProjectRecord>>, states: seq<ProjectStatus.StatusRow>, tables: Tables, db: ProjectDb, k: string)
    requires Run(pages, states, tables, db).report.estado != ErrorCritico
    requires k in tables.projects && k in ActiveProjects(DrainUntilEmpty(pages, 0).records)
    ensures k in Run(pages, states, tables, db).tables.projects
    ensures CuratedKept(tables.projects[k], Run(pages, states, tables, db).tables.projects[k])
  {
    var records := DrainUntilEmpty(pages, 0).records;
    SyncedKeepsCurated(records, states, tables.projects, db, k);
    RunRow(pages, states, tables, db, k);
  }

  /**
   * A project row after a run holds the content, delivery time and deposit
   * of the last fetched record with its id whose upsert went through; when
   * there is none the row is the stored one, untouched.
   */
  lemma RunLastWrite(pages: seq<Page<ProjectRecord>>, states: seq<ProjectStatus.StatusRow>, tables: Tables, db: ProjectDb, k: string)
    requires Run(pages, states, tables, db).report.estado != ErrorCritico
    requires k in Run(pages, states, tables, db).tables.projects
    ensures var records := DrainUntilEmpty(pages, 0).records;
      var w := LastWrite(Plans(records, states, db), 0, Fails(records, db), k);
      var r := Run(pages, states, tables, db).tables.projects[k];
      && (w.Some? ==> Overwritten(r) == Overwritten(w.value))
      && (w.None? ==> k in tables.projects && r == tables.projects[k])
  {
    var records := DrainUntilEmpty(pages, 0).records;
    RunRow(pages, states, tables, db, k);
    SyncedLastWrite(records, states, tables.projects, db, k);
  }

  /**
   * A project the run inserts has the defaults of a new row (no SEO texts,
   * no tour, not public, empty galleries) and was written by some fetched
   * record.
   */
  lemma RunNewRows(pages: seq<Page<ProjectRecord>>, states: seq<ProjectStatus.StatusRow>, tables: Tables, db: ProjectDb, k: string)
    requires Run(pages, states, tables, db).report.estado != ErrorCritico
    requires k in Run(pages, states, tables, db).tables.projects && k !in tables.projects
    ensures Defaults(Run(pages, states, tables, db).tables.projects[k])
    ensures LastWrite(Plans(DrainUntilEmpty(pages, 0).records, states, db), 0, Fails(DrainUntilEmpty(pages, 0).records, db), k).Some?
  {
    var records := DrainUntilEmpty(pages, 0).records;
    RunRow(pages, states, tables, db, k);
    SyncedNewRow(records, states, tables.projects, db, k);
  }

  /**
   * The record a row comes from: when some fetched record with id `k` was
   * upserted, the row after the run holds the content of the last such
   * record, and the delivery time and deposit its typologies give (see
   * `RowOfAggregates`).
   */
  lemma RunRowSource(pages: seq<Page<ProjectRecord>>, states: seq<ProjectStatus.StatusRow>, tables: Tables, db: ProjectDb,
                     k: string) returns (i: nat)
    requires Run(pages, states, tables, db).report.estado != ErrorCritico
    requires k in Run(pages, states, tables, db).tables.projects
    requires var records := DrainUntilEmpty(pages, 0).records;
      exists j :: 0 <= j < |records| && records[j].id == Some(k) && Present(records[j].id) && j !in Fails(records, db)
    ensures i < |DrainUntilEmpty(pages, 0).records|
    ensures var records := DrainUntilEmpty(pages, 0).records;
      && records[i].id == Some(k) && i !in Fails(records, db)
      && (forall j :: i < j < |records| && records[j].id == Some(k) && Present(records[j].id) ==> j in Fails(records, db))
      && Overwritten(Run(pages, states, tables, db).tables.projects[k])
         == Overwritten(RowOf(records[i], states, i in db.aggregateFails))
  {
    var records := DrainUntilEmpty(pages, 0).records;
    i := LastWriteSource(records, states, db, k);
    RunLastWrite(pages, states, tables, db, k);
  }

  /** Phases 2 and 3 do not read the typology inserts' failures into the project side. */
  lemma TypologyFailuresStayLocalSynced(records: seq<ProjectRecord>, states: seq<ProjectStatus.StatusRow>, tables: Tables,
                                        db: ProjectDb, other: map<nat, set<nat>>)
    ensures var a := SyncAndSweep(records, states, tables, db);
      var b := SyncAndSweep(records, states, tables, db.(typologyFails := other));
      && a.report.estado == b.report.estado && a.report.errores == b.report.errores
      && a.report.metricas.proyectos == b.report.metricas.proyectos
      && a.tables.projects == b.tables.projects
  {
    var db' := db.(typologyFails := other);
    assert Fails(records, db) == Fails(records, db');
    assert Plans(records, states, db) == Plans(records, states, db');
    assert Phase2(records, states, tables.projects, db) == Phase2(records, states, tables.projects, db');
  }

  /**
   * Typology writes never reach the project counters, the errors or the
   * projects table: a run whose typology inserts throw elsewhere ends with
   * the same project report and the same projects table.
   */
  lemma TypologyFailuresStayLocal(pages: seq<Page<ProjectRecord>>, states: seq<ProjectStatus.StatusRow>, tables: Tables,
                                  db: ProjectDb, other: map<nat, set<nat>>)
    ensures var a := Run(pages, states, tables, db);
      var b := Run(pages, states, tables, db.(typologyFails := other));
      && a.report.estado == b.report.estado && a.report.errores == b.report.errores
      && a.report.metricas.proyectos == b.report.metricas.proyectos
      && a.tables.projects == b.tables.projects
  {
    TypologyFailuresStayLocalSynced(DrainUntilEmpty(pages, 0).records, states, tables, db, other);
  }
}
