/**
 * The typologies of one commercial project (src/projects.js,
 * `insertTypologies` and `syncProjectData`). The typologies table has no
 * key the code relies on: a typology is looked up by (project, name), and
 * every matching row is updated, so the table is a sequence of rows.
 */
module Typologies {
  import opened Wrappers
  import opened Text
  import opened Numbers
  import opened Store

  /**
   * One typology as the CRM returns it. Each integer field is the result
   * of `parseInt(field, 10)` (`ParseInt`; None for NaN); the two areas are
   * the texts the row stores, taken as given.
   */
  datatype Typology = Typology(
    id: Option<string>, nombre: Option<string>, units: Option<int>, description: Option<string>,
    priceFrom: Option<int>, priceUp: Option<int>, rooms: Option<int>, bathrooms: Option<int>,
    builtArea: string, privateArea: string, separation: Option<int>, deposit: Option<int>, deliveryTime: Option<int>)

  /** The columns every write sets from the typology. */
  datatype TypologyFields = TypologyFields(
    description: string, priceFrom: int, priceUp: int, rooms: int, bathrooms: int,
    builtArea: string, privateArea: string, minSeparation: int, minDeposit: int,
    deliveryTime: int, availableCount: int)

  /** A row of the typologies table. */
  datatype TypologyRow = TypologyRow(
    id: string, projectId: string, name: string, fields: TypologyFields, gallery: Jsonb, plans: Option<string>)

  /** A typology is written only with an id, a name, and at least one available unit. */
  predicate Eligible(t: Typology) {
    Present(t.id) && Present(t.nombre) && t.units.Some? && t.units.value >= 1
  }

  function FieldsOf(t: Typology): (f: TypologyFields)
    requires Eligible(t)
    ensures f.availableCount >= 1 && Some(f.availableCount) == t.units
  {
    TypologyFields(
      OrElse(t.description, ""), OrZero(t.priceFrom), OrZero(t.priceUp),
      OrZero(t.rooms), OrZero(t.bathrooms), t.builtArea, t.privateArea,
      OrZero(t.separation), OrZero(t.deposit), OrZero(t.deliveryTime),
      t.units.value)
  }

  /** The row a typology is stored under: its project and its name. */
  predicate Matches(r: TypologyRow, hc: string, name: string) {
    r.projectId == hc && r.name == name
  }

  /** The `UPDATE` of a matching row: new id and fields; gallery and plans kept once set. */
  function Updated(r: TypologyRow, t: Typology): TypologyRow
    requires Eligible(t)
  {
    r.(id := t.id.value, fields := FieldsOf(t),
       gallery := if NonEmptyArray(r.gallery) then r.gallery else JArray([]),
       plans := if r.plans.Some? then r.plans else Some(""))
  }

  /** The `INSERT` of a typology no row matches. */
  function NewRow(hc: string, t: Typology): TypologyRow
    requires Eligible(t)
  {
    TypologyRow(t.id.value, hc, t.nombre.value, FieldsOf(t), JArray([]), Some(""))
  }

  predicate HasMatch(rows: seq<TypologyRow>, hc: string, name: string) {
    exists i :: 0 <= i < |rows| && Matches(rows[i], hc, name)
  }

  /** (project, name) is stored, and every row stored there carries `id` and `fields`. */
  predicate Settled(rows: seq<TypologyRow>, hc: string, name: string, id: string, fields: TypologyFields) {
    && HasMatch(rows, hc, name)
    && forall k :: 0 <= k < |rows| && Matches(rows[k], hc, name) ==> rows[k].id == id && rows[k].fields == fields
  }

  /** One write: update every matching row, or insert when there is none. */
  function Write(hc: string, t: Typology, rows: seq<TypologyRow>): (r: seq<TypologyRow>)
    requires Eligible(t)
    ensures |r| == |rows| + (if HasMatch(rows, hc, t.nombre.value) then 0 else 1)
    ensures forall i :: 0 <= i < |rows| && !Matches(rows[i], hc, t.nombre.value) ==> r[i] == rows[i]
    ensures forall i :: 0 <= i < |rows| ==> r[i].projectId == rows[i].projectId && r[i].name == rows[i].name
    ensures forall i :: |rows| <= i < |r| ==> r[i] == NewRow(hc, t)
  {
    var name := t.nombre.value;
    if HasMatch(rows, hc, name) then
      seq(|rows|, i requires 0 <= i < |rows| => if Matches(rows[i], hc, name) then Updated(rows[i], t) else rows[i])
    else rows + [NewRow(hc, t)]
  }

  /**
   * After a write, the typology is stored under its project and name, and
   * every row stored there carries its id and fields. A matching row keeps
   * its key, keeps a non-empty gallery and non-null plans, and otherwise
   * gets `[]` and "".
   */
  lemma WriteStores(hc: string, t: Typology, rows: seq<TypologyRow>)
    requires Eligible(t)
    ensures var r := Write(hc, t, rows); var name := t.nombre.value;
      && HasMatch(r, hc, name)
      && (forall i :: 0 <= i < |r| && Matches(r[i], hc, name) ==> r[i].id == t.id.value && r[i].fields == FieldsOf(t))
      && (forall i :: 0 <= i < |rows| && Matches(rows[i], hc, name) ==>
            && Matches(r[i], hc, name)
            && (NonEmptyArray(rows[i].gallery) ==> r[i].gallery == rows[i].gallery)
            && (!NonEmptyArray(rows[i].gallery) ==> r[i].gallery == JArray([]))
            && (rows[i].plans.Some? ==> r[i].plans == rows[i].plans)
            && (rows[i].plans.None? ==> r[i].plans == Some("")))
  {
    var r := Write(hc, t, rows);
    if HasMatch(rows, hc, t.nombre.value) {
      var i :| 0 <= i < |rows| && Matches(rows[i], hc, t.nombre.value);
      assert Matches(r[i], hc, t.nombre.value);
    } else {
      assert Matches(r[|rows|], hc, t.nombre.value);
    }
  }

  /** What `insertTypologies` returns, with the rows it leaves. */
  datatype TypologyResult = TypologyResult(rows: seq<TypologyRow>, success: bool, processed: set<string>)

  /** The ids of the eligible typologies from position `i` on. */
  function EligibleIds(ts: seq<Typology>, i: nat): set<string>
    decreases |ts| - i
  {
    if i >= |ts| then {}
    else (if Eligible(ts[i]) then {ts[i].id.value} else {}) + EligibleIds(ts, i + 1)
  }

  /** The names of the eligible typologies from position `i` on. */
  function EligibleNames(ts: seq<Typology>, i: nat): set<string>
    decreases |ts| - i
  {
    if i >= |ts| then {}
    else (if Eligible(ts[i]) then {ts[i].nombre.value} else {}) + EligibleNames(ts, i + 1)
  }

  /** No eligible typology from position `i` on hits a throwing statement. */
  predicate NoFailure(ts: seq<Typology>, i: nat, fails: set<nat>) {
    forall j :: i <= j < |ts| && Eligible(ts[j]) ==> j !in fails
  }

  /**
   * The loop from position `i` on. `fails` holds the positions whose
   * lookup or write throws; an ineligible typology sends no statement. A
   * throw ends the call with `success: false` and an empty set, and the
   * writes already made stay.
   */
  function Loop(hc: string, ts: seq<Typology>, i: nat, fails: set<nat>,
                rows: seq<TypologyRow>, processed: set<string>): (res: TypologyResult)
    ensures res.success <==> NoFailure(ts, i, fails)
    ensures res.success ==> res.processed == processed + EligibleIds(ts, i)
    ensures !res.success ==> res.processed == {}
    ensures |res.rows| >= |rows|
    ensures forall k :: 0 <= k < |rows| && (rows[k].projectId != hc || rows[k].name !in EligibleNames(ts, i)) ==>
      res.rows[k] == rows[k]
    ensures forall k :: 0 <= k < |rows| ==> res.rows[k].projectId == rows[k].projectId && res.rows[k].name == rows[k].name
    ensures forall k :: |rows| <= k < |res.rows| ==> res.rows[k].projectId == hc
    decreases |ts| - i
  {
    if i >= |ts| then TypologyResult(rows, true, processed)
    else if !Eligible(ts[i]) then Loop(hc, ts, i + 1, fails, rows, processed)
    else if i in fails then TypologyResult(rows, false, {})
    else
      var next := Write(hc, ts[i], rows);
      var res := Loop(hc, ts, i + 1, fails, next, processed + {ts[i].id.value});
      assert forall k :: |rows| <= k < |next| ==> next[k].projectId == hc;
      res
  }

  /** `insertTypologies(projectHc, typologies)` */
  function InsertTypologies(hc: string, ts: seq<Typology>, fails: set<nat>, rows: seq<TypologyRow>): TypologyResult {
    if ts == [] then TypologyResult(rows, true, {}) else Loop(hc, ts, 0, fails, rows, {})
  }

  /** A typology id is reported as processed exactly when some eligible typology has it. */
  lemma {:induction false} EligibleIdsAt(ts: seq<Typology>, i: nat, x: string)
    ensures x in EligibleIds(ts, i) <==> exists j :: i <= j < |ts| && Eligible(ts[j]) && ts[j].id.value == x
    decreases |ts| - i
  {
    if i < |ts| {
      EligibleIdsAt(ts, i + 1, x);
    }
  }

  lemma {:induction false} EligibleNamesAt(ts: seq<Typology>, i: nat, x: string)
    ensures x in EligibleNames(ts, i) <==> exists j :: i <= j < |ts| && Eligible(ts[j]) && ts[j].nombre.value == x
    decreases |ts| - i
  {
    if i < |ts| {
      EligibleNamesAt(ts, i + 1, x);
    }
  }

  /**
   * The result of `insertTypologies`: success exactly when no eligible
   * typology's statement throws; on success, the processed ids are exactly
   * the ids of the eligible typologies; on failure, none. Rows of other
   * projects, and rows of this project under a name no eligible typology
   * carries, are untouched; new rows belong to this project.
   */
  lemma InsertTypologiesResult(hc: string, ts: seq<Typology>, fails: set<nat>, rows: seq<TypologyRow>)
    ensures var res := InsertTypologies(hc, ts, fails, rows);
      && (res.success <==> forall j :: 0 <= j < |ts| && Eligible(ts[j]) ==> j !in fails)
      && (res.success ==> forall x :: x in res.processed <==> exists j :: 0 <= j < |ts| && Eligible(ts[j]) && ts[j].id.value == x)
      && (!res.success ==> res.processed == {})
      && |res.rows| >= |rows|
      && (forall k :: 0 <= k < |rows| &&
            (rows[k].projectId != hc || forall j :: 0 <= j < |ts| && Eligible(ts[j]) ==> ts[j].nombre.value != rows[k].name)
            ==> res.rows[k] == rows[k])
      && (forall k :: |rows| <= k < |res.rows| ==> res.rows[k].projectId == hc)
  {
    if ts != [] {
      forall x {
        EligibleIdsAt(ts, 0, x);
      }
      forall k | 0 <= k < |rows| && rows[k].projectId == hc && rows[k].name in EligibleNames(ts, 0)
        ensures exists j :: 0 <= j < |ts| && Eligible(ts[j]) && ts[j].nombre.value == rows[k].name
      {
        EligibleNamesAt(ts, 0, rows[k].name);
      }
    }
  }

  /**
   * A throw keeps what came before it: the rows a failed call leaves are
   * those of a call on the typologies before the first throwing one.
   */
  lemma {:induction false} FailureKeepsPrefix(hc: string, ts: seq<Typology>, i: nat, fails: set<nat>,
                                              rows: seq<TypologyRow>, processed: set<string>, f: nat)
    requires i <= f < |ts| && Eligible(ts[f]) && f in fails
    requires forall j :: i <= j < f && Eligible(ts[j]) ==> j !in fails
    ensures var res := Loop(hc, ts, i, fails, rows, processed);
      && !res.success
      && res.rows == Loop(hc, ts[..f], i, fails, rows, processed).rows
      && Loop(hc, ts[..f], i, fails, rows, processed).success
    decreases |ts| - i
  {
    assert ts[..f][i..] == ts[i..f];
    if i < f {
      assert ts[..f][i] == ts[i];
      FailureKeepsPrefix(hc, ts, i + 1, fails,
        if Eligible(ts[i]) then Write(hc, ts[i], rows) else rows,
        if Eligible(ts[i]) then processed + {ts[i].id.value} else processed, f);
    }
  }

  /**
   * Matching is by (project, name), so the last eligible typology with a
   * name wins: after a successful call, that name is stored under the
   * project, and every row stored there carries the last one's id and
   * fields.
   */
  lemma {:induction false} LastNameWins(hc: string, ts: seq<Typology>, i: nat, fails: set<nat>,
                                        rows: seq<TypologyRow>, processed: set<string>, w: nat)
    requires i <= w < |ts| && Eligible(ts[w])
    requires NoFailure(ts, i, fails)
    requires forall j :: w < j < |ts| && Eligible(ts[j]) ==> ts[j].nombre != ts[w].nombre
    ensures var res := Loop(hc, ts, i, fails, rows, processed).rows; var name := ts[w].nombre.value;
      && HasMatch(res, hc, name)
      && forall k :: 0 <= k < |res| && Matches(res[k], hc, name) ==> res[k].id == ts[w].id.value && res[k].fields == FieldsOf(ts[w])
    decreases |ts| - i
  {
    var next := if Eligible(ts[i]) then Write(hc, ts[i], rows) else rows;
    var acc := if Eligible(ts[i]) then processed + {ts[i].id.value} else processed;
    assert NoFailure(ts, i + 1, fails);
    if i < w {
      LastNameWins(hc, ts, i + 1, fails, next, acc, w);
    } else {
      WriteStores(hc, ts[w], rows);
      EligibleNamesAt(ts, i + 1, ts[w].nombre.value);
      StaysSettled(hc, ts, i + 1, fails, next, acc, ts[w].nombre.value, ts[w].id.value, FieldsOf(ts[w]));
    }
  }

  /**
   * Once every row under (project, name) carries an id and fields, a loop
   * that writes no typology of that name leaves it so.
   */
  lemma StaysSettled(hc: string, ts: seq<Typology>, i: nat, fails: set<nat>,
                     rows: seq<TypologyRow>, processed: set<string>, name: string, id: string, fields: TypologyFields)
    requires name !in EligibleNames(ts, i)
    requires HasMatch(rows, hc, name)
    requires forall k :: 0 <= k < |rows| && Matches(rows[k], hc, name) ==> rows[k].id == id && rows[k].fields == fields
    ensures var res := Loop(hc, ts, i, fails, rows, processed).rows;
      && HasMatch(res, hc, name)
      && forall k :: 0 <= k < |res| && Matches(res[k], hc, name) ==> res[k].id == id && res[k].fields == fields
  {
    var res := Loop(hc, ts, i, fails, rows, processed).rows;
    var k0 :| 0 <= k0 < |rows| && Matches(rows[k0], hc, name);
    assert res[k0] == rows[k0];
    forall k | 0 <= k < |res| && Matches(res[k], hc, name) ensures res[k].id == id && res[k].fields == fields {
      if k >= |rows| {
        LoopNewRows(hc, ts, i, fails, rows, processed, k);
      }
    }
  }

  /** Rows the loop appends carry the name of an eligible typology it wrote. */
  lemma {:induction false} LoopNewRows(hc: string, ts: seq<Typology>, i: nat, fails: set<nat>,
                                       rows: seq<TypologyRow>, processed: set<string>, k: nat)
    requires |rows| <= k < |Loop(hc, ts, i, fails, rows, processed).rows|
    ensures Loop(hc, ts, i, fails, rows, processed).rows[k].name in EligibleNames(ts, i)
    decreases |ts| - i
  {
    if i < |ts| && Eligible(ts[i]) && i !in fails {
      var next := Write(hc, ts[i], rows);
      if k < |next| {
        assert next[k] == NewRow(hc, ts[i]);
      } else {
        LoopNewRows(hc, ts, i + 1, fails, next, processed + {ts[i].id.value}, k);
      }
    } else if i < |ts| && !Eligible(ts[i]) {
      LoopNewRows(hc, ts, i + 1, fails, rows, processed, k);
    }
  }

  /**
   * The gallery and plans of an existing row survive every write once set:
   * a non-empty gallery array and non-null plans are never replaced.
   */
  lemma {:induction false} LoopKeepsCurated(hc: string, ts: seq<Typology>, i: nat, fails: set<nat>,
                                            rows: seq<TypologyRow>, processed: set<string>, k: nat)
    requires k < |rows|
    ensures var res := Loop(hc, ts, i, fails, rows, processed).rows;
      && (NonEmptyArray(rows[k].gallery) ==> res[k].gallery == rows[k].gallery)
      && (rows[k].plans.Some? ==> res[k].plans == rows[k].plans)
    decreases |ts| - i
  {
    if i < |ts| && Eligible(ts[i]) && i !in fails {
      WriteStores(hc, ts[i], rows);
      LoopKeepsCurated(hc, ts, i + 1, fails, Write(hc, ts[i], rows), processed + {ts[i].id.value}, k);
    } else if i < |ts| && !Eligible(ts[i]) {
      LoopKeepsCurated(hc, ts, i + 1, fails, rows, processed, k);
    }
  }

  /**
   * `syncProjectData`: nothing for an empty list; otherwise the least
   * delivery time and the least deposit over every typology passed, where a
   * value that does not parse or parses to 0 takes no part, and 0 when none
   * takes part.
   */
  function Aggregate(ts: seq<Typology>): (r: Option<(int, int)>)
    ensures r.None? <==> ts == []
  {
    if ts == [] then None
    else Some((MinOrZero(DeliveryTimes(ts)), MinOrZero(Deposits(ts))))
  }

  function DeliveryTimes(ts: seq<Typology>): (r: seq<Option<int>>)
    ensures |r| == |ts| && forall i :: 0 <= i < |ts| ==> r[i] == ts[i].deliveryTime
  {
    seq(|ts|, i requires 0 <= i < |ts| => ts[i].deliveryTime)
  }

  function Deposits(ts: seq<Typology>): (r: seq<Option<int>>)
    ensures |r| == |ts| && forall i :: 0 <= i < |ts| ==> r[i] == ts[i].deposit
  {
    seq(|ts|, i requires 0 <= i < |ts| => ts[i].deposit)
  }

  /**
   * The delivery time written back is the least qualifying delivery time of
   * all typologies (eligible or not), or 0 when none qualifies; so is the
   * deposit.
   */
  lemma AggregateIsLeast(ts: seq<Typology>)
    requires ts != []
    ensures var (dt, dep) := Aggregate(ts).value;
      && (dt == 0 <==> forall i :: 0 <= i < |ts| ==> !Qualifies(ts[i].deliveryTime))
      && (dt != 0 ==> exists i :: 0 <= i < |ts| && ts[i].deliveryTime == Some(dt))
      && (forall i :: 0 <= i < |ts| && Qualifies(ts[i].deliveryTime) ==> dt <= ts[i].deliveryTime.value)
      && (dep == 0 <==> forall i :: 0 <= i < |ts| ==> !Qualifies(ts[i].deposit))
      && (dep != 0 ==> exists i :: 0 <= i < |ts| && ts[i].deposit == Some(dep))
      && (forall i :: 0 <= i < |ts| && Qualifies(ts[i].deposit) ==> dep <= ts[i].deposit.value)
  {
    MinQualifyingIsLeast(DeliveryTimes(ts));
    MinQualifyingIsLeast(Deposits(ts));
  }
}
