/**
 * The run report every sync job returns (src/reportBuilder.js) and the
 * accounting steps the jobs apply to it: a record that was written, a
 * record that failed, the final state, and the critical-error exit.
 */
module Report {

  datatype Estado = Pendiente | Exitoso | FinalizadoConErrores | ErrorCritico

  /** Why a single record was not written. */
  datatype Reason =
    | InvalidData     // a required field is missing
    | DbError         // the write (or a lookup it depends on) threw
    | EmptyName       // a city whose cleaned name is blank

  /** One entry of `erroresDetallados`. */
  datatype ErrorEntry =
    | RecordError(reference: string, reason: Reason)
    | GeneralError    // "Error general en la ejecución de la tarea"

  datatype Metrics = Metrics(obtenidos: nat, procesados: nat, exitosos: nat, fallidos: nat, eliminados: nat)

  datatype Report<M> = Report(tarea: string, estado: Estado, metricas: M, errores: seq<ErrorEntry>)

  /** Every failure recorded so far left exactly one record-level error entry. */
  predicate Consistent(r: Report<Metrics>) {
    && |r.errores| == r.metricas.fallidos
    && forall i :: 0 <= i < |r.errores| ==> r.errores[i].RecordError?
  }

  /** `crearReporteDeTarea(nombreTarea)` */
  function NewReport(tarea: string): (r: Report<Metrics>)
    ensures r.tarea == tarea
    ensures r.estado == Pendiente
    ensures r.metricas == Metrics(0, 0, 0, 0, 0)
    ensures Consistent(r) && r.errores == []
  {
    Report(tarea, Pendiente, Metrics(0, 0, 0, 0, 0), [])
  }

  /** The report once `n` records are fetched and every one of them is to be processed. */
  function Counted(tarea: string, n: nat): (rep: Report<Metrics>)
    ensures rep.tarea == tarea && rep.estado == Pendiente && rep.errores == []
    ensures rep.metricas == Metrics(n, n, 0, 0, 0)
    ensures Consistent(rep)
  {
    var rep := NewReport(tarea);
    rep.(metricas := rep.metricas.(obtenidos := n, procesados := n))
  }

  /** `reporte.metricas.exitosos++` */
  function Succeeded(r: Report<Metrics>): (r': Report<Metrics>)
    ensures r'.metricas == r.metricas.(exitosos := r.metricas.exitosos + 1)
    ensures r'.errores == r.errores && r'.estado == r.estado && r'.tarea == r.tarea
    ensures Consistent(r) ==> Consistent(r')
  {
    r.(metricas := r.metricas.(exitosos := r.metricas.exitosos + 1))
  }

  /** `reporte.metricas.fallidos++; reporte.erroresDetallados.push(...)` */
  function Failed(r: Report<Metrics>, reference: string, reason: Reason): (r': Report<Metrics>)
    ensures r'.metricas == r.metricas.(fallidos := r.metricas.fallidos + 1)
    ensures r'.errores == r.errores + [RecordError(reference, reason)]
    ensures r'.estado == r.estado && r'.tarea == r.tarea
    ensures Consistent(r) ==> Consistent(r')
  {
    r.(metricas := r.metricas.(fallidos := r.metricas.fallidos + 1),
       errores := r.errores + [RecordError(reference, reason)])
  }

  /** `estado = fallidos > 0 ? "finalizado_con_errores" : "exitoso"` */
  function Finalize(r: Report<Metrics>): (r': Report<Metrics>)
    ensures r'.estado == Exitoso <==> r.metricas.fallidos == 0
    ensures r'.estado != ErrorCritico && r'.estado != Pendiente
    ensures r'.metricas == r.metricas && r'.errores == r.errores && r'.tarea == r.tarea
  {
    r.(estado := if r.metricas.fallidos > 0 then FinalizadoConErrores else Exitoso)
  }

  /** The `catch` of every `run`: the run stops with a general error entry; metrics keep what they had. */
  function Abort<M>(r: Report<M>): (r': Report<M>)
    ensures r'.estado == ErrorCritico
    ensures r'.metricas == r.metricas && r'.tarea == r.tarea
    ensures r'.errores == r.errores + [GeneralError]
  {
    r.(estado := ErrorCritico, errores := r.errores + [GeneralError])
  }
}
