/** What each operation of the publication service does to the table, to the
    notifier and to its caller, as functions of the table before the call and
    of the outcomes of the two collaborators: whether `SaveChangesAsync`
    commits (`saveOk`) and what the notifier does with the approval e-mail
    (`notify`). Exceptions the service throws or catches are values. */
module Moderacion {
  import opened Modelos

  const IdNoPositivo := "El ID de la publicación debe ser un número positivo."
  const NoEncontrada := "Publicación no encontrada."
  const YaAprobada := "La publicación ya está aprobada."
  const ErrorBaseDeDatos := "Error al actualizar la base de datos."
  const ErrorCorreo := "Error al enviar el correo electrónico."
  const ErrorInesperado := "Ocurrió un error inesperado."
  const PayloadNulo := "La publicación actualizada no puede ser nula."
  const TituloVacio := "El título de la publicación no puede estar vacío."
  const ContenidoVacio := "El contenido de la publicación no puede estar vacío."
  const AsuntoAprobada := "Publicación aprobada"

  /** Body of the approval e-mail for a publication titled `titulo`. */
  function CuerpoAprobada(titulo: string): string
  {
    "Tu publicación '" + titulo + "' ha sido aprobada."
  }

  /** The exceptions that reach the service, by .NET type. */
  datatype Exception =
    | ArgumentException(Message: string)
    | ArgumentNullException(ParamName: string, Message: string)
    | InvalidOperationException(Message: string)
    | DbUpdateException
    | SmtpException
    | ApplicationException(Message: string)
    | FormatException(Message: string)

  /** What the notifier does with one e-mail. It delivers it, or it fails:
      - the user does not exist (ArgumentException);
      - the user has no e-mail address (InvalidOperationException);
      - a mail setting it reads before sending is missing, so parsing the
        port or building the sender address throws an ArgumentNullException
        that the notifier does not catch;
      - such a setting is malformed, so that parsing throws a
        FormatException, again not caught;
      - the transport fails, an SMTP or other error that the notifier
        rethrows wrapped in an ApplicationException.
      Each failure carries the exception's message. */
  datatype NotifyOutcome =
    | Delivered
    | UserNotFound(Message: string)
    | NoEmail(Message: string)
    | MissingSetting(ParamName: string, Message: string)
    | MalformedSetting(Message: string)
    | TransportFailed(Message: string)

  /** The exception the notifier raises for a failed delivery. */
  function NotifierException(o: NotifyOutcome): Exception
    requires !o.Delivered?
  {
    match o
    case UserNotFound(m) => ArgumentException(m)
    case NoEmail(m) => InvalidOperationException(m)
    case MissingSetting(n, m) => ArgumentNullException(n, m)
    case MalformedSetting(m) => FormatException(m)
    case TransportFailed(m) => ApplicationException(m)
  }

  /** The notifier failures whose exception the approval passes on with its
      own message: the ArgumentException family and InvalidOperationException. */
  predicate PassesMessage(o: NotifyOutcome)
  {
    o.UserNotFound? || o.NoEmail? || o.MissingSetting?
  }

  /** The approval's catch clauses, tried in order: an ArgumentException (an
      ArgumentNullException is one) or an InvalidOperationException passes its
      own message on, the storage and SMTP errors get fixed messages, and any
      other exception the generic one. */
  function ApproveCatch(e: Exception): string
  {
    match e
    case ArgumentException(m) => m
    case ArgumentNullException(_, m) => m
    case InvalidOperationException(m) => m
    case DbUpdateException => ErrorBaseDeDatos
    case SmtpException => ErrorCorreo
    case ApplicationException(_) => ErrorInesperado
    case FormatException(_) => ErrorInesperado
  }

  /** How the body of the approval's `try` ends: with a `return`, or with an
      exception; either way with the durable table as it then stands and the
      e-mail delivered, if any. */
  datatype Attempt =
    | Done(result: OperationResult, publicaciones: seq<Publicacion>, enviado: Option<Email>)
    | Raised(exception: Exception, publicaciones: seq<Publicacion>)

  /** The body of the approval's `try`. The flag is committed before the
      e-mail is handed to the notifier. */
  function AprobarTry(rows: seq<Publicacion>, id: int, saveOk: bool, notify: NotifyOutcome): Attempt
  {
    if id <= 0 then Raised(ArgumentException(IdNoPositivo), rows)
    else match Find(rows, id)
      case None => Done(Failure(NoEncontrada), rows, None)
      case Some(i) =>
        if !rows[i].PendienteAprobacion then Raised(InvalidOperationException(YaAprobada), rows)
        else if !saveOk then Raised(DbUpdateException, rows)
        else
          var saved := rows[i := rows[i].(PendienteAprobacion := false)];
          if notify.Delivered? then
            Done(OperationResult(true, None), saved,
                 Some(Email(rows[i].AutorId, AsuntoAprobada, CuerpoAprobada(rows[i].Titulo))))
          else Raised(NotifierException(notify), saved)
  }

  /** The approval's outcome: its result, the durable table afterwards, and
      the e-mail delivered, if any. */
  datatype Approval = Approval(result: OperationResult, publicaciones: seq<Publicacion>, enviado: Option<Email>)

  /** Approving publication `id`: the `try` body, with every exception it
      raises turned into a failed result by the catch clauses. */
  function Aprobar(rows: seq<Publicacion>, id: int, saveOk: bool, notify: NotifyOutcome): (a: Approval)
    // a result is a success exactly when an e-mail went out, and then carries no message
    ensures a.result.Success <==> a.enviado.Some?
    ensures a.result.Success ==> a.result.ErrorMessage.None?
    ensures !a.result.Success ==> a.result.ErrorMessage.Some?
    // a non-positive identifier is refused before any lookup
    ensures id <= 0 ==> a == Approval(Failure(IdNoPositivo), rows, None)
    ensures id > 0 && Find(rows, id).None? ==> a == Approval(Failure(NoEncontrada), rows, None)
    ensures id > 0 && Find(rows, id).Some? ==>
      var i := Find(rows, id).value;
      var p := rows[i];
      && (!p.PendienteAprobacion ==> a == Approval(Failure(YaAprobada), rows, None))
      // a failed save leaves the table as it was and sends nothing
      && (p.PendienteAprobacion && !saveOk ==> a == Approval(Failure(ErrorBaseDeDatos), rows, None))
      // a committed approval clears the flag of that row and nothing else, whatever the notifier does
      && (p.PendienteAprobacion && saveOk ==>
            && a.publicaciones == rows[i := p.(PendienteAprobacion := false)]
            && (notify.Delivered? ==>
                  a.result == OperationResult(true, None) &&
                  a.enviado == Some(Email(p.AutorId, AsuntoAprobada, CuerpoAprobada(p.Titulo))))
            && (PassesMessage(notify) ==>
                  a.result == Failure(notify.Message) && a.enviado.None?)
            && (notify.MalformedSetting? || notify.TransportFailed? ==>
                  a.result == Failure(ErrorInesperado) && a.enviado.None?))
    // the table changes exactly when a pending row's approval is committed
    ensures a.publicaciones != rows <==>
      id > 0 && Find(rows, id).Some? && rows[Find(rows, id).value].PendienteAprobacion && saveOk
  {
    match AprobarTry(rows, id, saveOk, notify)
    case Done(r, t, e) => Approval(r, t, e)
    case Raised(ex, t) => Approval(Failure(ApproveCatch(ex)), t, None)
  }

  /** The outcome of rejecting, updating or deleting: the value returned or
      the exception thrown, with the durable table afterwards. */
  datatype Change = Change(outcome: Outcome, publicaciones: seq<Publicacion>)

  datatype Outcome = Returned(value: bool) | Thrown(exception: Exception)

  /** Rejecting publication `id`. The ArgumentException of a non-positive
      identifier is caught and becomes `false`; a failed save is not caught. */
  function Rechazar(rows: seq<Publicacion>, id: int, saveOk: bool): (c: Change)
    ensures c.outcome == Returned(true) <==> id > 0 && Find(rows, id).Some? && saveOk
    ensures id <= 0 || Find(rows, id).None? ==> c == Change(Returned(false), rows)
    ensures id > 0 && Find(rows, id).Some? ==>
      c == if saveOk then Change(Returned(true), RemoveAt(rows, Find(rows, id).value))
           else Change(Thrown(DbUpdateException), rows)
  {
    if id <= 0 then Change(Returned(false), rows)
    else match Find(rows, id)
      case None => Change(Returned(false), rows)
      case Some(i) =>
        if saveOk then Change(Returned(true), RemoveAt(rows, i))
        else Change(Thrown(DbUpdateException), rows)
  }

  /** The validation of an update, in the order the service checks it. */
  function ValidarActualizacion(id: int, payload: Option<Payload>): (e: Option<Exception>)
    ensures e.None? <==>
      id > 0 && payload.Some? &&
      !IsNullOrWhiteSpace(payload.value.Titulo) && !IsNullOrWhiteSpace(payload.value.Contenido)
  {
    if id <= 0 then Some(ArgumentException(IdNoPositivo))
    else if payload.None? then Some(ArgumentNullException("publicacionActualizada", PayloadNulo))
    else if IsNullOrWhiteSpace(payload.value.Titulo) then Some(ArgumentException(TituloVacio))
    else if IsNullOrWhiteSpace(payload.value.Contenido) then Some(ArgumentException(ContenidoVacio))
    else None
  }

  /** Updating the title and content of publication `id`. */
  function Actualizar(rows: seq<Publicacion>, id: int, payload: Option<Payload>, saveOk: bool): (c: Change)
    // every validation failure is thrown, in the order checked, before the table is read
    ensures id <= 0 ==> c == Change(Thrown(ArgumentException(IdNoPositivo)), rows)
    ensures id > 0 && payload.None? ==>
      c == Change(Thrown(ArgumentNullException("publicacionActualizada", PayloadNulo)), rows)
    ensures id > 0 && payload.Some? && IsNullOrWhiteSpace(payload.value.Titulo) ==>
      c == Change(Thrown(ArgumentException(TituloVacio)), rows)
    ensures id > 0 && payload.Some? && !IsNullOrWhiteSpace(payload.value.Titulo)
              && IsNullOrWhiteSpace(payload.value.Contenido) ==>
      c == Change(Thrown(ArgumentException(ContenidoVacio)), rows)
    ensures ValidarActualizacion(id, payload).None? ==>
      && (Find(rows, id).None? ==> c == Change(Returned(false), rows))
      && (Find(rows, id).Some? && !saveOk ==> c == Change(Thrown(DbUpdateException), rows))
      // only the title and the content of that row change
      && (Find(rows, id).Some? && saveOk ==>
            var i := Find(rows, id).value;
            c == Change(Returned(true), rows[i := rows[i].(Titulo := payload.value.Titulo.value,
                                                          Contenido := payload.value.Contenido.value)]))
    ensures c.publicaciones != rows ==> c.outcome == Returned(true)
  {
    match ValidarActualizacion(id, payload)
    case Some(e) => Change(Thrown(e), rows)
    case None =>
      match Find(rows, id)
      case None => Change(Returned(false), rows)
      case Some(i) =>
        if !saveOk then Change(Thrown(DbUpdateException), rows)
        else
          var p := payload.value;
          Change(Returned(true), rows[i := rows[i].(Titulo := p.Titulo.value, Contenido := p.Contenido.value)])
  }

  /** Deleting publication `id`. A non-positive identifier is thrown. */
  function Eliminar(rows: seq<Publicacion>, id: int, saveOk: bool): (c: Change)
    ensures c.outcome == Returned(true) <==> id > 0 && Find(rows, id).Some? && saveOk
    ensures id <= 0 ==> c == Change(Thrown(ArgumentException(IdNoPositivo)), rows)
    ensures id > 0 && Find(rows, id).None? ==> c == Change(Returned(false), rows)
    ensures id > 0 && Find(rows, id).Some? ==>
      c == if saveOk then Change(Returned(true), RemoveAt(rows, Find(rows, id).value))
           else Change(Thrown(DbUpdateException), rows)
  {
    if id <= 0 then Change(Thrown(ArgumentException(IdNoPositivo)), rows)
    else match Find(rows, id)
      case None => Change(Returned(false), rows)
      case Some(i) =>
        if !saveOk then Change(Thrown(DbUpdateException), rows)
        else Change(Returned(true), RemoveAt(rows, i))
  }
}
