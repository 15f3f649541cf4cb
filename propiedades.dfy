/** Properties of the moderation operations that relate several calls, or a
    call and the listing and lookups that follow it. */
module Propiedades {
  import opened Modelos
  import opened Moderacion

  /** Two approvals of the same publication in a row succeed at most once and
      send at most one e-mail: once the first has committed the flag, the
      second finds the row approved and changes nothing, whatever its save
      and its notifier do. */
  lemma AprobarDosVeces(rows: seq<Publicacion>, id: int,
                        save1: bool, notify1: NotifyOutcome, save2: bool, notify2: NotifyOutcome)
    ensures var a1 := Aprobar(rows, id, save1, notify1);
            var a2 := Aprobar(a1.publicaciones, id, save2, notify2);
            && !(a1.result.Success && a2.result.Success)
            && !(a1.enviado.Some? && a2.enviado.Some?)
            && (a1.publicaciones != rows ==> a2 == Approval(Failure(YaAprobada), a1.publicaciones, None))
  {
  }

  /** A committed approval takes exactly that publication out of the pending
      listing: the rows still listed are the ones listed before with another
      identifier, and the row of `id` is still there, approved. */
  lemma AprobarRetiraDePendientes(rows: seq<Publicacion>, id: int, saveOk: bool, notify: NotifyOutcome)
    requires UniqueIds(rows)
    requires Aprobar(rows, id, saveOk, notify).publicaciones != rows
    ensures var t := Aprobar(rows, id, saveOk, notify).publicaciones;
            && (forall p :: p in Pending(t) <==> p in Pending(rows) && p.Id != id)
            && Find(t, id).Some? && !t[Find(t, id).value].PendienteAprobacion
  {
    var i := Find(rows, id).value;
    var q := rows[i].(PendienteAprobacion := false);
    var t := rows[i := q];
    FindAfterUpdate(rows, i, q, id);
    forall p | p in Pending(rows) && p.Id != id
      ensures p in t
    {
      var k :| 0 <= k < |rows| && rows[k] == p;
      assert k != i && t[k] == p;
    }
    forall p | p in t && p.PendienteAprobacion
      ensures p in rows && p.Id != id
    {
      var k :| 0 <= k < |t| && t[k] == p;
      assert k != i && rows[k] == p;
    }
  }

  /** A publication that was rejected or deleted is gone: the lookup of its
      identifier finds nothing, exactly the rows with another identifier
      remain, one row fewer, and the pending listing loses that row only. */
  lemma RemocionQuitaRegistro(rows: seq<Publicacion>, id: int, saveOk: bool)
    requires UniqueIds(rows)
    ensures var r := Rechazar(rows, id, saveOk);
            r.outcome == Returned(true) ==>
              && Find(r.publicaciones, id).None?
              && |r.publicaciones| == |rows| - 1
              && (forall p :: p in r.publicaciones <==> p in rows && p.Id != id)
              && (forall p :: p in Pending(r.publicaciones) <==> p in Pending(rows) && p.Id != id)
    ensures var e := Eliminar(rows, id, saveOk);
            e.outcome == Returned(true) ==>
              && Find(e.publicaciones, id).None?
              && |e.publicaciones| == |rows| - 1
              && (forall p :: p in e.publicaciones <==> p in rows && p.Id != id)
              && (forall p :: p in Pending(e.publicaciones) <==> p in Pending(rows) && p.Id != id)
  {
  }

  /** Rejecting and deleting remove the record the same way; they differ only
      on a non-positive identifier, which rejecting answers with `false` and
      deleting with an ArgumentException. */
  lemma RechazarComoEliminar(rows: seq<Publicacion>, id: int, saveOk: bool)
    ensures id > 0 ==> Rechazar(rows, id, saveOk) == Eliminar(rows, id, saveOk)
    ensures id <= 0 ==>
      && Rechazar(rows, id, saveOk) == Change(Returned(false), rows)
      && Eliminar(rows, id, saveOk) == Change(Thrown(ArgumentException(IdNoPositivo)), rows)
  {
  }

  /** An update rewrites at most the title and the content: every row keeps
      its identifier, author and moderation state, in place, and the pending
      listing keeps its length. */
  lemma ActualizarSoloTextos(rows: seq<Publicacion>, id: int, payload: Option<Payload>, saveOk: bool)
    ensures var t := Actualizar(rows, id, payload, saveOk).publicaciones;
            && |t| == |rows|
            && (forall k :: 0 <= k < |t| ==>
                  && t[k].Id == rows[k].Id
                  && t[k].AutorId == rows[k].AutorId
                  && t[k].PendienteAprobacion == rows[k].PendienteAprobacion)
            && |Pending(t)| == |Pending(rows)|
  {
    var t := Actualizar(rows, id, payload, saveOk).publicaciones;
    if t != rows {
      PendingSameFlags(rows, t);
    }
  }

  /** Two tables whose rows have the same moderation flags, place by place,
      list the same number of pending rows. */
  lemma {:induction false} PendingSameFlags(a: seq<Publicacion>, b: seq<Publicacion>)
    requires |a| == |b|
    requires forall k :: 0 <= k < |a| ==> a[k].PendienteAprobacion == b[k].PendienteAprobacion
    ensures |Pending(a)| == |Pending(b)|
  {
    if |a| > 0 {
      PendingSameFlags(a[1..], b[1..]);
    }
  }

  /** Every operation keeps the table's invariants: the primary key, and a
      title and a content that are not blank on every stored row. */
  lemma InvariantesDeTabla(rows: seq<Publicacion>, id: int, payload: Option<Payload>,
                           saveOk: bool, notify: NotifyOutcome)
    requires UniqueIds(rows) && NonBlank(rows)
    ensures var t := Aprobar(rows, id, saveOk, notify).publicaciones; UniqueIds(t) && NonBlank(t)
    ensures var t := Rechazar(rows, id, saveOk).publicaciones; UniqueIds(t) && NonBlank(t)
    ensures var t := Actualizar(rows, id, payload, saveOk).publicaciones; UniqueIds(t) && NonBlank(t)
    ensures var t := Eliminar(rows, id, saveOk).publicaciones; UniqueIds(t) && NonBlank(t)
  {
    if id > 0 && Find(rows, id).Some? {
      var i := Find(rows, id).value;
      RemoveRow(rows, i);
      RemovalKeepsNonBlank(rows, i);
      RewriteKeepsInvariants(rows, i, rows[i].(PendienteAprobacion := false));
      if ValidarActualizacion(id, payload).None? {
        var p := payload.value;
        RewriteKeepsInvariants(rows, i, rows[i].(Titulo := p.Titulo.value, Contenido := p.Contenido.value));
      }
    }
  }

  /** Removing a row keeps every remaining title and content non-blank. */
  lemma RemovalKeepsNonBlank(rows: seq<Publicacion>, i: nat)
    requires NonBlank(rows) && i < |rows|
    ensures NonBlank(RemoveAt(rows, i))
  {
    var r := RemoveAt(rows, i);
    forall k | 0 <= k < |r|
      ensures !IsNullOrWhiteSpace(Some(r[k].Titulo)) && !IsNullOrWhiteSpace(Some(r[k].Contenido))
    {
      if k < i { assert r[k] == rows[k]; } else { assert r[k] == rows[k + 1]; }
    }
  }

  /** Rewriting one row with its identifier kept and non-blank texts keeps
      both invariants. */
  lemma RewriteKeepsInvariants(rows: seq<Publicacion>, i: nat, q: Publicacion)
    requires UniqueIds(rows) && NonBlank(rows) && i < |rows| && q.Id == rows[i].Id
    requires !IsNullOrWhiteSpace(Some(q.Titulo)) && !IsNullOrWhiteSpace(Some(q.Contenido))
    ensures UniqueIds(rows[i := q]) && NonBlank(rows[i := q])
  {
  }

  /** The approval's `catch (SmtpException)` clause is never reached: the
      notifier rethrows SMTP errors wrapped in an ApplicationException, so a
      transport failure after a committed save gets the generic message, as
      does a malformed mail setting; a missing mail setting escapes the
      notifier unwrapped and its message is passed on. */
  lemma CatchSmtpInalcanzable(rows: seq<Publicacion>, id: int, saveOk: bool, notify: NotifyOutcome)
    ensures var t := AprobarTry(rows, id, saveOk, notify);
            t.Raised? ==>
              && !t.exception.SmtpException?
              && (t.publicaciones != rows ==>
                    && (notify.TransportFailed? || notify.MalformedSetting? ==>
                          ApproveCatch(t.exception) == ErrorInesperado)
                    && (notify.MissingSetting? ==> ApproveCatch(t.exception) == notify.Message))
  {
  }

  /** A pending publication 5, "Draft" by author 7, approved with a committed
      save and a delivered e-mail: the flag is cleared, author 7 gets the
      approval e-mail naming the title, and the result is a success; a second
      approval then reports the publication as already approved and sends
      nothing. */
  lemma EscenarioAprobacion()
    ensures var rows := [Publicacion(5, "Draft", "Body", 7, true)];
            var a1 := Aprobar(rows, 5, true, Delivered);
            var a2 := Aprobar(a1.publicaciones, 5, true, Delivered);
            && a1.result == OperationResult(true, None)
            && a1.publicaciones == [Publicacion(5, "Draft", "Body", 7, false)]
            && a1.enviado == Some(Email(7, "Publicación aprobada", "Tu publicación 'Draft' ha sido aprobada."))
            && a2 == Approval(OperationResult(false, Some("La publicación ya está aprobada.")), a1.publicaciones, None)
            && Aprobar(rows, -3, true, Delivered) == Approval(Failure(IdNoPositivo), rows, None)
  {
    var rows := [Publicacion(5, "Draft", "Body", 7, true)];
    assert Find(rows, 5) == Some(0);
    var a1 := Aprobar(rows, 5, true, Delivered);
    assert a1.result == OperationResult(true, None);
    assert a1.publicaciones == [Publicacion(5, "Draft", "Body", 7, false)];
    assert a1.enviado == Some(Email(7, AsuntoAprobada, CuerpoAprobada("Draft")));
    assert CuerpoAprobada("Draft") == "Tu publicación 'Draft' ha sido aprobada.";
    assert Find(a1.publicaciones, 5) == Some(0);
  }

  /** An update whose title or content is empty fails validation and leaves
      the table as it was. */
  lemma ActualizarRechazaVacios(rows: seq<Publicacion>, id: int, texto: string, saveOk: bool)
    requires id > 0
    ensures Actualizar(rows, id, Some(Payload(Some(""), Some(texto))), saveOk)
              == Change(Thrown(ArgumentException(TituloVacio)), rows)
    ensures !IsNullOrWhiteSpace(Some(texto)) ==>
              Actualizar(rows, id, Some(Payload(Some(texto), Some(""))), saveOk)
                == Change(Thrown(ArgumentException(ContenidoVacio)), rows)
  {
  }
}
