/** The publication service: the durable publications table it reads and
    writes, and the log of e-mails its notifier has delivered. Each operation
    validates its input, looks the row up, checks its state, changes or
    removes it, saves, and (the approval only) notifies the author. */
module Servicios {
  import opened Modelos
  import opened Moderacion

  class PublicacionService {
    /** The durable `Publicaciones` table, rows in the order the store returns them. */
    var publicaciones: seq<Publicacion>
    /** The e-mails the notifier has delivered, oldest first. */
    var enviados: seq<Email>

    /** The table keeps its primary key. */
    ghost predicate Valid()
      reads this
    {
      UniqueIds(publicaciones)
    }

    /** A service over an existing table, before any e-mail has been sent. */
    constructor (tabla: seq<Publicacion>)
      requires UniqueIds(tabla)
      ensures Valid()
      ensures publicaciones == tabla && enviados == []
    {
      publicaciones := tabla;
      enviados := [];
    }

    /** The pending publications, in table order; reads the table only. */
    function ObtenerPublicacionesPendientes(): (r: seq<Publicacion>)
      reads this
      ensures forall p :: p in r <==> p in publicaciones && p.PendienteAprobacion
    {
      Pending(publicaciones)
    }

    method AprobarPublicacion(id: int, saveOk: bool, notify: NotifyOutcome) returns (result: OperationResult)
      requires Valid()
      modifies this
      ensures Valid()
      ensures var a := Aprobar(old(publicaciones), id, saveOk, notify);
        && result == a.result
        && publicaciones == a.publicaciones
        && enviados == old(enviados) + (if a.enviado.Some? then [a.enviado.value] else [])
    {
      var raised: Exception;
      if id <= 0 {
        raised := ArgumentException(IdNoPositivo);
      } else {
        var found := Find(publicaciones, id);
        if found.None? {
          return Failure(NoEncontrada);
        }
        var i := found.value;
        var p := publicaciones[i];
        if !p.PendienteAprobacion {
          raised := InvalidOperationException(YaAprobada);
        } else if !saveOk {
          // the flag was changed on the tracked row only; nothing reaches the table
          raised := DbUpdateException;
        } else {
          publicaciones := publicaciones[i := p.(PendienteAprobacion := false)];
          if notify.Delivered? {
            enviados := enviados + [Email(p.AutorId, AsuntoAprobada, CuerpoAprobada(p.Titulo))];
            return OperationResult(true, None);
          }
          raised := NotifierException(notify);
        }
      }
      result := Failure(ApproveCatch(raised));
    }

    method RechazarPublicacion(id: int, saveOk: bool) returns (outcome: Outcome)
      requires Valid()
      modifies this
      ensures Valid()
      ensures var c := Rechazar(old(publicaciones), id, saveOk);
        outcome == c.outcome && publicaciones == c.publicaciones
      ensures enviados == old(enviados)
    {
      if id <= 0 {
        // the ArgumentException is caught by the method's own handler
        return Returned(false);
      }
      var found := Find(publicaciones, id);
      if found.None? {
        return Returned(false);
      }
      if !saveOk {
        return Thrown(DbUpdateException);
      }
      publicaciones := RemoveAt(publicaciones, found.value);
      outcome := Returned(true);
    }

    method ActualizarPublicacion(id: int, publicacionActualizada: Option<Payload>, saveOk: bool)
      returns (outcome: Outcome)
      requires Valid()
      modifies this
      ensures Valid()
      ensures var c := Actualizar(old(publicaciones), id, publicacionActualizada, saveOk);
        outcome == c.outcome && publicaciones == c.publicaciones
      ensures enviados == old(enviados)
    {
      if id <= 0 {
        return Thrown(ArgumentException(IdNoPositivo));
      }
      if publicacionActualizada.None? {
        return Thrown(ArgumentNullException("publicacionActualizada", PayloadNulo));
      }
      var titulo := publicacionActualizada.value.Titulo;
      var contenido := publicacionActualizada.value.Contenido;
      if IsNullOrWhiteSpace(titulo) {
        return Thrown(ArgumentException(TituloVacio));
      }
      if IsNullOrWhiteSpace(contenido) {
        return Thrown(ArgumentException(ContenidoVacio));
      }
      var found := Find(publicaciones, id);
      if found.None? {
        return Returned(false);
      }
      if !saveOk {
        return Thrown(DbUpdateException);
      }
      var i := found.value;
      publicaciones := publicaciones[i := publicaciones[i].(Titulo := titulo.value, Contenido := contenido.value)];
      outcome := Returned(true);
    }

    method EliminarPublicacion(id: int, saveOk: bool) returns (outcome: Outcome)
      requires Valid()
      modifies this
      ensures Valid()
      ensures var c := Eliminar(old(publicaciones), id, saveOk);
        outcome == c.outcome && publicaciones == c.publicaciones
      ensures enviados == old(enviados)
    {
      if id <= 0 {
        return Thrown(ArgumentException(IdNoPositivo));
      }
      var found := Find(publicaciones, id);
      if found.None? {
        return Returned(false);
      }
      if !saveOk {
        return Thrown(DbUpdateException);
      }
      publicaciones := RemoveAt(publicaciones, found.value);
      outcome := Returned(true);
    }
  }
}
