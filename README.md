# Publication moderation service — a Dafny model

This project models `PublicacionService`, the publication moderation service of
the TestAoniken Web API. The service keeps a table of publications. Each
publication is pending (`PendienteAprobacion = true`), approved (`false`), or
gone (rejected or deleted). The service has five operations:

- list the pending publications;
- approve one, which clears its flag, saves, and then e-mails the author;
- reject one, which removes its row;
- update one's title and content;
- delete one, which removes its row.

The model has four modules:

- `Modelos` (`modelos.dfy`) holds the entities. These are the table rows
  (`Publicacion`), the update request body (`Payload`), the approval result
  (`OperationResult`) and the e-mail (`Email`). It also holds .NET's
  `string.IsNullOrWhiteSpace` and the two queries the service runs on the table:
  the pending filter (`Pending`) and the lookup by identifier (`Find`).
- `Moderacion` (`moderacion.dfy`) holds one pure function per state-changing
  operation (`Aprobar`, `Rechazar`, `Actualizar`, `Eliminar`). Each gives the
  value returned or the exception thrown, and the table afterwards. For the
  approval it also gives the e-mail sent. It also holds the exceptions
  (`Exception`), the approval's catch clauses (`ApproveCatch`) and all message
  constants.
- `Servicios` (`servicio.dfy`) holds the class `PublicacionService`. Its
  `publicaciones` field is the durable table. Its `enviados` field logs the
  delivered e-mails. Each method does the source's steps in place: validate,
  look up, check the state, change or remove the row, save, notify. Each
  method is proved to end in the state its `Moderacion` function gives.
- `Propiedades` (`propiedades.dfy`) holds lemmas that relate several calls,
  or a call and the listing and lookups that follow it.

The table is a sequence of rows with no two rows sharing an `Id` (the
primary key, `UniqueIds`). Approval finds its row with `FirstOrDefaultAsync(p => p.Id == id)`. The other operations use
`FindAsync(id)`. Because ids are unique these two lookups find the same row
(`FindByKey`). Both are modelled by `Find`, the first row with that id.
The pending query has no `OrderBy`, so the program leaves the order of the
listed rows unspecified. The model fixes one order for the store, the order
of the sequence, and the listing keeps that order.

The two collaborators are explicit inputs to each call:

- `saveOk` says whether `SaveChangesAsync` commits. A failed save raises a
  `DbUpdateException` and leaves the durable table unchanged.
- `notify` says what the notifier (`EmailService.SendEmailAsync`) does with the
  approval e-mail. It may deliver it (`Delivered`). It may fail because the user
  does not exist, raising an ArgumentException (`UserNotFound`). It may fail
  because the user has no e-mail address, raising an InvalidOperationException
  (`NoEmail`). A mail setting it reads before sending may be missing: parsing
  the port or building the sender address then throws an
  ArgumentNullException that the notifier does not catch (`MissingSetting`).
  Such a setting may be malformed: parsing the port then throws a
  FormatException, also not caught (`MalformedSetting`). Or the transport may
  fail, which the notifier rethrows as an ApplicationException
  (`TransportFailed`). Each failure carries the exception's message.

The approval's `catch (SmtpException)` clause can never run. The notifier wraps
every SMTP error in an ApplicationException, so an SMTP failure gets the generic
message "Ocurrió un error inesperado." and never "Error al enviar el correo
electrónico." (`CatchSmtpInalcanzable`).

Further facts about the service that the model keeps:

- Approval returns an `OperationResult`; reject, update and delete return a
  bool or throw.
- Update and delete throw on invalid input. Reject swallows the same
  ArgumentException and returns `false`.
- When the notifier fails because the user is unknown, has no e-mail address,
  or a mail setting is missing, approval passes that exception's own message
  to the caller, not a generic one.
- A failed save in reject, update or delete is not caught. It escapes as a
  thrown `DbUpdateException`, with the table unchanged.

## Model

| member | source | states |
|---|---|---|
| `Modelos.Find` | WebAPI/Servicios/PublicacionService.cs:43-47 | The lookup returns the first row whose `Id` matches; it returns none exactly when no row has that `Id`. |
| `Modelos.FindByKey` | WebAPI/Servicios/PublicacionService.cs:104 | With a unique primary key, the first-match lookup finds row `i` exactly when row `i` has that `Id`, so it agrees with `FindAsync` by key. |
| `Modelos.FindAfterUpdate` | WebAPI/Servicios/PublicacionService.cs:58-59 | Rewriting a row in place without changing its `Id` leaves every lookup unchanged. |
| `Modelos.Pending` | WebAPI/Servicios/PublicacionService.cs:23-30 | The listing holds exactly the stored rows whose `PendienteAprobacion` is true, and is never longer than the table. |
| `Modelos.PendingAppend` | WebAPI/Servicios/PublicacionService.cs:28-29 | The filter goes row by row: listing a table split in two gives the first part's listing followed by the second's, so the listing keeps the model's row order (the program itself specifies no order). |
| `Modelos.RemoveAt` | WebAPI/Servicios/PublicacionService.cs:110-111 | Removing row `i` leaves the rows before it in place and shifts the rows after it down by one. |
| `Modelos.RemoveRow` | WebAPI/Servicios/PublicacionService.cs:168-169 | With a unique key, removing the row of an id leaves exactly the rows with another id, keeps the key unique, and the lookup of the removed id then finds nothing. |
| `Moderacion.Aprobar` | WebAPI/Servicios/PublicacionService.cs:32-93 | The approval's full case table. It is the `try` body of lines 36-67 (`Moderacion.AprobarTry`) followed by the catch-to-message mapping of lines 68-92 (`Moderacion.ApproveCatch`). A non-positive id and an absent id fail with their messages and change nothing. An already-approved row fails with "La publicación ya está aprobada.". A failed save fails with the storage message, leaves the table unchanged and sends no e-mail. A committed save clears only that row's flag. A delivered e-mail goes to the author with the fixed subject and the titled body, and the result is then success with no message. A notifier failure keeps the approval (no rollback): unknown user, no address and a missing mail setting pass their message on; a malformed mail setting and a transport failure get the generic message. The result is a success exactly when an e-mail was sent. The table changes exactly when a pending row's approval commits. |
| `Moderacion.Rechazar` | WebAPI/Servicios/PublicacionService.cs:95-119 | Rejection returns true exactly when the id is positive, present and the save commits, and then removes that row. A non-positive id (its ArgumentException is caught) and an absent id return false with the table unchanged. A failed save is thrown with the table unchanged. |
| `Moderacion.ValidarActualizacion` | WebAPI/Servicios/PublicacionService.cs:123-141 | The update's input is accepted exactly when the id is positive, the payload is not null, and neither title nor content is null or white space. |
| `Moderacion.Actualizar` | WebAPI/Servicios/PublicacionService.cs:121-153 | Update throws before reading the table, checking in order: a non-positive id (ArgumentException), a null payload (ArgumentNullException), a blank title, a blank content. An absent id returns false. A failed save is thrown. Otherwise only that row's title and content are replaced and it returns true. The table changes only when it returns true. |
| `Moderacion.Eliminar` | WebAPI/Servicios/PublicacionService.cs:155-171 | Deletion throws ArgumentException for a non-positive id. An absent id returns false. A present id with a committed save removes that row and returns true. A failed save is thrown with the table unchanged. |
| `Servicios.PublicacionService.constructor` | WebAPI/Servicios/PublicacionService.cs:17-21 | The service starts over an existing table with a unique key and an empty e-mail log. |
| `Servicios.PublicacionService.ObtenerPublicacionesPendientes` | WebAPI/Servicios/PublicacionService.cs:23-30 | Reading only the table, the listing holds exactly the stored publications that are pending. |
| `Servicios.PublicacionService.AprobarPublicacion` | WebAPI/Servicios/PublicacionService.cs:32-93 | The method validates, looks up, checks and commits in place before notifying. Its result and new table are those of `Aprobar`. The e-mail log grows by the one e-mail `Aprobar` sends, or not at all. The key stays unique. |
| `Servicios.PublicacionService.RechazarPublicacion` | WebAPI/Servicios/PublicacionService.cs:95-119 | The method removes the row in place. Its outcome and new table are those of `Rechazar`. No e-mail is sent and the key stays unique. |
| `Servicios.PublicacionService.ActualizarPublicacion` | WebAPI/Servicios/PublicacionService.cs:121-153 | The method rewrites the title and content in place. Its outcome and new table are those of `Actualizar`. No e-mail is sent and the key stays unique. |
| `Servicios.PublicacionService.EliminarPublicacion` | WebAPI/Servicios/PublicacionService.cs:155-171 | The method removes the row in place. Its outcome and new table are those of `Eliminar`. No e-mail is sent and the key stays unique. |
| `Propiedades.AprobarDosVeces` | WebAPI/Servicios/PublicacionService.cs:53-66 | Two approvals of the same id in a row give at most one success and at most one e-mail. Once the first commits, the second fails with "La publicación ya está aprobada." and changes nothing, whatever its save and notifier do. |
| `Propiedades.AprobarRetiraDePendientes` | WebAPI/Servicios/PublicacionService.cs:58-59 | After a committed approval, the pending listing holds exactly the rows listed before whose id differs. The approved row is still stored, with its flag cleared. |
| `Propiedades.RemocionQuitaRegistro` | WebAPI/Servicios/PublicacionService.cs:104-112 | After a successful reject or delete, a lookup of that id finds nothing. The table is one row shorter and holds exactly the rows with another id. The pending listing loses only that row. |
| `Propiedades.RechazarComoEliminar` | WebAPI/Servicios/PublicacionService.cs:97-118 | For a positive id, reject and delete have the same outcome and leave the same table. For a non-positive id, reject returns false and delete throws ArgumentException; both leave the table unchanged. |
| `Propiedades.ActualizarSoloTextos` | WebAPI/Servicios/PublicacionService.cs:149-151 | An update keeps every row's id, author and moderation flag in place, and the pending listing keeps its length. |
| `Propiedades.InvariantesDeTabla` | WebAPI/Servicios/PublicacionService.cs:58-170 | Approve, reject, update and delete each preserve two table invariants: the unique primary key, and a non-blank title and content on every stored row. |
| `Propiedades.CatchSmtpInalcanzable` | WebAPI/Servicios/PublicacionService.cs:83-92 | For the modelled notifier outcomes, the approval's `try` body never raises an SmtpException. After a committed save, a transport failure or a malformed mail setting gets the generic message, and a missing mail setting passes its message on. |
| `Propiedades.EscenarioAprobacion` | WebAPI/Servicios/PublicacionService.cs:58-66 | Concrete run: pending publication 5 "Draft" by author 7 is approved. Its flag is cleared. Author 7 gets "Publicación aprobada" / "Tu publicación 'Draft' ha sido aprobada.". The result is a success. A second approval reports "La publicación ya está aprobada.". Approving -3 fails validation with the table unchanged. |
| `Propiedades.ActualizarRechazaVacios` | WebAPI/Servicios/PublicacionService.cs:133-141 | An update with an empty title, or with a valid title and an empty content, throws the matching ArgumentException and leaves the table unchanged. |

## Left out

- Asynchrony (`async`/`await`), Entity Framework change tracking and `AsNoTracking` are left out. Each call is one sequential step.
- The `Include(p => p.Autor)` join is left out. Listed rows carry `AutorId` only, and the author data affects no decision.
- After a failed approval save, the tracked entity stays modified in the `DbContext`. That is not modelled: the next call starts from the durable table.
- Concurrent requests are left out, and so is the read-check-write race between two concurrent approvals. Only single calls and sequences of calls are modelled.
- `EmailService` is left out: SMTP transport, configuration lookup, `int.Parse` of the port and console logging. Its only role here is the outcome `notify`, whose messages are inputs. `EmailService`'s user lookup is likewise not modelled.
- Storage failures are modelled only as `DbUpdateException` from `SaveChangesAsync`. Failures of the lookups themselves, and any other exception from the store, are not modelled.
- Whether the store is read is not observable in the model. "No lookup before validation" shows only as an outcome and a table that do not depend on the table's contents.
- `Moderacion.Actualizar`: an ArgumentNullException keeps its message and parameter name apart, while .NET appends the parameter name to `Message`. No caller reads that message.
- `OperationResult.cs` is not part of this model. The model assumes `Success` starts false and `ErrorMessage` starts null (`None`).
- `PublicacionController.cs` (HTTP routing and status codes) is not part of this model. `IPublicacionService.cs` only lists the five signatures modelled here.
- The property "a pending publication has never been notified of its approval" is not stated: an e-mail does not record which publication it announced.
- `Propiedades.CatchSmtpInalcanzable`: holds for the six modelled notifier outcomes only. Configuration failures escape the notifier unwrapped. The model covers a missing setting (ArgumentNullException, message passed on) and a malformed port (FormatException, generic message). An overflowing port (OverflowException) or a sender address of the wrong form also escape; their approval outcome is the one `MalformedSetting(_)` gives, or `MissingSetting` for an empty address (an ArgumentException). None of these is an SmtpException.
- The C# entity allows null `Titulo` and `Contenido` on stored rows. The model stores them as non-null strings.
