/** Entities of the moderation core: the rows of the publications table, the
    body of an update request, the approval result and the e-mails the
    notifier delivers; with the two queries the service runs against the
    table (the pending listing and the lookup by identifier). */
module Modelos {

  datatype Option<+T> = None | Some(value: T)

  /** One row of the publications table. `PendienteAprobacion` is true while
      the row awaits moderation and false once it is approved; a rejected or
      deleted publication has no row at all. */
  datatype Publicacion = Publicacion(
    Id: int,
    Titulo: string,
    Contenido: string,
    AutorId: int,
    PendienteAprobacion: bool)

  /** The two fields of an update request body that the update reads; a null
      string is `None`. */
  datatype Payload = Payload(Titulo: Option<string>, Contenido: Option<string>)

  /** The approval's result. `ErrorMessage == None` is a message never
      assigned (the property's default, null). */
  datatype OperationResult = OperationResult(Success: bool, ErrorMessage: Option<string>)

  /** A failed OperationResult carrying message `m`. */
  function Failure(m: string): OperationResult
  {
    OperationResult(false, Some(m))
  }

  /** An e-mail handed to the notifier: recipient user, subject and body. */
  datatype Email = Email(UsuarioId: int, Subject: string, Body: string)

  /** .NET's `char.IsWhiteSpace`: the Unicode space, line and paragraph
      separators, the controls U+0009 to U+000D, and U+0085. */
  predicate IsWhiteSpace(c: char)
  {
    var n := c as int;
    || 0x09 <= n <= 0x0D
    || n == 0x20 || n == 0x85 || n == 0xA0 || n == 0x1680
    || 0x2000 <= n <= 0x200A
    || n == 0x2028 || n == 0x2029 || n == 0x202F || n == 0x205F || n == 0x3000
  }

  /** `string.IsNullOrWhiteSpace`: null, empty, or white space only. */
  predicate IsNullOrWhiteSpace(s: Option<string>)
  {
    s.None? || forall i :: 0 <= i < |s.value| ==> IsWhiteSpace(s.value[i])
  }

  /** The primary key: no two rows share an `Id`. */
  predicate UniqueIds(rows: seq<Publicacion>)
  {
    forall i, j :: 0 <= i < j < |rows| ==> rows[i].Id != rows[j].Id
  }

  /** Every stored row has a title and a content that are not blank. */
  predicate NonBlank(rows: seq<Publicacion>)
  {
    forall i :: 0 <= i < |rows| ==>
      !IsNullOrWhiteSpace(Some(rows[i].Titulo)) && !IsNullOrWhiteSpace(Some(rows[i].Contenido))
  }

  /** The position of the first row whose `Id` is `id`, the row that
      `FirstOrDefaultAsync(p => p.Id == id)` yields; `None` when there is none. */
  function Find(rows: seq<Publicacion>, id: int): (r: Option<nat>)
    ensures r.Some? ==> r.value < |rows| && rows[r.value].Id == id
    ensures r.Some? ==> forall k :: 0 <= k < r.value ==> rows[k].Id != id
    ensures r.None? <==> forall k :: 0 <= k < |rows| ==> rows[k].Id != id
  {
    if |rows| == 0 then None
    else if rows[0].Id == id then Some(0)
    else match Find(rows[1..], id)
      case None => None
      case Some(k) => Some(k + 1)
  }

  /** Under the primary key the first match is the only match, so the lookup
      by key (`FindAsync(id)`) and the first-match query agree. */
  lemma FindByKey(rows: seq<Publicacion>, id: int, i: nat)
    requires UniqueIds(rows) && i < |rows|
    ensures Find(rows, id) == Some(i) <==> rows[i].Id == id
  {
  }

  /** Rewriting row `i` without changing its `Id` leaves every lookup as it was. */
  lemma {:induction false} FindAfterUpdate(rows: seq<Publicacion>, i: nat, p: Publicacion, id: int)
    requires i < |rows| && p.Id == rows[i].Id
    ensures Find(rows[i := p], id) == Find(rows, id)
  {
    if i > 0 {
      assert rows[i := p][1..] == rows[1..][i - 1 := p];
      FindAfterUpdate(rows[1..], i - 1, p, id);
    }
  }

  /** `Where(p => p.PendienteAprobacion)`: the pending rows, in table order. */
  function Pending(rows: seq<Publicacion>): (r: seq<Publicacion>)
    ensures |r| <= |rows|
    ensures forall p :: p in r <==> p in rows && p.PendienteAprobacion
  {
    if |rows| == 0 then []
    else if rows[0].PendienteAprobacion then [rows[0]] + Pending(rows[1..])
    else Pending(rows[1..])
  }

  /** The filter works row by row: the listing of a table split in two is the
      listing of the first part followed by that of the second, so it keeps
      the table's order. */
  lemma {:induction false} PendingAppend(a: seq<Publicacion>, b: seq<Publicacion>)
    ensures Pending(a + b) == Pending(a) + Pending(b)
  {
    if |a| > 0 {
      assert (a + b)[1..] == a[1..] + b;
      PendingAppend(a[1..], b);
    } else {
      assert a + b == b;
    }
  }

  /** Row `i` removed: what `Publicaciones.Remove` and a successful save leave. */
  function RemoveAt(rows: seq<Publicacion>, i: nat): (r: seq<Publicacion>)
    requires i < |rows|
    ensures |r| == |rows| - 1
    ensures forall k :: 0 <= k < i ==> r[k] == rows[k]
    ensures forall k :: i <= k < |r| ==> r[k] == rows[k + 1]
  {
    rows[..i] + rows[i + 1..]
  }

  /** Under the primary key, removing the row of `id` leaves exactly the rows
      with another `Id`, keeps the key unique, and the lookup of `id` then
      finds nothing. */
  lemma RemoveRow(rows: seq<Publicacion>, i: nat)
    requires UniqueIds(rows) && i < |rows|
    ensures forall p :: p in RemoveAt(rows, i) <==> p in rows && p.Id != rows[i].Id
    ensures UniqueIds(RemoveAt(rows, i))
    ensures Find(RemoveAt(rows, i), rows[i].Id).None?
  {
  }
}
