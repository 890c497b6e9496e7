/** The trip service: creating, listing, reading, deleting and updating rows of the `trips`
    table, with the status rule tied to the end date. */
module Trips {
  import opened Wrappers
  import opened Dates
  import opened Tables

  datatype TripStatus = InProgress | Completed

  /** A row of the `trips` table (timestamps and the owning user are not modelled).
      The two dates hold what the service wrote: a canonical date, an empty string or null. */
  datatype Trip = Trip(
    id: int,
    origem: string,
    destino: string,
    cliente: string,
    dataInicio: Option<string>,
    dataFim: Option<string>,
    valor: int,
    status: Option<TripStatus>,
    descricao: Option<string>)

  /** The request body; a field the client leaves out is None. */
  datatype TripDto = TripDto(
    id: Option<int>,
    origem: Option<string>,
    destino: Option<string>,
    cliente: Option<string>,
    dataInicio: Option<string>,
    dataFim: Option<string>,
    status: Option<TripStatus>,
    valor: Option<int>,
    descricao: Option<string>)

  /** A trip as `finAll` and `findById` return it: both dates in display form, or "". */
  datatype TripView = TripView(
    id: int,
    origem: string,
    destino: string,
    cliente: string,
    dataInicio: string,
    dataFim: string,
    valor: int,
    status: Option<TripStatus>,
    descricao: Option<string>)

  function TripId(t: Trip): int {
    t.id
  }

  /** The trip with that id, looked up as the repository's single-row find does. */
  function FindTrip(rows: seq<Trip>, id: int): (r: Option<Trip>)
    ensures r.None? <==> forall t :: t in rows ==> t.id != id
    ensures r.Some? ==> r.value in rows && r.value.id == id
  {
    FirstWhere(rows, (t: Trip) => t.id == id)
  }

  /** The table after deleting the listed ids: every row whose id is listed is gone. */
  function Without(rows: seq<Trip>, ids: seq<int>): (r: seq<Trip>)
    ensures forall t :: t in r <==> t in rows && t.id !in ids
  {
    Filter(rows, (t: Trip) => t.id !in ids)
  }

  /** The five fields `createTrip` insists on, with JavaScript truthiness (a `valor` of 0 fails). */
  predicate HasRequiredFields(dto: TripDto) {
    Present(dto.cliente) && Present(dto.origem) && Present(dto.destino) && Present(dto.dataInicio) && Truthy(dto.valor)
  }

  /** `createTrip` up to the save: the required fields are checked, then a present end date is
      converted and marks the trip completed, then the start date is converted. */
  function PrepareCreate(dto: TripDto): (r: Result<TripDto>)
    ensures !HasRequiredFields(dto) ==> r == Err(BadRequest(MissingFields))
    ensures r.Ok? <==>
              && HasRequiredFields(dto)
              && (Present(dto.dataFim) ==> ConvertDisplayDate(dto.dataFim.value).Some?)
              && ConvertDisplayDate(dto.dataInicio.value).Some?
    ensures HasRequiredFields(dto) && r.Err? ==> r == Err(BadRequest(InvalidDate))
    ensures r.Ok? ==> r.value.dataInicio == ConvertDisplayDate(dto.dataInicio.value)
    ensures r.Ok? && Present(dto.dataFim) ==>
              r.value.status == Some(Completed) && r.value.dataFim == ConvertDisplayDate(dto.dataFim.value)
    ensures r.Ok? && !Present(dto.dataFim) ==> r.value.status == dto.status && r.value.dataFim == dto.dataFim
    ensures r.Ok? ==> r.value.(dataInicio := dto.dataInicio, dataFim := dto.dataFim, status := dto.status) == dto
  {
    if !HasRequiredFields(dto) then Err(BadRequest(MissingFields))
    else
      var ended :=
        if Present(dto.dataFim) then
          match ConvertDisplayDate(dto.dataFim.value)
          case None => Err(BadRequest(InvalidDate))
          case Some(fim) => Ok(dto.(status := Some(Completed), dataFim := Some(fim)))
        else Ok(dto);
      if ended.Err? then ended
      else
        match ConvertDisplayDate(dto.dataInicio.value)
        case None => Err(BadRequest(InvalidDate))
        case Some(inicio) => Ok(ended.value.(dataInicio := Some(inicio)))
  }

  /** The row `save` inserts for a prepared payload under the next generated id. */
  function RowOf(id: int, d: TripDto): (r: Trip)
    requires d.origem.Some? && d.destino.Some? && d.cliente.Some? && d.valor.Some?
    ensures r.id == id
    ensures r.origem == d.origem.value && r.destino == d.destino.value && r.cliente == d.cliente.value
    ensures r.valor == d.valor.value
    ensures r.dataInicio == d.dataInicio && r.dataFim == d.dataFim && r.status == d.status
    ensures r.descricao == d.descricao
  {
    Trip(id, d.origem.value, d.destino.value, d.cliente.value, d.dataInicio, d.dataFim,
         d.valor.value, d.status, d.descricao)
  }

  /** `updateTrip`'s rewrite of the payload: a present end date is converted and completes the
      trip, an absent one is cleared and puts the trip back in progress; a present start date
      is converted. */
  function PrepareUpdate(dto: TripDto): (r: Result<TripDto>)
    ensures r.Ok? <==>
              && (Present(dto.dataFim) ==> ConvertDisplayDate(dto.dataFim.value).Some?)
              && (Present(dto.dataInicio) ==> ConvertDisplayDate(dto.dataInicio.value).Some?)
    ensures r.Err? ==> r == Err(BadRequest(InvalidDate))
    ensures r.Ok? ==> (r.value.status == Some(Completed) <==> r.value.dataFim.Some?)
    ensures r.Ok? ==> (r.value.status == Some(Completed) <==> Present(dto.dataFim))
    ensures r.Ok? ==> r.value.status.Some?
    ensures r.Ok? && Present(dto.dataFim) ==> r.value.dataFim == ConvertDisplayDate(dto.dataFim.value)
    ensures r.Ok? && Present(dto.dataInicio) ==> r.value.dataInicio == ConvertDisplayDate(dto.dataInicio.value)
    ensures r.Ok? && !Present(dto.dataInicio) ==> r.value.dataInicio == dto.dataInicio
    ensures r.Ok? ==> r.value.(dataInicio := dto.dataInicio, dataFim := dto.dataFim, status := dto.status) == dto
  {
    var ended :=
      if Present(dto.dataFim) then
        match ConvertDisplayDate(dto.dataFim.value)
        case None => Err(BadRequest(InvalidDate))
        case Some(fim) => Ok(dto.(status := Some(Completed), dataFim := Some(fim)))
      else Ok(dto.(dataFim := None, status := Some(InProgress)));
    if ended.Err? then ended
    else if Present(dto.dataInicio) then
      match ConvertDisplayDate(dto.dataInicio.value)
      case None => Err(BadRequest(InvalidDate))
      case Some(inicio) => Ok(ended.value.(dataInicio := Some(inicio)))
    else ended
  }

  /** The repository's update by id, on one row: a field the payload leaves out keeps its value; the end
      date is always written, since `updateTrip` always sets it (to a date or to null). */
  function ApplyUpdate(row: Trip, d: TripDto): (r: Trip)
    ensures r.id == row.id
    ensures r.dataFim == d.dataFim
    ensures r.origem == d.origem.GetOr(row.origem) && r.destino == d.destino.GetOr(row.destino)
    ensures r.cliente == d.cliente.GetOr(row.cliente) && r.valor == d.valor.GetOr(row.valor)
    ensures d.dataInicio.None? ==> r.dataInicio == row.dataInicio
    ensures d.dataInicio.Some? ==> r.dataInicio == d.dataInicio
    ensures d.status.None? ==> r.status == row.status
    ensures d.status.Some? ==> r.status == d.status
    ensures d.descricao.None? ==> r.descricao == row.descricao
    ensures d.descricao.Some? ==> r.descricao == d.descricao
    ensures d.(id := None, dataFim := None) == TripDto(None, None, None, None, None, None, None, None, None) ==>
              r == row.(dataFim := d.dataFim)
  {
    Trip(row.id,
         d.origem.GetOr(row.origem),
         d.destino.GetOr(row.destino),
         d.cliente.GetOr(row.cliente),
         if d.dataInicio.Some? then d.dataInicio else row.dataInicio,
         d.dataFim,
         d.valor.GetOr(row.valor),
         if d.status.Some? then d.status else row.status,
         if d.descricao.Some? then d.descricao else row.descricao)
  }

  /** The table after the update by id. */
  function UpdateRows(rows: seq<Trip>, id: int, d: TripDto): (r: seq<Trip>)
    ensures |r| == |rows|
    ensures forall i :: 0 <= i < |rows| ==> r[i] == if rows[i].id == id then ApplyUpdate(rows[i], d) else rows[i]
  {
    seq(|rows|, i requires 0 <= i < |rows| => if rows[i].id == id then ApplyUpdate(rows[i], d) else rows[i])
  }

  /** A trip with both dates passed through `formatDate`. */
  function ViewOf(t: Trip): (r: TripView)
    requires Formattable(t.dataInicio) && Formattable(t.dataFim)
    ensures r.dataInicio == "" || IsDisplayDate(r.dataInicio)
    ensures r.dataFim == "" || IsDisplayDate(r.dataFim)
    ensures r.id == t.id && r.origem == t.origem && r.destino == t.destino && r.cliente == t.cliente
    ensures r.valor == t.valor && r.status == t.status && r.descricao == t.descricao
  {
    TripView(t.id, t.origem, t.destino, t.cliente, DisplayDate(t.dataInicio), DisplayDate(t.dataFim),
             t.valor, t.status, t.descricao)
  }

  /** After a successful update the status agrees with the end date: completed exactly when
      the payload carried an end date, in progress (with the end date cleared) otherwise,
      whatever the row held before. */
  lemma UpdateStatusRule(row: Trip, dto: TripDto)
    requires PrepareUpdate(dto).Ok?
    ensures var t := ApplyUpdate(row, PrepareUpdate(dto).value);
            && (t.status == Some(Completed) <==> t.dataFim.Some?)
            && (t.status == Some(Completed) <==> Present(dto.dataFim))
            && (t.dataFim.None? <==> t.status == Some(InProgress))
  {
    var d := PrepareUpdate(dto).value;
    assert d.status.Some?;
  }

  /** Reading a trip back shows the dates it was created with: a start date sent in display
      form comes back unchanged, and so does an end date, which also completed the trip. */
  lemma CreateThenView(dto: TripDto, id: int)
    requires PrepareCreate(dto).Ok?
    ensures var d := PrepareCreate(dto).value;
            Formattable(d.dataInicio) && (Present(dto.dataFim) ==> Formattable(d.dataFim))
    ensures var d := PrepareCreate(dto).value;
            IsDisplayDate(dto.dataInicio.value) ==> DisplayDate(RowOf(id, d).dataInicio) == dto.dataInicio.value
    ensures var d := PrepareCreate(dto).value;
            Present(dto.dataFim) && IsDisplayDate(dto.dataFim.value) ==>
              DisplayDate(RowOf(id, d).dataFim) == dto.dataFim.value && RowOf(id, d).status == Some(Completed)
  {
    if IsDisplayDate(dto.dataInicio.value) {
      DisplayRoundTrip(dto.dataInicio.value);
    }
    if Present(dto.dataFim) && IsDisplayDate(dto.dataFim.value) {
      DisplayRoundTrip(dto.dataFim.value);
    }
  }

  /** Sending the same update twice leaves the row as the first one did. */
  lemma ApplyUpdateIdempotent(row: Trip, d: TripDto)
    ensures ApplyUpdate(ApplyUpdate(row, d), d) == ApplyUpdate(row, d)
  {
  }

  /** A listed date converts back to the stored canonical date; a missing, empty or zero date
      is listed as "". */
  lemma ViewRoundTrip(t: Trip)
    requires Formattable(t.dataInicio) && Formattable(t.dataFim)
    ensures t.dataInicio.Some? && IsCanonicalDate(t.dataInicio.value) ==>
              IsDisplayDate(ViewOf(t).dataInicio) && ConvertDisplayDate(ViewOf(t).dataInicio) == t.dataInicio
    ensures t.dataFim.Some? && IsCanonicalDate(t.dataFim.value) ==>
              IsDisplayDate(ViewOf(t).dataFim) && ConvertDisplayDate(ViewOf(t).dataFim) == t.dataFim
    ensures !(t.dataInicio.Some? && IsCanonicalDate(t.dataInicio.value)) ==> ViewOf(t).dataInicio == ""
    ensures !(t.dataFim.Some? && IsCanonicalDate(t.dataFim.value)) ==> ViewOf(t).dataFim == ""
  {
    if t.dataInicio.Some? && IsCanonicalDate(t.dataInicio.value) {
      CanonicalRoundTrip(t.dataInicio.value);
    }
    if t.dataFim.Some? && IsCanonicalDate(t.dataFim.value) {
      CanonicalRoundTrip(t.dataFim.value);
    }
  }

  /** Deleting ids no row carries leaves the table as it is. */
  lemma WithoutNothing(rows: seq<Trip>, ids: seq<int>)
    requires forall t :: t in rows ==> t.id !in ids
    ensures Without(rows, ids) == rows
  {
    FilterKeepsAll(rows, (t: Trip) => t.id !in ids);
  }

  /** The table invariant: ids are positive, below the next id and ascending, and every
      stored date is one `formatDate` accepts. */
  ghost predicate RowsValid(rows: seq<Trip>, nextId: int) {
    && 1 <= nextId
    && (forall t :: t in rows ==> 1 <= t.id < nextId && Formattable(t.dataInicio) && Formattable(t.dataFim))
    && Ascending(rows, TripId)
  }

  /** Inserting a created trip under the next id keeps the table invariant. */
  lemma CreatePreservesValid(rows: seq<Trip>, nextId: int, dto: TripDto)
    requires RowsValid(rows, nextId) && PrepareCreate(dto).Ok?
    ensures RowsValid(rows + [RowOf(nextId, PrepareCreate(dto).value)], nextId + 1)
  {
    var row := RowOf(nextId, PrepareCreate(dto).value);
    AppendAscending(rows, TripId, row);
  }

  /** Updating a row keeps the table invariant, and the updated rows have a status consistent
      with their end date. */
  lemma UpdatePreservesValid(rows: seq<Trip>, nextId: int, id: int, dto: TripDto)
    requires RowsValid(rows, nextId) && PrepareUpdate(dto).Ok?
    ensures RowsValid(UpdateRows(rows, id, PrepareUpdate(dto).value), nextId)
    ensures forall t :: t in UpdateRows(rows, id, PrepareUpdate(dto).value) && t.id == id ==>
              (t.status == Some(Completed) <==> t.dataFim.Some?)
  {
    var d := PrepareUpdate(dto).value;
    var updated := UpdateRows(rows, id, d);
    forall t | t in updated
      ensures 1 <= t.id < nextId && Formattable(t.dataInicio) && Formattable(t.dataFim)
      ensures t.id == id ==> (t.status == Some(Completed) <==> t.dataFim.Some?)
    {
      var i :| 0 <= i < |updated| && updated[i] == t;
      assert rows[i] in rows;
      if rows[i].id == id {
        UpdateStatusRule(rows[i], dto);
      }
    }
    assert Ascending(updated, TripId) by {
      assert forall i :: 0 <= i < |rows| ==> TripId(updated[i]) == TripId(rows[i]);
    }
  }

  /** Deleting rows keeps the table invariant. */
  lemma DeletePreservesValid(rows: seq<Trip>, nextId: int, ids: seq<int>)
    requires RowsValid(rows, nextId)
    ensures RowsValid(Without(rows, ids), nextId)
  {
    FilterAscending(rows, (t: Trip) => t.id !in ids, TripId);
  }

  /** The `trips` table: its rows in insertion order and the next auto-increment id. */
  class TripRepository {
    var rows: seq<Trip>
    var nextId: int

    ghost predicate Valid()
      reads this
    {
      RowsValid(rows, nextId)
    }

    constructor ()
      ensures Valid() && rows == [] && nextId == 1
    {
      rows := [];
      nextId := 1;
    }
  }

  class TripsService {
    const tripRepository: TripRepository

    ghost predicate Valid()
      reads this, tripRepository
    {
      tripRepository.Valid()
    }

    constructor (tripRepository: TripRepository)
      ensures this.tripRepository == tripRepository
    {
      this.tripRepository := tripRepository;
    }

    /** `createTrip`: on success one row is appended under the next id; on failure nothing is saved. */
    method CreateTrip(dto: TripDto) returns (r: Result<()>)
      requires Valid()
      modifies tripRepository
      ensures Valid()
      ensures PrepareCreate(dto).Err? ==> r == Err(PrepareCreate(dto).failure) && unchanged(tripRepository)
      ensures PrepareCreate(dto).Ok? ==>
                && r == Ok(())
                && tripRepository.rows == old(tripRepository.rows) + [RowOf(old(tripRepository.nextId), PrepareCreate(dto).value)]
                && tripRepository.nextId == old(tripRepository.nextId) + 1
    {
      var prepared := PrepareCreate(dto);
      if prepared.Err? {
        return Err(prepared.failure);
      }
      var row := RowOf(tripRepository.nextId, prepared.value);
      CreatePreservesValid(tripRepository.rows, tripRepository.nextId, dto);
      tripRepository.rows := tripRepository.rows + [row];
      tripRepository.nextId := tripRepository.nextId + 1;
      r := Ok(());
    }

    /** `finAll`: every trip, in table order, with its dates formatted. */
    method FinAll() returns (trips: seq<TripView>)
      requires Valid()
      ensures |trips| == |tripRepository.rows|
      ensures forall i :: 0 <= i < |trips| ==> trips[i] == ViewOf(tripRepository.rows[i])
    {
      var rows := tripRepository.rows;
      trips := [];
      var i := 0;
      while i < |rows|
        invariant 0 <= i <= |rows|
        invariant |trips| == i
        invariant forall k :: 0 <= k < i ==> rows[k] in rows && trips[k] == ViewOf(rows[k])
      {
        assert rows[i] in rows;
        trips := trips + [ViewOf(rows[i])];
        i := i + 1;
      }
    }

    /** `findById`: the trip with that id, dates formatted, or BadRequest. */
    method FindById(id: int) returns (r: Result<TripView>)
      requires Valid()
      ensures r.Ok? <==> exists t :: t in tripRepository.rows && t.id == id
      ensures r.Ok? ==> forall t :: t in tripRepository.rows && t.id == id ==> r.value == ViewOf(t)
      ensures r.Err? ==> r == Err(BadRequest(TripNotFound))
    {
      var trip := FindTrip(tripRepository.rows, id);
      if trip.None? {
        return Err(BadRequest(TripNotFound));
      }
      forall t | t in tripRepository.rows && t.id == id
        ensures t == trip.value
      {
        AscendingUnique(tripRepository.rows, TripId, t, trip.value);
      }
      r := Ok(ViewOf(trip.value));
    }

    /** `deleteById`: removes the row with that id, or fails with BadRequest and changes nothing. */
    method DeleteById(id: int) returns (r: Result<()>)
      requires Valid()
      modifies tripRepository
      ensures Valid()
      ensures r.Ok? <==> exists t :: t in old(tripRepository.rows) && t.id == id
      ensures r.Ok? ==> tripRepository.rows == Without(old(tripRepository.rows), [id])
      ensures r.Err? ==> r == Err(BadRequest(TripNotFound)) && tripRepository.rows == old(tripRepository.rows)
      ensures tripRepository.nextId == old(tripRepository.nextId)
    {
      var trip := FindTrip(tripRepository.rows, id);
      if trip.None? {
        return Err(BadRequest(TripNotFound));
      }
      DeletePreservesValid(tripRepository.rows, tripRepository.nextId, [id]);
      tripRepository.rows := Without(tripRepository.rows, [id]);
      r := Ok(());
    }

    /** `deleteByIds`: removes every listed row when at least one id matches; otherwise
        BadRequest and nothing changes. */
    method DeleteByIds(ids: seq<int>) returns (r: Result<()>)
      requires Valid()
      modifies tripRepository
      ensures Valid()
      ensures r.Ok? <==> exists t :: t in old(tripRepository.rows) && t.id in ids
      ensures r.Ok? ==> tripRepository.rows == Without(old(tripRepository.rows), ids)
      ensures r.Err? ==> r == Err(BadRequest(NoIdsMatched)) && tripRepository.rows == old(tripRepository.rows)
      ensures tripRepository.nextId == old(tripRepository.nextId)
    {
      var found := Filter(tripRepository.rows, (t: Trip) => t.id in ids);
      if |found| == 0 {
        return Err(BadRequest(NoIdsMatched));
      }
      assert found[0] in found;
      DeletePreservesValid(tripRepository.rows, tripRepository.nextId, ids);
      tripRepository.rows := Without(tripRepository.rows, ids);
      r := Ok(());
    }

    /** `updateTrip`: checks the id and that the trip exists, rewrites the payload and updates
        the row; on any failure nothing changes. */
    method UpdateTrip(dto: TripDto) returns (r: Result<()>)
      requires Valid()
      modifies tripRepository
      ensures Valid()
      ensures !Truthy(dto.id) ==> r == Err(BadRequest(MissingId))
      ensures Truthy(dto.id) && (forall t :: t in old(tripRepository.rows) ==> t.id != dto.id.value) ==>
                r == Err(BadRequest(TripNotFound))
      ensures Truthy(dto.id) && (exists t :: t in old(tripRepository.rows) && t.id == dto.id.value) ==>
                r == (if PrepareUpdate(dto).Ok? then Ok(()) else Err(BadRequest(InvalidDate)))
      ensures r.Err? ==> tripRepository.rows == old(tripRepository.rows)
      ensures r.Ok? ==> tripRepository.rows == UpdateRows(old(tripRepository.rows), dto.id.value, PrepareUpdate(dto).value)
      ensures r.Ok? ==> forall t :: t in tripRepository.rows && t.id == dto.id.value ==>
                          (t.status == Some(Completed) <==> t.dataFim.Some?)
      ensures tripRepository.nextId == old(tripRepository.nextId)
    {
      if !Truthy(dto.id) {
        return Err(BadRequest(MissingId));
      }
      var id := dto.id.value;
      var trip := FindTrip(tripRepository.rows, id);
      if trip.None? {
        return Err(BadRequest(TripNotFound));
      }
      var prepared := PrepareUpdate(dto);
      if prepared.Err? {
        return Err(prepared.failure);
      }
      UpdatePreservesValid(tripRepository.rows, tripRepository.nextId, id, dto);
      tripRepository.rows := UpdateRows(tripRepository.rows, id, prepared.value);
      r := Ok(());
    }
  }
}
