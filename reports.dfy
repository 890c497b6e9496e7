/** The report service: field reports with photo attachments over the `reports` and `fotos`
    tables, reading trip names from the `trips` table and sending files to the object store. */
module Reports {
  import opened Wrappers
  import opened Dates
  import opened ReportFormat
  import opened Tables
  import opened Storage
  import Trips

  /** A row of the `reports` table (timestamps and the owning user are not modelled).
      `data` holds what the service wrote: a canonical date or an empty string. */
  datatype Report = Report(
    id: int,
    viagemId: int,
    tipo: string,
    data: string,
    hora: string,
    descricao: Option<string>,
    viagemNome: string)

  /** A row of the `fotos` table. */
  datatype Photo = Photo(id: int, registroId: int, url: Url)

  /** The request body; a field the client leaves out is None. */
  datatype ReportDto = ReportDto(
    id: Option<int>,
    viagemId: Option<int>,
    tipo: Option<string>,
    data: Option<string>,
    hora: Option<string>,
    descricao: Option<string>,
    viagemNome: Option<string>)

  /** A report as `reportById` and `reportFindAll` return it. */
  datatype ReportView = ReportView(
    id: int,
    viagemId: int,
    tipo: string,
    tipoName: string,
    data: string,
    hora: string,
    descricao: Option<string>,
    viagemNome: string,
    foto: seq<Url>)

  /** The calls `createReport` makes to its collaborators that leave a trace: uploads and inserts. */
  datatype Event = Upload(file: File, url: Option<Url>) | ReportSaved(id: int) | PhotoSaved(photo: Photo)

  function ReportId(r: Report): int {
    r.id
  }

  function PhotoId(p: Photo): int {
    p.id
  }

  /** The report with that id, looked up as the repository's single-row find does. */
  function FindReport(reports: seq<Report>, id: int): (r: Option<Report>)
    ensures r.None? <==> forall rep :: rep in reports ==> rep.id != id
    ensures r.Some? ==> r.value in reports && r.value.id == id
  {
    FirstWhere(reports, (rep: Report) => rep.id == id)
  }

  /** A photo row naming the report: the one with the lowest id, that is the first in table order. */
  function FirstPhoto(photos: seq<Photo>, reportId: int): (r: Option<Photo>)
    ensures r.None? <==> forall p :: p in photos ==> p.registroId != reportId
    ensures r.Some? ==> r.value in photos && r.value.registroId == reportId
  {
    FirstWhere(photos, (p: Photo) => p.registroId == reportId)
  }

  /** The `reports` table after deleting the listed ids. */
  function WithoutReports(reports: seq<Report>, ids: seq<int>): (r: seq<Report>)
    ensures forall rep :: rep in r <==> rep in reports && rep.id !in ids
  {
    Filter(reports, (rep: Report) => rep.id !in ids)
  }

  /** The `fotos` table after deleting the row with id `photoId`. */
  function WithoutPhoto(photos: seq<Photo>, photoId: int): (r: seq<Photo>)
    ensures forall p :: p in r <==> p in photos && p.id != photoId
  {
    Filter(photos, (p: Photo) => p.id != photoId)
  }

  /** The URLs of the photo rows naming the report, in table order. */
  function PhotoUrls(photos: seq<Photo>, reportId: int): (urls: seq<Url>)
    ensures |urls| <= |photos|
    ensures forall u :: u in urls ==> exists p :: p in photos && p.registroId == reportId && p.url == u
  {
    if photos == [] then []
    else
      var rest := PhotoUrls(photos[1..], reportId);
      assert forall p :: p in photos[1..] ==> p in photos;
      if photos[0].registroId == reportId then [photos[0].url] + rest else rest
  }

  /** The trip name stored with a report. */
  function TripName(t: Trips.Trip): (r: string)
    ensures |r| == |t.origem| + 3 + |t.destino|
    ensures r[..|t.origem|] == t.origem && r[|t.origem|..|t.origem| + 3] == " → "
    ensures r[|t.origem| + 3..] == t.destino
  {
    t.origem + " → " + t.destino
  }

  /** The three fields and the files `createReport` insists on. */
  predicate HasRequiredFields(dto: ReportDto, files: seq<File>) {
    Present(dto.data) && Present(dto.hora) && Present(dto.tipo) && |files| > 0
  }

  /** `createReport` up to the trip lookup: fields and files are checked, then the date is
      converted. */
  function PrepareReport(dto: ReportDto, files: seq<File>): (r: Result<ReportDto>)
    ensures !HasRequiredFields(dto, files) ==> r == Err(BadRequest(MissingFields))
    ensures r.Ok? <==> HasRequiredFields(dto, files) && ConvertDisplayDate(dto.data.value).Some?
    ensures HasRequiredFields(dto, files) && r.Err? ==> r == Err(BadRequest(InvalidDate))
    ensures r.Ok? ==> r.value.data == ConvertDisplayDate(dto.data.value) && IsCanonicalDate(r.value.data.value)
    ensures r.Ok? ==> r.value.(data := dto.data) == dto
  {
    if !HasRequiredFields(dto, files) then Err(BadRequest(MissingFields))
    else
      match ConvertDisplayDate(dto.data.value)
      case None => Err(BadRequest(InvalidDate))
      case Some(data) => Ok(dto.(data := Some(data)))
  }

  /** The report row `save` inserts: the payload's fields with the route's trip id and the
      trip's name. */
  function NewReport(id: int, viagemId: int, d: ReportDto, viagemNome: string): (r: Report)
    requires d.tipo.Some? && d.data.Some? && d.hora.Some?
    ensures r.id == id && r.viagemId == viagemId && r.viagemNome == viagemNome
    ensures r.tipo == d.tipo.value && r.data == d.data.value && r.hora == d.hora.value
    ensures r.descricao == d.descricao
  {
    Report(id, viagemId, d.tipo.value, d.data.value, d.hora.value, d.descricao, viagemNome)
  }

  /** The photo rows saved for `urls`, one per URL in order, under consecutive ids. */
  function PhotoRows(firstId: int, reportId: int, urls: seq<Url>): (rows: seq<Photo>)
    ensures |rows| == |urls|
    ensures forall k :: 0 <= k < |urls| ==> rows[k] == Photo(firstId + k, reportId, urls[k])
  {
    seq(|urls|, k requires 0 <= k < |urls| => Photo(firstId + k, reportId, urls[k]))
  }

  ghost function Uploads(files: seq<File>, urls: seq<Url>): (events: seq<Event>)
    requires |files| == |urls|
    ensures |events| == |files|
    ensures forall k :: 0 <= k < |files| ==> events[k] == Upload(files[k], Some(urls[k]))
  {
    seq(|files|, k requires 0 <= k < |files| => Upload(files[k], Some(urls[k])))
  }

  ghost function PhotoSaves(rows: seq<Photo>): (events: seq<Event>)
    ensures |events| == |rows|
    ensures forall k :: 0 <= k < |rows| ==> events[k] == PhotoSaved(rows[k])
  {
    seq(|rows|, k requires 0 <= k < |rows| => PhotoSaved(rows[k]))
  }

  /** `updateReport`'s rewrite of the payload: a present date is converted. */
  function PrepareReportUpdate(dto: ReportDto): (r: Result<ReportDto>)
    ensures r.Ok? <==> (Present(dto.data) ==> ConvertDisplayDate(dto.data.value).Some?)
    ensures r.Err? ==> r == Err(BadRequest(InvalidDate))
    ensures r.Ok? && Present(dto.data) ==> r.value.data == ConvertDisplayDate(dto.data.value)
    ensures r.Ok? ==> r.value.(data := dto.data) == dto
  {
    if Present(dto.data) then
      match ConvertDisplayDate(dto.data.value)
      case None => Err(BadRequest(InvalidDate))
      case Some(data) => Ok(dto.(data := Some(data)))
    else Ok(dto)
  }

  /** The repository's update by id, on one row: a field the payload leaves out keeps its value. */
  function ApplyReportUpdate(row: Report, d: ReportDto): (r: Report)
    ensures r.id == row.id
    ensures r.viagemId == d.viagemId.GetOr(row.viagemId) && r.viagemNome == d.viagemNome.GetOr(row.viagemNome)
    ensures r.tipo == d.tipo.GetOr(row.tipo) && r.hora == d.hora.GetOr(row.hora) && r.data == d.data.GetOr(row.data)
    ensures d.descricao.None? ==> r.descricao == row.descricao
    ensures d.descricao.Some? ==> r.descricao == d.descricao
    ensures d.(id := None) == ReportDto(None, None, None, None, None, None, None) ==> r == row
  {
    Report(row.id,
           d.viagemId.GetOr(row.viagemId),
           d.tipo.GetOr(row.tipo),
           d.data.GetOr(row.data),
           d.hora.GetOr(row.hora),
           if d.descricao.Some? then d.descricao else row.descricao,
           d.viagemNome.GetOr(row.viagemNome))
  }

  /** Sending the same update twice leaves the row as the first one did. */
  lemma ApplyReportUpdateIdempotent(row: Report, d: ReportDto)
    ensures ApplyReportUpdate(ApplyReportUpdate(row, d), d) == ApplyReportUpdate(row, d)
  {
  }

  /** The table after the update by id. */
  function UpdateReports(reports: seq<Report>, id: int, d: ReportDto): (r: seq<Report>)
    ensures |r| == |reports|
    ensures forall i :: 0 <= i < |reports| ==>
              r[i] == if reports[i].id == id then ApplyReportUpdate(reports[i], d) else reports[i]
  {
    seq(|reports|, i requires 0 <= i < |reports| =>
      if reports[i].id == id then ApplyReportUpdate(reports[i], d) else reports[i])
  }

  /** A report as the read operations show it: date and time formatted, category added and
      the URLs of its photos attached. */
  function ViewOf(rep: Report, photos: seq<Photo>): (r: ReportView)
    requires Formattable(Some(rep.data))
    ensures r.data == DisplayDate(Some(rep.data))
    ensures r.data == "" || IsDisplayDate(r.data)
    ensures r.foto == PhotoUrls(photos, rep.id)
    ensures r.tipoName == FormatTipoName(rep.tipo) && r.hora == FormatHora(rep.hora)
    ensures r.id == rep.id && r.viagemId == rep.viagemId && r.tipo == rep.tipo
    ensures r.descricao == rep.descricao && r.viagemNome == rep.viagemNome
  {
    ReportView(rep.id, rep.viagemId, rep.tipo, FormatTipoName(rep.tipo), DisplayDate(Some(rep.data)),
               FormatHora(rep.hora), rep.descricao, rep.viagemNome, PhotoUrls(photos, rep.id))
  }

  /** A shown date converts back to the stored canonical date; an empty or zero date is
      shown as "". */
  lemma ReportViewRoundTrip(rep: Report, photos: seq<Photo>)
    requires Formattable(Some(rep.data))
    ensures IsCanonicalDate(rep.data) ==>
              IsDisplayDate(ViewOf(rep, photos).data) && ConvertDisplayDate(ViewOf(rep, photos).data) == Some(rep.data)
    ensures !IsCanonicalDate(rep.data) ==> ViewOf(rep, photos).data == ""
  {
    if IsCanonicalDate(rep.data) {
      CanonicalRoundTrip(rep.data);
    }
  }

  /** The table invariant: ids are positive, below the next id and ascending in each table;
      every stored date is one `formatDate` accepts; every photo names an id already handed
      out to a report. */
  ghost predicate TablesValid(reports: seq<Report>, photos: seq<Photo>, nextReportId: int, nextPhotoId: int) {
    && 1 <= nextReportId && 1 <= nextPhotoId
    && (forall rep :: rep in reports ==> 1 <= rep.id < nextReportId && Formattable(Some(rep.data)))
    && Ascending(reports, ReportId)
    && (forall p :: p in photos ==> 1 <= p.id < nextPhotoId && 1 <= p.registroId < nextReportId)
    && Ascending(photos, PhotoId)
  }

  // ---- lemmas about the photo join ----

  /** The join distributes over the table: photos keep their table order. */
  lemma {:induction false} PhotoUrlsAppend(a: seq<Photo>, b: seq<Photo>, reportId: int)
    ensures PhotoUrls(a + b, reportId) == PhotoUrls(a, reportId) + PhotoUrls(b, reportId)
  {
    if a == [] {
      assert a + b == b;
    } else {
      assert (a + b)[0] == a[0];
      assert (a + b)[1..] == a[1..] + b;
      PhotoUrlsAppend(a[1..], b, reportId);
    }
  }

  /** A report no photo row names has no photos. */
  lemma {:induction false} PhotoUrlsNone(photos: seq<Photo>, reportId: int)
    requires forall p :: p in photos ==> p.registroId != reportId
    ensures PhotoUrls(photos, reportId) == []
  {
    if photos != [] {
      assert forall p :: p in photos[1..] ==> p in photos;
      PhotoUrlsNone(photos[1..], reportId);
    }
  }

  /** Every URL of every photo row of the report is in its list: the list is exact. */
  lemma {:induction false} PhotoUrlsComplete(photos: seq<Photo>, reportId: int, p: Photo)
    requires p in photos && p.registroId == reportId
    ensures p.url in PhotoUrls(photos, reportId)
  {
    if photos[0] != p {
      assert p in photos[1..];
      PhotoUrlsComplete(photos[1..], reportId, p);
    }
  }

  /** The rows saved for a report list its URLs back, in upload order. */
  lemma {:induction false} PhotoRowsReadBack(firstId: int, reportId: int, urls: seq<Url>)
    ensures PhotoUrls(PhotoRows(firstId, reportId, urls), reportId) == urls
    decreases |urls|
  {
    var rows := PhotoRows(firstId, reportId, urls);
    if urls != [] {
      assert rows[1..] == PhotoRows(firstId + 1, reportId, urls[1..]);
      PhotoRowsReadBack(firstId + 1, reportId, urls[1..]);
      assert urls == [urls[0]] + urls[1..];
    }
  }

  /** Deleting the first photo row of a report drops exactly the first of its URLs: the
      ids are unique, so no other row goes with it. */
  lemma {:induction false} RemoveFirstPhoto(photos: seq<Photo>, reportId: int)
    requires Ascending(photos, PhotoId)
    requires FirstPhoto(photos, reportId).Some?
    ensures var f := FirstPhoto(photos, reportId).value;
            PhotoUrls(photos, reportId) == [f.url] + PhotoUrls(WithoutPhoto(photos, f.id), reportId)
  {
    var f := FirstPhoto(photos, reportId).value;
    var tail := photos[1..];
    AscendingTail(photos, PhotoId);
    if photos[0].registroId == reportId {
      assert f == photos[0];
      KeepAllPhotos(tail, f.id);
    } else {
      assert FirstPhoto(tail, reportId) == Some(f);
      assert PhotoId(photos[0]) < PhotoId(f);
      RemoveFirstPhoto(tail, reportId);
      assert WithoutPhoto(photos, f.id) == [photos[0]] + WithoutPhoto(tail, f.id);
      PhotoUrlsAppend([photos[0]], WithoutPhoto(tail, f.id), reportId);
    }
  }

  /** Deleting an id that no photo row carries leaves the photo table as it is. */
  lemma KeepAllPhotos(photos: seq<Photo>, photoId: int)
    requires forall p :: p in photos ==> PhotoId(p) != photoId
    ensures WithoutPhoto(photos, photoId) == photos
  {
    FilterKeepsAll(photos, (p: Photo) => p.id != photoId);
  }

  /** Deleting a photo row of one report leaves every other report's photos as they were. */
  lemma {:induction false} RemovePhotoKeepsOthers(photos: seq<Photo>, victim: Photo, reportId: int)
    requires Ascending(photos, PhotoId)
    requires victim in photos && victim.registroId != reportId
    ensures PhotoUrls(WithoutPhoto(photos, victim.id), reportId) == PhotoUrls(photos, reportId)
  {
    var tail := photos[1..];
    AscendingTail(photos, PhotoId);
    if photos[0] == victim {
      KeepAllPhotos(tail, victim.id);
    } else {
      assert victim in tail;
      RemovePhotoKeepsOthers(tail, victim, reportId);
      assert WithoutPhoto(photos, victim.id) == [photos[0]] + WithoutPhoto(tail, victim.id);
      PhotoUrlsAppend([photos[0]], WithoutPhoto(tail, victim.id), reportId);
    }
  }

  /** A report created from a well-formed display date reads back with that same date, its
      time formatted and its category named. */
  lemma CreatedReportView(id: int, viagemId: int, dto: ReportDto, files: seq<File>, viagemNome: string,
                          photos: seq<Photo>)
    requires PrepareReport(dto, files).Ok?
    ensures var rep := NewReport(id, viagemId, PrepareReport(dto, files).value, viagemNome);
            && Formattable(Some(rep.data))
            && (IsDisplayDate(dto.data.value) ==> ViewOf(rep, photos).data == dto.data.value)
            && ViewOf(rep, photos).hora == FormatHora(dto.hora.value)
            && ViewOf(rep, photos).tipoName == FormatTipoName(dto.tipo.value)
            && ViewOf(rep, photos).viagemNome == viagemNome && ViewOf(rep, photos).viagemId == viagemId
  {
    if IsDisplayDate(dto.data.value) {
      DisplayRoundTrip(dto.data.value);
    }
  }

  // ---- table invariant preservation ----

  /** The photo rows saved for a new report have fresh ascending ids and name that report. */
  lemma PhotoRowsFresh(photos: seq<Photo>, nextPhotoId: int, reportId: int, urls: seq<Url>)
    requires forall p :: p in photos ==> p.id < nextPhotoId
    ensures Ascending(PhotoRows(nextPhotoId, reportId, urls), PhotoId)
    ensures forall p :: p in PhotoRows(nextPhotoId, reportId, urls) ==>
              nextPhotoId <= p.id < nextPhotoId + |urls| && p.registroId == reportId
    ensures forall p, q :: p in photos && q in PhotoRows(nextPhotoId, reportId, urls) ==> PhotoId(p) < PhotoId(q)
  {
    var rows := PhotoRows(nextPhotoId, reportId, urls);
    forall q | q in rows ensures nextPhotoId <= q.id < nextPhotoId + |urls| && q.registroId == reportId {
      var k :| 0 <= k < |rows| && rows[k] == q;
    }
  }

  /** Inserting a created report and its photo rows keeps the table invariant, and the new
      report's photo list is exactly the uploaded URLs in upload order. */
  lemma CreatePreservesValid(reports: seq<Report>, photos: seq<Photo>, nextReportId: int, nextPhotoId: int,
                             rep: Report, urls: seq<Url>)
    requires TablesValid(reports, photos, nextReportId, nextPhotoId)
    requires rep.id == nextReportId && Formattable(Some(rep.data))
    ensures TablesValid(reports + [rep], photos + PhotoRows(nextPhotoId, rep.id, urls),
                        nextReportId + 1, nextPhotoId + |urls|)
    ensures PhotoUrls(photos + PhotoRows(nextPhotoId, rep.id, urls), rep.id) == urls
  {
    AppendAscending(reports, ReportId, rep);
    var rows := PhotoRows(nextPhotoId, rep.id, urls);
    PhotoRowsFresh(photos, nextPhotoId, rep.id, urls);
    ConcatAscending(photos, rows, PhotoId);
    PhotoUrlsAppend(photos, rows, rep.id);
    PhotoUrlsNone(photos, rep.id);
    PhotoRowsReadBack(nextPhotoId, rep.id, urls);
  }

  /** Deleting reports or one photo row keeps the table invariant. */
  lemma DeletePreservesValid(reports: seq<Report>, photos: seq<Photo>, nextReportId: int, nextPhotoId: int,
                             ids: seq<int>, photoId: int)
    requires TablesValid(reports, photos, nextReportId, nextPhotoId)
    ensures TablesValid(WithoutReports(reports, ids), photos, nextReportId, nextPhotoId)
    ensures TablesValid(WithoutReports(reports, ids), WithoutPhoto(photos, photoId), nextReportId, nextPhotoId)
  {
    FilterAscending(reports, (rep: Report) => rep.id !in ids, ReportId);
    FilterAscending(photos, (p: Photo) => p.id != photoId, PhotoId);
  }

  /** Updating a report keeps the table invariant: a converted date is canonical and an
      unconverted one can only be empty. */
  lemma UpdatePreservesValid(reports: seq<Report>, photos: seq<Photo>, nextReportId: int, nextPhotoId: int,
                             id: int, dto: ReportDto)
    requires TablesValid(reports, photos, nextReportId, nextPhotoId)
    requires PrepareReportUpdate(dto).Ok?
    ensures TablesValid(UpdateReports(reports, id, PrepareReportUpdate(dto).value), photos, nextReportId, nextPhotoId)
  {
    var d := PrepareReportUpdate(dto).value;
    var updated := UpdateReports(reports, id, d);
    forall rep | rep in updated ensures 1 <= rep.id < nextReportId && Formattable(Some(rep.data)) {
      var i :| 0 <= i < |updated| && updated[i] == rep;
      assert reports[i] in reports;
    }
    assert Ascending(updated, ReportId) by {
      assert forall i :: 0 <= i < |reports| ==> ReportId(updated[i]) == ReportId(reports[i]);
    }
  }

  /** What an update does to a report's date: a display date is stored canonical, an empty one
      is stored empty, a missing one leaves the stored date alone. */
  lemma UpdateReportDate(row: Report, dto: ReportDto)
    requires PrepareReportUpdate(dto).Ok?
    ensures var t := ApplyReportUpdate(row, PrepareReportUpdate(dto).value);
            && (Present(dto.data) ==> Some(t.data) == ConvertDisplayDate(dto.data.value))
            && (dto.data == Some("") ==> t.data == "")
            && (dto.data.None? ==> t.data == row.data)
            && (Present(dto.data) && IsDisplayDate(dto.data.value) ==> DisplayDate(Some(t.data)) == dto.data.value)
  {
    if Present(dto.data) && IsDisplayDate(dto.data.value) {
      DisplayRoundTrip(dto.data.value);
    }
  }

  class ReportsService {
    var reports: seq<Report>
    var photos: seq<Photo>
    var nextReportId: int
    var nextPhotoId: int
    /** Uploads and inserts made so far, oldest first. */
    ghost var log: seq<Event>
    const tripRepository: Trips.TripRepository
    const uploader: Uploader

    ghost predicate Valid()
      reads this
    {
      TablesValid(reports, photos, nextReportId, nextPhotoId)
    }

    constructor (tripRepository: Trips.TripRepository, uploader: Uploader)
      ensures Valid()
      ensures reports == [] && photos == [] && log == []
      ensures this.tripRepository == tripRepository && this.uploader == uploader
    {
      reports := [];
      photos := [];
      nextReportId := 1;
      nextPhotoId := 1;
      log := [];
      this.tripRepository := tripRepository;
      this.uploader := uploader;
    }

    /** The upload loop of `createReport`: files are sent one at a time, in order, and the
        first failed upload ends the loop. */
    method UploadFiles(files: seq<File>) returns (uploaded: Option<seq<Url>>, ghost sent: seq<Url>)
      modifies this`log
      ensures |sent| <= |files|
      ensures uploaded.Some? ==> uploaded.value == sent && |sent| == |files| && log == old(log) + Uploads(files, sent)
      ensures uploaded.None? ==>
                && |sent| < |files|
                && log == old(log) + Uploads(files[..|sent|], sent) + [Upload(files[|sent|], None)]
    {
      var urls: seq<Url> := [];
      sent := [];
      var i := 0;
      while i < |files|
        invariant 0 <= i <= |files| && |urls| == i && sent == urls
        invariant log == old(log) + Uploads(files[..i], urls)
      {
        var url := uploader.UploadFile(files[i]);
        log := log + [Upload(files[i], url)];
        if url.None? {
          return None, urls;
        }
        assert Uploads(files[..i + 1], urls + [url.value]) == Uploads(files[..i], urls) + [Upload(files[i], url)];
        urls := urls + [url.value];
        sent := urls;
        i := i + 1;
      }
      assert files[..i] == files;
      uploaded := Some(urls);
    }

    /** The insert loop of `createReport`: one photo row per URL, in order, under new ids. */
    method SavePhotos(reportId: int, urls: seq<Url>)
      modifies this`photos, this`nextPhotoId, this`log
      ensures photos == old(photos) + PhotoRows(old(nextPhotoId), reportId, urls)
      ensures nextPhotoId == old(nextPhotoId) + |urls|
      ensures log == old(log) + PhotoSaves(PhotoRows(old(nextPhotoId), reportId, urls))
    {
      var firstPhotoId := nextPhotoId;
      var j := 0;
      while j < |urls|
        invariant 0 <= j <= |urls|
        invariant photos == old(photos) + PhotoRows(firstPhotoId, reportId, urls[..j])
        invariant nextPhotoId == firstPhotoId + j
        invariant log == old(log) + PhotoSaves(PhotoRows(firstPhotoId, reportId, urls[..j]))
      {
        var photo := Photo(nextPhotoId, reportId, urls[j]);
        assert PhotoRows(firstPhotoId, reportId, urls[..j + 1]) == PhotoRows(firstPhotoId, reportId, urls[..j]) + [photo];
        photos := photos + [photo];
        log := log + [PhotoSaved(photo)];
        nextPhotoId := nextPhotoId + 1;
        j := j + 1;
      }
      assert urls[..j] == urls;
    }

    /** `createReport`: validation, date conversion and trip lookup come first; then every
        file is uploaded; only when all uploads succeeded are the report and one photo row per
        URL inserted. */
    method CreateReport(viagemId: int, dto: ReportDto, files: seq<File>) returns (r: Result<()>, ghost urls: seq<Url>)
      requires Valid()
      modifies this
      ensures Valid()
      ensures PrepareReport(dto, files).Err? ==> r == Err(PrepareReport(dto, files).failure) && log == old(log)
      ensures PrepareReport(dto, files).Ok? && Trips.FindTrip(tripRepository.rows, viagemId).None? ==>
                r == Err(NotFound(TripNotFound)) && log == old(log)
      ensures PrepareReport(dto, files).Ok? && Trips.FindTrip(tripRepository.rows, viagemId).Some? && r.Err? ==>
                && r == Err(BadRequest(UploadFailed)) && |urls| < |files|
                && log == old(log) + Uploads(files[..|urls|], urls) + [Upload(files[|urls|], None)]
      ensures r.Err? ==>
                && reports == old(reports) && photos == old(photos)
                && nextReportId == old(nextReportId) && nextPhotoId == old(nextPhotoId)
      ensures r.Ok? ==>
                && PrepareReport(dto, files).Ok? && Trips.FindTrip(tripRepository.rows, viagemId).Some?
                && |urls| == |files|
                && reports == old(reports) + [NewReport(old(nextReportId), viagemId, PrepareReport(dto, files).value,
                                                        TripName(Trips.FindTrip(tripRepository.rows, viagemId).value))]
                && photos == old(photos) + PhotoRows(old(nextPhotoId), old(nextReportId), urls)
                && nextReportId == old(nextReportId) + 1 && nextPhotoId == old(nextPhotoId) + |files|
                && log == old(log) + Uploads(files, urls) + [ReportSaved(old(nextReportId))]
                          + PhotoSaves(PhotoRows(old(nextPhotoId), old(nextReportId), urls))
                && PhotoUrls(photos, old(nextReportId)) == urls
    {
      urls := [];
      var prepared := PrepareReport(dto, files);
      if prepared.Err? {
        r := Err(prepared.failure);
        return;
      }
      var trip := Trips.FindTrip(tripRepository.rows, viagemId);
      if trip.None? {
        r := Err(NotFound(TripNotFound));
        return;
      }
      var uploaded;
      uploaded, urls := UploadFiles(files);
      if uploaded.None? {
        r := Err(BadRequest(UploadFailed));
        return;
      }
      var id := nextReportId;
      var report := NewReport(id, viagemId, prepared.value, TripName(trip.value));
      CreatePreservesValid(reports, photos, nextReportId, nextPhotoId, report, urls);
      reports := reports + [report];
      nextReportId := id + 1;
      log := log + [ReportSaved(id)];
      SavePhotos(id, uploaded.value);
      r := Ok(());
    }

    /** `reportById`: a falsy id is a BadRequest; an unknown id makes the service read a
        property of `null`, an internal error; otherwise the formatted report with its photos. */
    method ReportById(id: Option<int>) returns (r: Result<ReportView>)
      requires Valid()
      ensures !Truthy(id) ==> r == Err(BadRequest(MissingId))
      ensures Truthy(id) && (forall rep :: rep in reports ==> rep.id != id.value) ==>
                r == Err(InternalError(NullDereference))
      ensures r.Ok? <==> Truthy(id) && exists rep :: rep in reports && rep.id == id.value
      ensures r.Ok? ==> forall rep :: rep in reports && rep.id == id.value ==> r.value == ViewOf(rep, photos)
      ensures r.Ok? ==> r.value.id == id.value && r.value.foto == PhotoUrls(photos, id.value)
    {
      if !Truthy(id) {
        return Err(BadRequest(MissingId));
      }
      var report := FindReport(reports, id.value);
      if report.None? {
        return Err(InternalError(NullDereference));
      }
      forall rep | rep in reports && rep.id == id.value
        ensures rep == report.value
      {
        AscendingUnique(reports, ReportId, rep, report.value);
      }
      r := Ok(ViewOf(report.value, photos));
    }

    /** `reportFindAll`: one formatted entry per report, in table order. */
    method ReportFindAll() returns (views: seq<ReportView>)
      requires Valid()
      ensures |views| == |reports|
      ensures forall i :: 0 <= i < |reports| ==> views[i] == ViewOf(reports[i], photos)
    {
      var rows, fotos := reports, photos;
      assert forall i :: 0 <= i < |rows| ==> rows[i] in rows;
      views := seq(|rows|, i requires 0 <= i < |rows| && Formattable(Some(rows[i].data)) => ViewOf(rows[i], fotos));
    }

    /** `deleteById`: as written, the report is dereferenced before its null check, so an
        unknown id is an internal error and the NotFound branch is never taken. A found report
        is deleted, then the first photo row naming it; with no such row the ORM refuses
        `delete(null)` after the report is already gone. */
    method DeleteById(id: Option<int>) returns (r: Result<()>)
      requires Valid()
      modifies this
      ensures Valid()
      ensures log == old(log) && nextReportId == old(nextReportId) && nextPhotoId == old(nextPhotoId)
      ensures !Truthy(id) ==> r == Err(BadRequest(MissingId))
      ensures Truthy(id) && (forall rep :: rep in old(reports) ==> rep.id != id.value) ==>
                r == Err(InternalError(NullDereference))
      ensures (!Truthy(id) || forall rep :: rep in old(reports) ==> rep.id != id.value) ==>
                reports == old(reports) && photos == old(photos)
      ensures Truthy(id) && (exists rep :: rep in old(reports) && rep.id == id.value) ==>
                && reports == WithoutReports(old(reports), [id.value])
                && (FirstPhoto(old(photos), id.value).None? ==>
                      r == Err(InternalError(EmptyDeleteCriteria)) && photos == old(photos))
                && (FirstPhoto(old(photos), id.value).Some? ==>
                      r == Ok(()) && photos == WithoutPhoto(old(photos), FirstPhoto(old(photos), id.value).value.id))
      ensures r.Ok? ==>
                && PhotoUrls(old(photos), id.value) == [FirstPhoto(old(photos), id.value).value.url] + PhotoUrls(photos, id.value)
                && forall other :: other != id.value ==> PhotoUrls(photos, other) == PhotoUrls(old(photos), other)
      ensures r.Err? ==> !r.failure.NotFound?
    {
      if !Truthy(id) {
        return Err(BadRequest(MissingId));
      }
      var report := FindReport(reports, id.value);
      if report.None? {
        return Err(InternalError(NullDereference));
      }
      var img := FirstPhoto(photos, report.value.id);
      DeletePreservesValid(reports, photos, nextReportId, nextPhotoId, [id.value], if img.Some? then img.value.id else 0);
      reports := WithoutReports(reports, [id.value]);
      if img.None? {
        return Err(InternalError(EmptyDeleteCriteria));
      }
      RemoveFirstPhoto(photos, id.value);
      forall other | other != id.value
        ensures PhotoUrls(WithoutPhoto(photos, img.value.id), other) == PhotoUrls(photos, other)
      {
        RemovePhotoKeepsOthers(photos, img.value, other);
      }
      photos := WithoutPhoto(photos, img.value.id);
      r := Ok(());
    }

    /** `deleteByIds`: an absent list is a BadRequest, and so is a list naming no report;
        otherwise every listed report is deleted and the photo rows stay. */
    method DeleteByIds(ids: Option<seq<int>>) returns (r: Result<()>)
      requires Valid()
      modifies this
      ensures Valid()
      ensures log == old(log) && photos == old(photos)
      ensures nextReportId == old(nextReportId) && nextPhotoId == old(nextPhotoId)
      ensures ids.None? ==> r == Err(BadRequest(MissingIds))
      ensures r.Ok? <==> ids.Some? && exists rep :: rep in old(reports) && rep.id in ids.value
      ensures ids.Some? && r.Err? ==> r == Err(BadRequest(NoIdsMatched))
      ensures r.Ok? ==> reports == WithoutReports(old(reports), ids.value)
      ensures r.Err? ==> reports == old(reports)
    {
      if ids.None? {
        return Err(BadRequest(MissingIds));
      }
      var found := Filter(reports, (rep: Report) => rep.id in ids.value);
      if |found| == 0 {
        return Err(BadRequest(NoIdsMatched));
      }
      assert found[0] in found;
      DeletePreservesValid(reports, photos, nextReportId, nextPhotoId, ids.value, 0);
      reports := WithoutReports(reports, ids.value);
      r := Ok(());
    }

    /** `updateReport`: checks the id and that the report exists, converts a present date and
        updates the row; on any failure nothing changes. */
    method UpdateReport(dto: ReportDto) returns (r: Result<()>)
      requires Valid()
      modifies this
      ensures Valid()
      ensures log == old(log) && photos == old(photos)
      ensures nextReportId == old(nextReportId) && nextPhotoId == old(nextPhotoId)
      ensures !Truthy(dto.id) ==> r == Err(BadRequest(MissingId))
      ensures Truthy(dto.id) && (forall rep :: rep in old(reports) ==> rep.id != dto.id.value) ==>
                r == Err(BadRequest(ReportNotFound))
      ensures Truthy(dto.id) && (exists rep :: rep in old(reports) && rep.id == dto.id.value) ==>
                r == (if PrepareReportUpdate(dto).Ok? then Ok(()) else Err(BadRequest(InvalidDate)))
      ensures r.Err? ==> reports == old(reports)
      ensures r.Ok? ==> reports == UpdateReports(old(reports), dto.id.value, PrepareReportUpdate(dto).value)
    {
      if !Truthy(dto.id) {
        return Err(BadRequest(MissingId));
      }
      var report := FindReport(reports, dto.id.value);
      if report.None? {
        return Err(BadRequest(ReportNotFound));
      }
      var prepared := PrepareReportUpdate(dto);
      if prepared.Err? {
        return Err(prepared.failure);
      }
      UpdatePreservesValid(reports, photos, nextReportId, nextPhotoId, dto.id.value, dto);
      reports := UpdateReports(reports, dto.id.value, prepared.value);
      r := Ok(());
    }
  }
}
