/**
 * The two collections of the server, `reports` (pre-inspection reports) and `after-reports`
 * (post-inspection reports forked from them), as two maps from id to report, and the route
 * handlers that change them: registration, the bulk photo intake, the three ledger-update routes,
 * the equipment record, and the single-entry edit and delete.
 */
module Reports {
  import opened Wrappers
  import opened Js
  import opened Seqs
  import opened Ledger
  import opened Equipment
  import opened Upload

  /** The customer fields of a report, each possibly undefined. */
  datatype Customer = Customer(
    date: Field, apartmentName: Field, dong: Field, home: Field, customerName: Field, phone: Field)

  /** One stored document; `originalReportId` is set on after-reports only. */
  datatype Report = Report(
    originalReportId: Option<Id>,
    customer: Customer,
    visualInspection: seq<Defect>,
    equipmentInspection: Option<Record>,
    createdAt: Time,
    updatedAt: Option<Time>)

  datatype Store = Store(reports: map<Id, Report>, afterReports: map<Id, Report>)

  /** The 400 and 404 answers of the routes. */
  datatype Error = InvalidReportId | InvalidEntryId | NoUploadedFiles | ReportNotFound

  /**
   * Pre-reports carry no `originalReportId`; an after-report is stored under its pre-report's id,
   * records that id as `originalReportId`, and its pre-report exists.
   */
  predicate Valid(s: Store) {
    && (forall k :: k in s.reports ==> s.reports[k].originalReportId == None)
    && (forall k :: k in s.afterReports ==> s.afterReports[k].originalReportId == Some(k) && k in s.reports)
  }

  /** The store with report `id`'s ledger replaced (a `$set`/`$push`/`$pull` on `visualInspection`). */
  function WithLedger(s: Store, id: Id, ledger: seq<Defect>): (r: Store)
    requires id in s.reports
    ensures r.afterReports == s.afterReports && r.reports.Keys == s.reports.Keys
    ensures r.reports[id] == s.reports[id].(visualInspection := ledger)
    ensures forall k :: k in s.reports && k != id ==> r.reports[k] == s.reports[k]
  {
    s.(reports := s.reports[id := s.reports[id].(visualInspection := ledger)])
  }

  /** Nothing outside report `id` changed in the pre-report collection, and after-reports not at all. */
  predicate OnlyReportChanged(s: Store, r: Store, id: Id) {
    && r.afterReports == s.afterReports && r.reports.Keys == s.reports.Keys
    && (forall k :: k in s.reports && k != id ==> r.reports[k] == s.reports[k])
  }

  /** Nothing outside after-report `id` changed in the after-report collection, and pre-reports not at all. */
  predicate OnlyAfterReportChanged(s: Store, r: Store, id: Id) {
    && r.reports == s.reports && r.afterReports.Keys == s.afterReports.Keys
    && (forall k :: k in s.afterReports && k != id ==> r.afterReports[k] == s.afterReports[k])
  }

  // =============================================================================================
  // POST /register

  /**
   * `insertOne` of the customer fields with an empty ledger, under the fresh id the database
   * generates: one more report, and every old one survives unchanged.
   */
  function Register(s: Store, form: Customer, newId: Id, now: Time): (r: Store)
    requires newId !in s.reports
    ensures r.afterReports == s.afterReports && r.reports.Keys == s.reports.Keys + {newId}
    ensures |r.reports| == |s.reports| + 1
    ensures r.reports[newId] == Report(None, form, [], None, now, None)
    ensures forall k :: k in s.reports ==> r.reports[k] == s.reports[k]
    ensures Valid(s) ==> Valid(r)
  {
    var report := Report(None, form, [], None, now, None);
    FreshKeyGrows(s.reports, newId, report);
    s.(reports := s.reports[newId := report])
  }

  /** Storing under a key the map does not hold adds one element. */
  lemma FreshKeyGrows(m: map<Id, Report>, k: Id, v: Report)
    requires k !in m
    ensures |m[k := v]| == |m| + 1
  {
  }

  // =============================================================================================
  // POST /report

  /** The file names after the compression loop. */
  function CompressedNames(filenames: seq<string>): seq<string> {
    seq(|filenames|, i requires 0 <= i < |filenames| => CompressedName(filenames[i]))
  }

  /**
   * The bulk intake: 400 for a missing or invalid report id, then 400 for an empty upload, then 404
   * for an unknown report; otherwise the grouped entries (photos under their compressed names) are
   * appended to the report's ledger and nothing else changes.
   */
  function PostReport(s: Store, reportId: Option<Id>, filenames: seq<string>, form: IntakeForm,
                      newId: nat -> Id, now: Time): (r: Result<Store, Error>)
    ensures r.Failure? <==> reportId.None? || filenames == [] || reportId.value !in s.reports
    ensures reportId.None? ==> r == Failure(InvalidReportId)
    ensures reportId.Some? && filenames == [] ==> r == Failure(NoUploadedFiles)
    ensures reportId.Some? && filenames != [] && reportId.value !in s.reports ==> r == Failure(ReportNotFound)
    ensures r.Success? ==> OnlyReportChanged(s, r.value, reportId.value)
    ensures r.Success? ==> var old_ := s.reports[reportId.value]; var new_ := r.value.reports[reportId.value];
      && new_ == old_.(visualInspection := new_.visualInspection)
      && new_.visualInspection == old_.visualInspection + IntakeEntries(form, CompressedNames(filenames), newId, now)
    ensures Valid(s) && r.Success? ==> Valid(r.value)
  {
    if reportId.None? then Failure(InvalidReportId)
    else if filenames == [] then Failure(NoUploadedFiles)
    else if reportId.value !in s.reports then Failure(ReportNotFound)
    else
      var id := reportId.value;
      Success(WithLedger(s, id, s.reports[id].visualInspection + IntakeEntries(form, CompressedNames(filenames), newId, now)))
  }

  /**
   * The route as it runs: the guards, the compression loop that renames every uploaded file, the
   * grouping loop, then the `$push` whose `matchedCount` decides the 404. Files are compressed
   * exactly when both guards pass, even when the report then turns out not to exist.
   */
  method HandlePostReport(s: Store, reportId: Option<Id>, files: seq<UploadedFile>, form: IntakeForm,
                          newId: nat -> Id, now: Time)
    returns (r: Result<Store, Error>)
    requires forall i, j :: 0 <= i < j < |files| ==> files[i] != files[j]
    modifies files
    ensures r == PostReport(s, reportId, old(Filenames(files)), form, newId, now)
    ensures reportId.Some? ==> forall i :: 0 <= i < |files| ==> files[i].filename == CompressedName(old(files[i].filename))
    ensures reportId.Some? ==> forall i :: 0 <= i < |files| ==> files[i].path == "upload/" + files[i].filename
    ensures reportId.None? ==> forall i :: 0 <= i < |files| ==>
      files[i].filename == old(files[i].filename) && files[i].path == old(files[i].path)
  {
    if reportId.None? {
      return Failure(InvalidReportId);
    }
    if |files| == 0 {
      return Failure(NoUploadedFiles);
    }
    ghost var uploaded := Filenames(files);
    CompressAll(files);
    var names := Filenames(files);
    assert names == CompressedNames(uploaded);
    var visualInspectionData := BuildIntake(form, names, newId, now);
    var id := reportId.value;
    if id !in s.reports {
      return Failure(ReportNotFound);
    }
    r := Success(WithLedger(s, id, s.reports[id].visualInspection + visualInspectionData));
  }

  /**
   * The intake only appends: the old ledger is a prefix of the new one, and the appended entries'
   * photos, read in order, are the upload in upload order, compressed.
   */
  lemma PostReportAppends(s: Store, reportId: Option<Id>, filenames: seq<string>, form: IntakeForm,
                          newId: nat -> Id, now: Time)
    requires PostReport(s, reportId, filenames, form, newId, now).Success?
    ensures var old_ := s.reports[reportId.value].visualInspection;
      var new_ := PostReport(s, reportId, filenames, form, newId, now).value.reports[reportId.value].visualInspection;
      && |new_| == |old_| + (|filenames| + 1) / 2
      && new_[..|old_|] == old_
      && Concat(ImagesOf(new_[|old_|..])) == CompressedNames(filenames)
  {
    var old_ := s.reports[reportId.value].visualInspection;
    var added := IntakeEntries(form, CompressedNames(filenames), newId, now);
    IntakeShape(form, CompressedNames(filenames), newId, now);
    var new_ := old_ + added;
    assert new_[..|old_|] == old_;
    assert new_[|old_|..] == added;
  }

  // =============================================================================================
  // POST /update-report, /save-new-report, /update-after-report

  /**
   * `if (req.body["newDefects[][location]"])`: the parse behind the guard of the fork and of the
   * after-report update. The guard changes nothing: a falsy location value parses to no row anyway.
   */
  function GuardedNewDefects(form: DefectForm, images: seq<string>, newId: nat -> Id, now: Time): (r: seq<Defect>)
    ensures r == ParseNewDefects(Rows(form), images, newId, now)
  {
    if FormTruthy(form.location) then ParseNewDefects(Rows(form), images, newId, now)
    else
      assert Rows(form) == [Rows(form)[0]] && !Complete(Rows(form)[0]);
      assert Rows(form)[..0] == [];
      []
  }

  /** `newDefects.length > 0 ? [...existing, ...newDefects] : existing`, which is always the concatenation. */
  function Merge(existing: seq<Defect>, newDefects: seq<Defect>): (r: seq<Defect>)
    ensures r == existing + newDefects
  {
    if |newDefects| > 0 then existing + newDefects else assert newDefects == []; existing
  }

  /**
   * /update-report: 400 for a missing or invalid id, 404 for an unknown pre-report; otherwise the
   * ledger becomes the survivors of the removal list followed by the new rows, and `updatedAt` is
   * set. (The `$pull` issued first is overwritten by this `$set`.)
   */
  function UpdateReport(s: Store, reportId: Option<Id>, removal: Option<seq<Id>>, form: DefectForm,
                        newDefectsImages: seq<string>, newId: nat -> Id, now: Time): (r: Result<Store, Error>)
    ensures reportId.None? ==> r == Failure(InvalidReportId)
    ensures reportId.Some? ==> (r.Failure? <==> reportId.value !in s.reports) && (r.Failure? ==> r.error == ReportNotFound)
    ensures r.Success? ==> OnlyReportChanged(s, r.value, reportId.value)
    ensures r.Success? ==> var old_ := s.reports[reportId.value]; var new_ := r.value.reports[reportId.value];
      && new_ == old_.(visualInspection := new_.visualInspection, updatedAt := Some(now))
      && new_.visualInspection == Remaining(old_.visualInspection, removal) + ParseNewDefects(Rows(form), newDefectsImages, newId, now)
    ensures Valid(s) && r.Success? ==> Valid(r.value)
  {
    if reportId.None? then Failure(InvalidReportId)
    else if reportId.value !in s.reports then Failure(ReportNotFound)
    else
      var id := reportId.value;
      var report := s.reports[id];
      var existingDefects := Remaining(report.visualInspection, removal);
      var newDefects := ParseNewDefects(Rows(form), newDefectsImages, newId, now);
      Success(s.(reports := s.reports[id := report.(visualInspection := existingDefects + newDefects, updatedAt := Some(now))]))
  }

  /**
   * What an updated ledger holds: an entry is in it iff it is an old entry that has an id outside the
   * removal list (every old entry when there is none) or one of the new rows; the kept old entries
   * come first, in their order, and the new entries are exactly the complete rows.
   */
  lemma UpdatedLedgerContents(existing: seq<Defect>, removal: Option<seq<Id>>, rows: seq<Row>,
                              images: seq<string>, newId: nat -> Id, now: Time)
    ensures var kept, added := Remaining(existing, removal), ParseNewDefects(rows, images, newId, now);
      var ledger := kept + added;
      && (forall d :: d in ledger <==>
            (d in existing && (removal.None? || (d.id.Some? && d.id.value !in removal.value))) || d in added)
      && ledger[..|kept|] == kept
      && |added| == |KeptRows(rows)|
      && (removal.None? ==> ledger[..|existing|] == existing)
  {
    if removal.Some? {
      SurvivorsSpec(existing, removal.value);
    }
    ParseCharacterisation(rows, images, newId, now);
    var kept := Remaining(existing, removal);
    assert (kept + ParseNewDefects(rows, images, newId, now))[..|kept|] == kept;
  }

  /**
   * The fork's after-report, built from the pre-report and the body: it records the pre-report's id,
   * each customer field is the body's when that is truthy and the pre-report's otherwise (so it is
   * truthy when either is), and both timestamps are the request's.
   */
  function ForkedReport(id: Id, pre: Report, body: Customer, ledger: seq<Defect>,
                        equipment: Option<Record>, now: Time): (r: Report)
    ensures r.originalReportId == Some(id)
    ensures r.visualInspection == ledger && r.equipmentInspection == equipment
    ensures r.createdAt == now && r.updatedAt == Some(now)
    ensures Truthy(body.date) ==> r.customer.date == body.date
    ensures Truthy(body.apartmentName) ==> r.customer.apartmentName == body.apartmentName
    ensures Truthy(body.dong) ==> r.customer.dong == body.dong
    ensures Truthy(body.home) ==> r.customer.home == body.home
    ensures Truthy(body.customerName) ==> r.customer.customerName == body.customerName
    ensures Truthy(body.phone) ==> r.customer.phone == body.phone
    ensures !Truthy(body.date) ==> r.customer.date == pre.customer.date
    ensures !Truthy(body.apartmentName) ==> r.customer.apartmentName == pre.customer.apartmentName
    ensures !Truthy(body.dong) ==> r.customer.dong == pre.customer.dong
    ensures !Truthy(body.home) ==> r.customer.home == pre.customer.home
    ensures !Truthy(body.customerName) ==> r.customer.customerName == pre.customer.customerName
    ensures !Truthy(body.phone) ==> r.customer.phone == pre.customer.phone
    ensures Truthy(r.customer.customerName) <==> Truthy(body.customerName) || Truthy(pre.customer.customerName)
  {
    Report(
      Some(id),
      Customer(
        Or(body.date, pre.customer.date),
        Or(body.apartmentName, pre.customer.apartmentName),
        Or(body.dong, pre.customer.dong),
        Or(body.home, pre.customer.home),
        Or(body.customerName, pre.customer.customerName),
        Or(body.phone, pre.customer.phone)),
      ledger,
      equipment,
      now,
      Some(now))
  }

  /**
   * /save-new-report, the fork of a pre-report into an after-report under the same id: 400 for a
   * missing or invalid id, 404 for an unknown pre-report. Otherwise a removal list is first `$pull`ed
   * from the PRE-report's ledger; then the after-report is upserted with `$set`: every listed field
   * is overwritten (the ledger with the pre-report's survivors followed by the new rows), while the
   * `equipmentInspection` of an after-report that already exists is kept.
   */
  function SaveNewReport(s: Store, reportId: Option<Id>, removal: Option<seq<Id>>, body: Customer,
                         form: DefectForm, newDefectsImages: seq<string>, newId: nat -> Id, now: Time)
    : (r: Result<Store, Error>)
    ensures reportId.None? ==> r == Failure(InvalidReportId)
    ensures reportId.Some? ==> (r.Failure? <==> reportId.value !in s.reports) && (r.Failure? ==> r.error == ReportNotFound)
    ensures r.Success? ==> var id := reportId.value;
      && r.value.reports.Keys == s.reports.Keys
      && (forall k :: k in s.reports && k != id ==> r.value.reports[k] == s.reports[k])
      && r.value.reports[id] == s.reports[id].(visualInspection := r.value.reports[id].visualInspection)
      && r.value.reports[id].visualInspection ==
           (if removal.Some? then Pull(s.reports[id].visualInspection, removal.value) else s.reports[id].visualInspection)
      && r.value.afterReports.Keys == s.afterReports.Keys + {id}
      && (forall k :: k in s.afterReports && k != id ==> r.value.afterReports[k] == s.afterReports[k])
    ensures Valid(s) && r.Success? ==> Valid(r.value)
  {
    if reportId.None? then Failure(InvalidReportId)
    else if reportId.value !in s.reports then Failure(ReportNotFound)
    else
      var id := reportId.value;
      var pre := s.reports[id];
      var pulled := if removal.Some? then Pull(pre.visualInspection, removal.value) else pre.visualInspection;
      var reports := s.reports[id := pre.(visualInspection := pulled)];
      assert removal.None? ==> reports == s.reports;
      var existingDefects := Remaining(pre.visualInspection, removal);
      var newDefects := GuardedNewDefects(form, newDefectsImages, newId, now);
      var equipment := if id in s.afterReports then s.afterReports[id].equipmentInspection else None;
      var after := ForkedReport(id, pre, body, Merge(existingDefects, newDefects), equipment, now);
      assert after.originalReportId == Some(id);
      Success(Store(reports, s.afterReports[id := after]))
  }

  /**
   * The forked after-report: `_id = originalReportId = reportId`; each customer field is the body's
   * value when truthy and the pre-report's otherwise; the ledger is the pre-report's survivors
   * followed by the new rows; both timestamps are the request's; the equipment record is the one an
   * existing after-report had, or none.
   */
  lemma ForkedAfterReport(s: Store, id: Id, removal: Option<seq<Id>>, body: Customer,
                          form: DefectForm, newDefectsImages: seq<string>, newId: nat -> Id, now: Time)
    requires id in s.reports
    ensures var r := SaveNewReport(s, Some(id), removal, body, form, newDefectsImages, newId, now);
      var pre, a := s.reports[id], r.value.afterReports[id];
      && r.Success?
      && a.originalReportId == Some(id)
      && a.customer.date == (if Truthy(body.date) then body.date else pre.customer.date)
      && a.customer.apartmentName == (if Truthy(body.apartmentName) then body.apartmentName else pre.customer.apartmentName)
      && a.customer.dong == (if Truthy(body.dong) then body.dong else pre.customer.dong)
      && a.customer.home == (if Truthy(body.home) then body.home else pre.customer.home)
      && a.customer.customerName == (if Truthy(body.customerName) then body.customerName else pre.customer.customerName)
      && a.customer.phone == (if Truthy(body.phone) then body.phone else pre.customer.phone)
      && a.visualInspection == Remaining(pre.visualInspection, removal) + ParseNewDefects(Rows(form), newDefectsImages, newId, now)
      && a.createdAt == now && a.updatedAt == Some(now)
      && a.equipmentInspection == (if id in s.afterReports then s.afterReports[id].equipmentInspection else None)
  {
  }

  /**
   * A repeated fork overwrites the after-report's ledger: whatever the after-report held (entries
   * added by /update-after-report included), the new ledger depends on the pre-report and the
   * request alone.
   */
  lemma RepeatForkOverwrites(s1: Store, s2: Store, id: Id, removal: Option<seq<Id>>, body: Customer,
                             form: DefectForm, newDefectsImages: seq<string>, newId: nat -> Id, now: Time)
    requires id in s1.reports && s1.reports == s2.reports
    requires id in s1.afterReports && id in s2.afterReports
    requires s1.afterReports[id].equipmentInspection == s2.afterReports[id].equipmentInspection
    ensures var r1 := SaveNewReport(s1, Some(id), removal, body, form, newDefectsImages, newId, now);
      var r2 := SaveNewReport(s2, Some(id), removal, body, form, newDefectsImages, newId, now);
      r1.value.afterReports[id] == r2.value.afterReports[id] && r1.value.reports == r2.value.reports
  {
  }

  /**
   * The removal reaches the pre-report: after a fork with a removal list, forking again with the same
   * list and no new rows gives the same after-report ledger, because the pre-report already lost
   * those entries and the survivors of its pulled ledger are the survivors of the original.
   */
  lemma ForkTwiceSameLedger(s: Store, id: Id, ids: seq<Id>, body: Customer, form: DefectForm,
                            newDefectsImages: seq<string>, newId: nat -> Id, now1: Time, now2: Time)
    requires id in s.reports
    requires ParseNewDefects(Rows(form), newDefectsImages, newId, now1) == []
    requires ParseNewDefects(Rows(form), newDefectsImages, newId, now2) == []
    ensures var r1 := SaveNewReport(s, Some(id), Some(ids), body, form, newDefectsImages, newId, now1);
      var r2 := SaveNewReport(r1.value, Some(id), Some(ids), body, form, newDefectsImages, newId, now2);
      && r1.value.reports[id].visualInspection == Pull(s.reports[id].visualInspection, ids)
      && r2.value.afterReports[id].visualInspection == r1.value.afterReports[id].visualInspection
      && r2.value.afterReports[id].visualInspection == Survivors(s.reports[id].visualInspection, ids)
  {
    SurvivorsSpec(s.reports[id].visualInspection, ids);
  }

  /**
   * /update-after-report: 400 for a missing or invalid id, 404 for an unknown after-report; otherwise
   * the after-report's ledger becomes its survivors followed by the new rows and `updatedAt` is set;
   * the pre-report is not touched.
   */
  function UpdateAfterReport(s: Store, reportId: Option<Id>, removal: Option<seq<Id>>, form: DefectForm,
                             newDefectsImages: seq<string>, newId: nat -> Id, now: Time): (r: Result<Store, Error>)
    ensures reportId.None? ==> r == Failure(InvalidReportId)
    ensures reportId.Some? ==> (r.Failure? <==> reportId.value !in s.afterReports) && (r.Failure? ==> r.error == ReportNotFound)
    ensures r.Success? ==> OnlyAfterReportChanged(s, r.value, reportId.value)
    ensures r.Success? ==> var old_ := s.afterReports[reportId.value]; var new_ := r.value.afterReports[reportId.value];
      && new_ == old_.(visualInspection := new_.visualInspection, updatedAt := Some(now))
      && new_.visualInspection == Remaining(old_.visualInspection, removal) + ParseNewDefects(Rows(form), newDefectsImages, newId, now)
    ensures Valid(s) && r.Success? ==> Valid(r.value)
  {
    if reportId.None? then Failure(InvalidReportId)
    else if reportId.value !in s.afterReports then Failure(ReportNotFound)
    else
      var id := reportId.value;
      var report := s.afterReports[id];
      var existingDefects := Remaining(report.visualInspection, removal);
      var newDefects := GuardedNewDefects(form, newDefectsImages, newId, now);
      Success(s.(afterReports := s.afterReports[id := report.(visualInspection := existingDefects + newDefects, updatedAt := Some(now))]))
  }

  // =============================================================================================
  // POST /edit-customer/:id

  /**
   * `$set` of the six customer fields from the body: each becomes the sent value, an unsent one
   * becomes undefined. `updateOne` without a match changes nothing and the route redirects anyway.
   */
  function EditCustomer(s: Store, id: Id, c: Customer): (r: Store)
    ensures id in s.reports ==> OnlyReportChanged(s, r, id) && r.reports[id] == s.reports[id].(customer := c)
    ensures id !in s.reports ==> r == s
    ensures Valid(s) ==> Valid(r)
  {
    if id in s.reports then s.(reports := s.reports[id := s.reports[id].(customer := c)]) else s
  }

  /** A second customer edit replaces the first completely; the ledger and equipment are kept. */
  lemma EditCustomerLastWriteWins(s: Store, id: Id, c1: Customer, c2: Customer)
    ensures EditCustomer(EditCustomer(s, id, c1), id, c2) == EditCustomer(s, id, c2)
    ensures id in s.reports ==>
      && EditCustomer(s, id, c2).reports[id].visualInspection == s.reports[id].visualInspection
      && EditCustomer(s, id, c2).reports[id].equipmentInspection == s.reports[id].equipmentInspection
  {
    if id in s.reports {
      assert EditCustomer(s, id, c1).reports[id := EditCustomer(s, id, c1).reports[id].(customer := c2)]
        == s.reports[id := s.reports[id].(customer := c2)];
    }
  }

  // POST /equipment-report and /update-equipment-report

  /** `$set: { equipmentInspection: ... }`: the record replaces the old one wholesale. */
  function SetEquipment(s: Store, reportId: Option<Id>, sub: Submission, stamp: Stamp): (r: Result<Store, Error>)
    ensures reportId.None? ==> r == Failure(InvalidReportId)
    ensures reportId.Some? ==> (r.Failure? <==> reportId.value !in s.reports) && (r.Failure? ==> r.error == ReportNotFound)
    ensures r.Success? ==> OnlyReportChanged(s, r.value, reportId.value)
    ensures r.Success? ==> var new_ := r.value.reports[reportId.value];
      && new_ == s.reports[reportId.value].(equipmentInspection := new_.equipmentInspection)
      && new_.equipmentInspection == Some(Encode(sub, stamp))
    ensures Valid(s) && r.Success? ==> Valid(r.value)
  {
    if reportId.None? then Failure(InvalidReportId)
    else if reportId.value !in s.reports then Failure(ReportNotFound)
    else
      var id := reportId.value;
      Success(s.(reports := s.reports[id := s.reports[id].(equipmentInspection := Some(Encode(sub, stamp)))]))
  }

  /**
   * /equipment-report: 400 for a missing or invalid id, 404 for an unknown pre-report; otherwise the
   * report's equipment record becomes the encoded submission stamped `createdAt`, and nothing else
   * in the store changes.
   */
  function SaveEquipment(s: Store, reportId: Option<Id>, sub: Submission, now: Time): (r: Result<Store, Error>)
    ensures reportId.None? ==> r == Failure(InvalidReportId)
    ensures reportId.Some? ==> (r.Failure? <==> reportId.value !in s.reports) && (r.Failure? ==> r.error == ReportNotFound)
    ensures r.Success? ==>
      && OnlyReportChanged(s, r.value, reportId.value)
      && r.value.reports[reportId.value] == s.reports[reportId.value].(equipmentInspection := Some(Encode(sub, CreatedAt(now))))
    ensures r.Success? ==> r.value.reports[reportId.value].equipmentInspection.value.stamp == CreatedAt(now)
    ensures Valid(s) && r.Success? ==> Valid(r.value)
  {
    SetEquipment(s, reportId, sub, CreatedAt(now))
  }

  /**
   * /update-equipment-report: the same answers as /equipment-report, but the new record is stamped
   * `updatedAt` and carries no `createdAt`.
   */
  function UpdateEquipment(s: Store, reportId: Option<Id>, sub: Submission, now: Time): (r: Result<Store, Error>)
    ensures reportId.None? ==> r == Failure(InvalidReportId)
    ensures reportId.Some? ==> (r.Failure? <==> reportId.value !in s.reports) && (r.Failure? ==> r.error == ReportNotFound)
    ensures r.Success? ==>
      && OnlyReportChanged(s, r.value, reportId.value)
      && r.value.reports[reportId.value] == s.reports[reportId.value].(equipmentInspection := Some(Encode(sub, UpdatedAt(now))))
    ensures r.Success? ==> r.value.reports[reportId.value].equipmentInspection.value.stamp == UpdatedAt(now)
    ensures Valid(s) && r.Success? ==> Valid(r.value)
  {
    SetEquipment(s, reportId, sub, UpdatedAt(now))
  }

  /** The last write wins: an update leaves nothing of the saved record, and the ledger is untouched. */
  lemma EquipmentLastWriteWins(s: Store, id: Id, first: Submission, second: Submission, t1: Time, t2: Time)
    requires id in s.reports
    ensures var r1 := SaveEquipment(s, Some(id), first, t1);
      var r2 := UpdateEquipment(r1.value, Some(id), second, t2);
      && r2.Success?
      && r2.value.reports[id].equipmentInspection == Some(Encode(second, UpdatedAt(t2)))
      && r2.value.reports[id].visualInspection == s.reports[id].visualInspection
      && r2.value == UpdateEquipment(s, Some(id), second, t2).value
  {
  }

  // =============================================================================================
  // POST /edit-inspection/:inspectionId and GET /delete-inspection/:inspectionId

  /**
   * The edit is addressed by entry id alone: `target` is the report the database matches for
   * `{"visualInspection._id": inspectionId}`. An invalid entry id fails (the ObjectId constructor
   * throws); otherwise the first entry with that id in the target's ledger gets the five fields.
   */
  function EditInspection(s: Store, target: Id, entryId: Option<Id>, e: Edit): (r: Result<Store, Error>)
    ensures entryId.None? <==> r.Failure?
    ensures r.Success? && target in s.reports ==>
      && OnlyReportChanged(s, r.value, target)
      && r.value.reports[target] == s.reports[target].(visualInspection := EditEntry(s.reports[target].visualInspection, entryId.value, e))
    ensures r.Success? && target !in s.reports ==> r.value == s
    ensures Valid(s) && r.Success? ==> Valid(r.value)
  {
    if entryId.None? then Failure(InvalidEntryId)
    else if target in s.reports then Success(WithLedger(s, target, EditEntry(s.reports[target].visualInspection, entryId.value, e)))
    else Success(s)
  }

  /** Naming a report that does not hold the entry changes nothing, so only the holder of the entry can change. */
  lemma EditInspectionOnlyHolder(s: Store, target: Id, entryId: Id, e: Edit)
    requires target in s.reports
    requires forall i :: 0 <= i < |s.reports[target].visualInspection| ==>
      s.reports[target].visualInspection[i].id != Some(entryId)
    ensures EditInspection(s, target, Some(entryId), e) == Success(s)
  {
    EditEntryUnmatched(s.reports[target].visualInspection, entryId, e);
    assert s.reports[target].(visualInspection := s.reports[target].visualInspection) == s.reports[target];
    assert s.(reports := s.reports[target := s.reports[target]]) == s;
  }

  /**
   * Delete pulls every entry with the id from the named report; an invalid report id fails before
   * the entry id is looked at; an unknown report matches nothing and nothing changes.
   */
  function DeleteInspection(s: Store, reportId: Option<Id>, entryId: Option<Id>): (r: Result<Store, Error>)
    ensures reportId.None? ==> r == Failure(InvalidReportId)
    ensures reportId.Some? && entryId.None? ==> r == Failure(InvalidEntryId)
    ensures reportId.Some? && entryId.Some? && reportId.value !in s.reports ==> r == Success(s)
    ensures reportId.Some? && entryId.Some? && reportId.value in s.reports ==>
      && r.Success? && OnlyReportChanged(s, r.value, reportId.value)
      && r.value.reports[reportId.value] == s.reports[reportId.value].(visualInspection := DeleteEntry(s.reports[reportId.value].visualInspection, entryId.value))
    ensures Valid(s) && r.Success? ==> Valid(r.value)
  {
    if reportId.None? then Failure(InvalidReportId)
    else if entryId.None? then Failure(InvalidEntryId)
    else if reportId.value in s.reports then
      var id := reportId.value;
      Success(WithLedger(s, id, DeleteEntry(s.reports[id].visualInspection, entryId.value)))
    else Success(s)
  }
}
