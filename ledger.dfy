/**
 * The defect ledger of a report (`visualInspection`): the ordered list of defect entries, how
 * the bulk intake groups uploaded photos two per entry, how the update forms' new-defect rows are
 * parsed, and how entries are removed by id, edited and deleted.
 */
module Ledger {
  import opened Wrappers
  import opened Js
  import opened Seqs

  /** The hex form of a MongoDB ObjectId. */
  type Id = string

  /** A `Date`, in milliseconds since the epoch. */
  type Time = int

  /** One defect entry: `_id` (absent in entries stored without one), the four required fields, the note, 0-2 photos. */
  datatype Defect = Defect(
    id: Option<Id>,
    location: string,
    sector: string,
    specific: string,
    content: string,
    extra: string,
    images: seq<string>,
    createdAt: Time)

  function ImagesOf(ledger: seq<Defect>): seq<seq<string>> {
    seq(|ledger|, k requires 0 <= k < |ledger| => ledger[k].images)
  }

  // =============================================================================================
  // Bulk intake: POST /report groups the uploaded photos two per entry

  /** The placeholder ("not entered") for a field the intake form left empty. */
  const Unentered := "미입력"

  /** The five repeated keys of the intake form. */
  datatype IntakeForm = IntakeForm(
    location: FormValue, sector: FormValue, specific: FormValue, content: FormValue, extra: FormValue)

  function Min(a: int, b: int): int {
    if a <= b then a else b
  }

  /** The upload cut into consecutive groups of two photos; an odd last photo forms a group alone. */
  function Pairs(files: seq<string>): (r: seq<seq<string>>)
    ensures |r| == (|files| + 1) / 2
    decreases |files|
  {
    if |files| <= 2 then (if files == [] then [] else [files]) else [files[..2]] + Pairs(files[2..])
  }

  /** Group `k` holds `files[2k]` and, when there is one, `files[2k + 1]`. */
  lemma {:induction false} PairsAt(files: seq<string>, k: nat)
    requires k < |Pairs(files)|
    ensures Pairs(files)[k] == files[2 * k .. Min(2 * k + 2, |files|)]
    decreases |files|
  {
    if |files| > 2 && k > 0 {
      PairsAt(files[2..], k - 1);
    }
  }

  /** Reading the groups one after the other gives the upload order back. */
  lemma {:induction false} PairsConcat(files: seq<string>)
    ensures Concat(Pairs(files)) == files
    decreases |files|
  {
    if |files| > 2 {
      PairsConcat(files[2..]);
      ConcatAppend([files[..2]], Pairs(files[2..]));
      assert Concat([files[..2]]) == Concat([files[..2]][..0]) + files[..2];
      assert files == files[..2] + files[2..];
    } else if files != [] {
      assert Concat([files]) == Concat([files][..0]) + files;
    }
  }

  lemma PairsEvery(files: seq<string>)
    ensures forall k :: 0 <= k < |Pairs(files)| ==> Pairs(files)[k] == files[2 * k .. Min(2 * k + 2, |files|)]
  {
    forall k | 0 <= k < |Pairs(files)| ensures Pairs(files)[k] == files[2 * k .. Min(2 * k + 2, |files|)] {
      PairsAt(files, k);
    }
  }

  /**
   * Entry `k` of the intake: the form's row `k` (a falsy field becomes the placeholder) with group
   * `k`. No text field of an intake entry is ever empty.
   */
  function IntakeEntry(form: IntakeForm, k: nat, images: seq<string>, newId: nat -> Id, now: Time): (r: Defect)
    ensures r.id == Some(newId(k)) && r.images == images && r.createdAt == now
    ensures r.location != "" && r.sector != "" && r.specific != "" && r.content != "" && r.extra != ""
    ensures r.location == Unentered || Some(r.location) == At(AsList(form.location), k)
    ensures r.sector == Unentered || Some(r.sector) == At(AsList(form.sector), k)
    ensures r.specific == Unentered || Some(r.specific) == At(AsList(form.specific), k)
    ensures r.content == Unentered || Some(r.content) == At(AsList(form.content), k)
    ensures r.extra == Unentered || Some(r.extra) == At(AsList(form.extra), k)
  {
    Defect(
      Some(newId(k)),
      OrDefault(At(AsList(form.location), k), Unentered),
      OrDefault(At(AsList(form.sector), k), Unentered),
      OrDefault(At(AsList(form.specific), k), Unentered),
      OrDefault(At(AsList(form.content), k), Unentered),
      OrDefault(At(AsList(form.extra), k), Unentered),
      images,
      now)
  }

  /** The entries the intake appends: one per group of photos, entry `k` holding photos 2k and 2k+1. */
  function IntakeEntries(form: IntakeForm, files: seq<string>, newId: nat -> Id, now: Time): (r: seq<Defect>)
    ensures |r| == (|files| + 1) / 2
    ensures forall k :: 0 <= k < |r| ==>
      r[k] == IntakeEntry(form, k, files[2 * k .. Min(2 * k + 2, |files|)], newId, now)
  {
    PairsEvery(files);
    var groups := Pairs(files);
    seq(|groups|, k requires 0 <= k < |groups| => IntakeEntry(form, k, groups[k], newId, now))
  }

  /**
   * The `for (i = 0; i < n; i += 2)` loop of POST /report: one entry per two photos, the data row
   * index advancing by one per entry.
   */
  method BuildIntake(form: IntakeForm, files: seq<string>, newId: nat -> Id, now: Time)
    returns (visualInspectionData: seq<Defect>)
    ensures visualInspectionData == IntakeEntries(form, files, newId, now)
  {
    var locations := AsList(form.location);
    var sectors := AsList(form.sector);
    var specifics := AsList(form.specific);
    var contents := AsList(form.content);
    var extras := AsList(form.extra);
    visualInspectionData := [];
    var dataIndex := 0;
    var i := 0;
    while i < |files|
      invariant i == 2 * dataIndex && dataIndex <= |Pairs(files)|
      invariant |visualInspectionData| == dataIndex
      invariant forall k :: 0 <= k < dataIndex ==>
        visualInspectionData[k] == IntakeEntry(form, k, Pairs(files)[k], newId, now)
    {
      var images := [files[i]];
      if i + 1 < |files| {
        images := images + [files[i + 1]];
      }
      PairsAt(files, dataIndex);
      assert images == Pairs(files)[dataIndex];
      var entry := Defect(
        Some(newId(dataIndex)),
        OrDefault(At(locations, dataIndex), Unentered),
        OrDefault(At(sectors, dataIndex), Unentered),
        OrDefault(At(specifics, dataIndex), Unentered),
        OrDefault(At(contents, dataIndex), Unentered),
        OrDefault(At(extras, dataIndex), Unentered),
        images,
        now);
      visualInspectionData := visualInspectionData + [entry];
      dataIndex := dataIndex + 1;
      i := i + 2;
    }
  }

  /**
   * n photos give ceil(n/2) entries; entry k holds photos 2k and 2k+1 (when present), so reading the
   * entries' photos in order gives the upload order; each text field is the row's value or, when that
   * is falsy or missing, the placeholder.
   */
  lemma IntakeShape(form: IntakeForm, files: seq<string>, newId: nat -> Id, now: Time)
    ensures var r := IntakeEntries(form, files, newId, now);
      && |r| == (|files| + 1) / 2
      && Concat(ImagesOf(r)) == files
      && (forall k :: 0 <= k < |r| ==> r[k].images == files[2 * k .. Min(2 * k + 2, |files|)])
      && (forall k :: 0 <= k < |r| ==> 1 <= |r[k].images| <= 2 && r[k].id == Some(newId(k)))
      && (forall k :: 0 <= k < |r| ==>
            && r[k].location == (if Truthy(At(AsList(form.location), k)) then At(AsList(form.location), k).value else Unentered)
            && r[k].sector == (if Truthy(At(AsList(form.sector), k)) then At(AsList(form.sector), k).value else Unentered)
            && r[k].specific == (if Truthy(At(AsList(form.specific), k)) then At(AsList(form.specific), k).value else Unentered)
            && r[k].content == (if Truthy(At(AsList(form.content), k)) then At(AsList(form.content), k).value else Unentered)
            && r[k].extra == (if Truthy(At(AsList(form.extra), k)) then At(AsList(form.extra), k).value else Unentered))
  {
    var r := IntakeEntries(form, files, newId, now);
    PairsEvery(files);
    assert ImagesOf(r) == Pairs(files);
    PairsConcat(files);
  }

  /** Data rows beyond the number of photo groups are ignored. */
  lemma IntakeIgnoresExtraRows(a: IntakeForm, b: IntakeForm, files: seq<string>, newId: nat -> Id, now: Time)
    requires forall k :: 0 <= k < (|files| + 1) / 2 ==>
      && At(AsList(a.location), k) == At(AsList(b.location), k)
      && At(AsList(a.sector), k) == At(AsList(b.sector), k)
      && At(AsList(a.specific), k) == At(AsList(b.specific), k)
      && At(AsList(a.content), k) == At(AsList(b.content), k)
      && At(AsList(a.extra), k) == At(AsList(b.extra), k)
    ensures IntakeEntries(a, files, newId, now) == IntakeEntries(b, files, newId, now)
  {
  }

  // =============================================================================================
  // New-defect rows of /update-report, /save-new-report and /update-after-report

  /** The five `newDefects[][...]` keys of an update form. */
  datatype DefectForm = DefectForm(
    location: FormValue, sector: FormValue, specific: FormValue, content: FormValue, extra: FormValue)

  /** One row of the form, read by index from the five coerced lists. */
  datatype Row = Row(location: Field, sector: Field, specific: Field, content: Field, extra: Field)

  /** The rows `locations.forEach` visits: one per element of the location list. */
  function Rows(form: DefectForm): (r: seq<Row>)
    ensures |r| == |AsList(form.location)|
    ensures forall i :: 0 <= i < |r| ==>
      r[i] == Row(AsList(form.location)[i], At(AsList(form.sector), i), At(AsList(form.specific), i),
                  At(AsList(form.content), i), At(AsList(form.extra), i))
  {
    var locations := AsList(form.location);
    seq(|locations|, i requires 0 <= i < |locations| =>
      Row(locations[i], At(AsList(form.sector), i), At(AsList(form.specific), i),
          At(AsList(form.content), i), At(AsList(form.extra), i)))
  }

  /** A row is kept iff location, sector, specific and content are all truthy; those four are then defined. */
  predicate Complete(row: Row)
    ensures Complete(row) ==> row.location.Some? && row.sector.Some? && row.specific.Some? && row.content.Some?
  {
    Truthy(row.location) && Truthy(row.sector) && Truthy(row.specific) && Truthy(row.content)
  }

  /** `images.slice(2 * index, 2 * index + 2)`: the photo slot of row `index`, clipped to the upload. */
  function Slot(images: seq<string>, index: nat): (r: seq<string>)
    ensures |r| <= 2
    ensures 2 * index + 2 <= |images| ==> r == images[2 * index .. 2 * index + 2]
    ensures 2 * index >= |images| ==> r == []
    ensures 2 * index < |images| ==> 1 <= |r| && r == images[2 * index .. Min(2 * index + 2, |images|)]
  {
    images[Min(2 * index, |images|) .. Min(2 * index + 2, |images|)]
  }

  /** The entry a complete row at `index` becomes. */
  function NewDefect(row: Row, index: nat, images: seq<string>, newId: nat -> Id, now: Time): Defect
    requires Complete(row)
  {
    Defect(
      Some(newId(index)),
      Trim(row.location.value),
      Trim(row.sector.value),
      Trim(row.specific.value),
      Trim(row.content.value),
      if Truthy(row.extra) then Trim(row.extra.value) else "",
      Slot(images, index),
      now)
  }

  /** The new entries parsed from the first `|rows|` rows, in row order: at most one per row. */
  function ParseNewDefects(rows: seq<Row>, images: seq<string>, newId: nat -> Id, now: Time): (r: seq<Defect>)
    ensures |r| <= |rows|
    ensures forall d :: d in r ==> d.createdAt == now && |d.images| <= 2 && d.id.Some?
  {
    if rows == [] then []
    else
      var i := |rows| - 1;
      ParseNewDefects(rows[..i], images, newId, now)
        + (if Complete(rows[i]) then [NewDefect(rows[i], i, images, newId, now)] else [])
  }

  /** The indices of the complete rows, ascending. */
  function KeptRows(rows: seq<Row>): seq<nat> {
    if rows == [] then []
    else
      var i := |rows| - 1;
      KeptRows(rows[..i]) + (if Complete(rows[i]) then [i] else [])
  }

  /**
   * The `locations.forEach` of the update routes: incomplete rows are skipped, each kept row becomes
   * an entry with trimmed fields and the photo slot of its ORIGINAL row index.
   */
  method CollectNewDefects(form: DefectForm, newDefectsImages: seq<string>, newId: nat -> Id, now: Time)
    returns (newDefects: seq<Defect>)
    ensures newDefects == ParseNewDefects(Rows(form), newDefectsImages, newId, now)
  {
    var locations := AsList(form.location);
    var sectors := AsList(form.sector);
    var specifics := AsList(form.specific);
    var contents := AsList(form.content);
    var extras := AsList(form.extra);
    ghost var rows := Rows(form);
    newDefects := [];
    for index := 0 to |locations|
      invariant newDefects == ParseNewDefects(rows[..index], newDefectsImages, newId, now)
    {
      ParseStep(rows, index, newDefectsImages, newId, now);
      var row := Row(locations[index], At(sectors, index), At(specifics, index), At(contents, index), At(extras, index));
      assert row == rows[index];
      if !Truthy(row.location) || !Truthy(row.sector) || !Truthy(row.specific) || !Truthy(row.content) {
        continue;
      }
      var defectEntry := NewDefect(row, index, newDefectsImages, newId, now);
      newDefects := newDefects + [defectEntry];
    }
    assert rows[..|locations|] == rows;
  }

  lemma ParseStep(rows: seq<Row>, index: nat, images: seq<string>, newId: nat -> Id, now: Time)
    requires index < |rows|
    ensures ParseNewDefects(rows[..index + 1], images, newId, now)
         == ParseNewDefects(rows[..index], images, newId, now)
            + (if Complete(rows[index]) then [NewDefect(rows[index], index, images, newId, now)] else [])
  {
    assert rows[..index + 1][..index] == rows[..index];
    assert rows[..index + 1][index] == rows[index];
  }

  /** K lists the complete rows' indices, each once, in ascending order. */
  lemma {:induction false} KeptRowsSpec(rows: seq<Row>)
    ensures var K := KeptRows(rows);
      && (forall j :: 0 <= j < |K| ==> K[j] < |rows| && Complete(rows[K[j]]))
      && (forall j1, j2 :: 0 <= j1 < j2 < |K| ==> K[j1] < K[j2])
      && (forall i :: 0 <= i < |rows| ==> (Complete(rows[i]) <==> i in K))
  {
    if rows != [] {
      var i := |rows| - 1;
      var prefix := rows[..i];
      KeptRowsSpec(prefix);
      var K0 := KeptRows(prefix);
      var K := KeptRows(rows);
      assert K == K0 + (if Complete(rows[i]) then [i] else []);
      forall j | 0 <= j < |K0| ensures K0[j] < i && Complete(rows[K0[j]]) {
        assert prefix[K0[j]] == rows[K0[j]];
      }
      forall k | 0 <= k < i ensures Complete(rows[k]) <==> k in K {
        assert prefix[k] == rows[k];
      }
      assert i !in K0;
    }
  }

  /** The parsed entries are exactly the complete rows, in row order: entry j comes from row K[j]. */
  lemma {:induction false} ParseCharacterisation(rows: seq<Row>, images: seq<string>, newId: nat -> Id, now: Time)
    ensures var r, K := ParseNewDefects(rows, images, newId, now), KeptRows(rows);
      && |r| == |K|
      && (forall j :: 0 <= j < |K| ==>
            K[j] < |rows| && Complete(rows[K[j]]) && r[j] == NewDefect(rows[K[j]], K[j], images, newId, now))
      && (forall j1, j2 :: 0 <= j1 < j2 < |K| ==> K[j1] < K[j2])
      && (forall i :: 0 <= i < |rows| ==> (Complete(rows[i]) <==> i in K))
  {
    KeptRowsSpec(rows);
    if rows != [] {
      var i := |rows| - 1;
      var prefix := rows[..i];
      ParseCharacterisation(prefix, images, newId, now);
      KeptRowsSpec(prefix);
      var K0 := KeptRows(prefix);
      var r0 := ParseNewDefects(prefix, images, newId, now);
      var r := ParseNewDefects(rows, images, newId, now);
      var K := KeptRows(rows);
      assert r == r0 + (if Complete(rows[i]) then [NewDefect(rows[i], i, images, newId, now)] else []);
      assert K == K0 + (if Complete(rows[i]) then [i] else []);
      forall j | 0 <= j < |K| ensures r[j] == NewDefect(rows[K[j]], K[j], images, newId, now) {
        if j < |K0| {
          assert prefix[K0[j]] == rows[K0[j]];
          assert r[j] == r0[j] && K[j] == K0[j];
        }
      }
    }
  }

  /**
   * What a parsed entry holds: the row's fresh id and the request time; the four fields and a truthy
   * note are the trims of the row's values (so none starts or ends with white space); a falsy note
   * becomes ""; the photos are the slot of the row's own index: two, one, or none when the upload is
   * too short.
   */
  lemma NewDefectShape(row: Row, index: nat, images: seq<string>, newId: nat -> Id, now: Time)
    requires Complete(row)
    ensures var d := NewDefect(row, index, images, newId, now);
      && d.id == Some(newId(index)) && d.createdAt == now
      && IsTrimOf(row.location.value, d.location) && IsTrimOf(row.sector.value, d.sector)
      && IsTrimOf(row.specific.value, d.specific) && IsTrimOf(row.content.value, d.content)
      && (Truthy(row.extra) ==> IsTrimOf(row.extra.value, d.extra))
      && (!Truthy(row.extra) ==> d.extra == "")
      && |d.images| <= 2
      && (2 * index < |images| ==> d.images == images[2 * index .. Min(2 * index + 2, |images|)])
      && (2 * index >= |images| ==> d.images == [])
  {
  }

  /** A skipped row still consumes its photo slot: after an incomplete first row, the second row's entry gets photos 2 and 3. */
  lemma SkippedRowConsumesSlot(rows: seq<Row>, images: seq<string>, newId: nat -> Id, now: Time)
    requires |rows| >= 2 && !Complete(rows[0]) && Complete(rows[1]) && |images| >= 4
    ensures var r := ParseNewDefects(rows, images, newId, now);
      |r| >= 1 && r[0].images == images[2..4] && r[0].id == Some(newId(1))
  {
    ParseCharacterisation(rows, images, newId, now);
    var K := KeptRows(rows);
    assert 1 in K;
    assert K[0] == 1 by {
      assert 0 !in K;
      assert forall j :: 0 <= j < |K| ==> K[0] <= K[j];
    }
  }

  // =============================================================================================
  // Removal by id, then append

  /** An entry survives the in-memory filter iff it has an `_id` and that id is not being removed. */
  predicate Survives(d: Defect, removeIds: seq<Id>) {
    d.id.Some? && d.id.value !in removeIds
  }

  /** `existingDefects.filter(defect => defect._id && !removeIds.some(id => id.equals(defect._id)))` */
  function Survivors(ledger: seq<Defect>, removeIds: seq<Id>): (r: seq<Defect>)
    ensures |r| <= |ledger|
    ensures forall d :: d in r <==> d in ledger && d.id.Some? && d.id.value !in removeIds
  {
    assert forall d :: SurvivesIn(removeIds)(d) <==> d.id.Some? && d.id.value !in removeIds;
    Filter(ledger, SurvivesIn(removeIds))
  }

  function SurvivesIn(removeIds: seq<Id>): Defect -> bool {
    (d: Defect) => Survives(d, removeIds)
  }

  function StaysAfterPull(ids: seq<Id>): Defect -> bool {
    (d: Defect) => !(d.id.Some? && d.id.value in ids)
  }

  /** `if (req.body.removeExistingDefects)`: without a removal list the ledger is kept as it is. */
  function Remaining(ledger: seq<Defect>, removal: Option<seq<Id>>): (r: seq<Defect>)
    ensures forall d :: d in r ==> d in ledger
    ensures removal.None? ==> r == ledger
    ensures removal.Some? ==> forall d :: d in r <==> d in ledger && d.id.Some? && d.id.value !in removal.value
  {
    match removal
    case None => ledger
    case Some(ids) => Survivors(ledger, ids)
  }

  /** MongoDB's `$pull: { visualInspection: { _id: { $in: ids } } }`: entries without `_id` stay. */
  function Pull(ledger: seq<Defect>, ids: seq<Id>): (r: seq<Defect>)
    ensures |r| <= |ledger|
    ensures forall d :: d in r <==> d in ledger && (d.id.None? || d.id.value !in ids)
  {
    assert forall d :: StaysAfterPull(ids)(d) <==> d.id.None? || d.id.value !in ids;
    Filter(ledger, StaysAfterPull(ids))
  }

  /**
   * Filtering the survivors again changes nothing, and filtering the database's `$pull` result
   * gives the same survivors.
   */
  lemma SurvivorsSpec(ledger: seq<Defect>, removeIds: seq<Id>)
    ensures Survivors(Survivors(ledger, removeIds), removeIds) == Survivors(ledger, removeIds)
    ensures Survivors(Pull(ledger, removeIds), removeIds) == Survivors(ledger, removeIds)
  {
    var p := SurvivesIn(removeIds);
    FilterFilter(ledger, p, p);
    FilterFilter(ledger, StaysAfterPull(removeIds), p);
  }

  lemma SurvivorsAppend(a: seq<Defect>, b: seq<Defect>, removeIds: seq<Id>)
    ensures Survivors(a + b, removeIds) == Survivors(a, removeIds) + Survivors(b, removeIds)
  {
    FilterAppend(a, b, SurvivesIn(removeIds));
  }

  /** `$pull` keeps the order: it works entry by entry, keeping or dropping each one. */
  lemma PullAppend(a: seq<Defect>, b: seq<Defect>, ids: seq<Id>)
    ensures Pull(a + b, ids) == Pull(a, ids) + Pull(b, ids)
  {
    FilterAppend(a, b, StaysAfterPull(ids));
  }

  /** `$pull` on one entry keeps it exactly when it has no `_id` or one outside the list. */
  lemma PullOne(d: Defect, ids: seq<Id>)
    ensures Pull([d], ids) == if d.id.Some? && d.id.value in ids then [] else [d]
  {
    FilterSingleton(d, StaysAfterPull(ids));
  }

  /** When every entry has an `_id`, the in-memory filter and `$pull` agree. */
  lemma SurvivorsIsPull(ledger: seq<Defect>, removeIds: seq<Id>)
    requires forall d :: d in ledger ==> d.id.Some?
    ensures Survivors(ledger, removeIds) == Pull(ledger, removeIds)
  {
    if ledger != [] {
      assert forall d :: d in ledger[1..] ==> d in ledger;
      SurvivorsIsPull(ledger[1..], removeIds);
    }
  }

  /** No two entries that carry an `_id` share it. */
  ghost predicate IdsDistinct(ledger: seq<Defect>) {
    forall i, j :: 0 <= i < j < |ledger| && ledger[i].id.Some? ==> ledger[i].id != ledger[j].id
  }

  lemma {:induction false} FilterKeepsIdsDistinct(ledger: seq<Defect>, p: Defect -> bool)
    requires IdsDistinct(ledger)
    ensures IdsDistinct(Filter(ledger, p))
  {
    if ledger != [] {
      var rest := ledger[1..];
      assert IdsDistinct(rest) by {
        forall i, j | 0 <= i < j < |rest| && rest[i].id.Some? ensures rest[i].id != rest[j].id {
          assert rest[i] == ledger[i + 1] && rest[j] == ledger[j + 1];
        }
      }
      FilterKeepsIdsDistinct(rest, p);
      var fr := Filter(rest, p);
      if p(ledger[0]) {
        forall d | d in fr && ledger[0].id.Some? ensures d.id != ledger[0].id {
          var k :| 0 <= k < |rest| && rest[k] == d;
          assert ledger[k + 1] == d;
        }
        var r := [ledger[0]] + fr;
        forall i, j | 0 <= i < j < |r| && r[i].id.Some? ensures r[i].id != r[j].id {
          if i == 0 {
            assert r[j] in fr;
          } else {
            assert r[i] == fr[i - 1] && r[j] == fr[j - 1];
          }
        }
      }
    }
  }

  /** New entries carry the ids of their rows, so an injective supply gives them distinct ids. */
  lemma ParsedIdsDistinct(rows: seq<Row>, images: seq<string>, newId: nat -> Id, now: Time)
    requires forall i, j :: i != j ==> newId(i) != newId(j)
    ensures IdsDistinct(ParseNewDefects(rows, images, newId, now))
    ensures forall d :: d in ParseNewDefects(rows, images, newId, now) ==> exists i: nat :: d.id == Some(newId(i))
  {
    var b := ParseNewDefects(rows, images, newId, now);
    ParseCharacterisation(rows, images, newId, now);
    var K := KeptRows(rows);
    forall j | 0 <= j < |b| ensures b[j].id == Some(newId(K[j])) {
      assert b[j] == NewDefect(rows[K[j]], K[j], images, newId, now);
    }
    forall i, j | 0 <= i < j < |b| && b[i].id.Some? ensures b[i].id != b[j].id {
      assert K[i] < K[j];
    }
  }

  lemma AppendIdsDistinct(a: seq<Defect>, b: seq<Defect>)
    requires IdsDistinct(a) && IdsDistinct(b)
    requires forall d, e :: d in a && e in b && d.id.Some? ==> d.id != e.id
    ensures IdsDistinct(a + b)
  {
    var m := a + b;
    forall i, j | 0 <= i < j < |m| && m[i].id.Some? ensures m[i].id != m[j].id {
      if j < |a| {
        assert m[i] == a[i] && m[j] == a[j];
      } else if i < |a| {
        assert m[i] in a && m[j] in b;
      } else {
        assert m[i] == b[i - |a|] && m[j] == b[j - |a|];
      }
    }
  }

  /**
   * Merging keeps ids unique (an id is never reused): when the stored ledger's ids are distinct and
   * the id supply is injective and fresh, survivors ++ new entries have distinct ids.
   */
  lemma MergeKeepsIdsDistinct(existing: seq<Defect>, removal: Option<seq<Id>>, rows: seq<Row>,
                              images: seq<string>, newId: nat -> Id, now: Time)
    requires IdsDistinct(existing)
    requires forall i, j :: i != j ==> newId(i) != newId(j)
    requires forall i: nat, d :: d in existing ==> d.id != Some(newId(i))
    ensures IdsDistinct(Remaining(existing, removal) + ParseNewDefects(rows, images, newId, now))
  {
    var a := Remaining(existing, removal);
    if removal.Some? {
      FilterKeepsIdsDistinct(existing, SurvivesIn(removal.value));
      SurvivorsSpec(existing, removal.value);
    }
    var b := ParseNewDefects(rows, images, newId, now);
    ParsedIdsDistinct(rows, images, newId, now);
    forall d, e | d in a && e in b && d.id.Some? ensures d.id != e.id {
      assert d in existing;
      var i: nat :| e.id == Some(newId(i));
    }
    AppendIdsDistinct(a, b);
  }

  // =============================================================================================
  // Single-entry edit and delete

  /** The five fields the edit form submits. */
  datatype Edit = Edit(location: string, sector: string, specific: string, content: string, extra: string)

  function Apply(d: Defect, e: Edit): Defect {
    d.(location := e.location, sector := e.sector, specific := e.specific, content := e.content, extra := e.extra)
  }

  /**
   * `$set` of `visualInspection.$.<field>`: the positional operator rewrites the FIRST entry whose
   * `_id` matches; `_id`, photos and creation time of every entry stay as they were.
   */
  function EditEntry(ledger: seq<Defect>, entryId: Id, e: Edit): (r: seq<Defect>)
    ensures |r| == |ledger|
    ensures forall i :: 0 <= i < |r| ==>
      r[i].id == ledger[i].id && r[i].images == ledger[i].images && r[i].createdAt == ledger[i].createdAt
  {
    if ledger == [] then []
    else if ledger[0].id == Some(entryId) then [Apply(ledger[0], e)] + ledger[1..]
    else [ledger[0]] + EditEntry(ledger[1..], entryId, e)
  }

  /** The first entry with the id gets exactly the five submitted fields; every other entry is untouched. */
  lemma {:induction false} EditEntryFirstMatch(ledger: seq<Defect>, entryId: Id, e: Edit, k: nat)
    requires k < |ledger| && ledger[k].id == Some(entryId)
    requires forall j :: 0 <= j < k ==> ledger[j].id != Some(entryId)
    ensures forall i :: 0 <= i < |ledger| ==>
      EditEntry(ledger, entryId, e)[i] == if i == k then Apply(ledger[i], e) else ledger[i]
  {
    if k > 0 {
      EditEntryFirstMatch(ledger[1..], entryId, e, k - 1);
    }
  }

  /** An id no entry carries changes nothing. */
  lemma {:induction false} EditEntryUnmatched(ledger: seq<Defect>, entryId: Id, e: Edit)
    requires forall i :: 0 <= i < |ledger| ==> ledger[i].id != Some(entryId)
    ensures EditEntry(ledger, entryId, e) == ledger
  {
    if ledger != [] {
      EditEntryUnmatched(ledger[1..], entryId, e);
    }
  }

  /** `$pull: { visualInspection: { _id: entryId } }`: every entry with that id goes, the rest keep their order. */
  function DeleteEntry(ledger: seq<Defect>, entryId: Id): (r: seq<Defect>)
    ensures |r| <= |ledger|
    ensures forall d :: d in r <==> d in ledger && d.id != Some(entryId)
    ensures entryId !in (set d | d in ledger && d.id.Some? :: d.id.value) ==> r == ledger
  {
    var p := StaysAfterPull([entryId]);
    assert forall d :: p(d) <==> d.id != Some(entryId);
    if entryId !in (set d | d in ledger && d.id.Some? :: d.id.value) then
      FilterAll(ledger, p);
      Pull(ledger, [entryId])
    else
      Pull(ledger, [entryId])
  }

  /** Deleting keeps the order of the rest: a ledger split in two is deleted from part by part. */
  lemma DeleteEntryAppend(a: seq<Defect>, b: seq<Defect>, entryId: Id)
    ensures DeleteEntry(a + b, entryId) == DeleteEntry(a, entryId) + DeleteEntry(b, entryId)
  {
    PullAppend(a, b, [entryId]);
  }

  /** Deleting from one entry drops it exactly when it carries the id, so no entry is duplicated. */
  lemma DeleteEntryOne(d: Defect, entryId: Id)
    ensures DeleteEntry([d], entryId) == if d.id == Some(entryId) then [] else [d]
  {
    PullOne(d, [entryId]);
  }
}
