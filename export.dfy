/**
 * The exports: the image bundles of /download-images and /download-after-images, whose watermark
 * counter runs across the whole ledger and counts only photos whose file exists, and the download
 * names of the bundles and of the two PDF reports.
 */
module Export {
  import opened Wrappers
  import opened Js
  import opened Seqs
  import opened Ledger
  import opened Reports

  /** Which collection an export reads: pre-reports or after-reports. */
  datatype Kind = Pre | After

  /** Every photo name of the ledger: entries in order, each entry's photos in order. */
  function AllImages(ledger: seq<Defect>): (r: seq<string>)
    ensures forall x :: x in r <==> InSome(ImagesOf(ledger), x)
    ensures forall k, x :: 0 <= k < |ledger| && x in ledger[k].images ==> x in r
  {
    ConcatMembers(ImagesOf(ledger));
    assert forall k, x :: 0 <= k < |ledger| && x in ledger[k].images ==> x in ImagesOf(ledger)[k];
    Concat(ImagesOf(ledger))
  }

  lemma AllImagesStep(ledger: seq<Defect>, e: nat)
    requires e < |ledger|
    ensures AllImages(ledger[..e + 1]) == AllImages(ledger[..e]) + ledger[e].images
  {
    var p := ledger[..e + 1];
    assert ImagesOf(p)[..e] == ImagesOf(ledger[..e]);
  }

  lemma {:induction false} AllImagesAppend(a: seq<Defect>, b: seq<Defect>)
    ensures AllImages(a + b) == AllImages(a) + AllImages(b)
  {
    assert ImagesOf(a + b) == ImagesOf(a) + ImagesOf(b);
    ConcatAppend(ImagesOf(a), ImagesOf(b));
  }

  /** One archive member: the photo, its watermarked copy, the member name, the number drawn on it and the font size. */
  datatype ZipEntry = ZipEntry(source: string, watermarked: string, name: string, number: nat, fontSize: nat)

  /** `watermarked-${image}`, the copy sharp writes next to the photo. */
  function WatermarkedName(image: string): (r: string)
    ensures |r| == 12 + |image| && r[..12] == "watermarked-" && r[12..] == image
  {
    "watermarked-" + image
  }

  function EntryPrefix(kind: Kind): string {
    if kind == Pre then "image-" else "after-image-"
  }

  /** `image-${imageIndex}.jpg`, or `after-image-${imageIndex}.jpg` for an after-report. */
  function EntryName(kind: Kind, index: nat): string {
    EntryPrefix(kind) + NumberToString(index) + ".jpg"
  }

  /** A member name is the prefix, the decimal digits of the counter, which read back as the counter, and ".jpg". */
  lemma EntryNameDigits(kind: Kind, index: nat)
    ensures var r := EntryName(kind, index);
      && |r| == |EntryPrefix(kind)| + |NumberToString(index)| + 4
      && r[..|EntryPrefix(kind)|] == EntryPrefix(kind) && r[|r| - 4..] == ".jpg"
      && var digits := r[|EntryPrefix(kind)|..|r| - 4];
         (forall i :: 0 <= i < |digits| ==> IsDigit(digits[i])) && ParseDecimal(digits) == index
  {
    var prefix, digits := EntryPrefix(kind), NumberToString(index);
    DecimalRoundTrip(index);
    var r := prefix + digits + ".jpg";
    assert r[|prefix|..|r| - 4] == digits;
  }

  /** Different counter values give different member names. */
  lemma EntryNameInjective(kind: Kind, m: nat, n: nat)
    requires EntryName(kind, m) == EntryName(kind, n)
    ensures m == n
  {
    EntryNameDigits(kind, m);
    EntryNameDigits(kind, n);
  }

  /** `Math.floor((metadata.height || 600) / 6)`: a missing or zero height counts as 600. */
  function FontSize(height: Option<nat>): (r: nat)
    ensures var h := if height.Some? && height.value > 0 then height.value else 600;
      6 * r <= h < 6 * r + 6
    ensures height.None? ==> r == 100
  {
    (if height.Some? && height.value > 0 then height.value else 600) / 6
  }

  /**
   * The archive the loop should produce: the photos whose file exists, in ledger order, the k-th of
   * them (from 0) drawn with the number k + 1 and stored as member k + 1.
   */
  function ZipPlan(kind: Kind, images: seq<string>, fileExists: string -> bool, heightOf: string -> Option<nat>)
    : (r: seq<ZipEntry>)
    ensures |r| == |Filter(images, fileExists)|
    ensures forall k :: 0 <= k < |r| ==>
      && r[k].source == Filter(images, fileExists)[k] && fileExists(r[k].source)
      && r[k].number == k + 1 && r[k].name == EntryName(kind, k + 1)
      && r[k].watermarked == WatermarkedName(r[k].source)
      && r[k].fontSize == FontSize(heightOf(r[k].source))
  {
    var present := Filter(images, fileExists);
    seq(|present|, k requires 0 <= k < |present| =>
      ZipEntry(present[k], WatermarkedName(present[k]), EntryName(kind, k + 1), k + 1, FontSize(heightOf(present[k]))))
  }

  /** One more photo adds a member numbered one past the archive exactly when its file exists. */
  lemma PlanStep(kind: Kind, images: seq<string>, image: string, fileExists: string -> bool, heightOf: string -> Option<nat>)
    ensures var before := ZipPlan(kind, images, fileExists, heightOf);
      ZipPlan(kind, images + [image], fileExists, heightOf) == before +
        (if fileExists(image)
         then [ZipEntry(image, WatermarkedName(image), EntryName(kind, |before| + 1), |before| + 1, FontSize(heightOf(image)))]
         else [])
  {
    var before := ZipPlan(kind, images, fileExists, heightOf);
    var after := ZipPlan(kind, images + [image], fileExists, heightOf);
    FilterAppend(images, [image], fileExists);
    FilterSingleton(image, fileExists);
    forall k | 0 <= k < |before| ensures after[k] == before[k] {
      assert Filter(images + [image], fileExists)[k] == Filter(images, fileExists)[k];
    }
    if fileExists(image) {
      assert Filter(images + [image], fileExists)[|before|] == image;
    }
  }

  /**
   * The loop of both image routes: `imageIndex` starts at 1, walks the entries in ledger order and
   * each entry's photos in order, and is incremented only after a photo whose file exists has been
   * watermarked and appended.
   */
  method AssembleArchive(kind: Kind, ledger: seq<Defect>, fileExists: string -> bool, heightOf: string -> Option<nat>)
    returns (archive: seq<ZipEntry>, imageIndex: nat)
    ensures archive == ZipPlan(kind, AllImages(ledger), fileExists, heightOf)
    ensures imageIndex == |archive| + 1
  {
    archive := [];
    imageIndex := 1;
    for e := 0 to |ledger|
      invariant archive == ZipPlan(kind, AllImages(ledger[..e]), fileExists, heightOf)
      invariant imageIndex == |archive| + 1
    {
      var images := ledger[e].images;
      ghost var walked := AllImages(ledger[..e]);
      assert walked + images[..0] == walked;
      for j := 0 to |images|
        invariant archive == ZipPlan(kind, walked + images[..j], fileExists, heightOf)
        invariant imageIndex == |archive| + 1
      {
        var image := images[j];
        PlanStep(kind, walked + images[..j], image, fileExists, heightOf);
        assert walked + images[..j + 1] == (walked + images[..j]) + [image] by {
          assert images[..j + 1] == images[..j] + [image];
        }
        if fileExists(image) {
          var metadataHeight := heightOf(image);
          var height := if metadataHeight.Some? && metadataHeight.value > 0 then metadataHeight.value else 600;
          var fontSize := height / 6;
          assert fontSize == FontSize(heightOf(image));
          archive := archive + [ZipEntry(image, WatermarkedName(image), EntryName(kind, imageIndex), imageIndex, fontSize)];
          imageIndex := imageIndex + 1;
        }
      }
      AllImagesStep(ledger, e);
      assert images[..|images|] == images;
    }
    assert ledger[..|ledger|] == ledger;
  }

  /** The member names are pairwise distinct: the counter never repeats a value. */
  lemma ArchiveNamesDistinct(kind: Kind, images: seq<string>, fileExists: string -> bool, heightOf: string -> Option<nat>)
    ensures var r := ZipPlan(kind, images, fileExists, heightOf);
      forall i, j :: 0 <= i < j < |r| ==> r[i].name != r[j].name
  {
    var r := ZipPlan(kind, images, fileExists, heightOf);
    forall i, j | 0 <= i < j < |r| ensures r[i].name != r[j].name {
      if r[i].name == r[j].name {
        EntryNameInjective(kind, i + 1, j + 1);
      }
    }
  }

  /**
   * The counter does not restart per entry: the members for a ledger `a + b` are those for `a`
   * followed by those for `b`, renumbered from one past the members of `a`.
   */
  lemma CounterRunsAcrossEntries(kind: Kind, a: seq<Defect>, b: seq<Defect>, fileExists: string -> bool,
                                 heightOf: string -> Option<nat>)
    ensures var pa, pb := ZipPlan(kind, AllImages(a), fileExists, heightOf), ZipPlan(kind, AllImages(b), fileExists, heightOf);
      var p := ZipPlan(kind, AllImages(a + b), fileExists, heightOf);
      && |p| == |pa| + |pb|
      && p[..|pa|] == pa
      && (forall k :: 0 <= k < |pb| ==>
            p[|pa| + k] == pb[k].(name := EntryName(kind, |pa| + k + 1), number := |pa| + k + 1))
  {
    AllImagesAppend(a, b);
    FilterAppend(AllImages(a), AllImages(b), fileExists);
    var pa := ZipPlan(kind, AllImages(a), fileExists, heightOf);
    var p := ZipPlan(kind, AllImages(a + b), fileExists, heightOf);
    forall k | 0 <= k < |pa| ensures p[k] == pa[k] {
    }
  }

  /** The first member names of both kinds. */
  lemma FirstEntryNames()
    ensures EntryName(Pre, 1) == "image-1.jpg" && EntryName(Pre, 2) == "image-2.jpg"
    ensures EntryName(Pre, 3) == "image-3.jpg" && EntryName(Pre, 4) == "image-4.jpg"
    ensures EntryName(After, 1) == "after-image-1.jpg" && EntryName(After, 2) == "after-image-2.jpg"
  {
    assert NumberToString(1) == "1" && NumberToString(2) == "2";
    assert NumberToString(3) == "3" && NumberToString(4) == "4";
  }

  lemma AllImagesOfTwo(d1: Defect, d2: Defect)
    ensures AllImages([d1, d2]) == d1.images + d2.images
  {
    assert [d1, d2] == [d1] + [d2];
    AllImagesAppend([d1], [d2]);
    assert ImagesOf([d1]) == [d1.images] && [d1.images][..0] == [];
    assert ImagesOf([d2]) == [d2.images] && [d2.images][..0] == [];
    assert AllImages([d1]) == d1.images by { assert Concat([d1.images]) == Concat<string>([]) + d1.images; }
    assert AllImages([d2]) == d2.images by { assert Concat([d2.images]) == Concat<string>([]) + d2.images; }
  }

  /** Two entries of two photos each, all present: members image-1.jpg .. image-4.jpg in ledger order. */
  lemma FourImagesNumberedInOrder(a: string, b: string, c: string, d: string, d1: Defect, d2: Defect,
                                  fileExists: string -> bool, heightOf: string -> Option<nat>)
    requires d1.images == [a, b] && d2.images == [c, d]
    requires fileExists(a) && fileExists(b) && fileExists(c) && fileExists(d)
    ensures var r := ZipPlan(Pre, AllImages([d1, d2]), fileExists, heightOf);
      && |r| == 4
      && [r[0].source, r[1].source, r[2].source, r[3].source] == [a, b, c, d]
      && [r[0].name, r[1].name, r[2].name, r[3].name] == ["image-1.jpg", "image-2.jpg", "image-3.jpg", "image-4.jpg"]
  {
    AllImagesOfTwo(d1, d2);
    FilterAll([a, b] + [c, d], fileExists);
    FirstEntryNames();
  }

  /** A missing file is skipped without using a number: with the second photo gone, the third becomes after-image-2.jpg. */
  lemma MissingFileSkipsNoNumber(a: string, b: string, c: string, d1: Defect, d2: Defect,
                                 fileExists: string -> bool, heightOf: string -> Option<nat>)
    requires d1.images == [a, b] && d2.images == [c]
    requires fileExists(a) && !fileExists(b) && fileExists(c)
    ensures var r := ZipPlan(After, AllImages([d1, d2]), fileExists, heightOf);
      && |r| == 2
      && r[0].source == a && r[0].name == "after-image-1.jpg"
      && r[1].source == c && r[1].name == "after-image-2.jpg" && r[1].number == 2
  {
    AllImagesOfTwo(d1, d2);
    assert [a, b] + [c] == [a] + [b] + [c];
    FilterAppend([a] + [b], [c], fileExists);
    FilterAppend([a], [b], fileExists);
    FilterSingleton(a, fileExists);
    FilterSingleton(b, fileExists);
    FilterSingleton(c, fileExists);
    assert Filter(AllImages([d1, d2]), fileExists) == [a, c];
    FirstEntryNames();
  }

  // =============================================================================================
  // The routes and the download names

  /** The collection an export reads; in a valid store it holds documents of its own kind only. */
  function Collection(s: Store, kind: Kind): (r: map<Id, Report>)
    ensures Valid(s) && kind == Pre ==> forall k :: k in r ==> r[k].originalReportId == None
    ensures Valid(s) && kind == After ==> forall k :: k in r ==> r[k].originalReportId == Some(k) && k in s.reports
  {
    if kind == Pre then s.reports else s.afterReports
  }

  /**
   * /download-images/:id and /download-after-images/:id: 400 for an invalid id; 404 when the report
   * is missing or its ledger is empty; otherwise the archive of the ledger's existing photos (which is
   * empty when no photo file exists).
   */
  function DownloadImages(s: Store, kind: Kind, reportId: Option<Id>, fileExists: string -> bool,
                          heightOf: string -> Option<nat>): (r: Result<seq<ZipEntry>, Error>)
    ensures reportId.None? ==> r == Failure(InvalidReportId)
    ensures reportId.Some? ==>
      (r.Success? <==> reportId.value in Collection(s, kind) && Collection(s, kind)[reportId.value].visualInspection != [])
    ensures r.Failure? && reportId.Some? ==> r.error == ReportNotFound
    ensures r.Success? ==> r.value == ZipPlan(kind, AllImages(Collection(s, kind)[reportId.value].visualInspection), fileExists, heightOf)
    ensures r.Success? ==> |r.value| <= |AllImages(Collection(s, kind)[reportId.value].visualInspection)|
  {
    if reportId.None? then Failure(InvalidReportId)
    else
      var reports := Collection(s, kind);
      if reportId.value !in reports || reports[reportId.value].visualInspection == [] then Failure(ReportNotFound)
      else Success(ZipPlan(kind, AllImages(reports[reportId.value].visualInspection), fileExists, heightOf))
  }

  /** `report-${reportId}-images.zip`, or `after-report-${reportId}-images.zip`. */
  function BundleName(kind: Kind, reportId: string): (r: string)
    ensures |r| == (if kind == Pre then 7 else 13) + |reportId| + 11
    ensures kind == Pre ==> r[..7] == "report-" && r[7..7 + |reportId|] == reportId
    ensures kind == After ==> r[..13] == "after-report-" && r[13..13 + |reportId|] == reportId
    ensures r[|r| - 11..] == "-images.zip"
  {
    (if kind == Pre then "report-" else "after-report-") + reportId + "-images.zip"
  }

  /** The characters the PDF name keeps: `[a-zA-Z0-9가-힣]` (the precomposed Hangul syllables). */
  predicate DownloadNameChar(c: char) {
    ('a' <= c <= 'z') || ('A' <= c <= 'Z') || ('0' <= c <= '9') || ('가' <= c <= '힣')
  }

  /** "_사전점검보고서.pdf" (pre-inspection report) or "_후점검보고서.pdf" (post-inspection report). */
  function PdfSuffix(kind: Kind): string {
    if kind == Pre then "_사전점검보고서.pdf" else "_후점검보고서.pdf"
  }

  /**
   * The PDF's download name: the customer name with every character outside the kept class turned
   * into "_", then the suffix. A report without a customer name has no download name (the
   * `replace` call throws).
   */
  function PdfDownloadName(kind: Kind, customerName: Field): (r: Option<string>)
    ensures r.None? <==> customerName.None?
    ensures r.Some? ==> var name := customerName.value;
      && |r.value| == |name| + |PdfSuffix(kind)|
      && r.value[|name|..] == PdfSuffix(kind)
      && (forall i :: 0 <= i < |name| ==> r.value[i] == if DownloadNameChar(name[i]) then name[i] else '_')
  {
    match customerName
    case None => None
    case Some(name) => Some(ReplaceOutside(name, DownloadNameChar) + PdfSuffix(kind))
  }

  /** The sanitised part of a download name is a fixed point: sanitising it again changes nothing. */
  lemma PdfNameStable(kind: Kind, name: string)
    ensures var r := PdfDownloadName(kind, Some(name)).value;
      ReplaceOutside(r[..|name|], DownloadNameChar) == r[..|name|]
  {
    var r := PdfDownloadName(kind, Some(name)).value;
    assert r[..|name|] == ReplaceOutside(name, DownloadNameChar);
    ReplaceOutsideIdempotent(name, DownloadNameChar);
  }

  /** /download-pdf/:id and /download-after-pdf/:id: 400, 404, or the download name of the report found. */
  function DownloadPdfName(s: Store, kind: Kind, reportId: Option<Id>): (r: Result<Option<string>, Error>)
    ensures reportId.None? ==> r == Failure(InvalidReportId)
    ensures reportId.Some? ==> (r.Failure? <==> reportId.value !in Collection(s, kind))
    ensures r.Failure? && reportId.Some? ==> r.error == ReportNotFound
    ensures r.Success? ==> r.value == PdfDownloadName(kind, Collection(s, kind)[reportId.value].customer.customerName)
  {
    if reportId.None? then Failure(InvalidReportId)
    else if reportId.value !in Collection(s, kind) then Failure(ReportNotFound)
    else Success(PdfDownloadName(kind, Collection(s, kind)[reportId.value].customer.customerName))
  }
}
