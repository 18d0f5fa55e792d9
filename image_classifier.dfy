/** The upload-and-classify workflow (components/ImageClassifier.tsx).

    An ordered list of uploaded images goes through three transitions: files
    are admitted as pending records, a deferred task completes the record
    with a given id, and a record is removed on request, releasing its
    preview. The timer, the random draws, the clock, the id generator and
    the browser's object-URL calls are all parameters here; revoked and
    created previews and scheduled tasks are recorded in ghost logs. */
module ImageClassifier {
  import opened Types
  import opened ArrayOps
  import opened Catalog

  // ---------------------------------------------------------------------
  // Admitting files

  /** `String.prototype.startsWith`. */
  function StartsWith(s: string, prefix: string): (r: bool)
    ensures r <==> |prefix| <= |s| && forall i :: 0 <= i < |prefix| ==> s[i] == prefix[i]
  {
    |prefix| <= |s| && s[..|prefix|] == prefix
  }

  /** A file is admitted when its declared media type starts with `image/`. */
  function IsImage(f: File): (r: bool)
    ensures r <==> 6 <= |f.mimeType| && forall i :: 0 <= i < 6 ==> f.mimeType[i] == "image/"[i]
  {
    StartsWith(f.mimeType, "image/")
  }

  /** What the id generator and `URL.createObjectURL` yield for one file. */
  datatype Mint = Mint(id: string, preview: Preview)

  /** The record created for an admitted file: pending, without a result. */
  function PendingImage(f: File, m: Mint): (r: UploadedImage)
    ensures r.processing && r.result.None?
    ensures r.id == m.id && r.file == f && r.preview == m.preview
  {
    UploadedImage(m.id, f, m.preview, None, true)
  }

  /** The records appended for `files`, one per image file, in input order;
      file `k` uses `mints[k]`. */
  function Admitted(files: seq<File>, mints: seq<Mint>): (r: seq<UploadedImage>)
    requires |mints| == |files|
    ensures |r| <= |files|
    ensures forall j :: 0 <= j < |r| ==> r[j].processing && r[j].result.None? && IsImage(r[j].file)
    decreases |files|
  {
    if files == [] then []
    else
      var n := |files| - 1;
      Admitted(files[..n], mints[..n])
        + (if IsImage(files[n]) then [PendingImage(files[n], mints[n])] else [])
  }

  /** The positions of the image files, in increasing order. */
  function ImagePositions(files: seq<File>): (r: seq<nat>)
    ensures forall j :: 0 <= j < |r| ==> r[j] < |files| && IsImage(files[r[j]])
    ensures forall k :: 0 <= k < |files| && IsImage(files[k]) ==> k in r
    ensures forall j1, j2 :: 0 <= j1 < j2 < |r| ==> r[j1] < r[j2]
    decreases |files|
  {
    if files == [] then []
    else
      var n := |files| - 1;
      ImagePositions(files[..n]) + (if IsImage(files[n]) then [n] else [])
  }

  /** The `j`-th admitted record is the pending record of the `j`-th image
      file: exactly the image files are admitted, in input order. */
  lemma {:induction false} AdmittedAt(files: seq<File>, mints: seq<Mint>)
    requires |mints| == |files|
    ensures |Admitted(files, mints)| == |ImagePositions(files)|
    ensures forall j :: 0 <= j < |ImagePositions(files)| ==>
              Admitted(files, mints)[j]
                == PendingImage(files[ImagePositions(files)[j]], mints[ImagePositions(files)[j]])
    decreases |files|
  {
    if files != [] {
      var n := |files| - 1;
      AdmittedAt(files[..n], mints[..n]);
      var pos := ImagePositions(files[..n]);
      forall j | 0 <= j < |pos|
        ensures files[..n][pos[j]] == files[pos[j]] && mints[..n][pos[j]] == mints[pos[j]]
      {
      }
    }
  }

  /** When every file is an image, each one is admitted, in order. */
  lemma {:induction false} AllImagesAdmitted(files: seq<File>, mints: seq<Mint>)
    requires |mints| == |files|
    requires forall k :: 0 <= k < |files| ==> IsImage(files[k])
    ensures |Admitted(files, mints)| == |files|
    ensures forall k :: 0 <= k < |files| ==> Admitted(files, mints)[k] == PendingImage(files[k], mints[k])
    decreases |files|
  {
    if files != [] {
      var n := |files| - 1;
      assert forall k :: 0 <= k < n ==> files[..n][k] == files[k] && mints[..n][k] == mints[k];
      AllImagesAdmitted(files[..n], mints[..n]);
    }
  }

  /** Files none of which is an image create no record. */
  lemma {:induction false} NonImagesIgnored(files: seq<File>, mints: seq<Mint>)
    requires |mints| == |files|
    requires forall k :: 0 <= k < |files| ==> !IsImage(files[k])
    ensures Admitted(files, mints) == []
    decreases |files|
  {
    if files != [] {
      NonImagesIgnored(files[..|files| - 1], mints[..|files| - 1]);
    }
  }

  /** Appending one file extends the admitted records by at most one. */
  lemma AdmittedSnoc(files: seq<File>, mints: seq<Mint>, k: nat)
    requires |mints| == |files| && k < |files|
    ensures Admitted(files[..k + 1], mints[..k + 1])
         == Admitted(files[..k], mints[..k])
          + (if IsImage(files[k]) then [PendingImage(files[k], mints[k])] else [])
  {
    assert files[..k + 1][..k] == files[..k] && mints[..k + 1][..k] == mints[..k];
  }

  /** The ids of a list of records, in order. */
  function Ids(images: seq<UploadedImage>): (r: seq<string>)
    ensures |r| == |images|
  {
    Map(images, (img: UploadedImage) => img.id)
  }

  /** The previews of a list of records, in order. */
  function Previews(images: seq<UploadedImage>): (r: seq<Preview>)
    ensures |r| == |images|
  {
    Map(images, (img: UploadedImage) => img.preview)
  }

  lemma IdsPreviewsSnoc(images: seq<UploadedImage>, img: UploadedImage)
    ensures Ids(images + [img]) == Ids(images) + [img.id]
    ensures Previews(images + [img]) == Previews(images) + [img.preview]
  {
    MapConcat(images, [img], (img: UploadedImage) => img.id);
    MapConcat(images, [img], (img: UploadedImage) => img.preview);
  }

  // ---------------------------------------------------------------------
  // Completing a classification

  /** The simulated classification: `draw` picks the catalog entry as
      `floor(draw * length)`, `spread` gives the confidence
      `spread * 0.3 + 0.7`; both are uniform draws in [0, 1). */
  function SimulatedResult(draw: real, spread: real, now: int): (r: ClassificationResult)
    requires 0.0 <= draw < 1.0 && 0.0 <= spread < 1.0
    ensures r.disease in Diseases
    ensures 0.7 <= r.confidence < 1.0
    ensures r.timestamp == now
  {
    ClassificationResult(Diseases[DrawIndex(draw)], spread * 0.3 + 0.7, now)
  }

  /** The per-record step of the completion update. */
  function Completed(img: UploadedImage, id: string, result: ClassificationResult): (r: UploadedImage)
    ensures r.id == img.id && r.file == img.file && r.preview == img.preview
    ensures img.id == id ==> r.result == Some(result) && !r.processing
    ensures img.id != id ==> r == img
  {
    if img.id == id then img.(result := Some(result), processing := false) else img
  }

  /** The completion update: every record with `id` gets the result and stops
      processing, in place; every other record is untouched. */
  function CompleteIn(images: seq<UploadedImage>, id: string, result: ClassificationResult): (r: seq<UploadedImage>)
    ensures |r| == |images|
    ensures forall i :: 0 <= i < |r| ==>
              r[i].id == images[i].id && r[i].file == images[i].file && r[i].preview == images[i].preview
    ensures forall i :: 0 <= i < |r| && images[i].id == id ==>
              r[i].result == Some(result) && !r[i].processing
    ensures forall i :: 0 <= i < |r| && images[i].id != id ==> r[i] == images[i]
  {
    Map(images, img => Completed(img, id, result))
  }

  /** Completing an id that no record carries changes nothing. */
  lemma CompleteMissingIsNoop(images: seq<UploadedImage>, id: string, result: ClassificationResult)
    requires forall i :: 0 <= i < |images| ==> images[i].id != id
    ensures CompleteIn(images, id, result) == images
  {
  }

  // ---------------------------------------------------------------------
  // Removing a record

  function HasId(id: string): UploadedImage -> bool
  {
    (img: UploadedImage) => img.id == id
  }

  function LacksId(id: string): UploadedImage -> bool
  {
    (img: UploadedImage) => img.id != id
  }

  /** The list after removal: every record with `id` filtered out. */
  function RemoveFrom(images: seq<UploadedImage>, id: string): (r: seq<UploadedImage>)
    ensures forall img :: img in r ==> img.id != id
  {
    Filter(images, LacksId(id))
  }

  /** The previews revoked by a removal: that of the first record with `id`,
      if there is one. */
  function RevokedBy(images: seq<UploadedImage>, id: string): (r: seq<Preview>)
    ensures |r| <= 1
  {
    match Find(images, HasId(id))
    case None => []
    case Some(img) => [img.preview]
  }

  /** Removal keeps exactly the records with another id, in order. */
  lemma RemoveKeepsOthers(images: seq<UploadedImage>, id: string, img: UploadedImage)
    ensures img in RemoveFrom(images, id) <==> img in images && img.id != id
    ensures IsSubsequence(RemoveFrom(images, id), images)
  {
    FilterMembership(images, LacksId(id), img);
    FilterIsSubsequence(images, LacksId(id));
  }

  /** Removing an absent id leaves the list as it is and revokes nothing. */
  lemma RemoveMissingIsNoop(images: seq<UploadedImage>, id: string)
    requires forall i :: 0 <= i < |images| ==> images[i].id != id
    ensures RemoveFrom(images, id) == images
    ensures RevokedBy(images, id) == []
  {
    FilterAllPass(images, LacksId(id));
  }

  /** A removal that finds a record revokes the preview of the first record
      with that id, and nothing else. */
  lemma RemoveRevokesFirstMatch(images: seq<UploadedImage>, id: string, i: nat)
    requires i < |images| && images[i].id == id
    requires forall j :: 0 <= j < i ==> images[j].id != id
    ensures RevokedBy(images, id) == [images[i].preview]
  {
    var k := FindIndex(images, HasId(id));
    assert k == Some(i) by {
      assert HasId(id)(images[i]);
    }
  }

  /** Removing twice: the second removal changes nothing and revokes nothing. */
  lemma RemoveTwice(images: seq<UploadedImage>, id: string)
    ensures RemoveFrom(RemoveFrom(images, id), id) == RemoveFrom(images, id)
    ensures RevokedBy(RemoveFrom(images, id), id) == []
  {
    RemoveMissingIsNoop(RemoveFrom(images, id), id);
  }

  /** A completion that fires after its record was removed changes nothing:
      the record does not come back. */
  lemma CompleteAfterRemove(images: seq<UploadedImage>, id: string, result: ClassificationResult)
    ensures CompleteIn(RemoveFrom(images, id), id, result) == RemoveFrom(images, id)
  {
    CompleteMissingIsNoop(RemoveFrom(images, id), id, result);
  }

  /** With distinct ids, removing a present id shortens the list by one. */
  lemma {:induction false} RemoveOne(images: seq<UploadedImage>, id: string, i: nat)
    requires DistinctIds(images)
    requires i < |images| && images[i].id == id
    ensures |RemoveFrom(images, id)| == |images| - 1
    decreases |images|
  {
    if i == 0 {
      RemoveMissingIsNoop(images[1..], id);
    } else {
      RemoveOne(images[1..], id, i - 1);
    }
  }

  // ---------------------------------------------------------------------
  // The invariant

  /** A record is processing exactly when it has no result. */
  ghost predicate Consistent(images: seq<UploadedImage>)
  {
    forall i :: 0 <= i < |images| ==> (images[i].processing <==> images[i].result.None?)
  }

  ghost predicate DistinctIds(images: seq<UploadedImage>)
  {
    forall i, j :: 0 <= i < j < |images| ==> images[i].id != images[j].id
  }

  ghost predicate DistinctPreviews(images: seq<UploadedImage>)
  {
    forall i, j :: 0 <= i < j < |images| ==> images[i].preview != images[j].preview
  }

  ghost predicate NoDuplicates<T>(s: seq<T>)
  {
    forall i, j :: 0 <= i < j < |s| ==> s[i] != s[j]
  }

  /** The workflow's invariant over the list and the preview logs: records
      are consistent, ids and previews are distinct, every live preview was
      created and not revoked, no preview was revoked twice, and every created
      preview is either live or revoked (none leaks). */
  ghost predicate Inv(images: seq<UploadedImage>, scheduled: seq<string>, created: seq<Preview>, revoked: seq<Preview>)
  {
    && Consistent(images)
    && DistinctIds(images)
    && DistinctPreviews(images)
    && (forall i :: 0 <= i < |images| ==> images[i].preview in created && images[i].preview !in revoked)
    && NoDuplicates(revoked)
    && (forall p :: p in revoked ==> p in created)
    && (forall p :: p in created ==> p in revoked || exists i :: 0 <= i < |images| && images[i].preview == p)
  }

  /** The invariant over the deferred classifications: every live record's
      classification was scheduled, only scheduled classifications have
      fired, none fired twice, and a record is pending exactly while its
      classification has not fired. */
  ghost predicate TaskInv(images: seq<UploadedImage>, scheduled: seq<string>, fired: seq<string>)
  {
    && (forall i :: 0 <= i < |images| ==> images[i].id in scheduled)
    && (forall t :: t in fired ==> t in scheduled)
    && NoDuplicates(fired)
    && (forall i :: 0 <= i < |images| ==> (images[i].processing <==> images[i].id !in fired))
  }

  /** A mint is fresh for the current state: its id is neither live nor ever
      scheduled, and its preview was never created. */
  ghost predicate Fresh(m: Mint, images: seq<UploadedImage>, scheduled: seq<string>, created: seq<Preview>)
  {
    && (forall i :: 0 <= i < |images| ==> images[i].id != m.id)
    && m.id !in scheduled
    && m.preview !in created
  }

  /** The mints of the image files from position `k` on are fresh. */
  ghost predicate FreshFrom(files: seq<File>, mints: seq<Mint>, k: nat,
                            images: seq<UploadedImage>, scheduled: seq<string>, created: seq<Preview>)
    requires |mints| == |files|
  {
    forall t :: k <= t < |files| && IsImage(files[t]) ==> Fresh(mints[t], images, scheduled, created)
  }

  /** The mints of distinct image files differ in id and preview. */
  ghost predicate DistinctMints(files: seq<File>, mints: seq<Mint>)
    requires |mints| == |files|
  {
    forall k1, k2 :: 0 <= k1 < k2 < |files| && IsImage(files[k1]) && IsImage(files[k2]) ==>
      mints[k1].id != mints[k2].id && mints[k1].preview != mints[k2].preview
  }

  /** The mints handed to one call for its image files are fresh and
      pairwise distinct; the mints of other files are never used. */
  ghost predicate FreshMints(files: seq<File>, mints: seq<Mint>,
                             images: seq<UploadedImage>, scheduled: seq<string>, created: seq<Preview>)
    requires |mints| == |files|
  {
    FreshFrom(files, mints, 0, images, scheduled, created) && DistinctMints(files, mints)
  }

  /** Using the mint of image file `k` leaves the later mints fresh. */
  lemma FreshAfterAdmit(files: seq<File>, mints: seq<Mint>, k: nat,
                        images: seq<UploadedImage>, scheduled: seq<string>, created: seq<Preview>)
    requires |mints| == |files| && k < |files| && IsImage(files[k])
    requires FreshFrom(files, mints, k, images, scheduled, created) && DistinctMints(files, mints)
    ensures Fresh(mints[k], images, scheduled, created)
    ensures FreshFrom(files, mints, k + 1, images + [PendingImage(files[k], mints[k])],
                      scheduled + [mints[k].id], created + [mints[k].preview])
  {
  }

  /** Skipping a file keeps the later mints fresh. */
  lemma FreshAfterSkip(files: seq<File>, mints: seq<Mint>, k: nat,
                       images: seq<UploadedImage>, scheduled: seq<string>, created: seq<Preview>)
    requires |mints| == |files| && k < |files|
    requires FreshFrom(files, mints, k, images, scheduled, created)
    ensures FreshFrom(files, mints, k + 1, images, scheduled, created)
  {
  }

  /** Admitting one image with a fresh mint keeps the invariant. */
  lemma AdmitPreservesInv(images: seq<UploadedImage>, scheduled: seq<string>, created: seq<Preview>,
                          revoked: seq<Preview>, f: File, m: Mint)
    requires Inv(images, scheduled, created, revoked)
    requires Fresh(m, images, scheduled, created)
    ensures Inv(images + [PendingImage(f, m)], scheduled + [m.id], created + [m.preview], revoked)
  {
    var img := PendingImage(f, m);
    forall i | 0 <= i < |images|
      ensures images[i].id != img.id && images[i].preview != img.preview
    {
      assert images[i].preview in created;
    }
    AppendKeepsDistinct(images, img);
    AppendLeaksNothing(images, created, revoked, img);
  }

  /** Appending a record whose id and preview are new keeps both distinct. */
  lemma AppendKeepsDistinct(images: seq<UploadedImage>, img: UploadedImage)
    requires DistinctIds(images) && DistinctPreviews(images)
    requires forall i :: 0 <= i < |images| ==> images[i].id != img.id && images[i].preview != img.preview
    ensures DistinctIds(images + [img]) && DistinctPreviews(images + [img])
  {
    var images' := images + [img];
    assert forall i :: 0 <= i < |images| ==> images'[i] == images[i];
  }

  /** Appending a record together with its created preview leaks no preview. */
  lemma AppendLeaksNothing(images: seq<UploadedImage>, created: seq<Preview>, revoked: seq<Preview>, img: UploadedImage)
    requires forall p :: p in created ==> p in revoked || exists i :: 0 <= i < |images| && images[i].preview == p
    ensures forall p :: p in created + [img.preview] ==>
              p in revoked || exists i :: 0 <= i < |images + [img]| && (images + [img])[i].preview == p
  {
    var images' := images + [img];
    forall p | p in created + [img.preview]
      ensures p in revoked || exists i :: 0 <= i < |images'| && images'[i].preview == p
    {
      if p == img.preview {
        assert images'[|images|].preview == p;
      } else if p !in revoked {
        var i :| 0 <= i < |images| && images[i].preview == p;
        assert images'[i].preview == p;
      }
    }
  }

  /** The completion update keeps the invariant. */
  lemma CompletePreservesInv(images: seq<UploadedImage>, scheduled: seq<string>, created: seq<Preview>,
                             revoked: seq<Preview>, id: string, result: ClassificationResult)
    requires Inv(images, scheduled, created, revoked)
    ensures Inv(CompleteIn(images, id, result), scheduled, created, revoked)
  {
    var images' := CompleteIn(images, id, result);
    forall p | p in created
      ensures p in revoked || exists i :: 0 <= i < |images'| && images'[i].preview == p
    {
      if p !in revoked {
        var i :| 0 <= i < |images| && images[i].preview == p;
        assert images'[i].preview == p;
      }
    }
  }

  /** Every record kept by a removal is an old record with another id. */
  lemma RemovedFrom(images: seq<UploadedImage>, id: string, j: nat)
    requires j < |RemoveFrom(images, id)|
    ensures exists i :: 0 <= i < |images| && images[i] == RemoveFrom(images, id)[j] && images[i].id != id
  {
    RemoveKeepsOthers(images, id, RemoveFrom(images, id)[j]);
  }

  /** Removal, with the revocation it performs, keeps the invariant: the
      removed record's preview is revoked once and no other preview is. */
  lemma RemovePreservesInv(images: seq<UploadedImage>, scheduled: seq<string>, created: seq<Preview>,
                           revoked: seq<Preview>, id: string)
    requires Inv(images, scheduled, created, revoked)
    ensures Inv(RemoveFrom(images, id), scheduled, created, revoked + RevokedBy(images, id))
  {
    var images' := RemoveFrom(images, id);
    var revoked' := revoked + RevokedBy(images, id);
    SubsequenceDistinct(images, id);
    forall j | 0 <= j < |images'|
      ensures images'[j].preview in created && images'[j].preview !in revoked'
      ensures images'[j].processing <==> images'[j].result.None?
    {
      RemovedFrom(images, id, j);
      RevokedPreviewOf(images, scheduled, created, revoked, id);
    }
    RevokedPreviewOf(images, scheduled, created, revoked, id);
    forall p | p in created
      ensures p in revoked' || exists j :: 0 <= j < |images'| && images'[j].preview == p
    {
      if p !in revoked {
        var i :| 0 <= i < |images| && images[i].preview == p;
        if images[i].id != id {
          RemoveKeepsOthers(images, id, images[i]);
          var j :| 0 <= j < |images'| && images'[j] == images[i];
        }
      }
    }
  }

  /** What a removal revokes, under the invariant: the preview of the one
      record carrying the id, which is live and not yet revoked. */
  lemma RevokedPreviewOf(images: seq<UploadedImage>, scheduled: seq<string>, created: seq<Preview>,
                         revoked: seq<Preview>, id: string)
    requires Inv(images, scheduled, created, revoked)
    ensures forall i :: 0 <= i < |images| && images[i].id == id ==> RevokedBy(images, id) == [images[i].preview]
    ensures (forall i :: 0 <= i < |images| ==> images[i].id != id) ==> RevokedBy(images, id) == []
    ensures NoDuplicates(revoked + RevokedBy(images, id))
    ensures forall i :: 0 <= i < |images| && images[i].id != id ==> images[i].preview !in RevokedBy(images, id)
  {
    var found := FindIndex(images, HasId(id));
    if found.Some? {
      assert images[found.value].id == id;
      assert RevokedBy(images, id) == [images[found.value].preview];
    }
  }

  /** Filtering out an id keeps ids and previews distinct. */
  lemma {:induction false} SubsequenceDistinct(images: seq<UploadedImage>, id: string)
    requires DistinctIds(images) && DistinctPreviews(images)
    ensures DistinctIds(RemoveFrom(images, id)) && DistinctPreviews(RemoveFrom(images, id))
    decreases |images|
  {
    if images != [] {
      SubsequenceDistinct(images[1..], id);
      if images[0].id != id {
        forall r | r in RemoveFrom(images[1..], id)
          ensures r.id != images[0].id && r.preview != images[0].preview
        {
          RemoveKeepsOthers(images[1..], id, r);
        }
      }
    }
  }

  // ---------------------------------------------------------------------
  // The deferred classifications

  /** Admitting a record under a never-scheduled id, and scheduling it, keeps
      the task invariant. */
  lemma AdmitKeepsTasks(images: seq<UploadedImage>, scheduled: seq<string>, fired: seq<string>, f: File, m: Mint)
    requires TaskInv(images, scheduled, fired)
    requires m.id !in scheduled
    ensures TaskInv(images + [PendingImage(f, m)], scheduled + [m.id], fired)
  {
    var images' := images + [PendingImage(f, m)];
    assert forall i :: 0 <= i < |images| ==> images'[i] == images[i];
  }

  /** A scheduled classification that has not fired yet completes its
      records, and then counts as fired; the task invariant is kept. */
  lemma CompleteKeepsTasks(images: seq<UploadedImage>, scheduled: seq<string>, fired: seq<string>,
                           id: string, result: ClassificationResult)
    requires TaskInv(images, scheduled, fired)
    requires id in scheduled && id !in fired
    ensures TaskInv(CompleteIn(images, id, result), scheduled, fired + [id])
  {
  }

  /** Removal keeps the task invariant; no classification fires. */
  lemma RemoveKeepsTasks(images: seq<UploadedImage>, scheduled: seq<string>, fired: seq<string>, id: string)
    requires TaskInv(images, scheduled, fired)
    ensures TaskInv(RemoveFrom(images, id), scheduled, fired)
  {
    forall j | 0 <= j < |RemoveFrom(images, id)|
      ensures RemoveFrom(images, id)[j].id in scheduled
      ensures RemoveFrom(images, id)[j].processing <==> RemoveFrom(images, id)[j].id !in fired
    {
      RemovedFrom(images, id, j);
    }
  }

  /** A result, once set, never changes: a classification that has not
      fired yet leaves every completed record as it is. */
  lemma ResultsAreFinal(images: seq<UploadedImage>, scheduled: seq<string>, fired: seq<string>,
                        id: string, result: ClassificationResult)
    requires Consistent(images) && TaskInv(images, scheduled, fired)
    requires id !in fired
    ensures forall i :: 0 <= i < |images| && images[i].result.Some? ==> CompleteIn(images, id, result)[i] == images[i]
  {
  }

  // ---------------------------------------------------------------------
  // Drag highlighting

  /** The highlight after one drag event: `dragenter` and `dragover` switch
      it on, `dragleave` switches it off, any other event leaves it. */
  function DragAfter(active: bool, eventType: string): (r: bool)
    ensures eventType == "dragenter" || eventType == "dragover" ==> r
    ensures eventType == "dragleave" ==> !r
    ensures eventType != "dragenter" && eventType != "dragover" && eventType != "dragleave" ==> r == active
  {
    if eventType == "dragenter" || eventType == "dragover" then true
    else if eventType == "dragleave" then false
    else active
  }

  predicate Activates(eventType: string)
  {
    eventType == "dragenter" || eventType == "dragover"
  }

  /** The highlight after a sequence of drag events. */
  function ActiveAfter(active: bool, events: seq<string>): (r: bool)
    ensures events != [] && Activates(events[|events| - 1]) ==> r
    ensures events != [] && events[|events| - 1] == "dragleave" ==> !r
    decreases |events|
  {
    if events == [] then active
    else DragAfter(ActiveAfter(active, events[..|events| - 1]), events[|events| - 1])
  }

  /** After a sequence of drag events the highlight is on exactly when some
      activating event has no `dragleave` after it, or it was on before and
      no `dragleave` occurred. */
  lemma {:induction false} ActiveAfterIff(active: bool, events: seq<string>)
    ensures ActiveAfter(active, events) <==>
      (exists i :: 0 <= i < |events| && Activates(events[i]) &&
                   forall j :: i < j < |events| ==> events[j] != "dragleave")
      || (active && forall j :: 0 <= j < |events| ==> events[j] != "dragleave")
    decreases |events|
  {
    if events != [] {
      var n := |events| - 1;
      var prefix := events[..n];
      ActiveAfterIff(active, prefix);
      assert forall j :: 0 <= j < n ==> prefix[j] == events[j];
      if events[n] == "dragleave" {
        forall i | 0 <= i < |events| && Activates(events[i])
          ensures exists j :: i < j < |events| && events[j] == "dragleave"
        {
          assert i < n;
        }
      } else if !Activates(events[n]) {
        if exists i :: 0 <= i < n && Activates(prefix[i]) &&
                       forall j :: i < j < n ==> prefix[j] != "dragleave" {
          var i :| 0 <= i < n && Activates(prefix[i]) && forall j :: i < j < n ==> prefix[j] != "dragleave";
          assert 0 <= i < |events| && Activates(events[i]) &&
                 forall j :: i < j < |events| ==> events[j] != "dragleave";
        }
        if exists i :: 0 <= i < |events| && Activates(events[i]) &&
                       forall j :: i < j < |events| ==> events[j] != "dragleave" {
          var i :| 0 <= i < |events| && Activates(events[i]) &&
                   forall j :: i < j < |events| ==> events[j] != "dragleave";
          assert 0 <= i < n && Activates(prefix[i]) && forall j :: i < j < n ==> prefix[j] != "dragleave";
        }
      }
    }
  }

  // ---------------------------------------------------------------------
  // File-name display

  /** The label shown for a file name: names longer than 20 characters are
      cut to their first 20 characters followed by `...`. */
  function DisplayName(name: string): (r: string)
    ensures |name| <= 20 ==> r == name
    ensures |name| > 20 ==> |r| == 23 && r[..20] == name[..20] && r[20..] == "..."
    ensures |r| <= 23
  {
    if |name| > 20 then name[..20] + "..." else name
  }

  /** Displaying a label again changes nothing. */
  lemma DisplayNameIdempotent(name: string)
    ensures DisplayName(DisplayName(name)) == DisplayName(name)
  {
    if |name| > 20 {
      var r := DisplayName(name);
      assert r[..20] == name[..20];
    }
  }

  // ---------------------------------------------------------------------
  // The component state

  /** The classifier component: the upload list, the drag highlight, and
      ghost logs of scheduled and fired classifications and of created and
      revoked previews. */
  class Classifier {
    var images: seq<UploadedImage>
    var dragActive: bool
    ghost var scheduled: seq<string>
    ghost var fired: seq<string>
    ghost var created: seq<Preview>
    ghost var revoked: seq<Preview>

    ghost predicate Valid()
      reads this
    {
      Inv(images, scheduled, created, revoked) && TaskInv(images, scheduled, fired)
    }

    constructor ()
      ensures Valid()
      ensures images == [] && !dragActive
      ensures scheduled == [] && fired == [] && created == [] && revoked == []
    {
      images := [];
      dragActive := false;
      scheduled := [];
      fired := [];
      created := [];
      revoked := [];
    }

    /** `handleFiles`: append a pending record for each image file, in order,
        creating its preview and scheduling its classification; a missing
        file list does nothing. */
    method HandleFiles(files: Option<seq<File>>, mints: seq<Mint>)
      requires Valid()
      requires files.Some? ==> |mints| == |files.value| && FreshMints(files.value, mints, images, scheduled, created)
      modifies this`images, this`scheduled, this`created
      ensures Valid()
      ensures files.None? ==> images == old(images) && scheduled == old(scheduled) && created == old(created)
      ensures files.Some? ==>
                var added := Admitted(files.value, mints);
                && images == old(images) + added
                && scheduled == old(scheduled) + Ids(added)
                && created == old(created) + Previews(added)
    {
      if files.None? {
        return;
      }
      var fs := files.value;
      var k := 0;
      while k < |fs|
        invariant 0 <= k <= |fs|
        invariant Valid()
        invariant images == old(images) + Admitted(fs[..k], mints[..k])
        invariant scheduled == old(scheduled) + Ids(Admitted(fs[..k], mints[..k]))
        invariant created == old(created) + Previews(Admitted(fs[..k], mints[..k]))
        invariant FreshFrom(fs, mints, k, images, scheduled, created)
      {
        AdmitFile(old(images), old(scheduled), old(created), fs, mints, k);
        k := k + 1;
      }
      assert fs[..|fs|] == fs && mints[..|fs|] == mints;
    }

    /** One iteration of the per-file loop: file `k` is admitted if it is an
        image and skipped otherwise, extending the records admitted so far. */
    method AdmitFile(ghost images0: seq<UploadedImage>, ghost scheduled0: seq<string>, ghost created0: seq<Preview>,
                     fs: seq<File>, mints: seq<Mint>, k: nat)
      requires |mints| == |fs| && k < |fs|
      requires Valid() && DistinctMints(fs, mints) && FreshFrom(fs, mints, k, images, scheduled, created)
      requires images == images0 + Admitted(fs[..k], mints[..k])
      requires scheduled == scheduled0 + Ids(Admitted(fs[..k], mints[..k]))
      requires created == created0 + Previews(Admitted(fs[..k], mints[..k]))
      modifies this`images, this`scheduled, this`created
      ensures Valid() && FreshFrom(fs, mints, k + 1, images, scheduled, created)
      ensures images == images0 + Admitted(fs[..k + 1], mints[..k + 1])
      ensures scheduled == scheduled0 + Ids(Admitted(fs[..k + 1], mints[..k + 1]))
      ensures created == created0 + Previews(Admitted(fs[..k + 1], mints[..k + 1]))
    {
      AdmittedSnoc(fs, mints, k);
      if !IsImage(fs[k]) {
        FreshAfterSkip(fs, mints, k, images, scheduled, created);
      } else {
        FreshAfterAdmit(fs, mints, k, images, scheduled, created);
        IdsPreviewsSnoc(Admitted(fs[..k], mints[..k]), PendingImage(fs[k], mints[k]));
        AdmitOne(fs[k], mints[k]);
      }
    }

    /** The body of the per-file loop for an image file: create its preview,
        append its pending record and schedule its classification. */
    method AdmitOne(f: File, m: Mint)
      requires Valid() && Fresh(m, images, scheduled, created)
      modifies this`images, this`scheduled, this`created
      ensures Valid()
      ensures images == old(images) + [PendingImage(f, m)]
      ensures scheduled == old(scheduled) + [m.id]
      ensures created == old(created) + [m.preview]
    {
      AdmitPreservesInv(images, scheduled, created, revoked, f, m);
      AdmitKeepsTasks(images, scheduled, fired, f, m);
      var img := PendingImage(f, m);
      created := created + [img.preview];
      images := images + [img];
      scheduled := scheduled + [img.id];
    }

    /** The deferred classification for `imageId`, fired once by the timer
        its admission scheduled: draw a result and complete every record with
        that id in place; an id whose record was removed changes nothing. */
    method CompleteClassification(imageId: string, draw: real, spread: real, now: int)
      requires Valid()
      requires imageId in scheduled && imageId !in fired
      requires 0.0 <= draw < 1.0 && 0.0 <= spread < 1.0
      modifies this
      ensures Valid()
      ensures images == CompleteIn(old(images), imageId, SimulatedResult(draw, spread, now))
      ensures forall i :: 0 <= i < |images| && old(images)[i].result.Some? ==> images[i] == old(images)[i]
      ensures fired == old(fired) + [imageId]
      ensures scheduled == old(scheduled) && created == old(created) && revoked == old(revoked)
      ensures dragActive == old(dragActive)
    {
      var result := SimulatedResult(draw, spread, now);
      CompletePreservesInv(images, scheduled, created, revoked, imageId, result);
      CompleteKeepsTasks(images, scheduled, fired, imageId, result);
      ResultsAreFinal(images, scheduled, fired, imageId, result);
      images := CompleteIn(images, imageId, result);
      fired := fired + [imageId];
    }

    /** `removeImage`: revoke the preview of the first record with `imageId`,
        if any, and drop every record with that id. */
    method RemoveImage(imageId: string)
      requires Valid()
      modifies this
      ensures Valid()
      ensures images == RemoveFrom(old(images), imageId)
      ensures revoked == old(revoked) + RevokedBy(old(images), imageId)
      ensures scheduled == old(scheduled) && fired == old(fired) && created == old(created)
      ensures dragActive == old(dragActive)
    {
      RemovePreservesInv(images, scheduled, created, revoked, imageId);
      RemoveKeepsTasks(images, scheduled, fired, imageId);
      var found := Find(images, HasId(imageId));
      if found.Some? {
        revoked := revoked + [found.value.preview];
      }
      images := RemoveFrom(images, imageId);
    }

    /** `handleDrag`: update the highlight for one drag event. */
    method HandleDrag(eventType: string)
      requires Valid()
      modifies this`dragActive
      ensures Valid()
      ensures dragActive == DragAfter(old(dragActive), eventType)
    {
      dragActive := DragAfter(dragActive, eventType);
    }

    /** `handleDrop`: clear the highlight, then admit the dropped files. */
    method HandleDrop(files: Option<seq<File>>, mints: seq<Mint>)
      requires Valid()
      requires files.Some? ==> |mints| == |files.value| && FreshMints(files.value, mints, images, scheduled, created)
      modifies this
      ensures Valid() && !dragActive
      ensures files.None? ==> images == old(images) && scheduled == old(scheduled) && created == old(created)
      ensures files.Some? ==>
                var added := Admitted(files.value, mints);
                && images == old(images) + added
                && scheduled == old(scheduled) + Ids(added)
                && created == old(created) + Previews(added)
      ensures fired == old(fired) && revoked == old(revoked)
    {
      dragActive := false;
      HandleFiles(files, mints);
    }
  }
}
