/** The courses page: the course search, adding and deleting courses,
    deleting and saving batches inside a course, the batch order, the
    admin picker of the batch form and the batch's admin list.

    Every list operation is the transform handed to `setCourses`; fresh ids
    and the `createdAt` text are parameters. */
module CoursesPage {
  import opened Types
  import opened Text
  import Seqs

  /** The search on course names, ignoring case. */
  function CourseMatches(term: string): Course -> bool {
    (c: Course) => Matches(c.courseName, term)
  }

  /** An empty search term matches every name. */
  lemma EmptyTermMatches(text: string)
    ensures Matches(text, "")
  {
    assert Lower("") == "";
    ContainsEmpty(Lower(text));
  }

  /** `filteredCourses`: the courses whose name contains the term, in list order. */
  function FilterCourses(courses: seq<Course>, term: string): (r: seq<Course>)
    ensures r == Seqs.Filter(courses, CourseMatches(term))
    ensures forall c :: c in r <==> c in courses && Matches(c.courseName, term)
    ensures |r| <= |courses|
    ensures term == "" ==> r == courses
  {
    forall c | c in courses ensures CourseMatches(term)(c) <== term == "" {
      EmptyTermMatches(c.courseName);
    }
    Seqs.FilterAll(courses, CourseMatches(term));
    Seqs.Filter(courses, CourseMatches(term))
  }

  /** The course form's submit: only a non-empty name reaches `handleAddCourse`, which
      appends a course with the fresh id and no batches. */
  function AddCourse(courses: seq<Course>, name: string, id: string): (r: seq<Course>)
    ensures name == "" ==> r == courses
    ensures name != "" ==> |r| == |courses| + 1 && r[..|courses|] == courses
                           && r[|courses|] == Course(id, name, [])
  {
    if name == "" then courses else courses + [Course(id, name, [])]
  }

  /** No course in `courses` has the id `id`. */
  predicate IdFree(courses: seq<Course>, id: string) {
    forall c :: c in courses ==> c.id != id
  }

  /** `handleConfirmDeleteCourse`: every course with that id goes, with its batches. */
  function DeleteCourse(courses: seq<Course>, id: string): (r: seq<Course>)
    ensures r == Seqs.Filter(courses, (c: Course) => c.id != id)
    ensures forall c :: c in r <==> c in courses && c.id != id
    ensures IdFree(r, id)
    ensures IdFree(courses, id) ==> r == courses
  {
    Seqs.FilterAll(courses, (c: Course) => c.id != id);
    Seqs.Filter(courses, (c: Course) => c.id != id)
  }

  /** Deleting the course just added under a fresh id restores the list. */
  lemma DeleteUndoesAdd(courses: seq<Course>, name: string, id: string)
    requires IdFree(courses, id)
    ensures DeleteCourse(AddCourse(courses, name, id), id) == courses
  {
    if name != "" {
      var p := (c: Course) => c.id != id;
      Seqs.FilterConcat(courses, [Course(id, name, [])], p);
      Seqs.FilterAll(courses, p);
    }
  }

  /** The batches of a course without those of one id. */
  function WithoutBatch(c: Course, batchId: string): Course {
    c.(batches := Seqs.Filter(c.batches, (b: Batch) => b.id != batchId))
  }

  /** `handleConfirmDeleteBatch`: inside the course `courseId` only, drop the
      batches with `batchId`. */
  function DeleteBatch(courses: seq<Course>, courseId: string, batchId: string): (r: seq<Course>)
    ensures |r| == |courses|
    ensures forall i :: 0 <= i < |courses| && courses[i].id != courseId ==> r[i] == courses[i]
    ensures forall i :: 0 <= i < |courses| && courses[i].id == courseId ==>
              && r[i].id == courses[i].id && r[i].courseName == courses[i].courseName
              && r[i].batches == Seqs.Filter(courses[i].batches, (b: Batch) => b.id != batchId)
              && (forall b :: b in r[i].batches <==> b in courses[i].batches && b.id != batchId)
  {
    Seqs.MapIf(courses, (c: Course) => c.id == courseId, (c: Course) => WithoutBatch(c, batchId))
  }

  /** `Partial<Batch>`: `None` is an absent field. */
  datatype BatchPatch = BatchPatch(
    id: Option<string>,
    batchNumber: Option<string>,
    startDate: Option<string>,
    admissionDate: Option<string>,
    headTeacher: Option<string>,
    status: Option<BatchStatus>,
    adminIds: Option<seq<string>>,
    createdAt: Option<string>)

  const EMPTY_BATCH_PATCH := BatchPatch(None, None, None, None, None, None, None, None)

  /** The edit form starts from the whole batch (`initialData`). */
  function PatchOfBatch(b: Batch): BatchPatch {
    BatchPatch(Some(b.id), Some(b.batchNumber), Some(b.startDate), Some(b.admissionDate),
               Some(b.headTeacher), Some(b.status), Some(b.adminIds), Some(b.createdAt))
  }

  /** The add form's initial state. */
  const NEW_BATCH_FORM := BatchPatch(None, Some(""), Some(""), Some(""), Some(""), Some(ComingSoon), Some([]), None)

  /** Spreading the form over a batch: every field the form holds wins. */
  function MergeBatch(b: Batch, p: BatchPatch): Batch {
    Batch(p.id.GetOr(b.id), p.batchNumber.GetOr(b.batchNumber), p.startDate.GetOr(b.startDate),
          p.admissionDate.GetOr(b.admissionDate), p.headTeacher.GetOr(b.headTeacher),
          p.status.GetOr(b.status), p.adminIds.GetOr(b.adminIds), p.createdAt.GetOr(b.createdAt))
  }

  /** Merging: an empty patch changes nothing, a whole-batch patch replaces
      the batch, and merging the same patch again changes nothing more. */
  lemma MergeBatchLaws(b: Batch, c: Batch, p: BatchPatch)
    ensures MergeBatch(b, EMPTY_BATCH_PATCH) == b
    ensures MergeBatch(b, PatchOfBatch(c)) == c
    ensures MergeBatch(MergeBatch(b, p), p) == MergeBatch(b, p)
  {
  }

  /** The new batch of the add path: fresh id and time stamp, and the
      defaults `''`, `'Coming Soon'` and `[]` for absent fields. */
  function NewBatch(id: string, createdAt: string, p: BatchPatch): (r: Batch)
    ensures r.id == id && r.createdAt == createdAt
    ensures r.batchNumber == (if p.batchNumber.Some? then p.batchNumber.value else "")
    ensures r.startDate == (if p.startDate.Some? then p.startDate.value else "")
    ensures r.admissionDate == (if p.admissionDate.Some? then p.admissionDate.value else "")
    ensures r.headTeacher == (if p.headTeacher.Some? then p.headTeacher.value else "")
    ensures r.status == (if p.status.Some? then p.status.value else ComingSoon)
    ensures r.adminIds == (if p.adminIds.Some? then p.adminIds.value else [])
  {
    Batch(id, p.batchNumber.GetOr(""), p.startDate.GetOr(""), p.admissionDate.GetOr(""),
          p.headTeacher.GetOr(""), p.status.GetOr(ComingSoon), p.adminIds.GetOr([]), createdAt)
  }

  /** Adding through the untouched add form appends a batch with empty
      texts, status Coming Soon and no admins. */
  lemma NewBatchFormDefaults(courses: seq<Course>, courseId: string, newId: string, createdAt: string)
    ensures forall i :: 0 <= i < |courses| && courses[i].id == courseId ==>
              SaveBatch(courses, courseId, AddBatch(newId, createdAt), NEW_BATCH_FORM)[i].batches
              == courses[i].batches + [Batch(newId, "", "", "", "", ComingSoon, [], createdAt)]
  {
  }

  /** Which path `handleSaveBatch` takes: editing the selected batch, or adding one. */
  datatype BatchSave = EditBatch(batchId: string) | AddBatch(newId: string, createdAt: string)

  /** The new batch list of the target course. */
  function SavedBatches(batches: seq<Batch>, mode: BatchSave, p: BatchPatch): seq<Batch> {
    match mode
    case EditBatch(batchId) => Seqs.MapIf(batches, (b: Batch) => b.id == batchId, (b: Batch) => MergeBatch(b, p))
    case AddBatch(newId, createdAt) => batches + [NewBatch(newId, createdAt, p)]
  }

  /** `handleSaveBatch`: inside the course `courseId` only, edit or add a batch. */
  function SaveBatch(courses: seq<Course>, courseId: string, mode: BatchSave, p: BatchPatch): (r: seq<Course>)
    ensures |r| == |courses|
    ensures forall i :: 0 <= i < |courses| && courses[i].id != courseId ==> r[i] == courses[i]
    ensures forall i :: 0 <= i < |courses| && courses[i].id == courseId ==>
              r[i].id == courses[i].id && r[i].courseName == courses[i].courseName
    ensures mode.EditBatch? ==> forall i :: 0 <= i < |courses| && courses[i].id == courseId ==>
              && |r[i].batches| == |courses[i].batches|
              && forall k :: 0 <= k < |courses[i].batches| ==>
                   r[i].batches[k] == if courses[i].batches[k].id == mode.batchId
                                      then MergeBatch(courses[i].batches[k], p) else courses[i].batches[k]
    ensures mode.AddBatch? ==> forall i :: 0 <= i < |courses| && courses[i].id == courseId ==>
              r[i].batches == courses[i].batches + [NewBatch(mode.newId, mode.createdAt, p)]
  {
    Seqs.MapIf(courses, (c: Course) => c.id == courseId, (c: Course) => c.(batches := SavedBatches(c.batches, mode, p)))
  }

  /** Saving the same edit twice is the same as saving it once. */
  lemma SaveEditIdempotent(courses: seq<Course>, courseId: string, batchId: string, p: BatchPatch)
    ensures var once := SaveBatch(courses, courseId, EditBatch(batchId), p);
            SaveBatch(once, courseId, EditBatch(batchId), p) == once
  {
    var once := SaveBatch(courses, courseId, EditBatch(batchId), p);
    var twice := SaveBatch(once, courseId, EditBatch(batchId), p);
    forall i | 0 <= i < |courses| ensures twice[i] == once[i] {
      if courses[i].id == courseId {
        var bs := courses[i].batches;
        forall k | 0 <= k < |bs| ensures twice[i].batches[k] == once[i].batches[k] {
          MergeBatchLaws(bs[k], bs[k], p);
        }
      }
    }
  }

  /** A batch added under an id no batch of that course has is removed again
      by deleting that id. */
  lemma DeleteBatchUndoesAdd(courses: seq<Course>, courseId: string, newId: string, createdAt: string, p: BatchPatch)
    requires forall c :: c in courses && c.id == courseId ==> forall b :: b in c.batches ==> b.id != newId
    ensures DeleteBatch(SaveBatch(courses, courseId, AddBatch(newId, createdAt), p), courseId, newId) == courses
  {
    var added := SaveBatch(courses, courseId, AddBatch(newId, createdAt), p);
    var r := DeleteBatch(added, courseId, newId);
    forall i | 0 <= i < |courses| ensures r[i] == courses[i] {
      if courses[i].id == courseId {
        var keep := (b: Batch) => b.id != newId;
        assert courses[i] in courses;
        Seqs.FilterConcat(courses[i].batches, [NewBatch(newId, createdAt, p)], keep);
        Seqs.FilterAll(courses[i].batches, keep);
      }
    }
  }

  function BatchNumberOf(b: Batch): string {
    b.batchNumber
  }

  /** The batch order of the course cards: descending batch numbers, stable
      among equal ones. */
  function SortBatches(batches: seq<Batch>): (r: seq<Batch>)
    ensures multiset(r) == multiset(batches)
    ensures forall i, j :: 0 <= i < j < |r| ==> !LexLess(r[i].batchNumber, r[j].batchNumber)
  {
    LexLessOrder();
    Seqs.SortBySorted(batches, BatchNumberOf, LexGreater);
    Seqs.SortBy(batches, BatchNumberOf, LexGreater)
  }

  /** Batches with the same number keep their stored order. */
  lemma SortBatchesStable(batches: seq<Batch>, number: string)
    ensures Seqs.Filter(SortBatches(batches), Seqs.KeyIs(BatchNumberOf, number))
         == Seqs.Filter(batches, Seqs.KeyIs(BatchNumberOf, number))
  {
    LexLessOrder();
    Seqs.SortByStable(batches, BatchNumberOf, LexGreater, number);
  }

  /** The render sorts the course's batch array in place. */
  method SortBatchesInPlace(a: array<Batch>)
    modifies a
    ensures a[..] == SortBatches(old(a[..]))
  {
    var sorted := SortBatches(a[..]);
    forall i | 0 <= i < a.Length {
      a[i] := sorted[i];
    }
  }

  /** Sorting the batches a second time changes nothing. */
  lemma SortBatchesIdempotent(batches: seq<Batch>)
    ensures SortBatches(SortBatches(batches)) == SortBatches(batches)
  {
    LexLessOrder();
    var once := SortBatches(batches);
    assert Seqs.SortedBy(once, BatchNumberOf, LexGreater);
    Seqs.SortByOfSorted(once, BatchNumberOf, LexGreater);
  }

  function SortCourseBatches(c: Course): Course {
    c.(batches := SortBatches(c.batches))
  }

  /** The course list after a render: the sort runs on the stored batch list
      of every course the search shows, so those courses keep their batches
      in descending number order from then on; hidden courses are untouched. */
  function RenderCourses(courses: seq<Course>, term: string): (r: seq<Course>)
    ensures |r| == |courses|
    ensures forall i :: 0 <= i < |courses| && !Matches(courses[i].courseName, term) ==> r[i] == courses[i]
    ensures forall i :: 0 <= i < |courses| && Matches(courses[i].courseName, term) ==>
              && r[i].id == courses[i].id && r[i].courseName == courses[i].courseName
              && r[i].batches == SortBatches(courses[i].batches)
              && multiset(r[i].batches) == multiset(courses[i].batches)
  {
    Seqs.MapIf(courses, CourseMatches(term), SortCourseBatches)
  }

  /** Rendering again with the same search leaves the stored courses as the
      first render left them. */
  lemma RenderCoursesTwice(courses: seq<Course>, term: string)
    ensures RenderCourses(RenderCourses(courses, term), term) == RenderCourses(courses, term)
  {
    var once := RenderCourses(courses, term);
    var twice := RenderCourses(once, term);
    forall i | 0 <= i < |courses| ensures twice[i] == once[i] {
      if Matches(courses[i].courseName, term) {
        SortBatchesIdempotent(courses[i].batches);
      }
    }
  }

  /** The picker's click on an admin: drop its id when selected, else append it. */
  function ToggleId(adminIds: Option<seq<string>>, adminId: string): (r: seq<string>)
    ensures adminId in r <==> adminId !in adminIds.GetOr([])
    ensures forall x :: x != adminId ==> (x in r <==> x in adminIds.GetOr([]))
    ensures adminId !in adminIds.GetOr([]) ==> r == adminIds.GetOr([]) + [adminId]
    ensures adminId in adminIds.GetOr([]) ==> r == Seqs.Filter(adminIds.GetOr([]), (x: string) => x != adminId)
  {
    var current := adminIds.GetOr([]);
    if adminId in current then Seqs.Filter(current, (x: string) => x != adminId) else current + [adminId]
  }

  /** Toggling twice restores membership of every id, and the list itself
      when the id was not selected. */
  lemma ToggleTwice(adminIds: seq<string>, adminId: string)
    ensures forall x :: x in ToggleId(Some(ToggleId(Some(adminIds), adminId)), adminId) <==> x in adminIds
    ensures adminId !in adminIds ==> ToggleId(Some(ToggleId(Some(adminIds), adminId)), adminId) == adminIds
  {
    if adminId !in adminIds {
      var keep := (x: string) => x != adminId;
      Seqs.FilterConcat(adminIds, [adminId], keep);
      Seqs.FilterAll(adminIds, keep);
    }
  }

  /** The picker's update of the form: only the admin list changes. */
  function PickAdmin(form: BatchPatch, adminId: string): (r: BatchPatch)
    ensures r.adminIds.Some? && r.adminIds.value == ToggleId(form.adminIds, adminId)
    ensures r.(adminIds := form.adminIds) == form
  {
    form.(adminIds := Some(ToggleId(form.adminIds, adminId)))
  }

  /** `selectedAdmins`: the admins whose id the batch lists, in admin-list order. */
  function SelectedAdmins(admins: seq<Admin>, adminIds: seq<string>): (r: seq<Admin>)
    ensures r == Seqs.Filter(admins, (a: Admin) => a.id in adminIds)
    ensures forall a :: a in r <==> a in admins && a.id in adminIds
    ensures |r| <= |admins|
  {
    Seqs.Filter(admins, (a: Admin) => a.id in adminIds)
  }

  /** An id no admin has contributes nothing, and repeating an id adds nothing. */
  lemma SelectedAdminsIgnoresDangling(admins: seq<Admin>, adminIds: seq<string>, extra: string)
    requires forall a :: a in admins ==> a.id != extra || extra in adminIds
    ensures SelectedAdmins(admins, adminIds + [extra]) == SelectedAdmins(admins, adminIds)
  {
    Seqs.FilterCongruent(admins, (a: Admin) => a.id in adminIds + [extra], (a: Admin) => a.id in adminIds);
  }
}
