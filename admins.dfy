/** The admin page: the searched and rating-ordered list, the status counts,
    the experience label, status and rating updates, saving the admin form
    and the form's document list.

    Every list operation is the transform handed to `setAdmins`, and every
    form operation the one handed to `setFormData`; fresh ids and today's
    date are parameters. */
module AdminPage {
  import opened Types
  import opened Text
  import Seqs

  /** The search on admin names, ignoring case. */
  function NameMatches(term: string): Admin -> bool {
    (a: Admin) => Matches(a.name, term)
  }

  function RatingOf(a: Admin): int {
    a.rating
  }

  /** `filteredAdmins`: the admins whose name matches, sorted by rating
      from highest to lowest. */
  function FilterAdmins(admins: seq<Admin>, term: string): (r: seq<Admin>)
    ensures forall a :: a in r <==> a in admins && Matches(a.name, term)
    ensures multiset(r) == multiset(Seqs.Filter(admins, NameMatches(term)))
    ensures forall i, j :: 0 <= i < j < |r| ==> r[i].rating >= r[j].rating
  {
    var matching := Seqs.Filter(admins, NameMatches(term));
    Seqs.IntOrders();
    Seqs.SortBySorted(matching, RatingOf, Seqs.IntGreater);
    var r := Seqs.SortBy(matching, RatingOf, Seqs.IntGreater);
    Seqs.SameElements(r, matching);
    assert forall i, j :: 0 <= i < j < |r| ==> !Seqs.IntGreater(RatingOf(r[j]), RatingOf(r[i]));
    r
  }

  /** Admins with equal ratings keep their list order. */
  lemma FilterAdminsStable(admins: seq<Admin>, term: string, rating: int)
    ensures Seqs.Filter(FilterAdmins(admins, term), Seqs.KeyIs(RatingOf, rating))
         == Seqs.Filter(Seqs.Filter(admins, NameMatches(term)), Seqs.KeyIs(RatingOf, rating))
  {
    Seqs.IntOrders();
    Seqs.SortByStable(Seqs.Filter(admins, NameMatches(term)), RatingOf, Seqs.IntGreater, rating);
  }

  function HasStatus(s: AdminStatus): Admin -> bool {
    (a: Admin) => a.status == s
  }

  /** The status column of the admin list. */
  function Statuses(admins: seq<Admin>): (r: seq<AdminStatus>)
    ensures |r| == |admins|
    ensures forall i :: 0 <= i < |admins| ==> r[i] == admins[i].status
  {
    if admins == [] then [] else [admins[0].status] + Statuses(admins[1..])
  }

  /** The number of admins kept by the status filter is the number of times
      the status occurs in the list. */
  lemma {:induction false} FilterCountsStatus(admins: seq<Admin>, s: AdminStatus)
    ensures |Seqs.Filter(admins, HasStatus(s))| == multiset(Statuses(admins))[s]
  {
    if admins != [] {
      FilterCountsStatus(admins[1..], s);
      assert Statuses(admins) == [admins[0].status] + Statuses(admins[1..]);
    }
  }

  /** The header counters: how many admins have status `s`. */
  function CountStatus(admins: seq<Admin>, s: AdminStatus): (n: nat)
    ensures n == multiset(Statuses(admins))[s]
    ensures n <= |admins|
    ensures n == 0 <==> forall a :: a in admins ==> a.status != s
  {
    var matching := Seqs.Filter(admins, HasStatus(s));
    assert |matching| > 0 ==> matching[0] in matching;
    FilterCountsStatus(admins, s);
    |matching|
  }

  /** Every admin is counted exactly once. */
  lemma CountsCoverList(admins: seq<Admin>)
    ensures CountStatus(admins, Active) + CountStatus(admins, Inactive) == |admins|
  {
    Seqs.FilterSplitCount(admins, HasStatus(Active), HasStatus(Inactive));
  }

  /** The status the toggle switches to: the other one. */
  function NextStatus(s: AdminStatus): (r: AdminStatus)
    ensures r != s
  {
    if s == Active then Inactive else Active
  }

  /** `handleToggleStatus`: the admins with that id get the other status. */
  function ToggleStatus(admins: seq<Admin>, id: string, currentStatus: AdminStatus): (r: seq<Admin>)
    ensures |r| == |admins|
    ensures forall i :: 0 <= i < |admins| ==>
              r[i] == if admins[i].id == id then admins[i].(status := NextStatus(currentStatus)) else admins[i]
  {
    Seqs.MapIf(admins, (a: Admin) => a.id == id, (a: Admin) => a.(status := NextStatus(currentStatus)))
  }

  /** Toggling an admin, then toggling it again from the status it now
      shows, gives the original list back. */
  lemma ToggleStatusTwice(admins: seq<Admin>, id: string, currentStatus: AdminStatus)
    requires forall a :: a in admins && a.id == id ==> a.status == currentStatus
    ensures ToggleStatus(ToggleStatus(admins, id, currentStatus), id, NextStatus(currentStatus)) == admins
  {
    var once := ToggleStatus(admins, id, currentStatus);
    var twice := ToggleStatus(once, id, NextStatus(currentStatus));
    forall i | 0 <= i < |admins| ensures twice[i] == admins[i] {
      if admins[i].id == id {
        assert admins[i] in admins;
      }
    }
  }

  /** `handleUpdateRating`: the admins with that id get the chosen rating. */
  function UpdateRating(admins: seq<Admin>, id: string, rating: int): (r: seq<Admin>)
    ensures |r| == |admins|
    ensures forall i :: 0 <= i < |admins| ==>
              r[i] == if admins[i].id == id then admins[i].(rating := rating) else admins[i]
  {
    Seqs.MapIf(admins, (a: Admin) => a.id == id, (a: Admin) => a.(rating := rating))
  }

  predicate RatingsInRange(admins: seq<Admin>) {
    forall a :: a in admins ==> 0 <= a.rating <= 5
  }

  /** The stars offer 1..5, so ratings stay within 0..5 (0 being a new admin's). */
  lemma UpdateRatingKeepsRange(admins: seq<Admin>, id: string, star: int)
    requires RatingsInRange(admins)
    requires 1 <= star <= 5
    ensures RatingsInRange(UpdateRating(admins, id, star))
  {
    var r := UpdateRating(admins, id, star);
    forall a | a in r ensures 0 <= a.rating <= 5 {
      var i :| 0 <= i < |r| && r[i] == a;
      assert admins[i] in admins;
    }
  }

  /** `Partial<Admin>`: `None` is an absent field. */
  datatype AdminPatch = AdminPatch(
    id: Option<string>,
    name: Option<string>,
    age: Option<string>,
    gender: Option<string>,
    address: Option<string>,
    mobile: Option<string>,
    whatsapp: Option<string>,
    batch: Option<string>,
    joinDate: Option<string>,
    currentTrainer: Option<string>,
    latestTrainer: Option<string>,
    facebookLink: Option<string>,
    documents: Option<seq<string>>,
    rating: Option<int>,
    status: Option<AdminStatus>)

  /** The edit form starts from the whole admin (`initialData`). */
  function PatchOfAdmin(a: Admin): AdminPatch {
    AdminPatch(Some(a.id), Some(a.name), Some(a.age), Some(a.gender), Some(a.address), Some(a.mobile),
               a.whatsapp, Some(a.batch), Some(a.joinDate), Some(a.currentTrainer), Some(a.latestTrainer),
               Some(a.facebookLink), Some(a.documents), Some(a.rating), Some(a.status))
  }

  /** The add form's initial state; `today` is the ISO date part of now. */
  function BlankAdminForm(today: string): AdminPatch {
    AdminPatch(None, Some(""), Some(""), Some("Male"), Some(""), Some(""), Some(""), Some(""), Some(today),
               Some(""), Some(""), Some(""), Some([]), None, Some(Active))
  }

  /** The form holds a value for every field an admin must have, apart from
      the id and rating that adding supplies. */
  predicate FormComplete(p: AdminPatch) {
    && p.name.Some? && p.age.Some? && p.gender.Some? && p.address.Some? && p.mobile.Some?
    && p.batch.Some? && p.joinDate.Some? && p.currentTrainer.Some? && p.latestTrainer.Some?
    && p.facebookLink.Some? && p.documents.Some? && p.status.Some?
  }

  /** Both ways the form opens give a complete form. */
  lemma FormsStartComplete(today: string, a: Admin)
    ensures FormComplete(BlankAdminForm(today))
    ensures FormComplete(PatchOfAdmin(a))
  {
  }

  /** Spreading the form over an admin: every field the form holds wins. */
  function MergeAdmin(a: Admin, p: AdminPatch): Admin {
    Admin(p.id.GetOr(a.id), p.name.GetOr(a.name), p.age.GetOr(a.age), p.gender.GetOr(a.gender),
          p.address.GetOr(a.address), p.mobile.GetOr(a.mobile),
          if p.whatsapp.Some? then p.whatsapp else a.whatsapp,
          p.batch.GetOr(a.batch), p.joinDate.GetOr(a.joinDate), p.currentTrainer.GetOr(a.currentTrainer),
          p.latestTrainer.GetOr(a.latestTrainer), p.facebookLink.GetOr(a.facebookLink),
          p.documents.GetOr(a.documents), p.rating.GetOr(a.rating), p.status.GetOr(a.status))
  }

  /** A whole-admin patch replaces the admin; merging the same patch again
      changes nothing more; an absent field keeps the admin's value. */
  lemma MergeAdminLaws(a: Admin, b: Admin, p: AdminPatch)
    ensures MergeAdmin(a, PatchOfAdmin(b)) == b.(whatsapp := if b.whatsapp.Some? then b.whatsapp else a.whatsapp)
    ensures MergeAdmin(MergeAdmin(a, p), p) == MergeAdmin(a, p)
    ensures p.rating.None? ==> MergeAdmin(a, p).rating == a.rating
    ensures p.id.None? ==> MergeAdmin(a, p).id == a.id
  {
  }

  /** A new admin: the form's fields with a fresh id, no rating yet and the Active status. */
  function NewAdmin(newId: string, p: AdminPatch): (r: Admin)
    requires FormComplete(p)
    ensures r.id == newId && r.rating == 0 && r.status == Active
    ensures r.name == p.name.value && r.joinDate == p.joinDate.value && r.documents == p.documents.value
    ensures r.whatsapp == p.whatsapp
    ensures PatchOfAdmin(r) == p.(id := Some(newId), rating := Some(0), status := Some(Active))
  {
    Admin(newId, p.name.value, p.age.value, p.gender.value, p.address.value, p.mobile.value, p.whatsapp,
          p.batch.value, p.joinDate.value, p.currentTrainer.value, p.latestTrainer.value,
          p.facebookLink.value, p.documents.value, 0, Active)
  }

  /** Which path the form's `onSave` takes. */
  datatype AdminSave = EditAdmin(id: string) | AddAdmin(newId: string)

  /** The form's save: an edit merges into the admin being edited, an add appends. */
  function SaveAdmin(admins: seq<Admin>, mode: AdminSave, p: AdminPatch): (r: seq<Admin>)
    requires mode.AddAdmin? ==> FormComplete(p)
    ensures mode.EditAdmin? ==> |r| == |admins| && forall i :: 0 <= i < |admins| ==>
              r[i] == if admins[i].id == mode.id then MergeAdmin(admins[i], p) else admins[i]
    ensures mode.AddAdmin? ==>
              && |r| == |admins| + 1 && r[..|admins|] == admins
              && r[|admins|].id == mode.newId && r[|admins|].rating == 0 && r[|admins|].status == Active
              && r[|admins|] == NewAdmin(mode.newId, p)
  {
    match mode
    case EditAdmin(id) => Seqs.MapIf(admins, (a: Admin) => a.id == id, (a: Admin) => MergeAdmin(a, p))
    case AddAdmin(newId) => admins + [NewAdmin(newId, p)]
  }

  /** Saving an edit form opened on the admin itself, unchanged, changes
      nothing when the id is unique. */
  lemma SaveUnchangedEdit(admins: seq<Admin>, k: int)
    requires 0 <= k < |admins|
    requires forall i :: 0 <= i < |admins| && i != k ==> admins[i].id != admins[k].id
    ensures SaveAdmin(admins, EditAdmin(admins[k].id), PatchOfAdmin(admins[k])) == admins
  {
    var r := SaveAdmin(admins, EditAdmin(admins[k].id), PatchOfAdmin(admins[k]));
    forall i | 0 <= i < |admins| ensures r[i] == admins[i] {
      MergeAdminLaws(admins[i], admins[k], PatchOfAdmin(admins[k]));
    }
  }

  /** The remove button on document `i`: the form's document list without
      the entry at position `i`, and nothing else changed. */
  function RemoveDocument(form: AdminPatch, i: int): (r: AdminPatch)
    ensures r.(documents := form.documents) == form
    ensures form.documents.None? ==> r.documents.None?
    ensures form.documents.Some? && 0 <= i < |form.documents.value| ==>
              r.documents == Some(form.documents.value[..i] + form.documents.value[i + 1..])
    ensures form.documents.Some? && !(0 <= i < |form.documents.value|) ==> r == form
  {
    match form.documents
    case None => form
    case Some(docs) => form.(documents := Some(Seqs.DropIndex(docs, i)))
  }

  /** Upload: the read files go after the form's documents (none when absent). */
  function AppendDocuments(form: AdminPatch, files: seq<string>): (r: AdminPatch)
    ensures r.(documents := form.documents) == form
    ensures r.documents.Some? && |r.documents.value| == |form.documents.GetOr([])| + |files|
    ensures r.documents.value[..|form.documents.GetOr([])|] == form.documents.GetOr([])
    ensures r.documents.value[|form.documents.GetOr([])|..] == files
  {
    form.(documents := Some(form.documents.GetOr([]) + files))
  }

  /** Removing the one document just uploaded restores the form. */
  lemma RemoveUndoesAppend(form: AdminPatch, file: string)
    requires form.documents.Some?
    ensures RemoveDocument(AppendDocuments(form, [file]), |form.documents.value|) == form
  {
    var docs := form.documents.value;
    assert (docs + [file])[..|docs|] == docs;
    assert (docs + [file])[|docs| + 1..] == [];
    var appended := AppendDocuments(form, [file]);
    assert appended.documents == Some(docs + [file]);
    assert Seqs.DropIndex(docs + [file], |docs|) == docs;
    assert appended.(documents := Some(docs)) == form;
  }

  // ----- experience -----

  /** A calendar date as `getFullYear()`, `getMonth()` (0..11) and `getDate()` (1..31). */
  datatype Date = Date(year: int, month: int, day: int)

  predicate ValidDate(d: Date) {
    0 <= d.month < 12 && 1 <= d.day <= 31
  }

  /** The years and months after the single borrow step. */
  datatype Span = Span(years: int, months: int)

  /** The borrow rule: the month difference is negative, or zero with the
      anniversary day not yet reached. */
  predicate Borrows(start: Date, end: Date) {
    var months := end.month - start.month;
    months < 0 || (months == 0 && end.day < start.day)
  }

  function ExperienceSpan(start: Date, end: Date): (s: Span)
    ensures 12 * s.years + s.months == 12 * (end.year - start.year) + (end.month - start.month)
    ensures Borrows(start, end) ==> s.years == end.year - start.year - 1
    ensures !Borrows(start, end) ==> s.years == end.year - start.year
  {
    var years := end.year - start.year;
    var months := end.month - start.month;
    if Borrows(start, end) then Span(years - 1, months + 12) else Span(years, months)
  }

  /** For real dates the month count is in 0..12, and it is 12 exactly in the
      "same month, earlier day" case. */
  lemma ExperienceMonths(start: Date, end: Date)
    requires ValidDate(start) && ValidDate(end)
    ensures 0 <= ExperienceSpan(start, end).months <= 12
    ensures ExperienceSpan(start, end).months == 12 <==> end.month == start.month && end.day < start.day
  {
  }

  /** The label text: `${years}y ` when years > 0, then `${months}m` when
      months > 0, else 'Newly Joined'; 'N/A' when the join date is invalid. */
  function ExperienceLabel(start: Option<Date>, today: Date): string {
    match start
    case None => "N/A"
    case Some(s) =>
      var span := ExperienceSpan(s, today);
      var result := (if span.years > 0 then NatToString(span.years) + "y " else "")
                    + (if span.months > 0 then NatToString(span.months) + "m" else "");
      if result == "" then "Newly Joined" else result
  }

  /** 'Newly Joined' is shown exactly when neither part is positive, and
      'N/A' exactly for an invalid date. */
  lemma ExperienceLabelCases(start: Option<Date>, today: Date)
    ensures ExperienceLabel(start, today) == "N/A" <==> start.None?
    ensures start.Some? ==>
              (ExperienceLabel(start, today) == "Newly Joined"
               <==> ExperienceSpan(start.value, today).years <= 0 && ExperienceSpan(start.value, today).months <= 0)
  {
    if start.Some? {
      var span := ExperienceSpan(start.value, today);
      var shown := ExperienceLabel(start, today);
      if span.years > 0 {
        var y := NatToString(span.years);
        assert shown[0] == y[0];
        assert IsDigit(shown[0]);
      } else if span.months > 0 {
        var m := NatToString(span.months);
        assert shown[0] == m[0];
        assert IsDigit(shown[0]);
      }
    }
  }

  /** Joining on 20 May 2023 and looking on 10 May 2024 shows "12m". */
  lemma TwelveMonthsExample()
    ensures ExperienceLabel(Some(Date(2023, 4, 20)), Date(2024, 4, 10)) == "12m"
  {
    assert NatToString(12) == "12";
  }

  /** `calculateExperience` with the join date already read (or
      found invalid) and today's date given. */
  method CalculateExperience(start: Option<Date>, today: Date) returns (shown: string)
    ensures shown == ExperienceLabel(start, today)
  {
    if start.None? {
      return "N/A";
    }
    var s := start.value;
    var years := today.year - s.year;
    var months := today.month - s.month;
    if months < 0 || (months == 0 && today.day < s.day) {
      years := years - 1;
      months := months + 12;
    }
    assert Span(years, months) == ExperienceSpan(s, today);
    var result := "";
    if years > 0 {
      result := result + NatToString(years) + "y ";
    }
    if months > 0 {
      result := result + NatToString(months) + "m";
    }
    shown := if result == "" then "Newly Joined" else result;
  }
}
