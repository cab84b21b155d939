/** Properties of the announcement store across calls: how the listing
    orders ties, where a new announcement appears, and how editing and
    deletion interact. */
module AnnouncementStorageProperties {
  import opened Outcomes
  import opened Seqs
  import opened Sorting
  import opened AnnouncementStorage

  /** Announcements posted at the same instant are listed in the order they
      were stored: the listing is the stable sort of the course's
      announcements. */
  lemma ListingKeepsTiesInStorageOrder(all: seq<Announcement>, courseId: string, t: int)
    ensures var listed := ListAnnouncementsByCourse(all, courseId);
      && Stamped(listed, AnnouncementTime, t) == Stamped(CourseAnnouncements(all, courseId), AnnouncementTime, t)
      && IsSubsequence(Stamped(listed, AnnouncementTime, t), all)
  {
    var course := CourseAnnouncements(all, courseId);
    SortIsStable(course, AnnouncementTime, t);
    StampedIsSubsequence(course, AnnouncementTime, t);
    SubsequenceTransitive(Stamped(course, AnnouncementTime, t), course, all);
  }

  /** An announcement posted later than every announcement of its course
      heads that course's listing. */
  lemma NewAnnouncementListedFirst(all: seq<Announcement>, input: AnnouncementInput, id: string, now: int)
    requires forall j :: 0 <= j < |all| && all[j].courseId == input.courseId ==> all[j].createdAt < now
    ensures var created := CreateAnnouncement(all, input, id, now);
      var listed := ListAnnouncementsByCourse(created.next, input.courseId);
      |listed| > 0 && listed[0] == created.out
  {
    var created := CreateAnnouncement(all, input, id, now);
    var listed := ListAnnouncementsByCourse(created.next, input.courseId);
    assert created.out in created.next;
    assert created.out in listed;
    var head := listed[0];
    assert head in listed;
    assert head in created.next;
    var k :| 0 <= k < |listed| && listed[k] == created.out;
    assert AnnouncementTime(head) >= AnnouncementTime(created.out);
  }

  /** Editing twice keeps the last content and the last stamp. */
  lemma EditTwice(a: Announcement, first: string, second: string, now1: int, now2: int)
    ensures EditAnnouncement(EditAnnouncement(a, first, now1), second, now2) == EditAnnouncement(a, second, now2)
  {
  }

  /** An edit keeps the announcement in its course's listing. */
  lemma EditedAnnouncementStaysListed(all: seq<Announcement>, edit: AnnouncementEdit, now: int)
    requires UpdateAnnouncement(all, edit, now).out.Success?
    ensures var r := UpdateAnnouncement(all, edit, now);
      r.out.value in ListAnnouncementsByCourse(r.next, r.out.value.courseId)
  {
    var r := UpdateAnnouncement(all, edit, now);
    var i := FirstIndexOf(all, AnnouncementId, edit.id).value;
    assert r.next[i] == r.out.value;
  }

  /** Once deleted, an announcement can no longer be edited. */
  lemma DeleteThenEditFails(all: seq<Announcement>, id: string, content: string, now: int)
    ensures var rest := DeleteAnnouncement(all, id);
      UpdateAnnouncement(rest, AnnouncementEdit(id, content), now) == Step(rest, Failure(AnnouncementNotFoundMessage))
  {
    RemoveAllIdempotent(all, AnnouncementId, id);
  }

  /** Deleting twice is deleting once. */
  lemma DeleteAnnouncementIdempotent(all: seq<Announcement>, id: string)
    ensures DeleteAnnouncement(DeleteAnnouncement(all, id), id) == DeleteAnnouncement(all, id)
  {
    RemoveAllIdempotent(all, AnnouncementId, id);
  }
}
