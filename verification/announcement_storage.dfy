/** The announcement store (src/lib/announcementStorage.ts): course
    announcements under the `learnflow_announcements` key; an absent key
    reads as the empty collection. */
module AnnouncementStorage {
  import opened Outcomes
  import opened Seqs
  import opened Sorting

  /** `Announcement`; times are milliseconds. */
  datatype Announcement = Announcement(
    id: string,
    courseId: string,
    authorId: string,
    authorName: string,
    content: string,
    createdAt: int,
    updatedAt: Option<int>)

  /** `CreateAnnouncementInput`. */
  datatype AnnouncementInput = AnnouncementInput(
    courseId: string,
    authorId: string,
    authorName: string,
    content: string)

  /** `UpdateAnnouncementInput`. */
  datatype AnnouncementEdit = AnnouncementEdit(id: string, content: string)

  const AnnouncementNotFoundMessage := "Announcement not found"

  function AnnouncementId(a: Announcement): string
  {
    a.id
  }

  /** The sort key: `new Date(a.createdAt).getTime()`. */
  function AnnouncementTime(a: Announcement): int
  {
    a.createdAt
  }

  /** The input a stored announcement was created from. */
  function InputOf(a: Announcement): AnnouncementInput
  {
    AnnouncementInput(a.courseId, a.authorId, a.authorName, a.content)
  }

  /** The announcements of one course, in storage order. */
  function CourseAnnouncements(all: seq<Announcement>, courseId: string): (r: seq<Announcement>)
    ensures IsSubsequence(r, all)
    ensures forall a :: multiset(r)[a] == if a.courseId == courseId then multiset(all)[a] else 0
  {
    var inCourse := (a: Announcement) => a.courseId == courseId;
    FilterFacts(all, inCourse);
    Filter(all, inCourse)
  }

  /** `listAnnouncementsByCourse`: exactly the course's announcements, each
      as often as stored, newest first. */
  function ListAnnouncementsByCourse(all: seq<Announcement>, courseId: string): (r: seq<Announcement>)
    ensures NewestFirst(r, AnnouncementTime)
    ensures forall a :: multiset(r)[a] == if a.courseId == courseId then multiset(all)[a] else 0
    ensures forall a :: a in r <==> a in all && a.courseId == courseId
  {
    var r := SortNewestFirst(CourseAnnouncements(all, courseId), AnnouncementTime);
    assert forall a :: a in r <==> multiset(r)[a] > 0;
    assert forall a :: a in all <==> multiset(all)[a] > 0;
    r
  }

  /** `createAnnouncement`: appends a record built from the four input
      properties, the supplied id and creation time, and no `updatedAt`. */
  function CreateAnnouncement(all: seq<Announcement>, input: AnnouncementInput, id: string, now: int)
    : (r: Step<seq<Announcement>, Announcement>)
    ensures r.next == all + [r.out]
    ensures InputOf(r.out) == input
    ensures r.out.id == id && r.out.createdAt == now && r.out.updatedAt.None?
  {
    var item := Announcement(id, input.courseId, input.authorId, input.authorName, input.content, now, None);
    Step(all + [item], item)
  }

  /** The record `updateAnnouncement` writes back. */
  function EditAnnouncement(a: Announcement, content: string, now: int): (r: Announcement)
    ensures r.content == content && r.updatedAt == Some(now)
    ensures r.id == a.id && r.courseId == a.courseId && r.authorId == a.authorId
    ensures r.authorName == a.authorName && r.createdAt == a.createdAt
  {
    a.(content := content, updatedAt := Some(now))
  }

  /** `updateAnnouncement`: rewrites the content of the first announcement
      with that id and stamps it; fails with "Announcement not found",
      writing nothing, when no announcement has the id. */
  function UpdateAnnouncement(all: seq<Announcement>, edit: AnnouncementEdit, now: int)
    : (r: Step<seq<Announcement>, Result<Announcement>>)
    ensures FirstIndexOf(all, AnnouncementId, edit.id).None? <==>
      r == Step(all, Failure(AnnouncementNotFoundMessage))
    ensures FirstIndexOf(all, AnnouncementId, edit.id).Some? ==>
      var i := FirstIndexOf(all, AnnouncementId, edit.id).value;
      && r.out == Success(EditAnnouncement(all[i], edit.content, now))
      && |r.next| == |all|
      && r.next[i] == r.out.value
      && forall j :: 0 <= j < |all| && j != i ==> r.next[j] == all[j]
  {
    UpdateFirst(all, AnnouncementId, edit.id,
                (a: Announcement) => EditAnnouncement(a, edit.content, now), AnnouncementNotFoundMessage)
  }

  /** `deleteAnnouncement`: every announcement with that id goes, the rest
      keep their order; an unknown id changes nothing. */
  function DeleteAnnouncement(all: seq<Announcement>, id: string): (r: seq<Announcement>)
    ensures IsSubsequence(r, all)
    ensures forall a :: a in r <==> a in all && a.id != id
    ensures forall a :: multiset(r)[a] == if a.id != id then multiset(all)[a] else 0
    ensures (forall j :: 0 <= j < |all| ==> all[j].id != id) ==> r == all
  {
    RemoveAll(all, AnnouncementId, id)
  }
}
