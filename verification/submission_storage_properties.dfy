/** Properties of the submission store across calls: grading keeps the
    submission itself, repeated grading changes nothing more, and duplicate
    submissions are accepted. */
module SubmissionStorageProperties {
  import opened Outcomes
  import opened Seqs
  import opened SubmissionStorage

  /** The patch with no keys, `{}`. */
  const EmptyPatch := SubmissionPatch(None, None, None, None, None, None, None, None, None, None, None)

  /** The patch a grader sends: `{ grade, feedback }`. */
  function GradePatch(grade: real, feedback: string): SubmissionPatch
  {
    EmptyPatch.(grade := Some(Some(grade)), feedback := Some(Some(feedback)))
  }

  /** No stamp is added: an empty update changes nothing at all. */
  lemma EmptyPatchIsIdentity(s: Submission)
    ensures MergeSubmission(s, EmptyPatch) == s
  {
  }

  /** Grading sets the grade and the feedback and keeps everything else,
      the submission time included. */
  lemma GradingKeepsTheRest(s: Submission, grade: real, feedback: string)
    ensures MergeSubmission(s, GradePatch(grade, feedback)) == s.(grade := Some(grade), feedback := Some(feedback))
  {
  }

  /** Merging the same patch twice is merging it once. */
  lemma MergeSubmissionIdempotent(s: Submission, p: SubmissionPatch)
    ensures MergeSubmission(MergeSubmission(s, p), p) == MergeSubmission(s, p)
  {
  }

  /** Sending the same update again, when it does not move the id, finds the
      same submission and writes nothing new. */
  lemma UpdateSubmissionIdempotent(all: seq<Submission>, id: string, patch: SubmissionPatch)
    requires patch.id.None? || patch.id == Some(id)
    ensures var first := UpdateSubmission(all, id, patch);
      UpdateSubmission(first.next, id, patch) == Step(first.next, first.out)
  {
    var first := UpdateSubmission(all, id, patch);
    if FirstIndexOf(all, SubmissionId, id).Some? {
      var i := FirstIndexOf(all, SubmissionId, id).value;
      assert forall j :: 0 <= j < i ==> SubmissionId(first.next[j]) != id by {
        assert forall j :: 0 <= j < i ==> first.next[j] == all[j];
      }
      assert SubmissionId(first.next[i]) == id;
      assert FirstIndexOf(first.next, SubmissionId, id) == Some(i);
      assert first.next[i := first.out.value] == first.next;
    }
  }

  /** A student may submit twice for the same assignment: both submissions
      are stored and both are listed for the assignment. */
  lemma SecondSubmissionAccepted(all: seq<Submission>, input: SubmissionInput,
                                 id1: string, id2: string, now1: int, now2: int)
    ensures var first := CreateSubmission(all, input, id1, now1);
      var second := CreateSubmission(first.next, input, id2, now2);
      var listed := ListSubmissionsByAssignment(second.next, input.assignmentId);
      && |second.next| == |all| + 2
      && second.next[|all|].studentId == second.next[|all| + 1].studentId == input.studentId
      && second.next[|all|].assignmentId == second.next[|all| + 1].assignmentId == input.assignmentId
      && first.out in listed && second.out in listed
  {
    var first := CreateSubmission(all, input, id1, now1);
    var second := CreateSubmission(first.next, input, id2, now2);
    assert second.next[|all|] == first.out;
    assert second.next[|all| + 1] == second.out;
  }
}
