/**
 * The exam admin: the bulk "mark as reviewed" action on attempts and the two
 * computed list columns (questions per exam, options per question).
 */
module ExamAdmin {
  import opened Wrappers
  import opened ExamModels
  import ExamViews

  /** `mark_as_reviewed`: one `update(status='submitted', reviewed_by=<user>)`
      over the selected attempts. Reports how many rows it updated. The
      selection is a queryset, so it only holds existing attempts. */
  function MarkAsReviewed(store: ExamStore, selected: set<AttemptId>, reviewer: UserId): (r: (nat, ExamStore))
    requires selected <= store.attempts.Keys
    ensures r.0 == |selected|
    ensures r.1.attempts.Keys == store.attempts.Keys
    ensures forall id :: id in selected ==>
              && r.1.attempts[id].status == Submitted
              && r.1.attempts[id].reviewedBy == Some(reviewer)
              && r.1.attempts[id].(status := store.attempts[id].status,
                                   reviewedBy := store.attempts[id].reviewedBy) == store.attempts[id]
    ensures forall id :: id in store.attempts && id !in selected ==> r.1.attempts[id] == store.attempts[id]
    ensures r.1 == store.(attempts := r.1.attempts)
    ensures Valid(store) ==> Valid(r.1)
  {
    var attempts := map id | id in store.attempts ::
      if id in selected then store.attempts[id].(status := Submitted, reviewedBy := Some(reviewer))
      else store.attempts[id];
    var s' := store.(attempts := attempts);
    KeyPreservingUpdateKeepsValid(store, attempts);
    (|selected|, s')
  }

  /** Marking the same selection with the same reviewer a second time changes nothing. */
  lemma MarkAsReviewedIdempotent(store: ExamStore, selected: set<AttemptId>, reviewer: UserId)
    requires selected <= store.attempts.Keys
    ensures var once := MarkAsReviewed(store, selected, reviewer).1;
            MarkAsReviewed(once, selected, reviewer).1 == once
  {
    var once := MarkAsReviewed(store, selected, reviewer).1;
    var twice := MarkAsReviewed(once, selected, reviewer).1;
    assert twice.attempts == once.attempts;
  }

  /** A reviewed attempt counts as over: its student can no longer hand in answers. */
  lemma ReviewedAttemptTakesNoAnswers(store: ExamStore, selected: set<AttemptId>, reviewer: UserId,
                                      user: ExamViews.User, id: AttemptId)
    requires selected <= store.attempts.Keys && id in selected
    ensures ExamViews.SubmitAnswer(MarkAsReviewed(store, selected, reviewer).1, user, id).Err?
  {
  }

  /** The keys of the entries of `m` whose value `keep` accepts. */
  function KeysWhere<K, V>(m: map<K, V>, keep: V -> bool): set<K> {
    set k | k in m && keep(m[k])
  }

  /** The number of entries of `m` whose value `keep` accepts: a queryset `count()`. */
  method CountWhere<K, V>(m: map<K, V>, keep: V -> bool) returns (n: nat)
    ensures n == |KeysWhere(m, keep)|
  {
    n := 0;
    var rest := m.Keys;
    while rest != {}
      invariant rest <= m.Keys
      invariant n + |set k | k in rest && keep(m[k])| == |set k | k in m && keep(m[k])|
      decreases |rest|
    {
      var k :| k in rest;
      var before := set j | j in rest && keep(m[j]);
      var after := set j | j in rest - {k} && keep(m[j]);
      if keep(m[k]) {
        assert before == after + {k};
        n := n + 1;
      } else {
        assert before == after;
      }
      rest := rest - {k};
    }
  }

  /** `ExamAdmin.questions_count`: the number of questions that belong to the exam. */
  method QuestionsCount(store: ExamStore, exam: ExamId) returns (n: nat)
    ensures n == |QuestionsOf(store, exam)|
  {
    var belongs := (q: Question) => q.exam == exam;
    n := CountWhere(store.questions, belongs);
    assert KeysWhere(store.questions, belongs) == QuestionsOf(store, exam);
  }

  /** The options column of the question list. */
  datatype OptionsCell = Count(n: nat) | NotApplicable

  /** `QuestionAdmin.options_count`: the number of options of a multiple-choice
      question, and "N/A" for every other type. */
  method OptionsCount(store: ExamStore, question: QuestionId) returns (cell: OptionsCell)
    requires question in store.questions
    ensures store.questions[question].questionType == Mcq ==> cell == Count(|ChoicesOf(store, question)|)
    ensures store.questions[question].questionType != Mcq ==> cell == NotApplicable
  {
    if store.questions[question].questionType == Mcq {
      var belongs := (c: Choice) => c.question == question;
      var n := CountWhere(store.choices, belongs);
      assert KeysWhere(store.choices, belongs) == ChoicesOf(store, question);
      cell := Count(n);
    } else {
      cell := NotApplicable;
    }
  }
}
