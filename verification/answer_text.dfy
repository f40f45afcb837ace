/** The answer summary and status colour of a feature or report: the nested
    helpers `FormatAnswers` and `GetStatusColor` of
    `SetAnswersAndReportsOnFeatures` (card.py), over a topic's questions. */
module AnswerText {
  import opened Common
  import opened PyText
  import opened CrowdReports

  /** A choice of a CHOICE question; missing text fields are `""`. */
  datatype Choice = Choice(id: Answer, labelText: string, title: string, color: Option<string>)

  /** A topic question; `kind` is its `type` field (`""` when missing). */
  datatype Question = Question(id: string, title: string, kind: string, choices: seq<Choice>)

  datatype Topic = Topic(questions: seq<Question>)

  /** The position of the last question with the given id. */
  function LastQuestionIndex(qs: seq<Question>, id: string): (r: Option<nat>)
    ensures r.None? <==> forall i :: 0 <= i < |qs| ==> qs[i].id != id
    ensures r.Some? ==> (r.value < |qs| && qs[r.value].id == id
                         && forall j :: r.value < j < |qs| ==> qs[j].id != id)
  {
    if qs == [] then None
    else if qs[|qs| - 1].id == id then Some(|qs| - 1)
    else
      assert forall i :: 0 <= i < |qs| - 1 ==> qs[..|qs| - 1][i] == qs[i];
      LastQuestionIndex(qs[..|qs| - 1], id)
  }

  /** `questions_by_id.get(id)`: the dictionary comprehension keeps the last
      question with that id. */
  function QuestionById(qs: seq<Question>, id: string): (r: Option<Question>)
    ensures r.None? <==> forall i :: 0 <= i < |qs| ==> qs[i].id != id
    ensures r.Some? ==> r.value in qs && r.value.id == id
  {
    match LastQuestionIndex(qs, id)
    case None => None
    case Some(i) => Some(qs[i])
  }

  /** The last choice in `cs` with the given id. */
  function LastChoice(cs: seq<Choice>, id: Answer): (r: Option<Choice>)
    ensures r.None? <==> forall i :: 0 <= i < |cs| ==> cs[i].id != id
    ensures r.Some? ==> r.value in cs && r.value.id == id
    ensures r.Some? ==> LastWithId(cs, id, r.value)
  {
    if cs == [] then None
    else if cs[|cs| - 1].id == id then Some(cs[|cs| - 1])
    else
      assert forall i :: 0 <= i < |cs| - 1 ==> cs[..|cs| - 1][i] == cs[i];
      var r := LastChoice(cs[..|cs| - 1], id);
      if r.Some? then
        var k :| 0 <= k < |cs| - 1 && cs[..|cs| - 1][k] == r.value && NoChoiceAfter(cs[..|cs| - 1], id, k);
        NoChoiceAfterExtend(cs, id, k);
        assert cs[k] == r.value && NoChoiceAfter(cs, id, k);
        r
      else r
  }

  lemma NoChoiceAfterExtend(cs: seq<Choice>, id: Answer, k: nat)
    requires 0 <= k < |cs| - 1 && cs[|cs| - 1].id != id
    requires NoChoiceAfter(cs[..|cs| - 1], id, k)
    ensures NoChoiceAfter(cs, id, k) && cs[..|cs| - 1][k] == cs[k]
  {
    forall j | k < j < |cs| ensures cs[j].id != id {
      if j < |cs| - 1 {
        assert cs[..|cs| - 1][j] == cs[j];
      }
    }
  }

  /** `c` sits at a position of `cs` after which no choice has the id. */
  predicate LastWithId(cs: seq<Choice>, id: Answer, c: Choice)
  {
    exists k :: 0 <= k < |cs| && cs[k] == c && NoChoiceAfter(cs, id, k)
  }

  /** `r` is the last choice with the answer in some question with the
      question id, and no later question with that id has a match. */
  predicate LastMatch(qs: seq<Question>, qid: string, answer: Answer, r: Option<Choice>)
  {
    exists i :: 0 <= i < |qs| && qs[i].id == qid && LastChoice(qs[i].choices, answer) == r
                && NoMatchAfter(qs, qid, answer, i)
  }

  /** No choice after position `k` has the given id. */
  predicate NoChoiceAfter(cs: seq<Choice>, id: Answer, k: nat)
  {
    forall j :: k < j < |cs| ==> cs[j].id != id
  }

  /** No question after position `i` with the given id has a choice with
      the given answer. */
  predicate NoMatchAfter(qs: seq<Question>, qid: string, answer: Answer, i: nat)
  {
    forall j :: i < j < |qs| && qs[j].id == qid ==> LastChoice(qs[j].choices, answer).None?
  }

  /** `choices_by_id.get((qid, answer))`: the comprehension walks every
      question and every choice, so the last matching pair is kept. */
  function ChoiceById(qs: seq<Question>, qid: string, answer: Answer): (r: Option<Choice>)
    ensures r.None? <==> forall i :: 0 <= i < |qs| && qs[i].id == qid ==> LastChoice(qs[i].choices, answer).None?
    ensures r.Some? ==> (r.value.id == answer
                         && exists i :: 0 <= i < |qs| && qs[i].id == qid && r.value in qs[i].choices)
  {
    if qs == [] then None
    else
      var last := qs[|qs| - 1];
      assert forall i :: 0 <= i < |qs| - 1 ==> qs[..|qs| - 1][i] == qs[i];
      if last.id == qid && LastChoice(last.choices, answer).Some? then LastChoice(last.choices, answer)
      else ChoiceById(qs[..|qs| - 1], qid, answer)
  }

  /** The choice found is the last match: it is the last choice with the
      answer in some question with the id, and no later question with that
      id has a matching choice. */
  lemma {:induction false} ChoiceByIdIsLastMatch(qs: seq<Question>, qid: string, answer: Answer)
    ensures ChoiceById(qs, qid, answer).Some? ==> LastMatch(qs, qid, answer, ChoiceById(qs, qid, answer))
  {
    if qs != [] {
      var last := qs[|qs| - 1];
      var front := qs[..|qs| - 1];
      if last.id == qid && LastChoice(last.choices, answer).Some? {
        assert NoMatchAfter(qs, qid, answer, |qs| - 1);
      } else {
        ChoiceByIdIsLastMatch(front, qid, answer);
        var r := ChoiceById(front, qid, answer);
        if r.Some? {
          var i :| 0 <= i < |front| && front[i].id == qid && LastChoice(front[i].choices, answer) == r
                   && NoMatchAfter(front, qid, answer, i);
          NoMatchAfterExtend(qs, qid, answer, i);
        }
      }
    }
  }

  lemma NoMatchAfterExtend(qs: seq<Question>, qid: string, answer: Answer, i: nat)
    requires 0 <= i < |qs| - 1
    requires qs[|qs| - 1].id != qid || LastChoice(qs[|qs| - 1].choices, answer).None?
    requires NoMatchAfter(qs[..|qs| - 1], qid, answer, i)
    ensures NoMatchAfter(qs, qid, answer, i) && qs[..|qs| - 1][i] == qs[i]
  {
    forall j | i < j < |qs| && qs[j].id == qid ensures LastChoice(qs[j].choices, answer).None? {
      if j < |qs| - 1 {
        assert qs[..|qs| - 1][j] == qs[j];
      }
    }
  }

  /** Two choices of one question with the same id: the later one wins. */
  lemma LaterChoiceWins()
    ensures var red := Choice(Text("a"), "", "", Some("red"));
            var blue := Choice(Text("a"), "", "", Some("blue"));
            ChoiceById([Question("q", "", "CHOICE", [red, blue])], "q", Text("a")) == Some(blue)
  {
    var red := Choice(Text("a"), "", "", Some("red"));
    var blue := Choice(Text("a"), "", "", Some("blue"));
    assert [red, blue][..1] == [red];
    assert [Question("q", "", "CHOICE", [red, blue])][..0] == [];
  }

  /** `answers.get(qid)`. */
  function Get(answers: map<string, Answer>, qid: string): Answer {
    if qid in answers then answers[qid] else Null
  }

  /** Python `str(answer)`. */
  function AnswerString(a: Answer): string {
    match a
    case Text(s) => s
    case Num(n) => IntToString(n)
    case Null => "None"
  }

  /** The `"title: "` prefix, or nothing when the question has no title. */
  function Prefix(q: Question): string {
    if q.title != "" then q.title + ": " else ""
  }

  predicate EndsWithFullStop(s: string) {
    |s| >= 1 && s[|s| - 1] == '.'
  }

  /** What one question id adds to the summary, if anything. */
  function Piece(topic: Topic, answers: map<string, Answer>, qid: string): (r: Option<string>)
    ensures r.Some? ==> EndsWithFullStop(r.value)
  {
    match QuestionById(topic.questions, qid)
    case None => None
    case Some(q) =>
      var answer := Get(answers, qid);
      if q.kind == "CHOICE" then
        match ChoiceById(topic.questions, qid, answer)
        case None => None
        case Some(c) => Some((if c.labelText != "" then c.labelText else Prefix(q) + c.title) + ".")
      else if NonEmpty(answer) then Some(Prefix(q) + AnswerString(answer) + ".")
      else None
  }

  /** The list `answer_texts`, in the order of `qids`. */
  function Pieces(topic: Topic, answers: map<string, Answer>, qids: seq<string>): (r: seq<string>)
    ensures |r| <= |qids|
    ensures forall i :: 0 <= i < |r| ==> EndsWithFullStop(r[i])
  {
    if qids == [] then []
    else
      var rest := Pieces(topic, answers, qids[1..]);
      match Piece(topic, answers, qids[0])
      case Some(p) => FullStopsCons(p, rest); [p] + rest
      case None => rest
  }

  lemma FullStopsCons(p: string, rest: seq<string>)
    requires EndsWithFullStop(p)
    requires forall i :: 0 <= i < |rest| ==> EndsWithFullStop(rest[i])
    ensures forall i :: 0 <= i < |rest| + 1 ==> EndsWithFullStop(([p] + rest)[i])
  {
  }

  /** FormatAnswers: the pieces joined by single spaces. The summary is
      empty exactly when no question id contributes, and otherwise ends with
      a full stop. */
  function FormatAnswers(topic: Topic, qids: seq<string>, answers: map<string, Answer>): (r: string)
    ensures r == "" <==> forall i :: 0 <= i < |qids| ==> Piece(topic, answers, qids[i]).None?
    ensures r != "" ==> EndsWithFullStop(r)
  {
    var ps := Pieces(topic, answers, qids);
    PiecesEmpty(topic, answers, qids);
    if ps != [] then
      JoinEndsWithFullStop(" ", ps);
      Join(" ", ps)
    else Join(" ", ps)
  }

  /** No piece at all exactly when no question id contributes one. */
  lemma {:induction false} PiecesEmpty(topic: Topic, answers: map<string, Answer>, qids: seq<string>)
    ensures Pieces(topic, answers, qids) == [] <==>
              forall i :: 0 <= i < |qids| ==> Piece(topic, answers, qids[i]).None?
  {
    if qids != [] {
      PiecesEmpty(topic, answers, qids[1..]);
      assert forall i :: 1 <= i < |qids| ==> qids[i] == qids[1..][i - 1];
    }
  }

  /** Joining pieces that end with a full stop gives text ending with one. */
  lemma {:induction false} JoinEndsWithFullStop(sep: string, parts: seq<string>)
    requires parts != [] && forall i :: 0 <= i < |parts| ==> EndsWithFullStop(parts[i])
    ensures EndsWithFullStop(Join(sep, parts))
  {
    if |parts| > 1 {
      var last := parts[|parts| - 1];
      var j := Join(sep, parts[..|parts| - 1]) + sep + last;
      assert j[|j| - 1] == last[|last| - 1];
    }
  }

  /** `qids and qids[0] or ''`: the first question id, or `""` for none. */
  function FirstQid(qids: seq<string>): string {
    if qids == [] then "" else qids[0]
  }

  /** GetStatusColor: the colour of the chosen choice of the first question
      id, when that question is a CHOICE question; `None` otherwise. */
  function GetStatusColor(topic: Topic, qids: seq<string>, answers: map<string, Answer>): (r: Option<string>)
    ensures r.Some? ==>
      var qid := FirstQid(qids);
      QuestionById(topic.questions, qid).Some? && QuestionById(topic.questions, qid).value.kind == "CHOICE" &&
      exists i :: 0 <= i < |topic.questions| && topic.questions[i].id == qid
                  && exists c :: c in topic.questions[i].choices && c.id == Get(answers, qid) && c.color == r
    ensures r.Some? ==>
      var c := ChoiceById(topic.questions, FirstQid(qids), Get(answers, FirstQid(qids)));
      c.Some? && c.value.color == r
  {
    var qid := FirstQid(qids);
    match QuestionById(topic.questions, qid)
    case None => None
    case Some(q) =>
      if q.kind == "CHOICE" then
        match ChoiceById(topic.questions, qid, Get(answers, qid))
        case Some(c) => c.color
        case None => None
      else None
  }

  lemma {:induction false} PiecesAppend(topic: Topic, answers: map<string, Answer>, a: seq<string>, b: seq<string>)
    ensures Pieces(topic, answers, a + b) == Pieces(topic, answers, a) + Pieces(topic, answers, b)
  {
    if a == [] {
      assert a + b == b;
    } else {
      assert (a + b)[1..] == a[1..] + b;
      PiecesAppend(topic, answers, a[1..], b);
    }
  }

  /** Question ids that name no question of the topic contribute nothing. */
  lemma UnknownQuestionIgnored(topic: Topic, before: seq<string>, qid: string, after: seq<string>,
                               answers: map<string, Answer>)
    requires QuestionById(topic.questions, qid).None?
    ensures FormatAnswers(topic, before + [qid] + after, answers) == FormatAnswers(topic, before + after, answers)
  {
    PiecesAppend(topic, answers, before + [qid], after);
    PiecesAppend(topic, answers, before, [qid]);
    PiecesAppend(topic, answers, before, after);
    PiecesSingle(topic, answers, qid);
    assert Pieces(topic, answers, before) + [] == Pieces(topic, answers, before);
  }

  lemma PiecesSingle(topic: Topic, answers: map<string, Answer>, qid: string)
    ensures Pieces(topic, answers, [qid])
         == match Piece(topic, answers, qid) case None => [] case Some(p) => [p]
  {
    assert [qid][1..] == [];
  }

  /** A question id that contributes nothing leaves the summary unchanged. */
  lemma FormatAnswersAppendNothing(topic: Topic, qids: seq<string>, qid: string, answers: map<string, Answer>)
    requires Piece(topic, answers, qid).None?
    ensures FormatAnswers(topic, qids + [qid], answers) == FormatAnswers(topic, qids, answers)
  {
    PiecesAppend(topic, answers, qids, [qid]);
    PiecesSingle(topic, answers, qid);
    assert Pieces(topic, answers, qids) + [] == Pieces(topic, answers, qids);
  }

  /** A contributing question id appends its piece after a single space (or
      is the whole summary when it is the first piece). */
  lemma FormatAnswersAppendPiece(topic: Topic, qids: seq<string>, qid: string, answers: map<string, Answer>, p: string)
    requires Piece(topic, answers, qid) == Some(p)
    ensures FormatAnswers(topic, qids + [qid], answers)
         == if Pieces(topic, answers, qids) == [] then p else FormatAnswers(topic, qids, answers) + " " + p
  {
    PiecesAppend(topic, answers, qids, [qid]);
    PiecesSingle(topic, answers, qid);
    if Pieces(topic, answers, qids) == [] {
      assert [] + [p] == [p];
    } else {
      JoinAppend(" ", Pieces(topic, answers, qids), [p]);
    }
  }

  /** A CHOICE question contributes exactly when the answer names one of its
      choices; the piece is the choice's label, or else the question's
      `"title: "` prefix and the choice's title, followed by a period. */
  lemma ChoiceQuestionPiece(topic: Topic, answers: map<string, Answer>, qid: string, q: Question)
    requires QuestionById(topic.questions, qid) == Some(q) && q.kind == "CHOICE"
    ensures Piece(topic, answers, qid).Some?
        <==> exists i :: 0 <= i < |topic.questions| && topic.questions[i].id == qid
                         && LastChoice(topic.questions[i].choices, Get(answers, qid)).Some?
    ensures Piece(topic, answers, qid).Some? ==>
      exists c :: c in Flatten(topic.questions, qid) && c.id == Get(answers, qid)
                  && Piece(topic, answers, qid).value
                     == (if c.labelText != "" then c.labelText else Prefix(q) + c.title) + "."
    ensures Piece(topic, answers, qid).Some? ==>
      var c := ChoiceById(topic.questions, qid, Get(answers, qid));
      c.Some? && c.value.id == Get(answers, qid) &&
      Piece(topic, answers, qid).value
        == (if c.value.labelText != "" then c.value.labelText else Prefix(q) + c.value.title) + "."
  {
    match ChoiceById(topic.questions, qid, Get(answers, qid))
    case None =>
    case Some(c) =>
      var i :| 0 <= i < |topic.questions| && topic.questions[i].id == qid && c in topic.questions[i].choices;
      FlattenHas(topic.questions, qid, i, c);
  }

  /** The choices of every question with the given id. */
  function Flatten(qs: seq<Question>, qid: string): seq<Choice> {
    if qs == [] then []
    else (if qs[0].id == qid then qs[0].choices else []) + Flatten(qs[1..], qid)
  }

  lemma {:induction false} FlattenHas(qs: seq<Question>, qid: string, i: nat, c: Choice)
    requires i < |qs| && qs[i].id == qid && c in qs[i].choices
    ensures c in Flatten(qs, qid)
  {
    if i > 0 {
      FlattenHas(qs[1..], qid, i - 1, c);
    }
  }

  /** Any other question contributes `"title: " + str(answer) + "."` exactly
      when its answer is non-empty; a zero answer is shown. */
  lemma OtherQuestionPiece(topic: Topic, answers: map<string, Answer>, qid: string, q: Question)
    requires QuestionById(topic.questions, qid) == Some(q) && q.kind != "CHOICE"
    ensures Piece(topic, answers, qid).Some? <==> Get(answers, qid) != Null && Get(answers, qid) != Text("")
    ensures Piece(topic, answers, qid).Some? ==>
      Piece(topic, answers, qid).value == Prefix(q) + AnswerString(Get(answers, qid)) + "."
    ensures Get(answers, qid) == Num(0) ==> Piece(topic, answers, qid) == Some(Prefix(q) + "0.")
  {
    NonEmptyMeansPresent(Get(answers, qid));
    if Get(answers, qid) == Num(0) {
      assert IntToString(0) == "0";
      assert Prefix(q) + "0" + "." == Prefix(q) + "0.";
    }
  }

  /** The status colour is decided by the last question whose id is the
      first question id: none unless it is a CHOICE question, and then the
      colour of the choice the answer names, if any. */
  lemma StatusColorOfLastQuestion(topic: Topic, qids: seq<string>, answers: map<string, Answer>, i: nat)
    requires LastQuestionIndex(topic.questions, FirstQid(qids)) == Some(i)
    ensures i < |topic.questions|
    ensures topic.questions[i].kind != "CHOICE" ==> GetStatusColor(topic, qids, answers) == None
    ensures topic.questions[i].kind == "CHOICE" ==>
              var qid := FirstQid(qids);
              GetStatusColor(topic, qids, answers) ==
                (match ChoiceById(topic.questions, qid, Get(answers, qid))
                 case Some(c) => c.color
                 case None => None)
  {
  }

  /** A first question id that names no question gives no colour; with no
      question ids at all, the id looked up is `""`. */
  lemma StatusColorUnknownQuestion(topic: Topic, qids: seq<string>, answers: map<string, Answer>)
    requires forall i :: 0 <= i < |topic.questions| ==> topic.questions[i].id != FirstQid(qids)
    ensures GetStatusColor(topic, qids, answers) == None
    ensures qids == [] ==> FirstQid(qids) == ""
  {
  }

  /** The status colour depends only on the first question id and the answer
      to it. */
  lemma StatusColorUsesFirstQuestionOnly(topic: Topic, qids: seq<string>, qids': seq<string>,
                                         answers: map<string, Answer>, answers': map<string, Answer>)
    requires qids != [] && qids' != [] && qids[0] == qids'[0]
    requires Get(answers, qids[0]) == Get(answers', qids[0])
    ensures GetStatusColor(topic, qids, answers) == GetStatusColor(topic, qids', answers')
  {
  }
}
