/** The question game: the question on screen and the history of accepted
    questions, newest first and at most five long. The text service's reply
    is an input. */
module CoupleQa {
  import opened Base
  import opened Generated

  /** The question the game opens with. */
  const FirstQuestion: string := "Qual \U{00E9} uma coisinha que sempre te faz sorrir?"

  const HistoryLimit: nat := 5

  datatype Qa = Qa(question: string, history: seq<string>)

  const InitialQa: Qa := Qa(FirstQuestion, [FirstQuestion])

  /** The history is never empty, never longer than the limit, and starts
      with the question on screen. */
  ghost predicate Inv(qa: Qa) {
    1 <= |qa.history| <= HistoryLimit && qa.history[0] == qa.question
  }

  /** `Array.prototype.slice(0, n)`: at most the first `n` elements. */
  function Take<T>(s: seq<T>, n: nat): (r: seq<T>)
    ensures |r| == if |s| <= n then |s| else n
    ensures r == s[..|r|]
  {
    if |s| <= n then s else s[..n]
  }

  /** `handleNewQuestion`: a usable reply becomes the question and the head
      of the history, which keeps its five newest entries; any other reply
      changes nothing. */
  function NewQuestion(qa: Qa, reply: string): (r: Qa)
    ensures !Usable(reply) ==> r == qa
    ensures Usable(reply) ==>
      && r.question == reply
      && 1 <= |r.history| <= HistoryLimit
      && r.history[0] == reply
      && r.history[1..] == Take(qa.history, HistoryLimit - 1)
  {
    if Usable(reply) then
      var h := Take([reply] + qa.history, HistoryLimit);
      assert h[1..] == Take(qa.history, HistoryLimit - 1);
      Qa(reply, h)
    else
      qa
  }

  /** The game starts in a good state and every reply keeps it there. */
  lemma NewQuestionKeepsInv(qa: Qa, reply: string)
    requires Inv(qa)
    ensures Inv(InitialQa)
    ensures Inv(NewQuestion(qa, reply))
  {
  }

  /** The list under "recent questions": the history without its head, shown
      only when there is more than the head. */
  function RecentQuestions(qa: Qa): (r: Option<seq<string>>)
    requires Inv(qa)
    ensures r.Some? <==> |qa.history| > 1
    ensures r.Some? ==> |r.value| < HistoryLimit && [qa.question] + r.value == qa.history
  {
    if |qa.history| > 1 then Some(qa.history[1..]) else None
  }

  /** After an accepted reply, the recent list is the previous history cut to
      four entries, in order. */
  lemma RecentAfterAccept(qa: Qa, reply: string)
    requires Inv(qa) && Usable(reply)
    ensures RecentQuestions(NewQuestion(qa, reply)) == Some(Take(qa.history, HistoryLimit - 1))
  {
  }

  /** Every history entry was accepted by the filter, or is the opening
      question. */
  ghost predicate OnlyAccepted(qa: Qa) {
    forall i :: 0 <= i < |qa.history| ==> qa.history[i] == FirstQuestion || Usable(qa.history[i])
  }

  lemma {:induction false} OnlyAcceptedReachable(replies: seq<string>)
    ensures var qa := Play(InitialQa, replies);
            Inv(qa) && OnlyAccepted(qa)
  {
    if replies != [] {
      var before := Play(InitialQa, replies[..|replies| - 1]);
      OnlyAcceptedReachable(replies[..|replies| - 1]);
      var qa := NewQuestion(before, replies[|replies| - 1]);
      forall i | 0 <= i < |qa.history|
        ensures qa.history[i] == FirstQuestion || Usable(qa.history[i])
      {
        if i > 0 && qa != before {
          assert qa.history[i] == before.history[i - 1];
        }
      }
    }
  }

  /** The state after a sequence of replies, oldest first. */
  function Play(qa: Qa, replies: seq<string>): Qa
    decreases |replies|
  {
    if replies == [] then qa else NewQuestion(Play(qa, replies[..|replies| - 1]), replies[|replies| - 1])
  }

  /** The filter is case-sensitive, so the in-browser service's failure
      reply, which starts with a capital letter, is accepted as a question. */
  lemma FallbackBecomesQuestion(qa: Qa)
    ensures NewQuestion(qa, QuestionFallback).question == QuestionFallback
    ensures NewQuestion(qa, QuestionFallback).history == Take([QuestionFallback] + qa.history, HistoryLimit)
  {
    QuestionFallbackPassesFilter();
  }
}
