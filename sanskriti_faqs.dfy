/**
 * `_extract_faqs`: the question/answer scanner of the Sanskriti IAS source.
 * The first `h2` reading `FAQS` (in any letter case) opens the FAQ block; the
 * scan runs over the following siblings up to the next `h2`/`h4`. A paragraph
 * holding a `strong` element and a `Q` among its first five characters opens a
 * question; the other non-empty paragraphs are answer text, joined by spaces.
 */
module SanskritiFaqs {
  import opened Wrappers
  import opened Text
  import opened Dom
  import opened Documents
  import SanskritiContent

  /** The `h2` that opens the FAQ block. */
  predicate IsFaqHeading(n: Node) {
    IsHeading(n, 2) && SanskritiContent.IsFaqsHeading(n.text)
  }

  /**
   * A `p` holding a `strong` element with a `Q` among its first five
   * characters; `QuestionTestAsWritten` shows this is the source's test
   * `'Q' in text[:5] or 'Q.' in text[:5]`.
   */
  predicate IsQuestion(n: Node) {
    n.Para? && n.strong.Some? && 'Q' in Take(n.text, 5)
  }

  /** Scanner state: finished pairs, `current_question`, `current_answer`. */
  datatype FaqScan = FaqScan(done: seq<Faq>, question: Option<string>, answer: seq<string>)

  const FaqStart := FaqScan([], None, [])

  /** Save the open question, if any, with its answer paragraphs joined by spaces. */
  function Close(s: FaqScan): seq<Faq> {
    match s.question
    case Some(q) => s.done + [Faq(q, Join(s.answer, " "))]
    case None => s.done
  }

  function FaqStep(s: FaqScan, n: Node): FaqScan {
    if IsQuestion(n) then FaqScan(Close(s), Some(n.text), [])
    else if n.Para? && n.text != [] then s.(answer := s.answer + [n.text])
    else s
  }

  /** The pairs the scan yields from state `s` over the siblings `ns[i..]`. */
  function FaqRun(s: FaqScan, ns: seq<Node>, i: nat): seq<Faq>
    requires i <= |ns|
    decreases |ns| - i
  {
    if i == |ns| then Close(s) else FaqRun(FaqStep(s, ns[i]), ns, i + 1)
  }

  /** What `_extract_faqs` returns: nothing without a `FAQS` heading. */
  function Faqs(nodes: seq<Node>): seq<Faq> {
    match FindFirst(nodes, IsFaqHeading)
    case None => []
    case Some(i) => FaqRun(FaqStart, Region(nodes, i), 0)
  }

  /** `_extract_faqs`: find the `FAQS` heading, then scan its siblings. */
  method ExtractFaqs(nodes: seq<Node>) returns (faqs: seq<Faq>)
    ensures faqs == Faqs(nodes)
  {
    var i := 0;
    while i < |nodes| && !IsFaqHeading(nodes[i])
      invariant 0 <= i <= |nodes|
      invariant forall k :: 0 <= k < i ==> !IsFaqHeading(nodes[k])
    {
      i := i + 1;
    }
    if i == |nodes| {
      return [];
    }
    faqs := ScanFaqs(nodes, i);
  }

  /** The question/answer scan over the siblings of the heading `nodes[i]`. */
  method ScanFaqs(nodes: seq<Node>, i: nat) returns (faqs: seq<Faq>)
    requires i < |nodes|
    ensures faqs == FaqRun(FaqStart, Region(nodes, i), 0)
  {
    ghost var region := Region(nodes, i);
    ghost var end := ScanEnd(nodes, i + 1);
    var current := i + 1;
    var question: Option<string> := None;
    var answer: seq<string> := [];
    faqs := [];
    while current < |nodes| && !IsBoundary(nodes[current])
      invariant i + 1 <= current <= end
      invariant ScanEnd(nodes, current) == end
      invariant FaqRun(FaqScan(faqs, question, answer), region, current - (i + 1)) == FaqRun(FaqStart, region, 0)
      decreases |nodes| - current
    {
      var n := nodes[current];
      assert region[current - (i + 1)] == n;
      if IsQuestion(n) {
        if question.Some? {
          faqs := faqs + [Faq(question.value, Join(answer, " "))];
        }
        question := Some(n.text);
        answer := [];
      } else if n.Para? && n.text != [] {
        answer := answer + [n.text];
      }
      current := current + 1;
    }
    assert current == end;
    if question.Some? {
      faqs := faqs + [Faq(question.value, Join(answer, " "))];
    }
  }

  // ---------------------------------------------------------------------
  // A reference definition: each question with the answers that follow it
  // ---------------------------------------------------------------------

  /** The position of the first question at or after `i`, or `|ns|`. */
  function QuestionAt(ns: seq<Node>, i: nat): (q: nat)
    requires i <= |ns|
    ensures i <= q <= |ns|
    ensures q < |ns| ==> ns[q].Para?
    decreases |ns| - i
  {
    if i == |ns| then i else if IsQuestion(ns[i]) then i else QuestionAt(ns, i + 1)
  }

  /** `QuestionAt` stops at the first question, having passed none. */
  lemma {:induction false} QuestionAtIsFirst(ns: seq<Node>, i: nat)
    requires i <= |ns|
    ensures forall k :: i <= k < QuestionAt(ns, i) ==> !IsQuestion(ns[k])
    ensures QuestionAt(ns, i) < |ns| ==> IsQuestion(ns[QuestionAt(ns, i)])
    decreases |ns| - i
  {
    if i < |ns| && !IsQuestion(ns[i]) {
      QuestionAtIsFirst(ns, i + 1);
    }
  }

  /** The answer text a sibling contributes: a non-empty, non-question paragraph. */
  function AnswerOf(n: Node): seq<string> {
    if n.Para? && !IsQuestion(n) && n.text != [] then [n.text] else []
  }

  /** The answer texts of the siblings `ns[i..j]`. */
  function AnswersBetween(ns: seq<Node>, i: nat, j: nat): seq<string>
    requires i <= j <= |ns|
    decreases j - i
  {
    if i == j then [] else AnswerOf(ns[i]) + AnswersBetween(ns, i + 1, j)
  }

  /**
   * The pairs from position `i` on: siblings before the next question are
   * dropped; every question is paired with the non-empty paragraphs up to the
   * question after it.
   */
  function ReferenceFrom(ns: seq<Node>, i: nat): seq<Faq>
    requires i <= |ns|
    decreases |ns| - i
  {
    var q := QuestionAt(ns, i);
    if q == |ns| then []
    else
      var e := QuestionAt(ns, q + 1);
      [Faq(ns[q].text, Join(AnswersBetween(ns, q + 1, e), " "))] + ReferenceFrom(ns, e)
  }

  function FaqReference(ns: seq<Node>): seq<Faq> {
    ReferenceFrom(ns, 0)
  }

  lemma {:induction false} RunMatchesReference(s: FaqScan, ns: seq<Node>, i: nat)
    requires i <= |ns|
    ensures FaqRun(s, ns, i)
         == Close(FaqScan(s.done, s.question, s.answer + AnswersBetween(ns, i, QuestionAt(ns, i))))
            + ReferenceFrom(ns, QuestionAt(ns, i))
    decreases |ns| - i, 1
  {
    if i == |ns| {
      assert s.answer + [] == s.answer;
    } else if IsQuestion(ns[i]) {
      QuestionCase(s, ns, i);
    } else {
      AnswerCase(s, ns, i);
    }
  }

  lemma {:induction false} QuestionStepRun(s: FaqScan, ns: seq<Node>, i: nat)
    requires i < |ns| && IsQuestion(ns[i])
    ensures FaqRun(s, ns, i) == FaqRun(FaqScan(Close(s), Some(ns[i].text), []), ns, i + 1)
  {
  }

  lemma {:induction false} QuestionAtQuestion(s: FaqScan, ns: seq<Node>, i: nat)
    requires i < |ns| && IsQuestion(ns[i])
    ensures QuestionAt(ns, i) == i
    ensures FaqScan(s.done, s.question, s.answer + AnswersBetween(ns, i, i)) == s
  {
    assert s.answer + [] == s.answer;
  }

  lemma {:induction false} ReferenceAtQuestion(ns: seq<Node>, i: nat)
    requires i < |ns| && IsQuestion(ns[i])
    ensures ReferenceFrom(ns, i)
         == [Faq(ns[i].text, Join(AnswersBetween(ns, i + 1, QuestionAt(ns, i + 1)), " "))]
            + ReferenceFrom(ns, QuestionAt(ns, i + 1))
  {
    QuestionAtQuestion(FaqStart, ns, i);
  }

  /** After a question opens with no answer yet, the scan follows the reference. */
  lemma {:induction false} OpenQuestionRun(c: seq<Faq>, q: string, ns: seq<Node>, j: nat)
    requires j <= |ns|
    ensures FaqRun(FaqScan(c, Some(q), []), ns, j)
         == c + [Faq(q, Join(AnswersBetween(ns, j, QuestionAt(ns, j)), " "))] + ReferenceFrom(ns, QuestionAt(ns, j))
    decreases |ns| - j, 2
  {
    var answers := AnswersBetween(ns, j, QuestionAt(ns, j));
    RunMatchesReference(FaqScan(c, Some(q), []), ns, j);
    assert [] + answers == answers;
  }

  lemma {:induction false} QuestionCase(s: FaqScan, ns: seq<Node>, i: nat)
    requires i < |ns| && IsQuestion(ns[i])
    ensures FaqRun(s, ns, i)
         == Close(FaqScan(s.done, s.question, s.answer + AnswersBetween(ns, i, QuestionAt(ns, i))))
            + ReferenceFrom(ns, QuestionAt(ns, i))
    decreases |ns| - i, 0
  {
    var e := QuestionAt(ns, i + 1);
    var pair := Faq(ns[i].text, Join(AnswersBetween(ns, i + 1, e), " "));
    var later := ReferenceFrom(ns, e);
    QuestionAtQuestion(s, ns, i);
    ReferenceAtQuestion(ns, i);
    QuestionStepRun(s, ns, i);
    assert FaqRun(FaqScan(Close(s), Some(ns[i].text), []), ns, i + 1) == Close(s) + ([pair] + later) by {
      OpenQuestionRun(Close(s), ns[i].text, ns, i + 1);
    }
    assert Close(FaqScan(s.done, s.question, s.answer + AnswersBetween(ns, i, QuestionAt(ns, i)))) == Close(s);
    assert ReferenceFrom(ns, QuestionAt(ns, i)) == [pair] + later;
  }

  lemma {:induction false} AnswerStepReference(ns: seq<Node>, i: nat)
    requires i < |ns| && !IsQuestion(ns[i])
    ensures QuestionAt(ns, i) == QuestionAt(ns, i + 1)
    ensures AnswersBetween(ns, i, QuestionAt(ns, i)) == AnswerOf(ns[i]) + AnswersBetween(ns, i + 1, QuestionAt(ns, i))
  {
  }

  lemma {:induction false} AnswerStepRun(s: FaqScan, ns: seq<Node>, i: nat)
    requires i < |ns| && !IsQuestion(ns[i])
    ensures FaqRun(s, ns, i) == FaqRun(s.(answer := s.answer + AnswerOf(ns[i])), ns, i + 1)
  {
    assert s.answer + [] == s.answer;
  }

  lemma {:induction false} AnswerCase(s: FaqScan, ns: seq<Node>, i: nat)
    requires i < |ns| && !IsQuestion(ns[i])
    ensures FaqRun(s, ns, i)
         == Close(FaqScan(s.done, s.question, s.answer + AnswersBetween(ns, i, QuestionAt(ns, i))))
            + ReferenceFrom(ns, QuestionAt(ns, i))
    decreases |ns| - i, 0
  {
    var q := QuestionAt(ns, i);
    var t := s.(answer := s.answer + AnswerOf(ns[i]));
    AnswerStepReference(ns, i);
    AnswerStepRun(s, ns, i);
    assert FaqRun(t, ns, i + 1)
        == Close(FaqScan(t.done, t.question, t.answer + AnswersBetween(ns, i + 1, q))) + ReferenceFrom(ns, q)
    by {
      RunMatchesReference(t, ns, i + 1);
    }
    assert t.answer + AnswersBetween(ns, i + 1, q) == s.answer + AnswersBetween(ns, i, q);
  }

  /** The scan over a FAQ block yields exactly the reference pairing. */
  lemma FaqsMatchReference(region: seq<Node>)
    ensures FaqRun(FaqStart, region, 0) == FaqReference(region)
  {
    var q := QuestionAt(region, 0);
    RunMatchesReference(FaqStart, region, 0);
    assert Close(FaqScan([], None, [] + AnswersBetween(region, 0, q))) == [];
    if q < |region| {
      QuestionAtIsFirst(region, 0);
      assert QuestionAt(region, q) == q;
      assert ReferenceFrom(region, 0) == ReferenceFrom(region, q);
    } else {
      assert ReferenceFrom(region, q) == [];
    }
  }

  /** The number of question paragraphs among `ns[i..]`. */
  function CountQuestions(ns: seq<Node>, i: nat): nat
    requires i <= |ns|
    decreases |ns| - i
  {
    if i == |ns| then 0 else (if IsQuestion(ns[i]) then 1 else 0) + CountQuestions(ns, i + 1)
  }

  lemma {:induction false} RunCount(s: FaqScan, ns: seq<Node>, i: nat)
    requires i <= |ns|
    ensures |FaqRun(s, ns, i)| == |Close(s)| + CountQuestions(ns, i)
    decreases |ns| - i
  {
    if i < |ns| {
      RunCount(FaqStep(s, ns[i]), ns, i + 1);
    }
  }

  /** One pair per question paragraph of the FAQ block, and none without a `FAQS` heading. */
  lemma OnePairPerQuestion(nodes: seq<Node>)
    ensures FindFirst(nodes, IsFaqHeading).None? ==> Faqs(nodes) == []
    ensures FindFirst(nodes, IsFaqHeading).Some? ==>
              |Faqs(nodes)| == CountQuestions(Region(nodes, FindFirst(nodes, IsFaqHeading).value), 0)
  {
    if FindFirst(nodes, IsFaqHeading).Some? {
      RunCount(FaqStart, Region(nodes, FindFirst(nodes, IsFaqHeading).value), 0);
    }
  }

  /** Substring search for a one-character pattern is membership of that character. */
  lemma {:induction false} ContainsOneChar(t: string, c: char)
    ensures Contains(t, [c]) <==> c in t
    decreases |t|
  {
    if t != [] {
      ContainsOneChar(t[1..], c);
      assert t == [t[0]] + t[1..];
    }
  }

  /** The character test of `IsQuestion` is `'Q' in text[:5] or 'Q.' in text[:5]`; the second never decides. */
  lemma QuestionTestAsWritten(text: string)
    ensures 'Q' in Take(text, 5) <==> Contains(Take(text, 5), "Q") || Contains(Take(text, 5), "Q.")
  {
    ContainsOneChar(Take(text, 5), 'Q');
    if Contains(Take(text, 5), "Q.") {
      assert "Q." == "Q" + ".";
      ContainsPrefix(Take(text, 5), "Q", ".");
    }
  }
}
