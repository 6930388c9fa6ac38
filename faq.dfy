/** The FAQ accordion: each question has an answer that is open or closed
    (`active`) and an icon that is turned or not (`rotated`). A click on a
    question toggles its own answer and icon and closes all the others. */
module Faq {

  /** At most one entry is set. */
  predicate AtMostOne(flags: seq<bool>) {
    forall j, k :: 0 <= j < |flags| && 0 <= k < |flags| && flags[j] && flags[k] ==> j == k
  }

  class Accordion {
    var answers: array<bool>  // answer i has the class 'active'
    var icons: array<bool>    // icon i has the class 'rotated'

    /** Answers and icons come in pairs, one per question, held apart. */
    ghost predicate Valid()
      reads this
    {
      answers.Length == icons.Length && answers != icons
    }

    constructor (initialAnswers: seq<bool>, initialIcons: seq<bool>)
      requires |initialAnswers| == |initialIcons|
      ensures Valid() && fresh(answers) && fresh(icons)
      ensures answers[..] == initialAnswers && icons[..] == initialIcons
    {
      answers := new bool[|initialAnswers|](j requires 0 <= j < |initialAnswers| => initialAnswers[j]);
      icons := new bool[|initialIcons|](j requires 0 <= j < |initialIcons| => initialIcons[j]);
    }

    /** A click on question `i`: toggle its answer and icon, then clear
        every other answer and icon. */
    method Click(i: nat)
      requires Valid() && i < answers.Length
      modifies answers, icons
      ensures Valid()
      ensures answers[i] == !old(answers[i]) && icons[i] == !old(icons[i])
      ensures forall j :: 0 <= j < answers.Length && j != i ==> !answers[j] && !icons[j]
      ensures AtMostOne(answers[..]) && AtMostOne(icons[..])
      ensures old(answers[..]) == old(icons[..]) ==> answers[..] == icons[..]
    {
      answers[i] := !answers[i];
      icons[i] := !icons[i];
      var index := 0;
      while index < answers.Length
        invariant 0 <= index <= answers.Length
        invariant answers[i] == !old(answers[i]) && icons[i] == !old(icons[i])
        invariant forall j :: 0 <= j < index && j != i ==> !answers[j] && !icons[j]
      {
        if index != i {
          answers[index] := false;
          icons[index] := false;
        }
        index := index + 1;
      }
      if old(answers[..]) == old(icons[..]) {
        assert old(answers[i]) == old(answers[..])[i] == old(icons[..])[i] == old(icons[i]);
      }
    }
  }
}
