/** The tab switcher: a row of tab buttons and a set of panes. A click on
    a button deactivates every button and pane, then activates the clicked
    button and the pane it names. */
module Tabs {

  /** Exactly the entry `k` is set. */
  predicate OnlyAt(flags: seq<bool>, k: nat) {
    forall j :: 0 <= j < |flags| ==> (flags[j] <==> j == k)
  }

  class TabSwitcher {
    var buttons: array<bool>  // button i has the class 'active'
    var panes: array<bool>    // pane i has the class 'active'

    ghost predicate Valid()
      reads this
    {
      buttons != panes
    }

    constructor (initialButtons: seq<bool>, initialPanes: seq<bool>)
      ensures Valid() && fresh(buttons) && fresh(panes)
      ensures buttons[..] == initialButtons && panes[..] == initialPanes
    {
      buttons := new bool[|initialButtons|](j requires 0 <= j < |initialButtons| => initialButtons[j]);
      panes := new bool[|initialPanes|](j requires 0 <= j < |initialPanes| => initialPanes[j]);
    }

    /** A click on button `clicked` whose target is pane `target`. */
    method Select(clicked: nat, target: nat)
      requires Valid() && clicked < buttons.Length && target < panes.Length
      modifies buttons, panes
      ensures Valid()
      ensures OnlyAt(buttons[..], clicked) && OnlyAt(panes[..], target)
    {
      var b := 0;
      while b < buttons.Length
        invariant 0 <= b <= buttons.Length
        invariant forall j :: 0 <= j < b ==> !buttons[j]
      {
        buttons[b] := false;
        b := b + 1;
      }
      var p := 0;
      while p < panes.Length
        invariant 0 <= p <= panes.Length
        invariant forall j :: 0 <= j < buttons.Length ==> !buttons[j]
        invariant forall j :: 0 <= j < p ==> !panes[j]
      {
        panes[p] := false;
        p := p + 1;
      }
      buttons[clicked] := true;
      panes[target] := true;
    }
  }
}
