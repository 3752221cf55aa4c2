/** The data of the DFA simulator and the specification functions that the
    imperative members of the Window module are proved against.

    State names, alphabet entries and the input are strings (a QString is
    modelled as a sequence of characters, one character per QChar). */
module Dfa {

  /** The placeholder the transition grid shows for a missing transition.
      Reading it back out of the grid makes it the next state of the run. */
  const Lambda: string := "λ"

  /** Why a run was rejected: the four red messages of the run loop. */
  datatype RejectReason =
    | UnknownState         // the current state is not listed in the states
    | SymbolNotInAlphabet  // the next input symbol is not listed in the alphabet
    | SymbolsLeftOver      // the loop ended with input left over
    | NotAccepting         // the input is consumed but the state is not an end state

  /** The final coloured message of a run. */
  datatype Verdict = Accepted | Rejected(reason: RejectReason)

  /** One green line of the run log. */
  datatype Event =
    | Configuration(state: string, remaining: string)
      // "(state, remaining)", written at the top of every iteration
    | Transition(from: string, symbol: char, to: string, remaining: string)
      // "δ(from,symbol) -> new state to, remaining input", after a step;
      // the remaining input is shown as "λ" when it is empty

  /** The position of the first occurrence of x in xs, or -1 (QList::indexOf). */
  function IndexOf(xs: seq<string>, x: string): (r: int)
    ensures -1 <= r < |xs|
    ensures r == -1 <==> x !in xs
    ensures 0 <= r ==> xs[r] == x && forall k :: 0 <= k < r ==> xs[k] != x
  {
    if |xs| == 0 then -1
    else if xs[0] == x then 0
    else
      var r := IndexOf(xs[1..], x);
      if r == -1 then -1 else r + 1
  }

  /** The text of one grid cell: the transition for (state, symbol) when the
      transition function has it, the placeholder otherwise. */
  function Cell(transitionFunction: map<string, map<string, string>>, state: string, symbol: string): (text: string)
    // a present transition is shown as it is
    ensures state in transitionFunction && symbol in transitionFunction[state] ==>
      text == transitionFunction[state][symbol]
    // any other text is the placeholder: a cell never shows a state that is
    // not the target of some transition of the state's row
    ensures text == Lambda ||
      (state in transitionFunction && text in transitionFunction[state].Values)
  {
    if state in transitionFunction && symbol in transitionFunction[state]
    then transitionFunction[state][symbol]
    else Lambda
  }

  /** The grid has the given number of rows, each with the given number of cells. */
  predicate Shaped(grid: seq<seq<string>>, rows: nat, columns: nat)
  {
    |grid| == rows && forall i :: 0 <= i < |grid| ==> |grid[i]| == columns
  }

  /** The transition grid: one row per listed state, one column per listed
      symbol, in the order of the lists. */
  function GridOf(states: seq<string>, alphabet: seq<string>,
                  transitionFunction: map<string, map<string, string>>): (grid: seq<seq<string>>)
    ensures Shaped(grid, |states|, |alphabet|)
  {
    seq(|states|, i requires 0 <= i < |states| =>
      seq(|alphabet|, j requires 0 <= j < |alphabet| =>
        Cell(transitionFunction, states[i], alphabet[j])))
  }

  /** How the log shows the remaining input after a step. */
  function Shown(remaining: string): (text: string)
    // the log never shows an empty remaining input
    ensures |text| > 0
    ensures |remaining| > 0 ==> text == remaining
    // only an empty input and an input that is literally the placeholder look alike
    ensures text == Lambda <==> remaining == [] || remaining == Lambda
  {
    if |remaining| > 0 then remaining else Lambda
  }

  /** The run loop as a function: the verdict and the log of a run that is at
      `state` with `command` still to read, given the grid it reads the next
      states from. */
  function Simulate(states: seq<string>, alphabet: seq<string>, grid: seq<seq<string>>,
                    endStates: seq<string>, state: string, command: string): (r: (Verdict, seq<Event>))
    requires Shaped(grid, |states|, |alphabet|)
    // the check after the loop for symbols left over never fires
    ensures r.0 != Rejected(SymbolsLeftOver)
    // every iteration writes at most two lines and consumes one symbol
    ensures |r.1| <= 2 * |command|
    // exactly the runs that leave the loop normally consume the whole input
    ensures (r.0 == Accepted || r.0 == Rejected(NotAccepting)) <==> |r.1| == 2 * |command|
    // a rejection by a check ends the log with the configuration it rejected,
    // whose input is not consumed
    ensures r.0 == Rejected(UnknownState) ==>
      |r.1| % 2 == 1 && r.1[|r.1| - 1].Configuration? &&
      r.1[|r.1| - 1].state !in states && |r.1[|r.1| - 1].remaining| > 0
    ensures r.0 == Rejected(SymbolNotInAlphabet) ==>
      |r.1| % 2 == 1 && r.1[|r.1| - 1].Configuration? &&
      r.1[|r.1| - 1].state in states && |r.1[|r.1| - 1].remaining| > 0 &&
      [r.1[|r.1| - 1].remaining[0]] !in alphabet
    decreases |command|
  {
    if |command| == 0 then
      (if state in endStates then Accepted else Rejected(NotAccepting), [])
    else
      var configuration := Configuration(state, command);
      var i := IndexOf(states, state);
      var j := IndexOf(alphabet, [command[0]]);
      if i == -1 then (Rejected(UnknownState), [configuration])
      else if j == -1 then (Rejected(SymbolNotInAlphabet), [configuration])
      else
        var next := grid[i][j];
        var rest := command[1..];
        var (verdict, log) := Simulate(states, alphabet, grid, endStates, next, rest);
        (verdict, [configuration, Transition(state, command[0], next, Shown(rest))] + log)
  }
}
