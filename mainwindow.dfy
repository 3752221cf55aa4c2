/** The simulator window's automaton data, its transition grid, and the two
    operations that work on them: filling the grid and running an input. */
module Window {
  import opened Dfa

  class Simulator {
    // The automaton as loaded from the definition file.
    var states: seq<string>
    var alphabet: seq<string>
    var transitionFunction: map<string, map<string, string>>
    var startState: string
    var endStates: seq<string>
    // The texts of the transition grid's cells, row by row.
    var grid: seq<seq<string>>

    /** A window whose automaton has been loaded and whose grid is not built yet. */
    constructor (states: seq<string>, alphabet: seq<string>,
                 transitionFunction: map<string, map<string, string>>,
                 startState: string, endStates: seq<string>)
      ensures this.states == states && this.alphabet == alphabet
      ensures this.transitionFunction == transitionFunction
      ensures this.startState == startState && this.endStates == endStates
      ensures grid == []
    {
      this.states := states;
      this.alphabet := alphabet;
      this.transitionFunction := transitionFunction;
      this.startState := startState;
      this.endStates := endStates;
      grid := [];
    }

    /** The grid shows the loaded transition function. */
    ghost predicate Valid()
      reads this
    {
      grid == GridOf(states, alphabet, transitionFunction)
    }

    /** Builds the grid cell by cell: row i, column j holds the transition for
        (states[i], alphabet[j]), or the placeholder when there is none. */
    method PopulateTable()
      modifies this`grid
      ensures Valid()
    {
      // a fresh model with |states| rows and |alphabet| columns of empty cells
      var rows, columns := |states|, |alphabet|;
      grid := seq(rows, _ => seq(columns, _ => ""));
      for i := 0 to |states|
        invariant Shaped(grid, |states|, |alphabet|)
        invariant forall r, c :: 0 <= r < i && 0 <= c < |alphabet| ==>
          grid[r][c] == Cell(transitionFunction, states[r], alphabet[c])
      {
        var state := states[i];
        for j := 0 to |alphabet|
          invariant Shaped(grid, |states|, |alphabet|)
          invariant forall r, c :: 0 <= r < i && 0 <= c < |alphabet| ==>
            grid[r][c] == Cell(transitionFunction, states[r], alphabet[c])
          invariant forall c :: 0 <= c < j ==> grid[i][c] == Cell(transitionFunction, state, alphabet[c])
        {
          var symbol := alphabet[j];
          if state in transitionFunction && symbol in transitionFunction[state] {
            grid := grid[i := grid[i][j := transitionFunction[state][symbol]]];
          } else {
            grid := grid[i := grid[i][j := Lambda]];
          }
        }
      }
      ghost var built := GridOf(states, alphabet, transitionFunction);
      assert forall r | 0 <= r < |states| :: grid[r] == built[r];
    }

    /** Runs `command` from the start state, reading each next state out of the
        grid, and returns the verdict and the log. After `PopulateTable`,
        `Valid()` gives grid == GridOf(states, alphabet, transitionFunction),
        so the lemmas of DfaProperties (TraceShape, LiveRunVerdict,
        FirstFailureVerdict, LiveIffConsumed) describe this run. */
    method Run(command: string) returns (verdict: Verdict, log: seq<Event>)
      requires Shaped(grid, |states|, |alphabet|)
      ensures (verdict, log) == Simulate(states, alphabet, grid, endStates, startState, command)
    {
      ghost var whole := Simulate(states, alphabet, grid, endStates, startState, command);
      var remaining := command;
      var state := startState;
      log := [];
      while |remaining| > 0
        invariant whole.0 == Simulate(states, alphabet, grid, endStates, state, remaining).0
        invariant whole.1 == log + Simulate(states, alphabet, grid, endStates, state, remaining).1
        decreases |remaining|
      {
        var i := IndexOf(states, state);
        var j := IndexOf(alphabet, [remaining[0]]);
        ghost var here := Simulate(states, alphabet, grid, endStates, state, remaining);
        log := log + [Configuration(state, remaining)];
        if i == -1 {
          assert here == (Rejected(UnknownState), [Configuration(state, remaining)]);
          assert whole == (Rejected(UnknownState), log);
          return Rejected(UnknownState), log;
        }
        if j == -1 {
          assert here == (Rejected(SymbolNotInAlphabet), [Configuration(state, remaining)]);
          assert whole == (Rejected(SymbolNotInAlphabet), log);
          return Rejected(SymbolNotInAlphabet), log;
        }
        var symbol := remaining[0];
        var next := grid[i][j];
        ghost var after := Simulate(states, alphabet, grid, endStates, next, remaining[1..]);
        assert here == (after.0, [Configuration(state, remaining), Transition(state, symbol, next, Shown(remaining[1..]))] + after.1);
        remaining := remaining[1..];
        log := log + [Transition(state, symbol, next, Shown(remaining))];
        state := next;
      }
      assert Simulate(states, alphabet, grid, endStates, state, remaining) ==
        (if state in endStates then Accepted else Rejected(NotAccepting), []);
      assert log + [] == log;
      if |remaining| > 0 {
        verdict := Rejected(SymbolsLeftOver);
      } else if state !in endStates {
        verdict := Rejected(NotAccepting);
      } else {
        verdict := Accepted;
      }
    }
  }
}
