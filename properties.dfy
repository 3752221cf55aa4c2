/** What the transition grid and the run loop promise, stated against an
    independent reference: the extended transition function of the loaded
    transition function (with the placeholder for a missing transition) and
    the two checks every step must pass. */
module DfaProperties {
  import opened Dfa

  /** The state reached from `state` by reading `w`, taking the placeholder as
      the next state wherever the transition function has no entry. */
  function Reached(transitionFunction: map<string, map<string, string>>, state: string, w: string): string
    decreases |w|
  {
    if |w| == 0 then state
    else Reached(transitionFunction, Cell(transitionFunction, state, [w[0]]), w[1..])
  }

  /** Both checks of one iteration pass: the state is listed and the symbol is. */
  predicate Passes(states: seq<string>, alphabet: seq<string>, state: string, symbol: char)
  {
    state in states && [symbol] in alphabet
  }

  /** Every symbol of `w`, read from `state`, passes both checks. */
  predicate Live(states: seq<string>, alphabet: seq<string>,
                 transitionFunction: map<string, map<string, string>>, state: string, w: string)
  {
    forall k :: 0 <= k < |w| ==> Passes(states, alphabet, Reached(transitionFunction, state, w[..k]), w[k])
  }

  /** The n-th line of the log of a run of `w` from `state`: a configuration
      for every even n, the step that follows it for every odd n. */
  function ExpectedEvent(transitionFunction: map<string, map<string, string>>, state: string,
                         w: string, n: nat): Event
    requires n < 2 * |w|
  {
    var k := n / 2;
    var here := Reached(transitionFunction, state, w[..k]);
    if n % 2 == 0 then Configuration(here, w[k..])
    else Transition(here, w[k], Reached(transitionFunction, state, w[..k + 1]), Shown(w[k + 1..]))
  }

  // ---------------------------------------------------------------------
  // The transition grid

  /** Cell (i, j) is the transition for (states[i], alphabet[j]) when the
      transition function has one, and the placeholder otherwise. */
  lemma GridCell(states: seq<string>, alphabet: seq<string>,
                 transitionFunction: map<string, map<string, string>>, i: nat, j: nat)
    requires i < |states| && j < |alphabet|
    ensures states[i] in transitionFunction && alphabet[j] in transitionFunction[states[i]] ==>
      GridOf(states, alphabet, transitionFunction)[i][j] == transitionFunction[states[i]][alphabet[j]]
    ensures !(states[i] in transitionFunction && alphabet[j] in transitionFunction[states[i]]) ==>
      GridOf(states, alphabet, transitionFunction)[i][j] == Lambda
  {
  }

  /** The transition function cut down to the listed states and symbols. */
  function Restrict(transitionFunction: map<string, map<string, string>>,
                    states: seq<string>, alphabet: seq<string>): (r: map<string, map<string, string>>)
    ensures forall state :: state in r <==> state in transitionFunction && state in states
    ensures forall state, symbol :: state in r && symbol in r[state] ==>
      symbol in alphabet && symbol in transitionFunction[state] &&
      r[state][symbol] == transitionFunction[state][symbol]
  {
    map state | state in transitionFunction && state in states ::
      map symbol | symbol in transitionFunction[state] && symbol in alphabet ::
        transitionFunction[state][symbol]
  }

  /** Entries of the transition function for an unlisted state or symbol
      never reach the grid. */
  lemma GridIgnoresUnlisted(states: seq<string>, alphabet: seq<string>,
                            transitionFunction: map<string, map<string, string>>)
    ensures GridOf(states, alphabet, transitionFunction) ==
            GridOf(states, alphabet, Restrict(transitionFunction, states, alphabet))
  {
    var full := GridOf(states, alphabet, transitionFunction);
    var cut := GridOf(states, alphabet, Restrict(transitionFunction, states, alphabet));
    forall i | 0 <= i < |states|
      ensures full[i] == cut[i]
    {
      forall j | 0 <= j < |alphabet|
        ensures full[i][j] == cut[i][j]
      {
        var restricted := Restrict(transitionFunction, states, alphabet);
        assert states[i] in restricted <==> states[i] in transitionFunction;
        if states[i] in restricted {
          assert alphabet[j] in restricted[states[i]] <==> alphabet[j] in transitionFunction[states[i]];
        }
      }
    }
  }

  /** The run reads its next state from the cell of the first row named after
      the state and the first column named after the symbol: that cell holds
      the transition for the pair, or the placeholder when there is none. */
  lemma NextStateIsCell(states: seq<string>, alphabet: seq<string>,
                        transitionFunction: map<string, map<string, string>>, state: string, symbol: char)
    requires Passes(states, alphabet, state, symbol)
    ensures GridOf(states, alphabet, transitionFunction)
              [IndexOf(states, state)][IndexOf(alphabet, [symbol])] ==
            Cell(transitionFunction, state, [symbol])
    ensures !(state in transitionFunction && [symbol] in transitionFunction[state]) ==>
            GridOf(states, alphabet, transitionFunction)
              [IndexOf(states, state)][IndexOf(alphabet, [symbol])] == Lambda
  {
  }

  // ---------------------------------------------------------------------
  // The run

  /** One iteration that passes both checks, as the reference sees it. */
  lemma ReachedStep(transitionFunction: map<string, map<string, string>>, state: string, w: string, k: nat)
    requires 1 <= k <= |w|
    ensures Reached(transitionFunction, state, w[..k]) ==
            Reached(transitionFunction, Cell(transitionFunction, state, [w[0]]), w[1..][..k - 1])
  {
    var u := w[..k];
    assert u[0] == w[0];
    assert u[1..] == w[1..][..k - 1];
  }

  /** A word is live from a state iff its first symbol passes there and the
      rest is live from the next state. */
  lemma LiveStep(states: seq<string>, alphabet: seq<string>,
                 transitionFunction: map<string, map<string, string>>, state: string, w: string)
    requires |w| > 0
    ensures Live(states, alphabet, transitionFunction, state, w) <==>
            Passes(states, alphabet, state, w[0]) &&
            Live(states, alphabet, transitionFunction, Cell(transitionFunction, state, [w[0]]), w[1..])
  {
    var next := Cell(transitionFunction, state, [w[0]]);
    assert w[..0] == [];
    forall k | 0 <= k < |w| - 1
      ensures Reached(transitionFunction, state, w[..k + 1]) == Reached(transitionFunction, next, w[1..][..k])
      ensures w[k + 1] == w[1..][k]
    {
      ReachedStep(transitionFunction, state, w, k + 1);
    }
    if Live(states, alphabet, transitionFunction, state, w) {
      assert Passes(states, alphabet, Reached(transitionFunction, state, w[..0]), w[0]);
      forall k | 0 <= k < |w[1..]|
        ensures Passes(states, alphabet, Reached(transitionFunction, next, w[1..][..k]), w[1..][k])
      {
        assert Passes(states, alphabet, Reached(transitionFunction, state, w[..k + 1]), w[k + 1]);
      }
    }
    if Passes(states, alphabet, state, w[0]) &&
       Live(states, alphabet, transitionFunction, next, w[1..]) {
      forall k | 0 <= k < |w|
        ensures Passes(states, alphabet, Reached(transitionFunction, state, w[..k]), w[k])
      {
        if k > 0 {
          assert Passes(states, alphabet, Reached(transitionFunction, next, w[1..][..k - 1]), w[1..][k - 1]);
        }
      }
    }
  }

  /** The step the run loop takes when both checks pass, with the grid built
      from the transition function. */
  lemma SimulateStep(states: seq<string>, alphabet: seq<string>,
                     transitionFunction: map<string, map<string, string>>, endStates: seq<string>,
                     state: string, w: string)
    requires |w| > 0 && Passes(states, alphabet, state, w[0])
    ensures
      var grid := GridOf(states, alphabet, transitionFunction);
      var next := Cell(transitionFunction, state, [w[0]]);
      var after := Simulate(states, alphabet, grid, endStates, next, w[1..]);
      Simulate(states, alphabet, grid, endStates, state, w) ==
        (after.0, [Configuration(state, w), Transition(state, w[0], next, Shown(w[1..]))] + after.1)
  {
    NextStateIsCell(states, alphabet, transitionFunction, state, w[0]);
  }

  /** The expected log of `w` from a state, past its first step, is the
      expected log of the rest of `w` from the next state. */
  lemma ExpectedEventShift(transitionFunction: map<string, map<string, string>>, state: string,
                           w: string, n: nat)
    requires 2 <= n < 2 * |w|
    ensures ExpectedEvent(transitionFunction, Cell(transitionFunction, state, [w[0]]), w[1..], n - 2) ==
            ExpectedEvent(transitionFunction, state, w, n)
  {
    var k := n / 2;
    assert (n - 2) / 2 == k - 1 && (n - 2) % 2 == n % 2;
    ReachedStep(transitionFunction, state, w, k);
    assert w[1..][k - 1..] == w[k..];
    assert w[1..][k - 1] == w[k];
    if n % 2 == 1 {
      ReachedStep(transitionFunction, state, w, k + 1);
      assert w[1..][k..] == w[k + 1..];
    }
  }

  /** Each line of `log` is the expected line of a run of `w` from `state`. */
  predicate LogAgrees(transitionFunction: map<string, map<string, string>>, state: string,
                      w: string, log: seq<Event>)
  {
    |log| <= 2 * |w| &&
    forall n :: 0 <= n < |log| ==> log[n] == ExpectedEvent(transitionFunction, state, w, n)
  }

  /** The first two expected lines: the starting configuration and the
      first step. */
  lemma ExpectedFirstLines(transitionFunction: map<string, map<string, string>>, state: string, w: string)
    requires |w| > 0
    ensures ExpectedEvent(transitionFunction, state, w, 0) == Configuration(state, w)
    ensures ExpectedEvent(transitionFunction, state, w, 1) ==
            Transition(state, w[0], Cell(transitionFunction, state, [w[0]]), Shown(w[1..]))
  {
    assert w[..0] == [] && w[..1] == [w[0]] && [w[0]][1..] == [];
    assert Reached(transitionFunction, state, w[..0]) == state;
    assert Reached(transitionFunction, state, w[..1]) == Cell(transitionFunction, state, [w[0]]);
    assert 1 / 2 == 0 && 1 % 2 == 1;
  }

  /** One line of a log that starts with the expected first step and goes on
      with the expected log of the rest. */
  lemma LogAgreesStepAt(transitionFunction: map<string, map<string, string>>, state: string, w: string,
                        log: seq<Event>, n: nat)
    requires |w| > 0 && |log| >= 2
    requires log[0] == Configuration(state, w)
    requires log[1] == Transition(state, w[0], Cell(transitionFunction, state, [w[0]]), Shown(w[1..]))
    requires LogAgrees(transitionFunction, Cell(transitionFunction, state, [w[0]]), w[1..], log[2..])
    requires n < |log|
    ensures n < 2 * |w| && log[n] == ExpectedEvent(transitionFunction, state, w, n)
  {
    ExpectedFirstLines(transitionFunction, state, w);
    if n >= 2 {
      assert log[n] == log[2..][n - 2];
      ExpectedEventShift(transitionFunction, state, w, n);
    }
  }

  /** A log that starts with the expected first step and goes on with the
      expected log of the rest agrees with the expected log of the whole. */
  lemma LogAgreesStep(transitionFunction: map<string, map<string, string>>, state: string, w: string,
                      log: seq<Event>)
    requires |w| > 0 && |log| >= 2
    requires log[0] == Configuration(state, w)
    requires log[1] == Transition(state, w[0], Cell(transitionFunction, state, [w[0]]), Shown(w[1..]))
    requires LogAgrees(transitionFunction, Cell(transitionFunction, state, [w[0]]), w[1..], log[2..])
    ensures LogAgrees(transitionFunction, state, w, log)
  {
    assert |log[2..]| <= 2 * |w[1..]|;
    forall n | 0 <= n < |log| ensures log[n] == ExpectedEvent(transitionFunction, state, w, n) {
      LogAgreesStepAt(transitionFunction, state, w, log, n);
    }
  }

  /** The log of every run: line 2k is the configuration before the k-th
      symbol, line 2k + 1 the step that consumes it. */
  lemma {:induction false} TraceShape(states: seq<string>, alphabet: seq<string>,
                                      transitionFunction: map<string, map<string, string>>,
                                      endStates: seq<string>, state: string, w: string)
    ensures LogAgrees(transitionFunction, state, w,
      Simulate(states, alphabet, GridOf(states, alphabet, transitionFunction), endStates, state, w).1)
    decreases |w|
  {
    if |w| > 0 {
      ExpectedFirstLines(transitionFunction, state, w);
      if Passes(states, alphabet, state, w[0]) {
        SimulateStep(states, alphabet, transitionFunction, endStates, state, w);
        var next := Cell(transitionFunction, state, [w[0]]);
        TraceShape(states, alphabet, transitionFunction, endStates, next, w[1..]);
        var grid := GridOf(states, alphabet, transitionFunction);
        var log := Simulate(states, alphabet, grid, endStates, state, w).1;
        var rest := Simulate(states, alphabet, grid, endStates, next, w[1..]).1;
        assert log[2..] == rest;
        LogAgreesStep(transitionFunction, state, w, log);
      }
    }
  }

  /** A run in which every symbol passes both checks leaves the loop normally,
      and is accepted iff the state it reaches is an end state. */
  lemma {:induction false} LiveRunVerdict(states: seq<string>, alphabet: seq<string>,
                                          transitionFunction: map<string, map<string, string>>,
                                          endStates: seq<string>, state: string, w: string)
    requires Live(states, alphabet, transitionFunction, state, w)
    ensures
      var grid := GridOf(states, alphabet, transitionFunction);
      Simulate(states, alphabet, grid, endStates, state, w).0 ==
        if Reached(transitionFunction, state, w) in endStates then Accepted else Rejected(NotAccepting)
    decreases |w|
  {
    if |w| > 0 {
      LiveStep(states, alphabet, transitionFunction, state, w);
      SimulateStep(states, alphabet, transitionFunction, endStates, state, w);
      LiveRunVerdict(states, alphabet, transitionFunction, endStates,
                     Cell(transitionFunction, state, [w[0]]), w[1..]);
    }
  }

  /** The first symbol that fails a check decides the run: the unknown-state
      check is made first, the alphabet check only for a listed state, and
      the log ends with that symbol's configuration. */
  lemma {:induction false} FirstFailureVerdict(states: seq<string>, alphabet: seq<string>,
                                               transitionFunction: map<string, map<string, string>>,
                                               endStates: seq<string>, state: string, w: string, k: nat)
    requires k < |w|
    requires Live(states, alphabet, transitionFunction, state, w[..k])
    requires !Passes(states, alphabet, Reached(transitionFunction, state, w[..k]), w[k])
    ensures
      var r := Simulate(states, alphabet, GridOf(states, alphabet, transitionFunction), endStates, state, w);
      r.0 == (if Reached(transitionFunction, state, w[..k]) !in states
              then Rejected(UnknownState) else Rejected(SymbolNotInAlphabet)) &&
      |r.1| == 2 * k + 1
    decreases k
  {
    assert w[..0] == [];
    if k > 0 {
      var next := Cell(transitionFunction, state, [w[0]]);
      assert w[..k][0] == w[0];
      assert w[..k][1..] == w[1..][..k - 1];
      LiveStep(states, alphabet, transitionFunction, state, w[..k]);
      SimulateStep(states, alphabet, transitionFunction, endStates, state, w);
      ReachedStep(transitionFunction, state, w, k);
      assert w[1..][k - 1] == w[k];
      FirstFailureVerdict(states, alphabet, transitionFunction, endStates, next, w[1..], k - 1);
    }
  }

  /** Exactly the live runs consume their whole input. */
  lemma {:induction false} LiveIffConsumed(states: seq<string>, alphabet: seq<string>,
                                           transitionFunction: map<string, map<string, string>>,
                                           endStates: seq<string>, state: string, w: string)
    ensures
      var r := Simulate(states, alphabet, GridOf(states, alphabet, transitionFunction), endStates, state, w);
      Live(states, alphabet, transitionFunction, state, w) <==>
        (r.0 == Accepted || r.0 == Rejected(NotAccepting))
    decreases |w|
  {
    if |w| > 0 {
      LiveStep(states, alphabet, transitionFunction, state, w);
      if Passes(states, alphabet, state, w[0]) {
        SimulateStep(states, alphabet, transitionFunction, endStates, state, w);
        LiveIffConsumed(states, alphabet, transitionFunction, endStates,
                        Cell(transitionFunction, state, [w[0]]), w[1..]);
      }
    }
  }

  /** For empty input the run is accepted iff the start state is an end state,
      and the log is empty. */
  lemma EmptyInputVerdict(states: seq<string>, alphabet: seq<string>, grid: seq<seq<string>>,
                          endStates: seq<string>, startState: string)
    requires Shaped(grid, |states|, |alphabet|)
    ensures Simulate(states, alphabet, grid, endStates, startState, "") ==
            (if startState in endStates then Accepted else Rejected(NotAccepting), [])
  {
  }

  /** An unlisted state is rejected as such even when the symbol is not in the
      alphabet either, and nothing is consumed. */
  lemma UnknownStateBeforeAlphabet(states: seq<string>, alphabet: seq<string>, grid: seq<seq<string>>,
                                   endStates: seq<string>, state: string, w: string)
    requires Shaped(grid, |states|, |alphabet|)
    requires |w| > 0 && state !in states
    ensures Simulate(states, alphabet, grid, endStates, state, w) ==
            (Rejected(UnknownState), [Configuration(state, w)])
  {
  }

  /** A missing transition does not reject: the run moves to the placeholder
      state. If the placeholder is not itself a listed state, the next
      iteration rejects it as unknown; if the input has run out, the verdict
      depends on whether the placeholder is an end state. */
  lemma MissingTransitionMovesToLambda(states: seq<string>, alphabet: seq<string>,
                                       transitionFunction: map<string, map<string, string>>,
                                       endStates: seq<string>, state: string, w: string)
    requires |w| > 0 && Passes(states, alphabet, state, w[0])
    requires !(state in transitionFunction && [w[0]] in transitionFunction[state])
    ensures
      var grid := GridOf(states, alphabet, transitionFunction);
      var r := Simulate(states, alphabet, grid, endStates, state, w);
      |r.1| >= 2 && r.1[1] == Transition(state, w[0], Lambda, Shown(w[1..])) &&
      (Lambda !in states && |w| > 1 ==> r.0 == Rejected(UnknownState) && |r.1| == 3) &&
      (|w| == 1 ==> (r.0 == Accepted <==> Lambda in endStates))
  {
    SimulateStep(states, alphabet, transitionFunction, endStates, state, w);
  }

  // ---------------------------------------------------------------------
  // A small automaton: q0 --a--> q1 --b--> q2, accepting in q2

  const ExampleStates: seq<string> := ["q0", "q1", "q2"]
  const ExampleAlphabet: seq<string> := ["a", "b"]
  const ExampleFunction: map<string, map<string, string>> := map["q0" := map["a" := "q1"], "q1" := map["b" := "q2"]]

  /** The grid of the small automaton and the positions the run looks up. */
  lemma ExampleGrid()
    ensures
      var grid := GridOf(ExampleStates, ExampleAlphabet, ExampleFunction);
      grid[0][0] == "q1" && grid[0][1] == Lambda && grid[1][0] == Lambda && grid[1][1] == "q2" &&
      IndexOf(ExampleStates, "q0") == 0 && IndexOf(ExampleStates, "q1") == 1 &&
      IndexOf(ExampleStates, Lambda) == -1 &&
      IndexOf(ExampleAlphabet, "a") == 0 && IndexOf(ExampleAlphabet, "b") == 1 &&
      IndexOf(ExampleAlphabet, "c") == -1
  {
    assert "a" != "b" && "q0" != "q1" && "q0" != "q2" && "q1" != "q2";
    assert Cell(ExampleFunction, "q0", "a") == "q1" && Cell(ExampleFunction, "q0", "b") == Lambda;
    assert Cell(ExampleFunction, "q1", "a") == Lambda && Cell(ExampleFunction, "q1", "b") == "q2";
  }

  /** "ab" is accepted, with a log of two configurations and two steps. */
  lemma ExampleAccepted()
    ensures
      Simulate(ExampleStates, ExampleAlphabet, GridOf(ExampleStates, ExampleAlphabet, ExampleFunction),
               ["q2"], "q0", "ab") ==
        (Accepted, [Configuration("q0", "ab"), Transition("q0", 'a', "q1", "b"),
                    Configuration("q1", "b"), Transition("q1", 'b', "q2", Lambda)])
  {
    var grid := GridOf(ExampleStates, ExampleAlphabet, ExampleFunction);
    ExampleGrid();
    assert "ab"[1..] == "b" && "b"[1..] == "" && ["ab"[0]] == "a" && ["b"[0]] == "b";
    var last := Simulate(ExampleStates, ExampleAlphabet, grid, ["q2"], "q2", "");
    assert last == (Accepted, []);
    var second := Simulate(ExampleStates, ExampleAlphabet, grid, ["q2"], "q1", "b");
    assert second.0 == Accepted && second.1 == [Configuration("q1", "b"), Transition("q1", 'b', "q2", Lambda)];
    var first := Simulate(ExampleStates, ExampleAlphabet, grid, ["q2"], "q0", "ab");
    assert first.0 == second.0;
    assert first.1 == [Configuration("q0", "ab"), Transition("q0", 'a', "q1", "b")] + second.1;
    assert first.1 == [Configuration("q0", "ab"), Transition("q0", 'a', "q1", "b"),
                       Configuration("q1", "b"), Transition("q1", 'b', "q2", Lambda)];
  }

  /** "ac" is rejected for 'c' after one step, without consuming the 'c'. */
  lemma ExampleSymbolNotInAlphabet()
    ensures
      Simulate(ExampleStates, ExampleAlphabet, GridOf(ExampleStates, ExampleAlphabet, ExampleFunction),
               ["q2"], "q0", "ac") ==
        (Rejected(SymbolNotInAlphabet), [Configuration("q0", "ac"), Transition("q0", 'a', "q1", "c"),
                                         Configuration("q1", "c")])
  {
    var grid := GridOf(ExampleStates, ExampleAlphabet, ExampleFunction);
    ExampleGrid();
    assert "ac"[1..] == "c" && ["ac"[0]] == "a" && ["c"[0]] == "c";
    var second := Simulate(ExampleStates, ExampleAlphabet, grid, ["q2"], "q1", "c");
    assert second.0 == Rejected(SymbolNotInAlphabet) && second.1 == [Configuration("q1", "c")];
    var first := Simulate(ExampleStates, ExampleAlphabet, grid, ["q2"], "q0", "ac");
    assert first.0 == second.0;
    assert first.1 == [Configuration("q0", "ac"), Transition("q0", 'a', "q1", "c")] + second.1;
    assert first.1 == [Configuration("q0", "ac"), Transition("q0", 'a', "q1", "c"), Configuration("q1", "c")];
  }

  /** "ba" takes the missing transition from q0 to the placeholder, which the
      next iteration rejects as an unknown state; "aa" takes the missing
      transition from q1 and ends in the placeholder, which is no end state. */
  lemma ExampleMissingTransitions()
    ensures
      var grid := GridOf(ExampleStates, ExampleAlphabet, ExampleFunction);
      Simulate(ExampleStates, ExampleAlphabet, grid, ["q2"], "q0", "ba").0 == Rejected(UnknownState) &&
      Simulate(ExampleStates, ExampleAlphabet, grid, ["q2"], "q0", "aa").0 == Rejected(NotAccepting)
  {
    var grid := GridOf(ExampleStates, ExampleAlphabet, ExampleFunction);
    ExampleGrid();
    assert "ba"[1..] == "a" && "aa"[1..] == "a" && "a"[1..] == "" && ["ba"[0]] == "b" && ["a"[0]] == "a";
    var stuck := Simulate(ExampleStates, ExampleAlphabet, grid, ["q2"], Lambda, "a");
    assert stuck.0 == Rejected(UnknownState);
    var last := Simulate(ExampleStates, ExampleAlphabet, grid, ["q2"], Lambda, "");
    assert last.0 == Rejected(NotAccepting);
    var second := Simulate(ExampleStates, ExampleAlphabet, grid, ["q2"], "q1", "a");
    assert second.0 == Rejected(NotAccepting);
  }
}
