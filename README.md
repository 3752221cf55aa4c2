# DFA simulator: transition grid and run loop

A model of the finite-automaton simulator window of Kaspener/TPL
(`mainwindow.cpp`). A loaded automaton has five parts:

- a list of state names;
- a list of alphabet symbols;
- a nested map, the transition function (state → symbol → next state);
- a start state;
- a list of end states.

From these the window builds a transition grid. It has one row per listed
state and one column per listed symbol. A cell shows the transition for its
pair, or the placeholder `λ` when the transition function has none.

The run loop then walks the input one character at a time from the start
state:

1. It writes the configuration `(state, remaining input)` to the log.
2. It rejects if the state is not listed.
3. Only then does it reject if the symbol is not in the alphabet.
4. Otherwise it reads the next state out of the grid cell and drops the
   first character.
5. When the input runs out, it accepts iff the state is an end state.

A missing transition does not reject on the spot. The run moves to the
state named `λ` and fails only at a later check, and the model keeps that
behaviour.

Modules:

- `Dfa` (`dfa.dfy`) holds the data, the grid as a function of the loaded
  data (`GridOf`), and the run loop as a function (`Simulate`). The run
  produces a verdict and a log. The log's lines are abstract events: a
  `Configuration` at the top of every iteration, and a `Transition` after
  each step.
- `Window` (`mainwindow.dfy`) holds the class `Simulator` with the window's
  automaton fields and its grid. `PopulateTable` fills the grid cell by cell
  in two nested loops. `Run` is the `while` loop that shrinks the remaining
  input and builds the log. Both are proved against the functions in `Dfa`.
  `Valid()` says that the grid shows the loaded transition function.
  `PopulateTable` establishes it, and it is what the application has when
  the start button can be pressed.
- `DfaProperties` (`properties.dfy`) holds the lemmas. They are stated
  against an independent reference:
  - `Reached`, the extended transition function, which takes the
    placeholder wherever an entry is missing;
  - `Live`, which says that every step of a word passes both checks.

The grid is a sequence of rows of cell texts. A grid cell not set yet is the
empty string. Every cell is set before the grid is used.

## Model

| member | source | states |
|---|---|---|
| `Window.Simulator.constructor` | mainwindow.h:28-32 | the five automaton fields hold the loaded definition; no grid is built yet |
| `Window.Simulator.PopulateTable` | mainwindow.cpp:104-127 | afterwards the grid is `GridOf` the loaded fields: one row per state of one cell per symbol, each filled by the nested loops |
| `Window.Simulator.Run` | mainwindow.cpp:136-194 | the verdict and the log of the `while` loop over the input are exactly those of `Simulate` from the start state over the grid it was given |
| `Dfa.IndexOf` | mainwindow.cpp:145-146 | the result is -1 iff the name is not in the list; otherwise it is the first position holding the name |
| `Dfa.Cell` | mainwindow.cpp:116-120 | a transition present for the (state, symbol) pair is the cell's text; any other text is `λ`, so a cell never shows a state that is not a target in the state's row of the transition function |
| `Dfa.Shown` | mainwindow.cpp:174-177 | the remaining input is shown as it is when non-empty and as `λ` when empty; the shown text is never empty, and it is `λ` exactly for an empty input or an input that is literally "λ" |
| `Dfa.GridOf` | mainwindow.cpp:106 | the grid has exactly as many rows as listed states, each with exactly as many cells as listed symbols |
| `Dfa.Simulate` | mainwindow.cpp:142-194 | the "symbols left over" rejection never happens; the log has at most two lines per input symbol; a run leaves the loop normally (accepted or not accepting) iff its log has exactly two lines per input symbol; the unknown-state and alphabet rejections end the log with the configuration they rejected, with its input not consumed, its state unlisted (or listed and its first symbol outside the alphabet) |
| `DfaProperties.GridCell` | mainwindow.cpp:111-121 | cell (i, j) is `transitionFunction[states[i]][alphabet[j]]` when both keys are present, and `λ` otherwise |
| `DfaProperties.GridIgnoresUnlisted` | mainwindow.cpp:111-117 | the grid of the transition function equals the grid of the function cut down to the listed states and symbols, so unlisted entries never reach it |
| `DfaProperties.NextStateIsCell` | mainwindow.cpp:145-172 | for a listed state and symbol, the cell at the first row and first column named after them holds the transition for the pair, and `λ` when there is none |
| `DfaProperties.SimulateStep` | mainwindow.cpp:161-178 | a step that passes both checks logs the configuration, then the transition to the next state of the transition function, with the rest of the input shown as `λ` when empty, and continues from there on the input less its first symbol |
| `DfaProperties.TraceShape` | mainwindow.cpp:147-178 | line 2k of the log is the configuration (state reached after k symbols, input from k on); line 2k+1 is the step that consumes symbol k, its new state and the rest of the input |
| `DfaProperties.LiveRunVerdict` | mainwindow.cpp:186-192 | when every symbol passes both checks, the run is accepted iff the state reached after the whole input is an end state, and otherwise rejected as not accepting |
| `DfaProperties.FirstFailureVerdict` | mainwindow.cpp:149-160 | at the first symbol that fails a check, the run is rejected as an unknown state if the state reached is unlisted, and only otherwise as a symbol not in the alphabet; its log has 2k+1 lines, so that symbol is not consumed |
| `DfaProperties.LiveIffConsumed` | mainwindow.cpp:144-179 | every symbol passes both checks iff the run ends accepted or not accepting, that is, leaves the loop normally |
| `DfaProperties.EmptyInputVerdict` | mainwindow.cpp:186-192 | for empty input the log is empty and the run is accepted iff the start state is an end state |
| `DfaProperties.UnknownStateBeforeAlphabet` | mainwindow.cpp:149-154 | for an unlisted state and non-empty input, the run is rejected as an unknown state whatever the symbol, after logging only that configuration |
| `DfaProperties.MissingTransitionMovesToLambda` | mainwindow.cpp:169-178 | a step with no transition moves to `λ`; if `λ` is not a listed state and input remains, the next iteration rejects it as unknown after three log lines; if the input is used up, the run is accepted iff `λ` is an end state |
| `DfaProperties.ExampleGrid` | mainwindow.cpp:111-121 | the grid of the automaton q0 –a→ q1 –b→ q2 and the positions the run looks up in it |
| `DfaProperties.ExampleAccepted` | mainwindow.cpp:136-194 | "ab" is accepted with a four-line log |
| `DfaProperties.ExampleSymbolNotInAlphabet` | mainwindow.cpp:136-194 | "ac" is rejected for `c` after one step, and the last configuration still holds `c` |
| `DfaProperties.ExampleMissingTransitions` | mainwindow.cpp:136-194 | "ba" goes to `λ` and is rejected as an unknown state; "aa" ends in `λ` and is rejected as not accepting |

A missing transition is not rejected on the spot: the run moves to state
`λ` (mainwindow.cpp:119, 172). So under the example automaton "ac" is
rejected because `c` is not in the alphabet (`ExampleSymbolNotInAlphabet`).
The code does not check the definition for duplicate or undeclared names.

## Left out

- Reading and parsing the JSON definition file (`parseJsonFile`, mainwindow.cpp:25-102): file I/O and Qt's JSON library. The five fields are taken as already loaded and are the constructor's parameters.
- The load button (`on_loadConfig_clicked`, mainwindow.cpp:197-208): a file dialog and showing widgets. It calls parse and then populate, which is the order the model expects (constructor, then `PopulateTable`, then `Run`). It ignores the parse result.
- The timed busy-wait with event-loop pumping between steps (mainwindow.cpp:165-167): wall-clock pacing, no effect on the verdict or the log.
- Highlighting the current cell and restoring its colour (mainwindow.cpp:161-163, 168).
- HTML colouring and the Russian wording of the log lines. Green lines are `Event` values. The red and final messages are the `Verdict` of the run.
- Enabling and disabling buttons (mainwindow.cpp:129-141), clearing the log widget, and the header labels of the grid.
- Allocating and owning the `QStandardItemModel` (mainwindow.cpp:106, 124-126). The grid is a value field. `Run` requires it to have one row per state and one cell per symbol in each row, which the application guarantees by populating the table before the start button appears; indexing a grid without that shape would dereference a null item in the original.
- `Window.Simulator.Run`: the input is a sequence of characters, one per QChar. Splitting characters outside the Basic Multilingual Plane into UTF-16 surrogate halves is not modelled.
- `Dfa.Simulate`: the log shows empty remaining input as `λ` (`Shown`), as the application does. So a remaining input that is literally "λ" and one that is empty produce the same log line.
- A pushdown automaton and its stack-rewrite rules: no such engine exists in this code.
- The generated widget layout (`build/Desktop_Qt_6_7_2_MinGW_64_bit-Debug/ui_mainwindow.h`) has no logic.
