/**
 User events as the component receives them, the state reached by a sequence
 of events, which events the rendered UI makes available, and what holds (or
 fails to hold) along such sequences.
 */
module Traces {
  import opened Text
  import opened Seqs
  import opened MultiSelect

  /** One user interaction with the component. */
  datatype Event =
    | Type(text: string)                                  // the input's change event
    | KeyDown(key: string, ctrlKey: bool, metaKey: bool)  // a key press in the input
    | ClickRow(option: Option)                            // a suggestion row
    | ClickChipRemove(option: Option)                     // the remove button of a chip
    | ClickCreate                                         // the create row
    | ClickSurface                                        // the input surface
    | ClickOutside                                        // anywhere outside the component

  /** The handler each event runs. */
  function Step(s: State, e: Event): (r: State)
    ensures r.initialOptions == s.initialOptions
    ensures !e.Type? && !e.ClickCreate? ==> r.options == s.options
  {
    match e
    case Type(t) => HandleSearch(s, t)
    case KeyDown(k, c, m) => HandleKeyDown(s, k, c, m).state
    case ClickRow(o) => ToggleOption(s, o)
    case ClickChipRemove(o) => RemoveOption(s, o)
    case ClickCreate => AddNewOption(s)
    case ClickSurface => SurfaceClick(s)
    case ClickOutside => OutsideClick(s)
  }

  /**
   The events the rendered component offers in state `s`: a suggestion row
   or the create row only while the panel shows it, a chip's remove button
   only for a selected option; typing, keys and clicks on or off the surface
   are always possible. Typing the text already in the input is allowed too,
   although the input's change event fires only on a new value; every
   property proved about all events covers this extra case. Rows are
   offered on the assumption that rendering them succeeds, which fails in
   the source for a search term that is not a valid regular expression.
   */
  predicate Enabled(s: State, e: Event) {
    match e
    case ClickRow(o) => s.isOpen && o in FilteredOptions(s)
    case ClickChipRemove(o) => o in s.selected
    case ClickCreate => s.isOpen && ShowCreateRow(s)
    case _ => true
  }

  /** Rows and the create row are clickable exactly when the rendered panel shows them. */
  lemma EnabledMatchesPanel(s: State, o: Option)
    ensures Enabled(s, ClickCreate) <==> RenderPanel(s).CreateRow?
    ensures Enabled(s, ClickRow(o)) <==>
      RenderPanel(s).Rows? && exists i :: 0 <= i < |RenderPanel(s).rows| && RenderPanel(s).rows[i].option == o
  {
    if Enabled(s, ClickRow(o)) {
      var f := FilteredOptions(s);
      var i :| 0 <= i < |f| && f[i] == o;
      assert RenderPanel(s).rows[i].option == o;
    }
  }

  /** The state after the events `es`, in order. */
  function Run(s: State, es: seq<Event>): State
    decreases |es|
  {
    if es == [] then s else Run(Step(s, es[0]), es[1..])
  }

  /** Every event of `es` is offered by the UI when it happens. */
  predicate ValidTrace(s: State, es: seq<Event>)
    decreases |es|
  {
    es == [] || (Enabled(s, es[0]) && ValidTrace(Step(s, es[0]), es[1..]))
  }

  // ---------------------------------------------------------------------------
  // The candidate list
  // ---------------------------------------------------------------------------

  /** An option built by `addNewOption`: its value is its lower-cased, non-blank label. */
  predicate IsCreated(o: Option) {
    o.value == Lower(o.caption) && !AllSpace(o.caption)
  }

  /** The candidates are the initial ones followed by created ones. */
  predicate CandidatesInv(s: State) {
    && |s.initialOptions| <= |s.options|
    && s.options[..|s.initialOptions|] == s.initialOptions
    && forall i :: |s.initialOptions| <= i < |s.options| ==> IsCreated(s.options[i])
  }

  lemma InitCandidatesInv(initial: seq<Option>)
    ensures CandidatesInv(Init(initial))
  {
  }

  /** Appending a created option keeps "initial ones, then created ones". */
  lemma AppendCreatedKeepsCandidates(initial: seq<Option>, options: seq<Option>, o: Option)
    requires |initial| <= |options| && options[..|initial|] == initial
    requires forall i :: |initial| <= i < |options| ==> IsCreated(options[i])
    requires IsCreated(o)
    ensures var r := options + [o];
      && |initial| <= |r| && r[..|initial|] == initial
      && forall i :: |initial| <= i < |r| ==> IsCreated(r[i])
  {
    var r := options + [o];
    assert r[..|initial|] == options[..|initial|];
    forall i | |initial| <= i < |r|
      ensures IsCreated(r[i])
    {
      if i < |options| {
        assert r[i] == options[i];
      }
    }
  }

  lemma CreateKeepsCandidatesInv(s: State)
    requires CandidatesInv(s)
    ensures CandidatesInv(AddNewOption(s))
  {
    if !AllSpace(s.searchTerm) {
      var o := Option(s.searchTerm, Lower(s.searchTerm));
      AppendCreatedKeepsCandidates(s.initialOptions, s.options, o);
    }
  }

  lemma SearchKeepsCandidatesInv(s: State, t: string)
    requires CandidatesInv(s)
    ensures CandidatesInv(HandleSearch(s, t))
  {
  }

  /** Every event keeps the candidates "initial ones, then created ones". */
  lemma StepKeepsCandidatesInv(s: State, e: Event)
    requires CandidatesInv(s)
    ensures CandidatesInv(Step(s, e))
  {
    match e
    case ClickCreate => CreateKeepsCandidatesInv(s);
    case Type(t) => SearchKeepsCandidatesInv(s, t);
    case _ =>
  }

  lemma {:induction false} RunKeepsCandidatesInv(s: State, es: seq<Event>)
    requires CandidatesInv(s)
    ensures CandidatesInv(Run(s, es))
    decreases |es|
  {
    if es != [] {
      StepKeepsCandidatesInv(s, es[0]);
      RunKeepsCandidatesInv(Step(s, es[0]), es[1..]);
    }
  }

  // ---------------------------------------------------------------------------
  // Uniqueness of selected values
  // ---------------------------------------------------------------------------

  /**
   From a selection without shared values, an event leads to a selection
   without shared values exactly unless it is an effective select-all over a
   candidate list with shared values, or a creation whose value is already
   selected.
   */
  lemma StepUniqueSelectedIff(s: State, e: Event)
    requires UniqueValues(s.selected)
    ensures UniqueValues(Step(s, e).selected) <==>
      match e
      case KeyDown(k, c, m) => !(IsSelectAllKey(k, c, m) && AllSpace(s.searchTerm)) || UniqueValues(s.options)
      case ClickCreate => AllSpace(s.searchTerm) || !HasValue(s.selected, Lower(s.searchTerm))
      case _ => true
  {
    match e
    case KeyDown(k, c, m) =>
      if !(IsSelectAllKey(k, c, m) && AllSpace(s.searchTerm)) && RemovesLast(s, k) {
        UniqueSnoc(Step(s, e).selected, s.selected[|s.selected| - 1]);
      }
    case ClickCreate =>
      UniqueSnoc(s.selected, Option(s.searchTerm, Lower(s.searchTerm)));
    case ClickRow(o) =>
      ToggleKeepsUnique(s, o);
    case ClickChipRemove(o) =>
      RemoveKeepsUnique(s, o);
    case _ =>
  }

  // ---------------------------------------------------------------------------
  // Concrete traces
  // ---------------------------------------------------------------------------

  /** Running a trace is running its first event, then the rest. */
  lemma RunCons(s: State, e: Event, rest: seq<Event>)
    ensures Run(s, [e] + rest) == Run(Step(s, e), rest)
  {
    assert ([e] + rest)[0] == e && ([e] + rest)[1..] == rest;
  }

  /** An offered event followed by a valid trace is a valid trace. */
  lemma ValidCons(s: State, e: Event, rest: seq<Event>)
    requires Enabled(s, e) && ValidTrace(Step(s, e), rest)
    ensures ValidTrace(s, [e] + rest)
  {
    assert ([e] + rest)[0] == e && ([e] + rest)[1..] == rest;
  }

  /** With no candidates, an open panel and a non-blank search term, the create row is offered. */
  lemma CreateOfferedWithoutCandidates(s: State)
    requires s.options == [] && s.isOpen && !AllSpace(s.searchTerm)
    ensures Enabled(s, ClickCreate)
  {
    assert |FilteredOptions(s)| == 0;
  }

  /** Typing a non-blank text only records it. */
  lemma TypeNonBlank(s: State, t: string)
    requires !AllSpace(t)
    ensures Enabled(s, Type(t)) && Step(s, Type(t)) == s.(searchTerm := t)
  {
  }

  /** Typing a blank text records it and restores the initial candidates. */
  lemma TypeBlank(s: State, t: string)
    requires AllSpace(t)
    ensures Enabled(s, Type(t)) && Step(s, Type(t)) == s.(searchTerm := t, options := s.initialOptions)
  {
  }

  /** Traces compose: running `a + b` is running `a`, then `b`. */
  lemma {:induction false} RunAppend(s: State, a: seq<Event>, b: seq<Event>)
    ensures Run(s, a + b) == Run(Run(s, a), b)
    ensures ValidTrace(s, a) && ValidTrace(Run(s, a), b) ==> ValidTrace(s, a + b)
    decreases |a|
  {
    if a == [] {
      assert a + b == b;
    } else {
      assert a == [a[0]] + a[1..];
      assert a + b == [a[0]] + (a[1..] + b);
      RunCons(s, a[0], a[1..] + b);
      RunCons(s, a[0], a[1..]);
      RunAppend(Step(s, a[0]), a[1..], b);
      if ValidTrace(s, a) && ValidTrace(Run(s, a), b) {
        ValidCons(s, a[0], a[1..] + b);
      }
    }
  }

  /** First create: open the panel, type `t`, click the create row. */
  lemma DuplicatePartOne(t: string)
    requires !AllSpace(t)
    ensures var x := Option(t, Lower(t));
      var es := [ClickSurface, Type(t), ClickCreate];
      ValidTrace(Init([]), es) && Run(Init([]), es) == State([], [x], [x], "", false)
  {
    var x := Option(t, Lower(t));
    var s0 := Init([]);
    var s1 := State([], [], [], "", true);
    var s2 := State([], [], [], t, true);
    var s3 := State([], [x], [x], "", false);
    OpenStep(s0);
    TypeNonBlank(s1, t);
    CreateOfferedWithoutCandidates(s2);
    CreateStep(s2);
    assert [] + [x] == [x];
    Chain3(s0, ClickSurface, s1, Type(t), s2, ClickCreate, s3);
  }

  /** Reset: reopen, type `t` (it now matches), then clear the search. */
  lemma DuplicatePartTwo(t: string)
    requires !AllSpace(t)
    ensures var x := Option(t, Lower(t));
      var es := [ClickSurface, Type(t), Type("")];
      && ValidTrace(State([], [x], [x], "", false), es)
      && Run(State([], [x], [x], "", false), es) == State([], [], [x], "", true)
  {
    var x := Option(t, Lower(t));
    var s3 := State([], [x], [x], "", false);
    var s4 := State([], [x], [x], "", true);
    var s5 := State([], [x], [x], t, true);
    var s6 := State([], [], [x], "", true);
    OpenStep(s3);
    TypeNonBlank(s4, t);
    TypeBlank(s5, "");
    Chain3(s3, ClickSurface, s4, Type(t), s5, Type(""), s6);
  }

  /** Second create: type `t` again, which matches nothing now, and click the create row. */
  lemma DuplicatePartThree(t: string)
    requires !AllSpace(t)
    ensures var x := Option(t, Lower(t));
      var es := [Type(t), ClickCreate];
      && ValidTrace(State([], [], [x], "", true), es)
      && Run(State([], [], [x], "", true), es) == State([], [x], [x, x], "", false)
  {
    var x := Option(t, Lower(t));
    var s6 := State([], [], [x], "", true);
    var s7 := State([], [], [x], t, true);
    var s8 := State([], [x], [x, x], "", false);
    TypeNonBlank(s6, t);
    CreateOfferedWithoutCandidates(s7);
    CreateStep(s7);
    assert [] + [x] == [x] && [x] + [x] == [x, x];
    Chain2(s6, Type(t), s7, ClickCreate, s8);
  }

  /**
   Creating an option from a non-blank text `t`, clearing the search (which
   drops the created candidate) and creating `t` again selects the value
   `Lower(t)` twice; in between, a selected option is no longer a candidate.
   Every event is one the UI offers.
   */
  lemma DuplicateAfterReset(t: string)
    requires !AllSpace(t)
    ensures var es := [ClickSurface, Type(t), ClickCreate, ClickSurface, Type(t), Type(""), Type(t), ClickCreate];
      && ValidTrace(Init([]), es)
      && Run(Init([]), es[..6]).selected == [Option(t, Lower(t))]
      && Option(t, Lower(t)) !in Run(Init([]), es[..6]).options
      && Run(Init([]), es).selected == [Option(t, Lower(t)), Option(t, Lower(t))]
      && !UniqueValues(Run(Init([]), es).selected)
  {
    var a := [ClickSurface, Type(t), ClickCreate];
    var b := [ClickSurface, Type(t), Type("")];
    var c := [Type(t), ClickCreate];
    var es := [ClickSurface, Type(t), ClickCreate, ClickSurface, Type(t), Type(""), Type(t), ClickCreate];
    assert es[..6] == a + b;
    assert es == (a + b) + c;
    DuplicatePartOne(t);
    DuplicatePartTwo(t);
    DuplicatePartThree(t);
    RunAppend(Init([]), a, b);
    RunAppend(Init([]), a + b, c);
    var final := Run(Init([]), es);
    assert final.selected[0].value == final.selected[1].value;
  }

  /** Two offered steps make a valid trace ending where the second step ends. */
  lemma Chain2(s0: State, e0: Event, s1: State, e1: Event, s2: State)
    requires Enabled(s0, e0) && Step(s0, e0) == s1
    requires Enabled(s1, e1) && Step(s1, e1) == s2
    ensures ValidTrace(s0, [e0, e1]) && Run(s0, [e0, e1]) == s2
  {
    RunCons(s1, e1, []);
    ValidCons(s1, e1, []);
    RunCons(s0, e0, [e1]);
    ValidCons(s0, e0, [e1]);
  }

  /** Three offered steps make a valid trace ending where the third step ends. */
  lemma Chain3(s0: State, e0: Event, s1: State, e1: Event, s2: State, e2: Event, s3: State)
    requires Enabled(s0, e0) && Step(s0, e0) == s1
    requires Enabled(s1, e1) && Step(s1, e1) == s2
    requires Enabled(s2, e2) && Step(s2, e2) == s3
    ensures ValidTrace(s0, [e0, e1, e2]) && Run(s0, [e0, e1, e2]) == s3
  {
    Chain2(s1, e1, s2, e2, s3);
    RunCons(s0, e0, [e1, e2]);
    ValidCons(s0, e0, [e1, e2]);
  }

  /** Clicking the input surface opens the panel and changes nothing else. */
  lemma OpenStep(s: State)
    ensures Enabled(s, ClickSurface) && Step(s, ClickSurface) == s.(isOpen := true)
  {
  }

  /** Four offered steps through the given states make a valid trace ending in the last one. */
  lemma Chain4(s0: State, e0: Event, s1: State, e1: Event, s2: State, e2: Event, s3: State, e3: Event, s4: State)
    requires Enabled(s0, e0) && Step(s0, e0) == s1
    requires Enabled(s1, e1) && Step(s1, e1) == s2
    requires Enabled(s2, e2) && Step(s2, e2) == s3
    requires Enabled(s3, e3) && Step(s3, e3) == s4
    ensures ValidTrace(s0, [e0, e1, e2, e3]) && Run(s0, [e0, e1, e2, e3]) == s4
    ensures Run(s0, [e0, e1]) == s2 && Run(s0, [e0, e1, e2]) == s3
  {
    RunCons(s3, e3, []);
    ValidCons(s3, e3, []);
    RunCons(s2, e2, [e3]);
    ValidCons(s2, e2, [e3]);
    RunCons(s1, e1, [e2, e3]);
    ValidCons(s1, e1, [e2, e3]);
    RunCons(s0, e0, [e1, e2, e3]);
    ValidCons(s0, e0, [e1, e2, e3]);
    RunCons(s2, e2, []);
    RunCons(s1, e1, [e2]);
    RunCons(s0, e0, [e1, e2]);
    RunCons(s1, e1, []);
    RunCons(s0, e0, [e1]);
  }

  /** Clicking a row whose value is not selected appends its option and clears the search. */
  lemma PickAbsentStep(s: State, o: Option)
    requires !HasValue(s.selected, o.value)
    ensures Step(s, ClickRow(o)) == s.(selected := s.selected + [o], searchTerm := "")
  {
  }

  /** Creating from a non-blank search term. */
  lemma CreateStep(s: State)
    requires !AllSpace(s.searchTerm)
    ensures var o := Option(s.searchTerm, Lower(s.searchTerm));
      Step(s, ClickCreate) == s.(options := s.options + [o], selected := s.selected + [o], searchTerm := "", isOpen := false)
  {
  }

  /** On an empty search every candidate's row is offered while the panel is open. */
  lemma RowOfferedOnEmptySearch(s: State, o: Option)
    requires s.isOpen && s.searchTerm == [] && o in s.options
    ensures Enabled(s, ClickRow(o))
  {
    EmptySearchShowsAll(s);
  }

  /** The create row is offered while the panel is open and no candidate matches a non-blank term. */
  lemma CreateOfferedWhenNothingMatches(s: State)
    requires s.isOpen && !AllSpace(s.searchTerm)
    requires forall p :: p in s.options ==> !Matches(p, s.searchTerm)
    ensures Enabled(s, ClickCreate)
  {
    CreateRowIff(s);
  }

  /**
   Selecting a host option `o` and then creating a text `t` that lower-cases
   to `o.value` and that no candidate label contains (so the create row is
   offered) leaves two selected options with the value `o.value`.
   */
  lemma SelectThenCreateSameValue(initial: seq<Option>, o: Option, t: string)
    requires o in initial
    requires !AllSpace(t) && Lower(t) == o.value
    requires forall p :: p in initial ==> !Matches(p, t)
    ensures var es := [ClickSurface, ClickRow(o), Type(t), ClickCreate];
      && ValidTrace(Init(initial), es)
      && Run(Init(initial), es).selected == [o, Option(t, o.value)]
      && !UniqueValues(Run(Init(initial), es).selected)
  {
    var n := Option(t, o.value);
    var s0 := Init(initial);
    var s1 := State(initial, initial, [], "", true);
    var s2 := State(initial, initial, [o], "", true);
    var s3 := State(initial, initial, [o], t, true);
    var s4 := State(initial, initial + [n], [o, n], "", false);
    PickOnOpenEmpty(initial, o);
    CreateAfterTyping(initial, [o], t);
    assert [o] + [n] == [o, n];
    Chain4(s0, ClickSurface, s1, ClickRow(o), s2, Type(t), s3, ClickCreate, s4);
    assert s4.selected[0].value == s4.selected[1].value;
  }

  /** From the closed start, opening the panel and clicking the row of a candidate selects it. */
  lemma PickOnOpenEmpty(initial: seq<Option>, o: Option)
    requires o in initial
    ensures var s1 := State(initial, initial, [], "", true);
      && Enabled(Init(initial), ClickSurface) && Step(Init(initial), ClickSurface) == s1
      && Enabled(s1, ClickRow(o)) && Step(s1, ClickRow(o)) == State(initial, initial, [o], "", true)
  {
    var s1 := State(initial, initial, [], "", true);
    RowOfferedOnEmptySearch(s1, o);
    PickAbsentStep(s1, o);
  }

  /**
   With the panel open on an empty search, typing a non-blank `t` that no
   candidate matches and clicking the create row selects the new option.
   */
  lemma CreateAfterTyping(initial: seq<Option>, sel: seq<Option>, t: string)
    requires !AllSpace(t)
    requires forall p :: p in initial ==> !Matches(p, t)
    ensures var s2 := State(initial, initial, sel, "", true);
      var s3 := State(initial, initial, sel, t, true);
      var n := Option(t, Lower(t));
      && Enabled(s2, Type(t)) && Step(s2, Type(t)) == s3
      && Enabled(s3, ClickCreate) && Step(s3, ClickCreate) == State(initial, initial + [n], sel + [n], "", false)
  {
    var s2 := State(initial, initial, sel, "", true);
    var s3 := State(initial, initial, sel, t, true);
    TypeNonBlank(s2, t);
    CreateOfferedWhenNothingMatches(s3);
    CreateStep(s3);
  }

  /**
   With a search term `t` every candidate matches, typing `t` lists them all;
   clicking the row of `o` then selects `o` alone and clears the search, and
   clicking outside closes the panel and leaves the selection alone.
   */
  lemma TypePickClose(initial: seq<Option>, t: string, o: Option)
    requires o in initial
    requires !AllSpace(t)
    requires forall p :: p in initial ==> Matches(p, t)
    ensures var es := [ClickSurface, Type(t), ClickRow(o), ClickOutside];
      && ValidTrace(Init(initial), es)
      && FilteredOptions(Run(Init(initial), es[..2])) == initial
      && Run(Init(initial), es[..3]) == State(initial, initial, [o], "", true)
      && Run(Init(initial), es) == State(initial, initial, [o], "", false)
  {
    var s0 := Init(initial);
    var s1 := State(initial, initial, [], "", true);
    var s2 := State(initial, initial, [], t, true);
    var s3 := State(initial, initial, [o], "", true);
    var s4 := State(initial, initial, [o], "", false);
    var es := [ClickSurface, Type(t), ClickRow(o), ClickOutside];
    assert es[..2] == [ClickSurface, Type(t)];
    assert es[..3] == [ClickSurface, Type(t), ClickRow(o)];
    TypeThenPick(initial, t, o);
    Chain4(s0, ClickSurface, s1, Type(t), s2, ClickRow(o), s3, ClickOutside, s4);
  }

  /** Typing a term every candidate matches lists them all, and clicking one then selects it. */
  lemma TypeThenPick(initial: seq<Option>, t: string, o: Option)
    requires o in initial
    requires !AllSpace(t)
    requires forall p :: p in initial ==> Matches(p, t)
    ensures var s1 := State(initial, initial, [], "", true);
      var s2 := State(initial, initial, [], t, true);
      && Enabled(s1, Type(t)) && Step(s1, Type(t)) == s2
      && FilteredOptions(s2) == initial
      && Enabled(s2, ClickRow(o)) && Step(s2, ClickRow(o)) == State(initial, initial, [o], "", true)
  {
    var s1 := State(initial, initial, [], "", true);
    var s2 := State(initial, initial, [], t, true);
    TypeNonBlank(s1, t);
    FilterKeepsAll(initial, (p: Option) => Matches(p, t));
    PickAbsentStep(s2, o);
  }
}
