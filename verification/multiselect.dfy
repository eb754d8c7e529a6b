/**
 The state of the `MultiSelect` component and one pure transition per event
 handler: typing, the keyboard shortcuts, toggling a suggestion row, removing a
 chip, creating an ad-hoc option and opening or closing the panel. The visible
 suggestion list and the panel contents are pure functions of the state.
 */
module MultiSelect {
  import opened Text
  import opened Seqs

  /** A selectable item: `value` is its identity, `caption` its display text (the source's `label`, a Dafny keyword). */
  datatype Option = Option(caption: string, value: string)

  /**
   The component's state hooks. `initialOptions` is the `options` prop, kept
   because a blank search term restores the candidate list from it.
   */
  datatype State = State(
    initialOptions: seq<Option>,
    options: seq<Option>,
    selected: seq<Option>,
    searchTerm: string,
    isOpen: bool)

  /** The state on mount: candidates from the prop, nothing selected, empty search, panel closed. */
  function Init(initial: seq<Option>): State {
    State(initial, initial, [], "", false)
  }

  // ---------------------------------------------------------------------------
  // Selections as sequences of options
  // ---------------------------------------------------------------------------

  /** `s.some(item => item.value === v)`. */
  predicate HasValue(s: seq<Option>, v: string) {
    exists i :: 0 <= i < |s| && s[i].value == v
  }

  /** No two elements of `s` share a value. */
  predicate UniqueValues(s: seq<Option>) {
    forall i, j :: 0 <= i < j < |s| ==> s[i].value != s[j].value
  }

  /** `s.filter(item => item.value !== v)`. */
  function WithoutValue(s: seq<Option>, v: string): (r: seq<Option>)
    ensures !HasValue(r, v)
    ensures forall x: Option :: x.value != v ==> multiset(r)[x] == multiset(s)[x]
    ensures IsSubsequence(r, s)
  {
    var r := Filter(s, (x: Option) => x.value != v);
    assert forall i :: 0 <= i < |r| ==> r[i] in r;
    r
  }

  /** Removing a value nobody has is the identity. */
  lemma WithoutAbsentValue(s: seq<Option>, v: string)
    requires !HasValue(s, v)
    ensures WithoutValue(s, v) == s
  {
    FilterKeepsAll(s, (x: Option) => x.value != v);
  }

  /** Appending an option with a fresh value and then removing that value restores the sequence. */
  lemma WithoutAppendedValue(s: seq<Option>, o: Option)
    requires !HasValue(s, o.value)
    ensures WithoutValue(s + [o], o.value) == s
  {
    var keep := (x: Option) => x.value != o.value;
    FilterAppend(s, [o], keep);
    FilterKeepsAll(s, keep);
    FilterDropsAll([o], keep);
  }

  /** `xs.slice(0, -1)`: everything but the last element; empty stays empty. */
  function DropLast(xs: seq<Option>): (r: seq<Option>)
    ensures |xs| > 0 ==> r + [xs[|xs| - 1]] == xs
    ensures |xs| == 0 ==> r == []
  {
    if |xs| == 0 then [] else xs[..|xs| - 1]
  }

  /** `!t.trim()`, equivalently `t.trim() === ''`: the text is white space throughout. */
  predicate Blank(t: string) {
    Trim(t) == []
  }

  // ---------------------------------------------------------------------------
  // Event handlers
  // ---------------------------------------------------------------------------

  /** `handleSearch`: record the raw text; a blank text restores the initial candidates. */
  function HandleSearch(s: State, text: string): (r: State)
    ensures r.searchTerm == text
    ensures AllSpace(text) ==> r.options == s.initialOptions
    ensures !AllSpace(text) ==> r.options == s.options
    ensures r.selected == s.selected && r.isOpen == s.isOpen
    ensures r.initialOptions == s.initialOptions
  {
    var t := s.(searchTerm := text);
    if Blank(text) then t.(options := s.initialOptions) else t
  }

  /** The state after a key press and whether the browser's default action was suppressed. */
  datatype KeyResult = KeyResult(state: State, defaultPrevented: bool)

  /** The key press that `handleKeyDown` treats as select-all. */
  predicate IsSelectAllKey(key: string, ctrlKey: bool, metaKey: bool) {
    key == "a" && (ctrlKey || metaKey)
  }

  /** The condition under which `handleKeyDown` pops the last chip. */
  predicate RemovesLast(s: State, key: string) {
    key == "Backspace" && s.searchTerm == [] && |s.selected| > 0
  }

  /**
   `handleKeyDown`: Ctrl/Meta+`a` with a blank search selects every current
   candidate; Backspace with a literally empty search removes the last chip.
   Both tests read the state the handler was rendered with.
   */
  function HandleKeyDown(s: State, key: string, ctrlKey: bool, metaKey: bool): (r: KeyResult)
    ensures r.state.initialOptions == s.initialOptions && r.state.options == s.options
    ensures r.state.searchTerm == s.searchTerm && r.state.isOpen == s.isOpen
    ensures r.defaultPrevented <==> IsSelectAllKey(key, ctrlKey, metaKey) && AllSpace(s.searchTerm)
    ensures r.defaultPrevented ==> r.state.selected == s.options
    ensures RemovesLast(s, key) ==> r.state.selected + [s.selected[|s.selected| - 1]] == s.selected
    ensures !r.defaultPrevented && !RemovesLast(s, key) ==> r.state.selected == s.selected
  {
    var selectAll := key == "a" && (ctrlKey || metaKey) && Blank(s.searchTerm);
    var s1 := if selectAll then s.(selected := s.options) else s;
    var s2 :=
      if key == "Backspace" && s.searchTerm == [] && |s.selected| > 0
      then s1.(selected := DropLast(s1.selected))
      else s1;
    KeyResult(s2, selectAll)
  }

  /** `addNewOption`: a non-blank search term becomes a new option, appended to candidates and selection. */
  function AddNewOption(s: State): (r: State)
    ensures AllSpace(s.searchTerm) ==> r == s
    ensures !AllSpace(s.searchTerm) ==>
      && r.options == s.options + [Option(s.searchTerm, Lower(s.searchTerm))]
      && r.selected == s.selected + [Option(s.searchTerm, Lower(s.searchTerm))]
      && r.searchTerm == [] && !r.isOpen
      && r.initialOptions == s.initialOptions
  {
    if !Blank(s.searchTerm) then
      var o := Option(s.searchTerm, Lower(s.searchTerm));
      s.(options := s.options + [o], selected := s.selected + [o], searchTerm := "", isOpen := false)
    else s
  }

  /** `toggleOption`: deselect every element with the option's value, or append the option; clear the search. */
  function ToggleOption(s: State, o: Option): (r: State)
    ensures !HasValue(s.selected, o.value) ==> r.selected == s.selected + [o]
    ensures HasValue(s.selected, o.value) ==>
      && !HasValue(r.selected, o.value)
      && IsSubsequence(r.selected, s.selected)
      && (forall x: Option :: x.value != o.value ==> multiset(r.selected)[x] == multiset(s.selected)[x])
    ensures r.searchTerm == [] && r.options == s.options && r.isOpen == s.isOpen
    ensures r.initialOptions == s.initialOptions
  {
    var sel :=
      if HasValue(s.selected, o.value) then WithoutValue(s.selected, o.value)
      else s.selected + [o];
    s.(selected := sel, searchTerm := "")
  }

  /** `removeOption` (the chip's remove button): deselect every element with the option's value. */
  function RemoveOption(s: State, o: Option): (r: State)
    ensures !HasValue(r.selected, o.value)
    ensures IsSubsequence(r.selected, s.selected)
    ensures forall x: Option :: x.value != o.value ==> multiset(r.selected)[x] == multiset(s.selected)[x]
    ensures r.searchTerm == s.searchTerm && r.options == s.options && r.isOpen == s.isOpen
    ensures r.initialOptions == s.initialOptions
  {
    s.(selected := WithoutValue(s.selected, o.value))
  }

  // ---------------------------------------------------------------------------
  // What is rendered
  // ---------------------------------------------------------------------------

  /** The row filter: the lower-cased label contains the lower-cased, untrimmed search term. */
  predicate Matches(o: Option, term: string) {
    Includes(Lower(o.caption), Lower(term))
  }

  /** `filteredOptions`: the candidates matching the search term, in candidate order. */
  function FilteredOptions(s: State): (r: seq<Option>)
    ensures forall x :: multiset(r)[x] == if Matches(x, s.searchTerm) then multiset(s.options)[x] else 0
    ensures forall x :: x in r <==> x in s.options && Matches(x, s.searchTerm)
    ensures IsSubsequence(r, s.options)
  {
    Filter(s.options, (o: Option) => Matches(o, s.searchTerm))
  }

  /** The "create" row is offered when nothing matches and the search term is not blank. */
  predicate ShowCreateRow(s: State) {
    |FilteredOptions(s)| == 0 && !Blank(s.searchTerm)
  }

  /** One suggestion row, marked when its value is already selected. */
  datatype Row = Row(option: Option, isSelected: bool)

  /** The suggestion panel below the input. */
  datatype Panel =
    | Hidden                  // `isOpen` is false
    | Rows(rows: seq<Row>)    // at least one candidate matches
    | CreateRow(text: string) // nothing matches, search not blank: offer to create `text`
    | Empty                   // nothing matches and the search is blank

  /**
   The panel as rendered from the state, assuming the render succeeds: the
   source highlights each row label with a regular expression built from the
   raw search text, which throws for a term that is not a valid pattern.
   */
  function RenderPanel(s: State): (p: Panel)
    ensures p == Hidden <==> !s.isOpen
    ensures p.CreateRow? <==> s.isOpen && |FilteredOptions(s)| == 0 && !AllSpace(s.searchTerm)
    ensures p.CreateRow? ==> p.text == s.searchTerm
    ensures p.Rows? ==>
      && s.isOpen && |p.rows| == |FilteredOptions(s)| > 0
      && forall i :: 0 <= i < |p.rows| ==>
           && p.rows[i].option == FilteredOptions(s)[i]
           && (p.rows[i].isSelected <==> HasValue(s.selected, p.rows[i].option.value))
    ensures p == Empty ==> |FilteredOptions(s)| == 0 && AllSpace(s.searchTerm)
  {
    if !s.isOpen then Hidden
    else
      var f := FilteredOptions(s);
      if |f| > 0 then Rows(seq(|f|, i requires 0 <= i < |f| => Row(f[i], HasValue(s.selected, f[i].value))))
      else if !Blank(s.searchTerm) then CreateRow(s.searchTerm)
      else Empty
  }

  /** A click on the input surface opens the panel. */
  function SurfaceClick(s: State): (r: State)
    ensures RenderPanel(r) != Hidden
    ensures r.selected == s.selected && r.options == s.options && r.searchTerm == s.searchTerm
    ensures r.initialOptions == s.initialOptions
  {
    s.(isOpen := true)
  }

  /** A click anywhere outside the component closes the panel. */
  function OutsideClick(s: State): (r: State)
    ensures RenderPanel(r) == Hidden
    ensures r.selected == s.selected && r.options == s.options && r.searchTerm == s.searchTerm
    ensures r.initialOptions == s.initialOptions
  {
    s.(isOpen := false)
  }

  // ---------------------------------------------------------------------------
  // Properties of the view
  // ---------------------------------------------------------------------------

  /** On mount every candidate is listed (once opened) and there is no create row. */
  lemma InitView(initial: seq<Option>)
    ensures FilteredOptions(Init(initial)) == initial
    ensures !ShowCreateRow(Init(initial))
    ensures RenderPanel(Init(initial)) == Hidden
  {
    EmptySearchShowsAll(Init(initial));
  }

  /** A row is visible iff it is a candidate whose lower-cased label has the lower-cased term at some offset. */
  lemma FilteredOptionsIff(s: State, o: Option)
    ensures o in FilteredOptions(s) <==>
      o in s.options && Occurs(Lower(o.caption), Lower(s.searchTerm))
  {
    IncludesIff(Lower(o.caption), Lower(s.searchTerm));
  }

  /** An empty search term shows every candidate, in order. */
  lemma EmptySearchShowsAll(s: State)
    requires s.searchTerm == []
    ensures FilteredOptions(s) == s.options
  {
    forall i | 0 <= i < |s.options|
      ensures Matches(s.options[i], s.searchTerm)
    {
      IncludesEmpty(Lower(s.options[i].caption));
    }
    FilterKeepsAll(s.options, (o: Option) => Matches(o, s.searchTerm));
  }

  /** The create row appears iff the search term is not blank and no candidate matches it. */
  lemma CreateRowIff(s: State)
    ensures ShowCreateRow(s) <==>
      !AllSpace(s.searchTerm) && forall o :: o in s.options ==> !Matches(o, s.searchTerm)
  {
    if forall o :: o in s.options ==> !Matches(o, s.searchTerm) {
      FilterDropsAll(s.options, (o: Option) => Matches(o, s.searchTerm));
    } else {
      var o :| o in s.options && Matches(o, s.searchTerm);
      assert o in FilteredOptions(s);
    }
  }

  // ---------------------------------------------------------------------------
  // Uniqueness of values, transition by transition
  // ---------------------------------------------------------------------------

  lemma UniqueCons(a: Option, t: seq<Option>)
    ensures UniqueValues([a] + t) <==> UniqueValues(t) && !HasValue(t, a.value)
  {
    var s := [a] + t;
    assert forall i :: 0 <= i < |t| ==> s[i + 1] == t[i];
    if UniqueValues(s) {
      forall i, j | 0 <= i < j < |t| ensures t[i].value != t[j].value {
        assert s[i + 1] == t[i] && s[j + 1] == t[j];
      }
      forall k | 0 <= k < |t| ensures t[k].value != a.value {
        assert s[0] == a && s[k + 1] == t[k];
      }
    }
    if UniqueValues(t) && !HasValue(t, a.value) {
      forall i, j | 0 <= i < j < |s| ensures s[i].value != s[j].value {
        assert s[j] == t[j - 1];
        if i > 0 {
          assert s[i] == t[i - 1];
        } else {
          assert t[j - 1].value != a.value;
        }
      }
    }
  }

  lemma UniqueSnoc(t: seq<Option>, a: Option)
    ensures UniqueValues(t + [a]) <==> UniqueValues(t) && !HasValue(t, a.value)
  {
    var s := t + [a];
    assert forall i :: 0 <= i < |t| ==> s[i] == t[i];
    if UniqueValues(s) {
      forall i, j | 0 <= i < j < |t| ensures t[i].value != t[j].value {
        assert s[i] == t[i] && s[j] == t[j];
      }
      forall k | 0 <= k < |t| ensures t[k].value != a.value {
        assert s[k] == t[k] && s[|t|] == a;
      }
    }
    if UniqueValues(t) && !HasValue(t, a.value) {
      forall i, j | 0 <= i < j < |s| ensures s[i].value != s[j].value {
        assert s[i] == t[i];
        if j < |t| {
          assert s[j] == t[j];
        } else {
          assert t[i].value != a.value;
        }
      }
    }
  }

  /** Filtering never introduces a shared value. */
  lemma {:induction false} UniqueFilter(s: seq<Option>, p: Option -> bool)
    requires UniqueValues(s)
    ensures UniqueValues(Filter(s, p))
  {
    if |s| > 0 {
      assert s == [s[0]] + s[1..];
      UniqueCons(s[0], s[1..]);
      var t := Filter(s[1..], p);
      UniqueFilter(s[1..], p);
      if p(s[0]) {
        assert Filter(s, p) == [s[0]] + t;
        assert !HasValue(t, s[0].value) by {
          forall k | 0 <= k < |t| ensures t[k].value != s[0].value {
            assert t[k] in s[1..];
          }
        }
        UniqueCons(s[0], t);
      } else {
        assert Filter(s, p) == t;
      }
    }
  }

  /** Toggling keeps "no two selected elements share a value". */
  lemma ToggleKeepsUnique(s: State, o: Option)
    requires UniqueValues(s.selected)
    ensures UniqueValues(ToggleOption(s, o).selected)
  {
    if HasValue(s.selected, o.value) {
      UniqueFilter(s.selected, (x: Option) => x.value != o.value);
    } else {
      UniqueSnoc(s.selected, o);
    }
  }

  /** Removing a chip keeps "no two selected elements share a value". */
  lemma RemoveKeepsUnique(s: State, o: Option)
    requires UniqueValues(s.selected)
    ensures UniqueValues(RemoveOption(s, o).selected)
  {
    UniqueFilter(s.selected, (x: Option) => x.value != o.value);
  }

  /** Toggling an option whose value is not selected twice restores the selection exactly. */
  lemma ToggleTwiceRestores(s: State, o: Option)
    requires !HasValue(s.selected, o.value)
    ensures ToggleOption(ToggleOption(s, o), o).selected == s.selected
  {
    var t := ToggleOption(s, o);
    assert HasValue(t.selected, o.value) by {
      assert t.selected[|s.selected|] == o;
    }
    WithoutAppendedValue(s.selected, o);
  }

  /** Removing the chip of an option just toggled on restores the selection exactly. */
  lemma ToggleThenRemoveRestores(s: State, o: Option)
    requires !HasValue(s.selected, o.value)
    ensures RemoveOption(ToggleOption(s, o), o).selected == s.selected
  {
    WithoutAppendedValue(s.selected, o);
  }

  /** Toggling an option whose value is selected twice moves it, as `o`, to the end. */
  lemma ToggleTwiceMovesToEnd(s: State, o: Option)
    requires HasValue(s.selected, o.value)
    ensures ToggleOption(ToggleOption(s, o), o).selected == WithoutValue(s.selected, o.value) + [o]
  {
  }

  /** Select-all leaves the selection free of shared values iff the candidate list is. */
  lemma SelectAllUniqueIff(s: State, ctrlKey: bool, metaKey: bool)
    requires AllSpace(s.searchTerm) && (ctrlKey || metaKey)
    ensures UniqueValues(HandleKeyDown(s, "a", ctrlKey, metaKey).state.selected) <==> UniqueValues(s.options)
  {
  }

  /** Backspace keeps "no two selected elements share a value". */
  lemma KeyDownBackspaceKeepsUnique(s: State, ctrlKey: bool, metaKey: bool)
    requires UniqueValues(s.selected)
    ensures UniqueValues(HandleKeyDown(s, "Backspace", ctrlKey, metaKey).state.selected)
  {
    if RemovesLast(s, "Backspace") {
      UniqueSnoc(HandleKeyDown(s, "Backspace", ctrlKey, metaKey).state.selected, s.selected[|s.selected| - 1]);
    }
  }

  /**
   A white-space-only search term blocks Backspace (which tests the raw term)
   but not select-all (which tests the trimmed one).
   */
  lemma WhitespaceGatesDiffer(s: State, ctrlKey: bool, metaKey: bool)
    requires s.searchTerm != [] && AllSpace(s.searchTerm)
    requires ctrlKey || metaKey
    ensures HandleKeyDown(s, "Backspace", ctrlKey, metaKey).state == s
    ensures HandleKeyDown(s, "a", ctrlKey, metaKey).state.selected == s.options
  {
  }

  /** No collision check: creating an option whose value is already selected duplicates that value. */
  lemma CreateCanDuplicate(s: State)
    requires !AllSpace(s.searchTerm) && HasValue(s.selected, Lower(s.searchTerm))
    ensures !UniqueValues(AddNewOption(s).selected)
  {
    UniqueSnoc(s.selected, Option(s.searchTerm, Lower(s.searchTerm)));
  }

  /** Every candidate's value is its lower-cased label, as for created options. */
  predicate CanonicalValues(options: seq<Option>) {
    forall i :: 0 <= i < |options| ==> options[i].value == Lower(options[i].caption)
  }

  /**
   When the create row is showing, creating keeps candidate values distinct
   provided every candidate's value is its lower-cased label: a collision
   would have made that candidate match the search term.
   */
  lemma CreateFromRowKeepsOptionsUnique(s: State)
    requires ShowCreateRow(s)
    requires UniqueValues(s.options) && CanonicalValues(s.options)
    ensures UniqueValues(AddNewOption(s).options)
  {
    var v := Lower(s.searchTerm);
    if HasValue(s.options, v) {
      var k :| 0 <= k < |s.options| && s.options[k].value == v;
      IncludesSelf(v);
      assert Matches(s.options[k], s.searchTerm);
      assert false;
    }
    UniqueSnoc(s.options, Option(s.searchTerm, v));
  }
}
