/**
 Concrete runs of the component on an empty candidate list, on the host
 application's chart options and on two of them.
 */
module Scenarios {
  import opened Text
  import opened MultiSelect
  import opened Traces

  const LineChart := Option("Line chart", "line-chart")
  const BarChart := Option("Bar chart", "bar-chart")

  /** The options the host application passes in. */
  const HostOptions := [
    LineChart,
    Option("Area chart", "area-chart"),
    Option("Column chart", "column-chart"),
    BarChart,
    Option("Pie chart", "pie-chart"),
    Option("Scatter chart", "scatter-chart"),
    Option("Bubble chart", "bubble-chart")
  ]

  /** Two of the host's options, as a smaller candidate list. */
  const Charts := [LineChart, BarChart]

  /** The host's values are not lower-cased labels ("line-chart" versus "line chart"). */
  lemma HostNotCanonical()
    ensures !CanonicalValues(HostOptions)
  {
    assert Lower(LineChart.caption)[4] == ' ';
    assert HostOptions[0].value != Lower(HostOptions[0].caption);
  }

  /** "X" is not blank and lower-cases to "x". */
  lemma TextX()
    ensures !AllSpace("X") && Lower("X") == "x"
  {
    assert !IsSpace("X"[0]);
  }

  /** Create "X", clear the search, create "X" again: the value "x" is selected twice. */
  lemma DuplicateX()
    ensures var es := [ClickSurface, Type("X"), ClickCreate, ClickSurface, Type("X"), Type(""), Type("X"), ClickCreate];
      ValidTrace(Init([]), es) && Run(Init([]), es).selected == [Option("X", "x"), Option("X", "x")]
  {
    TextX();
    DuplicateAfterReset("X");
  }

  /** "Donut Chart" lower-cases to "donut chart". */
  lemma LowerDonutChart()
    ensures Lower("Donut Chart") == "donut chart"
  {
  }

  /** Typing "Donut Chart" and creating it appends {Donut Chart, donut chart} to candidates and selection. */
  lemma CreateDonutChart(s: State)
    requires s.searchTerm == "Donut Chart"
    ensures AddNewOption(s).options == s.options + [Option("Donut Chart", "donut chart")]
    ensures AddNewOption(s).selected == s.selected + [Option("Donut Chart", "donut chart")]
    ensures AddNewOption(s).searchTerm == "" && !AddNewOption(s).isOpen
  {
    assert !AllSpace(s.searchTerm) by { assert !IsSpace(s.searchTerm[0]); }
    LowerDonutChart();
  }

  /** A label without '-' does not match a term containing '-'. */
  lemma NoDashNoMatch(o: Option, t: string)
    requires '-' in t && '-' !in o.caption
    ensures !Matches(o, t)
  {
    LowerKeepsNonLetter(t, '-');
    LowerKeepsNonLetter(o.caption, '-');
    CharAbsentNotIncluded(Lower(o.caption), Lower(t), '-');
  }

  /** No host label contains "line-chart": the labels have no '-'. */
  lemma LineChartTermMatchesNothing()
    ensures forall o :: o in HostOptions ==> !Matches(o, "line-chart")
  {
    var t := "line-chart";
    assert t[4] == '-';
    forall o | o in HostOptions
      ensures !Matches(o, t)
    {
      assert '-' !in o.caption;
      NoDashNoMatch(o, t);
    }
  }

  /**
   Selecting "Line chart" and then creating "line-chart" (offered, since no
   label contains it) selects two options with the value "line-chart".
   */
  lemma CollisionWithHostValue()
    ensures var es := [ClickSurface, ClickRow(LineChart), Type("line-chart"), ClickCreate];
      && ValidTrace(Init(HostOptions), es)
      && Run(Init(HostOptions), es).selected == [LineChart, Option("line-chart", "line-chart")]
      && !UniqueValues(Run(Init(HostOptions), es).selected)
  {
    assert !AllSpace("line-chart") by { assert !IsSpace("line-chart"[0]); }
    assert Lower("line-chart") == "line-chart";
    LineChartTermMatchesNothing();
    SelectThenCreateSameValue(HostOptions, LineChart, "line-chart");
  }

  /** "ch" occurs in both lower-cased chart labels. */
  lemma ChMatchesBoth()
    ensures forall o :: o in Charts ==> Matches(o, "ch")
  {
    var t := "ch";
    var a, b := Lower(LineChart.caption), Lower(BarChart.caption);
    assert Lower(t) == t;
    assert a[5..7] == t;
    assert b[4..6] == t;
    assert OccursAt(a, t, 5);
    assert OccursAt(b, t, 4);
    IncludesIff(a, t);
    IncludesIff(b, t);
  }

  /**
   Typing "ch" lists both charts, clicking "Bar chart" selects it alone and
   clears the search, and clicking outside closes the panel.
   */
  lemma PickBarChart()
    ensures var es := [ClickSurface, Type("ch"), ClickRow(BarChart), ClickOutside];
      && ValidTrace(Init(Charts), es)
      && FilteredOptions(Run(Init(Charts), es[..2])) == Charts
      && Run(Init(Charts), es) == State(Charts, Charts, [BarChart], "", false)
  {
    assert !AllSpace("ch") by { assert !IsSpace("ch"[0]); }
    ChMatchesBoth();
    TypePickClose(Charts, "ch", BarChart);
  }
}
