/** The panel-plot script: choosing the measures to draw from a joined measures file,
    the words shared by every measure name, panel titles, the panel grid, the group a
    panel leaves out and the vertical date lines. */
module PanelPlots {
  import opened Tables
  import opened Text

  datatype PlotError =
    /** `subset_table`: a pattern that matches no measure name. */
    | PatternDidNotMatch
    /** `autoselect_labels` on no names: numpy cannot concatenate an empty list. */
    | NothingToConcatenate
    /** `get_group_chart` with more than ten panels. */
    | TooManyPlots(total: nat)
    /** matplotlib refuses the negative figure size a negative column count gives. */
    | NegativeFigureSize
    /** `total_plots // columns` with no columns. */
    | DivisionByZero
    /** `pandas.to_datetime` could not read a date line. */
    | UnparseableDate(date: string)

  /** Python truthiness of an optional string argument. */
  predicate IsGiven(s: Option<string>)
  {
    s.Some? && s.value != ""
  }

  /** `subset_table`: the rows whose `name` matches the glob pattern (when one is
      given) or is in the list (when a non-empty one is given); otherwise all rows.
      `fnmatch` is the shell-style matcher, a parameter here. */
  function SubsetTable<T>(rows: seq<T>, name: T -> string, pattern: Option<string>,
                          list: Option<seq<string>>, fnmatch: (string, string) -> bool)
    : (r: Result<seq<T>, PlotError>)
    ensures IsGiven(pattern) ==>
      (r.Err? <==> forall i :: 0 <= i < |rows| ==> !fnmatch(name(rows[i]), pattern.value))
    ensures IsGiven(pattern) && r.Ok? ==>
      KeepsExactly(rows, r.value, x => fnmatch(name(x), pattern.value))
    ensures !IsGiven(pattern) && (list.None? || list.value == []) ==> r == Ok(rows)
    ensures !IsGiven(pattern) && list.Some? && list.value != [] ==>
      r.Ok? && KeepsExactly(rows, r.value, x => name(x) in list.value)
    ensures r.Err? ==> r.error == PatternDidNotMatch
  {
    if IsGiven(pattern) then
      var matched := MatchedNames(rows, name, pattern.value, fnmatch);
      MatchedNamesMeaning(rows, name, pattern.value, fnmatch);
      if |matched| == 0 then
        Err(PatternDidNotMatch)
      else
        KeptIndicesCongruent(rows, x => name(x) in matched, x => fnmatch(name(x), pattern.value));
        Ok(Filter(rows, x => name(x) in matched))
    else if list.None? || |list.value| == 0 then Ok(rows)
    else Ok(Filter(rows, x => name(x) in list.value))
  }

  /** The names of the rows that match the pattern (`fnmatch.filter` over the name column). */
  function MatchedNames<T>(rows: seq<T>, name: T -> string, pattern: string,
                           fnmatch: (string, string) -> bool): (matched: seq<string>)
    ensures KeepsExactly(seq(|rows|, i requires 0 <= i < |rows| => name(rows[i])), matched,
                         m => fnmatch(m, pattern))
  {
    Filter(seq(|rows|, i requires 0 <= i < |rows| => name(rows[i])), m => fnmatch(m, pattern))
  }

  /** A row's name is among the matched names exactly when it matches, so nothing matched
      means no row matches. */
  lemma MatchedNamesMeaning<T>(rows: seq<T>, name: T -> string, pattern: string,
                               fnmatch: (string, string) -> bool)
    ensures forall i :: 0 <= i < |rows| ==>
      (name(rows[i]) in MatchedNames(rows, name, pattern, fnmatch)) == fnmatch(name(rows[i]), pattern)
    ensures |MatchedNames(rows, name, pattern, fnmatch)| == 0 <==>
      forall i :: 0 <= i < |rows| ==> !fnmatch(name(rows[i]), pattern)
  {
    var names := seq(|rows|, i requires 0 <= i < |rows| => name(rows[i]));
    var matched := MatchedNames(rows, name, pattern, fnmatch);
    KeepsExactlyMembers(names, matched, m => fnmatch(m, pattern));
    forall i | 0 <= i < |rows|
      ensures (name(rows[i]) in matched) == fnmatch(name(rows[i]), pattern) {
      assert names[i] in names;
    }
    if |matched| > 0 {
      assert matched[0] in names;
    }
  }

  /** The words of every name, `name.split("_")` concatenated in order. */
  function Tokens(names: seq<string>): (ts: seq<string>)
    ensures names == [] ==> ts == []
  {
    if names == [] then []
    else Tokens(names[..|names| - 1]) + Split(names[|names| - 1], '_')
  }

  /** `autoselect_labels`: the words whose count over the words of the distinct names
      equals the number of distinct names. */
  function AutoselectLabels(names: seq<string>): (r: Result<set<string>, PlotError>)
    ensures r.Err? <==> names == []
    ensures r.Err? ==> r.error == NothingToConcatenate
    ensures r.Ok? ==> forall t :: t in r.value <==>
      t in Tokens(Unique(names)) && multiset(Tokens(Unique(names)))[t] == |Unique(names)|
  {
    if names == [] then Err(NothingToConcatenate)
    else
      var u := Unique(names);
      var words := Tokens(u);
      Ok(set t | t in words && multiset(words)[t] == |u|)
  }

  /** A name that does not repeat any of its words. */
  predicate NoRepeatedWords(name: string)
  {
    Distinct(Split(name, '_'))
  }

  /** `t` is a word of the name. */
  predicate HasWord(name: string, t: string)
  {
    t in Split(name, '_')
  }

  /** How many of the names have t among their words. */
  function NamesWith(names: seq<string>, t: string): (c: nat)
    ensures c <= |names|
    ensures c == |names| <==> forall k :: 0 <= k < |names| ==> HasWord(names[k], t)
  {
    if names == [] then 0
    else
      var init := names[..|names| - 1];
      var c := NamesWith(init, t) + (if HasWord(names[|names| - 1], t) then 1 else 0);
      assert (forall k :: 0 <= k < |names| ==> HasWord(names[k], t)) <==>
        (forall k :: 0 <= k < |init| ==> HasWord(init[k], t)) && HasWord(names[|names| - 1], t) by {
        assert forall k :: 0 <= k < |init| ==> init[k] == names[k];
      }
      c
  }

  lemma {:induction false} DistinctMultiplicity(s: seq<string>, x: string)
    requires Distinct(s)
    ensures multiset(s)[x] == if x in s then 1 else 0
  {
    if s != [] {
      var init := s[..|s| - 1];
      assert s == init + [s[|s| - 1]];
      DistinctMultiplicity(init, x);
      assert s[|s| - 1] !in init by {
        forall k | 0 <= k < |init| ensures init[k] != s[|s| - 1] {
          assert init[k] == s[k];
        }
      }
    }
  }

  lemma {:induction false} TokenCount(names: seq<string>, t: string)
    requires forall k :: 0 <= k < |names| ==> NoRepeatedWords(names[k])
    ensures multiset(Tokens(names))[t] == NamesWith(names, t)
  {
    if names != [] {
      var init := names[..|names| - 1];
      TokenCount(init, t);
      DistinctMultiplicity(Split(names[|names| - 1], '_'), t);
    }
  }

  /** When no name repeats a word, `autoselect_labels` gives exactly the words that
      every name has. */
  lemma CommonWords(names: seq<string>, t: string)
    requires names != []
    requires forall k :: 0 <= k < |names| ==> NoRepeatedWords(names[k])
    ensures t in AutoselectLabels(names).value <==>
      forall k :: 0 <= k < |names| ==> HasWord(names[k], t)
  {
    var u := Unique(names);
    assert forall k :: 0 <= k < |u| ==> NoRepeatedWords(u[k]);
    TokenCount(u, t);
    var words := Tokens(u);
    if forall k :: 0 <= k < |names| ==> HasWord(names[k], t) {
      assert forall k :: 0 <= k < |u| ==> HasWord(u[k], t);
      assert u[0] in names;
      assert t in words by {
        assert |u| > 0;
        assert NamesWith(u, t) > 0;
      }
    } else {
      var k :| 0 <= k < |names| && !HasWord(names[k], t);
      var j :| 0 <= j < |u| && u[j] == names[k];
    }
  }

  /** `filename_to_title`: underscores become spaces and the result is title-cased. */
  function FilenameToTitle(filename: string): (title: string)
    ensures |title| == |filename|
    ensures forall i :: 0 <= i < |title| ==> title[i] != '_'
    ensures forall i :: 0 <= i < |title| ==>
      if filename[i] == '_' then title[i] == ' ' else ToLower(title[i]) == ToLower(filename[i])
    ensures forall i :: 0 <= i < |filename| && IsCased(filename[i]) ==>
      (IsUpper(title[i]) <==> i == 0 || !IsCased(filename[i - 1]))
  {
    var spaced := Replace(filename, '_', ' ');
    assert forall i :: 0 <= i < |filename| ==> IsCased(spaced[i]) == IsCased(filename[i]);
    TitleCasing(spaced);
    Title(Replace(filename, '_', ' '))
  }

  /** A title is its own title. */
  lemma FilenameToTitleIdempotent(filename: string)
    ensures FilenameToTitle(FilenameToTitle(filename)) == FilenameToTitle(filename)
  {
    var t := FilenameToTitle(filename);
    assert Replace(t, '_', ' ') == t;
    TitleIdempotent(Replace(filename, '_', ' '));
  }

  /** A string with no c in any part and none in the separator has no c after joining. */
  lemma {:induction false} JoinAvoids(sep: string, parts: seq<string>, c: char)
    requires c !in sep
    requires forall k :: 0 <= k < |parts| ==> c !in parts[k]
    ensures c !in Join(sep, parts)
  {
    if |parts| > 1 {
      JoinAvoids(sep, parts[1..], c);
    }
  }

  /** The words of the measure name that are not in `repeated`, in order: exactly the
      words the filter keeps, none holding an underscore, and none holding a space when
      the name has none. */
  function KeptWords(measureName: string, repeated: set<string>): (kept: seq<string>)
    ensures KeepsExactly(Split(measureName, '_'), kept, x => x !in repeated)
    ensures forall k :: 0 <= k < |kept| ==> '_' !in kept[k] && kept[k] !in repeated
    ensures ' ' !in measureName ==> forall k :: 0 <= k < |kept| ==> ' ' !in kept[k]
  {
    var parts := Split(measureName, '_');
    var kept := Filter(parts, x => x !in repeated);
    KeepsExactlyMembers(parts, kept, x => x !in repeated);
    assert ' ' !in measureName ==> forall k :: 0 <= k < |parts| ==> ' ' !in parts[k] by {
      if ' ' !in measureName {
        SplitAvoids(measureName, '_', ' ');
      }
    }
    assert forall k :: 0 <= k < |kept| ==> kept[k] in parts;
    kept
  }

  /** `translate_group`: with `autolabel`, the words of the measure name that are not
      in `repeated`, joined by spaces and title-cased; otherwise the title of the
      group variable. */
  function TranslateGroup(groupVar: string, measureName: string, repeated: set<string>, autolabel: bool)
    : (title: string)
    ensures !autolabel ==> title == FilenameToTitle(groupVar)
    ensures forall i :: 0 <= i < |title| ==> title[i] != '_'
    ensures autolabel ==> |title| <= |measureName|
  {
    if autolabel then
      var joined := Join(" ", KeptWords(measureName, repeated));
      JoinAvoids(" ", KeptWords(measureName, repeated), '_');
      KeptWordsShorter(measureName, repeated);
      TitleCasing(joined);
      Title(joined)
    else FilenameToTitle(groupVar)
  }

  /** A sub-list of the words, joined by one character, is no longer than the name. */
  lemma KeptWordsShorter(measureName: string, repeated: set<string>)
    ensures |Join(" ", KeptWords(measureName, repeated))| <= |measureName|
  {
    JoinSplit(measureName, '_');
    JoinSublistShorter(Split(measureName, '_'), x => x !in repeated);
  }

  /** Total length of a join with one-character separators. */
  lemma {:induction false} JoinLength(parts: seq<string>, sep: string)
    requires |sep| == 1
    ensures |Join(sep, parts)| == SumLengths(parts) + (if parts == [] then 0 else |parts| - 1)
  {
    if |parts| > 1 {
      JoinLength(parts[1..], sep);
    }
  }

  function SumLengths(parts: seq<string>): nat
  {
    if parts == [] then 0 else |parts[0]| + SumLengths(parts[1..])
  }

  lemma {:induction false} SumLengthsSnoc(parts: seq<string>, x: string)
    ensures SumLengths(parts + [x]) == SumLengths(parts) + |x|
  {
    if parts != [] {
      assert (parts + [x])[1..] == parts[1..] + [x];
      SumLengthsSnoc(parts[1..], x);
    }
  }

  lemma {:induction false} FilterShorter(parts: seq<string>, p: string -> bool)
    ensures SumLengths(Filter(parts, p)) <= SumLengths(parts)
    ensures |Filter(parts, p)| <= |parts|
  {
    if parts != [] {
      var init := parts[..|parts| - 1];
      var last := parts[|parts| - 1];
      FilterShorter(init, p);
      assert parts == init + [last];
      SumLengthsSnoc(init, last);
      if p(last) {
        SumLengthsSnoc(Filter(init, p), last);
      } else {
        assert Filter(parts, p) == Filter(init, p);
      }
    }
  }

  lemma JoinSublistShorter(parts: seq<string>, p: string -> bool)
    ensures |Join(" ", Filter(parts, p))| <= |Join("_", parts)|
  {
    JoinLength(Filter(parts, p), " ");
    JoinLength(parts, "_");
    FilterShorter(parts, p);
  }

  /** What the autolabel is: read back word by word at its spaces, it is the words of the
      measure name that are not repeated, in order and up to case; no word kept gives the
      empty title. (A name that already holds a space would run its words together.) */
  lemma TranslateGroupWords(groupVar: string, measureName: string, repeated: set<string>)
    requires ' ' !in measureName
    ensures var kept := KeptWords(measureName, repeated);
      var title := TranslateGroup(groupVar, measureName, repeated, true);
      && (kept == [] ==> title == "")
      && (kept != [] ==> |Split(title, ' ')| == |kept|)
      && (kept != [] ==> forall k :: 0 <= k < |kept| ==> LowerAll(Split(title, ' ')[k]) == LowerAll(kept[k]))
  {
    var kept := KeptWords(measureName, repeated);
    var joined := Join(" ", kept);
    var title := Title(joined);
    assert title == TranslateGroup(groupVar, measureName, repeated, true);
    if kept != [] {
      SplitJoin(kept, ' ');
      assert Split(joined, ' ') == kept;
      TitleCasing(joined);
      assert LowerAll(title) == LowerAll(joined);
      SplitLower(title, ' ');
      SplitLower(joined, ' ');
    }
  }

  /** Each letter of the autolabel is upper-case exactly when it starts a run of letters. */
  lemma TranslateGroupCasing(groupVar: string, measureName: string, repeated: set<string>)
    ensures var title := TranslateGroup(groupVar, measureName, repeated, true);
      forall i :: 0 <= i < |title| && IsCased(title[i]) ==>
        (IsUpper(title[i]) <==> i == 0 || !IsCased(title[i - 1]))
  {
    TitleCasing(Join(" ", KeptWords(measureName, repeated)));
  }

  /** A name none of whose words are repeated elsewhere gets the same title as
      `filename_to_title` would give it. */
  lemma TranslateKeepsAllWords(groupVar: string, measureName: string, repeated: set<string>)
    requires forall k :: 0 <= k < |Split(measureName, '_')| ==> Split(measureName, '_')[k] !in repeated
    ensures TranslateGroup(groupVar, measureName, repeated, true) == FilenameToTitle(measureName)
  {
    FilterAll(Split(measureName, '_'), x => x !in repeated);
    JoinSplitReplace(measureName, '_', ' ');
  }

  /** The shape of the panel figure `get_group_chart` lays out. */
  datatype Layout = Layout(repeated: set<string>, total: nat, rows: int)

  /** The checks and the grid arithmetic of `get_group_chart`, in the order the
      function meets them: one panel per distinct measure name, at most ten panels,
      and just enough rows of `columns` panels to hold them all. */
  method PanelLayout(names: seq<string>, columns: int) returns (r: Result<Layout, PlotError>)
    ensures columns < 0 ==> r == Err(NegativeFigureSize)
    ensures columns >= 0 && names == [] ==> r == Err(NothingToConcatenate)
    ensures columns >= 0 && names != [] && |Unique(names)| > 10 ==>
      r == Err(TooManyPlots(|Unique(names)|))
    ensures columns == 0 && names != [] && |Unique(names)| <= 10 ==> r == Err(DivisionByZero)
    ensures r.Ok? <==> columns > 0 && names != [] && |Unique(names)| <= 10
    ensures r.Ok? ==>
      && Ok(r.value.repeated) == AutoselectLabels(names)
      && r.value.total == |Unique(names)|
      && EnoughRows(r.value.rows, columns, r.value.total)
  {
    if columns < 0 {
      return Err(NegativeFigureSize);
    }
    var repeated := AutoselectLabels(names);
    if repeated.Err? {
      return Err(repeated.error);
    }
    var total := |Unique(names)|;
    if total > 10 {
      return Err(TooManyPlots(total));
    }
    if columns == 0 {
      return Err(DivisionByZero);
    }
    assert names[0] in Unique(names);
    var rows := total / columns + (if total % columns > 0 then 1 else 0);
    CeilingRows(total, columns);
    return Ok(Layout(repeated.value, total, rows));
  }

  /** rows rows of `columns` panels hold `total` panels, and one row fewer would not. */
  predicate EnoughRows(rows: int, columns: int, total: int)
  {
    rows >= 1 && (rows - 1) * columns < total <= rows * columns
  }

  /** `total // columns`, plus one when there is a remainder, is the least number of
      rows of `columns` panels that holds `total` panels. */
  lemma CeilingRows(total: int, columns: int)
    requires total >= 1 && columns >= 1
    ensures EnoughRows(total / columns + (if total % columns > 0 then 1 else 0), columns, total)
  {
    var q := total / columns;
    var m := total % columns;
    assert total == q * columns + m;
    if m > 0 {
      assert (q + 1) * columns == q * columns + columns;
    } else {
      assert (q - 1) * columns == q * columns - columns;
      assert q * columns == total;
    }
  }

  /** The rows of one panel that are drawn: those whose group is not the excluded one
      (a row with no group is kept; with no exclusion every row is kept). */
  function ExcludeGroup<T>(rows: seq<T>, group: T -> Option<string>, exclude: Option<string>)
    : (r: seq<T>)
    ensures KeepsExactly(rows, r, x => exclude.None? || group(x) != Some(exclude.value))
    ensures exclude.Some? ==> forall k :: 0 <= k < |r| ==> group(r[k]) != Some(exclude.value)
    ensures exclude.None? ==> r == rows
  {
    var keep := x => exclude.None? || group(x) != Some(exclude.value);
    assert exclude.None? ==> Filter(rows, keep) == rows by {
      if exclude.None? {
        FilterAll(rows, keep);
      }
    }
    Filter(rows, keep)
  }

  /** What `pandas.to_datetime` makes of a date-line argument: an exception, the
      missing time NaT (which compares false with everything), or a time. */
  datatype Parsed = Raises | NaT | At(time: int)

  /** i is the position of the first date-line argument that cannot be read. */
  predicate FirstRaising(dates: seq<string>, toDate: string -> Parsed, i: int)
  {
    0 <= i < |dates| && toDate(dates[i]) == Raises
    && forall j :: 0 <= j < i ==> toDate(dates[j]) != Raises
  }

  /** The vertical lines `add_date_lines` draws: the parsed dates between the first
      and last date of the table, in argument order, or the error raised by the first
      argument that cannot be read (parsing is outside the `try`). */
  function DateLines(dates: seq<string>, toDate: string -> Parsed, first: int, last: int)
    : (r: Result<seq<int>, PlotError>)
    ensures dates == [] ==> r == Ok([])
  {
    if dates == [] then Ok([])
    else
      var d := toDate(dates[0]);
      if d == Raises then Err(UnparseableDate(dates[0]))
      else
        var rest := DateLines(dates[1..], toDate, first, last);
        if rest.Err? then rest
        else Ok((if d.At? && first <= d.time <= last then [d.time] else []) + rest.value)
  }

  /** What `add_date_lines` does with its arguments: it fails exactly when some
      argument cannot be read, naming the first such one, and otherwise draws exactly
      the readable dates that lie between the first and last date of the table. */
  lemma {:induction false} DateLinesMeaning(dates: seq<string>, toDate: string -> Parsed, first: int, last: int)
    ensures var r := DateLines(dates, toDate, first, last);
      && (r.Err? <==> exists i :: 0 <= i < |dates| && toDate(dates[i]) == Raises)
      && (r.Err? ==> exists i :: FirstRaising(dates, toDate, i) && r.error == UnparseableDate(dates[i]))
      && (r.Ok? ==> forall t :: t in r.value <==>
            exists i :: 0 <= i < |dates| && toDate(dates[i]) == At(t) && first <= t <= last)
  {
    if dates != [] {
      DateLinesMeaning(dates[1..], toDate, first, last);
      var rest := DateLines(dates[1..], toDate, first, last);
      var d := toDate(dates[0]);
      if d == Raises {
        assert FirstRaising(dates, toDate, 0);
      } else if rest.Err? {
        assert exists i :: 0 <= i < |dates| && toDate(dates[i]) == Raises by {
          var i :| 0 <= i < |dates[1..]| && toDate(dates[1..][i]) == Raises;
          assert toDate(dates[i + 1]) == Raises;
        }
        assert exists i :: FirstRaising(dates, toDate, i) && rest.error == UnparseableDate(dates[i]) by {
          var i :| FirstRaising(dates[1..], toDate, i) && rest.error == UnparseableDate(dates[1..][i]);
          forall j | 0 <= j < i + 1 ensures toDate(dates[j]) != Raises {
            if j > 0 { assert dates[j] == dates[1..][j - 1]; }
          }
          assert dates[i + 1] == dates[1..][i];
          assert FirstRaising(dates, toDate, i + 1);
        }
      } else {
        var here := if d.At? && first <= d.time <= last then [d.time] else [];
        forall i | 0 <= i < |dates| ensures toDate(dates[i]) != Raises {
          if i > 0 { assert dates[i] == dates[1..][i - 1]; }
        }
        forall t ensures t in here + rest.value <==>
          exists i :: 0 <= i < |dates| && toDate(dates[i]) == At(t) && first <= t <= last {
          if t in rest.value {
            var i :| 0 <= i < |dates[1..]| && toDate(dates[1..][i]) == At(t) && first <= t <= last;
            assert toDate(dates[i + 1]) == At(t);
          }
          if exists i :: 0 <= i < |dates| && toDate(dates[i]) == At(t) && first <= t <= last {
            var i :| 0 <= i < |dates| && toDate(dates[i]) == At(t) && first <= t <= last;
            if i > 0 { assert dates[1..][i - 1] == dates[i]; }
          }
        }
      }
    }
  }

  /** `add_date_lines`: the loop over the date-line arguments, drawing each date that
      falls in range. */
  method AddDateLines(dates: seq<string>, toDate: string -> Parsed, first: int, last: int)
    returns (r: Result<seq<int>, PlotError>)
    ensures r == DateLines(dates, toDate, first, last)
  {
    var drawn: seq<int> := [];
    var i := 0;
    assert dates[i..] == dates;
    ghost var whole := DateLines(dates, toDate, first, last);
    assert whole.Ok? ==> drawn + whole.value == whole.value;
    while i < |dates|
      invariant 0 <= i <= |dates|
      invariant DateLines(dates[i..], toDate, first, last).Ok? ==>
        DateLines(dates, toDate, first, last)
          == Ok(drawn + DateLines(dates[i..], toDate, first, last).value)
      invariant DateLines(dates[i..], toDate, first, last).Err? ==>
        DateLines(dates, toDate, first, last) == DateLines(dates[i..], toDate, first, last)
    {
      var d := toDate(dates[i]);
      assert dates[i..][1..] == dates[i + 1..];
      assert dates[i..][0] == dates[i];
      if d == Raises {
        return Err(UnparseableDate(dates[i]));
      }
      ghost var later := DateLines(dates[i + 1..], toDate, first, last);
      if d.At? && first <= d.time <= last {
        assert later.Ok? ==> (drawn + [d.time]) + later.value == drawn + ([d.time] + later.value);
        drawn := drawn + [d.time];
      } else {
        assert later.Ok? ==> drawn + later.value == drawn + ([] + later.value);
      }
      i := i + 1;
    }
    assert dates[i..] == [];
    assert drawn + [] == drawn;
    return Ok(drawn);
  }
}
