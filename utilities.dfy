/** The analysis utilities: small-number redaction of a measure table, the recoding of
    ethnicity and binary columns, and the row filters and practice count. */
module Utilities {
  import opened Tables

  /** A numerator or denominator column: integer counts, some of them missing. */
  type Column = seq<Option<int>>

  datatype RedactionError =
    /** `idxmin` was asked for the position of the minimum of a column whose every cell
        is missing. */
    AllMissing

  // ---------------------------------------------------------------------------
  // The steps of `suppress_column`, as functions of the column.

  /** The candidates' sum: the total of the visible values at most n. */
  function CandidateSum(s: Column, n: int): (total: int)
    ensures NonNegative(s) ==> total >= 0
    ensures NonNegative(s) ==>
      (total == 0 <==> forall i :: 0 <= i < |s| && s[i].Some? && s[i].value <= n ==> s[i].value == 0)
  {
    if s == [] then 0
    else
      var rest := CandidateSum(s[1..], n);
      assert forall i :: 1 <= i < |s| ==> s[1..][i - 1] == s[i];
      assert NonNegative(s) ==> NonNegative(s[1..]);
      (if s[0].Some? && s[0].value <= n then s[0].value else 0) + rest
  }

  /** A cell holding one of the values 0 to 5, which the replacement step hides whatever
      the threshold. */
  predicate IsSmall(c: Option<int>)
  {
    c.Some? && 0 <= c.value <= 5
  }

  function ReplaceSmall(s: Column): (r: Column)
    ensures OnlyBlanks(s, r)
    ensures forall i :: 0 <= i < |r| ==> !IsSmall(r[i])
    ensures forall i :: 0 <= i < |s| ==> (r[i].None? <==> s[i].None? || IsSmall(s[i]))
  {
    seq(|s|, i requires 0 <= i < |s| => if IsSmall(s[i]) then None else s[i])
  }

  /** `idxmin`: the position of the first occurrence of the smallest visible value,
      or None when every cell is missing. */
  function FirstMin(s: Column): (r: Option<nat>)
    ensures r.None? <==> forall j :: 0 <= j < |s| ==> s[j].None?
    ensures r.Some? ==> r.value < |s| && s[r.value].Some?
  {
    if s == [] then None
    else
      var init := s[..|s| - 1];
      var prev := FirstMin(init);
      var last := s[|s| - 1];
      assert forall j :: 0 <= j < |init| ==> init[j] == s[j];
      if last.Some? && (prev.None? || last.value < s[prev.value].value) then Some(|s| - 1)
      else prev
  }

  /** The position FirstMin finds holds the smallest visible value, and no earlier
      position holds a value that small. */
  lemma {:induction false} FirstMinIsIdxmin(s: Column)
    ensures var r := FirstMin(s);
      r.Some? ==>
        && (forall j :: 0 <= j < |s| && s[j].Some? ==> s[r.value].value <= s[j].value)
        && (forall j :: 0 <= j < r.value && s[j].Some? ==> s[r.value].value < s[j].value)
  {
    if s != [] {
      var init := s[..|s| - 1];
      FirstMinIsIdxmin(init);
      assert forall j :: 0 <= j < |init| ==> init[j] == s[j];
    }
  }

  /** The number of visible cells; each pass of the loop removes one. */
  function VisibleCount(s: Column): nat
  {
    if s == [] then 0 else (if s[0].Some? then 1 else 0) + VisibleCount(s[1..])
  }

  lemma {:induction false} VisibleCountBlank(s: Column, i: nat)
    requires i < |s| && s[i].Some?
    ensures VisibleCount(s[i := None]) == VisibleCount(s) - 1
  {
    if i == 0 {
      assert s[i := None][1..] == s[1..];
    } else {
      VisibleCountBlank(s[1..], i - 1);
      assert s[i := None][1..] == s[1..][i - 1 := None];
    }
  }

  /** r differs from s only by cells that became missing: it has the same length,
      every visible cell of r holds the value of s there, and a cell missing in s is
      missing in r. */
  predicate OnlyBlanks(s: Column, r: Column)
  {
    |r| == |s| && forall i :: 0 <= i < |s| ==> r[i] == s[i] || r[i].None?
  }

  /** The total of the values of s that are missing in r. */
  function HiddenSum(s: Column, r: Column): int
    requires |r| == |s|
  {
    if s == [] then 0
    else (if s[0].Some? && r[0].None? then s[0].value else 0) + HiddenSum(s[1..], r[1..])
  }

  function AllBlank(k: nat): Column
  {
    seq(k, i => None)
  }

  /** The total of the visible values of s. */
  function VisibleSum(s: Column): int
  {
    HiddenSum(s, AllBlank(|s|))
  }

  /** The suppression loop: while the running total is at most n, blank the first
      smallest visible cell and add its value to the total; started from the column t
      and the running total count. On success the column
      has only lost cells and the running total, that is count plus the values the loop
      hid, exceeds n. */
  function BlankLoop(t: Column, count: int, n: int): (r: Result<Column, RedactionError>)
    ensures r.Ok? ==> OnlyBlanks(t, r.value) && count + HiddenSum(t, r.value) > n
    decreases VisibleCount(t)
  {
    if count > n then
      HiddenSumSelf(t);
      Ok(t)
    else
      match FirstMin(t)
      case None => Err(AllMissing)
      case Some(i) =>
        var t' := t[i := None];
        VisibleCountBlank(t, i);
        var r := BlankLoop(t', count + t[i].value, n);
        if r.Ok? then
          HiddenSumBlank(t, i, r.value);
          r
        else r
  }

  /** One pass of the loop: blank the first minimum and add it to the running total. */
  lemma BlankLoopStep(t: Column, count: int, n: int, i: nat)
    requires count <= n && FirstMin(t) == Some(i)
    ensures i < |t| && t[i].Some?
    ensures VisibleCount(t[i := None]) < VisibleCount(t)
    ensures BlankLoop(t, count, n) == BlankLoop(t[i := None], count + t[i].value, n)
  {
    VisibleCountBlank(t, i);
  }

  /** The loop stops with the column as it is once the running total exceeds n, and
      fails when it would need a minimum of a column with nothing left visible. */
  lemma BlankLoopEnds(t: Column, count: int, n: int)
    ensures count > n ==> BlankLoop(t, count, n) == Ok(t)
    ensures count <= n && FirstMin(t).None? ==> BlankLoop(t, count, n) == Err(AllMissing)
  {
  }

  /** With candidates, suppression is the loop started on the column with 0 to 5
      hidden. */
  lemma SuppressStart(s: Column, n: int)
    requires CandidateSum(s, n) != 0
    ensures Suppress(s, n) == BlankLoop(ReplaceSmall(s), CandidateSum(s, n), n)
  {
  }

  /** `suppress_column`: nothing happens when the candidates sum to zero; otherwise the
      values 0 to 5 are hidden and the loop runs from the candidates' sum. */
  function Suppress(s: Column, n: int): (r: Result<Column, RedactionError>)
    ensures CandidateSum(s, n) == 0 ==> r == Ok(s)
    ensures r.Ok? ==> OnlyBlanks(s, r.value)
    ensures CandidateSum(s, n) != 0 && r.Ok? ==> forall i :: 0 <= i < |s| ==> !IsSmall(r.value[i])
  {
    var total := CandidateSum(s, n);
    if total == 0 then Ok(s)
    else
      var r := BlankLoop(ReplaceSmall(s), total, n);
      if r.Ok? then
        OnlyBlanksTransitive(s, ReplaceSmall(s), r.value);
        r
      else r
  }

  // ---------------------------------------------------------------------------
  // The imperative step.

  /** The loop of `suppress_column` on the working column: while the running total is at
      most n, add the first smallest visible value to it and blank that cell. */
  method BlankPasses(column: Column, total: int, n: int) returns (r: Result<Column, RedactionError>)
    ensures r == BlankLoop(column, total, n)
  {
    var work := column;
    var suppressed := total;
    while suppressed <= n
      invariant BlankLoop(work, suppressed, n) == BlankLoop(column, total, n)
      decreases VisibleCount(work)
    {
      var k := FirstMin(work);
      if k.None? {
        BlankLoopEnds(work, suppressed, n);
        return Err(AllMissing);
      }
      var i := k.value;
      BlankLoopStep(work, suppressed, n, i);
      suppressed := suppressed + work[i].value;
      work := work[i := None];
    }
    BlankLoopEnds(work, suppressed, n);
    return Ok(work);
  }

  /** `suppress_column`: the running total starts at the candidates' sum; when that is
      not zero the values 0 to 5 are hidden and the loop runs on what is left. */
  method SuppressColumn(column: Column, n: int) returns (r: Result<Column, RedactionError>)
    ensures r == Suppress(column, n)
  {
    var suppressed := CandidateSum(column, n);
    if suppressed == 0 {
      return Ok(column);
    }
    SuppressStart(column, n);
    r := BlankPasses(ReplaceSmall(column), suppressed, n);
  }

  /** The rate column after redaction: missing wherever the numerator or the denominator
      is missing, unchanged elsewhere. */
  function MaskRates<R>(num: Column, den: Column, rate: seq<Option<R>>): (r: seq<Option<R>>)
    requires |num| == |rate| && |den| == |rate|
    ensures |r| == |rate|
    ensures forall i :: 0 <= i < |rate| ==> (r[i].None? <==> num[i].None? || den[i].None? || rate[i].None?)
    ensures forall i :: 0 <= i < |rate| && num[i].Some? && den[i].Some? ==> r[i] == rate[i]
  {
    seq(|rate|, i requires 0 <= i < |rate| => if num[i].None? || den[i].None? then None else rate[i])
  }

  /** The part of a measures data frame that redaction touches: the numerator,
      denominator and rate columns, one cell per row. */
  class MeasureTable<R> {
    var numerator: Column
    var denominator: Column
    var rate: seq<Option<R>>

    /** All columns of a data frame have one cell per row. */
    ghost predicate Valid()
      reads this
    {
      |numerator| == |rate| && |denominator| == |rate|
    }

    constructor (numerator: Column, denominator: Column, rate: seq<Option<R>>)
      requires |numerator| == |rate| && |denominator| == |rate|
      ensures Valid()
      ensures this.numerator == numerator && this.denominator == denominator && this.rate == rate
    {
      this.numerator := numerator;
      this.denominator := denominator;
      this.rate := rate;
    }

    /** `redact_small_numbers` with threshold n: each count
        column is suppressed on its own and reassigned; then the rate is blanked in
        every row where either count is missing. An error in the denominator leaves
        the already redacted numerator in place. */
    method RedactSmallNumbers(n: int) returns (outcome: Result<(), RedactionError>)
      requires Valid()
      modifies this
      ensures Valid()
      ensures match Suppress(old(numerator), n)
        case Err(e) =>
          outcome == Err(e) && numerator == old(numerator) && denominator == old(denominator)
          && rate == old(rate)
        case Ok(num) =>
          numerator == num &&
          match Suppress(old(denominator), n)
          case Err(e) => outcome == Err(e) && denominator == old(denominator) && rate == old(rate)
          case Ok(den) =>
            outcome == Ok(()) && denominator == den
            && rate == MaskRates(num, den, old(rate))
    {
      var num := SuppressColumn(numerator, n);
      if num.Err? {
        return Err(num.error);
      }
      numerator := num.value;
      var den := SuppressColumn(denominator, n);
      if den.Err? {
        return Err(den.error);
      }
      denominator := den.value;
      rate := MaskRates(numerator, denominator, rate);
      return Ok(());
    }
  }

  /** After a successful redaction the rate of a row is missing exactly when a count of
      that row is missing or the rate already was; every other rate is untouched. */
  lemma RateFollowsCounts<R>(num: Column, den: Column, rate: seq<Option<R>>, n: int, i: int)
    requires |num| == |rate| && |den| == |rate| && 0 <= i < |rate|
    requires Suppress(num, n).Ok? && Suppress(den, n).Ok?
    ensures var num', den' := Suppress(num, n).value, Suppress(den, n).value;
      var rate' := MaskRates(num', den', rate);
      |rate'| == |rate|
      && (rate'[i].None? <==> num'[i].None? || den'[i].None? || rate[i].None?)
      && (num'[i].Some? && den'[i].Some? ==> rate'[i] == rate[i])
  {
  }

  // ---------------------------------------------------------------------------
  // Facts about the running totals.

  lemma {:induction false} HiddenSumSelf(s: Column)
    ensures HiddenSum(s, s) == 0
  {
    if s != [] {
      HiddenSumSelf(s[1..]);
    }
  }

  /** Hiding one more visible cell of t adds its value to what is hidden from t. */
  lemma {:induction false} HiddenSumBlank(t: Column, i: nat, r: Column)
    requires |r| == |t| && i < |t| && t[i].Some? && r[i].None?
    ensures HiddenSum(t, r) == t[i].value + HiddenSum(t[i := None], r)
  {
    if i == 0 {
      assert t[i := None][1..] == t[1..];
    } else {
      assert t[i := None][1..] == t[1..][i - 1 := None];
      HiddenSumBlank(t[1..], i - 1, r[1..]);
    }
  }

  lemma {:induction false} OnlyBlanksTransitive(s: Column, t: Column, r: Column)
    requires OnlyBlanks(s, t) && OnlyBlanks(t, r)
    ensures OnlyBlanks(s, r)
    ensures HiddenSum(s, r) == HiddenSum(s, t) + HiddenSum(t, r)
  {
    if s != [] {
      OnlyBlanksTransitive(s[1..], t[1..], r[1..]);
    }
  }

  predicate NonNegative(s: Column)
  {
    forall i :: 0 <= i < |s| && s[i].Some? ==> s[i].value >= 0
  }

  /** With non-negative counts and n at most 5, every candidate is one of the values
      0 to 5, so the candidates' sum is at most what the replacement hides; at n = 5
      the two are equal. */
  lemma {:induction false} CandidatesAreHidden(s: Column, n: int)
    requires NonNegative(s) && n <= 5
    ensures CandidateSum(s, n) <= HiddenSum(s, ReplaceSmall(s))
    ensures n == 5 ==> CandidateSum(s, n) == HiddenSum(s, ReplaceSmall(s))
  {
    if s != [] {
      assert ReplaceSmall(s)[1..] == ReplaceSmall(s[1..]);
      CandidatesAreHidden(s[1..], n);
    }
  }

  /** A column whose visible values all exceed n has no candidates. */
  lemma {:induction false} NoCandidates(s: Column, n: int)
    requires forall i :: 0 <= i < |s| && s[i].Some? ==> s[i].value > n
    ensures CandidateSum(s, n) == 0
  {
    if s != [] {
      NoCandidates(s[1..], n);
    }
  }

  lemma {:induction false} VisibleSumBlank(t: Column, i: nat)
    requires i < |t| && t[i].Some?
    ensures VisibleSum(t) == t[i].value + VisibleSum(t[i := None])
  {
    HiddenSumBlank(t, i, AllBlank(|t|));
  }

  lemma {:induction false} VisibleSumOfAllMissing(t: Column)
    requires forall j :: 0 <= j < |t| ==> t[j].None?
    ensures VisibleSum(t) == 0
  {
    if t != [] {
      assert AllBlank(|t|)[1..] == AllBlank(|t| - 1);
      VisibleSumOfAllMissing(t[1..]);
    }
  }

  lemma {:induction false} VisibleSumNonNegative(t: Column)
    requires NonNegative(t)
    ensures VisibleSum(t) >= 0
  {
    if t != [] {
      assert AllBlank(|t|)[1..] == AllBlank(|t| - 1);
      VisibleSumNonNegative(t[1..]);
    }
  }

  // ---------------------------------------------------------------------------
  // The properties of redaction.

  /** With non-negative counts the loop fails (all-missing `idxmin`) exactly when even
      hiding every visible value cannot lift the running total above n. */
  lemma {:induction false} BlankLoopFails(t: Column, count: int, n: int)
    requires NonNegative(t)
    ensures BlankLoop(t, count, n).Err? <==> count + VisibleSum(t) <= n
    decreases VisibleCount(t)
  {
    VisibleSumNonNegative(t);
    if count <= n {
      match FirstMin(t)
      case None =>
        VisibleSumOfAllMissing(t);
      case Some(i) =>
        var t' := t[i := None];
        VisibleCountBlank(t, i);
        BlankLoopFails(t', count + t[i].value, n);
        VisibleSumBlank(t, i);
    }
  }

  /** `suppress_column` raises exactly when there are candidates and the candidates'
      sum plus every value left visible after the 0 to 5 replacement is at most n;
      at n = 5 that is when the visible values of the column sum to at most 5. */
  lemma SuppressFails(s: Column, n: int)
    requires NonNegative(s)
    ensures Suppress(s, n).Err? <==>
      CandidateSum(s, n) != 0 && CandidateSum(s, n) + VisibleSum(ReplaceSmall(s)) <= n
    ensures n == 5 ==> (Suppress(s, n).Err? <==> CandidateSum(s, n) != 0 && VisibleSum(s) <= 5)
  {
    var t := ReplaceSmall(s);
    BlankLoopFails(t, CandidateSum(s, n), n);
    if n == 5 {
      CandidatesAreHidden(s, n);
      assert OnlyBlanks(s, t);
      assert OnlyBlanks(t, AllBlank(|s|));
      OnlyBlanksTransitive(s, t, AllBlank(|s|));
    }
  }

  /** The suppression floor: with non-negative counts and n at most 5 (the QOF value is
      5), whenever redaction changes a column the values it hid total more than n. */
  lemma SuppressionFloor(s: Column, n: int)
    requires NonNegative(s) && n <= 5
    requires Suppress(s, n).Ok? && Suppress(s, n).value != s
    ensures HiddenSum(s, Suppress(s, n).value) > n
  {
    var t := ReplaceSmall(s);
    var r := Suppress(s, n).value;
    CandidatesAreHidden(s, n);
    OnlyBlanksTransitive(s, t, r);
  }

  /** Idempotence: with non-negative counts and n at most 5, redacting a redacted
      column changes nothing. */
  lemma RedactionIdempotent(s: Column, n: int)
    requires NonNegative(s) && n <= 5
    requires Suppress(s, n).Ok?
    ensures Suppress(Suppress(s, n).value, n) == Suppress(s, n)
  {
    var r := Suppress(s, n).value;
    if CandidateSum(s, n) != 0 {
      NoCandidates(r, n);
    }
  }

  /** Worked example: [0, 1, 2, 3, 8] loses its four small cells. */
  lemma RedactionExampleSmall()
    ensures Suppress([Some(0), Some(1), Some(2), Some(3), Some(8)], 5)
         == Ok([None, None, None, None, Some(8)])
  {
    var a := [Some(0), Some(1), Some(2), Some(3), Some(8)];
    assert CandidateSum(a, 5) == 6;
    assert ReplaceSmall(a) == [None, None, None, None, Some(8)];
  }

  /** Worked example: [6, 7, 9] has no candidate and stays as it is. */
  lemma RedactionExampleNone()
    ensures Suppress([Some(6), Some(7), Some(9)], 5) == Ok([Some(6), Some(7), Some(9)])
  {
    assert CandidateSum([Some(6), Some(7), Some(9)], 5) == 0;
  }

  /** Worked example: in [1, 7, 9] the loop hides the 7 after the 1. */
  lemma RedactionExampleLarger()
    ensures Suppress([Some(1), Some(7), Some(9)], 5) == Ok([None, None, Some(9)])
  {
    var b := [Some(1), Some(7), Some(9)];
    assert CandidateSum(b, 5) == 1;
    assert ReplaceSmall(b) == [None, Some(7), Some(9)];
    assert FirstMin([None, Some(7), Some(9)]) == Some(1);
    assert [None, Some(7), Some(9)][1 := None] == [None, None, Some(9)];
  }

  /** Worked example: [1, 2] runs out of values. */
  lemma RedactionExampleExhausted()
    ensures Suppress([Some(1), Some(2)], 5) == Err(AllMissing)
  {
    var c := [Some(1), Some(2)];
    assert CandidateSum(c, 5) == 3;
    assert ReplaceSmall(c) == [None, None];
    assert FirstMin([None, None]) == None;
  }

  /** Above 5 the hard-coded replacement no longer matches the threshold: at n = 10,
      [5, 6] keeps the candidate 6 visible after hiding only 5, and a second
      redaction then hides the 6. */
  lemma ThresholdAboveFive()
    ensures Suppress([Some(5), Some(6)], 10) == Ok([None, Some(6)])
    ensures HiddenSum([Some(5), Some(6)], [None, Some(6)]) == 5
    ensures Suppress([None, Some(6)], 10) == Ok([None, None])
  {
    var a := [Some(5), Some(6)];
    assert CandidateSum(a, 10) == 11;
    assert ReplaceSmall(a) == [None, Some(6)];
    var b := [None, Some(6)];
    assert CandidateSum(b, 10) == 6;
    assert ReplaceSmall(b) == b;
    assert FirstMin(b) == Some(1);
    assert b[1 := None] == [None, None];
  }

  // ---------------------------------------------------------------------------
  // Recoding helpers.

  /** A data-frame cell of a column that mixes codes and labels. */
  datatype Cell = Missing | Num(code: int) | Label(text: string)

  /** The `ethnicity_codes` replacement of one cell. */
  function EthnicityLabel(c: Cell): (r: Cell)
    ensures c == Missing || c == Num(0) ==> r == Label("unknown")
    ensures c == Num(1) ==> r == Label("White")
    ensures c == Num(2) ==> r == Label("Mixed")
    ensures c == Num(3) ==> r == Label("Asian")
    ensures c == Num(4) ==> r == Label("Black")
    ensures c == Num(5) ==> r == Label("Other")
    ensures !(c.Missing? || (c.Num? && 0 <= c.code <= 5)) ==> r == c
  {
    match c
    case Missing => Label("unknown")
    case Label(_) => c
    case Num(k) =>
      if k == 0 then Label("unknown")
      else if k == 1 then Label("White")
      else if k == 2 then Label("Mixed")
      else if k == 3 then Label("Asian")
      else if k == 4 then Label("Black")
      else if k == 5 then Label("Other")
      else c
  }

  /** `convert_ethnicity`: the ethnicity column with every code 0 to 5 and every missing
      cell replaced by its label. No missing cell and no code 0 to 5 remains, and the
      distinct codes 1 to 5 keep distinct labels. */
  function ConvertEthnicity(column: seq<Cell>): (r: seq<Cell>)
    ensures |r| == |column|
    ensures forall i :: 0 <= i < |r| ==> r[i] == EthnicityLabel(column[i])
    ensures forall i :: 0 <= i < |r| ==> r[i] != Missing && !(r[i].Num? && 0 <= r[i].code <= 5)
  {
    seq(|column|, i requires 0 <= i < |column| => EthnicityLabel(column[i]))
  }

  /** Converting an already converted column changes nothing. */
  lemma ConvertEthnicityIdempotent(column: seq<Cell>)
    ensures ConvertEthnicity(ConvertEthnicity(column)) == ConvertEthnicity(column)
  {
  }

  /** The `{0: negative, 1: positive}` replacement of one cell. */
  function BinaryLabel(c: Cell, positive: string, negative: string): (r: Cell)
    ensures c == Num(0) ==> r == Label(negative)
    ensures c == Num(1) ==> r == Label(positive)
    ensures c != Num(0) && c != Num(1) ==> r == c
  {
    if c == Num(0) then Label(negative) else if c == Num(1) then Label(positive) else c
  }

  /** `convert_binary`: the column is rewritten in place. */
  method ConvertBinary(column: array<Cell>, positive: string, negative: string)
    modifies column
    ensures forall i :: 0 <= i < column.Length ==>
      column[i] == BinaryLabel(old(column[i]), positive, negative)
  {
    forall i | 0 <= i < column.Length {
      column[i] := BinaryLabel(column[i], positive, negative);
    }
  }

  /** With two different labels a 0/1 cell can be read back from its label. */
  lemma BinaryLabelInjective(c: Cell, d: Cell, positive: string, negative: string)
    requires positive != negative
    requires c in [Num(0), Num(1)] && d in [Num(0), Num(1)]
    requires BinaryLabel(c, positive, negative) == BinaryLabel(d, positive, negative)
    ensures c == d
  {
  }

  // ---------------------------------------------------------------------------
  // Row filters and the practice count. A row is of any type T; a column is a
  // function from rows to cells.

  /** `drop_missing_demographics`: the rows whose demographic is known, in order. */
  function DropMissingDemographics<T, V>(rows: seq<T>, demographic: T -> Option<V>): (r: seq<T>)
    ensures KeepsExactly(rows, r, x => demographic(x).Some?)
    ensures forall k :: 0 <= k < |r| ==> demographic(r[k]).Some?
  {
    Filter(rows, x => demographic(x).Some?)
  }

  /** pandas truthiness of a numeric cell under `any()`, which skips missing cells. */
  predicate IsTruthy(v: Option<int>)
  {
    v.Some? && v.value != 0
  }

  /** The practices with at least one row whose value is truthy (`groupby(...).any()`
      leaves missing practices out). */
  function RelevantPractices<T, K(==)>(rows: seq<T>, practice: T -> Option<K>, value: T -> Option<int>): set<K>
  {
    set i | 0 <= i < |rows| && practice(rows[i]).Some? && IsTruthy(value(rows[i])) :: practice(rows[i]).value
  }

  ghost predicate IsRelevant<T, K>(rows: seq<T>, practice: T -> Option<K>, value: T -> Option<int>, x: T)
  {
    practice(x).Some? &&
    exists j :: 0 <= j < |rows| && practice(rows[j]) == practice(x) && IsTruthy(value(rows[j]))
  }

  /** `drop_irrelevant_practices`: exactly the rows whose practice has a row with a
      truthy value, in order. */
  function DropIrrelevantPractices<T, K(==)>(rows: seq<T>, practice: T -> Option<K>, value: T -> Option<int>): (r: seq<T>)
    ensures KeepsExactly(rows, r, x => IsRelevant(rows, practice, value, x))
  {
    var relevant := RelevantPractices(rows, practice, value);
    var r := Filter(rows, x => practice(x).Some? && practice(x).value in relevant);
    KeptIndicesCongruent(rows, x => practice(x).Some? && practice(x).value in relevant,
                         x => IsRelevant(rows, practice, value, x));
    r
  }

  /** `get_number_practices`: the number of different practice values, a missing
      practice counting as one value. */
  function GetNumberPractices<T, K(==)>(rows: seq<T>, practice: T -> Option<K>): (count: nat)
    ensures count == |(set i | 0 <= i < |rows| :: practice(rows[i]))|
    ensures count <= |rows|
    ensures count == 0 <==> rows == []
  {
    var column := seq(|rows|, i requires 0 <= i < |rows| => practice(rows[i]));
    UniqueCardinality(column);
    assert (set x | x in column) == (set i | 0 <= i < |rows| :: practice(rows[i])) by {
      forall x | x in column ensures x in (set i | 0 <= i < |rows| :: practice(rows[i])) {
        var i :| 0 <= i < |column| && column[i] == x;
      }
      forall i | 0 <= i < |rows| ensures practice(rows[i]) in column {
        assert column[i] == practice(rows[i]);
      }
    }
    assert rows != [] ==> column[0] in Unique(column);
    |Unique(column)|
  }
}
