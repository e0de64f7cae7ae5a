/** ehrQL's three-valued series logic for one patient and the `case`/`when` classifiers
    the asthma dataset definitions build from it: age band, IMD decile, six-group
    ethnicity and the asthma register flag. */
module Ehrql {
  import opened Tables

  /** A boolean series value for one patient: true, false or null. */
  type Truth = Option<bool>

  /** `a & b` on boolean series: false wins over null, and null wins over true. */
  function And(a: Truth, b: Truth): (r: Truth)
    ensures r == Some(true) <==> a == Some(true) && b == Some(true)
    ensures r == Some(false) <==> a == Some(false) || b == Some(false)
  {
    if a == Some(false) || b == Some(false) then Some(false)
    else if a == Some(true) && b == Some(true) then Some(true)
    else None
  }

  /** `x >= k`, null when x is null. */
  function AtLeast(x: Option<int>, k: int): (r: Truth)
    ensures r.None? <==> x.None?
    ensures r.Some? ==> (r.value <==> x.value >= k)
  {
    match x
    case None => None
    case Some(v) => Some(v >= k)
  }

  /** `x < k`, null when x is null. */
  function Below(x: Option<int>, k: int): (r: Truth)
    ensures r.None? <==> x.None?
    ensures r.Some? ==> (r.value <==> x.value < k)
  {
    match x
    case None => None
    case Some(v) => Some(v < k)
  }

  /** `x == v`, null when x is null. */
  function Equals<T(==)>(x: Option<T>, v: T): (r: Truth)
    ensures r.None? <==> x.None?
    ensures r.Some? ==> (r.value <==> x.value == v)
  {
    match x
    case None => None
    case Some(y) => Some(y == v)
  }

  /** `when(condition).then(result)`. */
  datatype When<T> = When(condition: Truth, result: T)

  /** The position of the first branch whose condition is true, or the number of
      branches when there is none. */
  function FirstTrue<T>(whens: seq<When<T>>): (k: nat)
    ensures k <= |whens|
    ensures forall j :: 0 <= j < k ==> whens[j].condition != Some(true)
    ensures k < |whens| ==> whens[k].condition == Some(true)
  {
    if whens == [] then 0
    else if whens[0].condition == Some(true) then 0
    else 1 + FirstTrue(whens[1..])
  }

  /** `case(when(...).then(...), ..., default=...)`: the result of the first branch
      whose condition is true (a false or null condition passes to the next branch),
      or the default when none is. */
  function Case<T>(whens: seq<When<T>>, default: T): (r: T)
    ensures var k := FirstTrue(whens); r == if k < |whens| then whens[k].result else default
  {
    if whens == [] then default
    else if whens[0].condition == Some(true) then whens[0].result
    else Case(whens[1..], default)
  }

  /** The branch that holds is the one chosen, whatever its position, when no other
      branch holds. */
  lemma CaseOfSoleTrue<T>(whens: seq<When<T>>, default: T, k: nat)
    requires k < |whens| && whens[k].condition == Some(true)
    requires forall j :: 0 <= j < |whens| && j != k ==> whens[j].condition != Some(true)
    ensures Case(whens, default) == whens[k].result
  {
  }

  // ---------------------------------------------------------------------------
  // Age band

  function AgeBandWhens(age: Option<int>): seq<When<string>>
  {
    [ When(And(AtLeast(age, 6), Below(age, 20)), "6-19"),
      When(And(AtLeast(age, 20), Below(age, 30)), "20-29"),
      When(And(AtLeast(age, 30), Below(age, 40)), "30-39"),
      When(And(AtLeast(age, 40), Below(age, 50)), "40-49"),
      When(And(AtLeast(age, 50), Below(age, 60)), "50-59"),
      When(And(AtLeast(age, 60), Below(age, 70)), "60-69"),
      When(And(AtLeast(age, 70), Below(age, 80)), "70-79"),
      When(AtLeast(age, 80), "80+") ]
  }

  /** An independent statement of the bands: ages 6 to 19, then one band per decade
      from the twenties to the seventies, then 80 and over. */
  function AgeBandOf(a: int): string
  {
    if a < 6 then "NULL"
    else if a < 20 then "6-19"
    else if a >= 80 then "80+"
    else ["20-29", "30-39", "40-49", "50-59", "60-69", "70-79"][a / 10 - 2]
  }

  /** Only an age under 6 has no band. */
  lemma NoBandBelowSix(a: int)
    ensures AgeBandOf(a) == "NULL" <==> a < 6
  {
    if 20 <= a < 80 {
      var decades := ["20-29", "30-39", "40-49", "50-59", "60-69", "70-79"];
      assert decades[a / 10 - 2][0] != 'N';
    }
  }

  /** The bands do not overlap, and exactly the ages of 6 and over fall in one. */
  lemma AgeBandsPartition(age: Option<int>)
    ensures forall i, j :: 0 <= i < j < |AgeBandWhens(age)| ==>
      !(AgeBandWhens(age)[i].condition == Some(true) && AgeBandWhens(age)[j].condition == Some(true))
    ensures (exists i :: 0 <= i < |AgeBandWhens(age)| && AgeBandWhens(age)[i].condition == Some(true))
      <==> age.Some? && age.value >= 6
  {
    var w := AgeBandWhens(age);
    if age.Some? && age.value >= 6 {
      var a := age.value;
      var i := if a < 20 then 0 else if a >= 80 then 7 else a / 10 - 1;
      assert w[i].condition == Some(true);
    }
  }

  /** An age of 6 or over takes the branch of its band, which is the only one that
      holds. */
  lemma AgeBandChosen(a: int)
    requires a >= 6
    ensures Case(AgeBandWhens(Some(a)), "NULL") == AgeBandOf(a)
  {
    var w := AgeBandWhens(Some(a));
    AgeBandsPartition(Some(a));
    var d := a / 10;
    assert 10 * d <= a < 10 * d + 10;
    var i := if a < 20 then 0 else if a >= 80 then 7 else d - 1;
    assert w[i].condition == Some(true);
    CaseOfSoleTrue(w, "NULL", i);
  }

  /** `age_band`: the band of the age, "NULL" for a missing age or one under 6. */
  function AgeBand(age: Option<int>): (band: string)
    ensures band == if age.Some? then AgeBandOf(age.value) else "NULL"
  {
    if age.Some? && age.value >= 6 then
      AgeBandChosen(age.value);
      Case(AgeBandWhens(age), "NULL")
    else
      AgeBandsPartition(age);
      NoBandBelowSix(if age.Some? then age.value else 0);
      Case(AgeBandWhens(age), "NULL")
  }

  // ---------------------------------------------------------------------------
  // IMD decile

  /** The k-th cut: a tenth of k times 32844, truncated to an integer. The product is exact and positive, so truncating the
      float quotient is floor division. */
  function ImdCut(k: int): (cut: int)
    ensures 10 * cut <= 32844 * k < 10 * cut + 10
  {
    32844 * k / 10
  }

  lemma ImdCutValues()
    ensures ImdCut(1) == 3284 && ImdCut(2) == 6568 && ImdCut(3) == 9853
    ensures ImdCut(4) == 13137 && ImdCut(5) == 16422 && ImdCut(6) == 19706
    ensures ImdCut(7) == 22990 && ImdCut(8) == 26275 && ImdCut(9) == 29559
  {
  }

  const ImdLabels: seq<string> :=
    ["1 (most deprived)", "2", "3", "4", "5", "6", "7", "8", "9", "10 (least deprived)"]

  /** The condition of branch j: the first also tests for 0, the last tests against
      the cut below it, and each other branch only tests the cut above it. */
  function ImdCondition(imd: Option<int>, j: int): Truth
  {
    if j == 0 then And(AtLeast(imd, 0), Below(imd, ImdCut(1)))
    else if j < 9 then Below(imd, ImdCut(j + 1))
    else AtLeast(imd, ImdCut(9))
  }

  function ImdWhens(imd: Option<int>): (w: seq<When<string>>)
    ensures |w| == 10
    ensures forall j :: 0 <= j < 10 ==> w[j] == When(ImdCondition(imd, j), ImdLabels[j])
  {
    seq(10, j requires 0 <= j < 10 => When(ImdCondition(imd, j), ImdLabels[j]))
  }

  /** v lies in decile d: at or above the cut below it (0 for the first decile) and
      below the cut above it (none for the tenth). */
  predicate InDecile(v: int, d: int)
  {
    1 <= d <= 10 && (if d == 1 then 0 <= v else ImdCut(d - 1) <= v) && (d == 10 || v < ImdCut(d))
  }

  lemma ImdCutsIncrease(k: int, l: int)
    requires k < l
    ensures ImdCut(k) < ImdCut(l)
  {
  }

  /** Every non-negative IMD value lies in some decile ... */
  lemma DecileExists(v: int)
    requires v >= 0
    ensures exists d :: InDecile(v, d)
  {
    var d := if v < ImdCut(1) then 1
      else if v < ImdCut(2) then 2 else if v < ImdCut(3) then 3
      else if v < ImdCut(4) then 4 else if v < ImdCut(5) then 5
      else if v < ImdCut(6) then 6 else if v < ImdCut(7) then 7
      else if v < ImdCut(8) then 8 else if v < ImdCut(9) then 9 else 10;
    assert InDecile(v, d);
  }

  /** ... in exactly one ... */
  lemma DecileUnique(v: int, d: int, e: int)
    requires InDecile(v, d) && InDecile(v, e)
    ensures d == e
  {
    if d < e {
      ImdCutsIncrease(d, e - 1);
    } else if e < d {
      ImdCutsIncrease(e, d - 1);
    }
  }

  /** ... and the decile never decreases as the value rises. */
  lemma DecileMonotone(v: int, w: int, d: int, e: int)
    requires v <= w && InDecile(v, d) && InDecile(w, e)
    ensures d <= e
  {
    if e < d {
      ImdCutsIncrease(e, d - 1);
    }
  }

  /** The branch a non-negative value takes is the one of its decile. */
  lemma ImdBranch(v: int, d: int)
    requires InDecile(v, d)
    ensures FirstTrue(ImdWhens(Some(v))) == d - 1
  {
    var w := ImdWhens(Some(v));
    forall j | 0 <= j < d - 1 ensures w[j].condition != Some(true) {
      if j + 1 < d - 1 {
        ImdCutsIncrease(j + 1, d - 1);
      }
    }
    assert w[d - 1].condition == Some(true);
  }

  /** `imd10`: the label of the decile of a non-negative value; a negative value
      falls through the first branch (the only one that tests for 0) to "2"; a
      missing value is "unknown". */
  function Imd10(imd: Option<int>): (decile: string)
    ensures imd.None? ==> decile == "unknown"
    ensures imd.Some? && imd.value < 0 ==> decile == "2"
    ensures imd.Some? && imd.value >= 0 ==>
      forall d :: InDecile(imd.value, d) ==> decile == ImdLabels[d - 1]
  {
    var w := ImdWhens(imd);
    assert imd.None? ==> FirstTrue(w) == 10 by {
      if imd.None? {
        assert forall j :: 0 <= j < 10 ==> w[j].condition != Some(true);
      }
    }
    assert imd.Some? && imd.value < 0 ==> FirstTrue(w) == 1 by {
      if imd.Some? && imd.value < 0 {
        assert w[0].condition != Some(true);
        assert w[1].condition == Some(true);
      }
    }
    assert imd.Some? && imd.value >= 0 ==>
      forall d :: InDecile(imd.value, d) ==> FirstTrue(w) == d - 1 by {
      if imd.Some? && imd.value >= 0 {
        forall d | InDecile(imd.value, d) ensures FirstTrue(w) == d - 1 {
          ImdBranch(imd.value, d);
        }
      }
    }
    Case(w, "unknown")
  }

  // ---------------------------------------------------------------------------
  // Ethnicity

  /** The six ethnicity groups by their category code. */
  const EthnicityGroups: map<string, string> := map[
    "1" := "White", "2" := "Mixed", "3" := "South Asian",
    "4" := "Black", "5" := "Other", "6" := "Not stated"]

  function EthnicityWhens(code: Option<string>): seq<When<string>>
  {
    [ When(Equals(code, "1"), "White"),
      When(Equals(code, "2"), "Mixed"),
      When(Equals(code, "3"), "South Asian"),
      When(Equals(code, "4"), "Black"),
      When(Equals(code, "5"), "Other"),
      When(Equals(code, "6"), "Not stated") ]
  }

  /** `ethnicity`: the group of a category code "1" to "6"; any other code, or none,
      is "Unknown". */
  function Ethnicity(code: Option<string>): (group: string)
    ensures group == if code.Some? && code.value in EthnicityGroups
      then EthnicityGroups[code.value] else "Unknown"
  {
    var w := EthnicityWhens(code);
    if code.Some? && code.value in EthnicityGroups then
      var i := if code.value == "1" then 0 else if code.value == "2" then 1
        else if code.value == "3" then 2 else if code.value == "4" then 3
        else if code.value == "5" then 4 else 5;
      CaseOfSoleTrue(w, "Unknown", i);
      Case(w, "Unknown")
    else
      assert FirstTrue(w) == |w|;
      Case(w, "Unknown")
  }

  // ---------------------------------------------------------------------------
  // Asthma register

  /** `asthma_register`: 1 for a patient with an asthma diagnosis and an asthma
      treatment and no later resolution, 0 for every other patient. The three inputs
      come from `exists_for_patient`, which is never null. */
  function AsthmaRegister(diagnosed: bool, treated: bool, resolved: bool): (flag: int)
    ensures flag == 1 <==> diagnosed && treated && !resolved
    ensures flag == 0 <==> !(diagnosed && treated && !resolved)
  {
    Case([When(And(And(Equals(Some(diagnosed), true), Equals(Some(treated), true)),
                   Equals(Some(resolved), false)), 1)], 0)
  }
}
