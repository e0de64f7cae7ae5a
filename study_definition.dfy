/** The standalone ehrQL dataset definition for the asthma register: the age part of
    its population rule and the variables it writes for each patient. */
module StudyDefinition {
  import opened Tables
  import opened Ehrql

  /** What the definition reads about one patient. The table queries behind each
      field (ages on two dates, the address and registration on the index date, the
      latest ethnicity category, and the existence of diagnosis, treatment, later
      resolution, learning disability and care-home events) are inputs here. */
  datatype Patient = Patient(
    ageAtIndex: Option<int>,
    ageYearAfterIndex: Option<int>,
    sex: Option<string>,
    region: Option<string>,
    imd: Option<int>,
    ethnicityCategory: Option<string>,
    practice: Option<int>,
    learningDisability: bool,
    careHome: bool,
    asthmaDiagnosis: bool,
    asthmaTreatment: bool,
    asthmaResolved: bool)

  /** One row of the dataset. */
  datatype Row = Row(
    ageband: string,
    sex: Option<string>,
    region: Option<string>,
    imd10: string,
    ethnicity: string,
    practice: Option<int>,
    learningDisability: bool,
    careHome: bool,
    asthmaRegister: int)

  /** The age condition of the population: aged 6 or over one year after the index
      date. A null age fails it. */
  function OldEnough(p: Patient): (b: bool)
    ensures b <==> p.ageYearAfterIndex.Some? && p.ageYearAfterIndex.value >= 6
  {
    AtLeast(p.ageYearAfterIndex, 6) == Some(true)
  }

  /** The variables the definition assigns to `dataset`, each from its `case` rule or
      copied from the patient. */
  function DatasetRow(p: Patient): (row: Row)
    ensures row.ageband == if p.ageAtIndex.Some? then AgeBandOf(p.ageAtIndex.value) else "NULL"
    ensures p.imd.None? ==> row.imd10 == "unknown"
    ensures p.imd.Some? && p.imd.value < 0 ==> row.imd10 == "2"
    ensures p.imd.Some? && p.imd.value >= 0 ==>
      forall d :: InDecile(p.imd.value, d) ==> row.imd10 == ImdLabels[d - 1]
    ensures row.ethnicity == if p.ethnicityCategory.Some? && p.ethnicityCategory.value in EthnicityGroups
      then EthnicityGroups[p.ethnicityCategory.value] else "Unknown"
    ensures row.asthmaRegister == 1 <==> p.asthmaDiagnosis && p.asthmaTreatment && !p.asthmaResolved
    ensures row.asthmaRegister == 0 <==> !(p.asthmaDiagnosis && p.asthmaTreatment && !p.asthmaResolved)
    ensures row.sex == p.sex && row.region == p.region && row.practice == p.practice
    ensures row.learningDisability == p.learningDisability && row.careHome == p.careHome
  {
    Row(AgeBand(p.ageAtIndex), p.sex, p.region, Imd10(p.imd), Ethnicity(p.ethnicityCategory),
        p.practice, p.learningDisability, p.careHome,
        AsthmaRegister(p.asthmaDiagnosis, p.asthmaTreatment, p.asthmaResolved))
  }

  /** The population admits by age one year after the index date, the band is taken
      on the index date: for a patient whose age rises by one between the two dates,
      a member of the population has no band exactly when aged 5 on the index date. */
  lemma UnbandedMembers(p: Patient)
    requires p.ageAtIndex.Some? && p.ageYearAfterIndex == Some(p.ageAtIndex.value + 1)
    requires OldEnough(p)
    ensures DatasetRow(p).ageband == "NULL" <==> p.ageAtIndex.value == 5
  {
    NoBandBelowSix(p.ageAtIndex.value);
  }

  /** Without the age step the band is never missing for a member. */
  lemma BandedWhenAgeSteady(p: Patient)
    requires p.ageAtIndex.Some? && p.ageYearAfterIndex == p.ageAtIndex
    requires OldEnough(p)
    ensures DatasetRow(p).ageband != "NULL"
  {
    NoBandBelowSix(p.ageAtIndex.value);
  }
}
