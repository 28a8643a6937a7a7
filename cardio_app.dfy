/**
  The copy of the app under cardioRiskAnalyzerApp/: the form's yes/no answers
  arrive as the strings "No" and "Yes" and are looked up in a small dictionary,
  and predict_heart_attack builds the feature vector as one list literal
  followed by the age block and the six flags.
 */
module CardioApp {
  import opened Features

  /** What a failed dictionary lookup raises. */
  datatype Error = KeyError(key: string)

  datatype Result<T> = Ok(value: T) | Err(error: Error) {
    predicate IsFailure() {
      Err?
    }

    function PropagateFailure<U>(): Result<U>
      requires Err?
    {
      Err(error)
    }

    function Extract(): T
      requires Ok?
    {
      value
    }
  }

  /** The raw answers of the form, as its widgets return them: whole numbers of
      days and activities, floats for sleep hours and BMI, the strings "No" or
      "Yes" for the eight yes/no questions, and the three chosen categories. */
  datatype Survey = Survey(
    physicalHealthDays: int,
    mentalHealthDays: int,
    physicalActivities: int,
    sleepHours: real,
    hadStroke: string,
    hadAsthma: string,
    hadCopd: string,
    hadDepressiveDisorder: string,
    difficultyConcentrating: string,
    difficultyWalking: string,
    bmi: real,
    alcoholDrinkers: string,
    hadDiabetes: string,
    ageRange: string,
    receivedVaccine: string,
    smokingStatus: string)

  /** yes_no_mapping. */
  const YesNoMapping: map<string, int> := map["No" := 0, "Yes" := 1]

  /** The options of every yes/no select box, in the order the box lists them. */
  const YesNoOptions: seq<string> := ["No", "Yes"]

  /** yes_no_mapping[answer]: the answer's code, or a KeyError. */
  function YesNo(answer: string): (r: Result<int>)
    ensures r.Ok? <==> answer in YesNoOptions
    ensures r.Ok? ==> r.value == 0 || r.value == 1
    ensures r.Ok? ==> (r.value == 1 <==> answer == "Yes")
    ensures r.Err? ==> r.error == KeyError(answer)
  {
    if answer in YesNoMapping then Ok(YesNoMapping[answer]) else Err(KeyError(answer))
  }

  /** Each option of the select box is coded as its own position in the box,
      so the coding loses nothing: different options get different codes. */
  lemma YesNoCodesOptions()
    ensures forall i :: 0 <= i < |YesNoOptions| ==> YesNo(YesNoOptions[i]) == Ok(i)
    ensures forall a, b :: YesNo(a).Ok? && YesNo(a) == YesNo(b) ==> a == b
  {
    assert YesNoOptions[0] == "No" && YesNoOptions[1] == "Yes";
  }

  /** The positions of the eight yes/no answers among the thirteen scalars. */
  const YesNoSlots: seq<nat> := [4, 5, 6, 7, 8, 9, 11, 12]

  /** The eight yes/no answers in the order main looks them up, each one
      feeding the scalar slot of the same rank in YesNoSlots. */
  function YesNoAnswers(s: Survey): (r: seq<string>)
    ensures |r| == |YesNoSlots|
  {
    [s.hadStroke, s.hadAsthma, s.hadCopd, s.hadDepressiveDisorder,
     s.difficultyConcentrating, s.difficultyWalking, s.alcoholDrinkers, s.hadDiabetes]
  }

  /** Looks the answers up one after the other and stops at the first one the
      dictionary does not hold, as the sequence of lookups in main does. */
  function YesNoAll(answers: seq<string>): (r: Result<seq<int>>)
    ensures r.Ok? <==> forall i :: 0 <= i < |answers| ==> answers[i] in YesNoOptions
    ensures r.Ok? ==>
      |r.value| == |answers| && forall i :: 0 <= i < |answers| ==> YesNo(answers[i]) == Ok(r.value[i])
    ensures r.Err? ==>
      exists k :: 0 <= k < |answers| && r.error == KeyError(answers[k]) && answers[k] !in YesNoOptions &&
        forall j :: 0 <= j < k ==> answers[j] in YesNoOptions
  {
    if answers == [] then Ok([])
    else
      var first :- YesNo(answers[0]);
      var rest :- YesNoAll(answers[1..]);
      Ok([first] + rest)
  }

  /** Each yes/no answer, in lookup order, feeds the scalar slot of the same
      rank in YesNoSlots, as 1 for "Yes" and 0 otherwise. */
  lemma YesNoAnswersSlots(s: Survey)
    ensures forall i :: 0 <= i < |YesNoAnswers(s)| ==>
      SurveyScalars(s)[YesNoSlots[i]] == Indicator(YesNoAnswers(s)[i] == "Yes")
  {
  }

  /** Thirteen survey answers as main passes them on: the numbers as entered,
      each yes/no answer as 1 for "Yes" and 0 otherwise. */
  function SurveyScalars(s: Survey): seq<Number> {
    [Int(s.physicalHealthDays), Int(s.mentalHealthDays), Int(s.physicalActivities), Float(s.sleepHours),
     Indicator(s.hadStroke == "Yes"), Indicator(s.hadAsthma == "Yes"), Indicator(s.hadCopd == "Yes"),
     Indicator(s.hadDepressiveDisorder == "Yes"), Indicator(s.difficultyConcentrating == "Yes"),
     Indicator(s.difficultyWalking == "Yes"), Float(s.bmi), Indicator(s.alcoholDrinkers == "Yes"),
     Indicator(s.hadDiabetes == "Yes")]
  }

  /** The feature preparation in main: yes/no answers coded, the age band
      normalised to its column name, the vaccine and smoking answers expanded
      to flags. Fails with the KeyError of the first unknown yes/no answer. */
  function PrepareArgs(s: Survey): (r: Result<Args>)
    ensures r.Ok? <==> forall i :: 0 <= i < |YesNoAnswers(s)| ==> YesNoAnswers(s)[i] in YesNoOptions
    ensures r.Err? ==>
      exists k :: 0 <= k < |YesNoAnswers(s)| && r.error == KeyError(YesNoAnswers(s)[k]) &&
        YesNoAnswers(s)[k] !in YesNoOptions && forall j :: 0 <= j < k ==> YesNoAnswers(s)[j] in YesNoOptions
    ensures r.Ok? ==>
      && ScalarFeatures(r.value) == SurveyScalars(s)
      && r.value.ageColumn == AgeColumnName(s.ageRange)
      && FlagFeatures(r.value) == VaccineFlags(s.receivedVaccine) + SmokingFlags(s.smokingStatus)
  {
    var codes :- YesNoAll(YesNoAnswers(s));
    var vaccine := VaccineFlags(s.receivedVaccine);
    var smoking := SmokingFlags(s.smokingStatus);
    Ok(Args(
      Int(s.physicalHealthDays), Int(s.mentalHealthDays), Int(s.physicalActivities), Float(s.sleepHours),
      Int(codes[0]), Int(codes[1]), Int(codes[2]), Int(codes[3]), Int(codes[4]), Int(codes[5]),
      Float(s.bmi), Int(codes[6]), Int(codes[7]),
      AgeColumnName(s.ageRange),
      vaccine[0], vaccine[1], vaccine[2],
      smoking[0], smoking[1], smoking[2]))
  }

  /** The vector predict_heart_attack hands to the classifier. */
  function FeatureVector(columns: seq<string>, a: Args): (v: seq<Number>)
    ensures |v| == ScalarCount + |AgeColumns(columns)| + FlagCount
  {
    var ageColumns := AgeColumns(columns);
    var ageEncoded := OneHot(ageColumns, a.ageColumn);
    [a.physicalHealthDays, a.mentalHealthDays, a.physicalActivities, a.sleepHours, a.hadStroke, a.hadAsthma,
     a.hadCopd, a.hadDepressiveDisorder, a.difficultyConcentrating, a.difficultyWalking, a.bmi, a.alcoholDrinkers,
     a.hadDiabetes]
    + ageEncoded
    + [a.receivedTetanus, a.receivedNot, a.receivedTdap, a.smokingNeverSmoked, a.smokingCurrentSmoker, a.smokingFormerSmoker]
  }

  /** The vector is the thirteen scalar arguments in parameter order, then the
      age block (one 0/1 entry per age column of the data set, in the data
      set's order, 1 exactly where the column is the requested one), then the
      three vaccine flags and the three smoking flags. */
  lemma FeatureVectorLayout(columns: seq<string>, a: Args)
    ensures var v, n := FeatureVector(columns, a), |AgeColumns(columns)|;
      && |v| == ScalarCount + n + FlagCount
      && v[..ScalarCount] == ScalarFeatures(a)
      && v[ScalarCount..ScalarCount + n] == OneHot(AgeColumns(columns), a.ageColumn)
      && v[ScalarCount + n..] == FlagFeatures(a)
      && forall i :: 0 <= i < n ==>
           IsBit(v[ScalarCount + i]) && (v[ScalarCount + i] == Int(1) <==> AgeColumns(columns)[i] == a.ageColumn)
  {
    var v, h := FeatureVector(columns, a), OneHot(AgeColumns(columns), a.ageColumn);
    assert v == ScalarFeatures(a) + h + FlagFeatures(a);
  }

  /** From the survey to the vector: what main computes when Predict is
      pressed, up to the call of the classifier. Fails exactly when a yes/no
      answer is not an option of its box, with that answer's KeyError. */
  function Encode(columns: seq<string>, s: Survey): (r: Result<seq<Number>>)
    ensures r.Ok? <==> forall i :: 0 <= i < |YesNoAnswers(s)| ==> YesNoAnswers(s)[i] in YesNoOptions
    ensures r.Err? ==> PrepareArgs(s).Err? && r.error == PrepareArgs(s).error
    ensures r.Ok? ==> |r.value| == ScalarCount + |AgeColumns(columns)| + FlagCount
  {
    var a :- PrepareArgs(s);
    Ok(FeatureVector(columns, a))
  }

  /** The encoded survey: its answers in parameter order, the one-hot of the
      normalised band over the data set's age columns, then the vaccine and
      smoking flags of its answers. */
  lemma EncodeLayout(columns: seq<string>, s: Survey)
    requires Encode(columns, s).Ok?
    ensures var v, n := Encode(columns, s).value, |AgeColumns(columns)|;
      && v[..ScalarCount] == SurveyScalars(s)
      && v[ScalarCount..ScalarCount + n] == OneHot(AgeColumns(columns), AgeColumnName(s.ageRange))
      && v[ScalarCount + n..] == VaccineFlags(s.receivedVaccine) + SmokingFlags(s.smokingStatus)
  {
    FeatureVectorLayout(columns, PrepareArgs(s).value);
  }

  /** With distinct data-set columns, the age block of an encoded survey has
      exactly one 1 when the normalised band is a column, and only zeros
      otherwise. */
  lemma EncodeAgeBlock(columns: seq<string>, s: Survey)
    requires Distinct(columns)
    requires Encode(columns, s).Ok?
    ensures var v, n := Encode(columns, s).value, |AgeColumns(columns)|;
      && (AgeColumnName(s.ageRange) in columns ==> CountOnes(v[ScalarCount..ScalarCount + n]) == 1)
      && (AgeColumnName(s.ageRange) !in columns ==>
            forall i :: ScalarCount <= i < ScalarCount + n ==> v[i] == Int(0))
  {
    var v, n := Encode(columns, s).value, |AgeColumns(columns)|;
    EncodeLayout(columns, s);
    AgeBlockOneHot(columns, s.ageRange);
    if AgeColumnName(s.ageRange) !in columns {
      var block := v[ScalarCount..ScalarCount + n];
      forall i | ScalarCount <= i < ScalarCount + n ensures v[i] == Int(0) {
        assert v[i] == block[i - ScalarCount];
      }
    }
  }

  /** The vaccine group and the smoking group of an encoded survey each hold
      exactly one 1 for a listed choice and none for any other answer. */
  lemma EncodeFlagGroups(columns: seq<string>, s: Survey)
    requires Encode(columns, s).Ok?
    ensures var v, n := Encode(columns, s).value, |AgeColumns(columns)|;
      && CountOnes(v[ScalarCount + n..ScalarCount + n + 3]) == (if s.receivedVaccine in VaccineChoices then 1 else 0)
      && CountOnes(v[ScalarCount + n + 3..]) == (if s.smokingStatus in SmokingChoices then 1 else 0)
  {
    EncodeLayout(columns, s);
    FlagGroupsAt(Encode(columns, s).value, ScalarCount + |AgeColumns(columns)|, s.receivedVaccine, s.smokingStatus);
  }

  lemma FlagGroupsAt(v: seq<Number>, k: nat, vaccine: string, status: string)
    requires k <= |v| && v[k..] == VaccineFlags(vaccine) + SmokingFlags(status)
    ensures CountOnes(v[k..k + 3]) == if vaccine in VaccineChoices then 1 else 0
    ensures CountOnes(v[k + 3..]) == if status in SmokingChoices then 1 else 0
  {
    assert v[k..k + 3] == v[k..][..3] == VaccineFlags(vaccine);
    assert v[k + 3..] == v[k..][3..] == SmokingFlags(status);
    VaccineFlagsOneHot(vaccine);
    SmokingFlagsOneHot(status);
  }
}
