/**
  The copy of the app under scripts/: the form's yes/no questions return the
  ints 0 and 1 directly, and predict_heart_attack collects the thirteen scalar
  answers in a dict literal whose values it reads back in insertion order.
 */
module Scripts {
  import opened Features
  import CardioApp

  /** A Python dict, as its entries in insertion order. */
  type Dict = seq<(string, Number)>

  /** list(d.keys()) */
  function Keys(d: Dict): (r: seq<string>)
    ensures |r| == |d| && forall i :: 0 <= i < |d| ==> r[i] == d[i].0
  {
    if d == [] then [] else [d[0].0] + Keys(d[1..])
  }

  /** list(d.values()) */
  function Values(d: Dict): (r: seq<Number>)
    ensures |r| == |d| && forall i :: 0 <= i < |d| ==> r[i] == d[i].1
  {
    if d == [] then [] else [d[0].1] + Values(d[1..])
  }

  datatype Option<T> = None | Some(value: T)

  /** The value a dict holds under key k, if any: what `d[k]` reads back. It
      is the observation InsertSpec states the assignment `d[k] = v` with. */
  function Lookup(d: Dict, k: string): (r: Option<Number>)
    ensures r.None? <==> k !in Keys(d)
  {
    if d == [] then None
    else if d[0].0 == k then Some(d[0].1)
    else Lookup(d[1..], k)
  }

  /** d[k] = v, on a dict held as its entries in insertion order. */
  function Insert(d: Dict, k: string, v: Number): (r: Dict)
    ensures |r| == if k in Keys(d) then |d| else |d| + 1
  {
    if d == [] then [(k, v)]
    else if d[0].0 == k then [(k, v)] + d[1..]
    else [d[0]] + Insert(d[1..], k, v)
  }

  /** The dict assignment's meaning: a new key goes to the end and an existing
      key keeps its place; k now maps to v and every other key keeps its value. */
  lemma {:induction false} InsertSpec(d: Dict, k: string, v: Number)
    ensures Keys(Insert(d, k, v)) == if k in Keys(d) then Keys(d) else Keys(d) + [k]
    ensures Lookup(Insert(d, k, v), k) == Some(v)
    ensures forall k' :: k' != k ==> Lookup(Insert(d, k, v), k') == Lookup(d, k')
  {
    if d != [] && d[0].0 != k {
      InsertSpec(d[1..], k, v);
      var r := Insert(d, k, v);
      assert r[1..] == Insert(d[1..], k, v);
      assert Keys(r) == [d[0].0] + Keys(r[1..]);
    }
  }

  /** Inserting a key the dict does not hold appends it. */
  lemma {:induction false} InsertNew(d: Dict, k: string, v: Number)
    requires k !in Keys(d)
    ensures Insert(d, k, v) == d + [(k, v)]
  {
    if d != [] {
      assert k !in Keys(d[1..]);
      InsertNew(d[1..], k, v);
      assert [d[0]] + (d[1..] + [(k, v)]) == d + [(k, v)];
    }
  }

  /** The dict a literal {k1: v1, ..., kn: vn} evaluates to: the entries
      inserted from left to right into an empty dict. */
  function DictLiteral(entries: seq<(string, Number)>): (r: Dict)
    ensures |r| <= |entries|
    decreases |entries|
  {
    if entries == [] then []
    else
      var last := entries[|entries| - 1];
      Insert(DictLiteral(entries[..|entries| - 1]), last.0, last.1)
  }

  lemma DistinctSnoc<T>(s: seq<T>, x: T)
    requires Distinct(s) && x !in s
    ensures Distinct(s + [x])
  {
    var t := s + [x];
    forall i, j | 0 <= i < j < |t| ensures t[i] != t[j] {
      assert t[i] == s[i];
      if j < |s| {
        assert t[j] == s[j];
      }
    }
  }

  /** The last entry of a literal is inserted into the dict of the others. */
  lemma DictLiteralLast(entries: seq<(string, Number)>)
    requires entries != []
    ensures var n := |entries| - 1;
      DictLiteral(entries) == Insert(DictLiteral(entries[..n]), entries[n].0, entries[n].1)
  {
  }

  lemma {:induction false} KeysAppend(a: Dict, b: Dict)
    ensures Keys(a + b) == Keys(a) + Keys(b)
  {
    if a == [] {
      assert a + b == b;
    } else {
      assert (a + b)[0] == a[0];
      assert (a + b)[1..] == a[1..] + b;
      KeysAppend(a[1..], b);
    }
  }

  lemma KeysLast(d: Dict)
    requires d != []
    ensures Keys(d) == Keys(d[..|d| - 1]) + [d[|d| - 1].0]
  {
    var n := |d| - 1;
    assert d == d[..n] + [d[n]];
    KeysAppend(d[..n], [d[n]]);
  }

  /** Assignment keeps a dict's keys pairwise different and adds exactly k. */
  lemma InsertKeys(d: Dict, k: string, v: Number)
    requires Distinct(Keys(d))
    ensures Distinct(Keys(Insert(d, k, v)))
    ensures forall x :: x in Keys(Insert(d, k, v)) <==> x in Keys(d) || x == k
  {
    InsertSpec(d, k, v);
    if k !in Keys(d) {
      DistinctSnoc(Keys(d), k);
    }
  }

  /** A dict literal holds every key it mentions, each exactly once, whatever
      the repetitions among its entries. */
  lemma {:induction false} DictLiteralKeys(entries: seq<(string, Number)>)
    ensures Distinct(Keys(DictLiteral(entries)))
    ensures forall k :: k in Keys(DictLiteral(entries)) <==> k in Keys(entries)
    decreases |entries|
  {
    if entries != [] {
      var n := |entries| - 1;
      DictLiteralLast(entries);
      KeysLast(entries);
      DictLiteralKeys(entries[..n]);
      InsertKeys(DictLiteral(entries[..n]), entries[n].0, entries[n].1);
    }
  }

  /** A literal whose keys are pairwise different keeps all its entries, in
      the order written. */
  lemma {:induction false} DictLiteralDistinct(entries: seq<(string, Number)>)
    requires Distinct(Keys(entries))
    ensures DictLiteral(entries) == entries
    decreases |entries|
  {
    if entries != [] {
      var n := |entries| - 1;
      var init := entries[..n];
      DictLiteralLast(entries);
      KeysLast(entries);
      assert Distinct(Keys(init));
      DictLiteralDistinct(init);
      assert entries[n].0 !in Keys(init) by {
        forall i | 0 <= i < n ensures Keys(init)[i] != entries[n].0 {
          assert Keys(entries)[i] != Keys(entries)[n];
        }
      }
      InsertNew(init, entries[n].0, entries[n].1);
      assert init + [entries[n]] == entries;
    }
  }

  /** The keys of the dict literal in predict_heart_attack. */
  const DataKeys: seq<string> := [
    "physicalhealthdays", "mentalhealthdays", "physicalactivities", "sleephours",
    "hadstroke", "hadasthma", "hadcopd", "haddepressivedisorder",
    "difficultyconcentrating", "difficultywalking", "bmi", "alcoholdrinkers",
    "had_diabetes"]

  /** The entries of that literal, as written. */
  function DataEntries(a: Args): seq<(string, Number)> {
    [("physicalhealthdays", a.physicalHealthDays),
     ("mentalhealthdays", a.mentalHealthDays),
     ("physicalactivities", a.physicalActivities),
     ("sleephours", a.sleepHours),
     ("hadstroke", a.hadStroke),
     ("hadasthma", a.hadAsthma),
     ("hadcopd", a.hadCopd),
     ("haddepressivedisorder", a.hadDepressiveDisorder),
     ("difficultyconcentrating", a.difficultyConcentrating),
     ("difficultywalking", a.difficultyWalking),
     ("bmi", a.bmi),
     ("alcoholdrinkers", a.alcoholDrinkers),
     ("had_diabetes", a.hadDiabetes)]
  }

  lemma DataEntriesKeys(a: Args)
    ensures Keys(DataEntries(a)) == DataKeys
  {
  }

  lemma DataEntriesValues(a: Args)
    ensures Values(DataEntries(a)) == ScalarFeatures(a)
  {
  }

  lemma DataKeysDistinct()
    ensures Distinct(DataKeys)
  {
  }

  /** The dict holds all thirteen keys, none overwritten, and its values read
      back in insertion order are the scalar arguments in parameter order. */
  lemma DataInInsertionOrder(a: Args)
    ensures Keys(DictLiteral(DataEntries(a))) == DataKeys
    ensures Values(DictLiteral(DataEntries(a))) == ScalarFeatures(a)
  {
    DataEntriesKeys(a);
    DataKeysDistinct();
    DictLiteralDistinct(DataEntries(a));
    DataEntriesValues(a);
  }

  /** The vector predict_heart_attack hands to the classifier. */
  function FeatureVector(columns: seq<string>, a: Args): (v: seq<Number>)
    ensures |v| == ScalarCount + |AgeColumns(columns)| + FlagCount
  {
    var data := DictLiteral(DataEntries(a));
    var ageColumns := AgeColumns(columns);
    var ageEncoded := OneHot(ageColumns, a.ageColumn);
    DataInInsertionOrder(a);
    Values(data) + ageEncoded
    + [a.receivedTetanus, a.receivedNot, a.receivedTdap, a.smokingNeverSmoked, a.smokingCurrentSmoker, a.smokingFormerSmoker]
  }

  /** For the same arguments and the same data-set columns, this copy builds
      the same vector as the cardioRiskAnalyzerApp copy. */
  lemma FeatureVectorAgrees(columns: seq<string>, a: Args)
    ensures FeatureVector(columns, a) == CardioApp.FeatureVector(columns, a)
  {
    DataInInsertionOrder(a);
    CardioApp.FeatureVectorLayout(columns, a);
    var v, w := FeatureVector(columns, a), CardioApp.FeatureVector(columns, a);
    var h := OneHot(AgeColumns(columns), a.ageColumn);
    assert v == ScalarFeatures(a) + h + FlagFeatures(a);
    assert w == w[..ScalarCount] + w[ScalarCount..ScalarCount + |h|] + w[ScalarCount + |h|..];
  }

  /** The raw answers of this copy's form: the yes/no questions yield the ints
      0 and 1 themselves. */
  datatype Survey = Survey(
    physicalHealthDays: int,
    mentalHealthDays: int,
    physicalActivities: int,
    sleepHours: real,
    hadStroke: int,
    hadAsthma: int,
    hadCopd: int,
    hadDepressiveDisorder: int,
    difficultyConcentrating: int,
    difficultyWalking: int,
    bmi: real,
    alcoholDrinkers: int,
    hadDiabetes: int,
    ageRange: string,
    receivedVaccine: string,
    smokingStatus: string)

  /** Thirteen survey answers as entered, in the order main passes them on. */
  function SurveyScalars(s: Survey): seq<Number> {
    [Int(s.physicalHealthDays), Int(s.mentalHealthDays), Int(s.physicalActivities), Float(s.sleepHours),
     Int(s.hadStroke), Int(s.hadAsthma), Int(s.hadCopd), Int(s.hadDepressiveDisorder),
     Int(s.difficultyConcentrating), Int(s.difficultyWalking), Float(s.bmi), Int(s.alcoholDrinkers),
     Int(s.hadDiabetes)]
  }

  /** The feature preparation in main: answers passed on as they are, the age
      band normalised, the vaccine and smoking answers expanded to flags. */
  function PrepareArgs(s: Survey): (a: Args)
    ensures ScalarFeatures(a) == SurveyScalars(s)
    ensures a.ageColumn == AgeColumnName(s.ageRange)
    ensures FlagFeatures(a) == VaccineFlags(s.receivedVaccine) + SmokingFlags(s.smokingStatus)
  {
    var vaccine := VaccineFlags(s.receivedVaccine);
    var smoking := SmokingFlags(s.smokingStatus);
    Args(
      Int(s.physicalHealthDays), Int(s.mentalHealthDays), Int(s.physicalActivities), Float(s.sleepHours),
      Int(s.hadStroke), Int(s.hadAsthma), Int(s.hadCopd), Int(s.hadDepressiveDisorder),
      Int(s.difficultyConcentrating), Int(s.difficultyWalking), Float(s.bmi), Int(s.alcoholDrinkers),
      Int(s.hadDiabetes),
      AgeColumnName(s.ageRange),
      vaccine[0], vaccine[1], vaccine[2],
      smoking[0], smoking[1], smoking[2])
  }

  /** From the survey to the vector, as main computes it when Predict is pressed. */
  function Encode(columns: seq<string>, s: Survey): (v: seq<Number>)
    ensures |v| == ScalarCount + |AgeColumns(columns)| + FlagCount
  {
    FeatureVector(columns, PrepareArgs(s))
  }

  /** The encoded survey: its answers as entered, then the one-hot of its
      normalised band over the data set's age columns, then its vaccine and
      smoking flags. */
  lemma EncodeLayout(columns: seq<string>, s: Survey)
    ensures var v, n := Encode(columns, s), |AgeColumns(columns)|;
      && v[..ScalarCount] == SurveyScalars(s)
      && v[ScalarCount..ScalarCount + n] == OneHot(AgeColumns(columns), AgeColumnName(s.ageRange))
      && v[ScalarCount + n..] == VaccineFlags(s.receivedVaccine) + SmokingFlags(s.smokingStatus)
  {
    FeatureVectorAgrees(columns, PrepareArgs(s));
    CardioApp.FeatureVectorLayout(columns, PrepareArgs(s));
  }

  /** A survey of the other copy and one of this copy describe the same
      answers: equal numbers and categories, and each yes/no string coded by
      yes_no_mapping to this copy's int. */
  predicate SameAnswers(c: CardioApp.Survey, s: Survey) {
    && c.physicalHealthDays == s.physicalHealthDays
    && c.mentalHealthDays == s.mentalHealthDays
    && c.physicalActivities == s.physicalActivities
    && c.sleepHours == s.sleepHours
    && CardioApp.YesNo(c.hadStroke) == CardioApp.Ok(s.hadStroke)
    && CardioApp.YesNo(c.hadAsthma) == CardioApp.Ok(s.hadAsthma)
    && CardioApp.YesNo(c.hadCopd) == CardioApp.Ok(s.hadCopd)
    && CardioApp.YesNo(c.hadDepressiveDisorder) == CardioApp.Ok(s.hadDepressiveDisorder)
    && CardioApp.YesNo(c.difficultyConcentrating) == CardioApp.Ok(s.difficultyConcentrating)
    && CardioApp.YesNo(c.difficultyWalking) == CardioApp.Ok(s.difficultyWalking)
    && c.bmi == s.bmi
    && CardioApp.YesNo(c.alcoholDrinkers) == CardioApp.Ok(s.alcoholDrinkers)
    && CardioApp.YesNo(c.hadDiabetes) == CardioApp.Ok(s.hadDiabetes)
    && c.ageRange == s.ageRange
    && c.receivedVaccine == s.receivedVaccine
    && c.smokingStatus == s.smokingStatus
  }

  lemma ArgsFromParts(a: Args, b: Args)
    requires ScalarFeatures(a) == ScalarFeatures(b)
    requires a.ageColumn == b.ageColumn
    requires FlagFeatures(a) == FlagFeatures(b)
    ensures a == b
  {
    assert ScalarFeatures(a)[0] == ScalarFeatures(b)[0];
    assert FlagFeatures(a)[0] == FlagFeatures(b)[0];
  }

  /** The two copies of the app, given the same answers, hand the classifier
      the same vector. */
  lemma EncodeAgrees(columns: seq<string>, c: CardioApp.Survey, s: Survey)
    requires SameAnswers(c, s)
    ensures CardioApp.Encode(columns, c) == CardioApp.Ok(Encode(columns, s))
  {
    assert CardioApp.PrepareArgs(c).Ok?;
    var a, b := CardioApp.PrepareArgs(c).value, PrepareArgs(s);
    assert ScalarFeatures(a) == CardioApp.SurveyScalars(c);
    assert ScalarFeatures(b) == CardioApp.SurveyScalars(c);
    ArgsFromParts(a, b);
    FeatureVectorAgrees(columns, b);
  }

  /** The answers of a 30-to-34-year-old non-smoker who had the TDAP vaccine. */
  const ExampleSurvey := Survey(0, 0, 1, 8.0, 0, 0, 0, 0, 0, 0, 22.5, 0, 0, "30 to 34", "TDAP", "Never Smoked")

  lemma ExampleArgs()
    ensures PrepareArgs(ExampleSurvey) == Args(
      Int(0), Int(0), Int(1), Float(8.0), Int(0), Int(0), Int(0), Int(0), Int(0), Int(0), Float(22.5), Int(0), Int(0),
      "age_Age 30to34", Int(0), Int(0), Int(1), Int(1), Int(0), Int(0))
  {
    AgeColumnNameExample();
  }

  /** When the age columns are distinct and the argument's age column is the
      j-th of them, the age block holds a single 1, at slot j. */
  lemma FeatureVectorAt(columns: seq<string>, a: Args, j: nat)
    requires Distinct(AgeColumns(columns))
    requires j < |AgeColumns(columns)| && AgeColumns(columns)[j] == a.ageColumn
    ensures var v := FeatureVector(columns, a);
      && v[..ScalarCount] == ScalarFeatures(a)
      && v[ScalarCount + j] == Int(1)
      && (forall i :: ScalarCount <= i < ScalarCount + |AgeColumns(columns)| && i != ScalarCount + j ==> v[i] == Int(0))
      && v[ScalarCount + |AgeColumns(columns)|..] == FlagFeatures(a)
  {
    FeatureVectorAgrees(columns, a);
    CardioApp.FeatureVectorLayout(columns, a);
    var names := AgeColumns(columns);
    forall i | ScalarCount <= i < ScalarCount + |names| && i != ScalarCount + j
      ensures FeatureVector(columns, a)[i] == Int(0)
    {
      assert names[i - ScalarCount] != names[j];
    }
  }

  /** "age_Age 30to34" is the third of the band columns. */
  lemma ExampleColumnSlot()
    ensures AgeColumnNames(AgeBands)[2] == "age_Age 30to34"
  {
    AgeColumnNameExample();
    assert AgeColumnNames(AgeBands)[2] == AgeColumnName(AgeBands[2]);
  }

  /** The example survey against a data set whose age columns are those of
      the form's thirteen bands: the scalars in order, a single 1 in the slot
      of "age_Age 30to34", then the TDAP and never-smoked flags. */
  lemma EncodeExample(columns: seq<string>)
    requires AgeColumns(columns) == AgeColumnNames(AgeBands)
    ensures var v := Encode(columns, ExampleSurvey);
      && |v| == 32
      && v[..13] == [Int(0), Int(0), Int(1), Float(8.0), Int(0), Int(0), Int(0), Int(0), Int(0), Int(0),
                     Float(22.5), Int(0), Int(0)]
      && v[15] == Int(1)
      && (forall i :: 13 <= i < 26 && i != 15 ==> v[i] == Int(0))
      && v[26..] == [Int(0), Int(0), Int(1), Int(1), Int(0), Int(0)]
  {
    ExampleArgs();
    AgeBandColumnsDistinct();
    ExampleColumnSlot();
    FeatureVectorAt(columns, PrepareArgs(ExampleSurvey), 2);
  }
}
