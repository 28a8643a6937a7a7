/**
  Building blocks of the heart-disease feature encoder that both copies of the
  app share word for word: the age-column normalisation, the selection of the
  reference age columns, the age one-hot block and the vaccine and smoking
  flags. The two copies differ only in how they assemble the final vector and
  in how yes/no answers reach it; see modules CardioApp and Scripts.
 */
module Features {

  /** A feature value as Python holds it: an int or a float, passed through
      unchanged to the classifier (no arithmetic is ever done on it). */
  datatype Number = Int(i: int) | Float(x: real)

  /** The argument list of predict_heart_attack, without the model and the
      data frame: thirteen scalar answers, the normalised age column name and
      the six vaccine and smoking flags, in parameter order. */
  datatype Args = Args(
    physicalHealthDays: Number,
    mentalHealthDays: Number,
    physicalActivities: Number,
    sleepHours: Number,
    hadStroke: Number,
    hadAsthma: Number,
    hadCopd: Number,
    hadDepressiveDisorder: Number,
    difficultyConcentrating: Number,
    difficultyWalking: Number,
    bmi: Number,
    alcoholDrinkers: Number,
    hadDiabetes: Number,
    ageColumn: string,
    receivedTetanus: Number,
    receivedNot: Number,
    receivedTdap: Number,
    smokingNeverSmoked: Number,
    smokingCurrentSmoker: Number,
    smokingFormerSmoker: Number)

  /** Number of scalar answers that open the vector, and of flags that close it. */
  const ScalarCount: nat := 13
  const FlagCount: nat := 6

  /** The prefix that marks a data-set column as an age one-hot column. */
  const AgePrefix: string := "age_Age"

  /** The literal the app puts in front of a normalised age band. */
  const AgeLead: string := "age_Age "

  /** The age bands offered by the form, in the order the form lists them. */
  const AgeBands: seq<string> := [
    "18 to 24", "25 to 29", "30 to 34", "35 to 39", "40 to 44", "45 to 49",
    "50 to 54", "55 to 59", "60 to 64", "65 to 69", "70 to 74", "75 to 79",
    "80 or older"]

  /** The categories behind the three vaccine flags and the three smoking
      flags, in the order the flags appear in the vector. */
  const VaccineChoices: seq<string> := ["Tetanus", "Not Received", "TDAP"]
  const SmokingChoices: seq<string> := ["Never Smoked", "Current Smoker", "Former Smoker"]

  /** The thirteen scalar arguments, in parameter order. */
  function ScalarFeatures(a: Args): seq<Number> {
    [a.physicalHealthDays, a.mentalHealthDays, a.physicalActivities, a.sleepHours,
     a.hadStroke, a.hadAsthma, a.hadCopd, a.hadDepressiveDisorder,
     a.difficultyConcentrating, a.difficultyWalking, a.bmi, a.alcoholDrinkers, a.hadDiabetes]
  }

  /** The three vaccine flags and then the three smoking flags, in parameter order. */
  function FlagFeatures(a: Args): seq<Number> {
    [a.receivedTetanus, a.receivedNot, a.receivedTdap,
     a.smokingNeverSmoked, a.smokingCurrentSmoker, a.smokingFormerSmoker]
  }

  /** Python's `1 if cond else 0`. */
  function Indicator(b: bool): (r: Number)
    ensures IsBit(r) && (r == Int(1) <==> b)
  {
    if b then Int(1) else Int(0)
  }

  /** A value that is the int 0 or the int 1. */
  predicate IsBit(n: Number) {
    n == Int(0) || n == Int(1)
  }

  /** No element occurs twice. */
  predicate Distinct<T(==)>(s: seq<T>) {
    forall i, j :: 0 <= i < j < |s| ==> s[i] != s[j]
  }

  /** The number of entries that are the int 1. */
  function CountOnes(v: seq<Number>): nat {
    if v == [] then 0 else (if v[0] == Int(1) then 1 else 0) + CountOnes(v[1..])
  }

  // ---------------------------------------------------------------------------
  // str.startswith and str.replace(" ", "")
  // ---------------------------------------------------------------------------

  /** Python's `s.startswith(prefix)`. */
  function StartsWith(s: string, prefix: string): (b: bool)
    ensures b <==> |prefix| <= |s| && forall i :: 0 <= i < |prefix| ==> s[i] == prefix[i]
  {
    |prefix| <= |s| && s[..|prefix|] == prefix
  }

  /** Python's `s.replace(" ", "")`: the string with every space deleted. */
  function RemoveSpaces(s: string): (r: string)
    ensures ' ' !in r
    ensures |r| <= |s|
  {
    if s == [] then ""
    else (if s[0] == ' ' then "" else [s[0]]) + RemoveSpaces(s[1..])
  }

  /** Only spaces are deleted: every other character keeps its number of
      occurrences, and a string without spaces is left as it is. */
  lemma {:induction false} RemoveSpacesKeeps(s: string)
    ensures forall c :: c != ' ' ==> multiset(RemoveSpaces(s))[c] == multiset(s)[c]
    ensures ' ' !in s ==> RemoveSpaces(s) == s
  {
    if s != [] {
      assert s == [s[0]] + s[1..];
      RemoveSpacesKeeps(s[1..]);
    }
  }

  /** Deleting spaces keeps the order of what remains: it distributes over
      concatenation (together with the one-character case this determines
      RemoveSpaces completely). */
  lemma {:induction false} RemoveSpacesAppend(a: string, b: string)
    ensures RemoveSpaces(a + b) == RemoveSpaces(a) + RemoveSpaces(b)
  {
    if a == [] {
      assert a + b == b;
    } else {
      assert (a + b)[0] == a[0];
      assert (a + b)[1..] == a[1..] + b;
      RemoveSpacesAppend(a[1..], b);
    }
  }

  /** Deleting spaces twice is the same as deleting them once. */
  lemma RemoveSpacesIdempotent(s: string)
    ensures RemoveSpaces(RemoveSpaces(s)) == RemoveSpaces(s)
  {
    RemoveSpacesKeeps(RemoveSpaces(s));
  }

  // ---------------------------------------------------------------------------
  // The normalised age column: 'age_Age ' + age_range.replace(" ", "")
  // ---------------------------------------------------------------------------

  /** The column name the app derives from the chosen age band. */
  function AgeColumnName(band: string): (r: string)
    ensures |r| >= |AgeLead| && r[..|AgeLead|] == AgeLead
    ensures ' ' !in r[|AgeLead|..]
    ensures StartsWith(r, AgePrefix)
  {
    var r := AgeLead + RemoveSpaces(band);
    assert r[|AgeLead|..] == RemoveSpaces(band);
    r
  }

  /** What follows the lead is the band with its spaces deleted: all of its
      other characters, as often as the band has them. */
  lemma AgeColumnNameKeeps(band: string)
    ensures forall c :: c != ' ' ==>
      multiset(AgeColumnName(band)[|AgeLead|..])[c] == multiset(band)[c]
    ensures ' ' !in band ==> AgeColumnName(band) == AgeLead + band
  {
    assert AgeColumnName(band)[|AgeLead|..] == RemoveSpaces(band);
    RemoveSpacesKeeps(band);
  }

  /** Two bands give the same column name exactly when they agree once their
      spaces are deleted. */
  lemma AgeColumnNameSame(a: string, b: string)
    ensures AgeColumnName(a) == AgeColumnName(b) <==> RemoveSpaces(a) == RemoveSpaces(b)
  {
    if AgeColumnName(a) == AgeColumnName(b) {
      assert AgeColumnName(a)[|AgeLead|..] == RemoveSpaces(a);
      assert AgeColumnName(b)[|AgeLead|..] == RemoveSpaces(b);
    }
  }

  /** The column names of a list of bands, band by band. */
  function AgeColumnNames(bands: seq<string>): (r: seq<string>)
    ensures |r| == |bands|
    ensures forall i :: 0 <= i < |r| ==> r[i] == AgeColumnName(bands[i])
  {
    seq(|bands|, i requires 0 <= i < |bands| => AgeColumnName(bands[i]))
  }

  /** The worked example: "30 to 34" becomes "age_Age 30to34". */
  lemma AgeColumnNameExample()
    ensures AgeColumnName("30 to 34") == "age_Age 30to34"
  {
  }

  /** A band whose first two characters are not spaces keeps them right
      after the lead. */
  lemma AgeColumnNameLeading(band: string)
    requires |band| >= 2 && band[0] != ' ' && band[1] != ' '
    ensures |AgeColumnName(band)| >= |AgeLead| + 2
    ensures AgeColumnName(band)[|AgeLead|] == band[0]
    ensures AgeColumnName(band)[|AgeLead| + 1] == band[1]
  {
    assert band == [band[0]] + band[1..];
    assert band[1..] == [band[1]] + band[2..];
    assert RemoveSpaces(band) == [band[0]] + RemoveSpaces(band[1..]);
    assert RemoveSpaces(band[1..]) == [band[1]] + RemoveSpaces(band[2..]);
    assert AgeColumnName(band) == AgeLead + RemoveSpaces(band);
  }

  /** Bands that still differ once their spaces are removed normalise to
      pairwise different names. */
  lemma AgeColumnNamesDistinctBySpaces(bands: seq<string>)
    requires forall i, j :: 0 <= i < j < |bands| ==> RemoveSpaces(bands[i]) != RemoveSpaces(bands[j])
    ensures Distinct(AgeColumnNames(bands))
  {
    var r := AgeColumnNames(bands);
    forall i, j | 0 <= i < j < |r| ensures r[i] != r[j] {
      AgeColumnNameSame(bands[i], bands[j]);
    }
  }

  /** Bands that start with two non-space characters, no two of them with
      the same two, normalise to pairwise different names. */
  lemma AgeColumnNamesDistinct(bands: seq<string>)
    requires forall i :: 0 <= i < |bands| ==> |bands[i]| >= 2 && bands[i][0] != ' ' && bands[i][1] != ' '
    requires forall i, j :: 0 <= i < j < |bands| ==> bands[i][0] != bands[j][0] || bands[i][1] != bands[j][1]
    ensures Distinct(AgeColumnNames(bands))
  {
    var r := AgeColumnNames(bands);
    forall i, j | 0 <= i < j < |r| ensures r[i] != r[j] {
      AgeColumnNameLeading(bands[i]);
      AgeColumnNameLeading(bands[j]);
    }
  }

  /** Every band of the form lands in its own column. */
  lemma AgeBandColumnsDistinct()
    ensures Distinct(AgeColumnNames(AgeBands))
  {
    AgeBandsLeading();
    AgeColumnNamesDistinct(AgeBands);
  }

  lemma AgeBandsLeading()
    ensures forall i :: 0 <= i < |AgeBands| ==>
      |AgeBands[i]| >= 2 && AgeBands[i][0] != ' ' && AgeBands[i][1] != ' '
    ensures forall i, j :: 0 <= i < j < |AgeBands| ==>
      AgeBands[i][0] != AgeBands[j][0] || AgeBands[i][1] != AgeBands[j][1]
  {
  }

  // ---------------------------------------------------------------------------
  // The reference age columns: [col for col in columns if col.startswith('age_Age')]
  // ---------------------------------------------------------------------------

  /** The data set's age columns, in the data set's order. */
  function AgeColumns(columns: seq<string>): (r: seq<string>)
    ensures |r| <= |columns|
    ensures forall c :: c in r <==> c in columns && StartsWith(c, AgePrefix)
  {
    if columns == [] then []
    else (if StartsWith(columns[0], AgePrefix) then [columns[0]] else []) + AgeColumns(columns[1..])
  }

  /** Every age column is kept as often as the data set lists it, and no
      other column is kept at all. */
  lemma {:induction false} AgeColumnsCounts(columns: seq<string>)
    ensures forall c ::
      multiset(AgeColumns(columns))[c] == if StartsWith(c, AgePrefix) then multiset(columns)[c] else 0
  {
    if columns != [] {
      assert columns == [columns[0]] + columns[1..];
      AgeColumnsCounts(columns[1..]);
    }
  }

  /** The selection keeps relative order: it distributes over concatenation. */
  lemma {:induction false} AgeColumnsAppend(a: seq<string>, b: seq<string>)
    ensures AgeColumns(a + b) == AgeColumns(a) + AgeColumns(b)
  {
    if a == [] {
      assert a + b == b;
    } else {
      assert (a + b)[0] == a[0];
      assert (a + b)[1..] == a[1..] + b;
      AgeColumnsAppend(a[1..], b);
    }
  }

  lemma DistinctCons<T>(x: T, s: seq<T>)
    ensures Distinct([x] + s) <==> x !in s && Distinct(s)
  {
    var t := [x] + s;
    assert forall i :: 0 <= i < |s| ==> t[i + 1] == s[i];
    if x !in s && Distinct(s) {
      forall i, j | 0 <= i < j < |t| ensures t[i] != t[j] {
        if i > 0 {
          assert t[i] == s[i - 1] && t[j] == s[j - 1];
        } else {
          assert t[j] == s[j - 1];
        }
      }
    }
    if Distinct(t) {
      forall i, j | 0 <= i < j < |s| ensures s[i] != s[j] {
        assert t[i + 1] != t[j + 1];
      }
      forall k | 0 <= k < |s| ensures s[k] != x {
        assert t[0] != t[k + 1];
      }
    }
  }

  /** Distinct data-set columns give distinct age columns. */
  lemma {:induction false} AgeColumnsDistinct(columns: seq<string>)
    requires Distinct(columns)
    ensures Distinct(AgeColumns(columns))
  {
    if columns != [] {
      var c, rest := columns[0], columns[1..];
      assert columns == [c] + rest;
      DistinctCons(c, rest);
      AgeColumnsDistinct(rest);
      if StartsWith(c, AgePrefix) {
        DistinctCons(c, AgeColumns(rest));
      }
    }
  }

  // ---------------------------------------------------------------------------
  // The one-hot block: [1 if col == x else 0 for col in categories]
  // ---------------------------------------------------------------------------

  /** One 0/1 entry per category, 1 where the category equals x. */
  function OneHot(categories: seq<string>, x: string): (r: seq<Number>)
    ensures |r| == |categories|
    ensures forall i :: 0 <= i < |r| ==> IsBit(r[i]) && (r[i] == Int(1) <==> categories[i] == x)
  {
    if categories == [] then []
    else [Indicator(categories[0] == x)] + OneHot(categories[1..], x)
  }

  /** The block holds as many ones as x has occurrences among the categories. */
  lemma {:induction false} OneHotCount(categories: seq<string>, x: string)
    ensures CountOnes(OneHot(categories, x)) == multiset(categories)[x]
  {
    if categories != [] {
      assert categories == [categories[0]] + categories[1..];
      OneHotCount(categories[1..], x);
    }
  }

  lemma {:induction false} DistinctOccursOnce<T>(s: seq<T>, x: T)
    requires Distinct(s)
    ensures multiset(s)[x] == if x in s then 1 else 0
  {
    if s != [] {
      assert s == [s[0]] + s[1..];
      DistinctCons(s[0], s[1..]);
      DistinctOccursOnce(s[1..], x);
    }
  }

  /** An unmatched value gives an all-zero block; a value that occurs among
      distinct categories gives exactly one 1, at its own position. */
  lemma OneHotExactlyOne(categories: seq<string>, x: string)
    ensures x !in categories ==>
      CountOnes(OneHot(categories, x)) == 0 &&
      forall i :: 0 <= i < |categories| ==> OneHot(categories, x)[i] == Int(0)
    ensures Distinct(categories) && x in categories ==>
      CountOnes(OneHot(categories, x)) == 1 &&
      exists k :: 0 <= k < |categories| && categories[k] == x &&
        forall i :: 0 <= i < |categories| ==> (OneHot(categories, x)[i] == Int(1) <==> i == k)
  {
    OneHotCount(categories, x);
    if Distinct(categories) && x in categories {
      DistinctOccursOnce(categories, x);
      var k :| 0 <= k < |categories| && categories[k] == x;
      assert forall i :: 0 <= i < |categories| ==> (OneHot(categories, x)[i] == Int(1) <==> i == k);
    }
  }

  /** The age block of a normalised band against a data set with distinct
      columns: exactly one 1 when the name is a column, all zeros otherwise. */
  lemma AgeBlockOneHot(columns: seq<string>, band: string)
    requires Distinct(columns)
    ensures AgeColumnName(band) in columns ==>
      CountOnes(OneHot(AgeColumns(columns), AgeColumnName(band))) == 1
    ensures AgeColumnName(band) !in columns ==>
      forall i :: 0 <= i < |AgeColumns(columns)| ==>
        OneHot(AgeColumns(columns), AgeColumnName(band))[i] == Int(0)
  {
    AgeColumnsDistinct(columns);
    OneHotExactlyOne(AgeColumns(columns), AgeColumnName(band));
  }

  // ---------------------------------------------------------------------------
  // The vaccine and smoking flags
  // ---------------------------------------------------------------------------

  lemma ChoicesDistinct()
    ensures Distinct(VaccineChoices) && Distinct(SmokingChoices)
  {
  }

  /** received_tetanus, received_not, received_tdap. */
  function VaccineFlags(vaccine: string): (r: seq<Number>)
    ensures |r| == |VaccineChoices|
    ensures forall i :: 0 <= i < |r| ==> IsBit(r[i]) && (r[i] == Int(1) <==> vaccine == VaccineChoices[i])
  {
    [Indicator(vaccine == "Tetanus"), Indicator(vaccine == "Not Received"), Indicator(vaccine == "TDAP")]
  }

  /** smoking_never_smoked, smoking_current_smoker, smoking_former_smoker. */
  function SmokingFlags(status: string): (r: seq<Number>)
    ensures |r| == |SmokingChoices|
    ensures forall i :: 0 <= i < |r| ==> IsBit(r[i]) && (r[i] == Int(1) <==> status == SmokingChoices[i])
  {
    [Indicator(status == "Never Smoked"), Indicator(status == "Current Smoker"), Indicator(status == "Former Smoker")]
  }

  /** The three vaccine flags are the one-hot of the answer over the three
      listed vaccines: one flag set for a listed vaccine, none otherwise. */
  lemma VaccineFlagsOneHot(vaccine: string)
    ensures VaccineFlags(vaccine) == OneHot(VaccineChoices, vaccine)
    ensures CountOnes(VaccineFlags(vaccine)) == if vaccine in VaccineChoices then 1 else 0
  {
    var f, h := VaccineFlags(vaccine), OneHot(VaccineChoices, vaccine);
    forall i | 0 <= i < |f| ensures f[i] == h[i] {}
    assert f == h;
    OneHotCount(VaccineChoices, vaccine);
    ChoicesDistinct();
    DistinctOccursOnce(VaccineChoices, vaccine);
  }

  /** The same for the three smoking flags. */
  lemma SmokingFlagsOneHot(status: string)
    ensures SmokingFlags(status) == OneHot(SmokingChoices, status)
    ensures CountOnes(SmokingFlags(status)) == if status in SmokingChoices then 1 else 0
  {
    var f, h := SmokingFlags(status), OneHot(SmokingChoices, status);
    forall i | 0 <= i < |f| ensures f[i] == h[i] {}
    assert f == h;
    OneHotCount(SmokingChoices, status);
    ChoicesDistinct();
    DistinctOccursOnce(SmokingChoices, status);
  }
}
