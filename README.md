# CardioRisk Analyzer: the feature-vector encoder

CardioRisk Analyzer is a small Streamlit app. A user answers a health survey:
days of poor physical and mental health, activity, sleep, eight yes/no
questions, BMI, an age band, a vaccine and a smoking status. The app turns the
answers into one fixed-order row of numbers and gives it to a pre-trained
random-forest classifier. The repository holds two copies of the app,
`cardioRiskAnalyzerApp/heart_disease_prediction.py` and
`scripts/heart_disease_prediction.py`. This project models the encoder both
copies implement and proves what it produces:

- the normalised age column `'age_Age ' + band.replace(" ", "")`;
- the data set's age columns, meaning those whose name starts with
  `'age_Age'`, in the data set's order;
- the age one-hot block over those columns;
- the three vaccine flags and the three smoking flags;
- the cardioRiskAnalyzerApp copy's `yes_no_mapping` lookups, including the
  `KeyError` for an answer the dictionary does not hold;
- the scripts copy's dict literal, read back with `list(data.values())`;
- the assembled vector: 13 scalars, then the age block, then the 6 flags.

The model has three modules:

- `features.dfy` (module `Features`) holds what both copies write the same
  way: the `startswith` filter, the one-hot comprehension, the space removal
  and the two flag groups.
  - Lines 13-14 of the cardioRiskAnalyzerApp copy match lines 43-44 of the
    scripts copy, except for the data frame whose columns they read. The
    first reads the `data` parameter of `predict_heart_attack`; the second
    reads the module-level `heart_df` loaded at line 18.
  - Lines 90-96 of the first match lines 86-92 of the second character for
    character.
  - The table below cites the cardioRiskAnalyzerApp lines for these members.
- `cardio_app.dfy` (module `CardioApp`) covers the cardioRiskAnalyzerApp copy:
  - the yes/no strings pass through `yes_no_mapping`;
  - the vector is one list literal followed by the age block and the flags.
- `scripts.dfy` (module `Scripts`) covers the scripts copy:
  - the yes/no select boxes return the ints 0 and 1 themselves;
  - `predict_heart_attack` collects the 13 scalars in a dict literal;
  - it proves that, given the same answers, both copies produce the same
    vector.

In the model:

- The data set's column list is a `seq<string>` parameter.
- Numbers are a `Number` datatype (`Int` or `Float` over `real`). They are
  passed through untouched.
- A Python dict is its entry list in insertion order. Assigning an existing
  key keeps its position and replaces its value; a new key goes to the end.

## Model

| member | source | states |
|---|---|---|
| Features.StartsWith | cardioRiskAnalyzerApp/heart_disease_prediction.py:13 | `s.startswith(prefix)` holds exactly when the prefix is no longer than `s` and agrees with it character by character |
| Features.AgeColumns | cardioRiskAnalyzerApp/heart_disease_prediction.py:13 | a column is among the age columns exactly when it is a data-set column starting with `age_Age`; no other column appears, and there are no more of them than data-set columns |
| Features.AgeColumnsCounts | cardioRiskAnalyzerApp/heart_disease_prediction.py:13 | every `age_Age` column is kept exactly as often as the data set lists it, every other column zero times |
| Features.AgeColumnsAppend | cardioRiskAnalyzerApp/heart_disease_prediction.py:13 | the selection keeps the data set's relative order: it distributes over concatenation of column lists |
| Features.AgeColumnsDistinct | cardioRiskAnalyzerApp/heart_disease_prediction.py:13 | distinct data-set columns give distinct age columns |
| Features.Indicator | cardioRiskAnalyzerApp/heart_disease_prediction.py:91-96 | `1 if cond else 0` is the int 0 or 1, and it is 1 exactly when the condition holds |
| Features.OneHot | cardioRiskAnalyzerApp/heart_disease_prediction.py:14 | the block has one entry per age column, each 0 or 1, and entry i is 1 exactly when column i equals the requested name |
| Features.OneHotCount | cardioRiskAnalyzerApp/heart_disease_prediction.py:14 | the number of ones in the block is the number of times the name occurs among the columns |
| Features.OneHotExactlyOne | cardioRiskAnalyzerApp/heart_disease_prediction.py:14 | an unmatched name gives an all-zero block; a name among distinct columns gives exactly one 1, at the position of that column |
| Features.AgeBlockOneHot | cardioRiskAnalyzerApp/heart_disease_prediction.py:13-14 | over a data set with distinct columns, the block of a normalised band holds exactly one 1 when the name is a column, and only zeros when it is not |
| Features.RemoveSpaces | cardioRiskAnalyzerApp/heart_disease_prediction.py:90 | `replace(" ", "")` leaves no space and never lengthens the string |
| Features.RemoveSpacesKeeps | cardioRiskAnalyzerApp/heart_disease_prediction.py:90 | only spaces are removed: every other character keeps its number of occurrences, and a string without spaces is returned unchanged |
| Features.RemoveSpacesAppend | cardioRiskAnalyzerApp/heart_disease_prediction.py:90 | space removal keeps the order of what remains: it distributes over concatenation |
| Features.RemoveSpacesIdempotent | cardioRiskAnalyzerApp/heart_disease_prediction.py:90 | removing spaces twice gives the same as once |
| Features.AgeColumnName | cardioRiskAnalyzerApp/heart_disease_prediction.py:90 | the name starts with the 8-character lead `age_Age `, hence with `age_Age`, and holds no space after the lead |
| Features.AgeColumnNameKeeps | cardioRiskAnalyzerApp/heart_disease_prediction.py:90 | after the lead come all the band's non-space characters, each as often as in the band; a band without spaces is just appended to the lead |
| Features.AgeColumnNameSame | cardioRiskAnalyzerApp/heart_disease_prediction.py:90 | two bands give the same column name exactly when they agree once their spaces are removed |
| Features.AgeColumnNameExample | cardioRiskAnalyzerApp/heart_disease_prediction.py:90 | the band `30 to 34` becomes `age_Age 30to34` |
| Features.AgeColumnNamesDistinctBySpaces | cardioRiskAnalyzerApp/heart_disease_prediction.py:90 | bands that still differ once their spaces are removed normalise to pairwise different names |
| Features.AgeColumnNamesDistinct | cardioRiskAnalyzerApp/heart_disease_prediction.py:90 | bands that start with two non-space characters, no two bands sharing both, normalise to pairwise different names |
| Features.AgeBandColumnsDistinct | cardioRiskAnalyzerApp/heart_disease_prediction.py:82 | the thirteen bands of the age select box normalise to thirteen different column names |
| Features.ChoicesDistinct | cardioRiskAnalyzerApp/heart_disease_prediction.py:83-84 | the three vaccine options are pairwise different, and so are the three smoking options |
| Features.VaccineFlags | cardioRiskAnalyzerApp/heart_disease_prediction.py:91-93 | three flags, each 0 or 1; flag i is 1 exactly when the answer is the i-th of Tetanus, Not Received, TDAP |
| Features.VaccineFlagsOneHot | cardioRiskAnalyzerApp/heart_disease_prediction.py:91-93 | the vaccine flags are the one-hot of the answer over the three vaccines: exactly one 1 for a listed vaccine, all zeros for any other string |
| Features.SmokingFlags | cardioRiskAnalyzerApp/heart_disease_prediction.py:94-96 | three flags, each 0 or 1; flag i is 1 exactly when the status is the i-th of Never Smoked, Current Smoker, Former Smoker |
| Features.SmokingFlagsOneHot | cardioRiskAnalyzerApp/heart_disease_prediction.py:94-96 | the smoking flags are the one-hot of the status over the three statuses: exactly one 1 for a listed status, all zeros otherwise |
| CardioApp.YesNo | cardioRiskAnalyzerApp/heart_disease_prediction.py:59 | `yes_no_mapping[answer]` succeeds exactly for `No` and `Yes`, yields 0 or 1, 1 exactly for `Yes`, and otherwise raises `KeyError(answer)` |
| CardioApp.YesNoCodesOptions | cardioRiskAnalyzerApp/heart_disease_prediction.py:59 | each option is mapped to its position in the select box (`No` to 0, `Yes` to 1), and different answers never get the same code |
| CardioApp.YesNoAnswers | cardioRiskAnalyzerApp/heart_disease_prediction.py:66-81 | the eight yes/no answers are looked up in the order stroke, asthma, COPD, depressive disorder, concentrating, walking, alcohol, diabetes |
| CardioApp.YesNoAnswersSlots | cardioRiskAnalyzerApp/heart_disease_prediction.py:66-81 | the answer looked up i-th feeds scalar slot 4, 5, 6, 7, 8, 9, 11 or 12 in turn, as 1 for `Yes` and 0 otherwise |
| CardioApp.YesNoAll | cardioRiskAnalyzerApp/heart_disease_prediction.py:66-81 | the lookups succeed exactly when every answer is an option, then give one code per answer, in order; a failure carries the `KeyError` of the first answer not in the dictionary |
| CardioApp.PrepareArgs | cardioRiskAnalyzerApp/heart_disease_prediction.py:61-96 | the prepared arguments exist exactly when all eight yes/no answers are options, failing otherwise with the first unknown answer's `KeyError`; on success the scalars are the answers with yes/no coded, the age column is the normalised band, and the flags are the vaccine and smoking flags |
| CardioApp.FeatureVector | cardioRiskAnalyzerApp/heart_disease_prediction.py:16-20 | the vector has 13 + number of age columns + 6 entries |
| CardioApp.FeatureVectorLayout | cardioRiskAnalyzerApp/heart_disease_prediction.py:12-20 | positions 0..12 are the scalar arguments in parameter order, the next ones the age block (each 0 or 1, 1 exactly at the requested column), and the last six tetanus, not received, tdap, never, current, former |
| CardioApp.Encode | cardioRiskAnalyzerApp/heart_disease_prediction.py:88-99 | encoding fails exactly when a yes/no answer is not an option, with the preparation's `KeyError`; otherwise the vector has 13 + number of age columns + 6 entries |
| CardioApp.EncodeLayout | cardioRiskAnalyzerApp/heart_disease_prediction.py:88-99 | the encoded survey is its scalar answers, then the one-hot of its normalised band over the data set's age columns, then its vaccine and smoking flags |
| CardioApp.EncodeAgeBlock | cardioRiskAnalyzerApp/heart_disease_prediction.py:90-99 | over distinct data-set columns, the age block of an encoded survey has exactly one 1 when the normalised band is a column, and only zeros when it is not |
| CardioApp.EncodeFlagGroups | cardioRiskAnalyzerApp/heart_disease_prediction.py:91-99 | the vaccine group and the smoking group of an encoded survey each hold exactly one 1 for a listed answer and none otherwise |
| Scripts.Insert | scripts/heart_disease_prediction.py:26-40 | assigning a key already present keeps the entry count; a new key adds one entry |
| Scripts.InsertSpec | scripts/heart_disease_prediction.py:26-40 | after `d[k] = v` the keys are unchanged if k was present, otherwise k is appended; k maps to v and every other key keeps its value |
| Scripts.InsertNew | scripts/heart_disease_prediction.py:26-40 | assigning a key the dict does not hold appends the entry at the end |
| Scripts.DictLiteral | scripts/heart_disease_prediction.py:26-40 | the dict a literal evaluates to, by inserting its entries from left to right, has no more entries than the literal |
| Scripts.DictLiteralKeys | scripts/heart_disease_prediction.py:26-40 | the dict of a literal holds each key the literal mentions exactly once, and no other key |
| Scripts.DictLiteralDistinct | scripts/heart_disease_prediction.py:26-40 | a dict literal with pairwise different keys holds all its entries in the order written |
| Scripts.DataKeysDistinct | scripts/heart_disease_prediction.py:26-40 | the thirteen keys of the `data` literal are pairwise different |
| Scripts.DataInInsertionOrder | scripts/heart_disease_prediction.py:26-47 | `data` holds the thirteen keys physicalhealthdays to had_diabetes, and `list(data.values())` is the scalar arguments in parameter order |
| Scripts.Values | scripts/heart_disease_prediction.py:47 | `list(data.values())` has one value per entry, the i-th entry's value at position i, in insertion order |
| Scripts.FeatureVector | scripts/heart_disease_prediction.py:47 | the vector has 13 + number of age columns + 6 entries |
| Scripts.FeatureVectorAgrees | scripts/heart_disease_prediction.py:47 | for the same arguments and columns, this copy's vector equals the cardioRiskAnalyzerApp copy's (its lines 16-20) |
| Scripts.FeatureVectorAt | scripts/heart_disease_prediction.py:43-47 | with distinct age columns and the requested name at slot j, the vector starts with the scalars, has 1 at slot j of the age block and 0 at the other slots, and ends with the six flags |
| Scripts.PrepareArgs | scripts/heart_disease_prediction.py:86-92 | the thirteen scalar arguments are the answers exactly as entered, in parameter order; the age column is the normalised band; the six flags are the vaccine flags followed by the smoking flags |
| Scripts.Encode | scripts/heart_disease_prediction.py:84-95 | the encoded survey has 13 + number of age columns + 6 entries |
| Scripts.EncodeLayout | scripts/heart_disease_prediction.py:84-95 | for every survey, the encoded vector is its answers as entered, then the one-hot of its normalised band over the data set's age columns, then its vaccine and smoking flags |
| Scripts.EncodeAgrees | scripts/heart_disease_prediction.py:84-95 | when the two copies' surveys hold the same answers, with each yes/no string coded as the other copy's int, the cardioRiskAnalyzerApp copy succeeds and gives exactly this copy's vector |
| Scripts.ExampleArgs | scripts/heart_disease_prediction.py:86-92 | the example survey (30 to 34, TDAP, never smoked) is prepared to the scalars as entered, `age_Age 30to34`, and flags 0, 0, 1, 1, 0, 0 |
| Scripts.ExampleColumnSlot | scripts/heart_disease_prediction.py:80-86 | `age_Age 30to34` is the column name of the third band of the age select box |
| Scripts.EncodeExample | scripts/heart_disease_prediction.py:84-95 | against a data set whose age columns are those of the thirteen bands, the example encodes to 32 entries: its scalars, a single 1 in the `30 to 34` slot, then 0, 0, 1, 1, 0, 0 |

## Left out

- The Streamlit interface is not modelled: page setup, titles, sidebar
  widgets, the Predict button, columns and images. It is presentation only.
- Widget bounds are not modelled. This covers the day ranges, sleep 0.0-24.0
  and BMI 10.0-50.0. The encoder itself checks none of them, so the model
  accepts any numbers, and an age band, vaccine or smoking answer outside the
  select box's options.
  - An unmatched band yields an all-zero age block.
  - An unlisted vaccine or smoking answer yields three zero flags.
- Neither copy validates BMI or rejects any answer, and the model does not
  either. Its only error is the `KeyError` of `yes_no_mapping`.
- Loading the model and the data is left out, because it is file I/O through
  joblib and pandas. This includes the fixed Windows paths of the scripts
  copy and its reloading of the model inside `predict_heart_attack`. The data
  set is represented only by its column names, a parameter.
- In the scripts copy the age columns come from the module-level `heart_df`
  rather than from a parameter. The model passes those columns in as the
  same `columns` parameter the other copy's data frame becomes.
- The classifier call `model.predict` is left out. It is an opaque
  scikit-learn random forest, so the model ends at the vector given to it.
- The rendering of the prediction is not modelled, because it only displays
  messages and images. This covers the `result == 1` / `result == 0`
  branches, and the scripts copy's `else` branch.
- Floating-point behaviour of sleep hours and BMI is not modelled. The
  values are carried as `real` and never computed with.
- Scripts.Survey: the scripts copy's yes/no select boxes offer only 0 and 1.
  The model takes any int there, as the encoder passes it on unchecked.
- CardioApp.FeatureVector, Scripts.FeatureVector and Scripts.Encode: their
  own contracts state only the length. The layout is stated by
  CardioApp.FeatureVectorLayout, by Scripts.FeatureVectorAgrees (or
  Scripts.FeatureVectorAt), and for every survey by Scripts.EncodeLayout.
