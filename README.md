# People records manager, modelled in Dafny

`main2.py` is a console program that keeps a list of people in `people.json`. Each person is a
JSON object with a name (first name and surname), a gender (`"m"` or `"f"`) and a height in
centimetres. A menu offers five operations:

- show the list;
- add a person, after checking the three answers and refusing a name that is already present
  up to case;
- delete every person with a given name, up to case;
- search for names that contain a given text, up to case;
- compute the average height of the men and store it in `result.json`.

Every operation starts by loading the file. A file that is missing, is not valid JSON or does not
hold a list is replaced by a fixed set of ten people before it is read again.

The model has seven modules:

- `Text`: the Python string operations the program uses, on ASCII. These are `str.isspace`,
  `str.isalpha`, `str.lower`, `str.strip`, `str.split()` with no argument, and the substring
  test `in`.
- `Seqs`: the list comprehension `[x for x in s if p(x)]` as `Filter`, with its laws. The laws
  cover order, completeness, concatenation, idempotence, and removing or keeping exactly one
  element.
- `Wrappers`: `Option`.
- `Records`: the record type and the ten default records. It also defines the case-insensitive
  name comparison and what it means for a collection's names to be unique.
- `Validation`: the three answer checks of `add_person` and the add decision `AddRecord`. The
  name check is characterised exactly by a two-word layout, and the gender check by a
  one-letter layout.
- `Queries`: the comprehensions of delete, search and average male height, and how they
  interact with adding.
- `Storage`: the file contents as abstract values, the load fallback `Load`, and the class
  `PeopleStore`. The class holds the contents of both files, and each menu operation is one of
  its methods. Each method is proved equal to the functions above.

## Model

| member | source | states |
|---|---|---|
| Text.IsSpace | main2.py:56 | the definition of whitespace used by `strip` and `split()`: tab, line feed, vertical tab, form feed, carriage return, characters 28-31 and the space |
| Text.IsAlpha | main2.py:56 | the definition of `isalpha` on ASCII: a non-empty text of the letters A-Z and a-z only |
| Text.Lower | main2.py:62 | the definition of `lower` on ASCII: each capital A-Z becomes its small letter, every other character is kept |
| Text.Contains | main2.py:99 | the definition of `q in s`: q occurs at some position of s, the empty text at every position |
| Text.Strip | main2.py:55 | the stripped answer neither starts nor ends with whitespace |
| Text.StripShape | main2.py:55 | the answer is leading whitespace, then its stripped form, then trailing whitespace |
| Text.StripOf | main2.py:55 | stripping whitespace from around a text that has no whitespace at either end gives back exactly that text |
| Text.StripNoEnds | main2.py:55 | a text that neither starts nor ends with whitespace is left as it is by strip |
| Text.StripIdempotent | main2.py:55 | stripping twice is stripping once |
| Text.TrimStart | main2.py:55 | the result is a suffix of the input, only whitespace is removed, and it starts with a non-space |
| Text.TrimEnd | main2.py:55 | the result is a prefix of the input, only whitespace is removed, and it ends with a non-space |
| Text.TrimStartOf | main2.py:55 | removing leading whitespace from whitespace followed by a non-space start gives the rest |
| Text.TrimEndOf | main2.py:55 | removing trailing whitespace from a text that ends in a non-space followed by whitespace gives the text |
| Text.Split | main2.py:56 | every word `split()` produces is non-empty and contains no whitespace |
| Text.TokenLength | main2.py:56 | the first word ends at the first whitespace or at the end of the text |
| Text.TokenLengthOf | main2.py:56 | the first word of a non-space run followed by whitespace or nothing is exactly that run |
| Text.SplitSkipsSpace | main2.py:56 | leading whitespace does not change the words |
| Text.SplitWord | main2.py:56 | a non-space run followed by whitespace or nothing is the first word, and the rest is split on |
| Text.SplitEmpty | main2.py:56 | no words exactly when the text is all whitespace |
| Text.SplitFirst | main2.py:56 | a text with words is whitespace, its first word, then a remainder whose words are the remaining words |
| Text.AlphaHasNoSpace | main2.py:56 | a word that passes `isalpha` has no whitespace |
| Text.LowerKeepsSpace | main2.py:62 | lowering keeps the length and keeps which characters are whitespace |
| Text.LowerAppend | main2.py:62 | lowering distributes over concatenation |
| Text.ContainsEmpty | main2.py:99 | the empty text occurs in every name |
| Text.ContainsSelf | main2.py:99 | every text occurs in itself |
| Seqs.Filter | main2.py:89 | the comprehension is no longer than its input, and everything it keeps is in the input and satisfies the condition |
| Seqs.FilterComplete | main2.py:89 | every element that satisfies the condition is kept |
| Seqs.FilterIsSubsequence | main2.py:89 | the comprehension keeps the input order |
| Seqs.FilterAppend | main2.py:89 | the comprehension of a concatenation is the concatenation of the comprehensions |
| Seqs.FilterSingleton | main2.py:89 | a one-element list keeps its element exactly when it satisfies the condition |
| Seqs.FilterKeepsAll | main2.py:89 | when every element satisfies the condition, nothing is removed |
| Seqs.FilterSameLength | main2.py:90 | the length is unchanged exactly when every element satisfies the condition |
| Seqs.FilterEmpty | main2.py:110 | the result is empty exactly when no element satisfies the condition |
| Seqs.FilterIdempotent | main2.py:89 | filtering again changes nothing |
| Seqs.FilterDropsOne | main2.py:89 | when exactly one element fails, exactly that element is removed |
| Seqs.FilterOnlyOne | main2.py:99 | when exactly one element satisfies the condition, the result is that element alone |
| Records.InitialPeople | main2.py:7-18 | the definition of the ten default records, with their names, genders and heights in file order |
| Records.SameName | main2.py:78 | the definition of `a.lower() == b.lower()` |
| Records.NameTaken | main2.py:78 | the definition of `any(p["Name"].lower() == full_name.lower() for p in data)` |
| Records.DifferentNames | main2.py:78 | names of different lengths, or whose first letters differ after lowering, are not the same name |
| Records.InitialPeopleGenders | main2.py:7-18 | the default collection has ten records; the first five have gender "m" and the last five "f" |
| Records.InitialPeopleHalves | main2.py:7-18 | the default collection is its five men followed by its five women |
| Records.InitialMen | main2.py:8-12 | the first five default records all have gender "m" |
| Records.InitialWomen | main2.py:13-17 | the last five default records all have gender "f" |
| Records.InitialPeopleUnique | main2.py:7-18 | no default name repeats, even up to case |
| Records.UniqueAppend | main2.py:78-82 | appending a record keeps names unique if and only if its name is not already taken |
| Records.UniqueFilter | main2.py:89 | any comprehension over a collection with unique names has unique names |
| Records.UniqueCons | main2.py:89 | a record whose name differs from all the names of a unique collection can be put in front of it |
| Validation.NameAccepted | main2.py:56 | the definition of the name check: `split()` gives exactly two words and each passes `isalpha`; NameAcceptedIff characterises it |
| Validation.NormalizeGender | main2.py:62 | the definition of the stored gender, the answer lowered and then stripped |
| Validation.GenderAccepted | main2.py:63 | the definition of the gender check: the normalised answer is "m" or "f"; GenderAcceptedIff characterises it on the raw answer |
| Validation.HeightAccepted | main2.py:71 | the definition of the height check, 50 to 250 with both ends included; HeightBounds checks the ends |
| Validation.AddRecord | main2.py:51-84 | when a record is added: the collection grows by one at the end and the old records stay in front; the new record passes all three checks and its name was not taken; it holds the stripped name, the normalised gender and the height |
| Validation.NameAcceptedIff | main2.py:56 | a name is accepted exactly when it is whitespace, a word of letters, whitespace, a word of letters, whitespace |
| Validation.SplitTwoWords | main2.py:56 | a text laid out as two words splits into exactly those two words |
| Validation.NameLayout | main2.py:56 | an accepted name can be cut into the two-word layout |
| Validation.LayoutAccepted | main2.py:56 | every two-word layout of letters is accepted |
| Validation.NameExamplesAccepted | main2.py:55-56 | "Ivan Petrenko" is accepted |
| Validation.PaddedNameExample | main2.py:55-56 | "  Anna   Ivanova " is accepted |
| Validation.OneWordRefused | main2.py:56 | a single word is refused |
| Validation.SplitTwoRuns | main2.py:56 | two whitespace-free runs separated by whitespace, with any whitespace around them, split into exactly those two runs |
| Validation.SplitThreeWords | main2.py:56 | three whitespace-free runs separated by whitespace, with any whitespace around them, split into exactly those three runs |
| Validation.ThreeWordsRefused | main2.py:56 | three words are refused, whatever whitespace surrounds and separates them |
| Validation.NonLetterRefused | main2.py:56 | two words of which either, the first or the second, holds a character that is not a letter are refused, whatever whitespace surrounds and separates them |
| Validation.NameExamplesRefused | main2.py:56 | "Ivan" and the empty answer are refused |
| Validation.ThreeWordsExample | main2.py:56 | "Ivan Petro Enko" is refused |
| Validation.DigitExample | main2.py:56 | "Ivan P3trenko" is refused |
| Validation.GenderAcceptedIff | main2.py:62-63 | a gender answer is accepted exactly when it is whitespace, one of m, M, f, F, then whitespace |
| Validation.NormalizeLayout | main2.py:62 | whitespace, one non-space letter, whitespace normalises to that letter lowered |
| Validation.GenderLayoutOf | main2.py:62-63 | an accepted gender answer can be cut into that layout |
| Validation.GenderLetter | main2.py:62 | only m and M lower to m; only f and F lower to f |
| Validation.NormalizedGenderStable | main2.py:62-63 | normalising an accepted gender again changes nothing |
| Validation.StoredGenderStable | main2.py:62-63 | a stored gender, "m" or "f", normalises to itself |
| Validation.WordGenderRefused | main2.py:63 | an answer without whitespace that is not a single character is refused |
| Validation.GenderExamples | main2.py:62-63 | " M " is stored as "m" and "f" as "f" |
| Validation.GenderRefusedExamples | main2.py:62-63 | "male" and the empty answer are refused |
| Validation.HeightBounds | main2.py:71 | 50 and 250 are accepted; 49, 251, 49.99 and 250.01 are refused |
| Validation.AddRefusesDuplicate | main2.py:78-80 | a name already present up to case is never added; with valid answers the outcome is Duplicate |
| Validation.AddAcceptsFresh | main2.py:78-82 | valid answers with a fresh name are always added |
| Validation.AddKeepsUnique | main2.py:78-82 | adding keeps names unique |
| Validation.AddKeepsValid | main2.py:56-82 | adding keeps every record valid |
| Queries.NotNamed | main2.py:89 | the definition of the condition of the delete comprehension: the name differs from the target after lowering both |
| Queries.DeleteByName | main2.py:89 | everything kept is from the input and differs from the target name up to case, and the input order is kept |
| Queries.DeleteKeepsOthers | main2.py:89 | every record with another name survives |
| Queries.DeleteAppend | main2.py:89 | one more record at the end is kept exactly when its name differs from the target up to case, after the kept records of the rest; this fixes the result, repeated records included |
| Queries.DeleteReportsMatch | main2.py:89-91 | the length test reports "not found" exactly when no record has the name |
| Queries.DeleteMissing | main2.py:89-91 | deleting an absent name gives back the collection unchanged |
| Queries.DeleteIdempotent | main2.py:89 | deleting twice is deleting once |
| Queries.DeleteKeepsUnique | main2.py:89 | deleting keeps names unique |
| Queries.DeleteUnique | main2.py:89 | with unique names, deleting a present name removes exactly that one record |
| Queries.AddThenDelete | main2.py:82-89 | deleting the name just added restores the collection before the add |
| Queries.NameContains | main2.py:99 | the definition of the condition of the search comprehension: the lowered query occurs in the lowered name |
| Queries.SearchByName | main2.py:99 | every result is from the input and its lowered name contains the lowered query, in input order |
| Queries.SearchComplete | main2.py:99 | every record whose lowered name contains the lowered query is found |
| Queries.SearchAppend | main2.py:99 | one more record at the end is found exactly when its lowered name contains the lowered query, after the results of the rest; this fixes the result, repeated records included |
| Queries.SearchEmptyQuery | main2.py:98-99 | an answer that is empty or all whitespace finds every record, in order |
| Queries.SearchSingleMatch | main2.py:99 | a query matching exactly one record finds exactly that record |
| Queries.SearchFindsName | main2.py:99 | searching for a record's full name, in any case, finds it |
| Queries.AddThenSearch | main2.py:82-99 | after an add, searching for the added name finds the new record |
| Queries.MaleHeights | main2.py:109 | the definition of `males`: the heights of the records with gender "m", in file order; MaleHeightsAppend fixes them |
| Queries.Mean | main2.py:113 | the definition of `sum(males) / len(males)` for a non-empty list |
| Queries.MaleAverage | main2.py:109-113 | there is no result exactly when no record has gender "m" |
| Queries.MaleHeightsSound | main2.py:109 | every selected height belongs to a record with gender "m" |
| Queries.MaleHeightsComplete | main2.py:109 | the height of every record with gender "m" is selected |
| Queries.MaleHeightsAppend | main2.py:109 | appending a record appends its height exactly when its gender is "m" |
| Queries.InitialMaleHeights | main2.py:7-18 | the male heights of the default collection are 180, 172, 190, 175, 185, in order |
| Queries.InitialMaleAverage | main2.py:109-113 | on the default collection the average male height is 180.4 |
| Queries.MeanOfFive | main2.py:113 | the mean of five heights is their sum divided by five |
| Queries.SumOfFive | main2.py:113 | the sum of five heights is their total |
| Queries.MeanExample | main2.py:113 | 180, 172 and 190 average 542/3 |
| Queries.SumBounds | main2.py:113 | the sum lies between the count times a lower bound and the count times an upper bound |
| Queries.MeanBounds | main2.py:113 | the mean lies between any lower and upper bound of the heights |
| Queries.AverageOfValid | main2.py:71-113 | over valid records the average male height lies in [50, 250] |
| Queries.AddedMaleCounted | main2.py:82-109 | after an add, the male heights gain the new height exactly when the normalised gender is "m" |
| Storage.Load | main2.py:22-36 | the definition of what `read_json` returns: the stored list, or the ten default records after regenerating; LoadList and LoadFallback state each case |
| Storage.LoadFallback | main2.py:26-36 | a missing, unparsable or non-list file loads as the ten default records: five with gender "m" followed by five with "f" |
| Storage.LoadKeepsUnique | main2.py:22-36 | a load has unique names whenever the stored list had them; the fallback always does |
| Storage.LoadList | main2.py:26-28 | a stored list loads unchanged |
| Storage.LoadStable | main2.py:22-36 | loading what a load left in the file gives the same records |
| Storage.FallbackAverage | main2.py:26-36 | after a fallback load the average male height is 180.4 |
| Storage.PeopleStore.constructor | main2.py:3-4 | the store starts with the given contents of the two files |
| Storage.PeopleStore.CreateInitialData | main2.py:6-20 | people.json then holds the ten default records; result.json is untouched |
| Storage.PeopleStore.ReadJson | main2.py:22-36 | returns the loaded collection and leaves it stored as a list, regenerating first when the file is missing, corrupt or not a list |
| Storage.PeopleStore.WriteJson | main2.py:38-43 | stores a list and reports it; any other value is refused and the file stays as it was |
| Storage.PeopleStore.ShowData | main2.py:45-49 | the records shown are the loaded collection |
| Storage.PeopleStore.AddPerson | main2.py:51-84 | the outcome is AddRecord on the loaded collection; the file holds the new collection only when a record was added |
| Storage.PeopleStore.DeletePerson | main2.py:86-94 | reports a deletion exactly when the name was present; the file then holds the loaded collection without that name, which is the loaded collection itself when nothing was removed |
| Storage.PeopleStore.SearchPerson | main2.py:96-105 | the results are SearchByName on the loaded collection with the stripped query; nothing is written |
| Storage.PeopleStore.AverageMaleHeight | main2.py:107-117 | the result is MaleAverage of the loaded collection; result.json is written only when there is one |

## Left out

- Console input and output: prompts, messages and the menu loop (main2.py:119-145) are not modelled. The answers are parameters of the operations.
- The re-prompt loops of `add_person` (main2.py:54-76) are not modelled as loops. A refused answer is the outcome `InvalidName`, `InvalidGender` or `InvalidHeight`, and nothing is stored. This is what happens before the question is asked again.
- Real file access and JSON encoding and decoding (main2.py:19-20, 24-25, 42-43, 115-116) are not modelled. Files are abstract values, and a failure while writing is not modelled.
- The float parse of the height answer (main2.py:70) is not modelled. The height is given as a number, and the parse error path is a prompt repetition.
- Heights are real numbers, so Python floating point is not modelled. The sum and mean are exact.
- Storage.PeopleStore.AverageMaleHeight: stores the exact mean, not `round(avg, 2)` (main2.py:114). The `:.2f` message (main2.py:117) is also not modelled, because both are floating-point formatting.
- `str.isalpha`, `str.lower` and `str.isspace` are modelled on ASCII. Letters are A-Z and a-z, and whitespace is characters 9-13, 28-31 and 32. Unicode letters and case mappings are not modelled.
- Records are total: every record has a name, a gender and a height. So the placeholders of `show_data` (main2.py:49) and the numeric check on the height (main2.py:109) are not needed. A list that contains something other than a record cannot be stored.
- `read_json` checks only that the loaded value is a list (main2.py:26). A list whose elements are not well-formed records is not regenerated; the model follows the code.
- Other operating-system errors when opening `people.json` (main2.py:24), such as a file that exists but may not be read or is a directory, are not modelled. `read_json` does not catch them, so the program stops; `FileContent` has no case for them.
- The file names `people.json` and `result.json` (main2.py:3-4) are not modelled as values. They are the two fields of `PeopleStore`.
