/** The two JSON files of the program, `people.json` and `result.json`, as abstract
    contents, and the menu operations that read and write them. */
module Storage {
  import opened Text
  import opened Seqs
  import opened Wrappers
  import opened Records
  import opened Validation
  import opened Queries

  /** What `json.load` finds in `people.json`: no file at all, text that is not JSON,
      a JSON value that is not a list, or a list of records. */
  datatype FileContent = Missing | Corrupt | NotList | People(records: seq<Record>)

  /** A value handed to `write_json`: a list of records or any other JSON value. */
  datatype JsonValue = ListValue(items: seq<Record>) | OtherValue

  /** The key under which `average_male_height` stores its result. */
  const AverageKey := "Average male height (cm)"

  /** What `result.json` holds: nothing yet, or the one-entry object written by
      `average_male_height`. */
  datatype ResultFile = NoResult | Result(key: string, average: real)

  /** The collection `read_json` ends up returning for a given file content: the stored
      list when there is one, the default collection after regenerating otherwise. */
  function Load(f: FileContent): seq<Record> {
    if f.People? then f.records else InitialPeople()
  }

  // ---------------------------------------------------------------------
  // Lemmas about loading
  // ---------------------------------------------------------------------

  /** A missing, unparsable or non-list file loads as the ten default records, the first
      five with gender "m" and the last five with gender "f". */
  lemma LoadFallback(f: FileContent)
    requires !f.People?
    ensures Load(f) == InitialPeople() && |Load(f)| == 10
    ensures |Filter(Load(f), IsMale)| == 5 && |Filter(Load(f), IsFemale)| == 5
    ensures Filter(Load(f), IsMale) + Filter(Load(f), IsFemale) == Load(f)
  {
    InitialPeopleHalves();
  }

  /** A load never produces a repeated name unless the stored list already held one. */
  lemma LoadKeepsUnique(f: FileContent)
    requires f.People? ==> NamesUnique(f.records)
    ensures NamesUnique(Load(f))
  {
    if !f.People? {
      InitialPeopleUnique();
    }
  }

  /** A stored list loads unchanged, whatever its records. */
  lemma LoadList(rs: seq<Record>)
    ensures Load(People(rs)) == rs
  {
  }

  /** After a read the file holds a list, so reading again gives the same records. */
  lemma LoadStable(f: FileContent)
    ensures Load(People(Load(f))) == Load(f)
  {
  }

  /** After a fallback load the average male height is that of the default men, 180.4. */
  lemma FallbackAverage(f: FileContent)
    requires !f.People?
    ensures MaleAverage(Load(f)) == Some(180.4)
  {
    InitialMaleAverage();
  }

  // ---------------------------------------------------------------------
  // The files and the operations on them
  // ---------------------------------------------------------------------

  /** The state the program keeps between menu choices: the contents of its two files. */
  class PeopleStore {
    var peopleFile: FileContent
    var resultFile: ResultFile

    constructor (people: FileContent, result: ResultFile)
      ensures peopleFile == people && resultFile == result
    {
      peopleFile := people;
      resultFile := result;
    }

    /** `create_initial_data`: overwrite `people.json` with the ten default records. */
    method CreateInitialData()
      modifies this
      ensures peopleFile == People(InitialPeople())
      ensures resultFile == old(resultFile)
    {
      peopleFile := People(InitialPeople());
    }

    /** `read_json`: return the stored list; when the file is missing, unparsable or not a
        list, regenerate it and read again. The second read always finds a list. */
    method ReadJson() returns (data: seq<Record>)
      modifies this
      decreases if peopleFile.People? then 0 else 1
      ensures data == Load(old(peopleFile))
      ensures peopleFile == People(data)
      ensures resultFile == old(resultFile)
    {
      match peopleFile
      case People(rs) =>
        data := rs;
      case _ =>
        CreateInitialData();
        data := ReadJson();
    }

    /** `write_json`: store a list, refuse anything else and leave the file as it was.
        `written` tells which of the two happened. */
    method WriteJson(v: JsonValue) returns (written: bool)
      modifies this
      ensures written <==> v.ListValue?
      ensures peopleFile == if written then People(v.items) else old(peopleFile)
      ensures resultFile == old(resultFile)
    {
      if !v.ListValue? {
        written := false;
        return;
      }
      peopleFile := People(v.items);
      written := true;
    }

    /** `show_data`: the records listed on screen, which are the loaded collection. */
    method ShowData() returns (data: seq<Record>)
      modifies this
      ensures data == Load(old(peopleFile))
      ensures peopleFile == People(data)
      ensures resultFile == old(resultFile)
    {
      data := ReadJson();
    }

    /** `add_person` with one set of answers: load, check the name, gender and height,
        refuse a name already present, otherwise append the record and write the list. */
    method AddPerson(nameAnswer: string, genderAnswer: string, height: real) returns (outcome: AddOutcome)
      modifies this
      ensures outcome == AddRecord(Load(old(peopleFile)), nameAnswer, genderAnswer, height)
      ensures peopleFile == People(if outcome.Added? then outcome.people else Load(old(peopleFile)))
      ensures resultFile == old(resultFile)
    {
      var data := ReadJson();
      var fullName := Strip(nameAnswer);
      if !NameAccepted(fullName) {
        return InvalidName;
      }
      var gender := NormalizeGender(genderAnswer);
      if !GenderAccepted(gender) {
        return InvalidGender;
      }
      if !HeightAccepted(height) {
        return InvalidHeight;
      }
      if NameTaken(data, fullName) {
        return Duplicate;
      }
      data := data + [Record(fullName, gender, height)];
      var _ := WriteJson(ListValue(data));
      outcome := Added(data);
    }

    /** `delete_person`: remove every record carrying the stripped target name, up to case.
        The list is written back only when its length changed; `deleted` tells whether it
        did, which is exactly when some record carried the name. */
    method DeletePerson(targetAnswer: string) returns (deleted: bool)
      modifies this
      ensures deleted <==> NameTaken(Load(old(peopleFile)), Strip(targetAnswer))
      ensures peopleFile == People(DeleteByName(Load(old(peopleFile)), Strip(targetAnswer)))
      ensures resultFile == old(resultFile)
    {
      var data := ReadJson();
      var fullName := Strip(targetAnswer);
      var newData := DeleteByName(data, fullName);
      DeleteReportsMatch(data, fullName);
      if |newData| == |data| {
        DeleteMissing(data, fullName);
        deleted := false;
      } else {
        var _ := WriteJson(ListValue(newData));
        deleted := true;
      }
    }

    /** `search_person`: the records whose name contains the stripped query, up to case.
        Nothing is written. */
    method SearchPerson(queryAnswer: string) returns (results: seq<Record>)
      modifies this
      ensures results == SearchByName(Load(old(peopleFile)), Strip(queryAnswer))
      ensures peopleFile == People(Load(old(peopleFile)))
      ensures resultFile == old(resultFile)
    {
      var data := ReadJson();
      var namePart := Strip(queryAnswer);
      results := SearchByName(data, namePart);
    }

    /** `average_male_height`: the mean height of the records with gender "m". When there
        is none, nothing is written; otherwise the mean is stored in `result.json`. */
    method AverageMaleHeight() returns (avg: Option<real>)
      modifies this
      ensures avg == MaleAverage(Load(old(peopleFile)))
      ensures peopleFile == People(Load(old(peopleFile)))
      ensures resultFile == if avg.Some? then Result(AverageKey, avg.value) else old(resultFile)
    {
      var data := ReadJson();
      var males := MaleHeights(data);
      if males == [] {
        avg := None;
        return;
      }
      avg := Some(Mean(males));
      resultFile := Result(AverageKey, avg.value);
    }
  }
}
