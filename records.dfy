/** One stored person and the collection of them kept in `people.json`. */
module Records {
  import opened Text
  import opened Seqs

  /** A JSON object `{"Name": ..., "Gender": ..., "Height": ...}`. Heights are numbers
      (Python `int` or `float`), modelled as reals. */
  datatype Record = Record(name: string, gender: string, height: real)

  /** Two names are the same when they agree after `str.lower` (`a.lower() == b.lower()`). */
  predicate SameName(a: string, b: string) {
    Lower(a) == Lower(b)
  }

  /** `any(p["Name"].lower() == name.lower() for p in data)`. */
  predicate NameTaken(data: seq<Record>, name: string) {
    exists i | 0 <= i < |data| :: SameName(data[i].name, name)
  }

  /** No two records of the collection carry the same name, up to case. */
  predicate NamesUnique(data: seq<Record>) {
    forall i, j :: 0 <= i < j < |data| ==> !SameName(data[i].name, data[j].name)
  }

  /** The ten records `create_initial_data` writes when the file is missing or unreadable. */
  function InitialPeople(): seq<Record> {
    [
      Record("Ivan Petrenko", "m", 180.0),
      Record("Oleh Shevchenko", "m", 172.0),
      Record("Maksym Bondar", "m", 190.0),
      Record("Serhii Kovalenko", "m", 175.0),
      Record("Yurii Melnyk", "m", 185.0),
      Record("Anna Ivanova", "f", 165.0),
      Record("Olha Sydorenko", "f", 160.0),
      Record("Iryna Tkachenko", "f", 170.0),
      Record("Kateryna Hrytsenko", "f", 167.0),
      Record("Tetiana Marchenko", "f", 162.0)
    ]
  }

  /** The gender test of `average_male_height`: exactly the string "m". */
  predicate IsMale(p: Record) {
    p.gender == "m"
  }

  predicate IsFemale(p: Record) {
    p.gender == "f"
  }

  // ---------------------------------------------------------------------
  // Lemmas
  // ---------------------------------------------------------------------

  /** Two names whose lowered first letters (or whose lengths) differ are different names. */
  lemma DifferentNames(a: string, b: string)
    requires |a| != |b| || (|a| > 0 && |b| > 0 && LowerChar(a[0]) != LowerChar(b[0]))
    ensures !SameName(a, b)
  {
    if |a| == |b| {
      assert Lower(a)[0] != Lower(b)[0];
    }
  }

  /** The default collection holds ten records, five with gender "m" followed by
      five with gender "f". */
  lemma InitialPeopleGenders()
    ensures |InitialPeople()| == 10
    ensures Filter(InitialPeople(), IsMale) == InitialPeople()[..5]
    ensures Filter(InitialPeople(), IsFemale) == InitialPeople()[5..]
  {
    var d := InitialPeople();
    InitialMen(d[..5]);
    InitialWomen(d[5..]);
    MenThenWomen(d, 5);
  }

  /** A collection whose first `k` records are men and whose other records are women
      filters into exactly those two parts. */
  lemma MenThenWomen(d: seq<Record>, k: nat)
    requires k <= |d|
    requires Filter(d[..k], IsMale) == d[..k] && Filter(d[..k], IsFemale) == []
    requires Filter(d[k..], IsFemale) == d[k..] && Filter(d[k..], IsMale) == []
    ensures Filter(d, IsMale) == d[..k] && Filter(d, IsFemale) == d[k..]
  {
    TakeDrop(d, k);
    FilterAppend(d[..k], d[k..], IsMale);
    FilterAppend(d[..k], d[k..], IsFemale);
    assert d[..k] + [] == d[..k];
    assert [] + d[k..] == d[k..];
  }

  /** The default collection is its five men followed by its five women. */
  lemma InitialPeopleHalves()
    ensures |Filter(InitialPeople(), IsMale)| == 5 && |Filter(InitialPeople(), IsFemale)| == 5
    ensures Filter(InitialPeople(), IsMale) + Filter(InitialPeople(), IsFemale) == InitialPeople()
  {
    InitialPeopleGenders();
    HalvesOf(InitialPeople());
  }

  lemma HalvesOf(d: seq<Record>)
    requires |d| == 10 && Filter(d, IsMale) == d[..5] && Filter(d, IsFemale) == d[5..]
    ensures |Filter(d, IsMale)| == 5 && |Filter(d, IsFemale)| == 5
    ensures Filter(d, IsMale) + Filter(d, IsFemale) == d
  {
    TakeDrop(d, 5);
  }

  lemma TakeDrop<T>(s: seq<T>, k: nat)
    requires k <= |s|
    ensures |s[..k]| == k && |s[k..]| == |s| - k && s[..k] + s[k..] == s
  {
  }

  lemma InitialMen(men: seq<Record>)
    requires men == InitialPeople()[..5]
    ensures Filter(men, IsMale) == men && Filter(men, IsFemale) == []
  {
    assert forall i :: 0 <= i < |men| ==> IsMale(men[i]) && !IsFemale(men[i]);
    FilterKeepsAll(men, IsMale);
    FilterEmpty(men, IsFemale);
  }

  lemma InitialWomen(women: seq<Record>)
    requires women == InitialPeople()[5..]
    ensures Filter(women, IsFemale) == women && Filter(women, IsMale) == []
  {
    assert forall i :: 0 <= i < |women| ==> IsFemale(women[i]) && !IsMale(women[i]);
    FilterKeepsAll(women, IsFemale);
    FilterEmpty(women, IsMale);
  }

  /** No name of the default collection is repeated, even up to case. */
  lemma InitialPeopleUnique()
    ensures NamesUnique(InitialPeople())
  {
    var d := InitialPeople();
    forall i, j | 0 <= i < j < |d| ensures !SameName(d[i].name, d[j].name) {
      DifferentNames(d[i].name, d[j].name);
    }
  }

  /** Appending a record keeps the names unique exactly when its name is not taken. */
  lemma UniqueAppend(data: seq<Record>, r: Record)
    requires NamesUnique(data)
    ensures NamesUnique(data + [r]) <==> !NameTaken(data, r.name)
  {
    var d := data + [r];
    if NameTaken(data, r.name) {
      var i :| 0 <= i < |data| && SameName(data[i].name, r.name);
      assert d[i] == data[i] && d[|data|] == r;
    } else {
      forall i, j | 0 <= i < j < |d| ensures !SameName(d[i].name, d[j].name) {
        if j == |data| {
          assert d[i] == data[i];
        } else {
          assert d[i] == data[i] && d[j] == data[j];
        }
      }
    }
  }

  /** Every comprehension over a collection with unique names has unique names. */
  lemma {:induction false} UniqueFilter(data: seq<Record>, p: Record -> bool)
    requires NamesUnique(data)
    ensures NamesUnique(Filter(data, p))
  {
    if data != [] {
      UniqueTail(data);
      UniqueFilter(data[1..], p);
      if p(data[0]) {
        HeadNameFresh(data, Filter(data[1..], p));
        UniqueCons(data[0], Filter(data[1..], p));
      }
    }
  }

  lemma UniqueTail(data: seq<Record>)
    requires data != [] && NamesUnique(data)
    ensures NamesUnique(data[1..])
  {
    var rest := data[1..];
    forall i, j | 0 <= i < j < |rest| ensures !SameName(rest[i].name, rest[j].name) {
      assert rest[i] == data[i + 1] && rest[j] == data[j + 1];
    }
  }

  /** In a collection with unique names, the first name appears nowhere in what is kept
      of the rest. */
  lemma HeadNameFresh(data: seq<Record>, kept: seq<Record>)
    requires data != [] && NamesUnique(data)
    requires forall x :: x in kept ==> x in data[1..]
    ensures forall k :: 0 <= k < |kept| ==> !SameName(data[0].name, kept[k].name)
  {
    forall k | 0 <= k < |kept| ensures !SameName(data[0].name, kept[k].name) {
      assert kept[k] in data[1..];
      var m :| 0 <= m < |data[1..]| && data[1..][m] == kept[k];
      assert data[m + 1] == kept[k];
    }
  }

  lemma UniqueCons(x: Record, rest: seq<Record>)
    requires NamesUnique(rest)
    requires forall k :: 0 <= k < |rest| ==> !SameName(x.name, rest[k].name)
    ensures NamesUnique([x] + rest)
  {
    var r := [x] + rest;
    forall i, j | 0 <= i < j < |r| ensures !SameName(r[i].name, r[j].name) {
      assert r[j] == rest[j - 1];
      if i > 0 {
        assert r[i] == rest[i - 1];
      }
    }
  }
}
