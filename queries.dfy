/** The list comprehensions of `delete_person`, `search_person` and
    `average_male_height`, and how they relate to the add decision. */
module Queries {
  import opened Text
  import opened Seqs
  import opened Wrappers
  import opened Records
  import opened Validation

  // ---------------------------------------------------------------------
  // Delete
  // ---------------------------------------------------------------------

  /** The records `delete_person` keeps: `p["Name"].lower() != full_name.lower()`. */
  function NotNamed(target: string): Record -> bool {
    (p: Record) => !SameName(p.name, target)
  }

  /** `[p for p in data if p["Name"].lower() != full_name.lower()]`: every record named
      `target`, up to case, is removed; the others stay, in their order. */
  function DeleteByName(data: seq<Record>, target: string): (r: seq<Record>)
    ensures forall x :: x in r ==> x in data && !SameName(x.name, target)
    ensures IsSubsequence(r, data)
  {
    FilterIsSubsequence(data, NotNamed(target));
    Filter(data, NotNamed(target))
  }

  /** Every record not named `target` survives the delete. */
  lemma DeleteKeepsOthers(data: seq<Record>, target: string, x: Record)
    requires x in data && !SameName(x.name, target)
    ensures x in DeleteByName(data, target)
  {
    FilterComplete(data, NotNamed(target), x);
  }

  /** Deleting from a collection with one more record at its end deletes from the rest and
      keeps that record exactly when it carries another name; with the empty collection
      giving the empty one, this fixes the result, repeated records included. */
  lemma DeleteAppend(data: seq<Record>, target: string, x: Record)
    ensures DeleteByName(data + [x], target)
         == DeleteByName(data, target) + (if SameName(x.name, target) then [] else [x])
  {
    FilterAppend(data, [x], NotNamed(target));
    FilterSingleton(x, NotNamed(target));
  }

  /** `delete_person` decides "not found" by comparing lengths: the length is unchanged
      exactly when no record carries the name. */
  lemma DeleteReportsMatch(data: seq<Record>, target: string)
    ensures |DeleteByName(data, target)| == |data| <==> !NameTaken(data, target)
  {
    FilterSameLength(data, NotNamed(target));
  }

  /** Deleting a name that is not present leaves the collection as it was. */
  lemma DeleteMissing(data: seq<Record>, target: string)
    requires !NameTaken(data, target)
    ensures DeleteByName(data, target) == data
  {
    FilterKeepsAll(data, NotNamed(target));
  }

  /** Deleting the same name twice is deleting it once. */
  lemma DeleteIdempotent(data: seq<Record>, target: string)
    ensures DeleteByName(DeleteByName(data, target), target) == DeleteByName(data, target)
  {
    FilterIdempotent(data, NotNamed(target));
  }

  /** Deleting keeps the names of a collection unique. */
  lemma DeleteKeepsUnique(data: seq<Record>, target: string)
    requires NamesUnique(data)
    ensures NamesUnique(DeleteByName(data, target))
  {
    UniqueFilter(data, NotNamed(target));
  }

  /** In a collection with unique names, deleting a present name removes exactly the one
      record that carries it. */
  lemma DeleteUnique(data: seq<Record>, target: string, i: nat)
    requires NamesUnique(data)
    requires i < |data| && SameName(data[i].name, target)
    ensures DeleteByName(data, target) == data[..i] + data[i + 1..]
  {
    forall j | 0 <= j < |data| && j != i ensures NotNamed(target)(data[j]) {
      if SameName(data[j].name, target) {
        assert SameName(data[i].name, data[j].name);
      }
    }
    FilterDropsOne(data, NotNamed(target), i);
  }

  /** Deleting the name just added gives back the collection before the add. */
  lemma AddThenDelete(data: seq<Record>, nameAnswer: string, genderAnswer: string, height: real)
    requires AddRecord(data, nameAnswer, genderAnswer, height).Added?
    ensures DeleteByName(AddRecord(data, nameAnswer, genderAnswer, height).people, Strip(nameAnswer)) == data
  {
    var people := AddRecord(data, nameAnswer, genderAnswer, height).people;
    var r := people[|data|];
    var target := Strip(nameAnswer);
    assert people == data + [r];
    FilterAppend(data, [r], NotNamed(target));
    DeleteMissing(data, target);
    FilterSingleton(r, NotNamed(target));
    assert data + [] == data;
  }

  // ---------------------------------------------------------------------
  // Search
  // ---------------------------------------------------------------------

  /** The records `search_person` keeps: `name_part.lower() in p["Name"].lower()`. */
  function NameContains(query: string): Record -> bool {
    (p: Record) => Contains(Lower(p.name), Lower(query))
  }

  /** `[p for p in data if name_part.lower() in p["Name"].lower()]`: the records whose
      lowered name contains the lowered query, in their order. */
  function SearchByName(data: seq<Record>, query: string): (r: seq<Record>)
    ensures forall x :: x in r ==> x in data && Contains(Lower(x.name), Lower(query))
    ensures IsSubsequence(r, data)
  {
    FilterIsSubsequence(data, NameContains(query));
    Filter(data, NameContains(query))
  }

  /** Every record whose lowered name contains the lowered query is found. */
  lemma SearchComplete(data: seq<Record>, query: string, x: Record)
    requires x in data && Contains(Lower(x.name), Lower(query))
    ensures x in SearchByName(data, query)
  {
    FilterComplete(data, NameContains(query), x);
  }

  /** Searching a collection with one more record at its end searches the rest and adds
      that record exactly when its lowered name contains the lowered query. */
  lemma SearchAppend(data: seq<Record>, query: string, x: Record)
    ensures SearchByName(data + [x], query)
         == SearchByName(data, query) + (if Contains(Lower(x.name), Lower(query)) then [x] else [])
  {
    FilterAppend(data, [x], NameContains(query));
    FilterSingleton(x, NameContains(query));
  }

  /** The empty query, and so a query of whitespace only once stripped, finds every record. */
  lemma SearchEmptyQuery(data: seq<Record>, query: string)
    requires AllSpace(query)
    ensures SearchByName(data, Strip(query)) == data
  {
    assert query + [] + [] == query;
    StripOf(query, [], []);
    assert Lower([]) == [];
    forall i | 0 <= i < |data| ensures NameContains([])(data[i]) {
      ContainsEmpty(Lower(data[i].name));
    }
    FilterKeepsAll(data, NameContains([]));
  }

  /** A query that matches exactly one record finds exactly that record. */
  lemma SearchSingleMatch(data: seq<Record>, query: string, i: nat)
    requires i < |data| && Contains(Lower(data[i].name), Lower(query))
    requires forall j :: 0 <= j < |data| && j != i ==> !Contains(Lower(data[j].name), Lower(query))
    ensures SearchByName(data, query) == [data[i]]
  {
    FilterOnlyOne(data, NameContains(query), i);
  }

  /** Searching for a record's full name, in any case, finds that record. */
  lemma SearchFindsName(data: seq<Record>, query: string, i: nat)
    requires i < |data| && SameName(data[i].name, query)
    ensures data[i] in SearchByName(data, query)
  {
    ContainsSelf(Lower(data[i].name));
    SearchComplete(data, query, data[i]);
  }

  /** Right after an add, searching for the added name finds the new record. */
  lemma AddThenSearch(data: seq<Record>, nameAnswer: string, genderAnswer: string, height: real)
    requires AddRecord(data, nameAnswer, genderAnswer, height).Added?
    ensures var people := AddRecord(data, nameAnswer, genderAnswer, height).people;
            people[|data|] in SearchByName(people, Strip(nameAnswer))
  {
    var people := AddRecord(data, nameAnswer, genderAnswer, height).people;
    SearchFindsName(people, Strip(nameAnswer), |data|);
  }

  // ---------------------------------------------------------------------
  // Average male height
  // ---------------------------------------------------------------------

  function Heights(rs: seq<Record>): seq<real> {
    seq(|rs|, i requires 0 <= i < |rs| => rs[i].height)
  }

  /** `[p["Height"] for p in data if p["Gender"] == "m"]`. */
  function MaleHeights(data: seq<Record>): seq<real> {
    Heights(Filter(data, IsMale))
  }

  function Sum(hs: seq<real>): real {
    if hs == [] then 0.0 else hs[0] + Sum(hs[1..])
  }

  /** `sum(males) / len(males)`, exactly (no floating point, no rounding). */
  function Mean(hs: seq<real>): real
    requires |hs| > 0
  {
    Sum(hs) / (|hs| as real)
  }

  /** The value `average_male_height` computes, or None when it reports that there is no
      male data. */
  function MaleAverage(data: seq<Record>): (r: Option<real>)
    ensures r.None? <==> forall i :: 0 <= i < |data| ==> !IsMale(data[i])
  {
    FilterEmpty(data, IsMale);
    var hs := MaleHeights(data);
    if hs == [] then None else Some(Mean(hs))
  }

  /** Every height selected belongs to a record with gender "m". */
  lemma MaleHeightsSound(data: seq<Record>, k: nat)
    requires k < |MaleHeights(data)|
    ensures exists i :: 0 <= i < |data| && IsMale(data[i]) && data[i].height == MaleHeights(data)[k]
  {
    var males := Filter(data, IsMale);
    assert males[k] in males;
  }

  /** The height of every record with gender "m" is selected. */
  lemma MaleHeightsComplete(data: seq<Record>, i: nat)
    requires i < |data| && IsMale(data[i])
    ensures data[i].height in MaleHeights(data)
  {
    var males := Filter(data, IsMale);
    FilterComplete(data, IsMale, data[i]);
    var k :| 0 <= k < |males| && males[k] == data[i];
    assert MaleHeights(data)[k] == data[i].height;
  }

  /** Appending a record appends its height when, and only when, its gender is "m". */
  lemma MaleHeightsAppend(data: seq<Record>, r: Record)
    ensures MaleHeights(data + [r]) == MaleHeights(data) + (if IsMale(r) then [r.height] else [])
  {
    FilterAppend(data, [r], IsMale);
    FilterSingleton(r, IsMale);
  }

  /** The male heights of the default collection, in file order. */
  lemma InitialMaleHeights()
    ensures MaleHeights(InitialPeople()) == [180.0, 172.0, 190.0, 175.0, 185.0]
  {
    InitialPeopleGenders();
    var d := InitialPeople();
    var hs := MaleHeights(d);
    assert hs == Heights(d[..5]);
    assert |hs| == 5;
    assert hs[0] == 180.0 && hs[1] == 172.0 && hs[2] == 190.0 && hs[3] == 175.0 && hs[4] == 185.0;
    FiveElements(hs, 180.0, 172.0, 190.0, 175.0, 185.0);
  }

  lemma FiveElements(hs: seq<real>, a: real, b: real, c: real, d: real, e: real)
    requires |hs| == 5 && hs[0] == a && hs[1] == b && hs[2] == c && hs[3] == d && hs[4] == e
    ensures hs == [a, b, c, d, e]
  {
  }

  /** On the default collection the average male height is 902/5 = 180.4. */
  lemma InitialMaleAverage()
    ensures MaleAverage(InitialPeople()) == Some(180.4)
  {
    InitialMaleHeights();
    SumOfFive(180.0, 172.0, 190.0, 175.0, 185.0);
    MeanOfFive(180.0, 172.0, 190.0, 175.0, 185.0);
  }

  lemma MeanOfFive(a: real, b: real, c: real, d: real, e: real)
    ensures Mean([a, b, c, d, e]) == (a + b + c + d + e) / 5.0
  {
    SumOfFive(a, b, c, d, e);
  }

  lemma SumOfFive(a: real, b: real, c: real, d: real, e: real)
    ensures Sum([a, b, c, d, e]) == a + b + c + d + e
  {
    assert [a, b, c, d, e][1..] == [b, c, d, e];
    assert [b, c, d, e][1..] == [c, d, e];
    assert [c, d, e][1..] == [d, e];
    assert [d, e][1..] == [e];
    assert [e][1..] == [];
    calc {
      Sum([a, b, c, d, e]);
      a + Sum([b, c, d, e]);
      a + (b + Sum([c, d, e]));
      a + (b + (c + Sum([d, e])));
      a + (b + (c + (d + Sum([e]))));
      a + (b + (c + (d + (e + Sum([])))));
    }
  }

  /** The heights 180, 172 and 190 average 542/3 (180.67 once rounded). */
  lemma MeanExample()
    ensures Mean([180.0, 172.0, 190.0]) == 542.0 / 3.0
  {
    var hs := [180.0, 172.0, 190.0];
    assert hs[1..] == [172.0, 190.0] && hs[1..][1..] == [190.0];
    assert Sum(hs) == 542.0;
  }

  lemma {:induction false} SumBounds(hs: seq<real>, lo: real, hi: real)
    requires forall i :: 0 <= i < |hs| ==> lo <= hs[i] <= hi
    ensures (|hs| as real) * lo <= Sum(hs) <= (|hs| as real) * hi
  {
    if hs != [] {
      SumBounds(hs[1..], lo, hi);
    }
  }

  /** The mean lies between any lower and upper bound of the heights. */
  lemma MeanBounds(hs: seq<real>, lo: real, hi: real)
    requires |hs| > 0
    requires forall i :: 0 <= i < |hs| ==> lo <= hs[i] <= hi
    ensures lo <= Mean(hs) <= hi
  {
    SumBounds(hs, lo, hi);
    var n := |hs| as real;
    assert n * lo <= Sum(hs) <= n * hi;
    assert Mean(hs) * n == Sum(hs);
  }

  /** In a collection of valid records the average male height is a valid height. */
  lemma AverageOfValid(data: seq<Record>)
    requires AllValid(data)
    ensures MaleAverage(data).Some? ==> HeightAccepted(MaleAverage(data).value)
  {
    var hs := MaleHeights(data);
    if hs != [] {
      forall k | 0 <= k < |hs| ensures 50.0 <= hs[k] <= 250.0 {
        MaleHeightsSound(data, k);
      }
      MeanBounds(hs, 50.0, 250.0);
    }
  }

  /** Adding a record with gender "m" makes its height count in the average. */
  lemma AddedMaleCounted(data: seq<Record>, nameAnswer: string, genderAnswer: string, height: real)
    requires AddRecord(data, nameAnswer, genderAnswer, height).Added?
    ensures var people := AddRecord(data, nameAnswer, genderAnswer, height).people;
            MaleHeights(people) == MaleHeights(data) + (if NormalizeGender(genderAnswer) == "m" then [height] else [])
  {
    var people := AddRecord(data, nameAnswer, genderAnswer, height).people;
    assert people == data + [people[|data|]];
    MaleHeightsAppend(data, people[|data|]);
  }
}
