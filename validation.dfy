/** The field checks of `add_person` and its decision to append a record or refuse it. */
module Validation {
  import opened Text
  import opened Seqs
  import opened Records

  /** The name check: `str.split()` gives exactly two words and each passes `str.isalpha`. */
  predicate NameAccepted(name: string) {
    var words := Split(name);
    |words| == 2 && forall k :: 0 <= k < |words| ==> IsAlpha(words[k])
  }

  /** The gender answer as stored: `answer.lower().strip()`. */
  function NormalizeGender(answer: string): string {
    Strip(Lower(answer))
  }

  /** The gender check on the normalized answer: `gender in ("m", "f")`. */
  predicate GenderAccepted(gender: string) {
    gender == "m" || gender == "f"
  }

  /** The height check: `50 <= height <= 250`, both ends included. */
  predicate HeightAccepted(height: real) {
    50.0 <= height <= 250.0
  }

  /** A record that would pass every check of `add_person` again. */
  predicate ValidRecord(r: Record) {
    NameAccepted(r.name) && GenderAccepted(r.gender) && HeightAccepted(r.height)
  }

  predicate AllValid(data: seq<Record>) {
    forall i :: 0 <= i < |data| ==> ValidRecord(data[i])
  }

  /** What `add_person` does with one set of answers. An answer that fails its check is
      refused and the question is asked again, so nothing is stored (InvalidName,
      InvalidGender, InvalidHeight); a name already present is reported (Duplicate);
      otherwise the record is appended and the collection written back (Added). */
  datatype AddOutcome = InvalidName | InvalidGender | InvalidHeight | Duplicate | Added(people: seq<Record>)

  /** `add_person` on the collection `data`, given the raw name and gender answers and the
      height already parsed as a number. The checks run in the source's order: name,
      gender, height, then the duplicate test. */
  function AddRecord(data: seq<Record>, nameAnswer: string, genderAnswer: string, height: real): (r: AddOutcome)
    ensures r.Added? ==> |r.people| == |data| + 1 && r.people[..|data|] == data
    ensures r.Added? ==> ValidRecord(r.people[|data|]) && !NameTaken(data, r.people[|data|].name)
    ensures r.Added? ==> r.people[|data|] == Record(Strip(nameAnswer), NormalizeGender(genderAnswer), height)
  {
    var fullName := Strip(nameAnswer);
    var gender := NormalizeGender(genderAnswer);
    if !NameAccepted(fullName) then InvalidName
    else if !GenderAccepted(gender) then InvalidGender
    else if !HeightAccepted(height) then InvalidHeight
    else if NameTaken(data, fullName) then Duplicate
    else Added(data + [Record(fullName, gender, height)])
  }

  // ---------------------------------------------------------------------
  // The name check
  // ---------------------------------------------------------------------

  /** `s` is whitespace, a word of letters, whitespace (at least one character), a second
      word of letters, whitespace. */
  predicate TwoWordLayout(s: string, front: string, first: string, gap: string, second: string, back: string) {
    s == front + first + gap + second + back
    && AllSpace(front) && AllSpace(gap) && |gap| > 0 && AllSpace(back)
    && IsAlpha(first) && IsAlpha(second)
  }

  /** A name is accepted exactly when it is laid out as two words of letters separated by
      whitespace, with optional whitespace around them. */
  lemma NameAcceptedIff(s: string)
    ensures NameAccepted(s) <==> exists front, first, gap, second, back :: TwoWordLayout(s, front, first, gap, second, back)
  {
    if NameAccepted(s) {
      var front, first, gap, second, back := NameLayout(s);
    }
    if exists front, first, gap, second, back :: TwoWordLayout(s, front, first, gap, second, back) {
      var front, first, gap, second, back :| TwoWordLayout(s, front, first, gap, second, back);
      SplitTwoWords(front, first, gap, second, back);
    }
  }

  /** The words of a two-word layout are its two words. */
  lemma SplitTwoWords(front: string, first: string, gap: string, second: string, back: string)
    requires TwoWordLayout(front + first + gap + second + back, front, first, gap, second, back)
    ensures Split(front + first + gap + second + back) == [first, second]
  {
    AlphaHasNoSpace(first);
    AlphaHasNoSpace(second);
    SplitTwoRuns(front, first, gap, second, back);
  }

  /** Two whitespace-free runs separated by whitespace, with optional whitespace around
      them, split into exactly those two runs, whatever characters the runs hold. */
  lemma SplitTwoRuns(front: string, a: string, gap: string, b: string, back: string)
    requires AllSpace(front) && |a| > 0 && NoSpace(a) && |gap| > 0 && AllSpace(gap)
    requires |b| > 0 && NoSpace(b) && AllSpace(back)
    ensures Split(front + a + gap + b + back) == [a, b]
  {
    var t2 := b + back;
    var t1 := gap + t2;
    Assoc5(front, a, gap, b, back);
    SplitSkipsSpace(front, a + t1);
    SplitWord(a, t1);
    SplitSkipsSpace(gap, t2);
    SplitWord(b, back);
    SplitEmpty(back);
    assert Split(t2) == [b];
    assert Split(a + t1) == [a] + [b];
  }

  /** The layout of an accepted name, read off its words. */
  lemma NameLayout(s: string) returns (front: string, first: string, gap: string, second: string, back: string)
    requires NameAccepted(s)
    ensures TwoWordLayout(s, front, first, gap, second, back)
  {
    var words := Split(s);
    assert IsAlpha(words[0]) && IsAlpha(words[1]);
    first, second := words[0], words[1];
    var rest;
    front, rest := SplitFirst(s);
    assert Split(rest) == [second];
    gap, back := SplitFirst(rest);
    SplitEmpty(back);
    GapNonEmpty(rest, gap, second, back);
    Join5(s, front, first, rest, gap, second, back);
  }

  /** The whitespace between two words is not empty. */
  lemma GapNonEmpty(rest: string, gap: string, second: string, back: string)
    requires rest == gap + second + back && rest != [] && IsSpace(rest[0])
    requires |second| > 0 && NoSpace(second)
    ensures |gap| > 0
  {
  }

  lemma Join5(s: string, front: string, first: string, rest: string, gap: string, second: string, back: string)
    requires s == front + first + rest && rest == gap + second + back
    ensures s == front + first + gap + second + back
  {
  }

  /** Every two-word layout is an accepted name. */
  lemma LayoutAccepted(front: string, first: string, gap: string, second: string, back: string)
    requires TwoWordLayout(front + first + gap + second + back, front, first, gap, second, back)
    ensures NameAccepted(front + first + gap + second + back)
  {
    SplitTwoWords(front, first, gap, second, back);
  }

  /** The example answer of the name question is accepted. */
  lemma NameExamplesAccepted()
    ensures NameAccepted("Ivan Petrenko")
  {
    LayoutAccepted("", "Ivan", " ", "Petrenko", "");
    assert "" + "Ivan" + " " + "Petrenko" + "" == "Ivan Petrenko";
  }

  /** Extra whitespace around and between the words is accepted. */
  lemma PaddedNameExample()
    ensures NameAccepted("  Anna   Ivanova ")
  {
    LayoutAccepted("  ", "Anna", "   ", "Ivanova", " ");
    assert "  " + "Anna" + "   " + "Ivanova" + " " == "  Anna   Ivanova ";
  }

  /** A single word is never an accepted name. */
  lemma OneWordRefused(w: string)
    requires |w| > 0 && NoSpace(w)
    ensures !NameAccepted(w)
  {
    SplitWord(w, []);
    assert w + [] == w;
  }

  /** Three words are never an accepted name, however much whitespace surrounds and
      separates them. */
  lemma ThreeWordsRefused(front: string, a: string, g1: string, b: string, g2: string, c: string, back: string)
    requires AllSpace(front) && AllSpace(back)
    requires |a| > 0 && NoSpace(a) && |b| > 0 && NoSpace(b) && |c| > 0 && NoSpace(c)
    requires |g1| > 0 && AllSpace(g1) && |g2| > 0 && AllSpace(g2)
    ensures !NameAccepted(front + a + g1 + b + g2 + c + back)
  {
    SplitThreeWords(front, a, g1, b, g2, c, back);
  }

  /** Three words separated by whitespace, with optional whitespace around them, split
      into those three words. */
  lemma SplitThreeWords(front: string, a: string, g1: string, b: string, g2: string, c: string, back: string)
    requires AllSpace(front) && AllSpace(back)
    requires |a| > 0 && NoSpace(a) && |b| > 0 && NoSpace(b) && |c| > 0 && NoSpace(c)
    requires |g1| > 0 && AllSpace(g1) && |g2| > 0 && AllSpace(g2)
    ensures Split(front + a + g1 + b + g2 + c + back) == [a, b, c]
  {
    var t3 := g2 + (c + back);
    var t2 := b + t3;
    var t1 := g1 + t2;
    Assoc7(front, a, g1, b, g2, c, back);
    SplitSkipsSpace(front, a + t1);
    SplitWord(a, t1);
    SplitSkipsSpace(g1, t2);
    SplitWord(b, t3);
    SplitSkipsSpace(g2, c + back);
    SplitWord(c, back);
    SplitEmpty(back);
  }

  lemma Assoc5<T>(a: seq<T>, b: seq<T>, c: seq<T>, d: seq<T>, e: seq<T>)
    ensures a + b + c + d + e == a + (b + (c + (d + e)))
  {
  }

  lemma Assoc7<T>(a: seq<T>, b: seq<T>, c: seq<T>, d: seq<T>, e: seq<T>, f: seq<T>, g: seq<T>)
    ensures a + b + c + d + e + f + g == a + (b + (c + (d + (e + (f + g)))))
  {
  }

  /** Two words of which either holds something other than a letter are refused, however
      much whitespace surrounds and separates them. */
  lemma NonLetterRefused(front: string, a: string, gap: string, b: string, back: string)
    requires AllSpace(front) && |a| > 0 && NoSpace(a) && |gap| > 0 && AllSpace(gap)
    requires |b| > 0 && NoSpace(b) && AllSpace(back)
    requires !IsAlpha(a) || !IsAlpha(b)
    ensures !NameAccepted(front + a + gap + b + back)
  {
    SplitTwoRuns(front, a, gap, b, back);
    var words := Split(front + a + gap + b + back);
    assert words[0] == a && words[1] == b;
  }

  /** Concrete answers to the name question that are refused: one word, nothing at all. */
  lemma NameExamplesRefused()
    ensures !NameAccepted("Ivan")
    ensures !NameAccepted("")
  {
    OneWordRefused("Ivan");
  }

  /** A first name, a patronymic and a surname are refused. */
  lemma ThreeWordsExample()
    ensures !NameAccepted("Ivan Petro Enko")
  {
    ThreeWordsRefused("", "Ivan", " ", "Petro", " ", "Enko", "");
    assert "" + "Ivan" + " " + "Petro" + " " + "Enko" + "" == "Ivan Petro Enko";
  }

  /** A digit inside the surname makes the name refused. */
  lemma DigitExample()
    ensures !NameAccepted("Ivan P3trenko")
  {
    assert !IsLetter("P3trenko"[1]);
    NonLetterRefused("", "Ivan", " ", "P3trenko", "");
    assert "" + "Ivan" + " " + "P3trenko" + "" == "Ivan P3trenko";
  }

  // ---------------------------------------------------------------------
  // The gender check
  // ---------------------------------------------------------------------

  /** `answer` is one of the letters m, M, f, F with only whitespace around it. */
  predicate GenderLayout(answer: string, front: string, letter: char, back: string) {
    answer == front + [letter] + back && AllSpace(front) && AllSpace(back)
    && (letter == 'm' || letter == 'M' || letter == 'f' || letter == 'F')
  }

  /** A gender answer is accepted exactly when it is one of m, M, f, F surrounded by
      whitespace only. */
  lemma GenderAcceptedIff(answer: string)
    ensures GenderAccepted(NormalizeGender(answer)) <==> exists front, letter, back :: GenderLayout(answer, front, letter, back)
  {
    if GenderAccepted(NormalizeGender(answer)) {
      var front, letter, back := GenderLayoutOf(answer);
    }
    if exists front, letter, back :: GenderLayout(answer, front, letter, back) {
      var front, letter, back :| GenderLayout(answer, front, letter, back);
      NormalizeLayout(front, letter, back);
    }
  }

  /** One letter with whitespace around it normalizes to that letter in lower case. */
  lemma NormalizeLayout(front: string, letter: char, back: string)
    requires AllSpace(front) && AllSpace(back) && !IsSpace(letter)
    ensures NormalizeGender(front + [letter] + back) == [LowerChar(letter)]
  {
    LowerAppend(front + [letter], back);
    LowerAppend(front, [letter]);
    LowerKeepsSpace(front);
    LowerKeepsSpace(back);
    assert Lower([letter]) == [LowerChar(letter)];
    StripOf(Lower(front), [LowerChar(letter)], Lower(back));
  }

  /** The layout of an accepted gender answer, read off its stripped core. */
  lemma GenderLayoutOf(answer: string) returns (front: string, letter: char, back: string)
    requires GenderAccepted(NormalizeGender(answer))
    ensures GenderLayout(answer, front, letter, back)
  {
    var lowered := Lower(answer);
    var core := Strip(lowered);
    var lfront, lback := StripShape(lowered);
    LoweredLayout(answer, lowered, lfront, core, lback);
    var k := |lfront|;
    front, letter, back := answer[..k], answer[k], answer[k + 1..];
    SplitAround(answer, k);
    GenderLetter(letter);
  }

  /** An answer whose lowered form is whitespace, one character, whitespace is itself
      whitespace, the character before lowering, whitespace. */
  lemma LoweredLayout(answer: string, lowered: string, lfront: string, core: string, lback: string)
    requires lowered == Lower(answer) && lowered == lfront + core + lback && |core| == 1
    requires AllSpace(lfront) && AllSpace(lback)
    ensures |lfront| < |answer| && LowerChar(answer[|lfront|]) == core[0]
    ensures AllSpace(answer[..|lfront|]) && AllSpace(answer[|lfront| + 1..])
  {
    var k := |lfront|;
    LowerKeepsSpace(answer);
    assert lowered[k] == core[0];
    var head, tail := answer[..k], answer[k + 1..];
    forall i | 0 <= i < |head| ensures IsSpace(head[i]) {
      assert lowered[i] == lfront[i];
    }
    forall i | 0 <= i < |tail| ensures IsSpace(tail[i]) {
      assert tail[i] == answer[k + 1 + i];
      assert lowered[k + 1 + i] == lback[i];
    }
  }

  /** Only m and M lower to m, and only f and F lower to f. */
  lemma GenderLetter(c: char)
    ensures LowerChar(c) == 'm' ==> c == 'm' || c == 'M'
    ensures LowerChar(c) == 'f' ==> c == 'f' || c == 'F'
  {
  }

  /** The normalized gender of an accepted answer is already normalized, so a stored
      gender passes the check again. */
  lemma NormalizedGenderStable(answer: string)
    requires GenderAccepted(NormalizeGender(answer))
    ensures NormalizeGender(NormalizeGender(answer)) == NormalizeGender(answer)
  {
    StoredGenderStable(NormalizeGender(answer));
  }

  lemma StoredGenderStable(gender: string)
    requires GenderAccepted(gender)
    ensures NormalizeGender(gender) == gender
  {
    assert Lower(gender) == gender;
    StripNoEnds(gender);
  }

  /** A run of non-whitespace characters is accepted only when it is a single character. */
  lemma WordGenderRefused(answer: string)
    requires NoSpace(answer) && |answer| != 1
    ensures !GenderAccepted(NormalizeGender(answer))
  {
    var lowered := Lower(answer);
    LowerKeepsSpace(answer);
    assert lowered == [] || (!IsSpace(lowered[0]) && !IsSpace(lowered[|lowered| - 1]));
    StripNoEnds(lowered);
    NotOneLetter(NormalizeGender(answer));
  }

  lemma NotOneLetter(gender: string)
    requires |gender| != 1
    ensures !GenderAccepted(gender)
  {
  }

  /** Concrete accepted answers to the gender question and the gender they store. */
  lemma GenderExamples()
    ensures NormalizeGender(" M ") == "m"
    ensures NormalizeGender("f") == "f"
  {
    NormalizeLayout(" ", 'M', " ");
    assert " " + ['M'] + " " == " M ";
    NormalizeLayout("", 'f', "");
    assert "" + ['f'] + "" == "f";
  }

  /** Concrete refused answers to the gender question: a whole word, nothing at all. */
  lemma GenderRefusedExamples()
    ensures !GenderAccepted(NormalizeGender("male"))
    ensures !GenderAccepted(NormalizeGender(""))
  {
    WordGenderRefused("male");
    WordGenderRefused("");
  }

  // ---------------------------------------------------------------------
  // The height check
  // ---------------------------------------------------------------------

  /** Both ends of the range are accepted; one centimetre beyond either end is not. */
  lemma HeightBounds()
    ensures HeightAccepted(50.0) && HeightAccepted(250.0)
    ensures !HeightAccepted(49.0) && !HeightAccepted(251.0)
    ensures !HeightAccepted(49.99) && !HeightAccepted(250.01)
  {
  }

  // ---------------------------------------------------------------------
  // The add decision
  // ---------------------------------------------------------------------

  /** A name that is already present, up to case, is never added. */
  lemma AddRefusesDuplicate(data: seq<Record>, nameAnswer: string, genderAnswer: string, height: real)
    requires NameTaken(data, Strip(nameAnswer))
    ensures !AddRecord(data, nameAnswer, genderAnswer, height).Added?
    ensures NameAccepted(Strip(nameAnswer)) && GenderAccepted(NormalizeGender(genderAnswer)) && HeightAccepted(height)
            ==> AddRecord(data, nameAnswer, genderAnswer, height) == Duplicate
  {
  }

  /** Answers that pass every check, with a fresh name, are always added. */
  lemma AddAcceptsFresh(data: seq<Record>, nameAnswer: string, genderAnswer: string, height: real)
    requires NameAccepted(Strip(nameAnswer)) && GenderAccepted(NormalizeGender(genderAnswer)) && HeightAccepted(height)
    requires !NameTaken(data, Strip(nameAnswer))
    ensures AddRecord(data, nameAnswer, genderAnswer, height).Added?
  {
  }

  /** Adding keeps the names of a collection unique. */
  lemma AddKeepsUnique(data: seq<Record>, nameAnswer: string, genderAnswer: string, height: real)
    requires NamesUnique(data)
    ensures AddRecord(data, nameAnswer, genderAnswer, height).Added? ==>
              NamesUnique(AddRecord(data, nameAnswer, genderAnswer, height).people)
  {
    var r := AddRecord(data, nameAnswer, genderAnswer, height);
    if r.Added? {
      UniqueAppend(data, r.people[|data|]);
      assert r.people == data + [r.people[|data|]];
    }
  }

  /** Adding keeps every record of a collection valid. */
  lemma AddKeepsValid(data: seq<Record>, nameAnswer: string, genderAnswer: string, height: real)
    requires AllValid(data)
    ensures AddRecord(data, nameAnswer, genderAnswer, height).Added? ==>
              AllValid(AddRecord(data, nameAnswer, genderAnswer, height).people)
  {
    var r := AddRecord(data, nameAnswer, genderAnswer, height);
    if r.Added? {
      ValidExtension(data, r.people);
    }
  }

  /** A collection that starts with valid records and ends with one more valid record is
      valid. */
  lemma ValidExtension(data: seq<Record>, people: seq<Record>)
    requires AllValid(data)
    requires |people| == |data| + 1 && people[..|data|] == data && ValidRecord(people[|data|])
    ensures AllValid(people)
  {
    forall i | 0 <= i < |people| ensures ValidRecord(people[i]) {
      if i < |data| {
        assert people[i] == people[..|data|][i];
      }
    }
  }
}
