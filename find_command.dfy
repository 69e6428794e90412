/** The find command of the address book: it lists every person whose name
    contains one of the command's keywords as a whole word, ignoring case. */
module Commands {
  import opened Lowercase
  import opened KeywordSearch

  /** What a command hands to the display layer: the persons it lists. */
  datatype CommandResult = CommandResult(relevantPersons: seq<Person>)

  /** Copies the strings of a set into a fresh array, one per slot, in an
      order the set does not fix. */
  method ToArray(s: set<string>) returns (a: array<string>)
    ensures fresh(a)
    ensures a.Length == |s|
    ensures Elements(a[..]) == s
  {
    a := new string[|s|];
    var rest := s;
    var i := 0;
    while rest != {}
      invariant 0 <= i <= a.Length
      invariant i + |rest| == |s|
      invariant Elements(a[..i]) + rest == s
      decreases |rest|
    {
      var k :| k in rest;
      a[i] := k;
      assert a[..i + 1] == a[..i] + [k];
      rest := rest - {k};
      i := i + 1;
    }
    assert a[..i] == a[..];
  }

  /** Replaces every string of the array by its lowercase, in place. */
  method LowerEach(a: array<string>)
    modifies a
    ensures a[..] == LowerSeq(old(a[..]))
  {
    var i := 0;
    while i < a.Length
      invariant 0 <= i <= a.Length
      invariant forall j :: 0 <= j < i ==> a[j] == Lower(old(a[j]))
      invariant forall j :: i <= j < a.Length ==> a[j] == old(a[j])
    {
      a[i] := Lower(a[i]);
      i := i + 1;
    }
  }

  /** Lowercases the words of a name one after the other, the way a list
      iterator overwrites each element it has just visited. The words of the
      person themselves are left as they are: the loop works on a copy. */
  method LowerWords(words: seq<string>) returns (lowered: seq<string>)
    ensures |lowered| == |words|
    ensures forall j :: 0 <= j < |words| ==> lowered[j] == Lower(words[j])
  {
    lowered := words;
    var i := 0;
    while i < |lowered|
      invariant |lowered| == |words|
      invariant 0 <= i <= |words|
      invariant forall j :: 0 <= j < i ==> lowered[j] == Lower(words[j])
      invariant forall j :: i <= j < |words| ==> lowered[j] == words[j]
    {
      lowered := lowered[i := Lower(lowered[i])];
      i := i + 1;
    }
  }

  /** Lowercases a copy of the name's words, collects them into a set, and
      reports whether that set shares a word with the keywords. */
  method NameContainsAnyKeyword(nameWords: seq<string>, keywords: set<string>) returns (isMatch: bool)
    ensures isMatch <==> NameMatches(nameWords, keywords)
  {
    var wordsIntermediate := LowerWords(nameWords);
    assert wordsIntermediate == LowerSeq(nameWords);
    var wordsInName := Elements(wordsIntermediate);
    NotDisjointIffMatches(nameWords, keywords);
    isMatch := !(wordsInName !! keywords);
  }

  class FindCommand {
    /** The keywords to look for; lowercased in place by the first search. */
    var keywords: set<string>

    constructor (keywords: set<string>)
      ensures this.keywords == keywords
    {
      this.keywords := keywords;
    }

    /** A copy of the keywords. A set is a value here, so nothing done to the
        copy can reach the command's own keywords. */
    method GetKeywords() returns (copy: set<string>)
      ensures copy == keywords
    {
      copy := keywords;
    }

    /** Searches the address book and wraps the persons found. */
    method Execute(persons: seq<Person>) returns (result: CommandResult)
      modifies this
      ensures keywords == LowerAll(old(keywords))
      ensures result.relevantPersons == Found(persons, keywords)
    {
      var personsFound := PersonsWithNameContainingAnyKeyword(persons);
      result := CommandResult(personsFound);
    }

    /** Lowercases the keywords in place: they are copied into an array,
        each slot is lowercased, and the set is cleared and refilled from
        the array. Keywords that differ only in case become one. */
    method LowerKeywords()
      modifies this
      ensures keywords == LowerAll(old(keywords))
    {
      ghost var original := keywords;
      var keywordsIntermediate := ToArray(keywords);
      ghost var listed := keywordsIntermediate[..];
      LowerEach(keywordsIntermediate);
      keywords := {};
      keywords := keywords + Elements(keywordsIntermediate[..]);
      assert keywords == Elements(LowerSeq(listed));
      ElementsOfLowerSeq(listed);
    }

    /** Lowercases the keywords, then lists the persons that match them. */
    method PersonsWithNameContainingAnyKeyword(persons: seq<Person>) returns (matched: seq<Person>)
      modifies this
      ensures keywords == LowerAll(old(keywords))
      ensures matched == Found(persons, keywords)
    {
      LowerKeywords();
      matched := SelectMatching(persons, keywords);
    }
  }

  /** Keeps, in address-book order, every person one of whose lowercased
      name words is one of the keywords. */
  method SelectMatching(persons: seq<Person>, keywords: set<string>) returns (matched: seq<Person>)
    ensures matched == Found(persons, keywords)
  {
    matched := [];
    var i := 0;
    while i < |persons|
      invariant 0 <= i <= |persons|
      invariant matched == Found(persons[..i], keywords)
    {
      var person := persons[i];
      var isMatch := NameContainsAnyKeyword(person.nameWords, keywords);
      FoundAppend(persons[..i], person, keywords);
      assert persons[..i + 1] == persons[..i] + [person];
      if isMatch {
        matched := matched + [person];
      }
      i := i + 1;
    }
    assert persons[..i] == persons;
  }

  /** Running the same command twice over the same address book lists the
      same persons both times, and the second run leaves the (already
      lowercased) keywords as the first run left them. */
  method ExecuteTwice(command: FindCommand, persons: seq<Person>) returns (first: CommandResult, second: CommandResult)
    modifies command
    ensures first == second
    ensures command.keywords == LowerAll(old(command.keywords))
  {
    first := command.Execute(persons);
    second := command.Execute(persons);
    LowerAllIdempotent(old(command.keywords));
  }
}
