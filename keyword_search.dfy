/** What the find command computes, stated as functions over values: which
    persons of an address book match a set of (already lowercased) keywords,
    and the order in which they are listed. */
module KeywordSearch {
  import opened Lowercase

  /** A person of the address book, reduced to the words of its name. The
      phone, email, address and tags of a person play no part in the search. */
  datatype Person = Person(nameWords: seq<string>)

  /** A name matches when one of its words, lowercased, is one of the
      keywords. The comparison is equality of whole words: a keyword that is
      only a prefix or a part of a name word does not match it. */
  predicate NameMatches(nameWords: seq<string>, keywords: set<string>) {
    exists i :: 0 <= i < |nameWords| && Lower(nameWords[i]) in keywords
  }

  /** The persons that match, in address-book order. */
  function Found(persons: seq<Person>, keywords: set<string>): (r: seq<Person>)
    ensures |r| <= |persons|
  {
    if persons == [] then []
    else
      var last := persons[|persons| - 1];
      var init := Found(persons[..|persons| - 1], keywords);
      if NameMatches(last.nameWords, keywords) then init + [last] else init
  }

  /** The positions, in increasing order, of the persons that match. */
  function MatchedIndices(persons: seq<Person>, keywords: set<string>): (r: seq<nat>)
    ensures forall j :: 0 <= j < |r| ==> r[j] < |persons|
    ensures forall j, k :: 0 <= j < k < |r| ==> r[j] < r[k]
  {
    if persons == [] then []
    else
      var n := |persons| - 1;
      var init := MatchedIndices(persons[..n], keywords);
      if NameMatches(persons[n].nameWords, keywords) then init + [n] else init
  }

  /** The matching positions are exactly the positions whose person's name
      matches. */
  lemma {:induction false} MatchedIndicesExactly(persons: seq<Person>, keywords: set<string>, i: nat)
    requires i < |persons|
    ensures i in MatchedIndices(persons, keywords) <==> NameMatches(persons[i].nameWords, keywords)
  {
    var n := |persons| - 1;
    var m := MatchedIndices(persons[..n], keywords);
    if i < n {
      MatchedIndicesExactly(persons[..n], keywords, i);
    }
    assert n !in m;
  }

  /** The result is the subsequence of the address book picked out by the
      matching positions: same length, and its j-th person is the person at
      the j-th matching position. So nothing is invented, nothing is
      reordered, and a person listed twice in the book is listed twice. */
  lemma {:induction false} FoundIsSubsequence(persons: seq<Person>, keywords: set<string>)
    ensures |Found(persons, keywords)| == |MatchedIndices(persons, keywords)|
    ensures forall j :: 0 <= j < |Found(persons, keywords)| ==>
              Found(persons, keywords)[j] == persons[MatchedIndices(persons, keywords)[j]]
  {
    if persons != [] {
      var n := |persons| - 1;
      var prefix := persons[..n];
      FoundIsSubsequence(prefix, keywords);
      var f, m := Found(prefix, keywords), MatchedIndices(prefix, keywords);
      assert forall j :: 0 <= j < |f| ==> f[j] == persons[m[j]];
      if NameMatches(persons[n].nameWords, keywords) {
        assert Found(persons, keywords) == f + [persons[n]];
        assert MatchedIndices(persons, keywords) == m + [n];
      } else {
        assert Found(persons, keywords) == f;
        assert MatchedIndices(persons, keywords) == m;
      }
    }
  }

  /** A person is in the result exactly when it is in the address book and
      its name matches a keyword. */
  lemma {:induction false} FoundMembership(persons: seq<Person>, keywords: set<string>, p: Person)
    ensures p in Found(persons, keywords) <==> p in persons && NameMatches(p.nameWords, keywords)
  {
    if persons != [] {
      var n := |persons| - 1;
      FoundMembership(persons[..n], keywords, p);
      assert persons == persons[..n] + [persons[n]];
    }
  }

  /** With no keywords nothing matches, whatever the address book holds. */
  lemma {:induction false} NoKeywordsFindsNobody(persons: seq<Person>)
    ensures Found(persons, {}) == []
  {
    if persons != [] {
      NoKeywordsFindsNobody(persons[..|persons| - 1]);
    }
  }

  /** Searching an address book grown by one person extends the old result
      by that person exactly when it matches. */
  lemma FoundAppend(persons: seq<Person>, p: Person, keywords: set<string>)
    ensures Found(persons + [p], keywords)
         == if NameMatches(p.nameWords, keywords) then Found(persons, keywords) + [p]
            else Found(persons, keywords)
  {
    assert (persons + [p])[..|persons|] == persons;
  }

  /** Order is kept: when the first and third of three persons match and the
      second does not, the result is the first then the third. */
  lemma OrderKept(p1: Person, p2: Person, p3: Person, keywords: set<string>)
    requires NameMatches(p1.nameWords, keywords)
    requires !NameMatches(p2.nameWords, keywords)
    requires NameMatches(p3.nameWords, keywords)
    ensures Found([p1, p2, p3], keywords) == [p1, p3]
  {
    FoundAppend([], p1, keywords);
    assert [] + [p1] == [p1];
    assert Found([p1], keywords) == [p1];
    FoundAppend([p1], p2, keywords);
    assert [p1] + [p2] == [p1, p2];
    assert Found([p1, p2], keywords) == [p1];
    FoundAppend([p1, p2], p3, keywords);
    assert [p1, p2] + [p3] == [p1, p2, p3];
  }

  /** Matching against the lowercased keywords is case-insensitive on both
      sides: a name matches exactly when some name word and some keyword have
      the same lowercase. */
  lemma NameMatchesIgnoringCase(nameWords: seq<string>, keywords: set<string>)
    ensures NameMatches(nameWords, LowerAll(keywords)) <==>
            exists i, k :: 0 <= i < |nameWords| && k in keywords && Lower(nameWords[i]) == Lower(k)
  {
    if NameMatches(nameWords, LowerAll(keywords)) {
      var i :| 0 <= i < |nameWords| && Lower(nameWords[i]) in LowerAll(keywords);
      var k :| k in keywords && Lower(k) == Lower(nameWords[i]);
    }
  }

  /** The name's words, lowercased and collected into a set, share an element
      with the keywords exactly when the name matches. */
  lemma NotDisjointIffMatches(nameWords: seq<string>, keywords: set<string>)
    ensures !(Elements(LowerSeq(nameWords)) !! keywords) <==> NameMatches(nameWords, keywords)
  {
    var words := Elements(LowerSeq(nameWords));
    if !(words !! keywords) {
      var w :| w in words && w in keywords;
      var i :| 0 <= i < |nameWords| && LowerSeq(nameWords)[i] == w;
    }
    if NameMatches(nameWords, keywords) {
      var i :| 0 <= i < |nameWords| && Lower(nameWords[i]) in keywords;
      assert LowerSeq(nameWords)[i] in words;
    }
  }

  /** A keyword never matches a name none of whose words has the keyword's
      length: in particular a keyword that is a strict prefix or a strict
      part of every name word finds nothing. */
  lemma NoWordOfKeywordLength(nameWords: seq<string>, keyword: string)
    requires forall i :: 0 <= i < |nameWords| ==> |nameWords[i]| != |keyword|
    ensures !NameMatches(nameWords, {Lower(keyword)})
  {
    forall i | 0 <= i < |nameWords|
      ensures Lower(nameWords[i]) != Lower(keyword)
    {
      DifferentLengthsDifferentLower(nameWords[i], keyword);
    }
  }

  /** Whole-word matching: the keyword "ali" does not find "Alice Pauline". */
  lemma PartOfWordDoesNotMatch()
    ensures !NameMatches(["Alice", "Pauline"], LowerAll({"ali"}))
  {
    var name := ["Alice", "Pauline"];
    assert |name[0]| == 5 && |name[1]| == 7;
    NoWordOfKeywordLength(name, "ali");
    LowerAllSingleton("ali");
  }

  /** Case is ignored: "ALICE" and "alice" both find "Alice Pauline". */
  lemma WholeWordMatchesInAnyCase()
    ensures NameMatches(["Alice", "Pauline"], LowerAll({"alice"}))
    ensures NameMatches(["Alice", "Pauline"], LowerAll({"ALICE"}))
  {
    var name := ["Alice", "Pauline"];
    assert Lower(name[0]) == "alice";
    assert Lower("ALICE") == "alice";
    assert Lower("alice") == "alice";
  }
}
