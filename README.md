# Address book `find` command, modelled in Dafny

The address book's `find` command lists every person whose name contains
one of the given keywords. Matching is by whole word and ignores case. The
command first lowercases its own keyword set in place. Then it walks the
address book in order. For each person it lowercases the name's words,
puts them in a set, and keeps the person when that set shares an element
with the keyword set. The model lowercases a copy of the name's words.

The model has three modules:

- `Lowercase` (`lowercase.dfy`): ASCII case folding of characters, strings,
  sequences and sets of strings, with its laws. It is idempotent, it works
  position by position, it never enlarges a set, and the order in which
  strings are listed does not matter.
- `KeywordSearch` (`keyword_search.dfy`): the search as functions over
  values. A `Person` is the list of words of its name. `NameMatches` is the
  match test. `Found` is the list of matching persons and `MatchedIndices`
  their positions. The lemmas cover the subsequence property, membership
  (both directions), the empty keyword set, order, whole-word matching and
  case insensitivity.
- `Commands` (`find_command.dfy`): the command itself, as a class
  `FindCommand` whose `keywords` field its methods update. Its loops follow
  the source:
  - the set is copied into an array;
  - each array slot is lowercased in place;
  - the set is cleared and refilled from the array;
  - a list-iterator style loop lowercases a copy of each name's words;
  - matching persons are appended one by one.
  Each of these methods is proved against the specification functions
  above.

The source's class comment says "Keyword matching is case sensitive". The
code lowercases both the keywords and the name words before comparing
them, so matching is case-insensitive. The model follows the code.

The address book is passed to `Execute` as a sequence of persons. The
source reads it from a field inherited from the command superclass. A
sequence is a value, so the search cannot change the address book, and
the list of persons is the same after the call as before it.

## Model

| member | source | states |
|---|---|---|
| Lowercase.LowerChar | src/seedu/addressbook/commands/FindCommand.java:50 | the lowercase of a character is never an ASCII capital; a capital moves 32 code points up to its small letter; every other character is unchanged |
| Lowercase.Lower | src/seedu/addressbook/commands/FindCommand.java:50 | lowercasing a string keeps its length and leaves no ASCII capital in it |
| Lowercase.LowerAt | src/seedu/addressbook/commands/FindCommand.java:59 | position i of a lowercased string is the lowercase of position i of the input |
| Lowercase.LowerOfLowerString | src/seedu/addressbook/commands/FindCommand.java:59 | a string with no capitals is its own lowercase |
| Lowercase.LowerIdempotent | src/seedu/addressbook/commands/FindCommand.java:50 | lowercasing twice gives the same string as lowercasing once |
| Lowercase.LowerEqualIff | src/seedu/addressbook/commands/FindCommand.java:59-62 | two strings have equal lowercase if and only if they have the same length and agree character by character up to case |
| Lowercase.LowerSeq | src/seedu/addressbook/commands/FindCommand.java:56-60 | lowercasing a list of words keeps its length and puts the lowercase of word i at position i |
| Lowercase.LowerAll | src/seedu/addressbook/commands/FindCommand.java:48-53 | the lowercased keyword set holds the lowercase of every keyword and nothing that is not the lowercase of some keyword |
| Lowercase.Elements | src/seedu/addressbook/commands/FindCommand.java:61 | the set built from a list holds every element of the list and nothing else |
| Lowercase.ElementsOfLowerSeq | src/seedu/addressbook/commands/FindCommand.java:48-53 | lowercasing an array of strings and collecting it into a set gives the lowercase image of the array's elements |
| Lowercase.LowerSeqOrderIrrelevant | src/seedu/addressbook/commands/FindCommand.java:48 | two listings of the same set, in any order, lowercase to the same set, so the array order chosen by the hash set does not affect the keywords |
| Lowercase.LowerAllIdempotent | src/seedu/addressbook/commands/FindCommand.java:48-53 | lowercasing the keyword set a second time leaves it unchanged |
| Lowercase.LowerAllCardinality | src/seedu/addressbook/commands/FindCommand.java:52-53 | after the set is cleared and refilled with lowercased keywords it has at most as many elements as before |
| Lowercase.LowerAllCanShrink | src/seedu/addressbook/commands/FindCommand.java:52-53 | keywords "Alice" and "ALICE" collapse into the single keyword "alice", so the set can shrink |
| Lowercase.LowerAllSingleton | src/seedu/addressbook/commands/FindCommand.java:48-53 | a single keyword lowercases to the one-element set holding its lowercase |
| Lowercase.DifferentLengthsDifferentLower | src/seedu/addressbook/commands/FindCommand.java:59-62 | a name word and a keyword of different lengths never have the same lowercase |
| KeywordSearch.Found | src/seedu/addressbook/commands/FindCommand.java:54-65 | the list of persons found is never longer than the address book |
| KeywordSearch.MatchedIndices | src/seedu/addressbook/commands/FindCommand.java:54-65 | the positions of the persons found are valid positions of the address book, in strictly increasing order |
| KeywordSearch.MatchedIndicesExactly | src/seedu/addressbook/commands/FindCommand.java:55-64 | position i is among the matched positions if and only if the name of the person at i matches |
| KeywordSearch.FoundIsSubsequence | src/seedu/addressbook/commands/FindCommand.java:54-65 | the result is the address book restricted to the matched positions: equal length, and its j-th person is the person at the j-th matched position, so it comes from the book in the book's order |
| KeywordSearch.FoundMembership | src/seedu/addressbook/commands/FindCommand.java:55-64 | a person is in the result if and only if it is in the address book and some lowercased word of its name is a keyword |
| KeywordSearch.NoKeywordsFindsNobody | src/seedu/addressbook/commands/FindCommand.java:62 | with an empty keyword set the result is empty, whatever the address book holds |
| KeywordSearch.FoundAppend | src/seedu/addressbook/commands/FindCommand.java:62-63 | adding a person at the end of the book adds it at the end of the result exactly when its name matches |
| KeywordSearch.OrderKept | src/seedu/addressbook/commands/FindCommand.java:54-65 | when the first and third of three persons match and the second does not, the result is the first then the third |
| KeywordSearch.NameMatchesIgnoringCase | src/seedu/addressbook/commands/FindCommand.java:48-62 | a name matches the lowercased keywords if and only if some name word and some original keyword have the same lowercase |
| KeywordSearch.NotDisjointIffMatches | src/seedu/addressbook/commands/FindCommand.java:61-62 | the set of lowercased name words intersects the keyword set if and only if the name matches |
| KeywordSearch.NoWordOfKeywordLength | src/seedu/addressbook/commands/FindCommand.java:61-62 | a lowercased keyword finds nothing in a name none of whose words has the keyword's length: a part of a word is not a match |
| KeywordSearch.PartOfWordDoesNotMatch | src/seedu/addressbook/commands/FindCommand.java:61-62 | the keyword "ali" does not find the name "Alice Pauline" |
| KeywordSearch.WholeWordMatchesInAnyCase | src/seedu/addressbook/commands/FindCommand.java:55-62 | the keywords "alice" and "ALICE" both find the name "Alice Pauline" |
| Commands.ToArray | src/seedu/addressbook/commands/FindCommand.java:48 | the array made from the keyword set is fresh, has one slot per keyword and holds exactly the keywords |
| Commands.LowerEach | src/seedu/addressbook/commands/FindCommand.java:49-51 | after the loop every slot of the array holds the lowercase of what it held before |
| Commands.LowerWords | src/seedu/addressbook/commands/FindCommand.java:55-60 | the iterator loop yields a list of the same length whose word i is the lowercase of name word i |
| Commands.NameContainsAnyKeyword | src/seedu/addressbook/commands/FindCommand.java:55-62 | the disjointness test on the lowercased name words says true exactly when the name matches the keywords |
| Commands.SelectMatching | src/seedu/addressbook/commands/FindCommand.java:54-65 | the loop over the address book returns exactly the specified result list |
| Commands.FindCommand.constructor | src/seedu/addressbook/commands/FindCommand.java:23-25 | a new command holds the given keywords |
| Commands.FindCommand.GetKeywords | src/seedu/addressbook/commands/FindCommand.java:30-32 | the copy equals the current keywords; being a value, changing it cannot change the command |
| Commands.FindCommand.LowerKeywords | src/seedu/addressbook/commands/FindCommand.java:48-53 | afterwards the keyword set is the lowercase image of the keyword set before |
| Commands.FindCommand.PersonsWithNameContainingAnyKeyword | src/seedu/addressbook/commands/FindCommand.java:46-67 | the keywords become their lowercase image, and the list returned is the specified result for those keywords |
| Commands.FindCommand.Execute | src/seedu/addressbook/commands/FindCommand.java:35-38 | the command result lists exactly the persons found, and the keywords are left lowercased |
| Commands.ExecuteTwice | src/seedu/addressbook/commands/FindCommand.java:48-53 | running the same command twice over the same address book lists the same persons both times, and the keywords end as the lowercase image of the original ones |

## Left out

- The summary message of the command result (`getMessageForPersonListShownSummary`, line 37): it is defined in the command superclass, which is not part of this model. `CommandResult` carries only the list of persons.
- The `COMMAND_WORD` and `MESSAGE_USAGE` constants (lines 14-19) and the display of results: these are presentation only.
- How `Name.getWordsInName` splits a name into words (line 55): the `Name` class is not part of this model. A person is given directly by its list of name words, and its phone, email, address and tags are not modelled.
- Whether the list returned by `getWordsInName` is the name's own list, so that the iterator loop at lines 56-60 would change the stored name: this cannot be decided without the `Name` class. The model lowercases a copy, and the stored name words are unchanged.
- Java's `String.toLowerCase` (lines 50 and 59) is locale-dependent and covers all of Unicode. The model folds only the ASCII letters A-Z to a-z.
- The iteration order of `HashSet` (lines 48 and 61): the model picks the array order arbitrarily, and `Lowercase.LowerSeqOrderIrrelevant` shows that the order does not affect the result.
- Commands.FindCommand.Execute: treated as total. In Java it can fail: `keywords.clear()` and `addAll` (lines 52-53) throw `UnsupportedOperationException` when the caller passed an unmodifiable set, and `toLowerCase()` (lines 50 and 59) throws `NullPointerException` on a null keyword or name word. The model's keyword field is an owned, always modifiable value and its strings cannot be null, so these failures are not modelled.
- The constructor stores the caller's set by reference (line 24), so in Java the caller sees the in-place lowercasing. The model's keyword field is a value owned by the command, so this sharing is not modelled.
- The inherited `addressBook` field (line 54) is replaced by an explicit sequence of persons passed to `Execute`.
