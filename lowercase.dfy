/** ASCII case folding, the part of Java's String.toLowerCase that the keyword
    search relies on: 'A'..'Z' map to 'a'..'z' and every other character is
    kept as it is. */
module Lowercase {

  /** True for the 26 ASCII capital letters. */
  predicate IsUpper(c: char) {
    'A' <= c <= 'Z'
  }

  /** A string with no ASCII capital letter in it. */
  predicate IsLowerString(s: string) {
    forall i :: 0 <= i < |s| ==> !IsUpper(s[i])
  }

  /** Lowercase of one character. */
  function LowerChar(c: char): (r: char)
    ensures !IsUpper(r)
    ensures IsUpper(c) ==> r as int == c as int + 32
    ensures !IsUpper(c) ==> r == c
  {
    if IsUpper(c) then (c as int + 32) as char else c
  }

  /** Lowercase of a string, character by character. */
  function Lower(s: string): (r: string)
    ensures |r| == |s|
    ensures IsLowerString(r)
  {
    if s == [] then [] else [LowerChar(s[0])] + Lower(s[1..])
  }

  /** Lower changes each character on its own: position i of the result is
      the lowercase of position i of the input. */
  lemma {:induction false} LowerAt(s: string, i: nat)
    requires i < |s|
    ensures Lower(s)[i] == LowerChar(s[i])
  {
    if i > 0 {
      LowerAt(s[1..], i - 1);
    }
  }

  /** A string that is already lowercase is its own lowercase. */
  lemma {:induction false} LowerOfLowerString(s: string)
    requires IsLowerString(s)
    ensures Lower(s) == s
  {
    if s != [] {
      assert !IsUpper(s[0]);
      LowerOfLowerString(s[1..]);
    }
  }

  /** Lowercasing twice is lowercasing once. */
  lemma LowerIdempotent(s: string)
    ensures Lower(Lower(s)) == Lower(s)
  {
    LowerOfLowerString(Lower(s));
  }

  /** Two strings have the same lowercase exactly when they agree character by
      character up to case. */
  lemma LowerEqualIff(s: string, t: string)
    ensures Lower(s) == Lower(t) <==>
            |s| == |t| && forall i :: 0 <= i < |s| ==> LowerChar(s[i]) == LowerChar(t[i])
  {
    if Lower(s) == Lower(t) {
      forall i | 0 <= i < |s|
        ensures LowerChar(s[i]) == LowerChar(t[i])
      {
        LowerAt(s, i);
        LowerAt(t, i);
      }
    }
    if |s| == |t| && forall i :: 0 <= i < |s| ==> LowerChar(s[i]) == LowerChar(t[i]) {
      forall i | 0 <= i < |s|
        ensures Lower(s)[i] == Lower(t)[i]
      {
        LowerAt(s, i);
        LowerAt(t, i);
      }
    }
  }

  /** Lowercase of every string of a sequence, order kept. */
  function LowerSeq(ws: seq<string>): (r: seq<string>)
    ensures |r| == |ws|
    ensures forall i :: 0 <= i < |ws| ==> r[i] == Lower(ws[i])
  {
    seq(|ws|, i requires 0 <= i < |ws| => Lower(ws[i]))
  }

  /** The lowercase image of a set of strings. */
  function LowerAll(ks: set<string>): (r: set<string>)
    ensures forall k :: k in ks ==> Lower(k) in r
    ensures forall l :: l in r ==> exists k :: k in ks && Lower(k) == l
  {
    set k | k in ks :: Lower(k)
  }

  /** The elements of a sequence, as a set. */
  function Elements(ws: seq<string>): (r: set<string>)
    ensures forall i :: 0 <= i < |ws| ==> ws[i] in r
    ensures forall w :: w in r ==> exists i :: 0 <= i < |ws| && ws[i] == w
  {
    set w | w in ws
  }

  /** Lowercasing a sequence and then collecting it into a set gives the
      lowercase image of the sequence's elements, so the order in which the
      strings were listed does not matter. */
  lemma ElementsOfLowerSeq(ws: seq<string>)
    ensures Elements(LowerSeq(ws)) == LowerAll(Elements(ws))
  {
    forall l | l in LowerAll(Elements(ws))
      ensures l in Elements(LowerSeq(ws))
    {
      var k :| k in Elements(ws) && Lower(k) == l;
      var i :| 0 <= i < |ws| && ws[i] == k;
      assert LowerSeq(ws)[i] == l;
    }
  }

  /** Two listings of the same strings, in whatever order and with whatever
      repetitions, lowercase to the same set. */
  lemma LowerSeqOrderIrrelevant(a: seq<string>, b: seq<string>)
    requires Elements(a) == Elements(b)
    ensures Elements(LowerSeq(a)) == Elements(LowerSeq(b))
  {
    ElementsOfLowerSeq(a);
    ElementsOfLowerSeq(b);
  }

  /** Lowercasing a set twice is lowercasing it once. */
  lemma LowerAllIdempotent(ks: set<string>)
    ensures LowerAll(LowerAll(ks)) == LowerAll(ks)
  {
    forall l | l in LowerAll(ks)
      ensures Lower(l) == l
    {
      var k :| k in ks && Lower(k) == l;
      LowerIdempotent(k);
    }
  }

  /** The lowercase image is never larger than the set itself. */
  lemma {:induction false} LowerAllCardinality(ks: set<string>)
    ensures |LowerAll(ks)| <= |ks|
    decreases |ks|
  {
    if ks != {} {
      var k :| k in ks;
      var rest := ks - {k};
      LowerAllCardinality(rest);
      assert LowerAll(ks) == LowerAll(rest) + {Lower(k)};
      assert |LowerAll(rest) + {Lower(k)}| <= |LowerAll(rest)| + 1;
    }
  }

  /** A single string lowercases to the one-element set of its lowercase. */
  lemma LowerAllSingleton(keyword: string)
    ensures LowerAll({keyword}) == {Lower(keyword)}
  {
  }

  /** Strings of different lengths have different lowercase. */
  lemma DifferentLengthsDifferentLower(w: string, k: string)
    requires |w| != |k|
    ensures Lower(w) != Lower(k)
  {
    assert |Lower(w)| == |w| && |Lower(k)| == |k|;
  }

  /** Keywords that differ only in case collapse into one, so the image can
      be strictly smaller than the set. */
  lemma LowerAllCanShrink()
    ensures LowerAll({"Alice", "ALICE"}) == {"alice"}
  {
    assert Lower("Alice") == "alice";
    assert Lower("ALICE") == "alice";
  }
}
