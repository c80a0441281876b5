/** The character-policy check `ValidateString` (util.go): a blacklist plus, for
    each requirement, a minimum number of characters drawn from a given list. */
module Validation {
  import opened Seqs

  /** `ValidateRequire`: the characters to count and the least count accepted. */
  datatype Requirement = Requirement(requiredChar: seq<char>, amount: int)

  /** How many times `c` is listed in `chars`. */
  function Occurrences(chars: seq<char>, c: char): nat
  {
    if chars == [] then 0
    else Occurrences(chars[..|chars| - 1], c) + (if chars[|chars| - 1] == c then 1 else 0)
  }

  /** The counter a requirement over `chars` reaches after scanning `s`: every
      character of `s` adds the number of times it is listed in `chars`. */
  function CountIn(s: string, chars: seq<char>): nat
  {
    if s == [] then 0
    else CountIn(s[..|s| - 1], chars) + Occurrences(chars, s[|s| - 1])
  }

  /** What `ValidateString` accepts: no character of `s` is blacklisted, and each
      requirement's count reaches at least its amount. */
  predicate Satisfies(s: string, blacklist: seq<char>, requirements: seq<Requirement>)
  {
    && (forall i :: 0 <= i < |s| ==> s[i] !in blacklist)
    && (forall k :: 0 <= k < |requirements| ==>
          CountIn(s, requirements[k].requiredChar) >= requirements[k].amount)
  }

  /** `ValidateString`: scans `s` once, rejecting at the first blacklisted
      character and otherwise bumping one counter per requirement for every
      listing of the character; then compares each counter with its amount. */
  method ValidateString(s: string, blacklist: seq<char>, requirements: seq<Requirement>)
    returns (ok: bool)
    ensures ok == Satisfies(s, blacklist, requirements)
  {
    var requireCounts := new int[|requirements|](_ => 0);
    for i := 0 to |s|
      invariant forall k :: 0 <= k < |requirements| ==>
        requireCounts[k] == CountIn(s[..i], requirements[k].requiredChar)
      invariant forall m :: 0 <= m < i ==> s[m] !in blacklist
    {
      var ch := s[i];
      for b := 0 to |blacklist|
        invariant forall x :: 0 <= x < b ==> blacklist[x] != ch
      {
        if ch == blacklist[b] {
          return false;
        }
      }
      for j := 0 to |requirements|
        invariant forall k :: 0 <= k < j ==>
          requireCounts[k] == CountIn(s[..i + 1], requirements[k].requiredChar)
        invariant forall k :: j <= k < |requirements| ==>
          requireCounts[k] == CountIn(s[..i], requirements[k].requiredChar)
      {
        var chars := requirements[j].requiredChar;
        for m := 0 to |chars|
          invariant forall k :: 0 <= k < j ==>
            requireCounts[k] == CountIn(s[..i + 1], requirements[k].requiredChar)
          invariant forall k :: j < k < |requirements| ==>
            requireCounts[k] == CountIn(s[..i], requirements[k].requiredChar)
          invariant requireCounts[j] == CountIn(s[..i], chars) + Occurrences(chars[..m], ch)
        {
          assert chars[..m + 1][..m] == chars[..m];
          if ch == chars[m] {
            requireCounts[j] := requireCounts[j] + 1;
          }
        }
        assert chars[..|chars|] == chars;
        CountStep(s, chars, i);
      }
    }
    assert s[..|s|] == s;
    for i := 0 to |requirements|
      invariant forall k :: 0 <= k < i ==> requireCounts[k] >= requirements[k].amount
    {
      if requireCounts[i] < requirements[i].amount {
        return false;
      }
    }
    return true;
  }

  lemma CountStep(s: string, chars: seq<char>, i: int)
    requires 0 <= i < |s|
    ensures CountIn(s[..i + 1], chars) == CountIn(s[..i], chars) + Occurrences(chars, s[i])
  {
    assert s[..i + 1][..i] == s[..i];
  }

  /** Listing a character k times makes each of its occurrences count k times. */
  lemma {:induction false} OccurrencesIsMultiplicity(chars: seq<char>, c: char)
    ensures Occurrences(chars, c) == multiset(chars)[c]
  {
    if chars != [] {
      var init := chars[..|chars| - 1];
      OccurrencesIsMultiplicity(init, c);
      assert chars == init + [chars[|chars| - 1]];
    }
  }

  /** Listing one more character adds that character's occurrences in `s`. */
  lemma {:induction false} CountListingOneMore(s: string, chars: seq<char>, c: char)
    ensures CountIn(s, chars + [c]) == CountIn(s, chars) + multiset(s)[c]
  {
    if s != [] {
      var init := s[..|s| - 1];
      CountListingOneMore(init, chars, c);
      assert (chars + [c])[..|chars|] == chars;
      assert s == init + [s[|s| - 1]];
    }
  }

  /** The counters only grow as the scan advances. */
  lemma {:induction false} CountGrows(s: string, chars: seq<char>, i: int)
    requires 0 <= i <= |s|
    ensures CountIn(s[..i], chars) <= CountIn(s, chars)
    decreases |s|
  {
    if i == |s| {
      assert s[..i] == s;
    } else {
      var init := s[..|s| - 1];
      assert s[..i] == init[..i];
      assert CountIn(s, chars) == CountIn(init, chars) + Occurrences(chars, s[|s| - 1]);
      CountGrows(init, chars, i);
    }
  }

  predicate Distinct(chars: seq<char>)
  {
    forall i, j :: 0 <= i < j < |chars| ==> chars[i] != chars[j]
  }

  lemma {:induction false} OccurrencesDistinct(chars: seq<char>, c: char)
    requires Distinct(chars)
    ensures Occurrences(chars, c) == if c in chars then 1 else 0
  {
    if chars != [] {
      var init := chars[..|chars| - 1];
      OccurrencesDistinct(init, c);
      assert chars == init + [chars[|chars| - 1]];
      if chars[|chars| - 1] == c {
        assert c !in init;
      }
    }
  }

  /** With a list that names each character once, the counter is the number of
      characters of `s` that are in the list. */
  lemma {:induction false} CountDistinct(s: string, chars: seq<char>)
    requires Distinct(chars)
    ensures CountIn(s, chars) == |Filter(x => x in chars, s)|
  {
    if s != [] {
      CountDistinct(s[..|s| - 1], chars);
      OccurrencesDistinct(chars, s[|s| - 1]);
    }
  }

  /** With no blacklist and no requirement every string is accepted. */
  lemma EmptyPolicyAcceptsAll(s: string)
    ensures Satisfies(s, [], [])
  {
  }

  /** A requirement whose amount is zero or less never rejects anything. */
  lemma NonPositiveAmountIgnored(s: string, blacklist: seq<char>, requirements: seq<Requirement>, r: Requirement)
    requires r.amount <= 0
    ensures Satisfies(s, blacklist, requirements + [r]) == Satisfies(s, blacklist, requirements)
  {
    var all := requirements + [r];
    assert forall k :: 0 <= k < |requirements| ==> all[k] == requirements[k];
  }

  /** The amount is a minimum, not an exact count: a string with two listed
      characters satisfies a requirement of one. */
  lemma AmountIsAMinimum()
    ensures Satisfies("11", [], [Requirement("1", 1)])
  {
    assert "1"[..0] == [];
    assert Occurrences("1", '1') == 1;
    assert CountIn("1", "1") == 1;
    assert "11"[..1] == "1";
    assert CountIn("11", "1") == 2;
  }
}
