/**
 * `chars = list(chars); chars.sort()`: the alphabet is put in ascending
 * byte order (each character stands for one byte of a Python 2 string)
 * before any passcode is spelled.  Python's sort is a merge
 * sort; it is modelled here by insertion sort, which is enough because a
 * sorted permutation of a sequence is unique — whatever algorithm produced
 * it, the result is the same.
 */
module Sorting {

  /** Ascending order of characters, as Python compares one-character strings. */
  ghost predicate Sorted(s: seq<char>)
  {
    forall a, b :: 0 <= a < b < |s| ==> s[a] <= s[b]
  }

  /** Every character of s is at least c. */
  ghost predicate AllAtLeast(c: char, s: seq<char>)
  {
    forall k :: 0 <= k < |s| ==> c <= s[k]
  }

  /** Insert c before the first element that is not below it. */
  function Insert(c: char, s: seq<char>): seq<char>
  {
    if |s| == 0 then [c]
    else if c <= s[0] then [c] + s
    else [s[0]] + Insert(c, s[1..])
  }

  /** Inserting into a sorted sequence keeps it sorted and adds exactly c. */
  lemma {:induction false} InsertSpec(c: char, s: seq<char>)
    requires Sorted(s)
    ensures Sorted(Insert(c, s))
    ensures multiset(Insert(c, s)) == multiset(s) + multiset{c}
  {
    if |s| == 0 {
    } else if c <= s[0] {
      assert AllAtLeast(c, s);
      ConsSorted(c, s);
    } else {
      SortedTail(s);
      InsertSpec(c, s[1..]);
      var rest := Insert(c, s[1..]);
      MultisetCons(s);
      InsertedAtLeast(c, s, rest);
      ConsSorted(s[0], rest);
    }
  }

  /** What is inserted after the head of a sorted sequence is not below that head. */
  lemma InsertedAtLeast(c: char, s: seq<char>, rest: seq<char>)
    requires Sorted(s) && |s| > 0 && s[0] <= c
    requires multiset(rest) == multiset(s[1..]) + multiset{c}
    ensures AllAtLeast(s[0], rest)
  {
    forall k | 0 <= k < |rest|
      ensures s[0] <= rest[k]
    {
      assert rest[k] in multiset(rest);
      if rest[k] != c {
        assert rest[k] in multiset(s[1..]);
        var i :| 0 <= i < |s[1..]| && s[1..][i] == rest[k];
        assert s[1..][i] == s[i + 1];
      }
    }
  }

  lemma MultisetCons(s: seq<char>)
    requires |s| > 0
    ensures multiset(s) == multiset{s[0]} + multiset(s[1..])
  {
    assert s == [s[0]] + s[1..];
  }

  /** A character no greater than every element of a sorted sequence can go in front of it. */
  lemma ConsSorted(c: char, s: seq<char>)
    requires Sorted(s) && AllAtLeast(c, s)
    ensures Sorted([c] + s)
  {
    var r := [c] + s;
    forall a, b | 0 <= a < b < |r|
      ensures r[a] <= r[b]
    {
      if a > 0 {
        assert r[a] == s[a - 1] && r[b] == s[b - 1];
      } else {
        assert r[b] == s[b - 1];
      }
    }
  }

  /** list.sort(), as insertion sort. */
  function Sort(s: seq<char>): seq<char>
  {
    if |s| == 0 then [] else Insert(s[0], Sort(s[1..]))
  }

  /** Sorting yields the same characters, in ascending order. */
  lemma {:induction false} SortSpec(s: seq<char>)
    ensures Sorted(Sort(s))
    ensures multiset(Sort(s)) == multiset(s)
  {
    if |s| > 0 {
      SortSpec(s[1..]);
      InsertSpec(s[0], Sort(s[1..]));
      MultisetCons(s);
    }
  }

  /** Two sorted sequences with the same elements are equal. */
  lemma {:induction false} SortedUnique(a: seq<char>, b: seq<char>)
    requires Sorted(a) && Sorted(b)
    requires multiset(a) == multiset(b)
    ensures a == b
    decreases |a|
  {
    if |a| == 0 || |b| == 0 {
      assert |a| == |multiset(a)| == |multiset(b)| == |b|;
    } else {
      SortedHeadsEqual(a, b);
      MultisetTail(a);
      MultisetTail(b);
      SortedTail(a);
      SortedTail(b);
      SortedUnique(a[1..], b[1..]);
      HeadTailEqual(a, b);
    }
  }

  lemma HeadTailEqual(a: seq<char>, b: seq<char>)
    requires |a| > 0 && |b| > 0 && a[0] == b[0] && a[1..] == b[1..]
    ensures a == b
  {
    assert a == [a[0]] + a[1..] && b == [b[0]] + b[1..];
  }

  lemma SortedTail(s: seq<char>)
    requires Sorted(s) && |s| > 0
    ensures Sorted(s[1..])
  {
    forall a, b | 0 <= a < b < |s| - 1
      ensures s[1..][a] <= s[1..][b]
    {
      assert s[1..][a] == s[a + 1] && s[1..][b] == s[b + 1];
    }
  }

  /** The first element of a sorted sequence is its least, so equal multisets give equal heads. */
  lemma SortedHeadsEqual(a: seq<char>, b: seq<char>)
    requires Sorted(a) && Sorted(b) && |a| > 0 && |b| > 0
    requires multiset(a) == multiset(b)
    ensures a[0] == b[0]
  {
    assert a[0] in multiset(b);
    assert b[0] in multiset(a);
    var i :| 0 <= i < |b| && b[i] == a[0];
    var j :| 0 <= j < |a| && a[j] == b[0];
    assert b[0] <= b[i] && a[0] <= a[j];
  }

  lemma MultisetTail(s: seq<char>)
    requires |s| > 0
    ensures multiset(s[1..]) == multiset(s) - multiset{s[0]}
  {
    MultisetCons(s);
  }

  /** The sorted alphabet depends only on which characters it holds, not on their order. */
  lemma SortOrderInsensitive(a: seq<char>, b: seq<char>)
    requires multiset(a) == multiset(b)
    ensures Sort(a) == Sort(b)
  {
    SortSpec(a);
    SortSpec(b);
    SortedUnique(Sort(a), Sort(b));
  }

  /** Sorting an already sorted sequence changes nothing. */
  lemma SortSorted(s: seq<char>)
    requires Sorted(s)
    ensures Sort(s) == s
  {
    SortSpec(s);
    SortedUnique(Sort(s), s);
  }

  /** Sorting keeps exactly the characters the alphabet had. */
  lemma SortMembers(s: seq<char>, c: char)
    ensures c in Sort(s) <==> c in s
  {
    SortSpec(s);
    assert c in Sort(s) <==> c in multiset(Sort(s));
    assert c in s <==> c in multiset(s);
  }
}
