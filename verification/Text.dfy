/** Byte strings: reversal, ASCII lower-casing, byte order and sorting. */
module Text {

  function Reverse<T>(s: seq<T>): (r: seq<T>)
    ensures |r| == |s| && forall i :: 0 <= i < |s| ==> r[i] == s[|s| - 1 - i]
  {
    if s == [] then [] else Reverse(s[1..]) + [s[0]]
  }

  function LowerChar(c: char): char {
    if 'A' <= c <= 'Z' then ((c as int) + 32) as char else c
  }

  function Lower(s: string): (r: string)
    ensures |r| == |s| && forall i :: 0 <= i < |s| ==> r[i] == LowerChar(s[i])
  {
    seq(|s|, i requires 0 <= i < |s| => LowerChar(s[i]))
  }

  const UPPER_CASE := "ABCDEFGHIJKLMNOPQRSTUVWXYZ"
  const LOWER_CASE := "abcdefghijklmnopqrstuvwxyz"

  /** Equal, or the upper and the lower case of one letter. */
  predicate SameLetter(a: char, b: char) {
    a == b || exists i :: 0 <= i < 26 && {a, b} == {UPPER_CASE[i], LOWER_CASE[i]}
  }

  /** The names differ in nothing but the case of letters. */
  predicate SameButCase(a: string, b: string) {
    |a| == |b| && forall i :: 0 <= i < |a| ==> SameLetter(a[i], b[i])
  }

  lemma LetterCodes(i: nat)
    requires i < 26
    ensures UPPER_CASE[i] as int == 'A' as int + i && LOWER_CASE[i] as int == 'a' as int + i
  {
  }

  /** Lower-casing turns each of the 26 letters into its small one and keeps everything else. */
  lemma LowerCharIs(c: char)
    ensures forall i :: 0 <= i < 26 ==> LowerChar(UPPER_CASE[i]) == LOWER_CASE[i]
    ensures c !in UPPER_CASE ==> LowerChar(c) == c
  {
    forall i | 0 <= i < 26 ensures LowerChar(UPPER_CASE[i]) == LOWER_CASE[i] {
      LetterCodes(i);
    }
    if 'A' <= c <= 'Z' {
      LetterCodes(c as int - 'A' as int);
      assert UPPER_CASE[c as int - 'A' as int] == c;
    }
  }

  lemma LettersFold(a: char, b: char, i: nat)
    requires i < 26 && {a, b} == {UPPER_CASE[i], LOWER_CASE[i]}
    ensures LowerChar(a) == LowerChar(b)
  {
    LetterCodes(i);
    LowerCharIs(LOWER_CASE[i]);
    assert a in {UPPER_CASE[i], LOWER_CASE[i]} && b in {UPPER_CASE[i], LOWER_CASE[i]};
  }

  lemma FoldedToSmall(a: char, b: char)
    requires 'A' <= a <= 'Z' && a != b && LowerChar(a) == LowerChar(b)
    ensures SameLetter(a, b) && SameLetter(b, a)
  {
    var i := a as int - 'A' as int;
    LetterCodes(i);
    assert UPPER_CASE[i] == a && LOWER_CASE[i] == b;
    assert {a, b} == {UPPER_CASE[i], LOWER_CASE[i]} == {b, a};
  }

  lemma LowerCharFolds(a: char, b: char)
    ensures LowerChar(a) == LowerChar(b) <==> SameLetter(a, b)
  {
    if LowerChar(a) == LowerChar(b) && a != b {
      if 'A' <= a <= 'Z' {
        FoldedToSmall(a, b);
      } else {
        FoldedToSmall(b, a);
      }
    }
    if i :| 0 <= i < 26 && {a, b} == {UPPER_CASE[i], LOWER_CASE[i]} {
      LettersFold(a, b, i);
    }
  }

  /** Two names have the same lower-case form exactly if only the case of letters differs. */
  lemma LowerFolds(a: string, b: string)
    ensures Lower(a) == Lower(b) <==> SameButCase(a, b)
  {
    forall i | 0 <= i < |a| && i < |b| ensures LowerChar(a[i]) == LowerChar(b[i]) <==> SameLetter(a[i], b[i]) {
      LowerCharFolds(a[i], b[i]);
    }
    if Lower(a) == Lower(b) {
      forall i | 0 <= i < |a| ensures SameLetter(a[i], b[i]) {
        assert Lower(a)[i] == Lower(b)[i];
      }
    }
  }

  lemma ReverseTwice<T>(s: seq<T>)
    ensures Reverse(Reverse(s)) == s
  {
  }

  lemma ReverseConcat(a: string, b: string)
    ensures Reverse(a + b) == Reverse(b) + Reverse(a)
  {
  }

  /** Byte-wise lexicographic order, strict. */
  predicate Less(a: string, b: string) {
    b != "" && (a == "" || a[0] < b[0] || (a[0] == b[0] && Less(a[1..], b[1..])))
  }

  lemma {:induction false} LessTotal(a: string, b: string)
    ensures a == b || Less(a, b) || Less(b, a)
  {
    if a != "" && b != "" && a[0] == b[0] {
      LessTotal(a[1..], b[1..]);
      assert a == [a[0]] + a[1..] && b == [b[0]] + b[1..];
    }
  }

  lemma {:induction false} LessTransitive(a: string, b: string, c: string)
    requires Less(a, b) && Less(b, c)
    ensures Less(a, c)
  {
    if a != "" && a[0] == b[0] == c[0] {
      LessTransitive(a[1..], b[1..], c[1..]);
    }
  }

  /** Two ordered strings that agree on `n` bytes are ordered by what follows. */
  lemma {:induction false} LessAfterCommonPrefix(a: string, b: string, n: nat)
    requires Less(a, b)
    requires n <= |a| && n <= |b| && a[..n] == b[..n]
    ensures n < |b|
    ensures n < |a| ==> a[n] <= b[n]
  {
    if n > 0 {
      assert a[0] == a[..n][0] == b[..n][0] == b[0];
      assert a[1..][..n - 1] == a[..n][1..] == b[..n][1..] == b[1..][..n - 1];
      LessAfterCommonPrefix(a[1..], b[1..], n - 1);
    }
  }

  /** Cutting ordered strings to `n` bytes keeps their order unless it makes them equal. */
  lemma {:induction false} LessTruncated(a: string, b: string, n: nat)
    requires Less(a, b) && n <= |a| && n <= |b| && a[..n] != b[..n]
    ensures Less(a[..n], b[..n])
  {
    if n > 0 && a[0] == b[0] {
      assert a[..n] == [a[0]] + a[1..][..n - 1] && b[..n] == [b[0]] + b[1..][..n - 1];
      LessTruncated(a[1..], b[1..], n - 1);
    }
  }

  ghost predicate StrictlySorted(keys: seq<string>) {
    forall i, j :: 0 <= i < j < |keys| ==> Less(keys[i], keys[j])
  }

  ghost predicate NoDuplicates<T>(s: seq<T>) {
    forall i, j :: 0 <= i < j < |s| ==> s[i] != s[j]
  }

  /** A sequence without duplicates is no longer than the set it draws from. */
  lemma {:induction false} DistinctFit<T>(w: seq<T>, s: set<T>)
    requires NoDuplicates(w) && forall x :: x in w ==> x in s
    ensures |w| <= |s|
  {
    if w != [] {
      forall x | x in w[1..] ensures x in s - {w[0]} {
        var i :| 0 <= i < |w[1..]| && w[1..][i] == x;
        assert w[i + 1] == x;
      }
      DistinctFit(w[1..], s - {w[0]});
    }
  }

  function InsertSorted(k: string, s: seq<string>): (r: seq<string>)
    ensures multiset(r) == multiset(s) + multiset{k}
  {
    if s == [] then [k]
    else if Less(s[0], k) then
      assert s == [s[0]] + s[1..];
      [s[0]] + InsertSorted(k, s[1..])
    else [k] + s
  }

  /** Sorts into ascending byte order. */
  function Sort(s: seq<string>): (r: seq<string>)
    ensures multiset(r) == multiset(s)
  {
    if s == [] then []
    else
      assert s == [s[0]] + s[1..];
      InsertSorted(s[0], Sort(s[1..]))
  }

  lemma SameMembers<T>(a: seq<T>, b: seq<T>, x: T)
    requires multiset(a) == multiset(b)
    ensures x in a <==> x in b
  {
    assert x in multiset(a) <==> x in multiset(b);
  }

  // ---------------------------------------------------------------- lists with repetitions

  ghost predicate WeaklySorted(keys: seq<string>) {
    forall i, j :: 0 <= i < j < |keys| ==> keys[i] == keys[j] || Less(keys[i], keys[j])
  }

  lemma {:induction false} InsertSortedKeepsWeakOrder(k: string, s: seq<string>)
    requires WeaklySorted(s)
    ensures WeaklySorted(InsertSorted(k, s))
  {
    if s != [] {
      if Less(s[0], k) {
        InsertSortedKeepsWeakOrder(k, s[1..]);
        var t := InsertSorted(k, s[1..]);
        forall x | x in t ensures s[0] == x || Less(s[0], x) {
          SameMembers(t, s[1..] + [k], x);
        }
      } else {
        LessTotal(s[0], k);
        forall x | x in s ensures k == x || Less(k, x) {
          if x != s[0] && k != s[0] { LessTransitive(k, s[0], x); }
        }
      }
    }
  }

  lemma {:induction false} SortSortsWeakly(s: seq<string>)
    ensures WeaklySorted(Sort(s))
  {
    if s != [] {
      SortSortsWeakly(s[1..]);
      InsertSortedKeepsWeakOrder(s[0], Sort(s[1..]));
    }
  }

  lemma {:induction false} DistinctMeansOnce<T>(s: seq<T>)
    ensures NoDuplicates(s) <==> forall x :: x in s ==> multiset(s)[x] == 1
  {
    if s != [] {
      var rest := s[1..];
      DistinctMeansOnce(rest);
      assert s == [s[0]] + rest;
      if NoDuplicates(s) {
        forall x | x in s ensures multiset(s)[x] == 1 {
          assert x in rest ==> multiset(rest)[x] == 1;
        }
      }
      if forall x :: x in s ==> multiset(s)[x] == 1 {
        forall x | x in rest ensures multiset(rest)[x] == 1 {
          assert x in s && multiset(s)[x] == 1;
        }
        assert multiset(s)[s[0]] == 1;
        assert s[0] !in rest;
      }
    }
  }

  /** Sorting neither adds repetitions nor removes them. */
  lemma SortKeepsDistinct(s: seq<string>)
    ensures NoDuplicates(Sort(s)) <==> NoDuplicates(s)
  {
    DistinctMeansOnce(s);
    DistinctMeansOnce(Sort(s));
    forall x ensures x in Sort(s) <==> x in s {
      SameMembers(Sort(s), s, x);
    }
  }

  lemma StrictIsWeakAndDistinct(keys: seq<string>)
    ensures StrictlySorted(keys) <==> WeaklySorted(keys) && NoDuplicates(keys)
  {
    if StrictlySorted(keys) {
      forall i, j | 0 <= i < j < |keys| ensures keys[i] != keys[j] {
        ExtensionIsNotLess(keys[i], keys[i]);
      }
    }
  }

  lemma {:induction false} ExtensionIsNotLess(k: string, a: string)
    requires k <= a
    ensures !Less(a, k)
  {
    if k != "" {
      assert k[1..] <= a[1..];
      ExtensionIsNotLess(k[1..], a[1..]);
    }
  }
}
