/** The domain set built from a trie answers like the trie's search. */
module DomainSetRefinement {
  import opened Text
  import opened DomainPatterns
  import opened DomainSetKeys
  import opened DomainSets
  import opened DomainSetWalks
  import opened DomainTries
  import opened Wrappers

  /** A label of ordinary host name bytes. */
  ghost predicate HostLabel(l: string) {
    l != "" && '.' !in l && '+' !in l && '*' !in l
  }

  /** A pattern whose only special label is a leading dot in front of other labels. */
  ghost predicate PlainPath(x: Path) {
    && x != []
    && (forall i :: 0 <= i < |x| - 1 ==> HostLabel(x[i]))
    && (HostLabel(x[|x| - 1]) || (|x| > 1 && x[|x| - 1] == DOT_WILDCARD))
  }

  ghost predicate PlainSet(stored: set<Path>) {
    forall x :: x in stored ==> PlainPath(x)
  }

  /** The patterns a plain trie is built from. */
  ghost predicate PlainPattern(parts: seq<string>) {
    && parts != []
    && (forall i :: 0 < i < |parts| ==> HostLabel(parts[i]))
    && (HostLabel(parts[0]) || (|parts| > 1 && (parts[0] == DOT_WILDCARD || parts[0] == COMPLEX_WILDCARD)))
  }

  lemma InsertKeepsPlain<T>(stored: map<Path, T>, parts: seq<string>, data: T)
    requires PlainSet(stored.Keys) && PlainPattern(parts)
    ensures PlainSet(InsertInto(stored, parts, data).Keys)
  {
    forall x | x in InsertInto(stored, parts, data) && x !in stored ensures PlainPath(x) {
      assert HostLabel(parts[|parts| - 1]);
    }
  }

  ghost predicate HostPath(q: Path) {
    q != [] && forall l :: l in q ==> HostLabel(l)
  }

  /** A label of the query, not the rightmost, ends in a byte below `+`. */
  predicate EndsLow(q: Path, j: nat) {
    0 < j < |q| && q[j] != "" && q[j][|q[j]| - 1] < '+'
  }

  /** The condition on a query under which the set never skips a `+` edge. */
  ghost predicate EndsHigh(q: Path) {
    forall j :: !EndsLow(q, j)
  }

  ghost predicate TrieMatches(stored: set<Path>, q: Path) {
    exists x :: x in stored && Matches(x, q)
  }

  // ---------------------------------------------------------------- keys of paths

  function ReverseEach(q: Path): (r: seq<string>)
    ensures |r| == |q| && forall i :: 0 <= i < |q| ==> r[i] == Reverse(q[i])
  {
    seq(|q|, i requires 0 <= i < |q| => Reverse(q[i]))
  }

  lemma {:induction false} JoinSnoc(a: seq<string>, l: string)
    requires a != []
    ensures Join(a + [l]) == Join(a) + "." + l
  {
    if |a| > 1 {
      assert (a + [l])[1..] == a[1..] + [l];
      JoinSnoc(a[1..], l);
    } else {
      assert (a + [l])[1..] == [l];
    }
  }

  lemma {:induction false} ReverseJoin(parts: seq<string>)
    requires parts != []
    ensures Reverse(Join(parts)) == Join(ReverseEach(ReverseLabels(parts)))
  {
    var whole := ReverseEach(ReverseLabels(parts));
    if |parts| == 1 {
      assert whole == [Reverse(parts[0])];
    } else {
      var rest := ReverseEach(ReverseLabels(parts[1..]));
      ReverseJoin(parts[1..]);
      assert whole == rest + [Reverse(parts[0])];
      JoinSnoc(rest, Reverse(parts[0]));
      ReverseConcat(parts[0] + ".", Join(parts[1..]));
      ReverseConcat(parts[0], ".");
    }
  }

  lemma ReverseKeepsBytes(s: string, c: char)
    ensures c in Reverse(s) <==> c in s
  {
    if c in s {
      var i :| 0 <= i < |s| && s[i] == c;
      assert Reverse(s)[|s| - 1 - i] == c;
    }
  }

  lemma HostEach(q: Path)
    requires HostPath(q)
    ensures NoDots(ReverseEach(q))
    ensures forall l :: l in ReverseEach(q) ==> l != "" && '+' !in l && '*' !in l
  {
    forall l | l in ReverseEach(q) ensures l != "" && '.' !in l && '+' !in l && '*' !in l {
      var i :| 0 <= i < |q| && l == Reverse(q[i]);
      assert q[i] in q && HostLabel(q[i]);
      ReverseKeepsBytes(q[i], '.');
      ReverseKeepsBytes(q[i], '+');
      ReverseKeepsBytes(q[i], '*');
    }
  }

  lemma {:induction false} JoinKeepsBytes(parts: seq<string>, c: char)
    requires c != '.' && forall l :: l in parts ==> c !in l
    ensures c !in Join(parts)
  {
    if |parts| == 1 {
      assert parts[0] in parts;
    } else if |parts| > 1 {
      assert parts[0] in parts;
      JoinKeepsBytes(parts[1..], c);
    }
  }

  /** A pattern without leading dot has the joined labels as its key. */
  lemma HostKey(x: Path)
    requires HostPath(x)
    ensures KeyOf(x) == Join(ReverseEach(x))
    ensures '+' !in KeyOf(x) && '*' !in KeyOf(x)
  {
    var parts := ReverseLabels(x);
    assert ReverseLabels(parts) == x;
    ReverseJoin(parts);
    HostEach(x);
    JoinKeepsBytes(ReverseEach(x), '+');
    JoinKeepsBytes(ReverseEach(x), '*');
    assert parts[0] in x && HostLabel(parts[0]);
    assert Join(parts)[0] == parts[0][0] != '.';
  }

  lemma DotDisplay(y: Path)
    requires y != []
    ensures Display(y + [DOT_WILDCARD]) == "+" + ("." + Join(ReverseLabels(y)))
  {
    var parts := ReverseLabels(y);
    assert ReverseLabels(y + [DOT_WILDCARD]) == [""] + parts;
    assert ([""] + parts)[1..] == parts;
  }

  /** A leading-dot pattern has the joined labels and `.+` as its key. */
  lemma DotKey(y: Path)
    requires HostPath(y)
    ensures KeyOf(y + [DOT_WILDCARD]) == Join(ReverseEach(y)) + ".+"
    ensures '+' !in Join(ReverseEach(y)) && '*' !in KeyOf(y + [DOT_WILDCARD])
  {
    var parts := ReverseLabels(y);
    assert ReverseLabels(parts) == y;
    ReverseJoin(parts);
    HostEach(y);
    JoinKeepsBytes(ReverseEach(y), '+');
    JoinKeepsBytes(ReverseEach(y), '*');
    DotDisplay(y);
    ReverseDotPlus(Join(parts));
    assert '*' !in Join(ReverseEach(y)) + ".+";
  }

  lemma ReverseDotPlus(u: string)
    ensures Reverse("+" + ("." + u)) == Reverse(u) + ".+"
  {
    assert ("+" + ("." + u))[1..] == "." + u && ("." + u)[1..] == u;
  }

  lemma PrefixFromHead<T>(a: seq<T>, b: seq<T>)
    requires a != [] && b != []
    ensures a < b <==> a[0] == b[0] && a[1..] < b[1..]
  {
    assert a == [a[0]] + a[1..] && b == [b[0]] + b[1..];
  }

  /** Where one joined label list continues another after a dot, it has the same labels. */
  lemma {:induction false} JoinPrefix(a: seq<string>, b: seq<string>)
    requires a != [] && b != [] && NoDots(a) && NoDots(b)
    ensures Join(a) + "." <= Join(b) <==> a < b
  {
    assert a[0] in a && b[0] in b;
    PrefixFromHead(a, b);
    if |a| == 1 {
      FirstLabel(a[0], "", b);
      assert Join(a) + "." == a[0] + "." + "";
    } else {
      FirstLabel(a[0], Join(a[1..]) + ".", b);
      assert Join(a) + "." == a[0] + "." + (Join(a[1..]) + ".");
      if |b| > 1 {
        JoinPrefix(a[1..], b[1..]);
      }
    }
  }

  lemma FirstLabel(l: string, rest: string, b: seq<string>)
    requires b != [] && '.' !in l && '.' !in b[0]
    ensures l + "." + rest <= Join(b) <==> |b| > 1 && l == b[0] && rest <= Join(b[1..])
  {
    if |b| == 1 {
      assert (l + "." + rest)[|l|] == '.';
    } else {
      SamePrefixLabel(l, rest, b[0], Join(b[1..]));
    }
  }

  lemma SamePrefixLabel(l: string, rest: string, m: string, tail: string)
    requires '.' !in l && '.' !in m
    ensures l + "." + rest <= m + "." + tail <==> l == m && rest <= tail
  {
    var s, t := l + "." + rest, m + "." + tail;
    assert s[|l|] == '.' && t[|m|] == '.';
    assert s[..|l|] == l && t[..|m|] == m && s[|l| + 1..] == rest && t[|m| + 1..] == tail;
    if s <= t {
      FirstDot(s, t, l, m);
      assert t[|l| + 1..|s|] == rest;
    }
  }

  lemma FirstDot(s: string, t: string, l: string, m: string)
    requires s <= t && |l| < |s| && |m| < |t| && s[..|l|] == l && t[..|m|] == m
    requires '.' !in l && '.' !in m && s[|l|] == '.' == t[|m|]
    ensures l == m
  {
  }

  /** The two kinds of plain path. */
  lemma PlainKinds(x: Path)
    requires PlainPath(x)
    ensures x[|x| - 1] != DOT_WILDCARD ==> HostPath(x)
    ensures x[|x| - 1] == DOT_WILDCARD ==> HostPath(x[..|x| - 1]) && x == x[..|x| - 1] + [DOT_WILDCARD]
  {
  }

  /** Plain patterns are stored paths, and no two of them are twins. */
  lemma PlainIsStored(stored: set<Path>)
    requires PlainSet(stored)
    ensures StoredSet(stored) && NoTwins(stored)
  {
    forall x | x in stored ensures StoredPath(x) {
      assert PlainPath(x);
    }
    forall x: Path | x != [] ensures x + [COMPLEX_WILDCARD] !in stored {
      assert '+' in COMPLEX_WILDCARD;
    }
  }

  lemma PlainKeysDistinct(x: Path, y: Path)
    requires PlainPath(x) && PlainPath(y) && KeyOf(x) == KeyOf(y)
    ensures x == y
  {
    PlainIsStored({x, y});
    if x != y {
      DifferentKeys(x, y, {x, y});
    }
  }

  // ---------------------------------------------------------------- queries

  function QueryText(q: Path): string {
    Join(ReverseEach(q))
  }

  /** The set walks the reversed query, which is the joined reversed labels. */
  lemma QueryIsText(domain: string)
    requires QueryPath(domain).Some? && '+' !in domain && '*' !in domain
    ensures var q := QueryPath(domain).value;
            HostPath(q) && Lower(Reverse(domain)) == QueryText(q)
  {
    var parts := Split(Lower(domain));
    assert Lower(Reverse(domain)) == Reverse(Lower(domain));
    JoinSplit(Lower(domain));
    ReverseJoin(parts);
    SplitHasNoDots(Lower(domain));
    assert '+' !in Lower(domain) && '*' !in Lower(domain);
    forall l | l in QueryPath(domain).value ensures HostLabel(l) {
      assert l in parts;
      LabelBytes(Lower(domain), l, '+');
      LabelBytes(Lower(domain), l, '*');
      assert l == parts[0] || l in parts[1..];
    }
  }

  lemma {:induction false} LabelBytes(s: string, l: string, c: char)
    requires l in Split(s) && c !in s
    ensures c !in l
  {
    if s != "" {
      var rest := Split(s[1..]);
      if l in rest {
        LabelBytes(s[1..], l, c);
      } else if s[0] != '.' {
        LabelBytes(s[1..], rest[0], c);
      }
    }
  }

  /** A plain path matches a host query by equality, or as a leading dot on a proper prefix. */
  lemma PlainMatches(x: Path, q: Path)
    requires PlainPath(x) && HostPath(q)
    ensures Matches(x, q) <==> x == q || (x[|x| - 1] == DOT_WILDCARD && x[..|x| - 1] < q)
  {
    PlainKinds(x);
    var init := x[..|x| - 1];
    if x[|x| - 1] == DOT_WILDCARD {
      if |x| == |q| {
        assert q[|x| - 1] in q && HostLabel(q[|x| - 1]);
        assert x[|x| - 1] != q[|x| - 1] && !LabelMatches(x[|x| - 1], q[|x| - 1]);
      }
      if |x| <= |q| {
        HostCovers(init, q[..|x| - 1]);
      }
      assert init < q <==> |x| <= |q| && init == q[..|x| - 1];
    } else {
      HostCovers(x, q);
    }
  }

  lemma HostCovers(x: Path, q: Path)
    requires HostPath(x)
    ensures Covers(x, q) <==> x == q
  {
    if Covers(x, q) {
      forall i | 0 <= i < |x| ensures x[i] == q[i] {
        assert x[i] in x && HostLabel(x[i]) && LabelMatches(x[i], q[i]);
        assert WILDCARD[0] in WILDCARD;
      }
    }
  }

  /** A joined list is the joined prefix, a dot, and the joined rest. */
  lemma {:induction false} JoinRest(a: seq<string>, b: seq<string>)
    requires a != [] && a < b
    ensures Join(b) == Join(a) + ("." + Join(b[|a|..]))
  {
    assert b[0] == a[0];
    if |a| > 1 {
      JoinRest(a[1..], b[1..]);
      assert b[1..][|a| - 1..] == b[|a|..];
      assert Join(b) == a[0] + "." + (Join(a[1..]) + ("." + Join(b[|a|..])));
    } else {
      assert Join(b) == a[0] + "." + Join(b[1..]);
    }
  }

  /** After the labels of a proper prefix and a dot comes the next label's first byte. */
  lemma JoinNext(a: seq<string>, b: seq<string>)
    requires a != [] && a < b && b[|a|] != ""
    ensures |Join(b)| > |Join(a)| + 1
    ensures Join(b)[..|Join(a)| + 1] == Join(a) + "." && Join(b)[|Join(a)| + 1] == b[|a|][0]
  {
    JoinRest(a, b);
    assert Join(b[|a|..])[0] == b[|a|][0];
  }

  /** A `+` edge below a cut of the query text comes from a leading-dot pattern whose
      labels are a proper prefix of the query's. */
  lemma PlusEdgeIsDotPattern(stored: set<Path>, keys: seq<string>, q: Path, i: nat) returns (y: Path)
    requires PlainSet(stored) && KeysFor(keys, stored) && HostPath(q) && i < |QueryText(q)|
    requires SomeKeyExtends(keys, QueryText(q)[..i] + "+")
    ensures y + [DOT_WILDCARD] in stored && HostPath(y) && y < q && i == |QueryText(y)| + 1
  {
    var text := QueryText(q);
    y := PlusEdgeSource(stored, keys, text[..i]);
    assert QueryText(y) + "." <= text;
    HostEach(y);
    HostEach(q);
    JoinPrefix(ReverseEach(y), ReverseEach(q));
    EachPrefix(y, q);
  }

  lemma PlusEdgeSource(stored: set<Path>, keys: seq<string>, p: string) returns (y: Path)
    requires PlainSet(stored) && KeysFor(keys, stored) && SomeKeyExtends(keys, p + "+")
    ensures y + [DOT_WILDCARD] in stored && HostPath(y) && p == QueryText(y) + "."
  {
    var k :| k in keys && p + "+" <= k;
    var x :| x in stored && x != [] && KeyOf(x) == k;
    PlusAfter(p, k);
    y := PlusKeyKind(x, k);
    PlusPosition(QueryText(y), k, |p|);
  }

  lemma PlusAfter(p: string, k: string)
    requires p + "+" <= k
    ensures |p| < |k| && k[|p|] == '+' && k[..|p|] == p
  {
    assert (p + "+")[|p|] == '+';
  }

  lemma PlusKeyKind(x: Path, k: string) returns (y: Path)
    requires PlainPath(x) && k == KeyOf(x) && '+' in k
    ensures HostPath(y) && x == y + [DOT_WILDCARD]
    ensures k == QueryText(y) + ".+" && '+' !in QueryText(y)
  {
    PlainKinds(x);
    if x[|x| - 1] != DOT_WILDCARD {
      HostKey(x);
    }
    y := x[..|x| - 1];
    DotKey(y);
  }

  lemma PlusPosition(u: string, k: string, i: nat)
    requires k == u + ".+" && '+' !in u && i < |k| && k[i] == '+'
    ensures i == |u| + 1 && k[..i] == u + "."
  {
    assert k[..|u| + 1] == u + ".";
  }

  lemma EachPrefix(y: Path, q: Path)
    requires ReverseEach(y) < ReverseEach(q)
    ensures y < q
  {
    forall i | 0 <= i < |y| ensures y[i] == q[i] {
      assert ReverseEach(y)[i] == ReverseEach(q)[i];
      ReverseTwice(y[i]);
      ReverseTwice(q[i]);
    }
  }

  /** A leading-dot pattern on a proper prefix of the query puts a `+` edge below it. */
  lemma DotPatternHasPlusEdge(stored: set<Path>, keys: seq<string>, q: Path, y: Path)
    requires KeysFor(keys, stored) && HostPath(q) && HostPath(y) && y < q && y + [DOT_WILDCARD] in stored
    ensures var text, i := QueryText(q), |QueryText(y)| + 1;
            && i < |text| && text[..i] == QueryText(y) + "."
            && SomeKeyExtends(keys, text[..i] + "+")
            && q[|y|] != "" && text[i] == q[|y|][|q[|y|]| - 1]
  {
    NextLabelInText(y, q);
    DotKey(y);
  }

  /** The text of a longer query goes on with a dot and the last byte of the next label. */
  lemma NextLabelInText(y: Path, q: Path)
    requires HostPath(q) && HostPath(y) && y < q
    ensures var text, i := QueryText(q), |QueryText(y)| + 1;
            && i < |text| && text[..i] == QueryText(y) + "."
            && q[|y|] != "" && text[i] == q[|y|][|q[|y|]| - 1]
  {
    assert q[|y|] in q && HostLabel(q[|y|]);
    assert ReverseEach(y) < ReverseEach(q);
    JoinNext(ReverseEach(y), ReverseEach(q));
  }

  lemma TextIsKey(stored: set<Path>, keys: seq<string>, q: Path)
    requires PlainSet(stored) && KeysFor(keys, stored) && HostPath(q)
    ensures QueryText(q) in keys <==> q in stored
  {
    HostKey(q);
    if QueryText(q) in keys {
      var x :| x in stored && x != [] && KeyOf(x) == QueryText(q);
      HostIsPlain(q);
      PlainKeysDistinct(x, q);
    }
  }

  /** For queries whose labels end high, the set's answer is the trie's. */
  lemma SetRefinesTrie(stored: set<Path>, keys: seq<string>, q: Path)
    requires PlainSet(stored) && KeysFor(keys, stored) && HostPath(q) && EndsHigh(q)
    ensures SetMatches(keys, QueryText(q)) <==> TrieMatches(stored, q)
  {
    TextIsKey(stored, keys, q);
    HostIsPlain(q);
    PlainMatches(q, q);
    if i :| 0 <= i < |QueryText(q)| && PlusHit(keys, QueryText(q), i) {
      var y := PlusEdgeIsDotPattern(stored, keys, q, i);
      DotMatches(y, q);
    }
    if x :| x in stored && x != q && Matches(x, q) {
      DotPatternIsHit(stored, keys, q, x);
    }
  }

  lemma DotPatternIsHit(stored: set<Path>, keys: seq<string>, q: Path, x: Path)
    requires PlainSet(stored) && KeysFor(keys, stored) && HostPath(q) && EndsHigh(q)
    requires x in stored && x != q && Matches(x, q)
    ensures SetMatches(keys, QueryText(q))
  {
    var y := MatchIsDot(x, q);
    DotPatternHasPlusEdge(stored, keys, q, y);
    assert !EndsLow(q, |y|);
    assert PlusHit(keys, QueryText(q), |QueryText(y)| + 1);
  }

  lemma HostIsPlain(q: Path)
    requires HostPath(q)
    ensures PlainPath(q)
  {
    forall i | 0 <= i < |q| ensures HostLabel(q[i]) {
      assert q[i] in q;
    }
  }

  lemma DotMatches(y: Path, q: Path)
    requires HostPath(y) && HostPath(q) && y < q
    ensures Matches(y + [DOT_WILDCARD], q)
  {
    var x := y + [DOT_WILDCARD];
    assert x[..|x| - 1] == y;
    HostIsPlain(y);
    PlainMatches(x, q);
  }

  lemma MatchIsDot(x: Path, q: Path) returns (y: Path)
    requires PlainPath(x) && HostPath(q) && x != q && Matches(x, q)
    ensures HostPath(y) && y < q && x == y + [DOT_WILDCARD]
  {
    PlainMatches(x, q);
    PlainKinds(x);
    y := x[..|x| - 1];
  }

  // ---------------------------------------------------------------- when the two differ

  /** A label that ends in a byte below `+` makes the scan skip the `+` edge: with a
      leading-dot pattern and one longer label ending in the same byte, the set misses a
      query that the trie finds. */
  lemma LowByteDisagrees(q: Path, j: nat) returns (stored: set<Path>, keys: seq<string>)
    requires HostPath(q) && EndsLow(q, j)
    ensures PlainSet(stored) && KeysFor(keys, stored)
    ensures TrieMatches(stored, q) && !SetMatches(keys, QueryText(q))
  {
    var dot, longer := q[..j] + [DOT_WILDCARD], q[..j] + [LongerLabel(q[j])];
    stored, keys := {dot, longer}, [KeyOf(dot), KeyOf(longer)];
    KeysForTwo(dot, longer);
    LowByteSkips(q, j, stored, keys);
  }

  /** So it is for every set of these two patterns. */
  lemma LowByteSkips(q: Path, j: nat, stored: set<Path>, keys: seq<string>)
    requires HostPath(q) && EndsLow(q, j)
    requires stored == {q[..j] + [DOT_WILDCARD], q[..j] + [LongerLabel(q[j])]} && KeysFor(keys, stored)
    ensures PlainSet(stored) && TrieMatches(stored, q) && !SetMatches(keys, QueryText(q))
  {
    assert q[j] in q && HostLabel(q[j]);
    LongerIsHost(q[j]);
    HostPrefix(q, j, LongerLabel(q[j]));
    TwoPatterns(q[..j], LongerLabel(q[j]));
    DotMatches(q[..j], q);
    LowByteMisses(stored, keys, q, q[..j], LongerLabel(q[j]));
  }

  function LongerLabel(part: string): string {
    "a" + part
  }

  lemma LongerIsHost(part: string)
    requires HostLabel(part)
    ensures var w := LongerLabel(part);
            HostLabel(w) && w != "" && w != part && w[|w| - 1] == part[|part| - 1]
  {
  }

  lemma LowByteMisses(stored: set<Path>, keys: seq<string>, q: Path, y: Path, w: string)
    requires PlainSet(stored) && KeysFor(keys, stored) && stored == {y + [DOT_WILDCARD], y + [w]}
    requires HostPath(q) && HostPath(y) && HostPath(y + [w]) && y < q && q[|y|] != "" && w != ""
    requires w != q[|y|] && w[|w| - 1] == q[|y|][|q[|y|]| - 1] < '+'
    ensures !SetMatches(keys, QueryText(q))
  {
    TextIsKey(stored, keys, q);
    NeitherIsQuery(q, y, w);
    SkippedPlus(stored, keys, q, y, w);
    forall i | 0 <= i < |QueryText(q)| ensures !PlusHit(keys, QueryText(q), i) {
      if SomeKeyExtends(keys, QueryText(q)[..i] + "+") {
        PlusOnlyAt(stored, keys, q, y, w, i);
      }
    }
  }

  lemma NeitherIsQuery(q: Path, y: Path, w: string)
    requires |y| < |q| && q[|y|] != "" && w != q[|y|]
    ensures q !in {y + [DOT_WILDCARD], y + [w]}
  {
    assert (y + [w])[|y|] == w && (y + [DOT_WILDCARD])[|y|] == DOT_WILDCARD;
  }

  lemma PlusOnlyAt(stored: set<Path>, keys: seq<string>, q: Path, y: Path, w: string, i: nat)
    requires PlainSet(stored) && KeysFor(keys, stored) && stored == {y + [DOT_WILDCARD], y + [w]}
    requires HostPath(q) && w != "" && i < |QueryText(q)|
    requires SomeKeyExtends(keys, QueryText(q)[..i] + "+")
    ensures i == |QueryText(y)| + 1
  {
    var y' := PlusEdgeIsDotPattern(stored, keys, q, i);
    SameDotPattern(stored, y', y, w);
  }

  lemma HostPrefix(q: Path, j: nat, w: string)
    requires HostPath(q) && 0 < j <= |q| && HostLabel(w)
    ensures HostPath(q[..j]) && HostPath(q[..j] + [w])
  {
    forall l | l in q[..j] + [w] ensures HostLabel(l) {
      assert l == w || l in q;
    }
  }

  lemma TwoPatterns(y: Path, w: string)
    requires HostPath(y) && HostPath(y + [w])
    ensures PlainSet({y + [DOT_WILDCARD], y + [w]})
  {
    HostIsPlain(y);
    HostIsPlain(y + [w]);
    PlainTwo(y + [DOT_WILDCARD], y + [w]);
  }

  lemma PlainTwo(a: Path, b: Path)
    requires PlainPath(a) && PlainPath(b)
    ensures PlainSet({a, b})
  {
  }

  lemma KeysForTwo(a: Path, b: Path)
    requires a != [] && b != []
    ensures KeysFor([KeyOf(a), KeyOf(b)], {a, b})
  {
    var ka, kb := KeyOf(a), KeyOf(b);
    assert ka in [ka, kb] && kb in [ka, kb];
  }

  lemma SameDotPattern(stored: set<Path>, x: Path, y: Path, w: string)
    requires stored == {y + [DOT_WILDCARD], y + [w]} && x + [DOT_WILDCARD] in stored && w != ""
    ensures x == y
  {
    var dot := x + [DOT_WILDCARD];
    assert dot[|dot| - 1] == DOT_WILDCARD && dot[..|dot| - 1] == x;
    assert (y + [DOT_WILDCARD])[..|y|] == y;
  }

  /** The label `w` ends like the query's next label, so the set has the edge for it. */
  lemma SkippedPlus(stored: set<Path>, keys: seq<string>, q: Path, y: Path, w: string)
    requires KeysFor(keys, stored) && HostPath(q) && HostPath(y) && HostPath(y + [w]) && y < q
    requires y + [DOT_WILDCARD] in stored && y + [w] in stored && q[|y|] != "" && w != ""
    requires w[|w| - 1] == q[|y|][|q[|y|]| - 1] < '+'
    ensures |QueryText(y)| + 1 < |QueryText(q)| && !PlusHit(keys, QueryText(q), |QueryText(y)| + 1)
  {
    DotPatternHasPlusEdge(stored, keys, q, y);
    var k := LongerKey(y, w);
    assert k in keys;
    SharedCut(keys, k, QueryText(q), |QueryText(y)| + 1);
  }

  lemma LongerKey(y: Path, w: string) returns (k: string)
    requires HostPath(y) && HostPath(y + [w]) && w != ""
    ensures k == KeyOf(y + [w])
    ensures |k| > |QueryText(y)| + 1 && k[..|QueryText(y)| + 1] == QueryText(y) + "."
    ensures k[|QueryText(y)| + 1] == w[|w| - 1]
  {
    var longer := y + [w];
    HostKey(longer);
    assert ReverseEach(y) < ReverseEach(longer) && ReverseEach(longer)[|y|] == Reverse(w);
    JoinNext(ReverseEach(y), ReverseEach(longer));
    k := KeyOf(longer);
  }

  lemma SharedCut(keys: seq<string>, k: string, text: string, i: nat)
    requires k in keys && i < |k| && i < |text| && k[..i] == text[..i] && k[i] == text[i]
    ensures SomeKeyExtends(keys, text[..i + 1])
  {
    assert text[..i + 1] == k[..i + 1];
  }

  ghost predicate AgreesEverywhere(q: Path) {
    forall stored, keys :: PlainSet(stored) && KeysFor(keys, stored) ==>
      (SetMatches(keys, QueryText(q)) <==> TrieMatches(stored, q))
  }

  /** The set and the trie agree on a query for all plain patterns exactly when every label
      of the query but the rightmost ends in a byte that is not below `+`. */
  lemma AgreementCondition(q: Path)
    requires HostPath(q)
    ensures AgreesEverywhere(q) <==> EndsHigh(q)
  {
    if EndsHigh(q) {
      forall stored, keys | PlainSet(stored) && KeysFor(keys, stored)
        ensures SetMatches(keys, QueryText(q)) <==> TrieMatches(stored, q)
      {
        SetRefinesTrie(stored, keys, q);
      }
    } else {
      var j :| EndsLow(q, j);
      var stored, keys := LowByteDisagrees(q, j);
    }
  }

  // ---------------------------------------------------------------- set and trie

  /** Keys of plain patterns hold no `*`. */
  lemma PlainKeysWithoutStar(keys: seq<string>, stored: set<Path>)
    requires PlainSet(stored) && KeysFor(keys, stored)
    ensures forall p :: !SomeKeyExtends(keys, p + [WILDCARD_BYTE])
  {
    forall p, k | k in keys && p + [WILDCARD_BYTE] <= k ensures false {
      assert k[|p|] == WILDCARD_BYTE;
      var x :| x in stored && x != [] && KeyOf(x) == k;
      PlainKinds(x);
      if x[|x| - 1] == DOT_WILDCARD {
        DotKey(x[..|x| - 1]);
      } else {
        HostKey(x);
      }
    }
  }

  /** A set built from the stored patterns answers `r` to the reversed query. */
  ghost predicate SetSays(stored: set<Path>, text: string, r: bool) {
    exists ss, keys :: IsSetOf(ss, keys) && KeysFor(keys, stored) && Answers(ss, keys, text, r)
  }

  lemma SomeKeysAnswer(stored: set<Path>, text: string, r: bool) returns (keys: seq<string>)
    requires SetSays(stored, text, r)
    ensures KeysFor(keys, stored) && KeysAnswer(keys, text, r)
  {
    var ss, ks :| IsSetOf(ss, ks) && KeysFor(ks, stored) && Answers(ss, ks, text, r);
    EncodingAnswersLikeKeys(ss, ks, text, r);
    keys := ks;
  }

  method AskSet<T(0)>(t: DomainTrie<T>, domain: string) returns (has: bool)
    requires t.Valid() && StoredSet(t.Stored().Keys) && NoTwins(t.Stored().Keys)
    ensures SetSays(t.Stored().Keys, Lower(Reverse(domain)), has)
  {
    var _, ss := DomainSetKeys.NewDomainSet(t);
    has := AskBuilt(ss, domain, t.Stored().Keys);
  }

  method AskBuilt(ss: Option<DomainSet>, domain: string, ghost stored: set<Path>) returns (has: bool)
    requires IsSetFor(ss, stored)
    ensures SetSays(stored, Lower(Reverse(domain)), has)
  {
    ghost var keys :| IsSetOf(ss, keys) && KeysFor(keys, stored);
    has := DomainSetWalks.Has(ss, domain, keys);
    SaysByKeys(ss, keys, stored, Lower(Reverse(domain)), has);
  }

  lemma SaysByKeys(ss: Option<DomainSet>, keys: seq<string>, stored: set<Path>, text: string, r: bool)
    requires IsSetOf(ss, keys) && KeysFor(keys, stored) && Answers(ss, keys, text, r)
    ensures SetSays(stored, text, r)
  {
  }

  method AskTrie<T(0)>(t: DomainTrie<T>, domain: string) returns (found: bool)
    requires t.Valid() && QueryPath(domain).Some?
    ensures found <==> TrieMatches(t.Stored().Keys, QueryPath(domain).value)
  {
    var node := t.Search(domain);
    found := node != null;
  }

  /** Builds the set of a trie and asks both. */
  method HasAndSearch<T(0)>(t: DomainTrie<T>, domain: string) returns (has: bool, found: bool)
    requires t.Valid() && StoredSet(t.Stored().Keys) && NoTwins(t.Stored().Keys) && QueryPath(domain).Some?
    ensures SetSays(t.Stored().Keys, Lower(Reverse(domain)), has)
    ensures found <==> TrieMatches(t.Stored().Keys, QueryPath(domain).value)
  {
    has := AskSet(t, domain);
    found := AskTrie(t, domain);
  }

  /** What the set of a plain trie answers, the trie's match says too. */
  lemma PlainAnswer(stored: set<Path>, q: Path, r: bool)
    requires PlainSet(stored) && HostPath(q) && EndsHigh(q) && SetSays(stored, QueryText(q), r)
    ensures r <==> TrieMatches(stored, q)
  {
    var keys := SomeKeysAnswer(stored, QueryText(q), r);
    PlainKeysWithoutStar(keys, stored);
    WithoutStars(keys, QueryText(q), r);
    SetRefinesTrie(stored, keys, q);
  }

  /** End to end: the set built from a plain trie answers a host name as the trie does. */
  method HasAgreesWithSearch<T(0)>(t: DomainTrie<T>, domain: string) returns (has: bool, found: bool)
    requires t.Valid() && PlainSet(t.Stored().Keys)
    requires QueryPath(domain).Some? && '+' !in domain && '*' !in domain && EndsHigh(QueryPath(domain).value)
    ensures found <==> TrieMatches(t.Stored().Keys, QueryPath(domain).value)
    ensures has <==> found
  {
    PlainIsStored(t.Stored().Keys);
    has, found := HasAndSearch(t, domain);
    QueryIsText(domain);
    PlainAnswer(t.Stored().Keys, QueryPath(domain).value, has);
  }
}
