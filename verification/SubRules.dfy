/** The check that sub-rule references are defined and do not go round in circles. */
module SubRules {
  import opened Wrappers
  import opened Text
  import opened Graphs

  datatype Rule = SubRule(adapter: string) | OtherRule

  type RuleSets = map<string, seq<Rule>>

  datatype Error = NotFound(at: string, index: nat, adapter: string) | Circular(path: seq<string>)

  ghost function References(s: RuleSets): Edges {
    set n, r | n in s && r in s[n] && r.SubRule? :: (n, r.adapter)
  }

  ghost predicate AllDefined(s: RuleSets) {
    forall n, i :: n in s && 0 <= i < |s[n]| && s[n][i].SubRule? ==> s[n][i].adapter in s
  }

  /** Every walk of references from `n` stays among the defined names and never meets
      itself or the path `arr`. */
  ghost predicate Clean(s: RuleSets, arr: seq<string>, n: string) {
    forall w {:trigger IsWalk(References(s), w)} ::
      IsWalk(References(s), w) && w[0] == n ==> w[|w| - 1] in s && NoDuplicates(arr + w)
  }

  /** An error shows a reference to an undefined name, or a walk that returns to itself. */
  ghost predicate IsEvidence(s: RuleSets, e: Error) {
    match e
    case NotFound(at, i, t) => at in s && i < |s[at]| && s[at][i] == SubRule(t) && t !in s
    case Circular(p) => |p| > 1 && IsWalk(References(s), p) && p[|p| - 1] in p[..|p| - 1]
  }

  /** The path that leads to a call: distinct defined names, each referencing the next. */
  ghost predicate GoodPath(s: RuleSets, path: seq<string>) {
    IsWalk(References(s), path) && NoDuplicates(path) && forall x :: x in path ==> x in s
  }

  ghost function Unvisited(s: RuleSets, path: seq<string>): set<string> {
    set x | x in s && x !in path
  }

  method VerifyCircularReferences(n: string, s: RuleSets, path: seq<string>) returns (r: Option<Error>)
    requires GoodPath(s, path + [n])
    ensures r.None? ==> Clean(s, path, n)
    ensures r.Some? ==> IsEvidence(s, r.value)
    decreases Unvisited(s, path)
  {
    var arr := path + [n];
    assert n in arr;
    for i := 0 to |s[n]|
      invariant forall k :: 0 <= k < i && s[n][k].SubRule? ==> TargetClean(s, arr, s[n][k].adapter)
    {
      var rule := s[n][i];
      if rule.SubRule? {
        var target := rule.adapter;
        if target !in s {
          return Some(NotFound(n, i, target));
        }
        assert rule in s[n] && (n, target) in References(s);
        WalkSnoc(References(s), arr, target);
        if target in arr {
          assert (arr + [target])[..|arr|] == arr;
          return Some(Circular(arr + [target]));
        }
        PathGrows(s, path, n, target);
        var err := VerifyCircularReferences(target, s, arr);
        if err.Some? {
          return err;
        }
      }
    }
    StepsAreClean(s, path, n);
    r := None;
  }

  ghost predicate TargetClean(s: RuleSets, arr: seq<string>, t: string) {
    t in s && t !in arr && Clean(s, arr, t)
  }

  lemma WalkSnoc(e: Edges, w: seq<string>, x: string)
    requires IsWalk(e, w) && (w[|w| - 1], x) in e
    ensures IsWalk(e, w + [x])
  {
    var v := w + [x];
    forall i | 0 <= i < |v| - 1 ensures (v[i], v[i + 1]) in e {
      if i < |w| - 1 {
        assert (w[i], w[i + 1]) in e;
      }
    }
  }

  lemma PathGrows(s: RuleSets, path: seq<string>, n: string, t: string)
    requires GoodPath(s, path + [n]) && t in s && t !in path + [n] && IsWalk(References(s), path + [n] + [t])
    ensures GoodPath(s, path + [n] + [t])
    ensures Unvisited(s, path + [n]) < Unvisited(s, path)
  {
    var arr := path + [n];
    assert arr[|path|] == n && n in arr;
    forall i | 0 <= i < |path| ensures path[i] != n {
      assert arr[i] != arr[|path|];
    }
    assert n in Unvisited(s, path) && n !in Unvisited(s, arr);
    assert forall x :: x in path ==> x in arr;
  }

  /** If all targets of `n` are clean, so is `n`. */
  lemma StepsAreClean(s: RuleSets, path: seq<string>, n: string)
    requires GoodPath(s, path + [n])
    requires forall k :: 0 <= k < |s[n]| && s[n][k].SubRule? ==> TargetClean(s, path + [n], s[n][k].adapter)
    ensures Clean(s, path, n)
  {
    var arr := path + [n];
    assert n in arr;
    forall w | IsWalk(References(s), w) && w[0] == n ensures w[|w| - 1] in s && NoDuplicates(path + w) {
      if |w| == 1 {
        assert path + w == arr;
      } else {
        assert (w[0], w[0 + 1]) in References(s);
        var r :| r in s[n] && r.SubRule? && r.adapter == w[1];
        var k :| 0 <= k < |s[n]| && s[n][k] == r;
        assert TargetClean(s, arr, w[1]);
        var rest := w[1..];
        WalkCut(References(s), w, 1, |w|);
        assert w[1..|w|] == rest;
        assert path + w == arr + rest;
      }
    }
  }

  /** Accepts exactly the rule sets whose references are all defined and acyclic. */
  method VerifySubRule(s: RuleSets) returns (r: Option<Error>)
    ensures r.None? <==> AllDefined(s) && Acyclic(References(s))
    ensures r.Some? ==> IsEvidence(s, r.value)
  {
    var todo := s.Keys;
    while todo != {}
      invariant todo <= s.Keys
      invariant forall n :: n in s.Keys - todo ==> Clean(s, [], n)
      decreases todo
    {
      var name :| name in todo;
      assert [] + [name] == [name];
      var err := VerifyCircularReferences(name, s, []);
      if err.Some? {
        EvidenceRefutes(s, err.value);
        return err;
      }
      todo := todo - {name};
    }
    CleanMeansAcyclic(s);
    r := None;
  }

  lemma EvidenceRefutes(s: RuleSets, e: Error)
    requires IsEvidence(s, e)
    ensures !(AllDefined(s) && Acyclic(References(s)))
  {
    if e.Circular? {
      var p := e.path;
      var k :| 0 <= k < |p| - 1 && p[k] == p[|p| - 1];
      WalkCut(References(s), p, k, |p|);
      assert WalkBetween(References(s), p[k..|p|], p[k], p[k]);
      assert OnCycle(References(s), p[k]);
    }
  }

  lemma CleanMeansAcyclic(s: RuleSets)
    requires forall n :: n in s ==> Clean(s, [], n)
    ensures AllDefined(s) && Acyclic(References(s))
  {
    forall n, i | n in s && 0 <= i < |s[n]| && s[n][i].SubRule? ensures s[n][i].adapter in s {
      var w := [n, s[n][i].adapter];
      assert s[n][i] in s[n] && (n, s[n][i].adapter) in References(s);
      assert IsWalk(References(s), w);
    }
    forall a ensures !OnCycle(References(s), a) {
      if w :| |w| > 1 && WalkBetween(References(s), w, a, a) {
        assert (w[0], w[0 + 1]) in References(s);
        assert [] + w == w && !NoDuplicates(w);
        assert Clean(s, [], a);
      }
    }
  }
}
