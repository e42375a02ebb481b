/** Directed graphs over names, and reachability along their edges. */
module Graph {

  type graph = map<string, set<string>>

  function Successors(g: graph, a: string): (s: set<string>)
  {
    if a in g then g[a] else {}
  }

  ghost predicate IsPath(g: graph, p: seq<string>)
  {
    p != [] && (|p| > 1 ==> p[1] in Successors(g, p[0]) && IsPath(g, p[1..]))
  }

  ghost predicate PathFromTo(g: graph, p: seq<string>, a: string, b: string)
  {
    IsPath(g, p) && p[0] == a && p[|p| - 1] == b
  }

  ghost predicate Reaches(g: graph, a: string, b: string)
  {
    exists p :: PathFromTo(g, p, a, b)
  }

  /** `a` lies on a cycle. */
  ghost predicate OnCycle(g: graph, a: string)
  {
    exists b :: b in Successors(g, a) && Reaches(g, b, a)
  }

  lemma {:induction false} PathSnoc(g: graph, p: seq<string>, c: string)
    requires IsPath(g, p) && c in Successors(g, p[|p| - 1])
    ensures IsPath(g, p + [c])
  {
    if |p| > 1 {
      PathSnoc(g, p[1..], c);
      assert (p + [c])[1..] == p[1..] + [c];
    } else {
      assert (p + [c])[1..] == [c];
    }
  }

  lemma ReachesSelf(g: graph, a: string)
    ensures Reaches(g, a, a)
  {
    assert PathFromTo(g, [a], a, a);
  }

  lemma ReachesStep(g: graph, a: string, b: string, c: string)
    requires Reaches(g, a, b) && c in Successors(g, b)
    ensures Reaches(g, a, c)
  {
    var p :| PathFromTo(g, p, a, b);
    PathSnoc(g, p, c);
    assert PathFromTo(g, p + [c], a, c);
  }

  lemma ReachesFrom(g: graph, a: string, b: string, c: string)
    requires b in Successors(g, a) && Reaches(g, b, c)
    ensures Reaches(g, a, c)
  {
    var p :| PathFromTo(g, p, b, c);
    assert ([a] + p)[1..] == p;
    assert PathFromTo(g, [a] + p, a, c);
  }
}
