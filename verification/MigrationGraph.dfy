/** Migration currency: what the verdict on a database's revision means in terms of the
    migration graph the running code carries. */
module MigrationGraph {
  import opened Options

  /** Each known revision, with the revisions it is applied on top of. */
  type Graph = map<string, set<string>>

  function Known(g: Graph): set<string> { g.Keys }

  /** The revisions nothing is applied on top of. */
  ghost function Heads(g: Graph): set<string>
  {
    set r | r in g && forall k :: k in g ==> r !in g[k]
  }

  /** A way up from the first revision to the last, one migration at a time. */
  ghost predicate Chain(g: Graph, path: seq<string>)
  {
    && path != []
    && (forall i :: 0 < i < |path| ==> path[i] in g && path[i - 1] in g[path[i]])
  }

  ghost predicate Leads(g: Graph, path: seq<string>, from: string, to: string)
  {
    Chain(g, path) && |path| > 1 && path[0] == from && path[|path| - 1] == to
  }

  /** At least one migration leads from one revision to the other. */
  ghost predicate Upgrades(g: Graph, from: string, to: string)
  {
    exists path :: Leads(g, path, from, to)
  }

  ghost predicate Acyclic(g: Graph) { forall r :: !Upgrades(g, r, r) }

  /** No revision is applied on top of one that is missing. */
  ghost predicate Closed(g: Graph) { forall k :: k in g ==> g[k] <= g.Keys }

  // ---- The verdict ----

  datatype Verdict = Current | Behind | Ahead

  /** `evaluate_schema_currency` */
  function Evaluate(revision: Option<string>, head: string, known: Option<set<string>>): Verdict
  {
    if revision == Some(head) then Current
    else if revision.Some? && known.Some? && revision.value !in known.value then Ahead
    else Behind
  }

  // ---- Every known revision leads to a head ----

  lemma SubChain(g: Graph, path: seq<string>, i: nat)
    requires Chain(g, path) && i < |path|
    ensures Chain(g, path[i..])
  {
  }

  lemma BackOntoPath(g: Graph, path: seq<string>, i: nat)
    requires Chain(g, path) && i < |path| && path[i] in g && path[|path| - 1] in g[path[i]]
    ensures Upgrades(g, path[i], path[i])
  {
    SubChain(g, path, i);
    var cycle := path[i..] + [path[i]];
    assert Leads(g, cycle, path[i], path[i]);
  }

  /** The next revision up is new: had the path met it before, there would be a cycle. */
  lemma NextIsNew(g: Graph, path: seq<string>, next: string)
    requires Acyclic(g) && Chain(g, path) && next in g && path[|path| - 1] in g[next]
    ensures next !in path
  {
    hide Chain, Upgrades;
    if i :| 0 <= i < |path| && path[i] == next { BackOntoPath(g, path, i); }
  }

  /** Climb from the end of a path until nothing is on top; `rest` holds what is not on the
      path yet. */
  lemma Climb(g: Graph, path: seq<string>, rest: set<string>) returns (full: seq<string>)
    requires Acyclic(g) && Chain(g, path) && path[|path| - 1] in g
    requires forall r :: r in g && r !in path ==> r in rest
    ensures Chain(g, full) && path <= full && full[|full| - 1] in Heads(g)
    decreases |rest|
  {
    hide Acyclic;
    var top := path[|path| - 1];
    if top in Heads(g) {
      full := path;
    } else {
      var next :| next in g && top in g[next];
      NextIsNew(g, path, next);
      var longer := path + [next];
      assert forall r :: r !in longer ==> r !in path && r != next;
      assert longer <= longer && path <= longer;
      full := Climb(g, longer, rest - {next});
    }
  }

  lemma ReachesAHead(g: Graph, r: string) returns (h: string)
    requires Acyclic(g) && r in g
    ensures h in Heads(g) && (r == h || Upgrades(g, r, h))
  {
    var full := Climb(g, [r], g.Keys);
    h := full[|full| - 1];
    assert full[0] == [r][0];
    if |full| > 1 { assert Leads(g, full, r, h); }
  }

  lemma HeadLeadsNowhere(g: Graph, h: string, to: string)
    requires h in Heads(g)
    ensures !Upgrades(g, h, to)
  {
    forall path
      ensures !Leads(g, path, h, to)
    {
      if |path| > 1 && path[1] in g { assert h !in g[path[1]]; }
    }
  }

  lemma UnknownLeadsNowhere(g: Graph, r: string, to: string)
    requires Closed(g) && r !in g
    ensures !Upgrades(g, r, to)
  {
    forall path
      ensures !Leads(g, path, r, to)
    {
      if |path| > 1 && path[1] in g { assert r !in g[path[1]]; }
    }
  }

  // ---- What the verdict means ----

  /** For an acyclic graph with a single head the verdict tells exactly how a stamped
      database stands to the code: it is at the head, some migrations lead from it to the
      head, or none do.  An unstamped one is behind. */
  lemma VerdictMeans(g: Graph, head: string, r: string)
    requires Acyclic(g) && Closed(g) && Heads(g) == {head}
    ensures var v := Evaluate(Some(r), head, Some(Known(g)));
            && (v == Current <==> r == head)
            && (v == Behind <==> Upgrades(g, r, head))
            && (v == Ahead <==> r != head && !Upgrades(g, r, head))
    ensures Evaluate(None, head, Some(Known(g))) == Behind
  {
    if r == head {
      HeadLeadsNowhere(g, r, head);
    } else if r in g {
      var h := ReachesAHead(g, r);
      assert h == head;
    } else {
      UnknownLeadsNowhere(g, r, head);
    }
    assert head in Heads(g);
  }

  /** The insistence on one head is not a formality: taking any head as the expected one,
      "behind" is right for every revision exactly when there is no other head. */
  lemma OneHeadIsNeeded(g: Graph, head: string)
    requires Acyclic(g) && Closed(g) && head in Heads(g)
    ensures (forall r :: Evaluate(Some(r), head, Some(Known(g))) == Behind ==> Upgrades(g, r, head))
            <==> Heads(g) == {head}
  {
    if Heads(g) == {head} {
      forall r | Evaluate(Some(r), head, Some(Known(g))) == Behind
        ensures Upgrades(g, r, head)
      {
        VerdictMeans(g, head, r);
      }
    } else {
      var h :| h in Heads(g) && h != head;
      HeadLeadsNowhere(g, h, head);
      assert Evaluate(Some(h), head, Some(Known(g))) == Behind;
    }
  }

  /** Without the known revisions the verdict cannot tell "ahead": it is still never
      "current" wrongly, and "behind" is right for exactly the known revisions. */
  lemma WithoutKnown(g: Graph, head: string, r: string)
    requires Acyclic(g) && Closed(g) && Heads(g) == {head}
    ensures var v := Evaluate(Some(r), head, None);
            && (v == Current <==> r == head)
            && (v == Behind <==> r != head)
            && (v == Behind ==> (Upgrades(g, r, head) <==> r in g))
    ensures Evaluate(None, head, None) == Behind
  {
    VerdictMeans(g, head, r);
  }
}
