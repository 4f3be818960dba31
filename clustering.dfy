/** The clustering block of `main` (src/weflow/main.py:255-278): each
    analysed article whose analysis recommends it joins the cluster of
    its topic, translated through a fixed table; clusters keep the order
    in which their topics first appear. */
module Clustering {
  import opened Wrappers
  import opened Sequences
  import opened Articles

  /** The translation table from the analysis's English topic names to
      the digest's section names. */
  const TopicMap: map<string, string> := map[
    "Generative AI" := "生成式 AI",
    "Robotics" := "机器人技术",
    "Hardware/Chips" := "芯片与硬件",
    "Industry/Business" := "产业动态",
    "Programming/Dev" := "编程与开发",
    "Science/Research" := "科研前沿",
    "Agi/Safety" := "AGI 与安全",
    "Other" := "其他"
  ]

  /** What the loop does with one article: leave it out, put it in the
      cluster of a topic, or raise (a non-dict analysis has no `get`; a
      list or dict topic cannot be a dict key), which ends the run. */
  datatype Placement = Skip | Place(topic: Json) | Crash

  /** `TOPIC_MAP.get(raw, raw)`. */
  function Translate(raw: Json): (t: Json)
    ensures raw.JStr? && raw.s in TopicMap ==> t == JStr(TopicMap[raw.s])
    ensures !(raw.JStr? && raw.s in TopicMap) ==> t == raw
  {
    if raw.JStr? && raw.s in TopicMap then JStr(TopicMap[raw.s]) else raw
  }

  /** The placement of an article with the given analysis. */
  function PlacementOf(analysis: Json): Placement {
    if !Truthy(analysis) then Skip
    else if !analysis.JObject? then Crash
    else if !Truthy(Get(analysis.fields, "recommended", JNull)) then Skip
    else
      var raw := Get(analysis.fields, "topic", JStr("Other"));
      if !Hashable(raw) then Crash else Place(Translate(raw))
  }

  /** An article is clustered only when its analysis is a dict whose
      `recommended` is truthy, and the loop raises only on a truthy
      analysis that is not a dict or whose topic is a list or a dict. */
  lemma PlacementNeedsRecommended(analysis: Json)
    ensures PlacementOf(analysis).Place? ==>
      analysis.JObject? && Truthy(Get(analysis.fields, "recommended", JNull))
    ensures PlacementOf(analysis).Crash? ==>
      Truthy(analysis) && (!analysis.JObject? || !Hashable(Get(analysis.fields, "topic", JStr("Other"))))
  {
  }

  /** For a recommended article, a missing topic becomes "其他", a topic
      the table knows is translated, any other string, number, boolean or
      null topic is kept as it is, and a list or dict topic raises. */
  lemma TopicRules(fields: map<string, Json>)
    requires Truthy(Get(fields, "recommended", JNull))
    ensures "topic" !in fields ==> PlacementOf(JObject(fields)) == Place(JStr("其他"))
    ensures "topic" in fields && fields["topic"].JStr? && fields["topic"].s in TopicMap ==>
      PlacementOf(JObject(fields)) == Place(JStr(TopicMap[fields["topic"].s]))
    ensures ("topic" in fields && Hashable(fields["topic"])
      && !(fields["topic"].JStr? && fields["topic"].s in TopicMap)) ==>
      PlacementOf(JObject(fields)) == Place(fields["topic"])
    ensures "topic" in fields && !Hashable(fields["topic"]) ==> PlacementOf(JObject(fields)) == Crash
  {
    assert "recommended" in fields;
    assert |fields| > 0;
    assert "Other" in TopicMap && TopicMap["Other"] == "其他";
  }

  /** The clusters formed so far: topics in order of first appearance
      and, per topic, its articles. */
  datatype Clusters = Clusters(order: seq<Json>, groups: map<Json, seq<Article>>)

  datatype ClusterOutcome = Formed(clusters: Clusters) | Crashed

  /** `clusters[topic].append(art)` on a `defaultdict(list)`. */
  function Add(c: Clusters, t: Json, a: Article): Clusters {
    if t in c.groups then Clusters(c.order, c.groups[t := c.groups[t] + [a]])
    else Clusters(c.order + [t], c.groups[t := [a]])
  }

  /** The outcome of the loop over `arts` whose placements are `ps`. */
  function Cluster(arts: seq<Article>, ps: seq<Placement>): ClusterOutcome
    requires |ps| == |arts|
    decreases |arts|
  {
    if |arts| == 0 then Formed(Clusters([], map[]))
    else match Cluster(arts[..|arts| - 1], ps[..|ps| - 1])
      case Crashed => Crashed
      case Formed(c) =>
        match ps[|ps| - 1]
        case Skip => Formed(c)
        case Crash => Crashed
        case Place(t) => Formed(Add(c, t, arts[|arts| - 1]))
  }

  /** The placements of the articles, read from their analyses. */
  function Placements(arts: seq<Article>): (ps: seq<Placement>)
    reads set a | a in arts
    ensures |ps| == |arts|
    ensures forall i :: 0 <= i < |arts| ==> ps[i] == PlacementOf(arts[i].analysis)
  {
    if |arts| == 0 then [] else [PlacementOf(arts[0].analysis)] + Placements(arts[1..])
  }

  /** The clustering loop of `main`. */
  method ClusterArticles(arts: seq<Article>) returns (r: ClusterOutcome)
    ensures r == Cluster(arts, Placements(arts))
  {
    ghost var ps := Placements(arts);
    var order: seq<Json> := [];
    var groups: map<Json, seq<Article>> := map[];
    var i := 0;
    while i < |arts|
      invariant 0 <= i <= |arts|
      invariant Cluster(arts[..i], ps[..i]) == Formed(Clusters(order, groups))
    {
      var p := PlacementOf(arts[i].analysis);
      assert arts[..i + 1][..i] == arts[..i] && ps[..i + 1][..i] == ps[..i];
      match p {
        case Skip =>
        case Crash =>
          ClusterCrashes(arts, ps);
          return Crashed;
        case Place(t) =>
          if t in groups {
            groups := groups[t := groups[t] + [arts[i]]];
          } else {
            order := order + [t];
            groups := groups[t := [arts[i]]];
          }
      }
      i := i + 1;
    }
    assert arts[..i] == arts && ps[..i] == ps;
    return Formed(Clusters(order, groups));
  }

  // ---------------------------------------------------------------------
  // Properties

  /** The loop raises exactly when some article's placement raises. */
  lemma {:induction false} ClusterCrashes(arts: seq<Article>, ps: seq<Placement>)
    requires |ps| == |arts|
    ensures Cluster(arts, ps).Crashed? <==> exists i :: 0 <= i < |ps| && ps[i].Crash?
    decreases |arts|
  {
    if |arts| > 0 {
      var n := |arts| - 1;
      ClusterCrashes(arts[..n], ps[..n]);
      if exists i :: 0 <= i < |ps| && ps[i].Crash? {
        var i :| 0 <= i < |ps| && ps[i].Crash?;
        if i < n {
          assert ps[..n][i].Crash?;
        }
      }
      if exists i :: 0 <= i < n && ps[..n][i].Crash? {
        var i :| 0 <= i < n && ps[..n][i].Crash?;
        assert ps[i].Crash?;
      }
    }
  }

  /** Topics are listed once each, exactly the keys of the groups, and no
      group is empty. */
  ghost predicate WellFormed(c: Clusters) {
    && (forall i, j :: 0 <= i < j < |c.order| ==> c.order[i] != c.order[j])
    && (forall t :: t in c.groups <==> t in c.order)
    && (forall t :: t in c.groups ==> |c.groups[t]| > 0)
  }

  /** The articles placed in topic `t`, in input order. */
  function Members(arts: seq<Article>, ps: seq<Placement>, t: Json): (r: seq<Article>)
    requires |ps| == |arts|
    ensures |r| <= |arts|
    decreases |arts|
  {
    if |arts| == 0 then []
    else
      Members(arts[..|arts| - 1], ps[..|ps| - 1], t)
        + (if ps[|ps| - 1] == Place(t) then [arts[|arts| - 1]] else [])
  }

  lemma AddWellFormed(c: Clusters, t: Json, a: Article)
    requires WellFormed(c)
    ensures WellFormed(Add(c, t, a))
  {
    if t !in c.groups {
      var o := c.order + [t];
      forall i, j | 0 <= i < j < |o| ensures o[i] != o[j] {
        if j == |c.order| {
          assert o[i] == c.order[i];
        }
      }
    }
  }

  /** The formed clusters are well formed. */
  lemma {:induction false} ClusterWellFormed(arts: seq<Article>, ps: seq<Placement>)
    requires |ps| == |arts| && Cluster(arts, ps).Formed?
    ensures WellFormed(Cluster(arts, ps).clusters)
    decreases |arts|
  {
    if |arts| > 0 {
      var n := |arts| - 1;
      ClusterWellFormed(arts[..n], ps[..n]);
      if ps[n].Place? {
        AddWellFormed(Cluster(arts[..n], ps[..n]).clusters, ps[n].topic, arts[n]);
      }
    }
  }

  /** Each cluster holds exactly the articles placed in its topic, in
      input order; a topic has a cluster exactly when some article is
      placed in it. */
  lemma {:induction false} ClusterGroups(arts: seq<Article>, ps: seq<Placement>)
    requires |ps| == |arts| && Cluster(arts, ps).Formed?
    ensures var g := Cluster(arts, ps).clusters.groups;
      forall t :: t in g ==> g[t] == Members(arts, ps, t)
    ensures var g := Cluster(arts, ps).clusters.groups;
      forall t :: t !in g ==> Members(arts, ps, t) == []
    decreases |arts|
  {
    if |arts| > 0 {
      var n := |arts| - 1;
      ClusterGroups(arts[..n], ps[..n]);
    }
  }

  /** A topic has a cluster exactly when some article is placed in it. */
  lemma {:induction false} MembersNonEmpty(arts: seq<Article>, ps: seq<Placement>, t: Json)
    requires |ps| == |arts|
    ensures |Members(arts, ps, t)| > 0 <==> exists i :: 0 <= i < |ps| && ps[i] == Place(t)
    decreases |arts|
  {
    if |arts| > 0 {
      var n := |arts| - 1;
      MembersNonEmpty(arts[..n], ps[..n], t);
      if exists i :: 0 <= i < n && ps[..n][i] == Place(t) {
        var i :| 0 <= i < n && ps[..n][i] == Place(t);
        assert ps[i] == Place(t);
      }
      if exists i :: 0 <= i < |ps| && ps[i] == Place(t) {
        var i :| 0 <= i < |ps| && ps[i] == Place(t);
        if i < n {
          assert ps[..n][i] == Place(t);
        }
      }
    }
  }

  /** A cluster keeps its articles in input order. */
  lemma {:induction false} MembersInOrder(arts: seq<Article>, ps: seq<Placement>, t: Json)
    requires |ps| == |arts|
    ensures Subsequence(Members(arts, ps, t), arts)
    decreases |arts|
  {
    if |arts| > 0 {
      var n := |arts| - 1;
      var m := Members(arts[..n], ps[..n], t);
      MembersInOrder(arts[..n], ps[..n], t);
      SubsequenceSnoc(m, arts[..n], arts[n]);
      assert arts[..n] + [arts[n]] == arts;
      if ps[n] == Place(t) {
        assert Members(arts, ps, t) == m + [arts[n]];
      } else {
        assert Members(arts, ps, t) == m + [] == m;
      }
    }
  }

  /** Every member of a topic was placed in it. */
  lemma {:induction false} MembersPlaced(arts: seq<Article>, ps: seq<Placement>, t: Json)
    requires |ps| == |arts|
    ensures forall a | a in Members(arts, ps, t) :: exists i :: 0 <= i < |arts| && arts[i] == a && ps[i] == Place(t)
    decreases |arts|
  {
    if |arts| > 0 {
      var n := |arts| - 1;
      MembersPlaced(arts[..n], ps[..n], t);
      forall a | a in Members(arts, ps, t)
        ensures exists i :: 0 <= i < |arts| && arts[i] == a && ps[i] == Place(t)
      {
        if a in Members(arts[..n], ps[..n], t) {
          var i :| 0 <= i < n && arts[..n][i] == a && ps[..n][i] == Place(t);
          assert arts[i] == a && ps[i] == Place(t);
        } else {
          assert arts[n] == a && ps[n] == Place(t);
        }
      }
    }
  }

  /** An article placed in a topic is one of its members. */
  lemma {:induction false} MembersInclude(arts: seq<Article>, ps: seq<Placement>, i: nat)
    requires |ps| == |arts| && i < |arts| && ps[i].Place?
    ensures arts[i] in Members(arts, ps, ps[i].topic)
    decreases |arts|
  {
    var n := |arts| - 1;
    if i < n {
      MembersInclude(arts[..n], ps[..n], i);
    }
  }

  /** When no article occurs twice, each placed article is a member of
      its own topic's cluster and of no other. */
  lemma MembersExactly(arts: seq<Article>, ps: seq<Placement>, i: nat, t: Json)
    requires |ps| == |arts| && i < |arts|
    requires forall j, k :: 0 <= j < k < |arts| ==> arts[j] != arts[k]
    ensures arts[i] in Members(arts, ps, t) <==> ps[i] == Place(t)
  {
    MembersPlaced(arts, ps, t);
    if ps[i] == Place(t) {
      MembersInclude(arts, ps, i);
    }
    if arts[i] in Members(arts, ps, t) {
      var j :| 0 <= j < |arts| && arts[j] == arts[i] && ps[j] == Place(t);
      assert j == i;
    }
  }
}
