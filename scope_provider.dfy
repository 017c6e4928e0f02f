/** The scope provider of the robot-mission language: for a cross-reference
    site it yields the ordered candidates the reference may be bound to, each
    named by the candidate's `id`. */
module ScopeProvider {

  import opened Wrappers
  import opened Ast

  /** A candidate of a scope: the name a reference is matched against and
      the node it then refers to. */
  datatype Description = Description(name: string, node: Node)

  type Scope = seq<Description>

  /** The scope with no candidates. */
  const EmptyScope: Scope := []

  /** The node type a reference site sits in; every other node type is
      `OtherContainer`. */
  datatype ContainerKind = MissionContainer | TaskContainer | OtherContainer

  /** A reference site: the node holding the reference, the name of the
      property being resolved, and the nearest enclosing Model and Mission
      (the container itself counts), `None` when the node has no such
      ancestor. */
  datatype ReferenceSite = ReferenceSite(
    container: ContainerKind,
    property: string,
    model: Option<Model>,
    mission: Option<Mission>)

  datatype InstanceKind = RobotKind | EnvironmentKind | MissionKind

  function KindOf(i: Instance): InstanceKind {
    match i
    case RobotInstance(_) => RobotKind
    case EnvironmentInstance(_) => EnvironmentKind
    case MissionInstance(_) => MissionKind
  }

  /** The instances of one kind, in the order they have in `xs`. */
  function Filter(xs: seq<Instance>, kind: InstanceKind): (r: seq<Instance>)
    ensures |r| <= |xs|
    ensures forall k :: 0 <= k < |r| ==> KindOf(r[k]) == kind
    ensures forall x :: x in r <==> x in xs && KindOf(x) == kind
  {
    if xs == [] then []
    else (if KindOf(xs[0]) == kind then [xs[0]] else []) + Filter(xs[1..], kind)
  }

  function InstanceNodes(xs: seq<Instance>): seq<Node> {
    seq(|xs|, k requires 0 <= k < |xs| => NodeOf(xs[k]))
  }

  function WorldObjectNodes(os: seq<WorldObject>): seq<Node> {
    seq(|os|, k requires 0 <= k < |os| => WorldObjectNode(os[k]))
  }

  function ObstacleNodes(os: seq<Obstacle>): seq<Node> {
    seq(|os|, k requires 0 <= k < |os| => ObstacleNode(os[k]))
  }

  /** Names every node by its `id`, keeping the order. */
  function Describe(nodes: seq<Node>): Scope {
    seq(|nodes|, k requires 0 <= k < |nodes| => Description(Id(nodes[k]), nodes[k]))
  }

  /** The nodes of a scope's candidates, in scope order. */
  function Nodes(s: Scope): seq<Node> {
    seq(|s|, k requires 0 <= k < |s| => s[k].node)
  }

  // The four rules, each guarded by the site's container kind and property.

  predicate IsEnvironmentSite(site: ReferenceSite) {
    site.container == MissionContainer && site.property == "environment"
  }

  predicate IsRobotSite(site: ReferenceSite) {
    (site.container == MissionContainer || site.container == TaskContainer) && site.property == "robots"
  }

  predicate IsWorldObjectSite(site: ReferenceSite) {
    site.container == TaskContainer && (site.property == "pickupObject" || site.property == "dropObject")
  }

  predicate IsObstacleSite(site: ReferenceSite) {
    site.container == TaskContainer && site.property == "obstacle"
  }

  /** The instances of `kind` among `xs`, in order, named by their ids. */
  function InstanceScope(xs: seq<Instance>, kind: InstanceKind): Scope {
    Describe(InstanceNodes(Filter(xs, kind)))
  }

  /** Every Environment instance of the enclosing model. */
  function ScopeForEnvironment(model: Option<Model>): (r: Scope)
    ensures model.None? ==> r == EmptyScope
    ensures forall k :: 0 <= k < |r| ==>
      model.Some? && r[k].node.EnvironmentNode? && r[k].name == r[k].node.environment.id &&
      EnvironmentInstance(r[k].node.environment) in model.value.instances
  {
    match model
    case None => EmptyScope
    case Some(m) => InstanceScope(m.instances, EnvironmentKind)
  }

  /** Every Robot instance of the enclosing model. */
  function ScopeForRobots(model: Option<Model>): (r: Scope)
    ensures model.None? ==> r == EmptyScope
    ensures forall k :: 0 <= k < |r| ==>
      model.Some? && r[k].node.RobotNode? && r[k].name == r[k].node.robot.id &&
      RobotInstance(r[k].node.robot) in model.value.instances
  {
    match model
    case None => EmptyScope
    case Some(m) => InstanceScope(m.instances, RobotKind)
  }

  /** The world objects of the environment the enclosing mission refers to. */
  function ScopeForWorldObjects(mission: Option<Mission>): (r: Scope)
    ensures mission.None? || mission.value.environment.None? ==> r == EmptyScope
    ensures forall k :: 0 <= k < |r| ==>
      mission.Some? && mission.value.environment.Some? &&
      r[k].node.WorldObjectNode? && r[k].name == r[k].node.worldObject.id &&
      r[k].node.worldObject in mission.value.environment.value.objects
  {
    match mission
    case None => EmptyScope
    case Some(ms) =>
      match ms.environment
      case None => EmptyScope
      case Some(e) => Describe(WorldObjectNodes(e.objects))
  }

  /** The obstacles of the environment the enclosing mission refers to. */
  function ScopeForObstacles(mission: Option<Mission>): (r: Scope)
    ensures mission.None? || mission.value.environment.None? ==> r == EmptyScope
    ensures forall k :: 0 <= k < |r| ==>
      mission.Some? && mission.value.environment.Some? &&
      r[k].node.ObstacleNode? && r[k].name == r[k].node.obstacle.id &&
      r[k].node.obstacle in mission.value.environment.value.obstacles
  {
    match mission
    case None => EmptyScope
    case Some(ms) =>
      match ms.environment
      case None => EmptyScope
      case Some(e) => Describe(ObstacleNodes(e.obstacles))
  }

  /** The candidates for the reference at `site`: the first rule whose guard
      holds decides, and a site no rule covers has the empty scope. */
  function GetScope(site: ReferenceSite): (r: Scope)
    ensures forall k :: 0 <= k < |r| ==> r[k].name == Id(r[k].node) && !r[k].node.MissionNode?
    ensures !IsEnvironmentSite(site) && !IsRobotSite(site) && !IsWorldObjectSite(site) && !IsObstacleSite(site) ==>
      r == EmptyScope
  {
    if IsEnvironmentSite(site) then ScopeForEnvironment(site.model)
    else if IsRobotSite(site) then ScopeForRobots(site.model)
    else if IsWorldObjectSite(site) then ScopeForWorldObjects(site.mission)
    else if IsObstacleSite(site) then ScopeForObstacles(site.mission)
    else EmptyScope
  }

  /** The linker's outcome for a reference named `name` against scope `s`:
      bound to some candidate of that name, or unbound when there is none.
      Which candidate wins among several of the same name is not fixed. */
  ghost predicate Binds(s: Scope, name: string, target: Option<Node>) {
    match target
    case Some(n) => Description(name, n) in s
    case None => forall d :: d in s ==> d.name != name
  }

  // ---------------------------------------------------------------------
  // Filtering keeps the relative order of the instances it keeps.

  lemma {:induction false} FilterAppend(a: seq<Instance>, b: seq<Instance>, kind: InstanceKind)
    ensures Filter(a + b, kind) == Filter(a, kind) + Filter(b, kind)
  {
    if a == [] {
      assert a + b == b;
    } else {
      assert (a + b)[1..] == a[1..] + b;
      FilterAppend(a[1..], b, kind);
    }
  }

  /** How many instances of `kind` come before position `i`. */
  function Rank(xs: seq<Instance>, kind: InstanceKind, i: nat): nat
    requires i <= |xs|
  {
    |Filter(xs[..i], kind)|
  }

  lemma FilterAt(xs: seq<Instance>, kind: InstanceKind, i: nat)
    requires i < |xs| && KindOf(xs[i]) == kind
    ensures Rank(xs, kind, i) < |Filter(xs, kind)|
    ensures Filter(xs, kind)[Rank(xs, kind, i)] == xs[i]
  {
    assert xs == xs[..i] + ([xs[i]] + xs[i + 1..]);
    FilterAppend(xs[..i], [xs[i]] + xs[i + 1..], kind);
    FilterAppend([xs[i]], xs[i + 1..], kind);
    assert [xs[i]][1..] == [];
  }

  lemma RankGrows(xs: seq<Instance>, kind: InstanceKind, i: nat, j: nat)
    requires i < j <= |xs| && KindOf(xs[i]) == kind
    ensures Rank(xs, kind, i) < Rank(xs, kind, j)
  {
    assert xs[..j] == xs[..i] + ([xs[i]] + xs[i + 1..j]);
    FilterAppend(xs[..i], [xs[i]] + xs[i + 1..j], kind);
    FilterAppend([xs[i]], xs[i + 1..j], kind);
    assert [xs[i]][1..] == [];
  }

  /** The rank of position `i + 1` in `xs` counts the first instance and
      then the rank of `i` in the rest. */
  lemma RankStep(xs: seq<Instance>, kind: InstanceKind, i: nat)
    requires i < |xs|
    ensures Rank(xs, kind, i + 1) == (if KindOf(xs[0]) == kind then 1 else 0) + Rank(xs[1..], kind, i)
  {
    assert xs[..i + 1] == [xs[0]] + xs[1..][..i];
    FilterAppend([xs[0]], xs[1..][..i], kind);
    assert [xs[0]][1..] == [];
  }

  /** The position in `xs` of the `p`-th instance of `kind` (counting
      from 0). */
  function PositionOfRank(xs: seq<Instance>, kind: InstanceKind, p: nat): (i: nat)
    requires p < |Filter(xs, kind)|
    ensures i < |xs|
  {
    if KindOf(xs[0]) == kind && p == 0 then 0
    else 1 + PositionOfRank(xs[1..], kind, if KindOf(xs[0]) == kind then p - 1 else p)
  }

  /** The `p`-th instance of `kind` has that kind and rank `p`. */
  lemma {:induction false} PositionOfRankIsInverse(xs: seq<Instance>, kind: InstanceKind, p: nat)
    requires p < |Filter(xs, kind)|
    ensures KindOf(xs[PositionOfRank(xs, kind, p)]) == kind
    ensures Rank(xs, kind, PositionOfRank(xs, kind, p)) == p
  {
    var rest := xs[1..];
    var h := if KindOf(xs[0]) == kind then 1 else 0;
    assert Filter(xs, kind) == (if h == 1 then [xs[0]] else []) + Filter(rest, kind);
    if h == 1 && p == 0 {
      assert PositionOfRank(xs, kind, p) == 0;
      assert xs[..0] == [];
    } else {
      var q: nat := p - h;
      assert q < |Filter(rest, kind)|;
      var i := PositionOfRank(rest, kind, q);
      assert PositionOfRank(xs, kind, p) == 1 + i;
      PositionOfRankIsInverse(rest, kind, q);
      RankStep(xs, kind, i);
      assert xs[i + 1] == rest[i];
    }
  }

  /** The instance scope of `kind` is determined position by position: the
      instance at position `i` of `xs` is described at its rank, and the
      candidate at position `p` describes the `p`-th instance of `kind`. */
  lemma InstanceScopeByRank(xs: seq<Instance>, kind: InstanceKind)
    ensures |InstanceScope(xs, kind)| == |Filter(xs, kind)|
    ensures forall i :: 0 <= i < |xs| && KindOf(xs[i]) == kind ==>
      Rank(xs, kind, i) < |InstanceScope(xs, kind)| &&
      InstanceScope(xs, kind)[Rank(xs, kind, i)] == Description(Id(NodeOf(xs[i])), NodeOf(xs[i]))
    ensures forall p :: 0 <= p < |InstanceScope(xs, kind)| ==>
      KindOf(xs[PositionOfRank(xs, kind, p)]) == kind &&
      InstanceScope(xs, kind)[p] == Description(Id(NodeOf(xs[PositionOfRank(xs, kind, p)])), NodeOf(xs[PositionOfRank(xs, kind, p)]))
  {
    forall i | 0 <= i < |xs| && KindOf(xs[i]) == kind
      ensures Rank(xs, kind, i) < |InstanceScope(xs, kind)| &&
        InstanceScope(xs, kind)[Rank(xs, kind, i)] == Description(Id(NodeOf(xs[i])), NodeOf(xs[i]))
    {
      FilterAt(xs, kind, i);
    }
    forall p | 0 <= p < |InstanceScope(xs, kind)|
      ensures KindOf(xs[PositionOfRank(xs, kind, p)]) == kind &&
        InstanceScope(xs, kind)[p] == Description(Id(NodeOf(xs[PositionOfRank(xs, kind, p)])), NodeOf(xs[PositionOfRank(xs, kind, p)]))
    {
      PositionOfRankIsInverse(xs, kind, p);
      FilterAt(xs, kind, PositionOfRank(xs, kind, p));
    }
  }

  /** The instance scope of `kind` over `xs` lists instances that occur in
      `xs` in the same relative order. */
  lemma InstanceScopeOrder(xs: seq<Instance>, kind: InstanceKind)
    ensures forall i, j :: 0 <= i < j < |xs| && KindOf(xs[i]) == kind && KindOf(xs[j]) == kind ==>
      exists p, q :: 0 <= p < q < |InstanceScope(xs, kind)| &&
        InstanceScope(xs, kind)[p].node == NodeOf(xs[i]) && InstanceScope(xs, kind)[q].node == NodeOf(xs[j])
  {
    var s := InstanceScope(xs, kind);
    forall i, j | 0 <= i < j < |xs| && KindOf(xs[i]) == kind && KindOf(xs[j]) == kind
      ensures exists p, q :: 0 <= p < q < |s| && s[p].node == NodeOf(xs[i]) && s[q].node == NodeOf(xs[j])
    {
      InstanceScopeOrderAt(xs, kind, i, j);
    }
  }

  lemma InstanceScopeOrderAt(xs: seq<Instance>, kind: InstanceKind, i: nat, j: nat)
    requires i < j < |xs| && KindOf(xs[i]) == kind && KindOf(xs[j]) == kind
    ensures exists p, q ::
      0 <= p < q < |InstanceScope(xs, kind)| &&
      InstanceScope(xs, kind)[p].node == NodeOf(xs[i]) && InstanceScope(xs, kind)[q].node == NodeOf(xs[j])
  {
    var f := Filter(xs, kind);
    var s := InstanceScope(xs, kind);
    FilterAt(xs, kind, i);
    FilterAt(xs, kind, j);
    RankGrows(xs, kind, i, j);
    var p, q := Rank(xs, kind, i), Rank(xs, kind, j);
    assert s[p].node == NodeOf(f[p]) && s[q].node == NodeOf(f[q]);
  }

  // ---------------------------------------------------------------------
  // What each rule yields.

  /** A description list names each node by its id and keeps the nodes in
      their order. */
  lemma DescribeFacts(nodes: seq<Node>)
    ensures Nodes(Describe(nodes)) == nodes
    ensures forall d :: d in Describe(nodes) <==> d.node in nodes && d.name == Id(d.node)
  {
  }

  /** The instance scope of `kind` holds exactly the descriptions (id, node)
      of the instances of that kind in `xs`. */
  lemma InstanceScopeDescriptions(xs: seq<Instance>, kind: InstanceKind)
    ensures forall d :: d in InstanceScope(xs, kind) <==>
      exists x :: x in xs && KindOf(x) == kind && d == Description(Id(NodeOf(x)), NodeOf(x))
  {
    var f := Filter(xs, kind);
    DescribeFacts(InstanceNodes(f));
    forall d | d in InstanceScope(xs, kind)
      ensures exists x :: x in xs && KindOf(x) == kind && d == Description(Id(NodeOf(x)), NodeOf(x))
    {
      var k :| 0 <= k < |f| && InstanceNodes(f)[k] == d.node;
      assert f[k] in f;
    }
    forall x | x in xs && KindOf(x) == kind
      ensures Description(Id(NodeOf(x)), NodeOf(x)) in InstanceScope(xs, kind)
    {
      var k :| 0 <= k < |f| && f[k] == x;
      assert InstanceNodes(f)[k] == NodeOf(x);
    }
  }

  /** (Mission, `environment`): exactly the Environment instances of the
      enclosing model, each named by its id. */
  lemma EnvironmentRule(site: ReferenceSite, m: Model)
    requires IsEnvironmentSite(site) && site.model == Some(m)
    ensures forall d :: d in GetScope(site) <==>
      d.node.EnvironmentNode? && d.name == d.node.environment.id && EnvironmentInstance(d.node.environment) in m.instances
    ensures forall n :: n in Nodes(GetScope(site)) <==> n.EnvironmentNode? && EnvironmentInstance(n.environment) in m.instances
  {
    var s := GetScope(site);
    assert s == InstanceScope(m.instances, EnvironmentKind);
    InstanceScopeDescriptions(m.instances, EnvironmentKind);
    DescribeFacts(InstanceNodes(Filter(m.instances, EnvironmentKind)));
    forall d: Description ensures d in s <==>
      d.node.EnvironmentNode? && d.name == d.node.environment.id && EnvironmentInstance(d.node.environment) in m.instances
    {
      if d.node.EnvironmentNode? {
        assert NodeOf(EnvironmentInstance(d.node.environment)) == d.node;
      }
    }
    forall n: Node ensures n in Nodes(s) <==> Description(Id(n), n) in s {
    }
  }

  /** (Mission, `environment`): one entry per Environment instance, the
      `p`-th entry describing the `p`-th environment, in model order. */
  lemma EnvironmentRuleOrder(site: ReferenceSite, m: Model)
    requires IsEnvironmentSite(site) && site.model == Some(m)
    ensures forall i, j :: 0 <= i < j < |m.instances| && m.instances[i].EnvironmentInstance? && m.instances[j].EnvironmentInstance? ==>
      exists p, q :: 0 <= p < q < |GetScope(site)| &&
        GetScope(site)[p].node == NodeOf(m.instances[i]) && GetScope(site)[q].node == NodeOf(m.instances[j])
    ensures |GetScope(site)| == |Filter(m.instances, EnvironmentKind)|
    ensures forall i :: 0 <= i < |m.instances| && m.instances[i].EnvironmentInstance? ==>
      Rank(m.instances, EnvironmentKind, i) < |GetScope(site)| &&
      GetScope(site)[Rank(m.instances, EnvironmentKind, i)] == Description(m.instances[i].environment.id, NodeOf(m.instances[i]))
    ensures forall p :: 0 <= p < |GetScope(site)| ==>
      m.instances[PositionOfRank(m.instances, EnvironmentKind, p)].EnvironmentInstance? &&
      GetScope(site)[p] == Description(Id(NodeOf(m.instances[PositionOfRank(m.instances, EnvironmentKind, p)])),
                                       NodeOf(m.instances[PositionOfRank(m.instances, EnvironmentKind, p)]))
  {
    assert GetScope(site) == InstanceScope(m.instances, EnvironmentKind);
    InstanceScopeOrder(m.instances, EnvironmentKind);
    InstanceScopeByRank(m.instances, EnvironmentKind);
  }

  /** (Mission or Task, `robots`): exactly the Robot instances of the
      enclosing model, each named by its id. */
  lemma RobotRule(site: ReferenceSite, m: Model)
    requires IsRobotSite(site) && site.model == Some(m)
    ensures forall d :: d in GetScope(site) <==>
      d.node.RobotNode? && d.name == d.node.robot.id && RobotInstance(d.node.robot) in m.instances
    ensures forall n :: n in Nodes(GetScope(site)) <==> n.RobotNode? && RobotInstance(n.robot) in m.instances
  {
    var s := GetScope(site);
    assert s == InstanceScope(m.instances, RobotKind);
    InstanceScopeDescriptions(m.instances, RobotKind);
    DescribeFacts(InstanceNodes(Filter(m.instances, RobotKind)));
    forall d: Description ensures d in s <==>
      d.node.RobotNode? && d.name == d.node.robot.id && RobotInstance(d.node.robot) in m.instances
    {
      if d.node.RobotNode? {
        assert NodeOf(RobotInstance(d.node.robot)) == d.node;
      }
    }
    forall n: Node ensures n in Nodes(s) <==> Description(Id(n), n) in s {
    }
  }

  /** (Mission or Task, `robots`): one entry per Robot instance, the
      `p`-th entry describing the `p`-th robot, in model order. */
  lemma RobotRuleOrder(site: ReferenceSite, m: Model)
    requires IsRobotSite(site) && site.model == Some(m)
    ensures forall i, j :: 0 <= i < j < |m.instances| && m.instances[i].RobotInstance? && m.instances[j].RobotInstance? ==>
      exists p, q :: 0 <= p < q < |GetScope(site)| &&
        GetScope(site)[p].node == NodeOf(m.instances[i]) && GetScope(site)[q].node == NodeOf(m.instances[j])
    ensures |GetScope(site)| == |Filter(m.instances, RobotKind)|
    ensures forall i :: 0 <= i < |m.instances| && m.instances[i].RobotInstance? ==>
      Rank(m.instances, RobotKind, i) < |GetScope(site)| &&
      GetScope(site)[Rank(m.instances, RobotKind, i)] == Description(m.instances[i].robot.id, NodeOf(m.instances[i]))
    ensures forall p :: 0 <= p < |GetScope(site)| ==>
      m.instances[PositionOfRank(m.instances, RobotKind, p)].RobotInstance? &&
      GetScope(site)[p] == Description(Id(NodeOf(m.instances[PositionOfRank(m.instances, RobotKind, p)])),
                                       NodeOf(m.instances[PositionOfRank(m.instances, RobotKind, p)]))
  {
    assert GetScope(site) == InstanceScope(m.instances, RobotKind);
    InstanceScopeOrder(m.instances, RobotKind);
    InstanceScopeByRank(m.instances, RobotKind);
  }

  /** Only the property name `robots` selects the robot rule: at any other
      site no candidate is a robot, and the property `robot` yields nothing. */
  lemma RobotRuleNeedsExactProperty(site: ReferenceSite)
    ensures site.property != "robots" ==> forall n :: n in Nodes(GetScope(site)) ==> !n.RobotNode?
    ensures site.property == "robot" ==> GetScope(site) == EmptyScope
  {
  }

  /** (Task, `pickupObject` / `dropObject`) in a mission whose environment
      reference resolved to `e`: exactly the objects of `e`, in order, each
      named by its id. */
  lemma WorldObjectRule(site: ReferenceSite, ms: Mission, e: Environment)
    requires IsWorldObjectSite(site) && site.mission == Some(ms) && ms.environment == Some(e)
    ensures |GetScope(site)| == |e.objects|
    ensures forall k :: 0 <= k < |e.objects| ==>
      GetScope(site)[k] == Description(e.objects[k].id, WorldObjectNode(e.objects[k]))
    ensures forall n :: n in Nodes(GetScope(site)) <==> n.WorldObjectNode? && n.worldObject in e.objects
  {
    var s := GetScope(site);
    forall n | n in Nodes(s) ensures n.WorldObjectNode? && n.worldObject in e.objects {
      var k :| 0 <= k < |s| && Nodes(s)[k] == n;
      assert n == WorldObjectNode(e.objects[k]);
    }
    forall o | o in e.objects ensures WorldObjectNode(o) in Nodes(s) {
      var k :| 0 <= k < |e.objects| && e.objects[k] == o;
      assert Nodes(s)[k] == WorldObjectNode(o);
    }
  }

  /** Locality: a world object that another environment `other` owns and
      the mission's environment does not is never a candidate, even when its
      id equals a candidate's name. `other` only describes the scene: that
      `e` does not own `o` is what excludes it. */
  lemma ForeignWorldObjectIsNoCandidate(site: ReferenceSite, ms: Mission, e: Environment, other: Environment, o: WorldObject)
    requires IsWorldObjectSite(site) && site.mission == Some(ms) && ms.environment == Some(e)
    requires o in other.objects && o !in e.objects
    ensures WorldObjectNode(o) !in Nodes(GetScope(site))
    ensures forall d :: d in GetScope(site) ==> d.node != WorldObjectNode(o)
  {
  }

  /** (Task, `obstacle`) in a mission whose environment reference resolved
      to `e`: exactly the obstacles of `e`, in order, each named by its id. */
  lemma ObstacleRule(site: ReferenceSite, ms: Mission, e: Environment)
    requires IsObstacleSite(site) && site.mission == Some(ms) && ms.environment == Some(e)
    ensures |GetScope(site)| == |e.obstacles|
    ensures forall k :: 0 <= k < |e.obstacles| ==>
      GetScope(site)[k] == Description(e.obstacles[k].id, ObstacleNode(e.obstacles[k]))
    ensures forall n :: n in Nodes(GetScope(site)) <==> n.ObstacleNode? && n.obstacle in e.obstacles
  {
    var s := GetScope(site);
    forall n | n in Nodes(s) ensures n.ObstacleNode? && n.obstacle in e.obstacles {
      var k :| 0 <= k < |s| && Nodes(s)[k] == n;
      assert n == ObstacleNode(e.obstacles[k]);
    }
    forall o | o in e.obstacles ensures ObstacleNode(o) in Nodes(s) {
      var k :| 0 <= k < |e.obstacles| && e.obstacles[k] == o;
      assert Nodes(s)[k] == ObstacleNode(o);
    }
  }

  // ---------------------------------------------------------------------
  // Fallbacks to the empty scope.

  /** An unresolved mission environment leaves objects and obstacles
      without candidates. */
  lemma UnresolvedEnvironmentGivesEmptyScope(site: ReferenceSite, ms: Mission)
    requires IsWorldObjectSite(site) || IsObstacleSite(site)
    requires site.mission == Some(ms) && ms.environment == None
    ensures GetScope(site) == EmptyScope
  {
  }

  /** A site without the ancestor its rule looks up has no candidates. */
  lemma MissingAncestorGivesEmptyScope(site: ReferenceSite)
    ensures (IsEnvironmentSite(site) || IsRobotSite(site)) && site.model == None ==> GetScope(site) == EmptyScope
    ensures (IsWorldObjectSite(site) || IsObstacleSite(site)) && site.mission == None ==> GetScope(site) == EmptyScope
  {
  }

  /** A site that no rule covers has the empty scope. */
  lemma UncoveredSiteGivesEmptyScope(site: ReferenceSite)
    requires !IsEnvironmentSite(site) && !IsRobotSite(site) && !IsWorldObjectSite(site) && !IsObstacleSite(site)
    ensures GetScope(site) == EmptyScope
  {
  }

  /** The four guards test disjoint property names, so at most one holds and
      the order in which they are tried does not matter. */
  lemma RulesAreExclusive(site: ReferenceSite)
    ensures IsEnvironmentSite(site) ==> !IsRobotSite(site) && !IsWorldObjectSite(site) && !IsObstacleSite(site)
    ensures IsRobotSite(site) ==> !IsWorldObjectSite(site) && !IsObstacleSite(site)
    ensures IsWorldObjectSite(site) ==> !IsObstacleSite(site)
  {
  }

  /** Every candidate is named by its id and has the node type of the rule
      whose guard the site meets; a mission is never a candidate. */
  lemma CandidateKinds(site: ReferenceSite, n: Node)
    requires n in Nodes(GetScope(site))
    ensures exists d :: d in GetScope(site) && d.node == n && d.name == Id(n)
    ensures !n.MissionNode?
    ensures n.EnvironmentNode? ==> IsEnvironmentSite(site)
    ensures n.RobotNode? ==> IsRobotSite(site)
    ensures n.WorldObjectNode? ==> IsWorldObjectSite(site)
    ensures n.ObstacleNode? ==> IsObstacleSite(site)
  {
  }

  // ---------------------------------------------------------------------
  // Binding a mission's environment reference by name.

  /** The environment reference named `x` may bind to any environment of
      the model whose id is `x`, and stays unbound when there is none. */
  lemma EnvironmentBinding(site: ReferenceSite, m: Model, x: string, target: Option<Node>)
    requires IsEnvironmentSite(site) && site.model == Some(m)
    ensures Binds(GetScope(site), x, target) <==>
      match target
      case Some(n) => n.EnvironmentNode? && n.environment.id == x && EnvironmentInstance(n.environment) in m.instances
      case None => forall e :: EnvironmentInstance(e) in m.instances ==> e.id != x
  {
    EnvironmentRule(site, m);
    if target.None? && forall d :: d in GetScope(site) ==> d.name != x {
      forall e | EnvironmentInstance(e) in m.instances ensures e.id != x {
        assert Description(e.id, EnvironmentNode(e)) in GetScope(site);
      }
    }
  }

  /** No two different Environment instances of `m` share an id. */
  ghost predicate UniqueEnvironmentIds(m: Model) {
    forall i, j ::
      0 <= i < |m.instances| && 0 <= j < |m.instances| &&
      m.instances[i].EnvironmentInstance? && m.instances[j].EnvironmentInstance? &&
      m.instances[i].environment.id == m.instances[j].environment.id
      ==> m.instances[i] == m.instances[j]
  }

  /** With distinct environment ids the binding of a name is determined. */
  lemma UniqueIdsBindDeterministically(site: ReferenceSite, m: Model, x: string, t1: Option<Node>, t2: Option<Node>)
    requires IsEnvironmentSite(site) && site.model == Some(m) && UniqueEnvironmentIds(m)
    requires Binds(GetScope(site), x, t1) && Binds(GetScope(site), x, t2)
    ensures t1 == t2
  {
  }

  /** A model declaring environments `E1` and `E2` and a mission: the
      mission's environment reference named `E2` binds to `E2` and never to
      `E1`, and one named `E3` stays unbound. */
  lemma BindingExample(e1: Environment, e2: Environment, ms: Mission, target: Option<Node>)
    requires e1.id == "E1" && e2.id == "E2"
    ensures var site := ReferenceSite(MissionContainer, "environment",
                                      Some(Model([EnvironmentInstance(e1), EnvironmentInstance(e2), MissionInstance(ms)])), Some(ms));
      (Binds(GetScope(site), "E2", target) <==> target == Some(EnvironmentNode(e2))) &&
      (Binds(GetScope(site), "E3", target) <==> target == None)
  {
    var m := Model([EnvironmentInstance(e1), EnvironmentInstance(e2), MissionInstance(ms)]);
    var site := ReferenceSite(MissionContainer, "environment", Some(m), Some(ms));
    EnvironmentBinding(site, m, "E2", target);
    EnvironmentBinding(site, m, "E3", target);
    assert EnvironmentInstance(e2) in m.instances;
    if target.Some? && target.value.EnvironmentNode? && EnvironmentInstance(target.value.environment) in m.instances {
      assert target.value.environment == e1 || target.value.environment == e2;
    }
  }
}
