/** The tree a parsed robot-mission model is made of.  Every node kind of the
    language that the scope provider and the validator look at is a datatype
    here; a cross-reference that the linker has filled in is an `Option` of
    the node it points to (`None` while it is unresolved). */
module Ast {

  import opened Wrappers

  /** Arithmetic used for sizes, positions and robot figures: a numeric
      literal or a binary operator applied to two sub-expressions. These are
      carried as data only; nothing in this model evaluates them. */
  datatype Expression =
    | Literal(value: real)
    | Binary(operator: string, left: Expression, right: Expression)

  datatype Position = Position(x: Expression, y: Expression, z: Expression)

  datatype Size = Size(length: Expression, width: Expression, height: Expression)

  datatype Robot = Robot(id: string, robotType: string, battery: Expression, capacity: Expression)

  datatype WorldObject = WorldObject(id: string, position: Position, size: Size, weight: Expression)

  datatype Obstacle = Obstacle(id: string, position: Position, size: Size, obstacleType: string)

  /** An environment owns its world objects and its obstacles, each list in
      the order the model text declares them. */
  datatype Environment = Environment(id: string, size: Size, objects: seq<WorldObject>, obstacles: seq<Obstacle>)

  /** A mission; `environment` is the resolved target of its `environment`
      cross-reference, `None` when that reference did not resolve. */
  datatype Mission = Mission(id: string, description: Option<string>, environment: Option<Environment>)

  /** A top-level declaration of the model. */
  datatype Instance =
    | RobotInstance(robot: Robot)
    | EnvironmentInstance(environment: Environment)
    | MissionInstance(mission: Mission)

  /** The root: all instances, in declaration order. */
  datatype Model = Model(instances: seq<Instance>)

  /** A node a cross-reference can be bound to, tagged with its node type. */
  datatype Node =
    | RobotNode(robot: Robot)
    | EnvironmentNode(environment: Environment)
    | MissionNode(mission: Mission)
    | WorldObjectNode(worldObject: WorldObject)
    | ObstacleNode(obstacle: Obstacle)

  /** The node an instance is. */
  function NodeOf(i: Instance): (n: Node)
    ensures n.RobotNode? <==> i.RobotInstance?
    ensures n.EnvironmentNode? <==> i.EnvironmentInstance?
    ensures n.MissionNode? <==> i.MissionInstance?
  {
    match i
    case RobotInstance(r) => RobotNode(r)
    case EnvironmentInstance(e) => EnvironmentNode(e)
    case MissionInstance(m) => MissionNode(m)
  }

  /** The `id` attribute every nameable node carries. */
  function Id(n: Node): string {
    match n
    case RobotNode(r) => r.id
    case EnvironmentNode(e) => e.id
    case MissionNode(m) => m.id
    case WorldObjectNode(o) => o.id
    case ObstacleNode(o) => o.id
  }
}
