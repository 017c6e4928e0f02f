# Robot Mission Master: scope provider and Person check

This project models two pieces of the semantic layer of the Robot Mission
Master modelling language and proves properties of them in Dafny:

- **The scope provider** (`RobotMissionMasterScopeProvider.getScope`). Its
  input is a reference site: the node holding a cross-reference, plus the
  name of the property being resolved. Its output is the ordered list of
  candidates the linker may bind that reference to. Each candidate is named
  by its `id`. The rules:
  - A Mission's `environment` sees every Environment of the enclosing Model.
  - A Mission's or Task's `robots` sees every Robot of the Model.
  - A Task's `pickupObject` and `dropObject` see the world objects of the
    environment that the enclosing Mission's `environment` reference
    resolved to.
  - A Task's `obstacle` sees that environment's obstacles.
  - Every other site sees nothing.
- **The validator check** `checkPersonStartsWithCapital`. It reports one
  warning when a Person's name starts with a character that upper-casing
  changes.

Files:

- `wrappers.dfy`: `Option`.
- `ast.dfy`: the tree. A Model holds its instances (Robot, Environment,
  Mission). An Environment holds its world objects and obstacles. A Mission
  holds the resolved target of its `environment` reference as an `Option`.
- `scope_provider.dfy`: reference sites, descriptions and scopes, `GetScope`
  and its four helpers, and the lemmas about them.
- `validator.dfy`: Person, diagnostics, ASCII upper-casing, the check, and
  the lemmas about it.

A reference site is modelled as a value. It holds the container's node type
(Mission, Task or anything else), the property name, and the nearest
enclosing Model and Mission as `Option`s. This stands in for the ancestor
walk `AstUtils.getContainerOfType`. A scope is the sequence of its
descriptions, each a (name, node) pair. The linker's name matching is the
relation `Binds`: the reference is bound to some candidate carrying its
name, or left unbound when no candidate does. Which of several equally named
candidates wins is deliberately not fixed.

Only the property name `robots` selects the robot rule
(src/language/scope-provider.ts:20); `robot` falls through to the empty
scope (`RobotRuleNeedsExactProperty`).

## Model

| member | source | states |
|---|---|---|
| ScopeProvider.Filter | src/language/scope-provider.ts:40 | the filtered list keeps exactly the instances of the requested node type, is no longer than the input, and holds nothing of another type |
| ScopeProvider.GetScope | src/language/scope-provider.ts:13-33 | every candidate is named by its node's id and is never a Mission, and a site meeting none of the four guards gets the empty scope; each rule's result is pinned down by EnvironmentRule, RobotRule, WorldObjectRule and ObstacleRule |
| ScopeProvider.ScopeForEnvironment | src/language/scope-provider.ts:35-43 | no enclosing Model gives the empty scope; every candidate is an Environment instance of the Model named by its id (exact content and order: EnvironmentRule, EnvironmentRuleOrder) |
| ScopeProvider.ScopeForRobots | src/language/scope-provider.ts:45-53 | no enclosing Model gives the empty scope; every candidate is a Robot instance of the Model named by its id (exact content and order: RobotRule, RobotRuleOrder) |
| ScopeProvider.ScopeForWorldObjects | src/language/scope-provider.ts:55-67 | no enclosing Mission or an unresolved environment gives the empty scope; every candidate is a world object of the resolved environment named by its id (exact content and order: WorldObjectRule) |
| ScopeProvider.ScopeForObstacles | src/language/scope-provider.ts:69-81 | no enclosing Mission or an unresolved environment gives the empty scope; every candidate is an obstacle of the resolved environment named by its id (exact content and order: ObstacleRule) |
| ScopeProvider.Binds | src/language/scope-provider.ts:40-42 | the linker's use of a scope: a reference is bound to some candidate carrying its name, or unbound when none does; specified by EnvironmentBinding, UniqueIdsBindDeterministically and BindingExample |
| ScopeProvider.InstanceScopeByRank | src/language/scope-provider.ts:40-42 | an instance scope has exactly as many entries as there are instances of the type; the instance at position `i` is described at its rank, and the entry at position `p` describes the `p`-th instance of the type |
| ScopeProvider.DescribeFacts | src/language/scope-provider.ts:41 | describing a node list keeps the nodes in order, and a description is in the result iff its node is in the list and its name is that node's id |
| ScopeProvider.InstanceScopeDescriptions | src/language/scope-provider.ts:40-42 | an instance scope holds exactly the descriptions (id, node) of the instances of the requested type |
| ScopeProvider.InstanceScopeOrder | src/language/scope-provider.ts:40-41 | two instances of the requested type keep their relative model order in the scope |
| ScopeProvider.EnvironmentRule | src/language/scope-provider.ts:35-42 | for (Mission, `environment`) with an enclosing Model, a description is a candidate iff it names an Environment instance of that Model by its id; no other node type occurs |
| ScopeProvider.EnvironmentRuleOrder | src/language/scope-provider.ts:40-42 | for (Mission, `environment`), the scope has exactly one entry per Environment instance, the `p`-th entry describes the `p`-th Environment by (id, node), and any two environments keep their model order |
| ScopeProvider.RobotRule | src/language/scope-provider.ts:45-52 | for (Mission or Task, `robots`) with an enclosing Model, a description is a candidate iff it names a Robot instance of that Model by its id; no other node type occurs |
| ScopeProvider.RobotRuleOrder | src/language/scope-provider.ts:50-52 | for (Mission or Task, `robots`), the scope has exactly one entry per Robot instance, the `p`-th entry describes the `p`-th Robot by (id, node), and any two robots keep their model order |
| ScopeProvider.RobotRuleNeedsExactProperty | src/language/scope-provider.ts:20-21 | a property other than `robots` never yields a robot, and the property `robot` yields the empty scope |
| ScopeProvider.WorldObjectRule | src/language/scope-provider.ts:55-64 | for (Task, `pickupObject`/`dropObject`) whose Mission's environment resolved to `e`, the scope is `e`'s objects, position by position, each named by its id, and an object is a candidate iff `e` owns it |
| ScopeProvider.ForeignWorldObjectIsNoCandidate | src/language/scope-provider.ts:60-64 | a world object that another environment owns and the mission's environment does not is never a candidate, whatever its id |
| ScopeProvider.ObstacleRule | src/language/scope-provider.ts:69-78 | for (Task, `obstacle`) whose Mission's environment resolved to `e`, the scope is `e`'s obstacles, position by position, each named by its id, and an obstacle is a candidate iff `e` owns it |
| ScopeProvider.UnresolvedEnvironmentGivesEmptyScope | src/language/scope-provider.ts:55-80 | when the Mission's environment reference is unresolved, the object and obstacle scopes are empty |
| ScopeProvider.MissingAncestorGivesEmptyScope | src/language/scope-provider.ts:35-73 | a missing enclosing Model (environment and robot rules) or Mission (object and obstacle rules) yields the empty scope |
| ScopeProvider.UncoveredSiteGivesEmptyScope | src/language/scope-provider.ts:13-32 | a site that meets none of the four guards has the empty scope |
| ScopeProvider.RulesAreExclusive | src/language/scope-provider.ts:16-29 | at most one of the four guards holds for any site, so the order of the tests is immaterial |
| ScopeProvider.CandidateKinds | src/language/scope-provider.ts:13-32 | every candidate is named by its id, is never a Mission, and has the node type of the one rule the site meets |
| ScopeProvider.EnvironmentBinding | src/language/scope-provider.ts:40-42 | the environment reference named `x` binds exactly to Environments of the Model with id `x`, and is unbound iff there is none |
| ScopeProvider.UniqueIdsBindDeterministically | src/language/scope-provider.ts:40-42 | when the Model's environment ids are distinct, the binding of a name is determined |
| ScopeProvider.BindingExample | src/language/scope-provider.ts:35-42 | with Environments `E1`, `E2`, the name `E2` binds to `E2` only and `E3` stays unbound |
| Validator.ToUpper | src/language/robot-mission-master-validator.ts:25 | upper-casing maps `a`..`z` to `A`..`Z` and leaves every other character alone |
| Validator.ToUpperChangesOnlyLowercase | src/language/robot-mission-master-validator.ts:25 | upper-casing changes a character iff it is a lower-case letter, and is idempotent |
| Validator.CheckPersonStartsWithCapital | src/language/robot-mission-master-validator.ts:22-29 | at most one diagnostic; one iff the name is present, non-empty and its first character changes under upper-casing; any diagnostic is a warning with the fixed message on the person's `name` |
| Validator.WarnsIffLowercaseStart | src/language/robot-mission-master-validator.ts:23-27 | the check reports iff the name starts with an ASCII lower-case letter (`a`..`z`) |
| Validator.NoNameNoDiagnostic | src/language/robot-mission-master-validator.ts:23 | an absent or empty name gives no diagnostic |
| Validator.UnchangedFirstCharNoDiagnostic | src/language/robot-mission-master-validator.ts:24-25 | a first character equal to its upper-case form gives no diagnostic |
| Validator.CapitalOrDigitStartNoDiagnostic | src/language/robot-mission-master-validator.ts:24-25 | a name starting with an upper-case ASCII letter or a digit gives no diagnostic |
| Validator.LowercaseStartWarnsOnce | src/language/robot-mission-master-validator.ts:25-26 | a lower-case first letter gives exactly one warning "Person name should start with a capital." on property `name` |
| Validator.OnlyFirstCharacterMatters | src/language/robot-mission-master-validator.ts:24 | two names with the same first character get the same outcome, whatever follows |

## Left out

- ToUpper: covers ASCII only; `toUpperCase` in JavaScript also changes non-ASCII lower-case letters (and may return several characters), so a name such as `élan` is not reported by this model.
- CheckPersonStartsWithCapital: inherits the ASCII restriction of `ToUpper`; the first character is one `char`, not a UTF-16 code unit.
- `registerValidationChecks` and `ValidationRegistry.register`: the one-entry check table is registration glue in the framework; the model calls the check directly.
- The `astNodeDescriptionProvider` field and the constructor: dependency injection only; a description is modelled as (id, node).
- Langium's `MapScope` name lookup, `createDescription`, `getContainerOfType` and the linker are library code that is not part of this model; they are abstracted as described above (scope as a sequence, ancestors as `Option`, binding as the `Binds` relation).
- Node identity: nodes are values, so two nodes with equal contents are the same node here. World objects and obstacles carry their position and size so that two of them with the same id can differ.
- The wrapper nodes behind `environment.objects.objects` and `environment.obstacles.obstacles` are flattened into the Environment's two sequences.
- A Task's own attributes, a Mission's robot references and tasks, and the exporter's view: the scope provider never reads them.
- The order in which references resolve: the model receives a Mission whose `environment` reference is already resolved or not.
- src/cli/generator.ts, static/setupExtended.js, static/setupClassic.js: string conversion of the instance list, browser editor setup and file I/O, with no logic to state.
- Expression evaluation, instance-id uniqueness and size positivity checks: no modelled source file implements them; the expressions are carried as data only.
