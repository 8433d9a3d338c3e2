# A minimal entity-component-system runtime, modelled in Dafny

The program (`main.cpp`) is a small entity-component-system runtime. An
entity keeps at most one component per component type, in a map from the
type's tag (`std::type_index`) to the component. `addComponent<T>` inserts a
new component or returns the one already stored. `getComponent<T>` returns
the stored component or null. `removeComponent<T>` erases the entry. A
system holds a vector of components and calls each one's `update` hook. The
game engine holds a vector of entities and a vector of systems and updates
every system once per frame. A built-in self-test, `testComponents`, adds,
looks up and removes components on one player entity. It asserts the size
of the map at seven points and whether each of five returned handles is
null.

The model has three modules:

- `Registry` (registry.dfy) models the component map as a value. `AfterAdd`,
  `AfterRemove` and `Lookup` are what the three entity operations do to the
  map. The lemmas prove idempotence, that remove undoes add, and that over
  any history of adds and removes an entity holds a tag exactly when the
  last call on that tag was an add.
- `Ecs` (ecs.dfy) has the classes `Component`, `Entity`, `System` and
  `GameEngine`. The entity and engine methods that change state update
  fields in place, as the source does; `GetComponent` changes nothing.
  The `ensures` of the entity methods tie the map to the `Registry`
  functions, and those of the two update methods tie the calls made to
  `Visits`/`FrameVisits`, which list the update-hook calls one frame makes.
  `CreateEntity`, `AddSystem` and the constructors state their effect
  directly.
- `Scenario` (scenario.dfy) replays the self-test in the model and proves
  every size and null/non-null outcome it asserts.

Modelling choices:

- Type tags are the datatype `Tag = Position | Render`, one tag per
  component class of the source.
- The `init` and `update` hooks are virtual and do nothing in the base
  class. No class overrides `init`; the `update` overrides of
  `PositionComponent` and `RenderComponent` only print. Here both are
  abstract hooks with one recorded effect each. `Init` records that it ran
  and which entity the back-reference named at that moment. `Update` appends
  a `Visit` (component, elapsed time) to the ghost log of a `Trace`, so that
  the update loops can state which components they visited, how often and
  in which order.
- `createEntity` and `addSystem` allocate an object, push a *copy* of it into
  the vector, and return the original. The model does the same. The
  contracts say that the stored element is a fresh object distinct from the
  one returned, and that it starts with an empty map or component vector.
- A component's `entity` pointer is left uninitialised by the source until
  `addComponent` sets it. The model starts it at `null`.
- No entity's components are touched by another entity's operations. This
  follows from the frames: `AddComponent` and `RemoveComponent` modify only
  `this` (and, for a new component, that fresh object).
- The elapsed time is the opaque value `deltaTime: real`. It is passed
  through and never computed with.

## Model

| member | source | states |
|---|---|---|
| `Registry.AfterAdd` | main.cpp:34-44 | after add the tag is present; an existing entry is kept (no overwrite), otherwise the new value is stored; every other entry is unchanged; the size grows by one exactly when the tag was absent |
| `Registry.AfterRemove` | main.cpp:56-59 | after remove the tag is absent; every remaining entry is unchanged; the size drops by one exactly when the tag was present |
| `Registry.AddIdempotent` | main.cpp:35-38 | adding the same tag a second time, with any value, leaves the map as the first add left it |
| `Registry.RemoveUndoesAdd` | main.cpp:39-41 | removing a tag that was just added to a map without it gives back the original map |
| `Registry.LookupAfterAdd` | main.cpp:34-44 | after an add, getting the same tag finds the component that was already stored, or else the newly added one |
| `Registry.LookupAfterRemove` | main.cpp:56-59 | after a remove, getting the same tag finds nothing, for every map |
| `Registry.RemoveAbsentIsNoop` | main.cpp:57 | removing an absent tag is a no-op |
| `Registry.HeldIffLastIsAttach` | main.cpp:34-59 | after any history of adds and removes, a tag is in the map exactly when the last call on that tag was an add, or, with no call on it, when it was there at the start |
| `Ecs.Component.constructor` | main.cpp:39 | a new component has the requested type, no back-reference yet, and has not been initialised |
| `Ecs.Component.Init` | main.cpp:20 | the init hook runs and observes the component's current back-reference |
| `Ecs.Component.Update` | main.cpp:22 | the update hook is called once, for this component and this elapsed time |
| `Ecs.Visits` | main.cpp:66-70 | a pass over a component vector makes exactly one hook call per element |
| `Ecs.VisitsAppend` | main.cpp:66-70 | visiting two vectors in a row is visiting their concatenation |
| `Ecs.VisitsInIndexOrder` | main.cpp:66-70 | the i-th call of a pass is the i-th component's, so each is visited once, in index order |
| `Ecs.Entity.constructor` | main.cpp:29-31 | a new entity has an empty component map |
| `Ecs.Entity.Copy` | main.cpp:137 | the copy pushed into the entity vector has the same component map |
| `Ecs.Entity.AddComponent` | main.cpp:34-44 | the map becomes `AfterAdd` of the old map; an existing component is returned and nothing changes; otherwise a fresh component of type T is stored, its back-reference is this entity, and that back-reference was already set when its init hook ran |
| `Ecs.Entity.GetComponent` | main.cpp:47-53 | returns what `Registry.Lookup` finds in the map, null when it finds nothing, and the stored component has the requested type; it modifies nothing |
| `Ecs.Entity.RemoveComponent` | main.cpp:56-59 | the map becomes `AfterRemove` of the old map |
| `Ecs.System.constructor` | main.cpp:105-107 | a new system starts with an empty component vector |
| `Ecs.System.Copy` | main.cpp:144 | the copy pushed into the system vector has the same component vector |
| `Ecs.System.Update` | main.cpp:66-70 | the hook calls made are exactly `Visits` of the component vector: one per component, in index order |
| `Ecs.FrameVisits` | main.cpp:128-132 | one frame's hook calls: each system's `Visits`, system by system in index order, one call per component of every system |
| `Ecs.FrameVisitsAppend` | main.cpp:128-132 | the calls of a frame over two runs of systems are the first run's calls followed by the second's |
| `Ecs.FrameVisitsSlice` | main.cpp:128-132 | the calls of a frame are those of the systems before system i, then system i's own pass, then those of the systems after it |
| `Ecs.GameEngine.constructor` | main.cpp:123-126 | a new engine has no entities and no systems |
| `Ecs.GameEngine.Update` | main.cpp:128-132 | the hook calls made are exactly `FrameVisits` of the system vector: every system's pass, system by system in index order |
| `Ecs.GameEngine.CreateEntity` | main.cpp:135-139 | the entity vector grows by exactly one fresh, empty entity, earlier entries and the systems are unchanged, and the entity returned is a different object from the one stored |
| `Ecs.GameEngine.AddSystem` | main.cpp:142-146 | the system vector grows by exactly one fresh system with no components, earlier entries and the entities are unchanged, and the system returned is a different object from the one stored |
| `Scenario.TestComponents` | main.cpp:161-202 | the self-test's map sizes are 0, 1, 1, 1, 2, 1, 0 at its seven checks, and its five handles are non-null, non-null, null, non-null, null |

## Left out

- Console output (`printf` and `typeid(...).name()`): it has no effect on state.
- The position payload `x, y` and its constructor arguments: floating-point
  data that is only stored and printed. The model's components carry only
  their type tag and back-reference.
- Object slicing and field hiding. `std::vector<System>` stores sliced
  base-class copies, and `PositionSystem`/`RenderSystem` declare their own
  `components` vectors that hide the base one. The model's `System` is the
  base class only. Its `Copy` says what the stored base-class slice contains.
  `System::components` is itself a `std::vector<Component>` of sliced
  values. So in the source `components[i].update` always runs the base
  no-op, and its elements are copies that cannot alias any entity's
  component. The model's `System.components` holds shared references to
  `Component` objects. It does not capture that value semantics, and its
  `Update` calls the abstract hook rather than the base no-op.
- Virtual dispatch of `init`/`update`: they are abstract hooks with the
  recorded effects described above. `RenderSystem::update` hides
  `System::update` and only prints, so it is not modelled separately.
- Heap leaks and the lifetime of the `new`-allocated originals: Dafny has no
  deallocation.
- Subtypes `PlayerEntity`, `PositionSystem` and `RenderSystem` have no
  behaviour beyond their base classes apart from printing. `CreateEntity`
  and `AddSystem` therefore take no type argument.
- `main`, the `assertm` macro and the build comment: program entry and test
  harness.
