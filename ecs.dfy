/**
 * The virtual-dispatch design of the entity-component-system runtime in
 * main.cpp: components, entities holding one component per type tag,
 * systems holding a vector of components, and the engine that owns the
 * entities and the systems.
 */
module Ecs {
  import opened Registry

  /** The type tag of a concrete component type (`typeid(T)` in the source). */
  datatype Tag = Position | Render

  /** One call of a component's update hook, with the elapsed time it was given. */
  datatype Visit = Visit(component: Component, deltaTime: real)

  /**
   * The observable effect of the per-frame update hooks, in the order they
   * were called. The hooks themselves are abstract; this log is what lets the
   * update loops state which components were visited, how often, and in
   * which order.
   */
  class Trace {
    ghost var log: seq<Visit>

    constructor ()
      ensures log == []
    {
      log := [];
    }
  }

  /**
   * A component: the concrete type it was created as, and the back-reference
   * to the entity that owns it. The ghost fields record the one observable
   * thing about the abstract `init` hook: whether it ran, and which entity
   * the back-reference named at that moment.
   */
  class Component {
    const tag: Tag
    var entity: Entity?
    ghost var initialised: bool
    ghost var entityAtInit: Entity?

    constructor (tag: Tag)
      ensures this.tag == tag && entity == null && !initialised
    {
      this.tag := tag;
      entity := null;
      initialised := false;
      entityAtInit := null;
    }

    /** The `init` hook, run once the component is attached. */
    method Init()
      modifies this`initialised, this`entityAtInit
      ensures initialised && entityAtInit == entity
    {
      initialised := true;
      entityAtInit := entity;
    }

    /** The per-frame `update` hook. */
    method Update(deltaTime: real, trace: Trace)
      modifies trace
      ensures trace.log == old(trace.log) + [Visit(this, deltaTime)]
    {
      trace.log := trace.log + [Visit(this, deltaTime)];
    }
  }

  /** A sequence of components, one Visit per component in index order. */
  function Visits(cs: seq<Component>, deltaTime: real): (r: seq<Visit>)
    ensures |r| == |cs|
  {
    if cs == [] then [] else [Visit(cs[0], deltaTime)] + Visits(cs[1..], deltaTime)
  }

  /** Visiting a concatenation visits the first part, then the second. */
  lemma {:induction false} VisitsAppend(a: seq<Component>, b: seq<Component>, deltaTime: real)
    ensures Visits(a + b, deltaTime) == Visits(a, deltaTime) + Visits(b, deltaTime)
    decreases |a|
  {
    if a == [] {
      assert a + b == b;
    } else {
      assert (a + b)[1..] == a[1..] + b;
      VisitsAppend(a[1..], b, deltaTime);
    }
  }

  /** Every component is visited exactly once, and the i-th visit is the i-th component's. */
  lemma {:induction false} VisitsInIndexOrder(cs: seq<Component>, deltaTime: real, i: nat)
    requires i < |cs|
    ensures Visits(cs, deltaTime)[i] == Visit(cs[i], deltaTime)
    decreases |cs|
  {
    if i > 0 {
      VisitsInIndexOrder(cs[1..], deltaTime, i - 1);
    }
  }

  /** An entity: its map from type tag to the component stored for that tag. */
  class Entity {
    var components: map<Tag, Component>

    /** Every stored component has the type its key names, so the cast in getComponent is sound. */
    ghost predicate Valid()
      reads this
    {
      forall t :: t in components ==> components[t].tag == t
    }

    constructor ()
      ensures Valid() && components == map[]
    {
      components := map[];
    }

    /** The copy that `std::vector<Entity>::push_back` makes: the same map, shared components. */
    constructor Copy(other: Entity)
      requires other.Valid()
      ensures Valid() && components == other.components
    {
      components := other.components;
    }

    /**
     * addComponent<T>: returns the stored component when there is one, and
     * otherwise creates one, sets its back-reference to this entity, stores
     * it, and then runs its init hook.
     */
    method AddComponent(t: Tag) returns (c: Component)
      requires Valid()
      modifies this
      ensures Valid()
      ensures components == AfterAdd(old(components), t, c)
      ensures c.tag == t && components[t] == c
      ensures t in old(components) ==> c == old(components[t]) && components == old(components)
      ensures t !in old(components) ==>
        fresh(c) && c.entity == this && c.initialised && c.entityAtInit == this
    {
      if t in components {
        c := components[t];
        return;
      }
      c := new Component(t);
      c.entity := this;
      components := components[t := c];
      c.Init();
    }

    /** getComponent<T>: the stored component, or null when there is none; nothing changes. */
    method GetComponent(t: Tag) returns (c: Component?)
      requires Valid()
      ensures c == match Lookup(components, t) case None => null case Some(stored) => stored
      ensures c != null ==> c.tag == t
    {
      if t !in components {
        return null;
      }
      c := components[t];
    }

    /** removeComponent<T>: erases the entry for t, if any. */
    method RemoveComponent(t: Tag)
      requires Valid()
      modifies this
      ensures Valid()
      ensures components == AfterRemove(old(components), t)
    {
      components := components - {t};
    }
  }

  /** A system: the vector of components it updates each frame. */
  class System {
    var components: seq<Component>

    constructor ()
      ensures components == []
    {
      components := [];
    }

    /** The copy that `std::vector<System>::push_back` makes. */
    constructor Copy(other: System)
      ensures components == other.components
    {
      components := other.components;
    }

    /** update: calls every component's update hook once, in index order. */
    method Update(deltaTime: real, trace: Trace)
      modifies trace
      ensures trace.log == old(trace.log) + Visits(components, deltaTime)
    {
      var i := 0;
      while i < |components|
        invariant 0 <= i <= |components|
        invariant trace.log == old(trace.log) + Visits(components[..i], deltaTime)
      {
        components[i].Update(deltaTime, trace);
        VisitsAppend(components[..i], [components[i]], deltaTime);
        assert components[..i + 1] == components[..i] + [components[i]];
        i := i + 1;
      }
      assert components[..i] == components;
    }
  }

  /** The number of components held by all of `systems` together. */
  function ComponentCount(systems: seq<System>): nat
    reads systems
    decreases |systems|
  {
    if systems == [] then 0
    else ComponentCount(systems[..|systems| - 1]) + |systems[|systems| - 1].components|
  }

  /** The visits of one frame: every system's components, system by system in index order. */
  function FrameVisits(systems: seq<System>, deltaTime: real): (r: seq<Visit>)
    reads systems
    ensures |r| == ComponentCount(systems)
    decreases |systems|
  {
    if systems == [] then []
    else FrameVisits(systems[..|systems| - 1], deltaTime)
         + Visits(systems[|systems| - 1].components, deltaTime)
  }

  /** A frame over two runs of systems makes the first run's calls, then the second's. */
  lemma {:induction false} FrameVisitsAppend(a: seq<System>, b: seq<System>, deltaTime: real)
    ensures FrameVisits(a + b, deltaTime) == FrameVisits(a, deltaTime) + FrameVisits(b, deltaTime)
    decreases |b|
  {
    if b == [] {
      assert a + b == a;
    } else {
      var n := |b| - 1;
      assert (a + b)[..|a + b| - 1] == a + b[..n];
      assert (a + b)[|a + b| - 1] == b[n];
      FrameVisitsAppend(a, b[..n], deltaTime);
    }
  }

  /** The calls of a frame are the calls of each system's pass, one system after another, in index order. */
  lemma {:induction false} FrameVisitsSlice(systems: seq<System>, deltaTime: real, i: nat)
    requires i < |systems|
    ensures FrameVisits(systems, deltaTime) ==
      FrameVisits(systems[..i], deltaTime)
      + Visits(systems[i].components, deltaTime)
      + FrameVisits(systems[i + 1..], deltaTime)
  {
    assert systems == systems[..i] + ([systems[i]] + systems[i + 1..]);
    FrameVisitsAppend(systems[..i], [systems[i]] + systems[i + 1..], deltaTime);
    FrameVisitsAppend([systems[i]], systems[i + 1..], deltaTime);
    assert [systems[i]][..0] == [];
  }

  /** The engine: the entities and systems it has registered. */
  class GameEngine {
    var entities: seq<Entity>
    var systems: seq<System>

    constructor ()
      ensures entities == [] && systems == []
    {
      entities := [];
      systems := [];
    }

    /** update: runs every system's update, in index order. */
    method Update(deltaTime: real, trace: Trace)
      modifies trace
      ensures trace.log == old(trace.log) + FrameVisits(systems, deltaTime)
    {
      var i := 0;
      while i < |systems|
        invariant 0 <= i <= |systems|
        invariant trace.log == old(trace.log) + FrameVisits(systems[..i], deltaTime)
      {
        systems[i].Update(deltaTime, trace);
        assert systems[..i + 1][..i] == systems[..i];
        i := i + 1;
      }
      assert systems[..i] == systems;
    }

    /**
     * createEntity<T>: allocates an entity, appends a copy of it to the
     * entity vector, and returns the allocated original, which is not the
     * element stored.
     */
    method CreateEntity() returns (e: Entity)
      modifies this
      ensures fresh(e) && e.Valid() && e.components == map[]
      ensures |entities| == |old(entities)| + 1
      ensures entities[..|old(entities)|] == old(entities)
      ensures fresh(entities[|entities| - 1]) && entities[|entities| - 1] != e
      ensures entities[|entities| - 1].components == map[]
      ensures systems == old(systems)
    {
      e := new Entity();
      var stored := new Entity.Copy(e);
      entities := entities + [stored];
    }

    /**
     * addSystem<T>: allocates a system, appends a copy of it to the system
     * vector, and returns the allocated original, which is not the element
     * stored.
     */
    method AddSystem() returns (s: System)
      modifies this
      ensures fresh(s) && s.components == []
      ensures |systems| == |old(systems)| + 1
      ensures systems[..|old(systems)|] == old(systems)
      ensures fresh(systems[|systems| - 1]) && systems[|systems| - 1] != s
      ensures systems[|systems| - 1].components == []
      ensures entities == old(entities)
    {
      s := new System();
      var stored := new System.Copy(s);
      systems := systems + [stored];
    }
  }
}
