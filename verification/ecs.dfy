/** The game engine's entity-component-system registry: a world with a
    bounded entity counter, one column per registered component type, and
    update and draw systems that run once per entity each frame. Calls the
    world makes into its systems are recorded in order; component storage
    itself (native memory) is reduced to each column's shape. */
module Ecs {
  import opened Native

  /** The world's entity bound, which is also each column's element count. */
  const MaximumEntityCount: nat := 100

  datatype SystemKind = UnknownKind | UpdateKind | RenderKind | OtherKind(code: int)

  /** The kind a system gets when its constructor is not given one. */
  const DefaultKind: SystemKind := UpdateKind

  /** A component type, known by its name and its unmanaged byte size. */
  datatype ComponentType = ComponentType(name: nat, size: nat)

  /** A column of component storage: element stride and element count. */
  datatype Column = Column(stride: nat, count: nat)

  /** A system: `id` is the object, `systemType` its runtime type. */
  datatype System = System(
    id: nat,
    systemType: nat,
    kind: SystemKind,
    componentTypes: seq<ComponentType>,
    componentIds: seq<int>,
    world: Option<nat>)

  /** The calls a world makes into its systems. */
  datatype SystemCall =
    | OnStartCall(system: nat)
    | OnStopCall(system: nat)
    | OnExecuteCall(system: nat, deltaTicks: int, entity: int)

  datatype World = World(
    id: nat,
    columns: seq<Column>,
    entitiesCount: nat,
    updateSystems: seq<System>,
    drawSystems: seq<System>,
    components: map<ComponentType, int>,
    systemTypes: set<nat>,
    calls: seq<SystemCall>)

  /** The system constructor: `Unknown` is refused; the component lists
      start empty and the system belongs to no world yet. */
  function NewSystem(id: nat, systemType: nat, kind: SystemKind): (r: Result<System>)
    ensures r.Throw? <==> kind == UnknownKind
    ensures r.Throw? ==> r.error == ArgumentOutOfRange
    ensures r.Return? ==> r.value.kind == kind && r.value.id == id && r.value.systemType == systemType
    ensures r.Return? ==> r.value.componentTypes == [] && r.value.componentIds == [] && r.value.world.None?
  {
    if kind == UnknownKind then Throw(ArgumentOutOfRange)
    else Return(System(id, systemType, kind, [], [], None))
  }

  /** A system constructed without a kind is an update system, which the
      constructor accepts. */
  lemma DefaultKindIsAccepted(id: nat, systemType: nat)
    ensures NewSystem(id, systemType, DefaultKind) == Return(System(id, systemType, UpdateKind, [], [], None))
  {
  }

  /** A new world: no entities, columns, systems or registrations. */
  function NewWorld(id: nat): (w: World)
    ensures Valid(w) && w.entitiesCount == 0 && w.calls == []
    ensures w.updateSystems == [] && w.drawSystems == [] && w.systemTypes == {}
  {
    World(id, [], 0, [], [], map[], {}, [])
  }

  /** The registry invariant: every registered component type owns its own
      column, allocated with its size; distinct types have distinct ids;
      there are as many columns as types; every column holds the entity
      bound's number of elements; and the entity count stays within the
      bound. */
  ghost predicate Valid(w: World)
  {
    && |w.components| == |w.columns|
    && (forall i :: 0 <= i < |w.columns| ==> w.columns[i].count == MaximumEntityCount)
    && (forall t | t in w.components ::
          0 <= w.components[t] < |w.columns| && w.columns[w.components[t]] == Column(t.size, MaximumEntityCount))
    && (forall t, u | t in w.components && u in w.components && t != u :: w.components[t] != w.components[u])
    && w.entitiesCount <= MaximumEntityCount
  }

  // ---------------------------------------------------------------- entities

  /** `CreateEntity` as written: refuse only once the count reaches the
      bound, otherwise pre-increment and return the new count. */
  function CreateEntity(w: World): (r: (World, Result<int>))
    ensures w.entitiesCount == MaximumEntityCount ==> r == (w, Throw(InvalidOperation))
    ensures w.entitiesCount != MaximumEntityCount ==>
              r.1 == Return(w.entitiesCount + 1) && r.0 == w.(entitiesCount := w.entitiesCount + 1)
  {
    if w.entitiesCount == MaximumEntityCount then (w, Throw(InvalidOperation))
    else (w.(entitiesCount := w.entitiesCount + 1), Return(w.entitiesCount + 1))
  }

  /** `n` calls of `CreateEntity` in a row, with their results. */
  function CreateEntities(w: World, n: nat): (World, seq<Result<int>>)
    decreases n
  {
    if n == 0 then (w, [])
    else
      var (w1, e) := CreateEntity(w);
      var (w2, es) := CreateEntities(w1, n - 1);
      (w2, [e] + es)
  }

  /** Entity indices are issued as 1, 2, 3, … strictly increasing from the
      current count; once the bound is reached every further call throws
      and the world stays as it is. */
  lemma {:induction false} CreateEntitiesCountsUp(w: World, n: nat)
    requires w.entitiesCount <= MaximumEntityCount
    ensures var (w2, es) := CreateEntities(w, n);
            var issued := if n <= MaximumEntityCount - w.entitiesCount then n else MaximumEntityCount - w.entitiesCount;
            && |es| == n
            && w2 == w.(entitiesCount := w.entitiesCount + issued)
            && (forall k :: 0 <= k < issued ==> es[k] == Return(w.entitiesCount + k + 1))
            && (forall k :: issued <= k < n ==> es[k] == Throw(InvalidOperation))
    decreases n
  {
    if n > 0 {
      var (w1, e) := CreateEntity(w);
      CreateEntitiesCountsUp(w1, n - 1);
      var (w2, es) := CreateEntities(w1, n - 1);
      assert CreateEntities(w, n) == (w2, [e] + es);
    }
  }

  /** As written, the last entity the world issues has index 100, one past
      the last element of every column (whose count is the same bound). */
  lemma EntityIndexOverrunsColumnAsWritten(w: World)
    requires Valid(w) && w.entitiesCount == MaximumEntityCount - 1
    requires |w.columns| > 0
    ensures CreateEntity(w).1 == Return(MaximumEntityCount)
    ensures CreateEntity(w).1.value >= w.columns[0].count
  {
  }

  /** The guard the column size calls for: refuse once the next index would
      fall outside a column. */
  function CreateEntityIntended(w: World): (r: (World, Result<int>))
    ensures w.entitiesCount + 1 >= MaximumEntityCount ==> r == (w, Throw(InvalidOperation))
    ensures w.entitiesCount + 1 < MaximumEntityCount ==>
              r.1 == Return(w.entitiesCount + 1) && r.0 == w.(entitiesCount := w.entitiesCount + 1)
  {
    if w.entitiesCount + 1 >= MaximumEntityCount then (w, Throw(InvalidOperation))
    else (w.(entitiesCount := w.entitiesCount + 1), Return(w.entitiesCount + 1))
  }

  /** With the intended guard every index the world issues or iterates
      (0 through the count) addresses an element of every column, and the
      registry invariant is kept. */
  lemma IntendedEntitiesFitColumns(w: World)
    requires Valid(w) && w.entitiesCount < MaximumEntityCount
    ensures var (w1, e) := CreateEntityIntended(w);
            && Valid(w1) && w1.entitiesCount < MaximumEntityCount
            && (e.Return? ==> forall c :: c in w1.columns ==> 0 <= e.value < c.count)
            && (forall c :: c in w1.columns ==> w1.entitiesCount < c.count)
  {
  }

  // ---------------------------------------------------------------- components

  /** `RegisterComponentType`: a known type keeps its id; a new one gets
      the next column index and one new column sized for the bound. */
  function RegisterComponentType(w: World, t: ComponentType): (r: (World, int))
    ensures t in w.components ==> r == (w, w.components[t])
    ensures t !in w.components ==>
              && r.1 == |w.columns|
              && r.0 == w.(columns := w.columns + [Column(t.size, MaximumEntityCount)],
                           components := w.components[t := |w.columns|])
  {
    if t in w.components then (w, w.components[t])
    else
      var id := |w.columns|;
      (w.(columns := w.columns + [Column(t.size, MaximumEntityCount)], components := w.components[t := id]), id)
  }

  /** Registration keeps the registry invariant, is idempotent, and the
      returned id names the type's column. */
  lemma RegisterComponentTypeKeepsValid(w: World, t: ComponentType)
    requires Valid(w)
    ensures var (w1, id) := RegisterComponentType(w, t);
            && Valid(w1)
            && t in w1.components && w1.components[t] == id
            && w1.columns[id] == Column(t.size, MaximumEntityCount)
            && RegisterComponentType(w1, t) == (w1, id)
            && w.columns <= w1.columns && |w1.columns| <= |w.columns| + 1
            && (forall u :: u in w.components ==> u in w1.components && w1.components[u] == w.components[u])
  {
    if t !in w.components {
      var (w1, id) := RegisterComponentType(w, t);
      forall u | u in w1.components
        ensures 0 <= w1.components[u] < |w1.columns| && w1.columns[w1.components[u]] == Column(u.size, MaximumEntityCount)
      {
        if u != t {
          assert w1.columns[w1.components[u]] == w.columns[w.components[u]];
        }
      }
    }
  }

  /** Two worlds that differ at most in their component registry. */
  predicate SameOutsideRegistry(a: World, b: World)
  {
    && a.id == b.id && a.entitiesCount == b.entitiesCount
    && a.updateSystems == b.updateSystems && a.drawSystems == b.drawSystems
    && a.systemTypes == b.systemTypes && a.calls == b.calls
  }

  /** Register each of a system's component types in turn; the ids in the
      same order. */
  function RegisterComponentTypes(w: World, types: seq<ComponentType>): (r: (World, seq<int>))
    ensures |r.1| == |types|
    decreases |types|
  {
    if types == [] then (w, [])
    else
      var (w1, id) := RegisterComponentType(w, types[0]);
      var (w2, ids) := RegisterComponentTypes(w1, types[1..]);
      (w2, [id] + ids)
  }

  /** Registering a list of types keeps the registry invariant and every
      earlier registration, only appends columns, and touches nothing
      outside the registry. */
  lemma {:induction false} RegisterComponentTypesKeepsValid(w: World, types: seq<ComponentType>)
    requires Valid(w)
    ensures var w2 := RegisterComponentTypes(w, types).0;
            && Valid(w2)
            && (forall u :: u in w.components ==> u in w2.components && w2.components[u] == w.components[u])
            && w.columns <= w2.columns
            && SameOutsideRegistry(w2, w)
    decreases |types|
  {
    if types != [] {
      RegisterComponentTypeKeepsValid(w, types[0]);
      var w1 := RegisterComponentType(w, types[0]).0;
      RegisterComponentTypesKeepsValid(w1, types[1..]);
    }
  }

  /** Registering a list never changes or drops an earlier registration. */
  lemma {:induction false} RegisterComponentTypesKeepsIds(w: World, types: seq<ComponentType>)
    ensures var w2 := RegisterComponentTypes(w, types).0;
            forall u :: u in w.components ==> u in w2.components && w2.components[u] == w.components[u]
    decreases |types|
  {
    if types != [] {
      var (w1, id) := RegisterComponentType(w, types[0]);
      assert forall u :: u in w.components ==> u in w1.components && w1.components[u] == w.components[u];
      RegisterComponentTypesKeepsIds(w1, types[1..]);
      var (w2, ids) := RegisterComponentTypes(w1, types[1..]);
      assert RegisterComponentTypes(w, types) == (w2, [id] + ids);
    }
  }

  /** The id returned for each type, in order, is the id the registry now
      holds for it. */
  lemma {:induction false} RegisterComponentTypesReturnsIds(w: World, types: seq<ComponentType>)
    ensures var (w2, ids) := RegisterComponentTypes(w, types);
            forall k :: 0 <= k < |types| ==> types[k] in w2.components && ids[k] == w2.components[types[k]]
    decreases |types|
  {
    if types != [] {
      var (w1, id) := RegisterComponentType(w, types[0]);
      assert types[0] in w1.components && w1.components[types[0]] == id;
      RegisterComponentTypesKeepsIds(w1, types[1..]);
      RegisterComponentTypesReturnsIds(w1, types[1..]);
      var (w2, ids) := RegisterComponentTypes(w1, types[1..]);
      assert RegisterComponentTypes(w, types) == (w2, [id] + ids);
      forall k | 0 <= k < |types|
        ensures types[k] in w2.components && ([id] + ids)[k] == w2.components[types[k]]
      {
        if k > 0 {
          assert types[k] == types[1..][k - 1] && ([id] + ids)[k] == ids[k - 1];
        }
      }
    }
  }

  // ---------------------------------------------------------------- sorting the ids

  predicate Sorted(s: seq<int>)
  {
    forall i, j :: 0 <= i < j < |s| ==> s[i] <= s[j]
  }

  function Insert(x: int, s: seq<int>): (r: seq<int>)
    requires Sorted(s)
    ensures Sorted(r) && multiset(r) == multiset(s) + multiset{x}
    ensures |r| == |s| + 1 && (r[0] == x || (s != [] && r[0] == s[0]))
  {
    if s == [] then [x]
    else if x <= s[0] then
      SortedCons(x, s);
      [x] + s
    else
      SortedTail(s);
      var tail := Insert(x, s[1..]);
      assert s == [s[0]] + s[1..];
      assert multiset(s) == multiset{s[0]} + multiset(s[1..]);
      SortedCons(s[0], tail);
      [s[0]] + tail
  }

  /** The tail of a sorted list is sorted, and bounded below by its head. */
  lemma SortedTail(s: seq<int>)
    requires Sorted(s) && s != []
    ensures Sorted(s[1..])
    ensures forall k :: 0 <= k < |s| - 1 ==> s[0] <= s[1..][k]
  {
    forall i, j | 0 <= i < j < |s| - 1 ensures s[1..][i] <= s[1..][j] {
      assert s[1..][i] == s[i + 1] && s[1..][j] == s[j + 1];
    }
  }

  /** A head no larger than a sorted tail's first element extends it. */
  lemma SortedCons(head: int, tail: seq<int>)
    requires Sorted(tail) && (tail != [] ==> head <= tail[0])
    ensures Sorted([head] + tail)
  {
    var r := [head] + tail;
    forall i, j | 0 <= i < j < |r| ensures r[i] <= r[j] {
      if i == 0 {
        assert r[j] == tail[j - 1] && tail[0] <= tail[j - 1];
      } else {
        assert r[i] == tail[i - 1] && r[j] == tail[j - 1];
      }
    }
  }

  /** The ascending sort of a system's component ids by index. */
  function Sort(s: seq<int>): (r: seq<int>)
    ensures Sorted(r) && multiset(r) == multiset(s)
  {
    if s == [] then []
    else
      assert s == [s[0]] + s[1..];
      Insert(s[0], Sort(s[1..]))
  }

  // ---------------------------------------------------------------- systems

  /** The list a registered system joins, chosen by its kind: update
      systems, render systems, or neither for any other kind. */
  function Enlist(w: World, registered: System): (r: World)
    ensures r.updateSystems == w.updateSystems + (if registered.kind == UpdateKind then [registered] else [])
    ensures r.drawSystems == w.drawSystems + (if registered.kind == RenderKind then [registered] else [])
    ensures r.id == w.id && r.columns == w.columns && r.components == w.components
    ensures r.entitiesCount == w.entitiesCount && r.systemTypes == w.systemTypes && r.calls == w.calls
  {
    match registered.kind
    case UpdateKind => w.(updateSystems := w.updateSystems + [registered])
    case RenderKind => w.(drawSystems := w.drawSystems + [registered])
    case _ => w
  }

  /** `RegisterSystem`: a system whose runtime type is already registered is
      ignored. Otherwise its component types are registered, its ids are
      stored sorted, it joins this world, its type is remembered, it goes to
      the update or the draw list by kind, and `OnStart` is called. */
  function RegisterSystem(w: World, s: System, componentTypes: seq<ComponentType>): (r: (World, System))
    requires Valid(w)
    ensures Valid(r.0)
    ensures s.systemType in w.systemTypes ==> r == (w, s)
    ensures s.systemType !in w.systemTypes ==>
              && r.0.systemTypes == w.systemTypes + {s.systemType}
              && Sorted(r.1.componentIds) && r.1.world == Some(w.id)
              && r.0.entitiesCount == w.entitiesCount
  {
    if s.systemType in w.systemTypes then (w, s)
    else
      RegisterComponentTypesKeepsValid(w, componentTypes);
      var (w1, ids) := RegisterComponentTypes(w, componentTypes);
      var registered := s.(componentIds := Sort(ids), world := Some(w.id));
      var started := w1.(systemTypes := w1.systemTypes + {s.systemType}, calls := w1.calls + [OnStartCall(s.id)]);
      (Enlist(started, registered), registered)
  }

  /** A repeated system type changes nothing and starts nothing. */
  lemma RegisterSystemIgnoresKnownType(w: World, s: System, componentTypes: seq<ComponentType>)
    requires Valid(w) && s.systemType in w.systemTypes
    ensures RegisterSystem(w, s, componentTypes) == (w, s)
  {
  }

  /** A new system type: its component ids are the ids of its component
      types, sorted ascending, and it belongs to this world; nothing else
      about the system changes. */
  lemma RegisterSystemSortsComponentIds(w: World, s: System, componentTypes: seq<ComponentType>)
    requires Valid(w) && s.systemType !in w.systemTypes
    ensures var (w1, registered) := RegisterSystem(w, s, componentTypes);
            && Sorted(registered.componentIds)
            && multiset(registered.componentIds) == multiset(RegisterComponentTypes(w, componentTypes).1)
            && (forall k :: 0 <= k < |componentTypes| ==>
                  componentTypes[k] in w1.components && w1.components[componentTypes[k]] in registered.componentIds)
            && registered.world == Some(w.id)
            && registered.(componentIds := s.componentIds, world := s.world) == s
  {
    RegisterComponentTypesReturnsIds(w, componentTypes);
    var (w0, ids) := RegisterComponentTypes(w, componentTypes);
    var r := RegisterSystem(w, s, componentTypes);
    assert r.1 == s.(componentIds := Sort(ids), world := Some(w.id));
    assert r.0.components == w0.components;
    forall k | 0 <= k < |componentTypes|
      ensures componentTypes[k] in r.0.components && r.0.components[componentTypes[k]] in r.1.componentIds
    {
      assert ids[k] in multiset(ids);
    }
  }

  /** A new system type is remembered, exactly one list gains the system,
      chosen by kind (neither for a kind outside the enum), `OnStart` is the
      one call made, and the entities are untouched. */
  lemma RegisterSystemDispatchesByKind(w: World, s: System, componentTypes: seq<ComponentType>)
    requires Valid(w) && s.systemType !in w.systemTypes
    ensures var (w1, registered) := RegisterSystem(w, s, componentTypes);
            && w1.systemTypes == w.systemTypes + {s.systemType}
            && w1.calls == w.calls + [OnStartCall(s.id)]
            && w1.entitiesCount == w.entitiesCount
            && w1.updateSystems == w.updateSystems + (if s.kind == UpdateKind then [registered] else [])
            && w1.drawSystems == w.drawSystems + (if s.kind == RenderKind then [registered] else [])
  {
    RegisterComponentTypesKeepsValid(w, componentTypes);
  }

  // ---------------------------------------------------------------- frames

  /** One system executed on entities `from` through `last`. */
  function Executions(system: nat, deltaTicks: int, from: nat, last: nat): (r: seq<SystemCall>)
    ensures |r| == if from <= last then last - from + 1 else 0
    ensures forall i :: 0 <= i < |r| ==> r[i] == OnExecuteCall(system, deltaTicks, from + i)
    decreases last + 1 - from
  {
    if from > last then [] else [OnExecuteCall(system, deltaTicks, from)] + Executions(system, deltaTicks, from + 1, last)
  }

  /** Each system in list order, each on entities 0 through the count. */
  function Sweep(systems: seq<System>, deltaTicks: int, entitiesCount: nat): seq<SystemCall>
  {
    if systems == [] then []
    else Executions(systems[0].id, deltaTicks, 0, entitiesCount) + Sweep(systems[1..], deltaTicks, entitiesCount)
  }

  /** Two worlds that differ at most in the calls they have made. */
  predicate SameButCalls(a: World, b: World)
  {
    && a.id == b.id && a.columns == b.columns && a.entitiesCount == b.entitiesCount
    && a.updateSystems == b.updateSystems && a.drawSystems == b.drawSystems
    && a.components == b.components && a.systemTypes == b.systemTypes
  }

  /** `Update` runs the update systems; the world itself does not change. */
  function Update(w: World, deltaTicks: int): (r: World)
    ensures SameButCalls(r, w) && w.calls <= r.calls
  {
    w.(calls := w.calls + Sweep(w.updateSystems, deltaTicks, w.entitiesCount))
  }

  /** `Draw` runs the draw systems. */
  function Draw(w: World, deltaTicks: int): (r: World)
    ensures SameButCalls(r, w) && w.calls <= r.calls
  {
    w.(calls := w.calls + Sweep(w.drawSystems, deltaTicks, w.entitiesCount))
  }

  lemma {:induction false} SweepLength(systems: seq<System>, deltaTicks: int, entitiesCount: nat)
    ensures |Sweep(systems, deltaTicks, entitiesCount)| == |systems| * (entitiesCount + 1)
  {
    if systems != [] {
      SweepLength(systems[1..], deltaTicks, entitiesCount);
      assert |systems| * (entitiesCount + 1) == (entitiesCount + 1) + |systems[1..]| * (entitiesCount + 1);
    }
  }

  /** Call number `k * (count + 1) + i` of a sweep is system `k` on entity
      `i`. */
  lemma {:induction false} SweepAt(systems: seq<System>, deltaTicks: int, entitiesCount: nat, k: nat, i: nat)
    requires k < |systems| && i <= entitiesCount
    ensures k * (entitiesCount + 1) + i < |Sweep(systems, deltaTicks, entitiesCount)|
    ensures Sweep(systems, deltaTicks, entitiesCount)[k * (entitiesCount + 1) + i]
              == OnExecuteCall(systems[k].id, deltaTicks, i)
  {
    var n := entitiesCount + 1;
    SweepLength(systems, deltaTicks, entitiesCount);
    var head := Executions(systems[0].id, deltaTicks, 0, entitiesCount);
    var tail := Sweep(systems[1..], deltaTicks, entitiesCount);
    assert Sweep(systems, deltaTicks, entitiesCount) == head + tail;
    if k > 0 {
      SweepAt(systems[1..], deltaTicks, entitiesCount, k - 1, i);
      assert k * n + i == n + ((k - 1) * n + i);
      assert systems[1..][k - 1] == systems[k];
    }
  }

  /** The sweep makes count+1 calls per system, system-major: each system
      runs on entities 0 through the count before the next one starts. */
  lemma SweepOrder(systems: seq<System>, deltaTicks: int, entitiesCount: nat)
    ensures |Sweep(systems, deltaTicks, entitiesCount)| == |systems| * (entitiesCount + 1)
    ensures forall k: nat, i: nat :: k < |systems| && i <= entitiesCount ==>
              k * (entitiesCount + 1) + i < |Sweep(systems, deltaTicks, entitiesCount)| &&
              Sweep(systems, deltaTicks, entitiesCount)[k * (entitiesCount + 1) + i]
                == OnExecuteCall(systems[k].id, deltaTicks, i)
  {
    SweepLength(systems, deltaTicks, entitiesCount);
    forall k: nat, i: nat | k < |systems| && i <= entitiesCount
      ensures k * (entitiesCount + 1) + i < |Sweep(systems, deltaTicks, entitiesCount)|
      ensures Sweep(systems, deltaTicks, entitiesCount)[k * (entitiesCount + 1) + i]
                == OnExecuteCall(systems[k].id, deltaTicks, i)
    {
      SweepAt(systems, deltaTicks, entitiesCount, k, i);
    }
  }

  /** `Dispose`: `OnStop` on every draw system, then on every update
      system, in list order; the registrations stay. */
  function Dispose(w: World): (r: World)
    ensures SameButCalls(r, w) && w.calls <= r.calls
    ensures |r.calls| == |w.calls| + |w.drawSystems| + |w.updateSystems|
  {
    w.(calls := w.calls + StopCalls(w.drawSystems, w.updateSystems))
  }

  /** The stop calls of a dispose: the draw systems', then the update
      systems'. */
  function StopCalls(draw: seq<System>, update: seq<System>): seq<SystemCall>
  {
    Stops(draw) + Stops(update)
  }

  function Stops(systems: seq<System>): (r: seq<SystemCall>)
    ensures |r| == |systems|
    ensures forall k :: 0 <= k < |systems| ==> r[k] == OnStopCall(systems[k].id)
  {
    if systems == [] then [] else [OnStopCall(systems[0].id)] + Stops(systems[1..])
  }

  /** Dispose stops each registered system exactly once, draw systems
      first. */
  lemma DisposeStopsDrawThenUpdate(w: World)
    ensures var added := Dispose(w).calls[|w.calls|..];
            var d := |w.drawSystems|;
            && |added| == d + |w.updateSystems|
            && (forall k :: 0 <= k < d ==> added[k] == OnStopCall(w.drawSystems[k].id))
            && (forall k :: 0 <= k < |w.updateSystems| ==> added[d + k] == OnStopCall(w.updateSystems[k].id))
  {
    var stops := StopCalls(w.drawSystems, w.updateSystems);
    SuffixAfter(w.calls, stops);
    var draw := Stops(w.drawSystems);
    var update := Stops(w.updateSystems);
    assert stops == draw + update;
    forall k | 0 <= k < |w.updateSystems|
      ensures stops[|w.drawSystems| + k] == OnStopCall(w.updateSystems[k].id)
    {
      assert stops[|draw| + k] == update[k];
    }
  }

  /** Nothing guards a second dispose: it stops every system again. */
  lemma DisposeTwiceStopsAgain(w: World)
    ensures Dispose(Dispose(w)).calls[|Dispose(w).calls|..] == Dispose(w).calls[|w.calls|..]
  {
    var once := Dispose(w);
    var stops := StopCalls(w.drawSystems, w.updateSystems);
    SuffixAfter(w.calls, stops);
    SuffixAfter(once.calls, stops);
  }

  lemma SuffixAfter<T>(a: seq<T>, b: seq<T>)
    ensures (a + b)[|a|..] == b
  {
  }
}
