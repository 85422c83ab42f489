/** Runs of any number of capability spaces, interleaved at the locks: an insertion takes an id and files the
    capability in a later step; a clone reads, takes an id and files in three; and one that meets a dead object
    removes what it read in a later step. */
module CapRuns {
  import opened CapIds
  import opened CapSpace

  datatype Space = Space(tables: Tables, nextId: nat)

  /** A call under way: a clone that has no id yet, a capability that has its id and is not in the table yet,
      or a clone that found its object dead and will remove what it read. */
  datatype Task =
    | Cloning(space: nat, t: CapType, capability: Capability, origin: Capability)
    | Making(space: nat, t: CapType, entry: Entry)
    | Doomed(space: nat, t: CapType, id: CapId)

  datatype World = World(spaces: seq<Space>, tasks: seq<Task>)

  datatype Step =
    | NewSpace
    | InsertNew(space: nat, t: CapType, capability: Capability, visible: bool)
    | CloneRead(space: nat, src: nat, t: CapType, id: CapId, call: CloneCall, alive: set<ObjectId>)
    | TakeId(task: nat)
    | File(task: nat)
    | Refuse(task: nat)
    | Destroy(task: nat)
    | Show(space: nat, t: CapType, id: CapId)
    | Drop(space: nat, t: CapType, id: CapId)

  predicate IsTask(w: World, j: nat) { j < |w.tasks| && w.tasks[j].space < |w.spaces| }

  predicate Enabled(w: World, step: Step) {
    match step
    case NewSpace => true
    case InsertNew(s, _, _, _) => s < |w.spaces|
    case CloneRead(s, src, t, id, _, _) => s < |w.spaces| && src < |w.spaces| && (t, id) in w.spaces[src].tables
    case TakeId(j) => IsTask(w, j) && w.tasks[j].Cloning?
    case File(j) => IsTask(w, j) && w.tasks[j].Making?
    case Refuse(j) => IsTask(w, j) && w.tasks[j].Making?
    case Destroy(j) =>
      && IsTask(w, j) && w.tasks[j].Doomed?
      && (w.tasks[j].t, w.tasks[j].id) in w.spaces[w.tasks[j].space].tables
    case Show(s, t, id) => s < |w.spaces| && (t, id) in w.spaces[s].tables
    case Drop(s, _, _) => s < |w.spaces|
  }

  /** The removal that a clone is about to make, and whose result it unwraps, finds nothing: a panic. */
  predicate UnwrapFails(w: World, j: nat) {
    IsTask(w, j) && w.tasks[j].Doomed? && (w.tasks[j].t, w.tasks[j].id) !in w.spaces[w.tasks[j].space].tables
  }

  /** The step takes an id. */
  predicate Issues(step: Step) { step.InsertNew? || step.TakeId? }

  /** The space whose counter it takes it from. */
  function IssuedIn(w: World, step: Step): nat
    requires Enabled(w, step) && Issues(step)
  {
    if step.InsertNew? then step.space else w.tasks[step.task].space
  }

  /** What an insertion, or a clone, files under its id. */
  function Made(w: World, step: Step): Task
    requires Enabled(w, step) && Issues(step)
  {
    var s := IssuedIn(w, step);
    var n := w.spaces[s].nextId;
    match step
    case InsertNew(_, t, c, visible) =>
      var filed := c.(id := NewId(t, RightsOf(c.id), c.weak, n));
      Making(s, t, Entry(visible, filed, filed))
    case TakeId(j) =>
      var p := w.tasks[j];
      var filed := p.capability.(id := NewId(p.t, RightsOf(p.capability.id), p.capability.weak, n));
      Making(s, p.t, Entry(true, filed, p.origin))
  }

  /** What reading a capability to clone it leads to. */
  function Read(w: World, step: Step): seq<Task>
    requires Enabled(w, step) && step.CloneRead?
  {
    var e := w.spaces[step.src].tables[(step.t, step.id)];
    var strong := MakesStrong(e.capability.weak, step.call.weakness);
    if e.capability.weak && strong && e.capability.target !in step.alive then
      if step.call.autoDestroy then [Doomed(step.src, step.t, step.id)] else []
    else
      var flags := NullFlags(RightsOf(step.id) * step.call.newPerms, !strong);
      [Cloning(step.space, step.t, Capability(e.capability.target, !strong, flags), e.origin)]
  }

  function WithTables(w: World, s: nat, tables: Tables): World
    requires s < |w.spaces|
  {
    w.(spaces := w.spaces[s := w.spaces[s].(tables := tables)])
  }

  function Without(w: World, j: nat): World
    requires j < |w.tasks|
  {
    w.(tasks := w.tasks[..j] + w.tasks[j + 1..])
  }

  function Issued(w: World, s: nat): World
    requires s < |w.spaces|
  {
    w.(spaces := w.spaces[s := w.spaces[s].(nextId := w.spaces[s].nextId + 1)])
  }

  function After(w: World, step: Step): World
    requires Enabled(w, step)
  {
    match step
    case NewSpace => w.(spaces := w.spaces + [Space(map[], 0)])
    case InsertNew(s, _, _, _) => Issued(w, s).(tasks := w.tasks + [Made(w, step)])
    case CloneRead(_, _, _, _, _, _) => w.(tasks := w.tasks + Read(w, step))
    case TakeId(j) => Issued(w, w.tasks[j].space).(tasks := w.tasks[j := Made(w, step)])
    case File(j) =>
      var p := w.tasks[j];
      Without(WithTables(w, p.space, w.spaces[p.space].tables[(p.t, p.entry.capability.id) := p.entry]), j)
    case Refuse(j) => Without(w, j)
    case Destroy(j) =>
      var p := w.tasks[j];
      Without(WithTables(w, p.space, w.spaces[p.space].tables - {(p.t, p.id)}), j)
    case Show(s, t, id) =>
      WithTables(w, s, w.spaces[s].tables[(t, id) := w.spaces[s].tables[(t, id)].(visible := true)])
    case Drop(s, t, id) => WithTables(w, s, w.spaces[s].tables - {(t, id)})
  }

  // ---------------------------------------------------------------------------
  // What every step keeps
  // ---------------------------------------------------------------------------

  /** The entry tells the truth about itself and belongs to a chain that began with one of `firsts`. */
  ghost predicate Rooted(t: CapType, id: CapId, e: Entry, nextId: nat, firsts: set<Capability>) {
    EntryOk(t, id, e, nextId) && e.origin in firsts
  }

  ghost predicate SpaceRooted(space: Space, firsts: set<Capability>) {
    forall k :: k in space.tables ==> Rooted(k.0, k.1, space.tables[k], space.nextId, firsts)
  }

  ghost predicate TaskRooted(w: World, p: Task, firsts: set<Capability>) {
    && p.space < |w.spaces|
    && match p
       case Cloning(_, t, c, origin) => Descends(t, c.target, RightsOf(c.id), origin) && origin in firsts
       case Making(s, t, e) => Rooted(t, e.capability.id, e, w.spaces[s].nextId, firsts)
       case Doomed(_, _, _) => true
  }

  ghost predicate Sound(w: World, firsts: set<Capability>) {
    && (forall s :: 0 <= s < |w.spaces| ==> SpaceRooted(w.spaces[s], firsts))
    && (forall j :: 0 <= j < |w.tasks| ==> TaskRooted(w, w.tasks[j], firsts))
  }

  /** The capability a step puts at the start of a new chain. */
  ghost function NewFirst(w: World, step: Step): set<Capability>
    requires Enabled(w, step)
  {
    if step.InsertNew? then {Made(w, step).entry.origin} else {}
  }

  lemma {:induction false} SpaceLater(space: Space, nextId: nat, firsts: set<Capability>, more: set<Capability>)
    requires SpaceRooted(space, firsts) && space.nextId <= nextId && firsts <= more
    ensures SpaceRooted(space.(nextId := nextId), more)
  {
    hide TypeOf, RightsOf, IsWeak, BaseOf, Descends;
    forall k | k in space.tables ensures Rooted(k.0, k.1, space.tables[k], nextId, more) {
      assert Rooted(k.0, k.1, space.tables[k], space.nextId, firsts);
    }
  }

  lemma {:induction false} TaskLater(w: World, w': World, p: Task, firsts: set<Capability>, more: set<Capability>)
    requires TaskRooted(w, p, firsts) && firsts <= more && |w.spaces| <= |w'.spaces|
    requires w.spaces[p.space].nextId <= w'.spaces[p.space].nextId
    ensures TaskRooted(w', p, more)
  {
    hide TypeOf, RightsOf, IsWeak, BaseOf, Descends;
  }

  /** What is made belongs to the chain of what it is made from. */
  lemma {:induction false} MadeRooted(w: World, step: Step, firsts: set<Capability>)
    requires Sound(w, firsts) && Enabled(w, step) && Issues(step)
    ensures TaskRooted(Issued(w, IssuedIn(w, step)), Made(w, step), firsts + NewFirst(w, step))
  {
    var p, n := Made(w, step), w.spaces[IssuedIn(w, step)].nextId;
    hide TypeOf, RightsOf, IsWeak, BaseOf, NewId;
    match step
    case InsertNew(s, t, c, _) => NewEntryOk(t, p.entry, RightsOf(c.id), n);
    case TakeId(j) =>
      var q := w.tasks[j];
      assert TaskRooted(w, q, firsts);
      NewEntryOk(q.t, p.entry, RightsOf(q.capability.id), n);
  }

  /** What is read belongs to the chain of what it is read from. */
  lemma {:induction false} ReadRooted(w: World, step: Step, firsts: set<Capability>)
    requires Sound(w, firsts) && Enabled(w, step) && step.CloneRead?
    ensures forall p :: p in Read(w, step) ==> TaskRooted(w, p, firsts)
  {
    hide TypeOf, RightsOf, IsWeak, BaseOf, NullFlags;
    assert SpaceRooted(w.spaces[step.src], firsts);
    var e := w.spaces[step.src].tables[(step.t, step.id)];
    assert Rooted(step.t, step.id, e, w.spaces[step.src].nextId, firsts);
    NullFlagsSpec(RightsOf(step.id) * step.call.newPerms, !MakesStrong(e.capability.weak, step.call.weakness));
  }

  lemma {:induction false} IssueSound(w: World, step: Step, firsts: set<Capability>)
    requires Sound(w, firsts) && Enabled(w, step) && Issues(step)
    ensures Sound(After(w, step), firsts + NewFirst(w, step))
  {
    var w', more, s := After(w, step), firsts + NewFirst(w, step), IssuedIn(w, step);
    MadeRooted(w, step, firsts);
    var p := Made(w, step);
    assert w'.spaces == Issued(w, s).spaces;
    assert forall j :: 0 <= j < |w'.tasks| ==> w'.tasks[j] == p || (j < |w.tasks| && w'.tasks[j] == w.tasks[j]);
    hide Made, EntryOk, NewFirst, Descends, RightsOf, After;
    forall i | 0 <= i < |w'.spaces| ensures SpaceRooted(w'.spaces[i], more) {
      SpaceLater(w.spaces[i], w'.spaces[i].nextId, firsts, more);
      assert w'.spaces[i] == w.spaces[i].(nextId := w'.spaces[i].nextId);
    }
    forall j | 0 <= j < |w'.tasks| ensures TaskRooted(w', w'.tasks[j], more) {
      if j < |w.tasks| && w'.tasks[j] == w.tasks[j] { TaskLater(w, w', w.tasks[j], firsts, more); }
    }
  }

  lemma {:induction false} ReadSound(w: World, step: Step, firsts: set<Capability>)
    requires Sound(w, firsts) && Enabled(w, step) && step.CloneRead?
    ensures Sound(After(w, step), firsts)
  {
    ReadRooted(w, step, firsts);
    var w', more := After(w, step), Read(w, step);
    hide Read, EntryOk, Descends, RightsOf, SpaceRooted, Rooted;
    forall j | 0 <= j < |w'.tasks| ensures TaskRooted(w', w'.tasks[j], firsts) {
      if j < |w.tasks| { assert TaskRooted(w, w.tasks[j], firsts); } else { assert w'.tasks[j] in more; }
    }
  }

  /** A table in which every entry is rooted. */
  lemma {:induction false} TablesSound(w: World, s: nat, tables: Tables, firsts: set<Capability>)
    requires Sound(w, firsts) && s < |w.spaces|
    requires forall k :: k in tables ==> Rooted(k.0, k.1, tables[k], w.spaces[s].nextId, firsts)
    ensures Sound(WithTables(w, s, tables), firsts)
  {
    hide Rooted, Descends, RightsOf;
    var w' := WithTables(w, s, tables);
    forall i | 0 <= i < |w'.spaces| ensures SpaceRooted(w'.spaces[i], firsts) {
      if i != s { assert w'.spaces[i] == w.spaces[i]; }
    }
    forall j | 0 <= j < |w'.tasks| ensures TaskRooted(w', w'.tasks[j], firsts) {
      assert TaskRooted(w, w.tasks[j], firsts);
    }
  }

  lemma {:induction false} WithoutSound(w: World, j: nat, firsts: set<Capability>)
    requires Sound(w, firsts) && j < |w.tasks|
    ensures Sound(Without(w, j), firsts)
  {
    hide Rooted, SpaceRooted, Descends, RightsOf;
    var w' := Without(w, j);
    forall i | 0 <= i < |w'.tasks| ensures TaskRooted(w', w'.tasks[i], firsts) {
      var k := if i < j then i else i + 1;
      assert w'.tasks[i] == w.tasks[k];
      assert TaskRooted(w, w.tasks[k], firsts);
    }
  }

  lemma {:induction false} NewSpaceSound(w: World, firsts: set<Capability>)
    requires Sound(w, firsts)
    ensures Sound(After(w, NewSpace), firsts)
  {
    var w' := After(w, NewSpace);
    hide Rooted, Descends, RightsOf;
    forall i | 0 <= i < |w'.spaces| ensures SpaceRooted(w'.spaces[i], firsts) {
      if i < |w.spaces| { assert w'.spaces[i] == w.spaces[i]; }
    }
    forall j | 0 <= j < |w'.tasks| ensures TaskRooted(w', w'.tasks[j], firsts) {
      assert TaskRooted(w, w.tasks[j], firsts);
    }
  }

  lemma {:induction false} FileSound(w: World, j: nat, firsts: set<Capability>)
    requires Sound(w, firsts) && Enabled(w, File(j))
    ensures Sound(After(w, File(j)), firsts)
  {
    var p := w.tasks[j];
    assert TaskRooted(w, p, firsts);
    var space := w.spaces[p.space];
    hide EntryOk;
    assert SpaceRooted(space, firsts);
    var tables := space.tables[(p.t, p.entry.capability.id) := p.entry];
    TablesSound(w, p.space, tables, firsts);
    WithoutSound(WithTables(w, p.space, tables), j, firsts);
  }

  lemma {:induction false} ShowSound(w: World, s: nat, t: CapType, id: CapId, firsts: set<Capability>)
    requires Sound(w, firsts) && Enabled(w, Show(s, t, id))
    ensures Sound(After(w, Show(s, t, id)), firsts)
  {
    var space := w.spaces[s];
    assert SpaceRooted(space, firsts);
    var e := space.tables[(t, id)];
    assert Rooted(t, id, e, space.nextId, firsts);
    hide TypeOf, RightsOf, IsWeak, BaseOf, Descends;
    assert Rooted(t, id, e.(visible := true), space.nextId, firsts);
    hide Rooted;
    TablesSound(w, s, space.tables[(t, id) := e.(visible := true)], firsts);
  }

  lemma {:induction false} DropSound(w: World, s: nat, t: CapType, id: CapId, firsts: set<Capability>)
    requires Sound(w, firsts) && s < |w.spaces|
    ensures Sound(WithTables(w, s, w.spaces[s].tables - {(t, id)}), firsts)
  {
    assert SpaceRooted(w.spaces[s], firsts);
    hide Rooted;
    TablesSound(w, s, w.spaces[s].tables - {(t, id)}, firsts);
  }

  lemma {:induction false} StepSound(w: World, step: Step, firsts: set<Capability>)
    requires Sound(w, firsts) && Enabled(w, step)
    ensures Sound(After(w, step), firsts + NewFirst(w, step))
  {
    if Issues(step) {
      IssueSound(w, step, firsts);
    } else {
      assert firsts + NewFirst(w, step) == firsts;
      hide Sound, SpaceRooted;
      match step
      case NewSpace => NewSpaceSound(w, firsts);
      case CloneRead(_, _, _, _, _, _) => ReadSound(w, step, firsts);
      case File(j) => FileSound(w, j, firsts);
      case Refuse(j) => WithoutSound(w, j, firsts);
      case Destroy(j) =>
        var p := w.tasks[j];
        DropSound(w, p.space, p.t, p.id, firsts);
        WithoutSound(WithTables(w, p.space, w.spaces[p.space].tables - {(p.t, p.id)}), j, firsts);
      case Show(s, t, id) => ShowSound(w, s, t, id, firsts);
      case Drop(s, t, id) => DropSound(w, s, t, id, firsts);
    }
  }

  // ---------------------------------------------------------------------------
  // Runs
  // ---------------------------------------------------------------------------

  ghost predicate Run(run: seq<World>, steps: seq<Step>) {
    && |run| == |steps| + 1 && run[0] == World([], [])
    && forall i :: 0 <= i < |steps| ==> Enabled(run[i], steps[i]) && run[i + 1] == After(run[i], steps[i])
  }

  /** Step `i` inserts the capability as the first of a chain. */
  ghost predicate InsertedAt(run: seq<World>, steps: seq<Step>, i: nat, first: Capability)
    requires Run(run, steps)
  {
    i < |steps| && steps[i].InsertNew? && Made(run[i], steps[i]).entry.capability == first
  }

  ghost function Firsts(run: seq<World>, steps: seq<Step>, n: nat): set<Capability>
    requires Run(run, steps) && n <= |steps|
  {
    if n == 0 then {} else Firsts(run, steps, n - 1) + NewFirst(run[n - 1], steps[n - 1])
  }

  lemma {:induction false} FirstInserted(run: seq<World>, steps: seq<Step>, n: nat, c: Capability) returns (i: nat)
    requires Run(run, steps) && n <= |steps| && c in Firsts(run, steps, n)
    ensures i < n && InsertedAt(run, steps, i, c)
  {
    if c in NewFirst(run[n - 1], steps[n - 1]) {
      i := n - 1;
    } else {
      i := FirstInserted(run, steps, n - 1, c);
    }
  }

  lemma {:induction false} RunSound(run: seq<World>, steps: seq<Step>, n: nat)
    requires Run(run, steps) && n <= |steps|
    ensures Sound(run[n], Firsts(run, steps, n))
  {
    if n > 0 {
      RunSound(run, steps, n - 1);
      StepSound(run[n - 1], steps[n - 1], Firsts(run, steps, n - 1));
    }
  }

  /** In every run, every capability in every space goes back to one that was inserted: it refers to the
      same object, its type is the same, and it has no right that one did not have. */
  lemma {:induction false} ChainBegins(run: seq<World>, steps: seq<Step>, n: nat, s: nat, k: (CapType, CapId))
    returns (i: nat)
    requires Run(run, steps) && n <= |steps| && s < |run[n].spaces| && k in run[n].spaces[s].tables
    ensures i < n && InsertedAt(run, steps, i, run[n].spaces[s].tables[k].origin)
    ensures steps[i].t == k.0 && steps[i].capability.target == run[n].spaces[s].tables[k].capability.target
    ensures RightsOf(k.1) <= RightsOf(steps[i].capability.id)
  {
    RunSound(run, steps, n);
    hide TypeOf, RightsOf, IsWeak, BaseOf, NewId;
    var e := run[n].spaces[s].tables[k];
    assert SpaceRooted(run[n].spaces[s], Firsts(run, steps, n));
    assert Rooted(k.0, k.1, e, run[n].spaces[s].nextId, Firsts(run, steps, n));
    i := FirstInserted(run, steps, n, e.origin);
    var c := steps[i].capability;
    NewIdSpec(steps[i].t, RightsOf(c.id), c.weak, run[i].spaces[steps[i].space].nextId);
  }

  /** The id an insertion or a clone takes. */
  function IssuedId(w: World, step: Step): CapId
    requires Enabled(w, step) && Issues(step)
  {
    Made(w, step).entry.capability.id
  }

  lemma {:induction false} CounterAfter(w: World, step: Step, s: nat)
    requires Enabled(w, step) && s < |w.spaces|
    ensures var w' := After(w, step);
            && s < |w'.spaces|
            && w'.spaces[s].nextId == w.spaces[s].nextId + if Issues(step) && IssuedIn(w, step) == s then 1 else 0
  {
    hide Made, Read;
  }

  lemma {:induction false} CounterMonotone(run: seq<World>, steps: seq<Step>, i: nat, j: nat, s: nat)
    requires Run(run, steps) && i <= j <= |steps| && s < |run[i].spaces|
    ensures s < |run[j].spaces| && run[i].spaces[s].nextId <= run[j].spaces[s].nextId
    decreases j
  {
    if i < j {
      CounterMonotone(run, steps, i, j - 1, s);
      CounterAfter(run[j - 1], steps[j - 1], s);
    }
  }

  /** In every run, a space issues an id again only after its counter has gone through every number that
      fits an id, whatever was removed in between. */
  lemma {:induction false} IdsNotReused(run: seq<World>, steps: seq<Step>, i: nat, j: nat)
    requires Run(run, steps) && i < j < |steps| && Issues(steps[i]) && Issues(steps[j])
    requires IssuedIn(run[i], steps[i]) == IssuedIn(run[j], steps[j])
    ensures var s := IssuedIn(run[i], steps[i]);
            && s < |run[i].spaces| && s < |run[j].spaces| && run[i].spaces[s].nextId < run[j].spaces[s].nextId
            && (IssuedId(run[i], steps[i]) == IssuedId(run[j], steps[j]) ==>
                  run[j].spaces[s].nextId - run[i].spaces[s].nextId >= BASE_LIMIT)
  {
    var s := IssuedIn(run[i], steps[i]);
    CounterAfter(run[i], steps[i], s);
    CounterMonotone(run, steps, i + 1, j, s);
    hide NewId, RightsOf, BaseOf;
    var m, n := run[i].spaces[s].nextId, run[j].spaces[s].nextId;
    IssuedBase(run[i], steps[i]);
    IssuedBase(run[j], steps[j]);
    SameRemainder(m, n);
  }

  lemma {:induction false} IssuedBase(w: World, step: Step)
    requires Enabled(w, step) && Issues(step)
    ensures BaseOf(IssuedId(w, step)) == w.spaces[IssuedIn(w, step)].nextId % BASE_LIMIT
  {
    hide NewId, RightsOf, BaseOf, IsWeak, TypeOf;
    var n := w.spaces[IssuedIn(w, step)].nextId;
    match step
    case InsertNew(_, t, c, _) => NewIdSpec(t, RightsOf(c.id), c.weak, n);
    case TakeId(j) =>
      var p := w.tasks[j];
      NewIdSpec(p.t, RightsOf(p.capability.id), p.capability.weak, n);
  }

  lemma {:induction false} SameRemainder(m: nat, n: nat)
    requires m < n
    ensures m % BASE_LIMIT == n % BASE_LIMIT ==> n - m >= BASE_LIMIT
  {
    if m % BASE_LIMIT == n % BASE_LIMIT {
      assert n - m == BASE_LIMIT * (n / BASE_LIMIT - m / BASE_LIMIT);
      assert n / BASE_LIMIT > m / BASE_LIMIT;
    }
  }

  // ---------------------------------------------------------------------------
  // When the unwrapped removal fails
  // ---------------------------------------------------------------------------

  /** The step removes the entry. */
  predicate Removes(w: World, step: Step, s: nat, t: CapType, id: CapId) {
    step == Drop(s, t, id) || (step.Destroy? && step.task < |w.tasks| && w.tasks[step.task] == Doomed(s, t, id))
  }

  /** The task will put an entry under this id. */
  predicate Brings(p: Task, s: nat, id: CapId) { p.Making? && p.space == s && p.entry.capability.id == id }

  /** No task will put an entry under this id, and none can begin to before the counter starts again. */
  ghost predicate Spent(w: World, s: nat, id: CapId) {
    && s < |w.spaces| && BaseOf(id) < w.spaces[s].nextId
    && forall j :: 0 <= j < |w.tasks| ==> !Brings(w.tasks[j], s, id)
  }

  /** The task brings an id to a space whose counter has not outgrown an id. */
  ghost predicate BringsFresh(w: World, j: nat) {
    IsTask(w, j) && w.tasks[j].Making? && w.spaces[w.tasks[j].space].nextId <= BASE_LIMIT
  }

  /** No other task brings what this one brings, and it is not there. */
  ghost predicate OnlyOne(w: World, j: nat)
    requires IsTask(w, j) && w.tasks[j].Making?
  {
    var s, id := w.tasks[j].space, w.tasks[j].entry.capability.id;
    && (forall k :: k in w.spaces[s].tables ==> k.1 != id)
    && (forall l :: 0 <= l < |w.tasks| && Brings(w.tasks[l], s, id) ==> l == j)
  }

  ghost predicate Distinct(w: World) {
    forall j :: 0 <= j < |w.tasks| && BringsFresh(w, j) ==> OnlyOne(w, j)
  }

  /** A spent id stays spent, and an entry that is gone stays gone. */
  lemma {:induction false} SpentStep(w: World, step: Step, s: nat, t: CapType, id: CapId)
    requires Enabled(w, step) && Spent(w, s, id)
    ensures s < |After(w, step).spaces|
    ensures After(w, step).spaces[s].nextId <= BASE_LIMIT ==>
              && Spent(After(w, step), s, id)
              && ((t, id) in After(w, step).spaces[s].tables <==>
                    (t, id) in w.spaces[s].tables && !Removes(w, step, s, t, id))
  {
    var w' := After(w, step);
    CounterAfter(w, step, s);
    hide BaseOf, NewId, RightsOf, NullFlags;
    if w'.spaces[s].nextId <= BASE_LIMIT {
      if Issues(step) { NewIsOther(w, step, s, id); }
      hide Made, Read;
      forall j | 0 <= j < |w'.tasks| ensures !Brings(w'.tasks[j], s, id) {
        TaskFrom(w, step, j);
      }
      KeysAfter(w, step, s, (t, id));
    }
  }

  /** Where a task of the world after a step was before it. */
  ghost function Was(step: Step, j: nat): nat {
    match step
    case File(l) => if j < l then j else j + 1
    case Refuse(l) => if j < l then j else j + 1
    case Destroy(l) => if j < l then j else j + 1
    case _ => j
  }

  /** Where a step puts the task it makes. */
  ghost function NewAt(w: World, step: Step): nat { if step.TakeId? then step.task else |w.tasks| }

  /** A task after a step was there before it, or is what the step made or read. */
  lemma {:induction false} TaskFrom(w: World, step: Step, j: nat)
    requires Enabled(w, step) && j < |After(w, step).tasks|
    ensures var p := After(w, step).tasks[j];
            if Issues(step) && j == NewAt(w, step) then p == Made(w, step)
            else !p.Making? || (Was(step, j) < |w.tasks| && p == w.tasks[Was(step, j)])
  {
    hide Made, NewId, RightsOf, NullFlags;
  }

  /** What is in a table after a step. */
  lemma {:induction false} KeysAfter(w: World, step: Step, s: nat, k: (CapType, CapId))
    requires Enabled(w, step) && s < |w.spaces|
    ensures s < |After(w, step).spaces|
    ensures k in After(w, step).spaces[s].tables <==>
            || (k in w.spaces[s].tables && !Removes(w, step, s, k.0, k.1))
            || (step.File? && Brings(w.tasks[step.task], s, k.1) && w.tasks[step.task].t == k.0)
  {
    hide Made, Read;
  }

  /** An entry that stays is as it was, but for one step: making it visible, which cannot be undone. */
  lemma {:induction false} EntryAfter(w: World, step: Step, s: nat, k: (CapType, CapId))
    requires Enabled(w, step) && s < |w.spaces| && k in w.spaces[s].tables
    ensures s < |After(w, step).spaces|
    ensures k in After(w, step).spaces[s].tables ==>
              var e, e' := w.spaces[s].tables[k], After(w, step).spaces[s].tables[k];
              if step.File? && Brings(w.tasks[step.task], s, k.1) && w.tasks[step.task].t == k.0 then
                e' == w.tasks[step.task].entry
              else
                && e'.capability == e.capability && e'.origin == e.origin
                && (e'.visible <==> e.visible || step == Show(s, k.0, k.1))
  {
    hide Made, Read;
  }

  lemma {:induction false} NewIsOther(w: World, step: Step, s: nat, id: CapId)
    requires Enabled(w, step) && Issues(step) && s < |w.spaces| && BaseOf(id) < w.spaces[s].nextId
    requires After(w, step).spaces[s].nextId <= BASE_LIMIT
    ensures !Brings(Made(w, step), s, id)
  {
    CounterAfter(w, step, s);
    IssuedBase(w, step);
    hide BaseOf, After;
    var n := w.spaces[IssuedIn(w, step)].nextId;
    if IssuedIn(w, step) == s && n < BASE_LIMIT { assert n % BASE_LIMIT == n; }
  }

  /** What a task brings or a table has was issued before. */
  lemma {:induction false} BaseBelow(w: World, firsts: set<Capability>, j: nat)
    requires Sound(w, firsts) && j < |w.tasks| && w.tasks[j].Making?
    ensures IsTask(w, j) && BaseOf(w.tasks[j].entry.capability.id) < w.spaces[w.tasks[j].space].nextId
  {
    assert TaskRooted(w, w.tasks[j], firsts);
  }

  lemma {:induction false} KeyBelow(w: World, firsts: set<Capability>, s: nat, k: (CapType, CapId))
    requires Sound(w, firsts) && s < |w.spaces| && k in w.spaces[s].tables
    ensures BaseOf(k.1) < w.spaces[s].nextId
  {
    assert SpaceRooted(w.spaces[s], firsts);
    assert Rooted(k.0, k.1, w.spaces[s].tables[k], w.spaces[s].nextId, firsts);
  }

  /** What was there and distinct stays so. */
  lemma {:induction false} OldOnlyOne(w: World, step: Step, firsts: set<Capability>, j: nat)
    requires Sound(w, firsts) && Distinct(w) && Enabled(w, step)
    requires BringsFresh(After(w, step), j) && !(Issues(step) && j == NewAt(w, step))
    ensures OnlyOne(After(w, step), j)
  {
    var w' := After(w, step);
    TaskFrom(w, step, j);
    var m := Was(step, j);
    var s, id := w'.tasks[j].space, w'.tasks[j].entry.capability.id;
    BaseBelow(w, firsts, m);
    CounterAfter(w, step, s);
    hide After, Made, Read, Sound, BaseOf;
    assert BringsFresh(w, m) && OnlyOne(w, m);
    forall k | k in w'.spaces[s].tables ensures k.1 != id { KeysAfter(w, step, s, k); }
    if Issues(step) { NewIsOther(w, step, s, id); }
    forall l | 0 <= l < |w'.tasks| && Brings(w'.tasks[l], s, id) ensures l == j { TaskFrom(w, step, l); }
  }

  lemma {:induction false} NewOnlyOne(w: World, step: Step, firsts: set<Capability>)
    requires Sound(w, firsts) && Enabled(w, step) && Issues(step) && BringsFresh(After(w, step), NewAt(w, step))
    ensures OnlyOne(After(w, step), NewAt(w, step))
  {
    var w', j := After(w, step), NewAt(w, step);
    TaskFrom(w, step, j);
    var s, id := w'.tasks[j].space, w'.tasks[j].entry.capability.id;
    assert s == IssuedIn(w, step) && id == IssuedId(w, step);
    hide After, Made, Read, Sound, BaseOf;
    forall k | k in w'.spaces[s].tables ensures k.1 != id {
      KeysAfter(w, step, s, k);
      KeyBelow(w, firsts, s, k);
      NewIsOther(w, step, s, k.1);
    }
    forall l | 0 <= l < |w'.tasks| && Brings(w'.tasks[l], s, id) ensures l == j {
      TaskFrom(w, step, l);
      if l != j {
        BaseBelow(w, firsts, Was(step, l));
        NewIsOther(w, step, s, id);
      }
    }
  }

  lemma {:induction false} DistinctStep(w: World, step: Step, firsts: set<Capability>)
    requires Sound(w, firsts) && Distinct(w) && Enabled(w, step)
    ensures Distinct(After(w, step))
  {
    var w' := After(w, step);
    hide After, Made, Read, Sound, OnlyOne;
    forall j | 0 <= j < |w'.tasks| && BringsFresh(w', j) ensures OnlyOne(w', j) {
      if Issues(step) && j == NewAt(w, step) {
        NewOnlyOne(w, step, firsts);
      } else {
        OldOnlyOne(w, step, firsts, j);
      }
    }
  }

  lemma {:induction false} RunDistinct(run: seq<World>, steps: seq<Step>, n: nat)
    requires Run(run, steps) && n <= |steps|
    ensures Distinct(run[n])
  {
    if n > 0 {
      RunDistinct(run, steps, n - 1);
      RunSound(run, steps, n - 1);
      DistinctStep(run[n - 1], steps[n - 1], Firsts(run, steps, n - 1));
    }
  }

  /** What is in a table, nobody brings any more. */
  lemma {:induction false} PresentSpent(run: seq<World>, steps: seq<Step>, i: nat, s: nat, t: CapType, id: CapId)
    requires Run(run, steps) && i <= |steps| && s < |run[i].spaces| && (t, id) in run[i].spaces[s].tables
    requires run[i].spaces[s].nextId <= BASE_LIMIT
    ensures Spent(run[i], s, id)
  {
    RunSound(run, steps, i);
    RunDistinct(run, steps, i);
    hide Run, Sound, BaseOf;
    var w := run[i];
    KeyBelow(w, Firsts(run, steps, i), s, (t, id));
    forall j | 0 <= j < |w.tasks| ensures !Brings(w.tasks[j], s, id) {
      assert BringsFresh(w, j) ==> OnlyOne(w, j);
    }
  }

  lemma {:induction false} StepAt(run: seq<World>, steps: seq<Step>, m: nat)
    requires Run(run, steps) && m < |steps|
    ensures |run| == |steps| + 1 && Enabled(run[m], steps[m]) && run[m + 1] == After(run[m], steps[m])
  {
    hide Enabled, After;
  }

  /** Until the counter outgrows an id, what was there is gone exactly if some step removed it. */
  lemma {:induction false} GoneIff(run: seq<World>, steps: seq<Step>, i: nat, j: nat, s: nat, t: CapType, id: CapId)
    requires Run(run, steps) && i <= j <= |steps| && s < |run[i].spaces| && (t, id) in run[i].spaces[s].tables
    requires s < |run[j].spaces| && run[j].spaces[s].nextId <= BASE_LIMIT
    ensures Spent(run[j], s, id)
    ensures (t, id) !in run[j].spaces[s].tables <==> exists k :: i <= k < j && Removes(run[k], steps[k], s, t, id)
    decreases j
  {
    hide Run, Enabled, After, Spent, Removes;
    if i == j {
      PresentSpent(run, steps, i, s, t, id);
    } else {
      var m := j - 1;
      StepAt(run, steps, m);
      CounterMonotone(run, steps, i, m, s);
      CounterAfter(run[m], steps[m], s);
      GoneIff(run, steps, i, m, s, t, id);
      SpentStep(run[m], steps[m], s, t, id);
    }
  }

  /** The step files an entry under this id. */
  predicate Files(w: World, step: Step, s: nat, t: CapType, id: CapId) {
    step.File? && step.task < |w.tasks| && Brings(w.tasks[step.task], s, id) && w.tasks[step.task].t == t
  }

  /** Step `k` removes the entry, and no step after it and before `j` files one in its place. */
  ghost predicate GoneSince(run: seq<World>, steps: seq<Step>, k: nat, j: nat, s: nat, t: CapType, id: CapId)
    requires k < j <= |steps| < |run|
  {
    Removes(run[k], steps[k], s, t, id) && forall m :: k < m < j ==> !Files(run[m], steps[m], s, t, id)
  }

  lemma {:induction false} LastRemoved(run: seq<World>, steps: seq<Step>, i: nat, j: nat, s: nat, t: CapType, id: CapId)
    requires Run(run, steps) && i <= j <= |steps| && s < |run[i].spaces| && (t, id) in run[i].spaces[s].tables
    ensures s < |run[j].spaces|
    ensures (t, id) !in run[j].spaces[s].tables <==> exists k :: i <= k < j && GoneSince(run, steps, k, j, s, t, id)
    decreases j
  {
    hide Run, Enabled, After, Removes, Files;
    if i < j {
      var m := j - 1;
      StepAt(run, steps, m);
      LastRemoved(run, steps, i, m, s, t, id);
      CounterMonotone(run, steps, i, m, s);
      LastStep(run[m], steps[m], s, t, id);
      if Removes(run[m], steps[m], s, t, id) {
        assert GoneSince(run, steps, m, j, s, t, id);
      } else if k :| i <= k < m && GoneSince(run, steps, k, m, s, t, id) {
        assert !Files(run[m], steps[m], s, t, id) ==> GoneSince(run, steps, k, j, s, t, id);
      }
      if k :| i <= k < j && GoneSince(run, steps, k, j, s, t, id) {
        assert k < m ==> GoneSince(run, steps, k, m, s, t, id) && !Files(run[m], steps[m], s, t, id);
      }
    }
  }

  lemma {:induction false} LastStep(w: World, step: Step, s: nat, t: CapType, id: CapId)
    requires Enabled(w, step) && s < |w.spaces|
    ensures s < |After(w, step).spaces| && !(Removes(w, step, s, t, id) && Files(w, step, s, t, id))
    ensures (t, id) in After(w, step).spaces[s].tables <==>
            ((t, id) in w.spaces[s].tables && !Removes(w, step, s, t, id)) || Files(w, step, s, t, id)
  {
    KeysAfter(w, step, s, (t, id));
    hide After;
  }

  /** In every run, a clone that found its object dead at step `i`, and comes to remove what it read after
      step `j`, panics exactly when some other call removed it in between and none put one in its place, which
      none can before the counter outgrows an id. */
  lemma {:induction false} UnwrapFailsIff(run: seq<World>, steps: seq<Step>, i: nat, j: nat, task: nat)
    requires Run(run, steps) && i < j <= |steps| && steps[i].CloneRead?
    requires Read(run[i], steps[i]) == [Doomed(steps[i].src, steps[i].t, steps[i].id)]
    requires IsTask(run[j], task) && run[j].tasks[task] == Doomed(steps[i].src, steps[i].t, steps[i].id)
    ensures UnwrapFails(run[j], task) <==>
            exists k :: i < k < j && GoneSince(run, steps, k, j, steps[i].src, steps[i].t, steps[i].id)
    ensures run[j].spaces[steps[i].src].nextId <= BASE_LIMIT ==>
              (UnwrapFails(run[j], task) <==>
                 exists k :: i < k < j && Removes(run[k], steps[k], steps[i].src, steps[i].t, steps[i].id))
  {
    assert Enabled(run[i], steps[i]);
    var s, t, id := steps[i].src, steps[i].t, steps[i].id;
    assert !Removes(run[i], steps[i], s, t, id);
    LastRemoved(run, steps, i, j, s, t, id);
    hide Run, Removes, After;
    if run[j].spaces[s].nextId <= BASE_LIMIT { GoneIff(run, steps, i, j, s, t, id); }
  }

  // ---------------------------------------------------------------------------
  // A run in which it fails
  // ---------------------------------------------------------------------------

  ghost predicate Ends(run: seq<World>, steps: seq<Step>, w: World) { Run(run, steps) && run[|steps|] == w }

  lemma {:induction false} Then(run: seq<World>, steps: seq<Step>, w: World, step: Step, w': World)
    returns (run': seq<World>, steps': seq<Step>)
    requires Ends(run, steps, w) && Enabled(w, step) && After(w, step) == w'
    ensures Ends(run', steps', w') && |steps'| == |steps| + 1
  {
    hide Enabled, After;
    run', steps' := run + [w'], steps + [step];
  }

  /** Two clones of one weak capability whose object is dead, both asked to be strong and to remove it: both
      read it, the first removes it, and the second has nothing to unwrap. */
  lemma {:induction false} TwoClonesPanic(t: CapType, c: Capability) returns (run: seq<World>, steps: seq<Step>)
    requires c.weak
    ensures Run(run, steps) && UnwrapFails(run[|steps|], 0)
  {
    hide NewId, RightsOf, NullFlags;
    var id := NewId(t, RightsOf(c.id), true, 0);
    var e := Entry(true, c.(id := id), c.(id := id));
    var call := CloneCall({}, MakeStrong, false, true);
    var read, doomed := CloneRead(0, 0, t, id, call, {}), Doomed(0, t, id);
    var w3 := World([Space(map[(t, id) := e], 1)], []);
    var w4 := World(w3.spaces, [doomed]);
    var w5 := World(w3.spaces, [doomed, doomed]);
    var w6 := World([Space(map[], 1)], [doomed]);
    run, steps := OneEntry(t, c, w3);
    run, steps := Then(run, steps, w3, read, w4);
    run, steps := Then(run, steps, w4, read, w5);
    assert w3.spaces[0].tables - {(t, id)} == map[];
    run, steps := Then(run, steps, w5, Destroy(0), w6);
  }

  /** A space with one capability. */
  lemma {:induction false} OneEntry(t: CapType, c: Capability, w3: World) returns (run: seq<World>, steps: seq<Step>)
    requires var id := NewId(t, RightsOf(c.id), c.weak, 0);
             w3 == World([Space(map[(t, id) := Entry(true, c.(id := id), c.(id := id))], 1)], [])
    ensures Run(run, steps) && run[|steps|] == w3
  {
    hide NewId, RightsOf, NullFlags;
    var id := NewId(t, RightsOf(c.id), c.weak, 0);
    var w0 := World([], []);
    var w1 := World([Space(map[], 0)], []);
    var w2 := World([Space(map[], 1)], [Making(0, t, Entry(true, c.(id := id), c.(id := id)))]);
    run, steps := [w0], [];
    run, steps := Then(run, steps, w0, NewSpace, w1);
    run, steps := Then(run, steps, w1, InsertNew(0, t, c, true), w2);
    run, steps := Then(run, steps, w2, File(0), w3);
  }

  // ---------------------------------------------------------------------------
  // The calls are runs
  // ---------------------------------------------------------------------------

  /** An insertion that nothing interrupts. */
  lemma {:induction false} InsertIsRun(w: World, s: nat, t: CapType, c: Capability, visible: bool, tables: Tables,
                                       id: CapId)
    requires w.tasks == [] && s < |w.spaces|
    requires Inserted(w.spaces[s].tables, tables, w.spaces[s].nextId, t, c, visible, false, Ok(id))
    ensures var w' := After(w, InsertNew(s, t, c, visible));
            Enabled(w', File(0)) &&
            After(w', File(0)) == World(w.spaces[s := Space(tables, w.spaces[s].nextId + 1)], [])
  {
    hide NewId, RightsOf;
  }

  /** A clone, and so a transfer, that nothing interrupts, into another space or into the same one. */
  lemma {:induction false} CloneIsRun(w: World, d: nat, s: nat, dst: Tables, src: Tables, t: CapType, id: CapId,
                                      call: CloneCall, alive: set<ObjectId>, newId: CapId)
    requires w.tasks == [] && d < |w.spaces| && s < |w.spaces|
    requires d == s ==> dst == src
    requires CloneResult(w.spaces[d].tables, dst, w.spaces[s].tables, src, d == s, w.spaces[d].nextId, t, id, call,
                         alive, false, Ok(newId))
    ensures var step := CloneRead(d, s, t, id, call, alive);
            && Enabled(w, step) && Enabled(After(w, step), TakeId(0))
            && var w2 := After(After(w, step), TakeId(0));
               && Enabled(w2, File(0))
               && var w3 := After(w2, File(0));
                  var w4 := if call.destroyOld then After(w3, Drop(s, t, id)) else w3;
                  var n := w.spaces[d].nextId + 1;
                  w4 == World(w.spaces[d := Space(dst, n)][s := Space(src, w4.spaces[s].nextId)], [])
  {
    hide NewId, RightsOf, NullFlags, After, Made, Read;
    var e := w.spaces[s].tables[(t, id)];
    var p := ReadOne(w, d, s, t, id, call, alive);
    var w1 := World(w.spaces, [p]);
    FileOne(w1, p);
    var put := w.spaces[d].tables[(t, newId) := Entry(true, p.capability.(id := newId), e.origin)];
    var w3 := World(w.spaces[d := Space(put, w.spaces[d].nextId + 1)], []);
    assert After(After(w1, TakeId(0)), File(0)) == w3;
    DropOne(w3, s, t, id);
    assert put - {} == put && w.spaces[s].tables - {} == w.spaces[s].tables;
  }

  lemma {:induction false} ReadOne(w: World, d: nat, s: nat, t: CapType, id: CapId, call: CloneCall,
                                   alive: set<ObjectId>)
    returns (p: Task)
    requires w.tasks == [] && d < |w.spaces| && s < |w.spaces| && (t, id) in w.spaces[s].tables
    requires var c := w.spaces[s].tables[(t, id)].capability;
             c.weak && MakesStrong(c.weak, call.weakness) ==> c.target in alive
    ensures p.Cloning? && p.space == d && p.t == t
    ensures After(w, CloneRead(d, s, t, id, call, alive)) == World(w.spaces, [p])
    ensures var e := w.spaces[s].tables[(t, id)];
            && p.origin == e.origin && p.capability.target == e.capability.target
            && p.capability.weak == !MakesStrong(e.capability.weak, call.weakness)
            && RightsOf(p.capability.id) == RightsOf(id) * call.newPerms
  {
    hide RightsOf, NullFlags;
    var e := w.spaces[s].tables[(t, id)];
    var weak, rights := !MakesStrong(e.capability.weak, call.weakness), RightsOf(id) * call.newPerms;
    NullFlagsSpec(rights, weak);
    p := Cloning(d, t, Capability(e.capability.target, weak, NullFlags(rights, weak)), e.origin);
    assert Read(w, CloneRead(d, s, t, id, call, alive)) == [p] && [] + [p] == [p];
  }

  lemma {:induction false} DropOne(w: World, s: nat, t: CapType, id: CapId)
    requires s < |w.spaces|
    ensures After(w, Drop(s, t, id)) == WithTables(w, s, w.spaces[s].tables - {(t, id)})
  {
  }

  lemma {:induction false} FileOne(w: World, p: Task)
    requires w.tasks == [p] && p.Cloning? && p.space < |w.spaces|
    ensures Enabled(w, TakeId(0)) && Enabled(After(w, TakeId(0)), File(0))
    ensures var n, c := w.spaces[p.space].nextId, p.capability;
            var filed := c.(id := NewId(p.t, RightsOf(c.id), c.weak, n));
            var tables := w.spaces[p.space].tables[(p.t, filed.id) := Entry(true, filed, p.origin)];
            After(After(w, TakeId(0)), File(0)) == World(w.spaces[p.space := Space(tables, n + 1)], [])
  {
    hide NewId, RightsOf;
    var w2 := After(w, TakeId(0));
    assert w2.tasks == [Made(w, TakeId(0))];
  }
}
