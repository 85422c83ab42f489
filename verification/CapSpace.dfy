/** Capability spaces: one table of capabilities per object type, filled under unique ids, and the
    cloning of capabilities within and between spaces. */
module CapSpace {
  import opened CapIds
  import opened Wrappers

  type ObjectId = nat

  /** A strong or weak reference to a kernel object, with the id it has in its space. */
  datatype Capability = Capability(target: ObjectId, weak: bool, id: CapId)

  /** `origin` is the first capability of this chain of clones, as it was inserted. */
  datatype Entry = Entry(visible: bool, capability: Capability, origin: Capability)

  datatype Error = InvlId | InvlPerm | InvlWeak | OutOfMem | Unimplemented

  datatype Result<+T> = Ok(value: T) | Err(error: Error)

  datatype Weakness = KeepSame | MakeStrong | MakeWeak

  /** The type tables a clone can dispatch to. */
  predicate Clonable(t: CapType) { t != Lock && t != MessageCapacity && t != RootOom }

  /** The per-type tables, each entry under its type and id. */
  type Tables = map<(CapType, CapId), Entry>

  /** A capability made from `first`, directly or through clones: it refers to the same object, with no
      right the first one did not have. */
  ghost predicate Descends(t: CapType, target: ObjectId, rights: Rights, first: Capability) {
    target == first.target && rights <= RightsOf(first.id) && TypeOf(first.id) == Some(t)
  }

  /** An entry is filed under its capability's id, and the id tells the truth about it. */
  ghost predicate EntryOk(t: CapType, id: CapId, e: Entry, nextId: nat) {
    && e.capability.id == id && TypeOf(id) == Some(t) && IsWeak(id) == e.capability.weak
    && Descends(t, e.capability.target, RightsOf(id), e.origin) && BaseOf(id) < nextId
  }

  /** Until the counter outgrows the bits that an id has for it, no two entries share one. */
  ghost predicate TablesOk(tables: Tables, nextId: nat) {
    && (forall k :: k in tables ==> EntryOk(k.0, k.1, tables[k], nextId))
    && (nextId <= BASE_LIMIT ==>
          forall k, l :: k in tables && l in tables && BaseOf(k.1) == BaseOf(l.1) ==> k == l)
  }

  /** A capability made with the next id of a space. */
  lemma {:induction false} NewEntryOk(t: CapType, e: Entry, rights: Rights, nextId: nat)
    requires e.capability.id == NewId(t, rights, e.capability.weak, nextId)
    requires e.origin == e.capability || Descends(t, e.capability.target, rights, e.origin)
    ensures EntryOk(t, e.capability.id, e, nextId + 1)
    ensures BaseOf(e.capability.id) == nextId % BASE_LIMIT && RightsOf(e.capability.id) == rights
  {
    hide NewId, RightsOf, IsWeak, TypeOf, BaseOf;
    NewIdSpec(t, rights, e.capability.weak, nextId);
  }

  /** A capability filed under the next id. */
  lemma {:induction false} PutOk(tables: Tables, nextId: nat, t: CapType, e: Entry, rights: Rights)
    requires TablesOk(tables, nextId)
    requires e.capability.id == NewId(t, rights, e.capability.weak, nextId)
    requires e.origin == e.capability || Descends(t, e.capability.target, rights, e.origin)
    ensures TablesOk(tables[(t, e.capability.id) := e], nextId + 1)
    ensures nextId < BASE_LIMIT ==> (t, e.capability.id) !in tables
  {
    NewEntryOk(t, e, rights, nextId);
    hide NewId, RightsOf, IsWeak, TypeOf, BaseOf, Descends;
    var id := e.capability.id;
    assert nextId < BASE_LIMIT ==> nextId % BASE_LIMIT == nextId;
    var after := tables[(t, id) := e];
    forall k | k in after ensures EntryOk(k.0, k.1, after[k], nextId + 1) {
      if k != (t, id) { assert EntryOk(k.0, k.1, tables[k], nextId); }
    }
  }

  lemma {:induction false} OriginAt(tables: Tables, nextId: nat, k: (CapType, CapId))
    requires TablesOk(tables, nextId) && k in tables
    ensures Descends(k.0, tables[k].capability.target, RightsOf(k.1), tables[k].origin)
  {
    assert EntryOk(k.0, k.1, tables[k], nextId);
  }

  lemma {:induction false} DropOk(tables: Tables, nextId: nat, k: (CapType, CapId))
    requires TablesOk(tables, nextId)
    ensures TablesOk(tables - {k}, nextId)
  {
    hide EntryOk, BaseOf;
  }

  class CapabilitySpace {
    var nextId: nat
    var tables: Tables

    ghost predicate Valid()
      reads this
    {
      TablesOk(tables, nextId)
    }

    constructor ()
      ensures Valid() && nextId == 0 && tables == map[]
    {
      nextId := 0;
      tables := map[];
    }

    /** Files a capability under a new id made from its type, its rights, its weakness and the counter. It
        starts a chain of clones, or continues the one that began with `first`. */
    method InsertInner(t: CapType, capability: Capability, visible: bool, first: Option<Capability>, oom: bool)
      returns (r: Result<CapId>)
      requires Valid()
      requires first.Some? ==> Descends(t, capability.target, RightsOf(capability.id), first.value)
      modifies this
      ensures Valid() && nextId == old(nextId) + 1
      ensures r == if oom then Err(OutOfMem) else Ok(NewId(t, RightsOf(capability.id), capability.weak, old(nextId)))
      ensures r.Err? ==> tables == old(tables)
      ensures r.Ok? && old(nextId) < BASE_LIMIT ==> (t, r.value) !in old(tables)
      ensures r.Ok? ==>
                var filed := capability.(id := r.value);
                tables == old(tables)[(t, r.value) := Entry(visible, filed, if first.Some? then first.value else filed)]
    {
      var id := NewId(t, RightsOf(capability.id), capability.weak, nextId);
      var filed := capability.(id := id);
      var e := Entry(visible, filed, if first.Some? then first.value else filed);
      hide NewId, RightsOf, Descends;
      PutOk(tables, nextId, t, e, RightsOf(capability.id));
      CounterGrows(tables, nextId);
      nextId := nextId + 1;
      if oom { return Err(OutOfMem); }
      tables := tables[(t, id) := e];
      r := Ok(id);
    }

    /** A new capability is the first of its chain. */
    method Insert(t: CapType, capability: Capability, oom: bool) returns (r: Result<CapId>)
      requires Valid()
      modifies this
      ensures Valid() && nextId == old(nextId) + 1
      ensures Inserted(old(tables), tables, old(nextId), t, capability, true, oom, r)
    {
      hide NewId, RightsOf, TablesOk;
      r := InsertInner(t, capability, true, None, oom);
    }

    method InsertInvisible(t: CapType, capability: Capability, oom: bool) returns (r: Result<CapId>)
      requires Valid()
      modifies this
      ensures Valid() && nextId == old(nextId) + 1
      ensures Inserted(old(tables), tables, old(nextId), t, capability, false, oom, r)
    {
      hide NewId, RightsOf, TablesOk;
      r := InsertInner(t, capability, false, None, oom);
    }

    method MakeVisible(t: CapType, id: CapId) returns (r: Result<()>)
      requires Valid()
      modifies this`tables
      ensures Valid()
      ensures (t, id) in old(tables) ==>
                r.Ok? && tables == old(tables)[(t, id) := old(tables)[(t, id)].(visible := true)]
      ensures (t, id) !in old(tables) ==> r == Err(InvlId) && tables == old(tables)
    {
      if (t, id) !in tables { return Err(InvlId); }
      tables := tables[(t, id) := tables[(t, id)].(visible := true)];
      r := Ok(());
    }

    method Remove(t: CapType, id: CapId) returns (r: Result<Capability>)
      requires Valid()
      modifies this`tables
      ensures Valid() && tables == old(tables) - {(t, id)}
      ensures r == if (t, id) in old(tables) then Ok(old(tables)[(t, id)].capability) else Err(InvlId)
    {
      DropOk(tables, nextId, (t, id));
      if (t, id) !in tables {
        assert tables - {(t, id)} == tables;
        return Err(InvlId);
      }
      r := Ok(tables[(t, id)].capability);
      tables := tables - {(t, id)};
    }

    /** Gets a usable capability, if it is visible, has the rights asked for, and its object still lives. */
    method GetWithPerms(t: CapType, n: nat, required: Rights, alive: set<ObjectId>, autoDestroy: bool)
      returns (r: Result<Capability>)
      requires Valid()
      modifies this`tables
      ensures Valid()
      ensures r == Err(InvlId) <==> !Usable(old(tables), t, n)
      ensures r == Err(InvlPerm) <==> Usable(old(tables), t, n) && !(required <= RightsOf(CapId(n)))
      ensures r == Err(InvlWeak) <==>
              Usable(old(tables), t, n) && required <= RightsOf(CapId(n)) && IsWeak(CapId(n))
              && old(tables)[(t, CapId(n))].capability.target !in alive
      ensures r.Err? ==> r.error in {InvlId, InvlPerm, InvlWeak}
      ensures r.Ok? ==> r.value.target == old(tables)[(t, CapId(n))].capability.target && !r.value.weak
      ensures tables == if r == Err(InvlWeak) && autoDestroy then old(tables) - {(t, CapId(n))} else old(tables)
    {
      hide RightsOf, IsWeak, TypeOf, BaseOf, Descends;
      var id := TryFrom(n);
      if id.None? || (t, id.value) !in tables { return Err(InvlId); }
      var e := tables[(t, id.value)];
      assert EntryOk(t, id.value, e, nextId);
      if !e.visible { return Err(InvlId); }
      if !(required <= RightsOf(e.capability.id)) { return Err(InvlPerm); }
      if e.capability.weak && e.capability.target !in alive {
        if autoDestroy { var _ := Remove(t, id.value); }
        return Err(InvlWeak);
      }
      r := Ok(e.capability.(weak := false));
    }

    /** Clones a capability into a space, which may be the same one, with at most the rights it has. */
    static method Clone(dst: CapabilitySpace, src: CapabilitySpace, t: CapType, id: CapId, call: CloneCall,
                        alive: set<ObjectId>, oom: bool)
      returns (r: Result<CapId>)
      requires dst.Valid() && src.Valid()
      modifies dst, src
      ensures dst.Valid() && src.Valid()
      ensures CloneResult(old(dst.tables), dst.tables, old(src.tables), src.tables, dst == src, old(dst.nextId), t, id,
                          call, alive, oom, r)
      ensures dst.nextId == old(dst.nextId) + if r.Ok? || r == Err(OutOfMem) then 1 else 0
      ensures dst != src ==> src.nextId == old(src.nextId)
      ensures ClonedAs(old(src.tables), id, t, call, alive, oom, r)
      ensures r.Ok? && (r.value != id || !call.destroyOld || dst != src) ==>
                FiledAs(old(src.tables), dst.tables, t, id, r.value)
    {
      hide NewId, RightsOf, IsWeak, TypeOf, BaseOf, TablesOk, CloneResult, ClonedAs, FiledAs;
      ghost var before, n, base := src.tables, src.nextId, dst.nextId;
      r := CloneInto(dst, src, t, id, call, alive, oom);
      ResultAs(old(dst.tables), dst.tables, before, src.tables, dst == src, base, t, id, call, alive, oom, r, n);
    }

    /** The clone itself, in terms of the two tables. */
    static method CloneInto(dst: CapabilitySpace, src: CapabilitySpace, t: CapType, id: CapId, call: CloneCall,
                        alive: set<ObjectId>, oom: bool)
      returns (r: Result<CapId>)
      requires dst.Valid() && src.Valid()
      modifies dst, src
      ensures dst.Valid() && src.Valid()
      ensures CloneResult(old(dst.tables), dst.tables, old(src.tables), src.tables, dst == src, old(dst.nextId), t, id,
                          call, alive, oom, r)
      ensures dst.nextId == old(dst.nextId) + if r.Ok? || r == Err(OutOfMem) then 1 else 0
      ensures dst != src ==> src.nextId == old(src.nextId)
    {
      hide NewId, RightsOf, NullFlags, IsWeak, TypeOf, BaseOf, TablesOk, Descends;
      if (t, id) !in src.tables { return Err(InvlId); }
      var e := src.tables[(t, id)];
      OriginAt(src.tables, src.nextId, (t, id));
      var strong := MakesStrong(e.capability.weak, call.weakness);
      var rights := RightsOf(id) * call.newPerms;
      if e.capability.weak && strong && e.capability.target !in alive {
        if call.autoDestroy { var _ := src.Remove(t, id); }
        return Err(InvlWeak);
      }
      var made := Capability(e.capability.target, !strong, NullFlags(rights, !strong));
      NullFlagsSpec(rights, !strong);
      FewerRights(t, e.capability.target, RightsOf(id), rights, e.origin);
      r := Install(dst, src, t, id, made, e.origin, call.destroyOld, oom);
    }

    /** Files the new capability, and only then removes the old one if asked to. */
    static method Install(dst: CapabilitySpace, src: CapabilitySpace, t: CapType, id: CapId, made: Capability,
                          first: Capability, destroyOld: bool, oom: bool)
      returns (r: Result<CapId>)
      requires dst.Valid() && src.Valid() && (t, id) in src.tables
      requires Descends(t, made.target, RightsOf(made.id), first)
      modifies dst, src
      ensures dst.Valid() && src.Valid() && dst.nextId == old(dst.nextId) + 1
      ensures dst != src ==> src.nextId == old(src.nextId)
      ensures r == if oom then Err(OutOfMem) else Ok(NewId(t, RightsOf(made.id), made.weak, old(dst.nextId)))
      ensures r.Err? ==> dst.tables == old(dst.tables) && src.tables == old(src.tables)
      ensures r.Ok? ==>
                dst.tables == old(dst.tables)[(t, r.value) := Entry(true, made.(id := r.value), first)]
                              - if dst == src && destroyOld then {(t, id)} else {}
      ensures r.Ok? && dst != src ==> src.tables == old(src.tables) - if destroyOld then {(t, id)} else {}
    {
      hide NewId, RightsOf, TablesOk, Descends;
      r := dst.InsertInner(t, made, true, Some(first), oom);
      if r.Ok? && destroyOld {
        var _ := src.Remove(t, id);
      }
    }

    /** `cap_clone`: the type named by the id picks the table. The types without one are not implemented. */
    static method CapClone(dst: CapabilitySpace, src: CapabilitySpace, id: CapId, call: CloneCall,
                           alive: set<ObjectId>, oom: bool)
      returns (r: Result<CapId>)
      requires dst.Valid() && src.Valid() && TypeOf(id).Some?
      modifies dst, src
      ensures dst.Valid() && src.Valid()
      ensures r == Err(Unimplemented) <==> TypeOf(id).value in {Lock, MessageCapacity, RootOom}
      ensures r == Err(Unimplemented) ==> dst.tables == old(dst.tables) && src.tables == old(src.tables)
      ensures Clonable(TypeOf(id).value) ==>
                CloneResult(old(dst.tables), dst.tables, old(src.tables), src.tables, dst == src, old(dst.nextId),
                            TypeOf(id).value, id, call, alive, oom, r)
      ensures dst.nextId == old(dst.nextId) + if r.Ok? || r == Err(OutOfMem) then 1 else 0
      ensures dst != src ==> src.nextId == old(src.nextId)
      ensures Clonable(TypeOf(id).value) ==> ClonedAs(old(src.tables), id, TypeOf(id).value, call, alive, oom, r)
      ensures r.Ok? && (r.value != id || !call.destroyOld || dst != src) ==>
                FiledAs(old(src.tables), dst.tables, TypeOf(id).value, id, r.value)
    {
      var t := TypeOf(id).value;
      if !Clonable(t) { return Err(Unimplemented); }
      hide RightsOf, TypeOf, IsWeak, BaseOf, NewId, TablesOk;
      r := Clone(dst, src, t, id, call, alive, oom);
    }

    /** A word in the capability table of a message: a clone with the rights and the weakness of the
        capability it names, the null id, or a panic of the kernel. */
    static method Transfer(dst: CapabilitySpace, src: CapabilitySpace, n: nat, alive: set<ObjectId>, oom: bool)
      returns (r: Sent)
      requires dst.Valid() && src.Valid()
      modifies dst, src
      ensures dst.Valid() && src.Valid()
      ensures r.Panics? <==> Unsendable(n)
      ensures r.Null? <==> !Unsendable(n) && (oom || !Sendable(old(src.tables), n))
      ensures !r.Delivered? ==> dst.tables == old(dst.tables) && src.tables == old(src.tables)
      ensures r.Delivered? ==>
                && Sendable(old(src.tables), n) && TypeOf(r.id) == TypeOf(CapId(n))
                && RightsOf(r.id) == RightsOf(CapId(n)) && IsWeak(r.id) == IsWeak(CapId(n))
                && CloneResult(old(dst.tables), dst.tables, old(src.tables), src.tables, dst == src, old(dst.nextId),
                               TypeOf(CapId(n)).value, CapId(n), SEND, alive, false, Ok(r.id))
      ensures r.Delivered? ==>
                && (dst != src ==> src.tables == old(src.tables)) && old(dst.tables).Keys <= dst.tables.Keys
                && FiledAs(old(src.tables), dst.tables, TypeOf(r.id).value, CapId(n), r.id)
    {
      hide RightsOf, TypeOf, IsWeak, BaseOf, NewId, TablesOk;
      var c := TryFrom(n);
      if c.None? { return Null; }
      var res := CapClone(dst, src, c.value, SEND, alive, oom);
      match res
      case Err(Unimplemented) => r := Panics;
      case Err(_) => r := Null;
      case Ok(id) =>
        SentSame(old(src.tables), old(src.nextId), n, id, old(dst.nextId));
        r := Delivered(id);
    }
  }

  /** The clone asked for is weak: it is made so, or kept so. */
  predicate AsksWeak(call: CloneCall, id: CapId) {
    call.weakness == MakeWeak || (call.weakness == KeepSame && IsWeak(id))
  }

  /** A weak capability is to become strong and its object is dead. */
  ghost predicate CannotUpgrade(tables: Tables, t: CapType, id: CapId, call: CloneCall, alive: set<ObjectId>) {
    && (t, id) in tables && IsWeak(id) && call.weakness == MakeStrong
    && tables[(t, id)].capability.target !in alive
  }

  /** The result of a clone: each error exactly, and otherwise an id of the type, with the rights that are both
      there and asked for, and with the weakness asked for. */
  ghost predicate ClonedAs(tables: Tables, id: CapId, t: CapType, call: CloneCall, alive: set<ObjectId>, oom: bool,
                           r: Result<CapId>) {
    && (r == Err(InvlId) <==> (t, id) !in tables)
    && (r == Err(InvlWeak) <==> CannotUpgrade(tables, t, id, call, alive))
    && (r == Err(OutOfMem) <==> oom && (t, id) in tables && !CannotUpgrade(tables, t, id, call, alive))
    && (r.Err? ==> r.error in {InvlId, InvlWeak, OutOfMem})
    && (r.Ok? ==>
          && TypeOf(r.value) == Some(t) && RightsOf(r.value) == RightsOf(id) * call.newPerms
          && (IsWeak(r.value) <==> AsksWeak(call, id)))
  }

  /** The new entry is visible, refers to the same object, and is as weak as its id says. */
  ghost predicate FiledAs(src: Tables, dst: Tables, t: CapType, id: CapId, newId: CapId) {
    && (t, id) in src && (t, newId) in dst
    && var e := dst[(t, newId)];
       e.visible && e.capability == Capability(src[(t, id)].capability.target, IsWeak(newId), newId)
  }

  lemma {:induction false} ResultAs(dst: Tables, dst': Tables, src: Tables, src': Tables, same: bool, base: nat,
                                    t: CapType, id: CapId, call: CloneCall, alive: set<ObjectId>, oom: bool,
                                    r: Result<CapId>, nextId: nat)
    requires TablesOk(src, nextId) && CloneResult(dst, dst', src, src', same, base, t, id, call, alive, oom, r)
    ensures ClonedAs(src, id, t, call, alive, oom, r)
    ensures r.Ok? && (r.value != id || !call.destroyOld || !same) ==> FiledAs(src, dst', t, id, r.value)
  {
    hide NewId, RightsOf, IsWeak, TypeOf, TablesOk, MakesStrong;
    ClonedHow(src, nextId, base, id, t, call);
  }

  /** What the id made for a clone says. */
  lemma {:induction false} ClonedHow(tables: Tables, nextId: nat, base: nat, id: CapId, t: CapType, call: CloneCall)
    requires TablesOk(tables, nextId)
    ensures (t, id) in tables ==>
              var weak := tables[(t, id)].capability.weak;
              var newId := NewId(t, RightsOf(id) * call.newPerms, !MakesStrong(weak, call.weakness), base);
              && weak == IsWeak(id) && (IsWeak(newId) <==> AsksWeak(call, id))
              && (weak && MakesStrong(weak, call.weakness) <==> IsWeak(id) && call.weakness == MakeStrong)
              && IsWeak(newId) == !MakesStrong(weak, call.weakness)
              && TypeOf(newId) == Some(t) && RightsOf(newId) == RightsOf(id) * call.newPerms
  {
    if (t, id) in tables {
      assert EntryOk(t, id, tables[(t, id)], nextId);
      hide NewId, RightsOf, IsWeak, TypeOf, BaseOf;
      var weak := tables[(t, id)].capability.weak;
      NewIdSpec(t, RightsOf(id) * call.newPerms, !MakesStrong(weak, call.weakness), base);
    }
  }

  /** A capability under this number is there and visible. */
  ghost predicate Usable(tables: Tables, t: CapType, n: nat) {
    TypeOf(CapId(n)).Some? && (t, CapId(n)) in tables && tables[(t, CapId(n))].visible
  }

  datatype Sent = Delivered(id: CapId) | Null | Panics

  const SEND: CloneCall := CloneCall(ALL, KeepSame, false, false)

  /** The number has the shape of an id, of a type that cannot be cloned. */
  ghost predicate Unsendable(n: nat) {
    TypeOf(CapId(n)).Some? && TypeOf(CapId(n)).value in {Lock, MessageCapacity, RootOom}
  }

  /** The number names a capability of the sender that can be cloned. */
  ghost predicate Sendable(tables: Tables, n: nat) {
    && TypeOf(CapId(n)).Some? && Clonable(TypeOf(CapId(n)).value) && (TypeOf(CapId(n)).value, CapId(n)) in tables
  }

  /** The smallest number that panics the kernel when sent: a lock without rights. */
  lemma {:induction false} LockUnsendable()
    ensures Unsendable(192) && forall n :: 0 <= n < 192 ==> !Unsendable(n)
  {
    assert TypeOf(CapId(192)) == Some(Lock);
    forall n | 0 <= n < 192 ensures !Unsendable(n) {
      assert n / 32 <= 5;
    }
  }

  lemma {:induction false} SentSame(tables: Tables, nextId: nat, n: nat, id: CapId, base: nat)
    requires TablesOk(tables, nextId) && Sendable(tables, n)
    requires var t := TypeOf(CapId(n)).value;
             var weak := tables[(t, CapId(n))].capability.weak;
             id == NewId(t, RightsOf(CapId(n)) * ALL, !MakesStrong(weak, KeepSame), base)
    ensures TypeOf(id) == TypeOf(CapId(n)) && RightsOf(id) == RightsOf(CapId(n)) && IsWeak(id) == IsWeak(CapId(n))
  {
    hide RightsOf, TypeOf, IsWeak, BaseOf, NewId;
    var t := TypeOf(CapId(n)).value;
    var e := tables[(t, CapId(n))];
    assert EntryOk(t, CapId(n), e, nextId);
    AllIsAll(RightsOf(CapId(n)));
    NewIdSpec(t, RightsOf(CapId(n)), !MakesStrong(e.capability.weak, KeepSame), base);
  }

  lemma {:induction false} FewerRights(t: CapType, target: ObjectId, rights: Rights, fewer: Rights, first: Capability)
    requires Descends(t, target, rights, first) && fewer <= rights
    ensures Descends(t, target, fewer, first)
  {
  }

  /** What inserting a new capability does to the tables. */
  ghost predicate Inserted(tables: Tables, tables': Tables, nextId: nat, t: CapType, capability: Capability,
                           visible: bool, oom: bool, r: Result<CapId>)
  {
    var filed := capability.(id := NewId(t, RightsOf(capability.id), capability.weak, nextId));
    if oom then
      r == Err(OutOfMem) && tables' == tables
    else
      r == Ok(filed.id) && tables' == tables[(t, filed.id) := Entry(visible, filed, filed)]
  }

  predicate MakesStrong(weak: bool, w: Weakness) {
    match w
    case KeepSame => !weak
    case MakeStrong => true
    case MakeWeak => false
  }

  datatype CloneCall = CloneCall(newPerms: Rights, weakness: Weakness, destroyOld: bool, autoDestroy: bool)

  /** What cloning a capability does to the two tables, which are one if `same`. */
  ghost predicate CloneResult(dst: Tables, dst': Tables, src: Tables, src': Tables, same: bool, nextId: nat, t: CapType,
                              id: CapId, call: CloneCall, alive: set<ObjectId>, oom: bool, r: Result<CapId>)
  {
    if (t, id) !in src then
      r == Err(InvlId) && dst' == dst && src' == src
    else
      var e := src[(t, id)];
      var strong := MakesStrong(e.capability.weak, call.weakness);
      if e.capability.weak && strong && e.capability.target !in alive then
        && r == Err(InvlWeak)
        && src' == (if call.autoDestroy then src - {(t, id)} else src)
        && (!same ==> dst' == dst)
      else if oom then
        r == Err(OutOfMem) && dst' == dst && src' == src
      else
        var newId := NewId(t, RightsOf(id) * call.newPerms, !strong, nextId);
        var entry := Entry(true, Capability(e.capability.target, !strong, newId), e.origin);
        && r == Ok(newId)
        && dst' == dst[(t, newId) := entry] - (if same && call.destroyOld then {(t, id)} else {})
        && (!same ==> src' == src - if call.destroyOld then {(t, id)} else {})
  }

  lemma {:induction false} AllIsAll(r: Rights)
    ensures r * ALL == r
  {
    forall x | x in r ensures x in ALL {
      match x { case Read => case Prod => case Write => case Upgrade => }
    }
  }

  lemma {:induction false} CounterGrows(tables: Tables, nextId: nat)
    requires TablesOk(tables, nextId)
    ensures TablesOk(tables, nextId + 1)
  {
    forall k | k in tables ensures EntryOk(k.0, k.1, tables[k], nextId + 1) {
      assert EntryOk(k.0, k.1, tables[k], nextId);
    }
    hide EntryOk, BaseOf;
  }
}
