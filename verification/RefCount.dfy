/** Reference-counted objects and the pointers that hold them. */
module RefCount {

  class RefCounted {
    var refCount: int
    var deleted: bool
    /** A count was changed after the object was deleted. */
    var touchedDead: bool

    constructor ()
      ensures refCount == 1 && !deleted && !touchedDead
    {
      refCount, deleted, touchedDead := 1, false, false;
    }

    method AddReference()
      modifies this
      ensures refCount == old(refCount) + 1 && deleted == old(deleted) && touchedDead == (old(touchedDead) || old(deleted))
    {
      touchedDead := touchedDead || deleted;
      refCount := refCount + 1;
    }

    /** True when the object is to be deleted. */
    method RemoveReference() returns (last: bool)
      modifies this
      ensures refCount == old(refCount) - 1 && deleted == old(deleted) && touchedDead == (old(touchedDead) || old(deleted))
      ensures last <==> refCount == 0
    {
      touchedDead := touchedDead || deleted;
      refCount := refCount - 1;
      last := refCount == 0;
    }

    predicate HasUniqueReference()
      reads this
    {
      refCount == 1
    }
  }

  /** The pointers among `ps` that hold `o`. */
  ghost function Holders(ps: set<Pointer>, o: RefCounted): set<Pointer>
    reads ps
  {
    set p | p in ps && p.target == o
  }

  ghost predicate ObjectOk(ps: set<Pointer>, o: RefCounted)
    reads ps, o
  {
    && o.refCount == |Holders(ps, o)|
    && (o.deleted <==> o.refCount == 0)
    && !o.touchedDead
  }

  /** Every object is alive exactly as long as some pointer holds it, and its count is the number of those pointers. */
  ghost predicate Consistent(ps: set<Pointer>, os: set<RefCounted>)
    reads ps, os
  {
    && (forall p | p in ps && p.target != null :: p.target in os)
    && (forall o | o in os :: ObjectOk(ps, o))
  }

  lemma HolderCounts(ps: set<Pointer>, os: set<RefCounted>, p: Pointer)
    requires Consistent(ps, os) && p in ps && p.target != null
    ensures p.target in os && p.target.refCount >= 1 && !p.target.deleted
  {
    assert p in Holders(ps, p.target);
  }

  lemma TwoHolders(ps: set<Pointer>, os: set<RefCounted>, p: Pointer, q: Pointer)
    requires Consistent(ps, os) && p in ps && q in ps && p != q && p.target == q.target != null
    ensures p.target in os && p.target.refCount >= 2
  {
    var hs := Holders(ps, p.target);
    assert p in hs && q in hs - {p};
    assert hs == (hs - {p}) + {p};
  }

  /** Without pointers there is no live object: nothing leaks. */
  lemma NoPointersNoObjects(os: set<RefCounted>)
    requires Consistent({}, os)
    ensures forall o | o in os :: o.deleted
  {
    forall o | o in os ensures o.deleted { assert Holders({}, o) == {}; }
  }

  class Pointer {
    var target: RefCounted?

    /** The default constructor. */
    constructor (ghost ps: set<Pointer>, ghost os: set<RefCounted>)
      requires Consistent(ps, os)
      ensures target == null && Consistent(ps + {this}, os)
    {
      target := null;
      new;
      forall o | o in os ensures Holders(ps + {this}, o) == Holders(ps, o) {
      }
    }

    method AddReference()
      requires target != null
      modifies target
      ensures target.refCount == old(target.refCount) + 1 && target.deleted == old(target.deleted)
      ensures target.touchedDead == (old(target.touchedDead) || old(target.deleted))
    {
      target.AddReference();
    }

    /** Lets go of the object, deleting it when nobody else holds it. */
    method RemoveReference(ghost ps: set<Pointer>, ghost os: set<RefCounted>)
      requires this in ps && Consistent(ps, os)
      modifies this, target
      ensures target == null && Consistent(ps, os)
      ensures old(target) != null ==>
                old(target).refCount == old(target.refCount) - 1 && (old(target).deleted <==> old(target.refCount) == 1)
    {
      if target == null { return; }
      ghost var o := target;
      HolderCounts(ps, os, this);
      ghost var before := Holders(ps, o);
      var last := target.RemoveReference();
      if last { target.deleted := true; }
      target := null;
      assert Holders(ps, o) == before - {this};
      forall q | q in os && q != o ensures ObjectOk(ps, q) {
        assert Holders(ps, q) == old(Holders(ps, q));
      }
    }

    /** Takes over a reference to `p` that is not yet counted for any pointer. */
    method AssignObject(p: RefCounted?, ghost ps: set<Pointer>, ghost os: set<RefCounted>)
      requires this in ps && Consistent(ps, os)
      modifies this, target
      ensures target == p
      ensures old(target) != null ==>
                && old(target).refCount == old(target.refCount) - 1
                && (old(target).deleted <==> old(target.refCount) == 1) && !old(target).touchedDead
      ensures forall o | o in os && o != p :: ObjectOk(ps, o)
      ensures p != null ==> Holders(ps, p) == old(Holders(ps, p)) + {this}
    {
      RemoveReference(ps, os);
      label Dropped:
      target := p;
      forall o | o in os && o != p ensures ObjectOk(ps, o) {
        assert Holders(ps, o) == old@Dropped(Holders(ps, o));
      }
      if p != null { assert Holders(ps, p) == old(Holders(ps, p)) + {this}; }
    }

    /** `*this = other`. Everything stays consistent except in one case: a pointer that alone holds its object and is
        copied onto itself deletes the object and then counts on it. The copy constructor is this on a fresh pointer. */
    method CopyAssign(other: Pointer, ghost ps: set<Pointer>, ghost os: set<RefCounted>)
      requires this in ps && other in ps && Consistent(ps, os)
      modifies this, target, other.target
      ensures target == old(other.target)
      ensures Consistent(ps, os) <==> !(this == other && target != null && old(target.refCount) == 1)
      ensures this == other && target != null && old(target.refCount) == 1 ==> target.touchedDead
    {
      var o := other.target;
      ghost var held := target;
      if o != null {
        HolderCounts(ps, os, other);
        if this != other && held == o { TwoHolders(ps, os, this, other); }
      }
      AssignObject(o, ps, os);
      if o != null {
        label Taken:
        assert Holders(ps, o) == old(Holders(ps, o)) + {this};
        AddReference();
        assert Holders(ps, o) == old@Taken(Holders(ps, o));
        forall q | q in os && q != o ensures ObjectOk(ps, q) {
          assert Holders(ps, q) == old@Taken(Holders(ps, q));
        }
        if this == other && old(target.refCount) == 1 {
          assert o.touchedDead && !ObjectOk(ps, o);
        } else if held == o {
          assert this in old(Holders(ps, o)) && Holders(ps, o) == old(Holders(ps, o));
        } else {
          assert this !in old(Holders(ps, o));
        }
      }
    }

    /** Drops the pointer to `o` without counting. */
    method Forget(ghost o: RefCounted?, ghost ps: set<Pointer>, ghost os: set<RefCounted>)
      requires this in ps && target == o && forall q | q in os && q != o :: ObjectOk(ps, q)
      modifies this
      ensures target == null && forall q | q in os && q != o :: ObjectOk(ps, q)
      ensures o != null ==> Holders(ps, o) == old(Holders(ps, o)) - {this}
    {
      target := null;
      forall q | q in os && q != o ensures ObjectOk(ps, q) {
        assert Holders(ps, q) == old(Holders(ps, q));
      }
    }

    /** `*this = std::move(other)`; moving onto itself leaves it empty, like any source of a move. The move constructor is
        this on a fresh pointer. */
    method MoveAssign(other: Pointer, ghost ps: set<Pointer>, ghost os: set<RefCounted>)
      requires this in ps && other in ps && Consistent(ps, os)
      modifies this, target, other
      ensures other.target == null && (this != other ==> target == old(other.target))
      ensures Consistent(ps, os)
    {
      var o := other.target;
      if o != null {
        HolderCounts(ps, os, other);
        assert other in Holders(ps, o);
      }
      AssignObject(o, ps, os);
      other.Forget(o, ps, os);
    }

    /** `*this = p` for an object just created, whose one reference the pointer takes over. */
    method AssignNew(p: RefCounted, ghost ps: set<Pointer>, ghost os: set<RefCounted>)
      requires this in ps && Consistent(ps, os)
      requires p !in os && p.HasUniqueReference() && !p.deleted && !p.touchedDead
      modifies this, target
      ensures target == p && Consistent(ps, os + {p})
    {
      assert forall q | q in ps :: q.target != p;
      assert Holders(ps, p) == {};
      AssignObject(p, ps, os);
    }

    /** `*this = nullptr`, and what the destructor does. */
    method Reset(ghost ps: set<Pointer>, ghost os: set<RefCounted>)
      requires this in ps && Consistent(ps, os)
      modifies this, target
      ensures target == null && Consistent(ps, os)
    {
      AssignObject(null, ps, os);
    }
  }

  // --- any sequence of operations

  /** An operation on the pointer variables of a program, numbered as they come into scope. Leaving scope is `Null`. */
  datatype Op = Declare | New(i: nat) | Copy(i: nat, j: nat) | Move(i: nat, j: nat) | Null(i: nat)

  predicate InRange(op: Op, n: nat) {
    match op
    case Declare => true
    case Copy(i, j) => i < n && j < n
    case Move(i, j) => i < n && j < n
    case _ => op.i < n
  }

  function Declared(ops: seq<Op>): nat {
    if ops == [] then 0 else Declared(ops[..|ops| - 1]) + if ops[|ops| - 1].Declare? then 1 else 0
  }

  function Created(ops: seq<Op>): nat {
    if ops == [] then 0 else Created(ops[..|ops| - 1]) + if ops[|ops| - 1].New? then 1 else 0
  }

  /** Only variables that are in scope are used. */
  predicate WellFormed(ops: seq<Op>) {
    forall k | 0 <= k < |ops| :: InRange(ops[k], Declared(ops[..k]))
  }

  /** The variables hold object numbers, or -1 for none; `made` objects have been created. */
  function Next(held: seq<int>, made: nat, op: Op): (after: seq<int>)
    requires InRange(op, |held|)
  {
    match op
    case Declare => held + [-1]
    case New(i) => held[i := made]
    case Copy(i, j) => held[i := held[j]]
    case Move(i, j) => held[i := held[j]][j := -1]
    case Null(i) => held[i := -1]
  }

  function After(ops: seq<Op>): (held: seq<int>)
    requires WellFormed(ops)
    ensures |held| == Declared(ops) && forall k | 0 <= k < |held| :: -1 <= held[k] < Created(ops)
  {
    if ops == [] then []
    else
      var before := ops[..|ops| - 1];
      assert forall k | 0 <= k < |before| :: before[..k] == ops[..k];
      Next(After(before), Created(before), ops[|ops| - 1])
  }

  /** A variable that alone holds its object is copied onto itself. */
  predicate CopiesSoleHolder(held: seq<int>, op: Op)
    requires InRange(op, |held|)
  {
    op.Copy? && op.i == op.j && held[op.i] >= 0 && forall k | 0 <= k < |held| && k != op.i :: held[k] != held[op.i]
  }

  lemma PrefixWellFormed(ops: seq<Op>, k: nat)
    requires WellFormed(ops) && k <= |ops|
    ensures WellFormed(ops[..k])
  {
    assert forall j | 0 <= j < k :: ops[..k][..j] == ops[..j];
  }

  lemma AfterStep(ops: seq<Op>, k: nat)
    requires WellFormed(ops) && k < |ops|
    ensures WellFormed(ops[..k]) && WellFormed(ops[..k + 1]) && InRange(ops[k], |After(ops[..k])|)
    ensures Created(ops[..k + 1]) == Created(ops[..k]) + if ops[k].New? then 1 else 0
    ensures After(ops[..k + 1]) == Next(After(ops[..k]), Created(ops[..k]), ops[k])
  {
    PrefixWellFormed(ops, k);
    PrefixWellFormed(ops, k + 1);
    assert ops[..k + 1][..k] == ops[..k];
  }

  /** None of the first `n` operations copies the sole holder of an object onto itself. */
  ghost predicate Harmless(ops: seq<Op>, n: nat)
    requires WellFormed(ops) && n <= |ops|
  {
    forall k | 0 <= k < n :: (AfterStep(ops, k); !CopiesSoleHolder(After(ops[..k]), ops[k]))
  }

  lemma HarmlessStep(ops: seq<Op>, k: nat)
    requires WellFormed(ops) && k < |ops| && Harmless(ops, k)
    ensures WellFormed(ops[..k]) && InRange(ops[k], |After(ops[..k])|)
    ensures if CopiesSoleHolder(After(ops[..k]), ops[k]) then !Harmless(ops, |ops|) else Harmless(ops, k + 1)
  {
    AfterStep(ops, k);
    hide CopiesSoleHolder, After;
  }

  ghost function Targets(slots: seq<Pointer>): (targets: seq<RefCounted?>)
    reads slots
  {
    seq(|slots|, k requires 0 <= k < |slots| reads slots => slots[k].target)
  }

  /** The targets of the variables are the objects that `held` says. */
  ghost predicate Named(targets: seq<RefCounted?>, objects: seq<RefCounted>, held: seq<int>) {
    && |targets| == |held|
    && (forall i, j | 0 <= i < j < |objects| :: objects[i] != objects[j])
    && forall k | 0 <= k < |held| :: -1 <= held[k] < |objects| && targets[k] == if held[k] < 0 then null else objects[held[k]]
  }

  ghost predicate Distinct(slots: seq<Pointer>) {
    forall i, j | 0 <= i < j < |slots| :: slots[i] != slots[j]
  }

  ghost predicate State(slots: seq<Pointer>, objects: seq<RefCounted>, held: seq<int>, ps: set<Pointer>, os: set<RefCounted>)
    reads ps, os
  {
    && ps == (set p | p in slots) && os == (set o | o in objects)
    && Distinct(slots) && Consistent(ps, os) && Named(Targets(slots), objects, held)
  }

  lemma SoleHolder(slots: seq<Pointer>, objects: seq<RefCounted>, held: seq<int>, i: nat, ps: set<Pointer>, os: set<RefCounted>)
    requires State(slots, objects, held, ps, os) && i < |held| && held[i] >= 0
    ensures slots[i].target != null
    ensures slots[i].target.refCount == 1 <==> forall k | 0 <= k < |held| && k != i :: held[k] != held[i]
  {
    var targets := Targets(slots);
    assert targets[i] == slots[i].target != null;
    var holders := Holders(ps, slots[i].target);
    HolderCounts(ps, os, slots[i]);
    forall k | 0 <= k < |held| && k != i && held[k] == held[i] ensures slots[i].target.refCount >= 2 {
      assert slots[k] != slots[i] && targets[k] == slots[k].target;
      TwoHolders(ps, os, slots[i], slots[k]);
    }
    if slots[i].target.refCount != 1 {
      assert slots[i] in holders && holders == (holders - {slots[i]}) + {slots[i]};
      assert holders - {slots[i]} != {};
      var p :| p in holders - {slots[i]};
      var k :| 0 <= k < |slots| && slots[k] == p;
      assert targets[k] == targets[i] && held[k] == held[i];
    }
  }

  method ApplyDeclare(slots: seq<Pointer>, ghost objects: seq<RefCounted>, ghost held: seq<int>,
                      ghost ps: set<Pointer>, ghost os: set<RefCounted>)
    returns (slots': seq<Pointer>, ghost ps': set<Pointer>)
    requires State(slots, objects, held, ps, os)
    ensures fresh(ps' - ps) && State(slots', objects, held + [-1], ps', os)
  {
    ghost var targets := Targets(slots);
    hide Consistent;
    var p := new Pointer(ps, os);
    slots', ps' := slots + [p], ps + {p};
    assert Targets(slots') == targets + [null];
  }

  lemma NamedNew(targets: seq<RefCounted?>, objects: seq<RefCounted>, held: seq<int>, i: nat, o: RefCounted)
    requires Named(targets, objects, held) && i < |held| && o !in objects
    ensures Named(targets[i := o], objects + [o], held[i := |objects|])
  {
  }

  method ApplyNew(slots: seq<Pointer>, ghost objects: seq<RefCounted>, ghost held: seq<int>, i: nat,
                  ghost ps: set<Pointer>, ghost os: set<RefCounted>)
    returns (ghost objects': seq<RefCounted>, ghost os': set<RefCounted>)
    requires State(slots, objects, held, ps, os) && i < |held|
    modifies ps, os
    ensures fresh(os' - os) && |objects'| == |objects| + 1 && State(slots, objects', held[i := |objects|], ps, os')
  {
    ghost var targets := Targets(slots);
    assert slots[i] in ps && (slots[i].target != null ==> slots[i].target in os);
    assert forall k | 0 <= k < |objects| :: objects[k] in os;
    hide Consistent, Named;
    var o := new RefCounted();
    assert o !in os;
    NamedNew(targets, objects, held, i, o);
    slots[i].AssignNew(o, ps, os);
    objects', os' := objects + [o], os + {o};
    assert Targets(slots) == targets[i := o];
  }

  method ApplyCopy(slots: seq<Pointer>, ghost objects: seq<RefCounted>, ghost held: seq<int>, i: nat, j: nat,
                   ghost ps: set<Pointer>, ghost os: set<RefCounted>)
    requires State(slots, objects, held, ps, os) && i < |held| && j < |held|
    modifies ps, os
    ensures if CopiesSoleHolder(held, Copy(i, j)) then exists o | o in os :: o.touchedDead
            else State(slots, objects, held[i := held[j]], ps, os)
  {
    ghost var targets := Targets(slots);
    if i == j && held[i] >= 0 { SoleHolder(slots, objects, held, i, ps, os); }
    assert targets[i] == slots[i].target && targets[j] == slots[j].target;
    assert slots[i].target != null ==> slots[i].target in os;
    assert slots[j].target != null ==> slots[j].target in os;
    hide Consistent;
    slots[i].CopyAssign(slots[j], ps, os);
    assert Targets(slots) == targets[i := targets[j]];
  }

  method ApplyMove(slots: seq<Pointer>, ghost objects: seq<RefCounted>, ghost held: seq<int>, i: nat, j: nat,
                   ghost ps: set<Pointer>, ghost os: set<RefCounted>)
    requires State(slots, objects, held, ps, os) && i < |held| && j < |held|
    modifies ps, os
    ensures State(slots, objects, held[i := held[j]][j := -1], ps, os)
  {
    ghost var targets := Targets(slots);
    assert targets[j] == slots[j].target;
    assert slots[i] in ps && (slots[i].target != null ==> slots[i].target in os);
    hide Consistent;
    slots[i].MoveAssign(slots[j], ps, os);
    assert Targets(slots) == targets[i := targets[j]][j := null];
  }

  method ApplyNull(slots: seq<Pointer>, ghost objects: seq<RefCounted>, ghost held: seq<int>, i: nat,
                   ghost ps: set<Pointer>, ghost os: set<RefCounted>)
    requires State(slots, objects, held, ps, os) && i < |held|
    modifies ps, os
    ensures State(slots, objects, held[i := -1], ps, os)
  {
    ghost var targets := Targets(slots);
    assert slots[i] in ps && (slots[i].target != null ==> slots[i].target in os);
    hide Consistent;
    slots[i].Reset(ps, os);
    assert Targets(slots) == targets[i := null];
  }

  /** One operation: the variables hold what they should afterwards, and everything stays consistent unless the sole holder
      of an object is copied onto itself; then the object is used after it was deleted. */
  method Apply(slots: seq<Pointer>, ghost objects: seq<RefCounted>, ghost held: seq<int>, op: Op,
               ghost ps: set<Pointer>, ghost os: set<RefCounted>)
    returns (slots': seq<Pointer>, ghost objects': seq<RefCounted>, ghost ps': set<Pointer>, ghost os': set<RefCounted>)
    requires State(slots, objects, held, ps, os) && InRange(op, |held|)
    modifies ps, os
    ensures fresh(ps' - ps) && fresh(os' - os)
    ensures |objects'| == |objects| + if op.New? then 1 else 0
    ensures if CopiesSoleHolder(held, op) then exists o | o in os' :: o.touchedDead
            else State(slots', objects', Next(held, |objects|, op), ps', os')
  {
    slots', objects', ps', os' := slots, objects, ps, os;
    hide State;
    match op {
      case Declare => slots', ps' := ApplyDeclare(slots, objects, held, ps, os);
      case New(i) => objects', os' := ApplyNew(slots, objects, held, i, ps, os);
      case Copy(i, j) => ApplyCopy(slots, objects, held, i, j, ps, os);
      case Move(i, j) => ApplyMove(slots, objects, held, i, j, ps, os);
      case Null(i) => ApplyNull(slots, objects, held, i, ps, os);
    }
  }

  lemma SameNumber(objects: seq<RefCounted>, os: set<RefCounted>)
    requires os == (set o | o in objects) && forall i, j | 0 <= i < j < |objects| :: objects[i] != objects[j]
    ensures |objects| == |os|
  {
    if objects == [] {
      assert os == {};
    } else {
      var front, last := objects[..|objects| - 1], objects[|objects| - 1];
      assert objects == front + [last];
      assert os - {last} == set o | o in front;
      SameNumber(front, os - {last});
    }
  }

  /** All variables leave scope: every object goes with the last of them. */
  method LeaveScope(slots: seq<Pointer>, ghost objects: seq<RefCounted>, ghost held: seq<int>,
                    ghost ps: set<Pointer>, ghost os: set<RefCounted>)
    requires State(slots, objects, held, ps, os)
    modifies ps, os
    ensures |os| == |objects| && forall o | o in os :: o.deleted && o.refCount == 0 && !o.touchedDead
  {
    SameNumber(objects, os);
    for i := 0 to |slots|
      invariant Consistent(ps, os) && forall k | 0 <= k < i :: slots[k].target == null
    {
      assert slots[i] in ps && (slots[i].target != null ==> slots[i].target in os);
      slots[i].Reset(ps, os);
    }
    forall o | o in os ensures o.deleted && o.refCount == 0 && !o.touchedDead {
      assert Holders(ps, o) == {};
    }
  }

  lemma Start(ops: seq<Op>)
    requires WellFormed(ops)
    ensures WellFormed(ops[..0]) && State([], [], After(ops[..0]), {}, {})
    ensures Created(ops[..0]) == 0 && Harmless(ops, 0)
  {
  }

  /** Any program of variables that come into scope, are assigned and leave scope in any order, the rest at its end: as many
      objects as were created, each deleted and none used afterwards, if and only if no sole holder is copied onto itself.
      The run ends at such a copy, behind which nothing is defined. */
  method Execute(ops: seq<Op>) returns (ghost os: set<RefCounted>)
    requires WellFormed(ops)
    ensures fresh(os)
    ensures if Harmless(ops, |ops|)
            then |os| == Created(ops) && forall o | o in os :: o.deleted && o.refCount == 0 && !o.touchedDead
            else exists o | o in os :: o.touchedDead
  {
    hide *;
    var slots := [];
    ghost var objects, ps;
    objects, ps, os := [], {}, {};
    Start(ops);
    for k := 0 to |ops|
      invariant fresh(ps) && fresh(os) && |objects| == Created(ops[..k])
      invariant WellFormed(ops[..k]) && State(slots, objects, After(ops[..k]), ps, os) && Harmless(ops, k)
    {
      AfterStep(ops, k);
      var held := After(ops[..k]);
      slots, objects, ps, os := Apply(slots, objects, held, ops[k], ps, os);
      HarmlessStep(ops, k);
      if CopiesSoleHolder(held, ops[k]) { return; }
    }
    assert ops[..|ops|] == ops;
    LeaveScope(slots, objects, After(ops), ps, os);
  }
}

/** The same count changed by several threads, one atomic step at a time. */
module AtomicCount {

  /** `held[t]` references belong to thread `t`; `seesZero` holds the threads whose decrement returned zero and that have
      not deleted the object yet. */
  datatype State = State(count: int, held: seq<nat>, seesZero: set<nat>, zeroSeen: nat, deletions: nat, addsAfterZero: nat)

  datatype Step =
    | Add(t: nat)
    | Pass(t: nat, u: nat)
    | Sub(t: nat)
    | Delete(t: nat)

  /** A thread adds, passes on or drops only a reference it holds. */
  predicate Enabled(s: State, step: Step) {
    step.t < |s.held| &&
    match step
    case Add(t) => s.held[t] > 0
    case Pass(t, u) => s.held[t] > 0 && u < |s.held|
    case Sub(t) => s.held[t] > 0
    case Delete(t) => t in s.seesZero
  }

  function Apply(s: State, step: Step): State
    requires Enabled(s, step)
  {
    match step
    case Add(t) =>
      s.(count := s.count + 1, held := s.held[t := s.held[t] + 1], addsAfterZero := s.addsAfterZero + if s.zeroSeen > 0 then 1 else 0)
    case Pass(t, u) =>
      var h := s.held[t := s.held[t] - 1];
      s.(held := h[u := h[u] + 1])
    case Sub(t) =>
      var s1 := s.(count := s.count - 1, held := s.held[t := s.held[t] - 1]);
      if s1.count == 0 then s1.(seesZero := s.seesZero + {t}, zeroSeen := s.zeroSeen + 1) else s1
    case Delete(t) => s.(seesZero := s.seesZero - {t}, deletions := s.deletions + 1)
  }

  /** One thread holds the one reference of a new object. */
  predicate Initial(s: State) {
    && s.count == 1 && Sum(s.held) == 1
    && s.seesZero == {} && s.zeroSeen == 0 && s.deletions == 0 && s.addsAfterZero == 0
  }

  function Sum(h: seq<nat>): nat {
    if h == [] then 0 else Sum(h[..|h| - 1]) + h[|h| - 1]
  }

  lemma {:induction false} SumUpdate(h: seq<nat>, t: nat, v: nat)
    requires t < |h|
    ensures Sum(h[t := v]) == Sum(h) - h[t] + v
    decreases |h|
  {
    var n := |h| - 1;
    if t == n {
      assert h[t := v][..n] == h[..n];
    } else {
      assert h[t := v][..n] == h[..n][t := v];
      SumUpdate(h[..n], t, v);
    }
  }

  lemma {:induction false} SumCovers(h: seq<nat>, t: nat)
    requires t < |h|
    ensures h[t] <= Sum(h)
    decreases |h|
  {
    if t < |h| - 1 { SumCovers(h[..|h| - 1], t); }
  }

  ghost predicate Inv(s: State) {
    && s.count == Sum(s.held)
    && s.zeroSeen == (if s.count == 0 then 1 else 0)
    && s.deletions + |s.seesZero| == s.zeroSeen
    && s.addsAfterZero == 0
  }

  lemma StepKeepsInv(s: State, step: Step)
    requires Inv(s) && Enabled(s, step)
    ensures Inv(Apply(s, step))
  {
    hide Sum;
    var t := step.t;
    SumCovers(s.held, t);
    match step {
      case Add(_) => SumUpdate(s.held, t, s.held[t] + 1);
      case Pass(_, u) =>
        SumUpdate(s.held, t, s.held[t] - 1);
        var h := s.held[t := s.held[t] - 1];
        SumUpdate(h, u, h[u] + 1);
      case Sub(_) => SumUpdate(s.held, t, s.held[t] - 1);
      case Delete(_) =>
        assert |s.seesZero - {t}| == |s.seesZero| - 1;
    }
  }

  /** `s` comes from a new object by the steps listed. */
  ghost predicate Reaches(s0: State, steps: seq<Step>, s: State)
    decreases |steps|
  {
    if steps == [] then s == s0
    else Enabled(s0, steps[0]) && Reaches(Apply(s0, steps[0]), steps[1..], s)
  }

  lemma {:induction false} ReachableInv(s0: State, steps: seq<Step>, s: State)
    requires Inv(s0) && Reaches(s0, steps, s)
    ensures Inv(s)
    decreases |steps|
  {
    if steps != [] {
      StepKeepsInv(s0, steps[0]);
      ReachableInv(Apply(s0, steps[0]), steps[1..], s);
    }
  }

  /** However the threads interleave: the count is the number of references held; exactly one thread sees zero, exactly
      when the last reference is gone; nothing is added afterwards; and the object is deleted at most once, by that thread. */
  lemma ExactlyOneSeesZero(s0: State, steps: seq<Step>, s: State)
    requires Initial(s0) && Reaches(s0, steps, s)
    ensures s.count == Sum(s.held)
    ensures s.zeroSeen == if forall t | 0 <= t < |s.held| :: s.held[t] == 0 then 1 else 0
    ensures s.deletions <= 1 && s.addsAfterZero == 0
    ensures s.deletions == 1 ==> s.seesZero == {} && forall t | 0 <= t < |s.held| :: s.held[t] == 0
  {
    ReachableInv(s0, steps, s);
    if Sum(s.held) == 0 {
      forall t | 0 <= t < |s.held| ensures s.held[t] == 0 { SumCovers(s.held, t); }
    }
    if forall t | 0 <= t < |s.held| :: s.held[t] == 0 { SumZero(s.held); }
  }

  lemma {:induction false} SumZero(h: seq<nat>)
    requires forall t | 0 <= t < |h| :: h[t] == 0
    ensures Sum(h) == 0
  {
    if h != [] { SumZero(h[..|h| - 1]); }
  }

  /** Once every reference is gone and no step is enabled any more, the object has been deleted: nothing leaks. */
  lemma NothingLeaks(s0: State, steps: seq<Step>, s: State)
    requires Initial(s0) && Reaches(s0, steps, s)
    requires forall step :: !Enabled(s, step)
    ensures s.deletions == 1
  {
    ExactlyOneSeesZero(s0, steps, s);
    ReachableInv(s0, steps, s);
    forall t | 0 <= t < |s.held| ensures s.held[t] == 0 { assert !Enabled(s, Sub(t)); }
    if s.seesZero != {} {
      var t :| t in s.seesZero;
      SeesZeroInRange(s0, steps, s, t);
      assert Enabled(s, Delete(t));
    }
  }

  lemma {:induction false} SeesZeroInRange(s0: State, steps: seq<Step>, s: State, t: nat)
    requires Reaches(s0, steps, s) && t in s.seesZero && forall u | u in s0.seesZero :: u < |s0.held|
    ensures t < |s.held|
    decreases |steps|
  {
    if steps != [] { SeesZeroInRange(Apply(s0, steps[0]), steps[1..], s, t); }
  }
}
