// The reference-counted object cache of common/expirecontainer.{h,cpp}, as a
// transition system in which one step is one critical section.  A session is
// one ref_acquire call together with the ref_release that gives its reference
// back, or one expire call; any number of sessions interleave.  Semaphores and
// condition variables are abstract: a waiting session may be tried at any time
// and goes on only when its wait is over.
module ObjectCache {
  import opened Arith

  datatype Option<+T> = None | Some(value: T)

  // Keys, items and objects are identities: they are only compared.
  type Key = nat
  type Id = nat
  type Obj = nat
  type Sid = nat

  datatype Item = Item(
    key: Key,
    obj: Option<Obj>,
    refcnt: int,
    recycle: Option<Sid>,       // the session whose semaphore is stored here
    mtx: Option<Sid>,           // the session that holds the item's mutex
    failure: nat,
    expiration: nat,
    doomedBy: Option<Sid>)      // history: the session that took the item out of the index

  datatype Phase =
    | Done
    | Acquiring(key: Key, cooldown: nat)            // before the critical section, or blocked in it
    | Acquired(id: Id, cooldown: nat)               // has a reference, before locking the mutex
    | Constructing(id: Id)                          // runs the constructor under the mutex
    | Checking(id: Id)                              // mutex released, before reading _obj
    | Borrowed(id: Id, obj: Obj)                    // ref_acquire returned
    | Releasing(id: Id, recycle: bool, destroy: bool)
    | RecycleWait(id: Id, destroy: bool)            // waits on its semaphore
    | RecycleErase(id: Id, destroy: bool)           // before taking the item out of the index
    | RecycleDelete(id: Id, destroy: bool)          // before deleting the item
    | Expiring                                      // before the critical section of expire
    | Deleting(ids: seq<Id>)                        // deletes what expire took out

  datatype State = State(
    lifespan: nat,
    limit: nat,
    now: nat,
    index: map<Key, Id>,
    items: map<Id, Item>,
    list: seq<Id>,
    sess: map<Sid, Phase>,
    signaled: set<Sid>,
    nextId: Id,
    nextObj: Obj,
    destroyed: set<Obj>,
    movedOut: set<Obj>)

  datatype Action =
    | Tick(dt: nat)
    | CallAcquire(sid: Sid, key: Key, cooldown: nat)
    | CallRelease(sid: Sid, recycle: bool, destroy: bool)
    | CallExpire(sid: Sid)
    | Step(sid: Sid)
    | CtorReturns(sid: Sid, ok: bool)

  function PhaseOf(s: State, sid: Sid): Phase {
    if sid in s.sess then s.sess[sid] else Done
  }

  function Goto(s: State, sid: Sid, ph: Phase): State {
    s.(sess := s.sess[sid := ph])
  }

  function Without(q: seq<Id>, id: Id): seq<Id> {
    if q == [] then [] else if q[0] == id then Without(q[1..], id) else [q[0]] + Without(q[1..], id)
  }

  // ref_acquire, lines 90-107.
  function AcquireStep(s: State, sid: Sid): State
    requires PhaseOf(s, sid).Acquiring?
  {
    var Acquiring(key, cooldown) := s.sess[sid];
    if key !in s.index then
      var id := s.nextId;
      Goto(s, sid, Acquired(id, cooldown)).(
        index := s.index[key := id],
        items := s.items[id := Item(key, None, 1, None, None, 0, 0, None)],
        nextId := id + 1)
    else
      var id := s.index[key];
      if id !in s.items then s
      else if s.items[id].recycle.Some? then s.(list := Without(s.list, id))
      else
        Goto(s, sid, Acquired(id, cooldown)).(
          list := Without(s.list, id),
          items := s.items[id := s.items[id].(refcnt := s.items[id].refcnt + 1)])
  }

  // Lines 108-115: under the mutex, construct unless there is an object or a
  // failure too recent.
  function LockStep(s: State, sid: Sid): State
    requires PhaseOf(s, sid).Acquired? && PhaseOf(s, sid).id in s.items
  {
    var Acquired(id, cooldown) := s.sess[sid];
    var it := s.items[id];
    if it.mtx.Some? then s
    else if it.obj.None? && it.failure <= SatSub(s.now, cooldown) then
      Goto(s, sid, Constructing(id)).(items := s.items[id := it.(mtx := Some(sid))])
    else Goto(s, sid, Checking(id))
  }

  function CtorStep(s: State, sid: Sid, ok: bool): State
    requires PhaseOf(s, sid).Constructing? && PhaseOf(s, sid).id in s.items
  {
    var id := s.sess[sid].id;
    var it := s.items[id];
    if ok then
      Goto(s, sid, Checking(id)).(
        items := s.items[id := it.(obj := Some(s.nextObj), mtx := None)],
        nextObj := s.nextObj + 1)
    else
      Goto(s, sid, Checking(id)).(items := s.items[id := it.(failure := s.now, mtx := None)])
  }

  // Lines 116-120.
  function CheckStep(s: State, sid: Sid): State
    requires PhaseOf(s, sid).Checking? && PhaseOf(s, sid).id in s.items
  {
    var id := s.sess[sid].id;
    match s.items[id].obj
    case Some(o) => Goto(s, sid, Borrowed(id, o))
    case None => Goto(s, sid, Releasing(id, false, true))
  }

  // ref_release, lines 127-142.
  function ReleaseStep(s: State, sid: Sid): State
    requires PhaseOf(s, sid).Releasing? && PhaseOf(s, sid).id in s.items
  {
    var Releasing(id, recycle0, destroy) := s.sess[sid];
    var it := s.items[id];
    var recycle := recycle0 && it.recycle.None?;
    var it1 := it.(recycle := if recycle then Some(sid) else it.recycle, refcnt := it.refcnt - 1);
    var s1 := Goto(s, sid, if recycle then RecycleWait(id, destroy) else Done);
    if it1.refcnt != 0 then s1.(items := s.items[id := it1])
    else if it1.recycle.Some? then
      s1.(items := s.items[id := it1], signaled := s.signaled + {it1.recycle.value})
    else
      s1.(items := s.items[id := it1.(failure := 0, expiration := SatAdd(s.now, s.lifespan))],
          list := Without(s.list, id) + [id])
  }

  // Lines 143-155, one step each: the wait, the erasure by key, the deletion.
  function RecycleStep(s: State, sid: Sid): State
    requires PhaseOf(s, sid).RecycleWait? || PhaseOf(s, sid).RecycleErase? || PhaseOf(s, sid).RecycleDelete?
    requires PhaseOf(s, sid).id in s.items
  {
    match s.sess[sid]
    case RecycleWait(id, destroy) =>
      if sid in s.signaled then
        Goto(s, sid, RecycleErase(id, destroy)).(signaled := s.signaled - {sid})
      else s
    case RecycleErase(id, destroy) =>
      Goto(s, sid, RecycleDelete(id, destroy)).(
        index := s.index - {s.items[id].key},
        items := s.items[id := s.items[id].(doomedBy := Some(sid))])
    case RecycleDelete(id, destroy) =>
      var o := if s.items[id].obj.Some? then {s.items[id].obj.value} else {};
      var s1 := Goto(s, sid, Done).(items := s.items - {id});
      if destroy then s1.(destroyed := s.destroyed + o) else s1.(movedOut := s.movedOut + o)
  }

  // The loop of split_by_predicate in expire: the index it leaves, and how
  // many items it takes from the front of the idle list.
  function ExpireLoop(s: State, index: map<Key, Id>, list: seq<Id>): (map<Key, Id>, nat) {
    if list == [] || list[0] !in s.items then (index, 0)
    else if s.items[list[0]].expiration < s.now || |index| > s.limit then
      var (ix, n) := ExpireLoop(s, index - {s.items[list[0]].key}, list[1..]);
      (ix, n + 1)
    else (index, 0)
  }

  function Doom(items: map<Id, Item>, ids: seq<Id>, sid: Sid): map<Id, Item> {
    map id | id in items :: if id in ids then items[id].(doomedBy := Some(sid)) else items[id]
  }

  function ExpireStep(s: State, sid: Sid): State {
    var (ix, n) := ExpireLoop(s, s.index, s.list);
    if n <= |s.list| then
      Goto(s, sid, Deleting(s.list[..n])).(
        index := ix,
        list := s.list[n..],
        items := Doom(s.items, s.list[..n], sid))
    else s
  }

  function DeleteStep(s: State, sid: Sid): State
    requires PhaseOf(s, sid).Deleting?
  {
    var ids := s.sess[sid].ids;
    if ids == [] then Goto(s, sid, Done)
    else
      var o := if ids[0] in s.items && s.items[ids[0]].obj.Some? then {s.items[ids[0]].obj.value} else {};
      Goto(s, sid, Deleting(ids[1..])).(items := s.items - {ids[0]}, destroyed := s.destroyed + o)
  }

  function Advance(s: State, sid: Sid): State {
    var ph := PhaseOf(s, sid);
    if ph.Acquiring? then AcquireStep(s, sid)
    else if ph.Expiring? then ExpireStep(s, sid)
    else if ph.Deleting? then DeleteStep(s, sid)
    else if ph.Done? || ph.id !in s.items then s
    else
      match ph
      case Acquired(_, _) => LockStep(s, sid)
      case Checking(_) => CheckStep(s, sid)
      case Releasing(_, _, _) => ReleaseStep(s, sid)
      case RecycleWait(_, _) => RecycleStep(s, sid)
      case RecycleErase(_, _) => RecycleStep(s, sid)
      case RecycleDelete(_, _) => RecycleStep(s, sid)
      case _ => s
  }

  function Apply(s: State, a: Action): State {
    match a
    case Tick(dt) => s.(now := s.now + dt)
    case CallAcquire(sid, key, cooldown) =>
      if PhaseOf(s, sid).Done? then Goto(s, sid, Acquiring(key, cooldown)) else s
    case CallRelease(sid, recycle, destroy) =>
      if PhaseOf(s, sid).Borrowed? then Goto(s, sid, Releasing(s.sess[sid].id, recycle, destroy)) else s
    case CallExpire(sid) =>
      if PhaseOf(s, sid).Done? then Goto(s, sid, Expiring) else s
    case Step(sid) => Advance(s, sid)
    case CtorReturns(sid, ok) =>
      if PhaseOf(s, sid).Constructing? && PhaseOf(s, sid).id in s.items then CtorStep(s, sid, ok) else s
  }

  ghost predicate Init(s: State) {
    && s.index == map[] && s.items == map[] && s.list == [] && s.sess == map[]
    && s.signaled == {} && s.destroyed == {} && s.movedOut == {} && s.nextObj == 0
  }

  ghost predicate Run(tr: seq<State>, acts: seq<Action>) {
    && |tr| == |acts| + 1
    && Init(tr[0])
    && forall i :: 0 <= i < |acts| ==> tr[i + 1] == Apply(tr[i], acts[i])
  }

  // ----- the invariant -------------------------------------------------------

  // The session has taken a reference to the item and not given it back.
  predicate HoldsRef(ph: Phase, id: Id) {
    (ph.Acquired? || ph.Constructing? || ph.Checking? || ph.Borrowed? || ph.Releasing?) && ph.id == id
  }

  predicate Recycles(ph: Phase, id: Id) {
    (ph.RecycleWait? || ph.RecycleErase? || ph.RecycleDelete?) && ph.id == id
  }

  // The session is going to delete the item.
  predicate Disposes(ph: Phase, id: Id) {
    (ph.RecycleDelete? && ph.id == id) || (ph.Deleting? && id in ph.ids)
  }

  ghost function HoldersIn(sess: map<Sid, Phase>, id: Id): set<Sid> {
    set sid | sid in sess && HoldsRef(sess[sid], id)
  }

  ghost function Holders(s: State, id: Id): set<Sid> {
    HoldersIn(s.sess, id)
  }

  predicate Indexed(s: State, id: Id) {
    id in s.items && s.items[id].key in s.index && s.index[s.items[id].key] == id
  }

  ghost predicate IndexOk(s: State) {
    forall k :: k in s.index ==> s.index[k] in s.items && s.items[s.index[k]].key == k
  }

  predicate Idle(s: State, id: Id) {
    Indexed(s, id) && s.items[id].refcnt == 0 && s.items[id].recycle.None?
  }

  // Allocated, without repetition, in order of expiration.
  ghost predicate Sorted(items: map<Id, Item>, q: seq<Id>) {
    && (forall x :: x in q ==> x in items)
    && (forall i, j :: 0 <= i < j < |q| ==>
          q[i] != q[j] && items[q[i]].expiration <= items[q[j]].expiration)
  }

  ghost predicate ListOk(s: State) {
    && Sorted(s.items, s.list)
    && (forall id :: id in s.list ==> s.items[id].expiration <= SatAdd(s.now, s.lifespan))
  }

  ghost predicate ItemOk(s: State, id: Id)
    requires id in s.items
  {
    var it := s.items[id];
    && id < s.nextId
    && it.refcnt == |Holders(s, id)|
    && (id in s.list <==> Idle(s, id))
    && (id in s.list ==> it.failure == 0)
    && (it.recycle.Some? ==> Recycles(PhaseOf(s, it.recycle.value), id))
    && (it.mtx.Some? ==> PhaseOf(s, it.mtx.value) == Constructing(id))
    && (Indexed(s, id) <==> it.doomedBy.None?)
    && (it.doomedBy.Some? ==> Disposes(PhaseOf(s, it.doomedBy.value), id))
    && (it.obj.Some? ==> it.obj.value < s.nextObj && it.obj.value !in s.destroyed && it.obj.value !in s.movedOut)
  }

  ghost predicate ItemsOk(s: State) {
    forall id :: id in s.items ==> ItemOk(s, id)
  }

  ghost predicate Doomed(s: State, id: Id, sid: Sid) {
    id in s.items && s.items[id].doomedBy == Some(sid) && s.items[id].refcnt == 0
  }

  ghost predicate SessionOk(s: State, sid: Sid, ph: Phase) {
    match ph
    case Acquired(id, _) => Indexed(s, id)
    case Constructing(id) => Indexed(s, id) && s.items[id].mtx == Some(sid) && s.items[id].obj.None?
    case Checking(id) => Indexed(s, id)
    case Borrowed(id, o) => Indexed(s, id) && s.items[id].obj == Some(o)
    case Releasing(id, recycle, _) => Indexed(s, id) && (recycle ==> s.items[id].obj.Some?)
    case RecycleWait(id, _) =>
      && Indexed(s, id) && s.items[id].recycle == Some(sid) && s.items[id].obj.Some?
      && (sid in s.signaled <==> s.items[id].refcnt == 0)
    case RecycleErase(id, _) =>
      && Indexed(s, id) && s.items[id].recycle == Some(sid) && s.items[id].obj.Some?
      && s.items[id].refcnt == 0
    case RecycleDelete(id, _) =>
      Doomed(s, id, sid) && s.items[id].recycle == Some(sid) && s.items[id].obj.Some?
    case Deleting(ids) =>
      && (forall i, j :: 0 <= i < j < |ids| ==> ids[i] != ids[j])
      && (forall id :: id in ids ==> Doomed(s, id, sid) && s.items[id].recycle.None?)
    case _ => true
  }

  ghost predicate SessionsOk(s: State) {
    forall sid :: sid in s.sess ==> SessionOk(s, sid, s.sess[sid])
  }

  ghost predicate SignalsOk(s: State) {
    forall sid :: sid in s.signaled ==> PhaseOf(s, sid).RecycleWait?
  }

  ghost predicate Carries(s: State, id: Id, o: Obj) {
    id in s.items && s.items[id].obj == Some(o)
  }

  // Every object made is carried by one item, or moved out, or destroyed.
  ghost predicate ObjectOk(s: State, o: Obj) {
    && (o in s.destroyed ==> o !in s.movedOut)
    && (o in s.destroyed || o in s.movedOut ==> o < s.nextObj && forall id :: !Carries(s, id, o))
    && (o < s.nextObj && o !in s.destroyed && o !in s.movedOut ==> exists id :: Carries(s, id, o))
    && (forall a, b :: Carries(s, a, o) && Carries(s, b, o) ==> a == b)
  }

  ghost predicate ObjectsOk(s: State) {
    forall o: Obj :: ObjectOk(s, o)
  }

  ghost predicate Inv(s: State) {
    && IndexOk(s) && ListOk(s) && ItemsOk(s)
    && SessionsOk(s) && SignalsOk(s) && ObjectsOk(s)
  }

  // ----- frames --------------------------------------------------------------

  // s' is s after session sid moved to ph.
  ghost predicate Moved(s: State, s': State, sid: Sid, ph: Phase) {
    s'.sess == s.sess[sid := ph]
  }

  lemma HoldersInMoved(m: map<Sid, Phase>, sid: Sid, ph: Phase, id: Id)
    ensures HoldsRef(ph, id) ==> HoldersIn(m[sid := ph], id) == HoldersIn(m, id) + {sid}
    ensures !HoldsRef(ph, id) ==> HoldersIn(m[sid := ph], id) == HoldersIn(m, id) - {sid}
  {
  }

  lemma CardUpdate(A: set<Sid>, x: Sid)
    ensures |A + {x}| == |A| + (if x in A then 0 else 1)
    ensures |A - {x}| == |A| - (if x in A then 1 else 0)
  {
    if x in A { assert A + {x} == A; } else { assert A - {x} == A; }
  }

  lemma HoldersMoved(s: State, s': State, sid: Sid, ph: Phase, id: Id)
    requires Moved(s, s', sid, ph)
    ensures |Holders(s', id)| == |Holders(s, id)|
              + (if HoldsRef(ph, id) then 1 else 0) - (if HoldsRef(PhaseOf(s, sid), id) then 1 else 0)
  {
    HoldersInMoved(s.sess, sid, ph, id);
    CardUpdate(HoldersIn(s.sess, id), sid);
    assert sid in HoldersIn(s.sess, id) <==> HoldsRef(PhaseOf(s, sid), id);
  }

  // An item the step did not touch.
  lemma ItemFrame(s: State, s': State, sid: Sid, ph: Phase, id: Id)
    requires Moved(s, s', sid, ph) && id in s.items && ItemOk(s, id)
    requires id in s'.items && s'.items[id] == s.items[id]
    requires Indexed(s', id) == Indexed(s, id) && (id in s'.list <==> id in s.list)
    requires HoldsRef(ph, id) == HoldsRef(PhaseOf(s, sid), id)
    requires Recycles(PhaseOf(s, sid), id) ==> Recycles(ph, id)
    requires PhaseOf(s, sid) == Constructing(id) ==> ph == Constructing(id)
    requires Disposes(PhaseOf(s, sid), id) ==> Disposes(ph, id)
    requires s.nextId <= s'.nextId && s.nextObj <= s'.nextObj
    requires s.items[id].obj.Some? ==>
               s.items[id].obj.value !in s'.destroyed && s.items[id].obj.value !in s'.movedOut
    ensures ItemOk(s', id)
  {
    HoldersMoved(s, s', sid, ph, id);
    assert forall a :: a != sid ==> PhaseOf(s', a) == PhaseOf(s, a);
  }

  // What a session says about an item stays true when the item changes like
  // this under it.
  ghost predicate Kept(s: State, s': State, id: Id) {
    && (Indexed(s, id) ==> Indexed(s', id))
    && id in s.items && id in s'.items
    && s'.items[id].doomedBy == s.items[id].doomedBy
    && s'.items[id].obj == s.items[id].obj && s'.items[id].mtx == s.items[id].mtx
    && s'.items[id].recycle == s.items[id].recycle && s'.items[id].refcnt == s.items[id].refcnt
  }

  predicate Mentions(ph: Phase, id: Id) {
    HoldsRef(ph, id) || Recycles(ph, id) || Disposes(ph, id)
  }

  lemma SessionFrame(s: State, s': State, a: Sid, ph: Phase)
    requires SessionOk(s, a, ph) && (a in s'.signaled <==> a in s.signaled)
    requires forall id :: Mentions(ph, id) ==> Kept(s, s', id)
    ensures SessionOk(s', a, ph)
  {
    match ph
    case Done => case Expiring => case Acquiring(_, _) =>
    case Deleting(ids) =>
      forall id | id in ids ensures Doomed(s', id, a) && s'.items[id].recycle.None? {
        assert Mentions(ph, id);
      }
    case Acquired(id, _) => assert Mentions(ph, id);
    case Constructing(id) => assert Mentions(ph, id);
    case Checking(id) => assert Mentions(ph, id);
    case Borrowed(id, _) => assert Mentions(ph, id);
    case Releasing(id, _, _) => assert Mentions(ph, id);
    case RecycleWait(id, _) => assert Mentions(ph, id);
    case RecycleErase(id, _) => assert Mentions(ph, id);
    case RecycleDelete(id, _) => assert Mentions(ph, id);
  }

  lemma SameObjects(s: State, s': State)
    requires ObjectsOk(s) && s'.items.Keys == s.items.Keys
    requires forall x :: x in s.items ==> s'.items[x].obj == s.items[x].obj
    requires s'.nextObj == s.nextObj && s'.destroyed == s.destroyed && s'.movedOut == s.movedOut
    ensures ObjectsOk(s')
  {
    forall o: Obj ensures ObjectOk(s', o) {
      assert ObjectOk(s, o);
      assert forall id :: Carries(s', id, o) <==> Carries(s, id, o);
    }
  }

  // ----- steps that touch at most one item --------------------------------------

  // s' is s after session sid moved to ph and at most item id changed, keeping
  // its key.
  ghost predicate Touched(s: State, s': State, sid: Sid, ph: Phase, id: Id) {
    && Moved(s, s', sid, ph) && id in s.items && id in s'.items
    && s'.items == s.items[id := s'.items[id]] && s'.items[id].key == s.items[id].key
    && s'.index == s.index && s'.now == s.now && s'.lifespan == s.lifespan
    && s'.nextId == s.nextId && s.nextObj <= s'.nextObj
    && s'.destroyed == s.destroyed && s'.movedOut == s.movedOut
    && (forall x :: x != id ==> (x in s'.list <==> x in s.list))
  }

  // The session claims no item but this one, and is not about to delete any.
  predicate OnlyMentions(ph: Phase, id: Id) {
    match ph
    case Acquired(x, _) => x == id
    case Constructing(x) => x == id
    case Checking(x) => x == id
    case Borrowed(x, _) => x == id
    case Releasing(x, _, _) => x == id
    case RecycleWait(x, _) => x == id
    case RecycleErase(x, _) => x == id
    case RecycleDelete(_, _) => false
    case Deleting(_) => false
    case _ => true
  }

  lemma TouchedItems(s: State, s': State, sid: Sid, ph: Phase, id: Id)
    requires IndexOk(s) && ItemsOk(s) && Touched(s, s', sid, ph, id) && ItemOk(s', id)
    requires OnlyMentions(PhaseOf(s, sid), id) && OnlyMentions(ph, id)
    ensures IndexOk(s') && ItemsOk(s')
  {
    forall x | x in s'.items ensures ItemOk(s', x) {
      if x != id {
        assert ItemOk(s, x);
        ItemUntouched(s, s', sid, ph, id, x);
      }
    }
  }

  lemma ItemUntouched(s: State, s': State, sid: Sid, ph: Phase, id: Id, x: Id)
    requires Touched(s, s', sid, ph, id) && x != id && x in s.items && ItemOk(s, x)
    requires OnlyMentions(PhaseOf(s, sid), id) && OnlyMentions(ph, id)
    ensures ItemOk(s', x)
  {
    ItemFrame(s, s', sid, ph, x);
  }

  // The sessions are fine after the step if those that claim the item are.
  lemma TouchedSessions(s: State, s': State, sid: Sid, ph: Phase, id: Id)
    requires SessionsOk(s) && Touched(s, s', sid, ph, id) && SessionOk(s', sid, ph)
    requires forall a :: a in s.sess && a != sid && Mentions(s.sess[a], id) ==> SessionOk(s', a, s.sess[a])
    requires forall a :: a in s.sess && a != sid && !Mentions(s.sess[a], id) ==>
               (a in s'.signaled <==> a in s.signaled)
    ensures SessionsOk(s')
  {
    forall a | a in s'.sess ensures SessionOk(s', a, s'.sess[a]) {
      if a != sid && !Mentions(s.sess[a], id) {
        assert SessionOk(s, a, s.sess[a]);
        SessionUntouched(s, s', sid, ph, id, a);
      }
    }
  }

  lemma SessionUntouched(s: State, s': State, sid: Sid, ph: Phase, id: Id, a: Sid)
    requires Touched(s, s', sid, ph, id) && a in s.sess && SessionOk(s, a, s.sess[a])
    requires a != sid && !Mentions(s.sess[a], id) && (a in s'.signaled <==> a in s.signaled)
    ensures SessionOk(s', a, s.sess[a])
  {
    forall x | Mentions(s.sess[a], x) ensures Kept(s, s', x) {
    }
    SessionFrame(s, s', a, s.sess[a]);
  }

  lemma Assemble(s: State, s': State, sid: Sid, ph: Phase, id: Id)
    requires IndexOk(s) && ItemsOk(s) && Touched(s, s', sid, ph, id) && ItemOk(s', id)
    requires OnlyMentions(PhaseOf(s, sid), id) && OnlyMentions(ph, id)
    requires ListOk(s') && SessionsOk(s') && SignalsOk(s') && ObjectsOk(s')
    ensures Inv(s')
  {
    TouchedItems(s, s', sid, ph, id);
  }

  // A step that only moves the session, keeping its claim on its item.
  lemma LocalStep(s: State, sid: Sid, ph: Phase, id: Id)
    requires Inv(s) && SessionOk(s, sid, ph) && sid !in s.signaled
    requires HoldsRef(ph, id) && HoldsRef(PhaseOf(s, sid), id)
    requires !PhaseOf(s, sid).Constructing? && id in s.items
    ensures Inv(Goto(s, sid, ph))
  {
    assert ItemOk(s, id);
    LocalTouched(s, sid, ph, id);
    LocalSessions(s, sid, ph);
    SameObjects(s, Goto(s, sid, ph));
    Assemble(s, Goto(s, sid, ph), sid, ph, id);
  }

  lemma LocalTouched(s: State, sid: Sid, ph: Phase, id: Id)
    requires HoldsRef(ph, id) && HoldsRef(PhaseOf(s, sid), id) && !PhaseOf(s, sid).Constructing?
    requires id in s.items && ItemOk(s, id) && ListOk(s) && SignalsOk(s) && sid !in s.signaled
    ensures var s' := Goto(s, sid, ph);
            && Touched(s, s', sid, ph, id) && ItemOk(s', id) && ListOk(s') && SignalsOk(s')
            && OnlyMentions(ph, id) && OnlyMentions(PhaseOf(s, sid), id)
  {
    ItemFrame(s, Goto(s, sid, ph), sid, ph, id);
  }

  lemma LocalSessions(s: State, sid: Sid, ph: Phase)
    requires SessionsOk(s) && SessionOk(s, sid, ph)
    ensures SessionsOk(Goto(s, sid, ph))
  {
    var s' := Goto(s, sid, ph);
    forall a | a in s'.sess ensures SessionOk(s', a, s'.sess[a]) {
      if a != sid { assert SessionOk(s, a, s.sess[a]); }
      SessionSame(s, s', a, s'.sess[a]);
    }
  }

  lemma SessionSame(s: State, s': State, a: Sid, ph: Phase)
    requires SessionOk(s, a, ph) && s'.items == s.items && s'.index == s.index && s'.signaled == s.signaled
    ensures SessionOk(s', a, ph)
  {
  }

  // Calls that begin without any claim.
  lemma BeginStep(s: State, sid: Sid, ph: Phase)
    requires Inv(s) && PhaseOf(s, sid).Done? && (ph.Acquiring? || ph.Expiring?)
    ensures Inv(Goto(s, sid, ph))
  {
    var s' := Goto(s, sid, ph);
    forall id | id in s'.items ensures ItemOk(s', id) {
      assert ItemOk(s, id);
      ItemFrame(s, s', sid, ph, id);
    }
    LocalSessions(s, sid, ph);
    SameObjects(s, s');
  }

  // ----- the idle list ----------------------------------------------------------

  lemma {:induction false} WithoutSpec(q: seq<Id>, id: Id)
    ensures forall x :: x in Without(q, id) <==> x in q && x != id
    ensures id !in q ==> Without(q, id) == q
  {
    if q != [] { WithoutSpec(q[1..], id); }
  }

  lemma SortedCons(items: map<Id, Item>, x: Id, r: seq<Id>)
    requires x in items && Sorted(items, r)
    requires forall y :: y in r ==> x != y && items[x].expiration <= items[y].expiration
    ensures Sorted(items, [x] + r)
  {
  }

  lemma {:induction false} WithoutSorted(items: map<Id, Item>, q: seq<Id>, id: Id)
    requires Sorted(items, q)
    ensures Sorted(items, Without(q, id))
  {
    if q != [] {
      WithoutSorted(items, q[1..], id);
      WithoutSpec(q[1..], id);
      forall y | y in q[1..] ensures q[0] != y && items[q[0]].expiration <= items[y].expiration {
        var k :| 0 <= k < |q[1..]| && q[1..][k] == y;
        assert q[k + 1] == y;
      }
      SortedCons(items, q[0], Without(q[1..], id));
    }
  }

  lemma SortedUpdate(items: map<Id, Item>, q: seq<Id>, id: Id, it: Item)
    requires Sorted(items, q) && (id !in q || (id in items && it.expiration == items[id].expiration))
    ensures Sorted(items[id := it], q)
  {
  }

  // ----- ref_acquire ----------------------------------------------------------

  lemma AcquireNewItems(s: State, sid: Sid)
    requires IndexOk(s) && ListOk(s) && ItemsOk(s) && SessionsOk(s)
    requires PhaseOf(s, sid).Acquiring? && s.sess[sid].key !in s.index
    ensures s.nextId !in s.items
    ensures IndexOk(AcquireStep(s, sid)) && ItemsOk(AcquireStep(s, sid))
  {
    var s' := AcquireStep(s, sid);
    var id, ph := s.nextId, s'.sess[sid];
    assert forall x :: x in s.items ==> ItemOk(s, x);
    forall a | a in s.sess ensures !HoldsRef(s.sess[a], id) { assert SessionOk(s, a, s.sess[a]); }
    assert Holders(s', id) == {sid};
    forall x | x in s'.items ensures ItemOk(s', x) {
      if x != id {
        assert ItemOk(s, x);
        ItemFrame(s, s', sid, ph, x);
      }
    }
  }

  lemma AcquireNewSessions(s: State, sid: Sid)
    requires SessionsOk(s) && PhaseOf(s, sid).Acquiring? && s.sess[sid].key !in s.index
    requires s.nextId !in s.items
    ensures SessionsOk(AcquireStep(s, sid))
  {
    var s' := AcquireStep(s, sid);
    forall a | a in s'.sess ensures SessionOk(s', a, s'.sess[a]) {
      if a != sid {
        assert SessionOk(s, a, s.sess[a]);
        forall x | Mentions(s.sess[a], x) ensures Kept(s, s', x) { }
        SessionFrame(s, s', a, s.sess[a]);
      }
    }
  }

  lemma AcquireNewInv(s: State, sid: Sid)
    requires Inv(s) && PhaseOf(s, sid).Acquiring? && s.sess[sid].key !in s.index
    ensures Inv(AcquireStep(s, sid))
  {
    AcquireNewItems(s, sid);
    AcquireNewSessions(s, sid);
    var s' := AcquireStep(s, sid);
    SortedUpdate(s.items, s.list, s.nextId, s'.items[s.nextId]);
    AddEmptyItem(s, s', s.nextId);
  }

  lemma AddEmptyItem(s: State, s': State, id: Id)
    requires ObjectsOk(s) && id !in s.items && id in s'.items && s'.items[id].obj.None?
    requires s'.items == s.items[id := s'.items[id]]
    requires s'.nextObj == s.nextObj && s'.destroyed == s.destroyed && s'.movedOut == s.movedOut
    ensures ObjectsOk(s')
  {
    forall o: Obj ensures ObjectOk(s', o) {
      assert ObjectOk(s, o);
      assert forall x :: Carries(s', x, o) <==> Carries(s, x, o);
    }
  }

  lemma AcquireOldItem(s: State, sid: Sid, id: Id)
    requires PhaseOf(s, sid).Acquiring? && s.sess[sid].key in s.index && id == s.index[s.sess[sid].key]
    requires id in s.items && ItemOk(s, id) && s.items[id].recycle.None? && s.items[id].key == s.sess[sid].key
    ensures ItemOk(AcquireStep(s, sid), id)
  {
    var s' := AcquireStep(s, sid);
    HoldersMoved(s, s', sid, s'.sess[sid], id);
    WithoutSpec(s.list, id);
    assert forall a :: a != sid ==> PhaseOf(s', a) == PhaseOf(s, a);
  }

  lemma AcquireOldSession(s: State, sid: Sid, id: Id, a: Sid)
    requires PhaseOf(s, sid).Acquiring? && s.sess[sid].key in s.index && id == s.index[s.sess[sid].key]
    requires id in s.items && ItemOk(s, id) && s.items[id].recycle.None? && s.items[id].key == s.sess[sid].key
    requires a in s.sess && a != sid && SessionOk(s, a, s.sess[a]) && Mentions(s.sess[a], id)
    ensures SessionOk(AcquireStep(s, sid), a, s.sess[a])
  {
  }

  lemma AcquireOldInv(s: State, sid: Sid)
    requires Inv(s) && PhaseOf(s, sid).Acquiring? && s.sess[sid].key in s.index
    ensures Inv(AcquireStep(s, sid))
  {
    var s' := AcquireStep(s, sid);
    var id := s.index[s.sess[sid].key];
    var ph := s'.sess[sid];
    assert ItemOk(s, id);
    WithoutSpec(s.list, id);
    if s.items[id].recycle.Some? {
      assert s' == s;
    } else {
      AcquireOldItem(s, sid, id);
      TouchedItems(s, s', sid, ph, id);
      forall a | a in s.sess && a != sid && Mentions(s.sess[a], id) ensures SessionOk(s', a, s.sess[a]) {
        AcquireOldSession(s, sid, id, a);
      }
      TouchedSessions(s, s', sid, ph, id);
      SameObjects(s, s');
      WithoutSorted(s.items, s.list, id);
      SortedUpdate(s.items, s'.list, id, s'.items[id]);
    }
  }

  lemma LockItem(s: State, sid: Sid, id: Id)
    requires PhaseOf(s, sid).Acquired? && s.sess[sid].id == id && id in s.items && ItemOk(s, id)
    requires LockStep(s, sid).sess[sid].Constructing?
    ensures ItemOk(LockStep(s, sid), id)
  {
    var s' := LockStep(s, sid);
    HoldersMoved(s, s', sid, s'.sess[sid], id);
    assert forall a :: a != sid ==> PhaseOf(s', a) == PhaseOf(s, a);
  }

  lemma LockSession(s: State, sid: Sid, id: Id, a: Sid)
    requires PhaseOf(s, sid).Acquired? && s.sess[sid].id == id && id in s.items && ItemOk(s, id)
    requires LockStep(s, sid).sess[sid].Constructing? && Indexed(s, id)
    requires a in s.sess && a != sid && SessionOk(s, a, s.sess[a]) && Mentions(s.sess[a], id)
    ensures SessionOk(LockStep(s, sid), a, s.sess[a])
  {
  }

  lemma LockSessions(s: State, sid: Sid, id: Id)
    requires PhaseOf(s, sid).Acquired? && s.sess[sid].id == id && id in s.items && ItemOk(s, id)
    requires SessionsOk(s) && LockStep(s, sid).sess[sid].Constructing?
    ensures SessionsOk(LockStep(s, sid))
  {
    assert SessionOk(s, sid, s.sess[sid]);
    var s' := LockStep(s, sid);
    forall a | a in s.sess && a != sid && Mentions(s.sess[a], id) ensures SessionOk(s', a, s.sess[a]) {
      assert SessionOk(s, a, s.sess[a]);
      LockSession(s, sid, id, a);
    }
    TouchedSessions(s, s', sid, s'.sess[sid], id);
  }

  lemma LockTouched(s: State, sid: Sid, id: Id)
    requires PhaseOf(s, sid).Acquired? && s.sess[sid].id == id && id in s.items
    requires ListOk(s) && SignalsOk(s) && ObjectsOk(s) && LockStep(s, sid).sess[sid].Constructing?
    ensures var s' := LockStep(s, sid);
            Touched(s, s', sid, s'.sess[sid], id) && OnlyMentions(s'.sess[sid], id)
            && ListOk(s') && SignalsOk(s') && ObjectsOk(s')
  {
    var s' := LockStep(s, sid);
    SameObjects(s, s');
    SortedUpdate(s.items, s.list, id, s'.items[id]);
  }

  lemma LockInv(s: State, sid: Sid)
    requires Inv(s) && PhaseOf(s, sid).Acquired?
    ensures PhaseOf(s, sid).id in s.items && Inv(LockStep(s, sid))
  {
    assert SessionOk(s, sid, s.sess[sid]);
    var s' := LockStep(s, sid);
    var id, ph := s.sess[sid].id, s'.sess[sid];
    assert ItemOk(s, id);
    if ph.Checking? {
      LocalStep(s, sid, ph, id);
    } else if ph.Constructing? {
      LockTouched(s, sid, id);
      LockItem(s, sid, id);
      LockSessions(s, sid, id);
      Assemble(s, s', sid, ph, id);
    }
  }

  lemma CtorItem(s: State, sid: Sid, ok: bool, id: Id)
    requires PhaseOf(s, sid).Constructing? && s.sess[sid].id == id && id in s.items && ItemOk(s, id)
    requires ObjectOk(s, s.nextObj) && SessionOk(s, sid, s.sess[sid])
    ensures ItemOk(CtorStep(s, sid, ok), id)
  {
    var s' := CtorStep(s, sid, ok);
    HoldersMoved(s, s', sid, s'.sess[sid], id);
    assert sid in Holders(s, id);
    assert forall a :: a != sid ==> PhaseOf(s', a) == PhaseOf(s, a);
  }

  lemma CtorSession(s: State, sid: Sid, ok: bool, id: Id, a: Sid)
    requires PhaseOf(s, sid).Constructing? && s.sess[sid].id == id && id in s.items && ItemOk(s, id)
    requires SessionOk(s, sid, s.sess[sid])
    requires a in s.sess && a != sid && SessionOk(s, a, s.sess[a]) && Mentions(s.sess[a], id)
    ensures SessionOk(CtorStep(s, sid, ok), a, s.sess[a])
  {
  }

  lemma CtorObjects(s: State, sid: Sid)
    requires ItemsOk(s) && ObjectsOk(s)
    requires PhaseOf(s, sid).Constructing? && SessionOk(s, sid, s.sess[sid])
    ensures ObjectsOk(CtorStep(s, sid, true))
  {
    var s' := CtorStep(s, sid, true);
    var id := s.sess[sid].id;
    forall o: Obj ensures ObjectOk(s', o) {
      assert ObjectOk(s, o);
      assert forall x :: x in s.items ==> ItemOk(s, x);
      assert forall x :: Carries(s', x, o) <==> if o == s.nextObj then x == id else Carries(s, x, o);
      assert Carries(s', id, s.nextObj);
    }
  }

  lemma CtorSessions(s: State, sid: Sid, ok: bool, id: Id)
    requires PhaseOf(s, sid).Constructing? && s.sess[sid].id == id && id in s.items && ItemOk(s, id)
    requires SessionsOk(s)
    ensures SessionsOk(CtorStep(s, sid, ok))
  {
    assert SessionOk(s, sid, s.sess[sid]);
    var s' := CtorStep(s, sid, ok);
    forall a | a in s.sess && a != sid && Mentions(s.sess[a], id) ensures SessionOk(s', a, s.sess[a]) {
      assert SessionOk(s, a, s.sess[a]);
      CtorSession(s, sid, ok, id, a);
    }
    TouchedSessions(s, s', sid, s'.sess[sid], id);
  }

  lemma CtorTouched(s: State, sid: Sid, ok: bool, id: Id)
    requires PhaseOf(s, sid).Constructing? && s.sess[sid].id == id && id in s.items
    requires ItemsOk(s) && ListOk(s) && SignalsOk(s) && ObjectsOk(s) && SessionOk(s, sid, s.sess[sid])
    ensures var s' := CtorStep(s, sid, ok);
            sid in s'.sess && Touched(s, s', sid, s'.sess[sid], id) && OnlyMentions(s'.sess[sid], id)
            && ListOk(s') && SignalsOk(s') && ObjectsOk(s')
  {
    var s' := CtorStep(s, sid, ok);
    if ok { CtorObjects(s, sid); } else { SameObjects(s, s'); }
    SortedUpdate(s.items, s.list, id, s'.items[id]);
  }

  lemma CtorInv(s: State, sid: Sid, ok: bool)
    requires Inv(s) && PhaseOf(s, sid).Constructing?
    ensures PhaseOf(s, sid).id in s.items && Inv(CtorStep(s, sid, ok))
  {
    assert SessionOk(s, sid, s.sess[sid]);
    var id := s.sess[sid].id;
    assert ItemOk(s, id) && ObjectOk(s, s.nextObj);
    CtorTouched(s, sid, ok, id);
    CtorItem(s, sid, ok, id);
    CtorSessions(s, sid, ok, id);
    Assemble(s, CtorStep(s, sid, ok), sid, CtorStep(s, sid, ok).sess[sid], id);
  }

  lemma CheckInv(s: State, sid: Sid)
    requires Inv(s) && PhaseOf(s, sid).Checking?
    ensures PhaseOf(s, sid).id in s.items && Inv(CheckStep(s, sid))
  {
    assert SessionOk(s, sid, s.sess[sid]);
    LocalStep(s, sid, CheckStep(s, sid).sess[sid], s.sess[sid].id);
  }

  // ----- ref_release ----------------------------------------------------------

  lemma ReleaseItem(s: State, sid: Sid, id: Id)
    requires PhaseOf(s, sid).Releasing? && s.sess[sid].id == id && id in s.items && ItemOk(s, id)
    requires SessionOk(s, sid, s.sess[sid])
    ensures ItemOk(ReleaseStep(s, sid), id)
  {
    var s' := ReleaseStep(s, sid);
    HoldersMoved(s, s', sid, s'.sess[sid], id);
    WithoutSpec(s.list, id);
    assert sid in Holders(s, id);
    assert forall a :: a != sid ==> PhaseOf(s', a) == PhaseOf(s, a);
  }

  lemma ReleaseSession(s: State, sid: Sid, id: Id, a: Sid)
    requires PhaseOf(s, sid).Releasing? && s.sess[sid].id == id && id in s.items && ItemOk(s, id)
    requires SessionOk(s, sid, s.sess[sid])
    requires a in s.sess && a != sid && SessionOk(s, a, s.sess[a]) && Mentions(s.sess[a], id)
    ensures SessionOk(ReleaseStep(s, sid), a, s.sess[a])
  {
    assert sid in Holders(s, id);
  }

  lemma ReleaseList(s: State, sid: Sid)
    requires PhaseOf(s, sid).Releasing? && s.sess[sid].id in s.items && ListOk(s)
    requires s.sess[sid].id !in s.list
    ensures ListOk(ReleaseStep(s, sid))
  {
    var s' := ReleaseStep(s, sid);
    var id := s.sess[sid].id;
    WithoutSpec(s.list, id);
    SortedUpdate(s.items, s.list, id, s'.items[id]);
  }

  lemma ReleaseSessions(s: State, sid: Sid, id: Id)
    requires PhaseOf(s, sid).Releasing? && s.sess[sid].id == id && id in s.items && ItemOk(s, id)
    requires SessionsOk(s) && SignalsOk(s)
    ensures SessionsOk(ReleaseStep(s, sid)) && SignalsOk(ReleaseStep(s, sid))
  {
    assert SessionOk(s, sid, s.sess[sid]);
    var s' := ReleaseStep(s, sid);
    ReleaseSignals(s, sid, id);
    forall a | a in s.sess && a != sid && Mentions(s.sess[a], id) ensures SessionOk(s', a, s.sess[a]) {
      assert SessionOk(s, a, s.sess[a]);
      ReleaseSession(s, sid, id, a);
    }
    TouchedSessions(s, s', sid, s'.sess[sid], id);
  }

  // Only the recycler of the item is ever signaled, and only while it waits.
  lemma ReleaseSignals(s: State, sid: Sid, id: Id)
    requires PhaseOf(s, sid).Releasing? && s.sess[sid].id == id && id in s.items && ItemOk(s, id)
    requires SessionsOk(s) && SignalsOk(s)
    ensures var s' := ReleaseStep(s, sid);
            && Touched(s, s', sid, s'.sess[sid], id) && SessionOk(s', sid, s'.sess[sid]) && SignalsOk(s')
            && (forall a :: a in s.sess && a != sid && !Mentions(s.sess[a], id) ==>
                  (a in s'.signaled <==> a in s.signaled))
  {
    assert SessionOk(s, sid, s.sess[sid]);
    assert sid in Holders(s, id);
    WithoutSpec(s.list, id);
    if s.items[id].recycle.Some? {
      assert SessionOk(s, s.items[id].recycle.value, s.sess[s.items[id].recycle.value]);
    }
  }

  lemma ReleaseTouched(s: State, sid: Sid, id: Id)
    requires PhaseOf(s, sid).Releasing? && s.sess[sid].id == id && id in s.items && ObjectsOk(s)
    ensures var s' := ReleaseStep(s, sid);
            sid in s'.sess && Touched(s, s', sid, s'.sess[sid], id) && OnlyMentions(s'.sess[sid], id)
            && ObjectsOk(s')
  {
    WithoutSpec(s.list, id);
    SameObjects(s, ReleaseStep(s, sid));
  }

  lemma ReleaseInv(s: State, sid: Sid)
    requires Inv(s) && PhaseOf(s, sid).Releasing?
    ensures PhaseOf(s, sid).id in s.items && Inv(ReleaseStep(s, sid))
  {
    assert SessionOk(s, sid, s.sess[sid]);
    var id := s.sess[sid].id;
    assert ItemOk(s, id) && sid in Holders(s, id);
    ReleaseTouched(s, sid, id);
    ReleaseItem(s, sid, id);
    ReleaseSessions(s, sid, id);
    ReleaseList(s, sid);
    Assemble(s, ReleaseStep(s, sid), sid, ReleaseStep(s, sid).sess[sid], id);
  }

  // ----- recycling ------------------------------------------------------------

  lemma WaitedInv(s: State, sid: Sid)
    requires Inv(s) && PhaseOf(s, sid).RecycleWait?
    ensures PhaseOf(s, sid).id in s.items && Inv(RecycleStep(s, sid))
  {
    assert SessionOk(s, sid, s.sess[sid]);
    var s' := RecycleStep(s, sid);
    if sid in s.signaled {
      var id, ph := s.sess[sid].id, s'.sess[sid];
      assert ItemOk(s, id);
      ItemFrame(s, s', sid, ph, id);
      WaitedSessions(s, sid, id);
      SameObjects(s, s');
      Assemble(s, s', sid, ph, id);
    }
  }

  lemma WaitedSessions(s: State, sid: Sid, id: Id)
    requires SessionsOk(s) && SignalsOk(s) && PhaseOf(s, sid).RecycleWait? && sid in s.signaled
    requires s.sess[sid].id == id && id in s.items
    ensures SessionsOk(RecycleStep(s, sid)) && SignalsOk(RecycleStep(s, sid))
  {
    var s' := RecycleStep(s, sid);
    assert SessionOk(s, sid, s.sess[sid]);
    forall a | a in s'.sess ensures SessionOk(s', a, s'.sess[a]) {
      if a != sid {
        assert SessionOk(s, a, s.sess[a]);
        forall x | Mentions(s.sess[a], x) ensures Kept(s, s', x) { }
        SessionFrame(s, s', a, s.sess[a]);
      }
    }
  }

  // Taking an item out of the index leaves every other item's entry alone.
  lemma EraseIndexed(s: State, s': State, id: Id, x: Id)
    requires Indexed(s, id) && x != id && s'.index == s.index - {s.items[id].key}
    requires (x in s'.items <==> x in s.items) && (x in s.items ==> s'.items[x] == s.items[x])
    ensures Indexed(s', x) == Indexed(s, x)
  {
  }

  lemma EraseItems(s: State, sid: Sid, id: Id)
    requires IndexOk(s) && ItemsOk(s) && PhaseOf(s, sid).RecycleErase? && s.sess[sid].id == id
    requires SessionOk(s, sid, s.sess[sid])
    ensures IndexOk(RecycleStep(s, sid)) && ItemsOk(RecycleStep(s, sid))
  {
    var s' := RecycleStep(s, sid);
    var ph := s'.sess[sid];
    forall x | x in s'.items ensures ItemOk(s', x) {
      assert ItemOk(s, x);
      if x != id {
        EraseIndexed(s, s', id, x);
        ItemFrame(s, s', sid, ph, x);
      } else {
        HoldersMoved(s, s', sid, ph, id);
      }
    }
  }

  lemma EraseSessions(s: State, sid: Sid, id: Id)
    requires SessionsOk(s) && PhaseOf(s, sid).RecycleErase? && s.sess[sid].id == id
    requires id in s.items && ItemOk(s, id)
    ensures SessionsOk(RecycleStep(s, sid))
  {
    var s' := RecycleStep(s, sid);
    assert SessionOk(s, sid, s.sess[sid]);
    forall a | a in s'.sess ensures SessionOk(s', a, s'.sess[a]) {
      if a != sid {
        assert SessionOk(s, a, s.sess[a]);
        forall x | Mentions(s.sess[a], x) ensures Kept(s, s', x) {
          if x == id {
            OnlyRecycler(s, sid, id, a);
          } else {
            EraseIndexed(s, s', id, x);
          }
        }
        SessionFrame(s, s', a, s.sess[a]);
      }
    }
  }

  // Once the references are gone, the recycler is alone with its item.
  lemma OnlyRecycler(s: State, sid: Sid, id: Id, a: Sid)
    requires id in s.items && ItemOk(s, id) && s.items[id].refcnt == 0
    requires s.items[id].recycle == Some(sid) && (Indexed(s, id) || s.items[id].doomedBy == Some(sid))
    requires a in s.sess && SessionOk(s, a, s.sess[a]) && Mentions(s.sess[a], id)
    ensures a == sid
  {
    assert a in Holders(s, id) <==> HoldsRef(s.sess[a], id);
  }

  lemma EraseInv(s: State, sid: Sid)
    requires Inv(s) && PhaseOf(s, sid).RecycleErase?
    ensures PhaseOf(s, sid).id in s.items && Inv(RecycleStep(s, sid))
  {
    assert SessionOk(s, sid, s.sess[sid]);
    var id := s.sess[sid].id;
    assert ItemOk(s, id);
    EraseItems(s, sid, id);
    EraseSessions(s, sid, id);
    SameObjects(s, RecycleStep(s, sid));
    SortedUpdate(s.items, s.list, id, RecycleStep(s, sid).items[id]);
  }

  // ----- deleting an item -------------------------------------------------------

  // s' is s after session sid, moving to ph, deleted item id, which only it
  // still knew.
  ghost predicate Removed(s: State, s': State, sid: Sid, ph: Phase, id: Id) {
    && Moved(s, s', sid, ph) && id in s.items && s'.items == s.items - {id}
    && s'.index == s.index && s'.list == s.list && s'.now == s.now && s'.lifespan == s.lifespan
    && s'.signaled == s.signaled && s'.nextId == s.nextId && s'.nextObj == s.nextObj
    && Doomed(s, id, sid) && (s.items[id].recycle == None || s.items[id].recycle == Some(sid))
  }

  lemma RemovedItems(s: State, s': State, sid: Sid, ph: Phase, id: Id)
    requires IndexOk(s) && ItemsOk(s) && ObjectsOk(s) && Removed(s, s', sid, ph, id)
    requires forall x :: !HoldsRef(ph, x) && !HoldsRef(PhaseOf(s, sid), x)
    requires forall x :: Recycles(PhaseOf(s, sid), x) ==> x == id
    requires forall x :: Disposes(PhaseOf(s, sid), x) && x != id ==> Disposes(ph, x)
    requires !PhaseOf(s, sid).Constructing?
    requires forall o :: o in s'.destroyed && o !in s.destroyed ==> s.items[id].obj == Some(o)
    requires forall o :: o in s'.movedOut && o !in s.movedOut ==> s.items[id].obj == Some(o)
    ensures IndexOk(s') && ItemsOk(s')
  {
    assert ItemOk(s, id);
    forall x | x in s'.items ensures ItemOk(s', x) {
      assert ItemOk(s, x);
      if s.items[x].obj.Some? {
        assert ObjectOk(s, s.items[x].obj.value);
        assert Carries(s, x, s.items[x].obj.value);
        assert s.items[id].obj == s.items[x].obj ==> Carries(s, id, s.items[x].obj.value);
      }
      ItemFrame(s, s', sid, ph, x);
    }
  }

  lemma RemovedSessions(s: State, s': State, sid: Sid, ph: Phase, id: Id)
    requires SessionsOk(s) && Removed(s, s', sid, ph, id) && ItemOk(s, id) && SessionOk(s', sid, ph)
    ensures SessionsOk(s')
  {
    forall a | a in s'.sess ensures SessionOk(s', a, s'.sess[a]) {
      if a != sid {
        assert SessionOk(s, a, s.sess[a]);
        ClaimsDoomed(s, sid, id, a);
        forall x | Mentions(s.sess[a], x) ensures Kept(s, s', x) { }
        SessionFrame(s, s', a, s.sess[a]);
      }
    }
  }

  lemma RemovedObjects(s: State, s': State, id: Id)
    requires ObjectsOk(s) && id in s.items && s'.items == s.items - {id} && s'.nextObj == s.nextObj
    requires s.items[id].obj.Some? ==> s.items[id].obj.value < s.nextObj
    requires var o := if s.items[id].obj.Some? then {s.items[id].obj.value} else {};
             || (s'.destroyed == s.destroyed + o && s'.movedOut == s.movedOut)
             || (s'.destroyed == s.destroyed && s'.movedOut == s.movedOut + o)
    ensures ObjectsOk(s')
  {
    forall o: Obj ensures ObjectOk(s', o) {
      assert ObjectOk(s, o);
      assert forall x :: Carries(s', x, o) <==> Carries(s, x, o) && x != id;
      assert s.items[id].obj == Some(o) ==> Carries(s, id, o);
    }
  }

  lemma RemovedInv(s: State, s': State, sid: Sid, ph: Phase, id: Id)
    requires Inv(s) && Removed(s, s', sid, ph, id) && IndexOk(s') && ItemsOk(s')
    requires SessionsOk(s') && ObjectsOk(s') && !PhaseOf(s, sid).RecycleWait?
    ensures Inv(s')
  {
    assert ItemOk(s, id);
    assert forall x :: x in s.list ==> x in s'.items;
  }

  lemma RecycleDeleteInv(s: State, sid: Sid)
    requires Inv(s) && PhaseOf(s, sid).RecycleDelete?
    ensures PhaseOf(s, sid).id in s.items && Inv(RecycleStep(s, sid))
  {
    assert SessionOk(s, sid, s.sess[sid]);
    var s', id := RecycleStep(s, sid), s.sess[sid].id;
    assert ItemOk(s, id);
    RemovedItems(s, s', sid, Done, id);
    RemovedSessions(s, s', sid, Done, id);
    RemovedObjects(s, s', id);
    RemovedInv(s, s', sid, Done, id);
  }

  lemma DeleteOneRemoves(s: State, sid: Sid, id: Id)
    requires PhaseOf(s, sid).Deleting? && s.sess[sid].ids != [] && SessionOk(s, sid, s.sess[sid])
    requires id == s.sess[sid].ids[0]
    ensures id in s.items
    ensures var s', o := DeleteStep(s, sid), if s.items[id].obj.Some? then {s.items[id].obj.value} else {};
            && Removed(s, s', sid, Deleting(s.sess[sid].ids[1..]), id)
            && s'.destroyed == s.destroyed + o && s'.movedOut == s.movedOut
  {
    assert id in s.sess[sid].ids;
  }

  lemma DeleteOneInv(s: State, sid: Sid)
    requires Inv(s) && PhaseOf(s, sid).Deleting? && s.sess[sid].ids != []
    ensures Inv(DeleteStep(s, sid))
  {
    assert SessionOk(s, sid, s.sess[sid]);
    var ids := s.sess[sid].ids;
    var s', id, ph := DeleteStep(s, sid), ids[0], Deleting(ids[1..]);
    DeleteOneRemoves(s, sid, id);
    assert ItemOk(s, id);
    assert forall x :: x in ids ==> x == id || x in ids[1..];
    RemovedItems(s, s', sid, ph, id);
    DeleteOneSession(s, sid);
    RemovedSessions(s, s', sid, ph, id);
    RemovedObjects(s, s', id);
    RemovedInv(s, s', sid, ph, id);
  }

  lemma DeleteOneSession(s: State, sid: Sid)
    requires PhaseOf(s, sid).Deleting? && s.sess[sid].ids != [] && SessionOk(s, sid, s.sess[sid])
    ensures SessionOk(DeleteStep(s, sid), sid, Deleting(s.sess[sid].ids[1..]))
  {
    var s', ids := DeleteStep(s, sid), s.sess[sid].ids;
    forall x | x in ids[1..] ensures Doomed(s', x, sid) && s'.items[x].recycle.None? {
      assert x in ids;
      var k :| 0 <= k < |ids[1..]| && ids[1..][k] == x;
      assert ids[k + 1] == x && ids[0] != ids[k + 1];
    }
  }

  lemma DeleteDoneInv(s: State, sid: Sid)
    requires Inv(s) && PhaseOf(s, sid).Deleting? && s.sess[sid].ids == []
    ensures Inv(DeleteStep(s, sid))
  {
    var s' := DeleteStep(s, sid);
    forall x | x in s'.items ensures ItemOk(s', x) {
      assert ItemOk(s, x);
      ItemFrame(s, s', sid, Done, x);
    }
    LocalSessions(s, sid, Done);
    SameObjects(s, s');
  }

  // ----- expire -----------------------------------------------------------------

  ghost predicate AllIndexed(s: State, index: map<Key, Id>, list: seq<Id>) {
    && (forall i, j :: 0 <= i < j < |list| ==> list[i] != list[j])
    && (forall i :: 0 <= i < |list| ==>
          list[i] in s.items && s.items[list[i]].key in index && index[s.items[list[i]].key] == list[i])
  }

  // expire removes exactly the index entries of the items it takes.
  ghost predicate Taken(s: State, index: map<Key, Id>, list: seq<Id>, ix: map<Key, Id>, n: nat) {
    && n <= |list| && (forall i :: 0 <= i < n ==> list[i] in s.items && s.items[list[i]].key !in ix)
    && (forall k :: k in ix ==> k in index && ix[k] == index[k])
    && (forall k :: k in index ==> k in ix || index[k] in list[..n])
  }

  // It takes what is expired or over the limit, and stops at the first item
  // that is neither.
  ghost predicate Stopped(s: State, index: map<Key, Id>, list: seq<Id>, ix: map<Key, Id>, n: nat) {
    && n <= |list| && |ix| == |index| - n
    && (forall i :: 0 <= i < |list| ==> list[i] in s.items)
    && (n < |list| ==> s.items[list[n]].expiration >= s.now && |ix| <= s.limit)
    && (forall i :: 0 <= i < n ==> s.items[list[i]].expiration < s.now || |index| - i > s.limit)
  }

  lemma {:induction false} ExpireLoopSpec(s: State, index: map<Key, Id>, list: seq<Id>)
    requires AllIndexed(s, index, list)
    ensures var (ix, n) := ExpireLoop(s, index, list);
            Taken(s, index, list, ix, n) && Stopped(s, index, list, ix, n)
  {
    var (ix, n) := ExpireLoop(s, index, list);
    if n > 0 {
      var index1 := index - {s.items[list[0]].key};
      AllIndexedRest(s, index, list);
      ExpireLoopSpec(s, index1, list[1..]);
      assert (ix, n - 1) == ExpireLoop(s, index1, list[1..]);
      TakenStep(s, index, list, ix, n);
      StoppedStep(s, index, index1, list, ix, n);
    }
  }

  lemma StoppedStep(s: State, index: map<Key, Id>, index1: map<Key, Id>, list: seq<Id>, ix: map<Key, Id>, n: nat)
    requires list != [] && n > 0 && |index1| == |index| - 1 && list[0] in s.items
    requires s.items[list[0]].expiration < s.now || |index| > s.limit
    requires Stopped(s, index1, list[1..], ix, n - 1)
    ensures Stopped(s, index, list, ix, n)
  {
    assert forall i :: 0 < i < |list| ==> list[i] == list[1..][i - 1];
  }

  lemma AllIndexedRest(s: State, index: map<Key, Id>, list: seq<Id>)
    requires AllIndexed(s, index, list) && list != []
    ensures var index1 := index - {s.items[list[0]].key};
            AllIndexed(s, index1, list[1..]) && |index1| == |index| - 1
  {
    var index1 := index - {s.items[list[0]].key};
    assert index1.Keys == index.Keys - {s.items[list[0]].key};
    assert forall i :: 0 <= i < |list[1..]| ==> list[1..][i] == list[i + 1];
  }

  lemma TakenStep(s: State, index: map<Key, Id>, list: seq<Id>, ix: map<Key, Id>, n: nat)
    requires AllIndexed(s, index, list) && list != [] && n > 0
    requires Taken(s, index - {s.items[list[0]].key}, list[1..], ix, n - 1)
    ensures Taken(s, index, list, ix, n)
  {
    assert forall i :: 0 <= i < |list[1..]| ==> list[1..][i] == list[i + 1];
    assert list[..n] == [list[0]] + list[1..][..n - 1];
    forall i | 0 <= i < n ensures list[i] in s.items && s.items[list[i]].key !in ix {
      assert i > 0 ==> list[i] == list[1..][i - 1];
    }
  }

  // s' is s after the critical section of expire, which took n items.
  ghost predicate ExpireResult(s: State, s': State, sid: Sid, n: nat) {
    && n <= |s.list| && Moved(s, s', sid, Deleting(s.list[..n])) && s'.list == s.list[n..]
    && s'.items.Keys == s.items.Keys
    && (forall x :: x in s.items && x !in s.list[..n] ==> s'.items[x] == s.items[x])
    && (forall x :: x in s.items && x in s.list[..n] ==> s'.items[x] == s.items[x].(doomedBy := Some(sid)))
    && (forall x :: x in s.list[..n] ==> Idle(s, x) && !Indexed(s', x))
    && (forall x :: x !in s.list[..n] ==> Indexed(s', x) == Indexed(s, x))
    && (forall k :: k in s'.index ==> k in s.index && s'.index[k] == s.index[k])
    && s'.now == s.now && s'.lifespan == s.lifespan && s'.signaled == s.signaled
    && s'.nextId == s.nextId && s'.nextObj == s.nextObj
    && s'.destroyed == s.destroyed && s'.movedOut == s.movedOut
  }

  lemma ExpireFacts(s: State, sid: Sid) returns (n: nat)
    requires ListOk(s) && ItemsOk(s)
    ensures ExpireResult(s, ExpireStep(s, sid), sid, n)
    ensures |ExpireStep(s, sid).index| == |s.index| - n
    ensures n < |s.list| ==>
              s.items[s.list[n]].expiration >= s.now && |ExpireStep(s, sid).index| <= s.limit
    ensures forall i :: 0 <= i < n ==> s.items[s.list[i]].expiration < s.now || |s.index| - i > s.limit
  {
    forall i | 0 <= i < |s.list| ensures Idle(s, s.list[i]) { assert ItemOk(s, s.list[i]); }
    ExpireLoopSpec(s, s.index, s.list);
    var ix;
    ix, n := ExpireLoop(s, s.index, s.list).0, ExpireLoop(s, s.index, s.list).1;
    ExpireStepIs(s, ExpireStep(s, sid), sid, ix, n);
  }

  lemma TakenIndexed(s: State, s': State, n: nat)
    requires Taken(s, s.index, s.list, s'.index, n) && s'.items.Keys == s.items.Keys
    requires forall x :: x in s.items ==> s'.items[x].key == s.items[x].key
    requires forall x :: x in s.list ==> Idle(s, x)
    ensures forall x :: x in s.list[..n] ==> Idle(s, x) && !Indexed(s', x)
    ensures forall x :: x !in s.list[..n] ==> Indexed(s', x) == Indexed(s, x)
  {
    forall x | x in s.list[..n] ensures Idle(s, x) && !Indexed(s', x) {
      var i :| 0 <= i < n && s.list[i] == x;
      assert x in s.list;
    }
  }

  lemma ExpireStepIs(s: State, s': State, sid: Sid, ix: map<Key, Id>, n: nat)
    requires n <= |s.list| && Taken(s, s.index, s.list, ix, n)
    requires s' == Goto(s, sid, Deleting(s.list[..n])).(
                     index := ix, list := s.list[n..], items := Doom(s.items, s.list[..n], sid))
    requires forall x :: x in s.list ==> Idle(s, x)
    ensures ExpireResult(s, s', sid, n)
  {
    TakenIndexed(s, s', n);
  }

  lemma SplitList(s: State, n: nat)
    requires Sorted(s.items, s.list) && n <= |s.list|
    ensures Sorted(s.items, s.list[n..])
    ensures forall x :: x in s.list <==> x in s.list[..n] || x in s.list[n..]
    ensures forall x :: x in s.list[..n] ==> x !in s.list[n..]
  {
    assert s.list == s.list[..n] + s.list[n..];
  }

  lemma ExpireItems(s: State, s': State, sid: Sid, n: nat)
    requires IndexOk(s) && ListOk(s) && ItemsOk(s) && PhaseOf(s, sid).Expiring?
    requires ExpireResult(s, s', sid, n)
    ensures IndexOk(s') && ItemsOk(s')
  {
    SplitList(s, n);
    var ph := Deleting(s.list[..n]);
    forall x | x in s'.items ensures ItemOk(s', x) {
      assert ItemOk(s, x);
      if x in s.list[..n] {
        ExpiredItem(s, s', sid, n, x);
      } else {
        ItemFrame(s, s', sid, ph, x);
      }
    }
  }

  lemma ExpiredItem(s: State, s': State, sid: Sid, n: nat, x: Id)
    requires PhaseOf(s, sid).Expiring? && ExpireResult(s, s', sid, n)
    requires x in s.list[..n] && x !in s'.list && x in s.items && ItemOk(s, x)
    ensures ItemOk(s', x)
  {
    HoldersMoved(s, s', sid, Deleting(s.list[..n]), x);
    assert forall a :: a != sid ==> PhaseOf(s', a) == PhaseOf(s, a);
  }

  lemma ExpireSessions(s: State, s': State, sid: Sid, n: nat)
    requires ListOk(s) && ItemsOk(s) && SessionsOk(s) && ExpireResult(s, s', sid, n)
    ensures SessionsOk(s')
  {
    SplitList(s, n);
    forall a | a in s'.sess ensures SessionOk(s', a, s'.sess[a]) {
      if a != sid {
        assert SessionOk(s, a, s.sess[a]);
        ExpireSession(s, s', sid, n, a);
      }
    }
  }

  lemma ExpireSession(s: State, s': State, sid: Sid, n: nat, a: Sid)
    requires ItemsOk(s) && ExpireResult(s, s', sid, n)
    requires a in s.sess && a != sid && SessionOk(s, a, s.sess[a])
    ensures SessionOk(s', a, s.sess[a])
  {
    forall x | Mentions(s.sess[a], x) ensures Kept(s, s', x) {
      if x in s.list[..n] {
        assert ItemOk(s, x);
        IdleUnclaimed(s, x, a);
      }
    }
    SessionFrame(s, s', a, s.sess[a]);
  }

  lemma IdleUnclaimed(s: State, id: Id, a: Sid)
    requires id in s.items && ItemOk(s, id) && Idle(s, id) && a in s.sess && SessionOk(s, a, s.sess[a])
    ensures !Mentions(s.sess[a], id)
  {
    assert a in Holders(s, id) <==> HoldsRef(s.sess[a], id);
  }

  lemma ExpireRest(s: State, s': State, sid: Sid, n: nat)
    requires ListOk(s) && SignalsOk(s) && ObjectsOk(s) && PhaseOf(s, sid).Expiring?
    requires ExpireResult(s, s', sid, n)
    ensures ListOk(s') && SignalsOk(s') && ObjectsOk(s')
  {
    SplitList(s, n);
    assert forall i :: 0 <= i < |s'.list| ==> s'.list[i] in s'.list;
    SameObjects(s, s');
  }

  lemma ExpireInv(s: State, sid: Sid)
    requires Inv(s) && PhaseOf(s, sid).Expiring?
    ensures Inv(ExpireStep(s, sid))
  {
    var n := ExpireFacts(s, sid);
    ExpireItems(s, ExpireStep(s, sid), sid, n);
    ExpireSessions(s, ExpireStep(s, sid), sid, n);
    ExpireRest(s, ExpireStep(s, sid), sid, n);
  }

  // ----- all steps ----------------------------------------------------------------

  lemma TickInv(s: State, dt: nat)
    requires Inv(s)
    ensures Inv(s.(now := s.now + dt))
  {
    var s' := s.(now := s.now + dt);
    forall id | id in s'.items ensures ItemOk(s', id) {
      assert ItemOk(s, id);
      assert Holders(s', id) == Holders(s, id);
      assert forall a :: PhaseOf(s', a) == PhaseOf(s, a);
    }
    forall a | a in s'.sess ensures SessionOk(s', a, s'.sess[a]) {
      assert SessionOk(s, a, s.sess[a]);
      SessionSame(s, s', a, s.sess[a]);
    }
    SameObjects(s, s');
  }

  lemma AdvanceInv(s: State, sid: Sid)
    requires Inv(s)
    ensures Inv(Advance(s, sid))
  {
    match PhaseOf(s, sid)
    case Done =>
    case Acquiring(key, _) =>
      if key in s.index { AcquireOldInv(s, sid); } else { AcquireNewInv(s, sid); }
    case Acquired(_, _) => LockInv(s, sid);
    case Constructing(_) =>
    case Checking(_) => CheckInv(s, sid);
    case Borrowed(_, _) =>
    case Releasing(_, _, _) => ReleaseInv(s, sid);
    case RecycleWait(_, _) => WaitedInv(s, sid);
    case RecycleErase(_, _) => EraseInv(s, sid);
    case RecycleDelete(_, _) => RecycleDeleteInv(s, sid);
    case Expiring => ExpireInv(s, sid);
    case Deleting(ids) => if ids == [] { DeleteDoneInv(s, sid); } else { DeleteOneInv(s, sid); }
  }

  lemma CallReleaseInv(s: State, sid: Sid, recycle: bool, destroy: bool)
    requires Inv(s) && PhaseOf(s, sid).Borrowed?
    ensures Inv(Goto(s, sid, Releasing(s.sess[sid].id, recycle, destroy)))
  {
    assert SessionOk(s, sid, s.sess[sid]);
    LocalStep(s, sid, Releasing(s.sess[sid].id, recycle, destroy), s.sess[sid].id);
  }

  lemma ApplyInv(s: State, a: Action)
    requires Inv(s)
    ensures Inv(Apply(s, a))
  {
    hide Inv, Advance, CtorStep, Goto;
    match a
    case Tick(dt) => TickInv(s, dt);
    case CallAcquire(sid, key, cooldown) =>
      if PhaseOf(s, sid).Done? { BeginStep(s, sid, Acquiring(key, cooldown)); }
    case CallRelease(sid, recycle, destroy) =>
      if PhaseOf(s, sid).Borrowed? { CallReleaseInv(s, sid, recycle, destroy); }
    case CallExpire(sid) =>
      if PhaseOf(s, sid).Done? { BeginStep(s, sid, Expiring); }
    case Step(sid) => AdvanceInv(s, sid);
    case CtorReturns(sid, ok) =>
      if PhaseOf(s, sid).Constructing? { CtorInv(s, sid, ok); }
  }

  lemma {:induction false} RunInv(tr: seq<State>, acts: seq<Action>, i: nat)
    requires Run(tr, acts) && i < |tr|
    ensures Inv(tr[i])
  {
    if i > 0 {
      RunInv(tr, acts, i - 1);
      ApplyInv(tr[i - 1], acts[i - 1]);
      assert tr[i - 1 + 1] == Apply(tr[i - 1], acts[i - 1]);
    }
  }

  // ----- theorems over all runs ------------------------------------------------

  // The idle list holds exactly the indexed items without reference and
  // recycler, each once and in order of expiration; reference counts count
  // the sessions that hold a reference.  An idle item has no failure stamp, so
  // a failure delays only the sessions that overlap with the failed one.
  lemma IdleListExact(tr: seq<State>, acts: seq<Action>, i: nat)
    requires Run(tr, acts) && i < |tr|
    ensures forall id :: id in tr[i].list <==> Idle(tr[i], id)
    ensures Sorted(tr[i].items, tr[i].list)
    ensures forall id :: id in tr[i].items ==> tr[i].items[id].refcnt == |Holders(tr[i], id)|
    ensures forall id :: id in tr[i].list ==> tr[i].items[id].failure == 0
  {
    RunInv(tr, acts, i);
    forall id | id in tr[i].items
      ensures tr[i].items[id].refcnt == |Holders(tr[i], id)| && (id in tr[i].list <==> Idle(tr[i], id))
      ensures id in tr[i].list ==> tr[i].items[id].failure == 0
    {
      assert ItemOk(tr[i], id);
    }
  }

  // All concurrent borrowers of a key have the same item and the same object,
  // the one its constructor stored; it is neither destroyed nor moved out, and
  // looking the key up (release by key) finds that item.
  lemma BorrowersShareObject(tr: seq<State>, acts: seq<Action>, i: nat, a: Sid, b: Sid)
    requires Run(tr, acts) && i < |tr| && PhaseOf(tr[i], a).Borrowed? && PhaseOf(tr[i], b).Borrowed?
    ensures var s, pa, pb := tr[i], PhaseOf(tr[i], a), PhaseOf(tr[i], b);
            && pa.id in s.items && pb.id in s.items
            && (s.items[pa.id].key == s.items[pb.id].key ==> pa.id == pb.id && pa.obj == pb.obj)
            && s.items[pa.id].obj == Some(pa.obj)
            && pa.obj !in s.destroyed && pa.obj !in s.movedOut
            && s.items[pa.id].key in s.index && s.index[s.items[pa.id].key] == pa.id
  {
    RunInv(tr, acts, i);
    assert SessionOk(tr[i], a, tr[i].sess[a]) && SessionOk(tr[i], b, tr[i].sess[b]);
    assert ItemOk(tr[i], PhaseOf(tr[i], a).id);
  }

  // The constructor runs for one session per key at a time, and only while
  // the item has no object.
  lemma OneConstructor(tr: seq<State>, acts: seq<Action>, i: nat, a: Sid, b: Sid)
    requires Run(tr, acts) && i < |tr| && PhaseOf(tr[i], a).Constructing? && PhaseOf(tr[i], b).Constructing?
    ensures var s, pa, pb := tr[i], PhaseOf(tr[i], a), PhaseOf(tr[i], b);
            && pa.id in s.items && pb.id in s.items && s.items[pa.id].obj == None
            && (s.items[pa.id].key == s.items[pb.id].key ==> a == b)
  {
    RunInv(tr, acts, i);
    assert SessionOk(tr[i], a, tr[i].sess[a]) && SessionOk(tr[i], b, tr[i].sess[b]);
  }

  // An item has at most one recycler.  The recycler goes on only when the last
  // reference is gone, and is then always woken.
  lemma OneRecycler(tr: seq<State>, acts: seq<Action>, i: nat, a: Sid, b: Sid, id: Id)
    requires Run(tr, acts) && i < |tr| && Recycles(PhaseOf(tr[i], a), id)
    ensures Recycles(PhaseOf(tr[i], b), id) ==> a == b
    ensures id in tr[i].items && tr[i].items[id].recycle == Some(a)
    ensures PhaseOf(tr[i], a).RecycleErase? ==> Holders(tr[i], id) == {}
    ensures PhaseOf(tr[i], a).RecycleWait? ==> (a in tr[i].signaled <==> Holders(tr[i], id) == {})
  {
    RunInv(tr, acts, i);
    assert SessionOk(tr[i], a, tr[i].sess[a]);
    if Recycles(PhaseOf(tr[i], b), id) {
      assert SessionOk(tr[i], b, tr[i].sess[b]);
    }
    assert ItemOk(tr[i], id);
  }

  // Only the session that took an item out of the index deletes it.
  lemma DeletionIsByDisposer(s: State, a: Action, id: Id)
    requires id in s.items && id !in Apply(s, a).items
    ensures a.Step? && Disposes(PhaseOf(s, a.sid), id)
  {
    if a.Step? && PhaseOf(s, a.sid).Expiring? { ExpireKeepsItems(s, a.sid); }
  }

  lemma ExpireKeepsItems(s: State, sid: Sid)
    ensures ExpireStep(s, sid).items.Keys == s.items.Keys
  {
  }

  lemma BorrowPhase(s: State, act: Action, a: Sid)
    requires PhaseOf(s, a).Borrowed?
    ensures var s' := Apply(s, act);
            PhaseOf(s', a) == PhaseOf(s, a) || (s'.destroyed == s.destroyed && s'.movedOut == s.movedOut)
  {
  }

  // No use after free: the items a session claims exist.  A step that deletes
  // an item does so when no session but the deleting one claims it, and no
  // step destroys or moves out an object that somebody has borrowed.
  lemma DeletedUnclaimed(tr: seq<State>, acts: seq<Action>, i: nat, a: Sid, id: Id)
    requires Run(tr, acts) && i < |acts|
    ensures Mentions(PhaseOf(tr[i], a), id) ==> id in tr[i].items
    ensures id in tr[i].items && id !in tr[i + 1].items ==>
              && Holders(tr[i], id) == {}
              && (Mentions(PhaseOf(tr[i], a), id) ==> acts[i] == Step(a))
    ensures PhaseOf(tr[i], a).Borrowed? ==>
              PhaseOf(tr[i], a).obj !in tr[i + 1].destroyed && PhaseOf(tr[i], a).obj !in tr[i + 1].movedOut
  {
    RunInv(tr, acts, i);
    assert tr[i + 1] == Apply(tr[i], acts[i]);
    if a in tr[i].sess {
      ClaimedExists(tr[i], a, id);
    }
    if id in tr[i].items && id !in tr[i + 1].items {
      DeletionIsByDisposer(tr[i], acts[i], id);
      DisposerAlone(tr[i], acts[i].sid, id, a);
    }
    if PhaseOf(tr[i], a).Borrowed? {
      RunInv(tr, acts, i + 1);
      BorrowPhase(tr[i], acts[i], a);
      BorrowedAlive(tr[i], a);
      if PhaseOf(tr[i + 1], a) == PhaseOf(tr[i], a) { BorrowedAlive(tr[i + 1], a); }
    }
  }

  lemma ClaimedExists(s: State, a: Sid, id: Id)
    requires SessionsOk(s) && a in s.sess
    ensures Mentions(s.sess[a], id) ==> id in s.items
  {
    assert SessionOk(s, a, s.sess[a]);
  }

  lemma DisposerAlone(s: State, d: Sid, id: Id, a: Sid)
    requires ItemsOk(s) && SessionsOk(s) && id in s.items && Disposes(PhaseOf(s, d), id)
    ensures Holders(s, id) == {} && (Mentions(PhaseOf(s, a), id) ==> a == d)
  {
    assert SessionOk(s, d, s.sess[d]) && ItemOk(s, id);
    if a in s.sess {
      assert SessionOk(s, a, s.sess[a]);
      ClaimsDoomed(s, d, id, a);
    }
  }

  lemma ClaimsDoomed(s: State, d: Sid, id: Id, a: Sid)
    requires id in s.items && ItemOk(s, id) && Doomed(s, id, d)
    requires s.items[id].recycle == None || s.items[id].recycle == Some(d)
    requires a in s.sess && SessionOk(s, a, s.sess[a])
    ensures Mentions(s.sess[a], id) ==> a == d
  {
    assert a in Holders(s, id) <==> HoldsRef(s.sess[a], id);
  }

  lemma BorrowedAlive(s: State, a: Sid)
    requires ItemsOk(s) && SessionsOk(s) && PhaseOf(s, a).Borrowed?
    ensures PhaseOf(s, a).obj !in s.destroyed && PhaseOf(s, a).obj !in s.movedOut
  {
    assert SessionOk(s, a, s.sess[a]);
    assert ItemOk(s, PhaseOf(s, a).id);
  }

  // Every object ever constructed is in exactly one place: carried by one
  // item, moved out, or destroyed.
  lemma ObjectConservation(tr: seq<State>, acts: seq<Action>, i: nat, o: Obj)
    requires Run(tr, acts) && i < |tr| && o < tr[i].nextObj
    ensures o in tr[i].destroyed ==> o !in tr[i].movedOut
    ensures (o in tr[i].destroyed || o in tr[i].movedOut) <==> forall id :: !Carries(tr[i], id, o)
    ensures forall a, b :: Carries(tr[i], a, o) && Carries(tr[i], b, o) ==> a == b
  {
    RunInv(tr, acts, i);
    assert ObjectOk(tr[i], o);
  }

  lemma TailNotExpired(s: State, n: nat)
    requires ListOk(s) && n < |s.list| && s.items[s.list[n]].expiration >= s.now
    ensures forall id :: id in s.list[n..] ==> s.items[id].expiration >= s.now
  {
    forall id | id in s.list[n..] ensures s.items[id].expiration >= s.now {
      var k :| 0 <= k < |s.list[n..]| && s.list[n..][k] == id;
      assert s.list[n + k] == id;
    }
  }

  // Scanning a prefix is enough: after expire no idle item is expired, and
  // either nothing is idle or the index is within the limit.  Whatever was
  // taken was expired or made the index exceed the limit.
  lemma ExpireComplete(tr: seq<State>, acts: seq<Action>, i: nat, sid: Sid, s: State, s': State) returns (n: nat)
    requires Run(tr, acts) && i < |acts| && s == tr[i] && s' == tr[i + 1]
    requires acts[i] == Step(sid) && PhaseOf(s, sid).Expiring?
    ensures forall id :: Idle(s', id) ==> s'.items[id].expiration >= s'.now
    ensures |s'.index| <= s'.limit || forall id :: !Idle(s', id)
    ensures n <= |s.list| && s'.list == s.list[n..] && |s'.index| == |s.index| - n
    ensures forall k :: 0 <= k < n ==> s.list[k] in s.items
    ensures forall k :: 0 <= k < n ==> s.items[s.list[k]].expiration < s.now || |s.index| - k > s.limit
  {
    RunInv(tr, acts, i);
    assert s' == ExpireStep(s, sid);
    n := ExpireFacts(s, sid);
    ExpiredState(s, s', sid, n);
    IdleListExact(tr, acts, i + 1);
  }

  lemma ExpiredState(s: State, s': State, sid: Sid, n: nat)
    requires ListOk(s) && ExpireResult(s, s', sid, n)
    requires n < |s.list| ==> s.items[s.list[n]].expiration >= s.now
    ensures forall id :: id in s'.list ==> id in s'.items && s'.items[id].expiration >= s'.now
    ensures n == |s.list| ==> s'.list == []
    ensures forall k :: 0 <= k < n ==> s.list[k] in s.items
  {
    SplitList(s, n);
    if n < |s.list| { TailNotExpired(s, n); }
  }
}
