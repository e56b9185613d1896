// What the calls of the cache in ObjectCache.dfy get: over every run, the item of
// the key that was asked for, a constructor that runs when it should, and an
// object that ends up where the release said.
module ObjectCacheCalls {
  import opened Arith
  import opened ObjectCache

  // ----- what one action does to an item ------------------------------------------------

  ghost predicate ItemChange(s: State, a: Action, s': State, id: Id)
    requires id in s.items && id in s'.items
  {
    var it, it' := s.items[id], s'.items[id];
    && it'.key == it.key
    // an object is stored once, by the constructor that runs for the item
    && (it'.obj != it.obj ==> it.obj == None && it'.obj == Some(s.nextObj) && Constructs(s, a, id, true))
    // a failure is stamped by a constructor that fails and forgotten when the item becomes idle
    && (it'.failure != it.failure ==>
          || (it'.failure == s.now && Constructs(s, a, id, false))
          || (it'.failure == 0 && id in s'.list))
    // an item gets its expiration when it becomes idle
    && (id in s'.list ==> it'.expiration == if id in s.list then it.expiration else SatAdd(s.now, s.lifespan))
  }

  predicate Constructs(s: State, a: Action, id: Id, ok: bool) {
    a.CtorReturns? && a.ok == ok && PhaseOf(s, a.sid) == Constructing(id)
  }

  lemma AcquireItem(s: State, a: Action, id: Id)
    requires Inv(s) && a.Step? && PhaseOf(s, a.sid).Acquiring? && id in s.items
    ensures id in AcquireStep(s, a.sid).items && ItemChange(s, a, AcquireStep(s, a.sid), id)
  {
    hide Inv, AcquireStep, ItemChange, Without;
    ItemKnown(s, id);
    var key := s.sess[a.sid].key;
    WithoutSpec(s.list, if key in s.index then s.index[key] else 0);
    AcquiredChange(s, a, id);
  }

  lemma ItemKnown(s: State, id: Id)
    requires Inv(s) && id in s.items
    ensures id < s.nextId
  {
    assert ItemOk(s, id);
  }

  lemma AcquiredChange(s: State, a: Action, id: Id)
    requires a.Step? && PhaseOf(s, a.sid).Acquiring? && id in s.items && id < s.nextId
    requires var key := PhaseOf(s, a.sid).key;
             key in s.index ==> forall y :: y in Without(s.list, s.index[key]) <==> y in s.list && y != s.index[key]
    ensures id in AcquireStep(s, a.sid).items && ItemChange(s, a, AcquireStep(s, a.sid), id)
  {
    hide Without;
  }

  lemma ReleaseItemChange(s: State, a: Action, id: Id)
    requires Inv(s) && a.Step? && PhaseOf(s, a.sid).Releasing? && id in s.items
    ensures PhaseOf(s, a.sid).id in s.items
    ensures id in ReleaseStep(s, a.sid).items && ItemChange(s, a, ReleaseStep(s, a.sid), id)
  {
    hide Inv, Without, ReleaseStep, ItemChange;
    HolderNotIdle(s, a.sid);
    WithoutSpec(s.list, s.sess[a.sid].id);
    ReleasedChange(s, a, id);
  }

  lemma ReleasedChange(s: State, a: Action, id: Id)
    requires a.Step? && PhaseOf(s, a.sid).Releasing? && id in s.items
    requires var x := PhaseOf(s, a.sid).id;
             x in s.items && x !in s.list && forall y :: y in Without(s.list, x) <==> y in s.list && y != x
    ensures id in ReleaseStep(s, a.sid).items && ItemChange(s, a, ReleaseStep(s, a.sid), id)
  {
    hide Without;
  }

  // An item somebody has a reference to is not idle.
  lemma HolderNotIdle(s: State, sid: Sid)
    requires Inv(s) && PhaseOf(s, sid).Releasing?
    ensures PhaseOf(s, sid).id in s.items && PhaseOf(s, sid).id !in s.list
  {
    var id := s.sess[sid].id;
    assert SessionOk(s, sid, s.sess[sid]) && ItemOk(s, id);
    assert sid in Holders(s, id);
  }

  lemma LockItemChange(s: State, a: Action, id: Id)
    requires a.Step? && PhaseOf(s, a.sid).Acquired? && PhaseOf(s, a.sid).id in s.items && id in s.items
    ensures id in LockStep(s, a.sid).items && ItemChange(s, a, LockStep(s, a.sid), id)
  {
  }

  lemma CtorItemChange(s: State, a: Action, id: Id)
    requires Inv(s) && a.CtorReturns? && PhaseOf(s, a.sid).Constructing? && PhaseOf(s, a.sid).id in s.items && id in s.items
    ensures id in CtorStep(s, a.sid, a.ok).items && ItemChange(s, a, CtorStep(s, a.sid, a.ok), id)
  {
    assert SessionOk(s, a.sid, s.sess[a.sid]);
  }

  lemma RecycleItemChange(s: State, a: Action, id: Id)
    requires a.Step?
    requires PhaseOf(s, a.sid).RecycleWait? || PhaseOf(s, a.sid).RecycleErase? || PhaseOf(s, a.sid).RecycleDelete?
    requires id in s.items && PhaseOf(s, a.sid).id in s.items
    ensures id in RecycleStep(s, a.sid).items ==> ItemChange(s, a, RecycleStep(s, a.sid), id)
  {
  }

  lemma ExpireItemChange(s: State, a: Action, id: Id)
    requires Inv(s) && a.Step? && id in s.items
    ensures id in ExpireStep(s, a.sid).items && ItemChange(s, a, ExpireStep(s, a.sid), id)
  {
    hide ExpireStep, ItemChange, ExpireResult, Inv;
    InvParts(s);
    var n := ExpireFacts(s, a.sid);
    ExpiredChange(s, a, ExpireStep(s, a.sid), n, id);
  }

  lemma InvParts(s: State)
    requires Inv(s)
    ensures ListOk(s) && ItemsOk(s) && IndexOk(s) && SessionsOk(s)
  {
  }

  lemma ExpiredChange(s: State, a: Action, s': State, n: nat, id: Id)
    requires a.Step? && id in s.items && ExpireResult(s, s', a.sid, n)
    ensures id in s'.items && ItemChange(s, a, s', id)
  {
    assert s.list == s.list[..n] + s.list[n..];
    assert id in s.list[n..] ==> id in s.list;
  }

  lemma DeleteItemChange(s: State, a: Action, id: Id)
    requires a.Step? && PhaseOf(s, a.sid).Deleting? && id in s.items
    ensures id in DeleteStep(s, a.sid).items ==> ItemChange(s, a, DeleteStep(s, a.sid), id)
  {
  }

  lemma SameItem(s: State, a: Action, s': State, id: Id)
    requires id in s.items && s'.items == s.items && s'.list == s.list
    ensures ItemChange(s, a, s', id)
  {
  }

  lemma StepItemChange(s: State, a: Action, id: Id)
    requires Inv(s) && a.Step? && id in s.items
    ensures id in Advance(s, a.sid).items ==> ItemChange(s, a, Advance(s, a.sid), id)
  {
    hide Inv, ItemChange, AcquireStep, LockStep, ReleaseStep, RecycleStep, ExpireStep, DeleteStep;
    match PhaseOf(s, a.sid)
    case Acquiring(_, _) => AcquireItem(s, a, id);
    case Expiring => ExpireItemChange(s, a, id);
    case Deleting(_) => DeleteItemChange(s, a, id);
    case Acquired(x, _) => if x in s.items { LockItemChange(s, a, id); } else { SameItem(s, a, s, id); }
    case Releasing(x, _, _) => ReleaseItemChange(s, a, id);
    case RecycleWait(x, _) => if x in s.items { RecycleItemChange(s, a, id); } else { SameItem(s, a, s, id); }
    case RecycleErase(x, _) => if x in s.items { RecycleItemChange(s, a, id); } else { SameItem(s, a, s, id); }
    case RecycleDelete(x, _) => if x in s.items { RecycleItemChange(s, a, id); } else { SameItem(s, a, s, id); }
    case _ => SameItem(s, a, Advance(s, a.sid), id);
  }

  // Keys never change, objects are stored once and never replaced, failures and
  // expirations are set only where they should be.
  lemma ApplyItemChange(s: State, a: Action, id: Id)
    requires Inv(s) && id in s.items
    ensures id in Apply(s, a).items ==> ItemChange(s, a, Apply(s, a), id)
  {
    hide Inv, ItemChange, Advance, CtorStep;
    match a
    case Step(_) => StepItemChange(s, a, id);
    case CtorReturns(sid, ok) =>
      if PhaseOf(s, sid).Constructing? && PhaseOf(s, sid).id in s.items { CtorItemChange(s, a, id); }
      else { SameItem(s, a, s, id); }
    case _ => SameItem(s, a, Apply(s, a), id);
  }

  // ----- what one action does to a session ----------------------------------------------

  // The action is a step of sid's, or ends or begins something for it.
  predicate About(a: Action, sid: Sid) { !a.Tick? && a.sid == sid }

  predicate KeyIs(s: State, id: Id, key: Key) { id in s.items && s.items[id].key == key }

  ghost predicate PhaseChange(s: State, a: Action, s': State, sid: Sid) {
    var ph, ph' := PhaseOf(s, sid), PhaseOf(s', sid);
    match ph
    case Done => About(a, sid) || ph' == ph
    case Acquiring(key, cooldown) => ph' == ph || (ph'.Acquired? && ph'.cooldown == cooldown && KeyIs(s', ph'.id, key))
    case Acquired(id, _) => ph' == ph || ph' == Constructing(id) || ph' == Checking(id)
    case Constructing(id) => ph' == ph || (ph' == Checking(id) && About(a, sid) && a.CtorReturns?)
    case Checking(id) =>
      || ph' == ph
      || (id in s.items && ph' == if s.items[id].obj.Some? then Borrowed(id, s.items[id].obj.value) else Releasing(id, false, true))
    case Borrowed(id, _) => ph' == ph || (a.CallRelease? && a.sid == sid && ph' == Releasing(id, a.recycle, a.destroy))
    case Releasing(id, recycle, destroy) => ph' == ph || ph' == Done || (recycle && ph' == RecycleWait(id, destroy))
    case RecycleWait(id, destroy) => ph' == ph || ph' == RecycleErase(id, destroy)
    case RecycleErase(id, destroy) => ph' == ph || ph' == RecycleDelete(id, destroy)
    case RecycleDelete(_, _) => ph' == ph || ph' == Done
    case Expiring => ph' == ph || ph'.Deleting?
    case Deleting(_) => ph' == Done || ph'.Deleting?
  }

  lemma AdvanceOther(s: State, sid: Sid, a: Sid)
    requires a != sid
    ensures PhaseOf(Advance(s, sid), a) == PhaseOf(s, a)
  {
    hide AcquireStep, LockStep, CheckStep, ReleaseStep, RecycleStep, ExpireStep, DeleteStep;
    var ph := PhaseOf(s, sid);
    if ph.Acquiring? || ph.Expiring? || ph.Deleting? { IndexStepOther(s, sid, a); }
    else if !ph.Done? && ph.id in s.items {
      assert Mentions(ph, ph.id);
      ItemStepOther(s, sid, a);
    }
  }

  lemma IndexStepOther(s: State, sid: Sid, a: Sid)
    requires a != sid
    ensures PhaseOf(s, sid).Acquiring? ==> PhaseOf(AcquireStep(s, sid), a) == PhaseOf(s, a)
    ensures PhaseOf(ExpireStep(s, sid), a) == PhaseOf(s, a)
    ensures PhaseOf(s, sid).Deleting? ==> PhaseOf(DeleteStep(s, sid), a) == PhaseOf(s, a)
  {
    hide Without, ExpireLoop, Doom;
  }

  lemma ItemStepOther(s: State, sid: Sid, a: Sid)
    requires a != sid && exists id :: id in s.items && Mentions(PhaseOf(s, sid), id)
    requires !PhaseOf(s, sid).Deleting?
    ensures match PhaseOf(s, sid)
            case Acquired(_, _) => PhaseOf(LockStep(s, sid), a) == PhaseOf(s, a)
            case Checking(_) => PhaseOf(CheckStep(s, sid), a) == PhaseOf(s, a)
            case Releasing(_, _, _) => PhaseOf(ReleaseStep(s, sid), a) == PhaseOf(s, a)
            case RecycleWait(_, _) => PhaseOf(RecycleStep(s, sid), a) == PhaseOf(s, a)
            case RecycleErase(_, _) => PhaseOf(RecycleStep(s, sid), a) == PhaseOf(s, a)
            case RecycleDelete(_, _) => PhaseOf(RecycleStep(s, sid), a) == PhaseOf(s, a)
            case _ => true
  {
    hide Without;
  }

  lemma AdvancePhase(s: State, sid: Sid)
    requires IndexOk(s)
    ensures PhaseChange(s, Step(sid), Advance(s, sid), sid)
  {
    hide Without, ExpireLoop, Doom;
  }

  lemma SamePhase(s: State, a: Action, s': State, sid: Sid)
    requires PhaseOf(s', sid) == PhaseOf(s, sid)
    ensures PhaseChange(s, a, s', sid)
  {
  }

  lemma CallPhase(s: State, a: Action, sid: Sid)
    requires !a.Step?
    ensures PhaseChange(s, a, Apply(s, a), sid)
    ensures !About(a, sid) ==> PhaseOf(Apply(s, a), sid) == PhaseOf(s, sid)
  {
    hide Advance, PhaseChange;
    if !About(a, sid) { SamePhase(s, a, Apply(s, a), sid); } else { OwnCallPhase(s, a, sid); }
  }

  lemma OwnCallPhase(s: State, a: Action, sid: Sid)
    requires !a.Step? && About(a, sid)
    ensures PhaseChange(s, a, Apply(s, a), sid)
  {
    hide Advance;
  }

  lemma ApplyPhase(s: State, a: Action, sid: Sid)
    requires Inv(s)
    ensures PhaseChange(s, a, Apply(s, a), sid)
    ensures !About(a, sid) ==> PhaseOf(Apply(s, a), sid) == PhaseOf(s, sid)
  {
    hide Advance, PhaseChange, Inv, IndexOk;
    InvParts(s);
    if !a.Step? { CallPhase(s, a, sid); }
    else if a.sid == sid { AdvancePhase(s, sid); }
    else { AdvanceOther(s, a.sid, sid); SamePhase(s, a, Apply(s, a), sid); }
  }

  // ----- the key that was asked for -----------------------------------------------------

  // Session sid begins with action i and has not ended before state n.
  ghost predicate Begun(tr: seq<State>, acts: seq<Action>, i: nat, n: nat, sid: Sid, key: Key, cooldown: nat) {
    && Run(tr, acts) && i < n < |tr| && acts[i] == CallAcquire(sid, key, cooldown) && PhaseOf(tr[i], sid).Done?
    && forall m :: i < m < n ==> !PhaseOf(tr[m], sid).Done?
  }

  // What the session works on belongs to the key it asked for.
  ghost predicate Asked(s: State, sid: Sid, key: Key, cooldown: nat) {
    match PhaseOf(s, sid)
    case Done => true
    case Acquiring(k, c) => k == key && c == cooldown
    case Acquired(id, c) => KeyIs(s, id, key) && c == cooldown
    case Expiring => false
    case Deleting(_) => false
    case ph => KeyIs(s, ph.id, key)
  }

  lemma SessionItem(s: State, sid: Sid)
    requires Inv(s)
    ensures match PhaseOf(s, sid)
            case Done => true
            case Acquiring(_, _) => true
            case Expiring => true
            case Deleting(_) => true
            case ph => ph.id in s.items
  {
    if sid in s.sess { assert SessionOk(s, sid, s.sess[sid]); }
  }

  lemma AskedStep(s: State, a: Action, sid: Sid, key: Key, cooldown: nat)
    requires Inv(s) && Inv(Apply(s, a)) && Asked(s, sid, key, cooldown) && !PhaseOf(s, sid).Done?
    ensures Asked(Apply(s, a), sid, key, cooldown)
  {
    hide Inv, Apply;
    ApplyPhase(s, a, sid);
    SessionItem(s, sid);
    SessionItem(Apply(s, a), sid);
    var ph := PhaseOf(s, sid);
    if !ph.Acquiring? { ApplyItemChange(s, a, ph.id); }
  }

  lemma RunLength(tr: seq<State>, acts: seq<Action>)
    requires Run(tr, acts)
    ensures |tr| == |acts| + 1
  {
  }

  lemma RunStep(tr: seq<State>, acts: seq<Action>, n: nat)
    requires Run(tr, acts) && n + 1 < |tr|
    ensures |tr| == |acts| + 1 && tr[n + 1] == Apply(tr[n], acts[n]) && Inv(tr[n]) && Inv(tr[n + 1])
  {
    RunInv(tr, acts, n);
    RunInv(tr, acts, n + 1);
  }

  // Over every run, a session that asked for a key works on the item of that
  // key, in every phase up to the end of its release.
  lemma {:induction false} AskedItem(tr: seq<State>, acts: seq<Action>, i: nat, n: nat, sid: Sid, key: Key, cooldown: nat)
    requires Begun(tr, acts, i, n, sid, key, cooldown)
    ensures Asked(tr[n], sid, key, cooldown)
    decreases n
  {
    hide Inv, Apply, Asked, Run;
    RunStep(tr, acts, n - 1);
    if n == i + 1 {
      AskedBegins(tr[i], sid, key, cooldown);
    } else {
      BegunBefore(tr, acts, i, n, sid, key, cooldown);
      AskedItem(tr, acts, i, n - 1, sid, key, cooldown);
      AskedStep(tr[n - 1], acts[n - 1], sid, key, cooldown);
    }
  }

  lemma AskedBegins(s: State, sid: Sid, key: Key, cooldown: nat)
    requires PhaseOf(s, sid).Done?
    ensures Asked(Apply(s, CallAcquire(sid, key, cooldown)), sid, key, cooldown)
  {
  }

  lemma BegunBefore(tr: seq<State>, acts: seq<Action>, i: nat, n: nat, sid: Sid, key: Key, cooldown: nat)
    requires Begun(tr, acts, i, n, sid, key, cooldown) && i + 1 < n
    ensures Begun(tr, acts, i, n - 1, sid, key, cooldown) && !PhaseOf(tr[n - 1], sid).Done?
  {
  }

  // Two sessions that asked for the same key and have both got an object have
  // the same one, that of the item the key leads to; it is alive.
  lemma SameKeySameObject(tr: seq<State>, acts: seq<Action>, i: nat, j: nat, n: nat, a: Sid, b: Sid, key: Key, c: nat, d: nat)
    requires Begun(tr, acts, i, n, a, key, c) && Begun(tr, acts, j, n, b, key, d)
    requires PhaseOf(tr[n], a).Borrowed? && PhaseOf(tr[n], b).Borrowed?
    ensures key in tr[n].index && PhaseOf(tr[n], a).id == tr[n].index[key]
    ensures PhaseOf(tr[n], a) == PhaseOf(tr[n], b)
    ensures Carries(tr[n], tr[n].index[key], PhaseOf(tr[n], a).obj)
    ensures PhaseOf(tr[n], a).obj !in tr[n].destroyed && PhaseOf(tr[n], a).obj !in tr[n].movedOut
  {
    hide Run;
    AskedItem(tr, acts, i, n, a, key, c);
    AskedItem(tr, acts, j, n, b, key, d);
    BorrowersShareObject(tr, acts, n, a, b);
  }

  // The constructor runs for one session per requested key at a time.
  lemma SameKeyOneConstructor(tr: seq<State>, acts: seq<Action>, i: nat, j: nat, n: nat, a: Sid, b: Sid, key: Key, c: nat, d: nat)
    requires Begun(tr, acts, i, n, a, key, c) && Begun(tr, acts, j, n, b, key, d)
    requires PhaseOf(tr[n], a).Constructing? && PhaseOf(tr[n], b).Constructing?
    ensures a == b && KeyIs(tr[n], PhaseOf(tr[n], a).id, key) && tr[n].items[PhaseOf(tr[n], a).id].obj == None
  {
    hide Run;
    AskedItem(tr, acts, i, n, a, key, c);
    AskedItem(tr, acts, j, n, b, key, d);
    OneConstructor(tr, acts, n, a, b);
  }

  // A session gets the item at its next step, a new one without object if the key
  // is unknown, unless the item is being recycled.
  lemma AcquireOutcome(tr: seq<State>, acts: seq<Action>, i: nat, n: nat, sid: Sid, key: Key, cooldown: nat)
    requires Begun(tr, acts, i, n, sid, key, cooldown) && n < |acts| && acts[n] == Step(sid)
    requires PhaseOf(tr[n], sid).Acquiring?
    ensures var s, s', ph' := tr[n], tr[n + 1], PhaseOf(tr[n + 1], sid);
            if key in s.index && s.index[key] in s.items && s.items[s.index[key]].recycle.Some? then ph' == PhaseOf(s, sid)
            else
              && ph'.Acquired? && key in s'.index && s'.index[key] == ph'.id && ph'.id in s'.items
              && if key in s.index then s'.index == s.index
                 else ph'.id !in s.items && s'.items[ph'.id].obj == None && s'.items[ph'.id].failure == 0
                      && forall k :: k in s.index ==> k in s'.index && s'.index[k] == s.index[k]
  {
    hide Run, Inv;
    AskedItem(tr, acts, i, n, sid, key, cooldown);
    RunLength(tr, acts);
    RunStep(tr, acts, n);
    InvParts(tr[n]);
    if tr[n].nextId in tr[n].items { ItemKnown(tr[n], tr[n].nextId); }
    hide ListOk, ItemsOk, SessionsOk, Without;
  }

  // ----- constructing -------------------------------------------------------------------

  // A session that gets the item's mutex runs the constructor exactly if there
  // is no object and no failure within the cooldown of its call; otherwise it
  // goes on without.
  lemma ConstructsWhenDue(tr: seq<State>, acts: seq<Action>, i: nat, n: nat, sid: Sid, key: Key, cooldown: nat)
    requires Begun(tr, acts, i, n, sid, key, cooldown) && n < |acts| && acts[n] == Step(sid)
    requires PhaseOf(tr[n], sid).Acquired?
    ensures PhaseOf(tr[n], sid).id in tr[n].items
    ensures var id, ph' := PhaseOf(tr[n], sid).id, PhaseOf(tr[n + 1], sid);
            var it := tr[n].items[id];
            var due := it.obj == None && (it.failure == 0 || it.failure + cooldown <= tr[n].now);
            ph' == if it.mtx.Some? then PhaseOf(tr[n], sid) else if due then Constructing(id) else Checking(id)
  {
    AskedItem(tr, acts, i, n, sid, key, cooldown);
    assert tr[n + 1] == Apply(tr[n], acts[n]);
    hide Run;
  }

  // Time does not go back.
  lemma {:induction false} TimePasses(tr: seq<State>, acts: seq<Action>, m: nat, n: nat)
    requires Run(tr, acts) && m <= n < |tr|
    ensures tr[m].now <= tr[n].now
    decreases n
  {
    if m < n {
      TimePasses(tr, acts, m, n - 1);
      assert tr[n - 1 + 1] == Apply(tr[n - 1], acts[n - 1]);
      hide Run;
      TimeStep(tr[n - 1], acts[n - 1]);
    }
  }

  lemma TimeStep(s: State, a: Action)
    ensures s.now <= Apply(s, a).now && Apply(s, a).lifespan == s.lifespan && Apply(s, a).limit == s.limit
  {
    hide Without, ExpireLoop, Doom;
  }

  // The object a constructor makes is new and stored in the item; a constructor
  // that fails leaves no object and the time of the failure.
  lemma CtorOutcome(tr: seq<State>, acts: seq<Action>, n: nat, sid: Sid, ok: bool)
    requires Run(tr, acts) && n < |acts| && acts[n] == CtorReturns(sid, ok) && PhaseOf(tr[n], sid).Constructing?
    ensures var id, s, s' := PhaseOf(tr[n], sid).id, tr[n], tr[n + 1];
            && PhaseOf(s', sid) == Checking(id) && id in s'.items
            && (ok ==> Carries(s', id, s.nextObj) && forall x :: !Carries(s, x, s.nextObj))
            && (!ok ==> s'.items[id].obj == None && s'.items[id].failure == s.now)
  {
    RunStep(tr, acts, n);
    hide Run;
    InvParts(tr[n]);
    assert SessionOk(tr[n], sid, tr[n].sess[sid]);
    forall x ensures !Carries(tr[n], x, tr[n].nextObj) {
      if x in tr[n].items { assert ItemOk(tr[n], x); }
    }
    hide Inv, ListOk, ItemsOk, IndexOk, SessionsOk;
  }

  // Until the item becomes idle, its failure stamp is that of the failed
  // constructor or of a later one.
  lemma {:induction false} FailureStands(tr: seq<State>, acts: seq<Action>, m: nat, n: nat, b: Sid, id: Id)
    requires Run(tr, acts) && m < n < |tr| && acts[m] == CtorReturns(b, false) && PhaseOf(tr[m], b) == Constructing(id)
    requires forall j :: m < j <= n ==> id in tr[j].items && id !in tr[j].list
    ensures tr[n].items[id].failure >= tr[m].now
    decreases n
  {
    hide Run, Apply, Inv;
    RunLength(tr, acts);
    if n == m + 1 {
      CtorOutcome(tr, acts, m, b, false);
    } else {
      FailureStands(tr, acts, m, n - 1, b, id);
      RunStep(tr, acts, n - 1);
      ApplyItemChange(tr[n - 1], acts[n - 1], id);
      TimePasses(tr, acts, m, n - 1);
    }
  }

  // Within the cooldown of its call a session does not run the constructor of an
  // item that another session failed to construct and that was not idle since.
  lemma CooldownRespected(tr: seq<State>, acts: seq<Action>, i: nat, m: nat, n: nat, b: Sid, sid: Sid, key: Key, cooldown: nat)
    requires Begun(tr, acts, i, n, sid, key, cooldown) && n < |acts| && acts[n] == Step(sid)
    requires PhaseOf(tr[n], sid).Acquired? && m < n && acts[m] == CtorReturns(b, false)
    requires PhaseOf(tr[m], b) == Constructing(PhaseOf(tr[n], sid).id)
    requires forall j :: m < j <= n ==> PhaseOf(tr[n], sid).id in tr[j].items && PhaseOf(tr[n], sid).id !in tr[j].list
    requires 0 < tr[m].now && tr[n].now < tr[m].now + cooldown
    ensures !PhaseOf(tr[n + 1], sid).Constructing?
  {
    hide Run;
    ConstructsWhenDue(tr, acts, i, n, sid, key, cooldown);
    FailureStands(tr, acts, m, n, b, PhaseOf(tr[n], sid).id);
  }

  // ref_acquire returns the item's object exactly if it has one, and otherwise
  // gives the reference back.
  lemma CheckOutcome(tr: seq<State>, acts: seq<Action>, n: nat, sid: Sid)
    requires Run(tr, acts) && n < |acts| && acts[n] == Step(sid) && PhaseOf(tr[n], sid).Checking?
    ensures var id, ph' := PhaseOf(tr[n], sid).id, PhaseOf(tr[n + 1], sid);
            && id in tr[n].items
            && (forall o :: Carries(tr[n], id, o) <==> ph' == Borrowed(id, o))
            && (tr[n].items[id].obj == None <==> ph' == Releasing(id, false, true))
  {
    RunStep(tr, acts, n);
    hide Run;
    SessionItem(tr[n], sid);
    hide Inv;
  }

  // A session whose constructor succeeds gets the object it made.
  lemma {:induction false} ConstructedIsBorrowed(tr: seq<State>, acts: seq<Action>, m: nat, n: nat, sid: Sid)
    requires Run(tr, acts) && m < n < |tr| && acts[m] == CtorReturns(sid, true) && PhaseOf(tr[m], sid).Constructing?
    requires forall j :: m < j <= n ==> PhaseOf(tr[j], sid).Checking? || PhaseOf(tr[j], sid).Borrowed?
    ensures var id, o := PhaseOf(tr[m], sid).id, tr[m].nextObj;
            (PhaseOf(tr[n], sid) == Checking(id) || PhaseOf(tr[n], sid) == Borrowed(id, o)) && Carries(tr[n], id, o)
    decreases n
  {
    hide Run, Apply, Inv;
    RunLength(tr, acts);
    if n == m + 1 {
      CtorOutcome(tr, acts, m, sid, true);
    } else {
      ConstructedIsBorrowed(tr, acts, m, n - 1, sid);
      RunStep(tr, acts, n - 1);
      ApplyPhase(tr[n - 1], acts[n - 1], sid);
      ApplyItemChange(tr[n - 1], acts[n - 1], PhaseOf(tr[m], sid).id);
      SessionItem(tr[n], sid);
    }
  }

  // ----- releasing ----------------------------------------------------------------------

  // Session sid, with object o of item id, calls release with action i and has
  // not finished at state n.
  ghost predicate Released(tr: seq<State>, acts: seq<Action>, i: nat, n: nat, sid: Sid, id: Id, o: Obj, recycle: bool, destroy: bool) {
    && Run(tr, acts) && i < n < |tr| && acts[i] == CallRelease(sid, recycle, destroy)
    && PhaseOf(tr[i], sid) == Borrowed(id, o)
    && forall m :: i < m <= n ==> !PhaseOf(tr[m], sid).Done?
  }

  // The release goes on with what it was called with, and its object is there.
  ghost predicate ReleaseAt(s: State, sid: Sid, id: Id, o: Obj, recycle: bool, destroy: bool) {
    && Carries(s, id, o)
    && match PhaseOf(s, sid)
       case Releasing(x, r, d) => x == id && r == recycle && d == destroy
       case RecycleWait(x, d) => recycle && x == id && d == destroy
       case RecycleErase(x, d) => recycle && x == id && d == destroy
       case RecycleDelete(x, d) => recycle && x == id && d == destroy
       case _ => false
  }

  lemma ReleaseBegins(s: State, sid: Sid, recycle: bool, destroy: bool)
    requires Inv(s) && PhaseOf(s, sid).Borrowed?
    ensures ReleaseAt(Apply(s, CallRelease(sid, recycle, destroy)), sid, PhaseOf(s, sid).id, PhaseOf(s, sid).obj, recycle, destroy)
  {
    InvParts(s);
    hide Inv;
    assert SessionOk(s, sid, s.sess[sid]);
  }

  lemma ReleaseMoves(s: State, a: Action, sid: Sid, id: Id, o: Obj, recycle: bool, destroy: bool)
    requires Inv(s) && Inv(Apply(s, a)) && ReleaseAt(s, sid, id, o, recycle, destroy) && !PhaseOf(Apply(s, a), sid).Done?
    ensures ReleaseAt(Apply(s, a), sid, id, o, recycle, destroy)
  {
    hide Inv, Apply;
    ApplyPhase(s, a, sid);
    ApplyItemChange(s, a, id);
    SessionItem(Apply(s, a), sid);
  }

  lemma {:induction false} ReleaseGoesOn(tr: seq<State>, acts: seq<Action>, i: nat, n: nat, sid: Sid, id: Id, o: Obj, recycle: bool, destroy: bool)
    requires Released(tr, acts, i, n, sid, id, o, recycle, destroy)
    ensures ReleaseAt(tr[n], sid, id, o, recycle, destroy)
    decreases n
  {
    hide Inv, Apply, ReleaseAt, Run;
    RunStep(tr, acts, n - 1);
    if n == i + 1 {
      ReleaseBegins(tr[i], sid, recycle, destroy);
    } else {
      assert Released(tr, acts, i, n - 1, sid, id, o, recycle, destroy);
      ReleaseGoesOn(tr, acts, i, n - 1, sid, id, o, recycle, destroy);
      ReleaseMoves(tr[n - 1], acts[n - 1], sid, id, o, recycle, destroy);
    }
  }

  // A release becomes the item's recycler exactly if it asked for it and nobody
  // was before; the recycler takes the item out of the index, leaving all other
  // keys, and deletes it.  The object it had borrowed is then destroyed if the
  // call said so and handed out if not.
  lemma ReleaseOutcome(tr: seq<State>, acts: seq<Action>, i: nat, n: nat, sid: Sid, id: Id, o: Obj, recycle: bool, destroy: bool)
    requires Released(tr, acts, i, n, sid, id, o, recycle, destroy) && n < |acts| && acts[n] == Step(sid)
    ensures id in tr[n].items
    ensures var s, s', ph' := tr[n], tr[n + 1], PhaseOf(tr[n + 1], sid);
            match PhaseOf(s, sid)
            case Releasing(_, _, _) =>
              ph' == if recycle && s.items[id].recycle == None then RecycleWait(id, destroy) else Done
            case RecycleWait(_, _) => ph' == if Holders(s, id) == {} then RecycleErase(id, destroy) else RecycleWait(id, destroy)
            case RecycleErase(_, _) => ph' == RecycleDelete(id, destroy) && s'.index == s.index - {s.items[id].key}
            case RecycleDelete(_, _) =>
              && ph' == Done && s'.items.Keys == s.items.Keys - {id}
              && s'.destroyed == s.destroyed + (if destroy then {o} else {})
              && s'.movedOut == s.movedOut + (if destroy then {} else {o})
            case _ => false
  {
    hide Inv, Run, Holders, ReleaseAt, SessionOk;
    RunLength(tr, acts);
    ReleaseGoesOn(tr, acts, i, n, sid, id, o, recycle, destroy);
    RunStep(tr, acts, n);
    ReleaseAtItem(tr[n], sid, id, o, recycle, destroy);
    if PhaseOf(tr[n], sid).RecycleWait? { OneRecycler(tr, acts, n, sid, sid, id); }
    ReleaseStepOutcome(tr[n], sid, id, o, recycle, destroy);
  }

  lemma ReleaseAtItem(s: State, sid: Sid, id: Id, o: Obj, recycle: bool, destroy: bool)
    requires ReleaseAt(s, sid, id, o, recycle, destroy)
    ensures id in s.items && (PhaseOf(s, sid).RecycleWait? ==> Recycles(PhaseOf(s, sid), id))
    ensures match PhaseOf(s, sid) case Releasing(_, _, _) => true case RecycleWait(_, _) => true
            case RecycleErase(_, _) => true case RecycleDelete(_, _) => true case _ => false
  {
  }

  lemma ReleaseStepOutcome(s: State, sid: Sid, id: Id, o: Obj, recycle: bool, destroy: bool)
    requires ReleaseAt(s, sid, id, o, recycle, destroy)
    ensures id in s.items
    ensures var s' := Apply(s, Step(sid));
            var ph' := PhaseOf(s', sid);
            match PhaseOf(s, sid)
            case Releasing(_, _, _) =>
              ph' == if recycle && s.items[id].recycle == None then RecycleWait(id, destroy) else Done
            case RecycleWait(_, _) => ph' == if sid in s.signaled then RecycleErase(id, destroy) else RecycleWait(id, destroy)
            case RecycleErase(_, _) => ph' == RecycleDelete(id, destroy) && s'.index == s.index - {s.items[id].key}
            case RecycleDelete(_, _) =>
              && ph' == Done && s'.items.Keys == s.items.Keys - {id}
              && s'.destroyed == s.destroyed + (if destroy then {o} else {})
              && s'.movedOut == s.movedOut + (if destroy then {} else {o})
            case _ => true
  {
    hide Without;
  }

  // ----- expiring -----------------------------------------------------------------------

  lemma ListedItem(s: State, id: Id)
    requires Inv(s) && id in s.list
    ensures id in s.items
  {
  }

  // An item that became idle at step m and stayed so expires a lifespan later.
  lemma {:induction false} IdleSince(tr: seq<State>, acts: seq<Action>, m: nat, n: nat, id: Id)
    requires Run(tr, acts) && m < n < |tr| && id in tr[m].items && id !in tr[m].list
    requires forall j :: m < j <= n ==> id in tr[j].list
    ensures id in tr[n].items && tr[n].items[id].expiration == SatAdd(tr[m].now, tr[m].lifespan)
    decreases n
  {
    hide Run, Apply, Inv;
    RunStep(tr, acts, n - 1);
    ListedItem(tr[n], id);
    if n > m + 1 {
      IdleSince(tr, acts, m, n - 1, id);
    }
    ApplyItemChange(tr[n - 1], acts[n - 1], id);
  }

  lemma InPrefix(q: seq<Id>, k: nat, id: Id)
    requires k <= |q| && id in q && id !in q[k..]
    ensures exists j :: 0 <= j < k && q[j] == id
  {
    assert q == q[..k] + q[k..];
  }

  // It is not taken out before that, unless the index is over its limit.
  lemma KeptForLifespan(tr: seq<State>, acts: seq<Action>, m: nat, n: nat, id: Id, sid: Sid)
    requires Run(tr, acts) && m < n < |acts| && id in tr[m].items && id !in tr[m].list
    requires forall j :: m < j <= n ==> id in tr[j].list
    requires acts[n] == Step(sid) && PhaseOf(tr[n], sid).Expiring? && id !in tr[n + 1].list
    ensures SatAdd(tr[m].now, tr[m].lifespan) < tr[n].now || |tr[n].index| > tr[n].limit
  {
    hide Run, Apply, Inv, Idle;
    RunLength(tr, acts);
    IdleSince(tr, acts, m, n, id);
    var k := ExpireComplete(tr, acts, n, sid, tr[n], tr[n + 1]);
    InPrefix(tr[n].list, k, id);
  }
}
