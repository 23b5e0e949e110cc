/** PyObjectReference of python/griddyn_python.cpp: a model object remembers the simulation it
    belongs to, and finds out by comparing addresses whether the runner still holds it.

    Instances have serial numbers that are never used again; addresses of freed instances are. */
module GridReferences {

  datatype Option<T> = None | Some(value: T)

  /** A reference knows the instance it shares, and the address of it. */
  datatype Ref = Ref(sim: nat, at: nat)

  /** `addr` and `count` are about live instances: address and use_count(). */
  datatype World = World(next: nat, addr: map<nat, nat>, count: map<nat, nat>, runner: Option<nat>, refs: map<nat, Ref>)

  /** The runner gets a new instance at an address, or loses the one it has; a reference is made
      from the runner, or goes away. */
  datatype Event = Replace(at: nat) | Lose | Acquire(h: nat) | Drop(h: nat)

  const START := World(0, map[], map[], None, map[])

  /** One owner less; the last one frees the instance. */
  function Release(w: World, i: nat): World
  {
    if i !in w.count then w
    else if w.count[i] > 1 then w.(count := w.count[i := w.count[i] - 1])
    else w.(addr := w.addr - {i}, count := w.count - {i})
  }

  function ReleaseRunner(w: World): World
  {
    if w.runner.None? then w else Release(w.(runner := None), w.runner.value)
  }

  function Create(w: World, at: nat): World
  {
    World(w.next + 1, w.addr[w.next := at], w.count[w.next := 1], Some(w.next), w.refs)
  }

  /** The allocator does not hand out the address of a live instance; the address of the one that
      the runner just gave up may come back at once. */
  predicate Enabled(w: World, e: Event)
  {
    match e
    case Replace(at) => at !in ReleaseRunner(w).addr.Values
    case Lose => true
    case Acquire(h) => h !in w.refs
    case Drop(h) => h in w.refs
  }

  /** With `owning` false a reference keeps the address only. */
  function Step(w: World, e: Event, owning: bool): World
    requires Enabled(w, e)
  {
    match e
    case Replace(at) => Create(ReleaseRunner(w), at)
    case Lose => ReleaseRunner(w)
    case Acquire(h) =>
      if w.runner.None? || w.runner.value !in w.count || w.runner.value !in w.addr then w else
        var i := w.runner.value;
        w.(refs := w.refs[h := Ref(i, w.addr[i])], count := if owning then w.count[i := w.count[i] + 1] else w.count)
    case Drop(h) =>
      var v := w.(refs := w.refs - {h});
      if owning then Release(v, w.refs[h].sim) else v
  }

  predicate Runs(w: World, es: seq<Event>, owning: bool)
    decreases |es|
  {
    es == [] || (Enabled(w, es[0]) && Runs(Step(w, es[0], owning), es[1..], owning))
  }

  function After(w: World, es: seq<Event>, owning: bool): World
    requires Runs(w, es, owning)
    decreases |es|
  {
    if es == [] then w else After(Step(w, es[0], owning), es[1..], owning)
  }

  /** get(): the object, or InvalidObjectError. */
  predicate GetSucceeds(w: World, h: nat)
    requires h in w.refs
  {
    w.runner.Some? && w.runner.value in w.addr && w.addr[w.runner.value] == w.refs[h].at
  }

  // ---- what every run keeps ---------------------------------------------

  function Sharing(refs: map<nat, Ref>, i: nat): set<nat>
  {
    set h | h in refs && refs[h].sim == i
  }

  function Owners(w: World, i: nat): nat
  {
    (if w.runner == Some(i) then 1 else 0) + |Sharing(w.refs, i)|
  }

  /** The counts are those of the owners. */
  ghost predicate Counted(w: World)
  {
    && (forall i: nat :: Owners(w, i) == if i in w.count then w.count[i] else 0)
    && (forall i :: i in w.count ==> w.count[i] > 0)
  }

  /** An instance is live exactly while it has owners, the count says how many, and no two live
      instances have the same address. */
  ghost predicate Inv(w: World)
  {
    && w.addr.Keys == w.count.Keys && Counted(w)
    && (forall i :: i in w.count ==> i < w.next)
    && (forall i, j :: i in w.addr && j in w.addr && w.addr[i] == w.addr[j] ==> i == j)
    && (forall h :: h in w.refs ==> w.refs[h].sim in w.addr && w.addr[w.refs[h].sim] == w.refs[h].at)
  }

  lemma SharingGrows(refs: map<nat, Ref>, h: nat, r: Ref, i: nat)
    requires h !in refs
    ensures |Sharing(refs[h := r], i)| == |Sharing(refs, i)| + if r.sim == i then 1 else 0
  {
    if r.sim == i {
      assert Sharing(refs[h := r], i) == Sharing(refs, i) + {h};
    } else {
      assert Sharing(refs[h := r], i) == Sharing(refs, i);
    }
  }

  lemma SharingShrinks(refs: map<nat, Ref>, h: nat, i: nat)
    requires h in refs
    ensures |Sharing(refs - {h}, i)| == |Sharing(refs, i)| - if refs[h].sim == i then 1 else 0
  {
    assert (refs - {h})[h := refs[h]] == refs;
    SharingGrows(refs - {h}, h, refs[h], i);
  }

  lemma CreateKeeps(w: World, at: nat)
    requires Inv(w) && w.runner.None? && at !in w.addr.Values
    ensures Inv(Create(w, at))
  {
    hide Sharing;
    var v := Create(w, at);
    forall i: nat
      ensures Owners(v, i) == if i in v.count then v.count[i] else 0
    {
      assert Owners(w, i) == if i in w.count then w.count[i] else 0;
    }
  }

  lemma ReleaseKeeps(w: World)
    requires Inv(w)
    ensures Inv(ReleaseRunner(w)) && ReleaseRunner(w).runner.None?
  {
    if w.runner.Some? {
      ReleaseCounts(w);
      Placed(w, ReleaseRunner(w));
    }
  }

  lemma ReleaseCounts(w: World)
    requires Counted(w) && w.runner.Some?
    ensures Counted(ReleaseRunner(w))
  {
    var v := ReleaseRunner(w);
    assert Owners(w, w.runner.value) > 0;
    forall i: nat
      ensures Owners(v, i) == if i in v.count then v.count[i] else 0
    {
      assert Owners(w, i) == if i in w.count then w.count[i] else 0;
    }
  }

  /** What has a reference is still live after something was released. */
  lemma Placed(w: World, v: World)
    requires Inv(w) && Counted(v) && v.count.Keys == v.addr.Keys && v.addr.Items <= w.addr.Items
             && v.refs.Items <= w.refs.Items
    ensures forall h :: h in v.refs ==> v.refs[h].sim in v.addr && v.addr[v.refs[h].sim] == v.refs[h].at
    ensures forall i, j :: i in v.addr && j in v.addr && v.addr[i] == v.addr[j] ==> i == j
  {
    assert forall h :: h in v.refs ==> (h, v.refs[h]) in v.refs.Items;
    assert forall i :: i in v.addr ==> (i, v.addr[i]) in v.addr.Items;
    forall g | g in v.refs
      ensures v.refs[g].sim in v.addr && v.addr[v.refs[g].sim] == v.refs[g].at
    {
      assert g in Sharing(v.refs, v.refs[g].sim);
      assert Owners(v, v.refs[g].sim) > 0;
    }
  }

  lemma AcquireKeeps(w: World, h: nat)
    requires Inv(w) && h !in w.refs
    ensures Inv(Step(w, Acquire(h), true))
  {
    var v := Step(w, Acquire(h), true);
    if w.runner.Some? {
      assert Owners(w, w.runner.value) > 0;
      forall i: nat
        ensures Owners(v, i) == if i in v.count then v.count[i] else 0
      {
        assert Owners(w, i) == if i in w.count then w.count[i] else 0;
        SharingGrows(w.refs, h, Ref(w.runner.value, w.addr[w.runner.value]), i);
      }
    }
  }

  lemma DropKeeps(w: World, h: nat)
    requires Inv(w) && h in w.refs
    ensures Inv(Step(w, Drop(h), true))
  {
    DropCounts(w, h);
    Placed(w, Step(w, Drop(h), true));
  }

  lemma DropCounts(w: World, h: nat)
    requires Counted(w) && h in w.refs
    ensures Counted(Step(w, Drop(h), true))
  {
    var v := Step(w, Drop(h), true);
    forall i: nat
      ensures Owners(v, i) == if i in v.count then v.count[i] else 0
    {
      assert Owners(w, i) == if i in w.count then w.count[i] else 0;
      SharingShrinks(w.refs, h, i);
    }
  }

  lemma StepKeeps(w: World, e: Event)
    requires Inv(w) && Enabled(w, e)
    ensures Inv(Step(w, e, true))
  {
    match e
    case Replace(at) =>
      ReleaseKeeps(w);
      CreateKeeps(ReleaseRunner(w), at);
    case Lose => ReleaseKeeps(w);
    case Acquire(h) => AcquireKeeps(w, h);
    case Drop(h) => DropKeeps(w, h);
  }

  lemma {:induction false} RunKeeps(w: World, es: seq<Event>)
    requires Inv(w) && Runs(w, es, true)
    ensures Inv(After(w, es, true))
    decreases |es|
  {
    if es != [] {
      StepKeeps(w, es[0]);
      RunKeeps(Step(w, es[0], true), es[1..]);
    }
  }

  /** What a reference shares never changes. */
  lemma {:induction false} RefStays(w: World, es: seq<Event>, h: nat)
    requires Inv(w) && Runs(w, es, true) && h in w.refs && Drop(h) !in es
    ensures h in After(w, es, true).refs && After(w, es, true).refs[h] == w.refs[h]
    decreases |es|
  {
    hide Inv;
    if es != [] {
      StepKeeps(w, es[0]);
      RefStays(Step(w, es[0], true), es[1..], h);
    }
  }

  /** Comparing addresses is as good as comparing identities: for a reference that is acquired
      somewhere in a run, get() succeeds later exactly when the runner holds the instance that it
      held then.  So a replaced simulation is noticed even when nothing but its address differs. */
  lemma GetIsIdentity(before: seq<Event>, h: nat, later: seq<Event>)
    requires Runs(START, before, true) && After(START, before, true).runner.Some?
             && h !in After(START, before, true).refs
    requires Runs(Step(After(START, before, true), Acquire(h), true), later, true) && Drop(h) !in later
    ensures var w := After(START, before, true); var v := After(Step(w, Acquire(h), true), later, true);
      h in v.refs && (GetSucceeds(v, h) <==> v.runner == w.runner)
  {
    StartKeeps();
    RunKeeps(START, before);
    var w := After(START, before, true);
    StepKeeps(w, Acquire(h));
    assert Owners(w, w.runner.value) > 0;
    var u := Step(w, Acquire(h), true);
    assert h in u.refs && u.refs[h].sim == w.runner.value;
    RunKeeps(u, later);
    RefStays(u, later, h);
    var v := After(u, later, true);
    if v.runner.Some? {
      assert Owners(v, v.runner.value) > 0;
    }
  }

  /** A run without Replace and Lose keeps the runner's instance; any other one ends with none or with an
      instance that was not there before. */
  lemma {:induction false} RunnerMoves(w: World, es: seq<Event>)
    requires Inv(w) && Runs(w, es, true)
    ensures var v := After(w, es, true);
      && v.next >= w.next
      && if forall e :: e in es ==> e.Acquire? || e.Drop? then v.runner == w.runner
         else v.runner.None? || v.runner.value >= w.next
    decreases |es|
  {
    if es != [] {
      StepKeeps(w, es[0]);
      StepMoves(w, es[0]);
      RunnerMoves(Step(w, es[0], true), es[1..]);
      hide Inv, Step;
      assert forall e :: e in es <==> e == es[0] || e in es[1..];
    }
  }

  lemma StepMoves(w: World, e: Event)
    requires Inv(w) && Enabled(w, e)
    ensures var v := Step(w, e, true);
      && v.next >= w.next
      && if e.Acquire? || e.Drop? then v.runner == w.runner else v.runner.None? || v.runner.value == w.next < v.next
  {
  }

  /** So get() succeeds exactly until the runner loses its instance or gets a new one, wherever that
      one is put. */
  lemma GetUntilReplaced(before: seq<Event>, h: nat, later: seq<Event>)
    requires Runs(START, before, true) && After(START, before, true).runner.Some?
             && h !in After(START, before, true).refs
    requires Runs(Step(After(START, before, true), Acquire(h), true), later, true) && Drop(h) !in later
    ensures var v := After(Step(After(START, before, true), Acquire(h), true), later, true);
      h in v.refs && (GetSucceeds(v, h) <==> forall e :: e in later ==> e.Acquire? || e.Drop?)
  {
    GetIsIdentity(before, h, later);
    StartKeeps();
    RunKeeps(START, before);
    var w := After(START, before, true);
    StepKeeps(w, Acquire(h));
    RunnerMoves(Step(w, Acquire(h), true), later);
    assert Owners(w, w.runner.value) > 0;
  }

  lemma StartKeeps()
    ensures Inv(START)
  {
    assert forall i: nat :: Sharing(START.refs, i) == {};
  }

  /** It is the sharing that makes this so: if references kept the address only, the address of
      the freed instance could come back and get() would take the new one for the old. */
  lemma AddressAloneIsFooled(a: nat)
    ensures var es := [Replace(a), Acquire(0), Replace(a)];
      Runs(START, es, false)
      && var v := After(START, es, false);
         0 in v.refs && GetSucceeds(v, 0) && v.runner != Some(v.refs[0].sim)
  {
    var es := [Replace(a), Acquire(0), Replace(a)];
    var w1 := Step(START, es[0], false);
    assert w1.addr == map[0 := a] && w1.count == map[0 := 1] && w1.runner == Some(0);
    var w2 := Step(w1, es[1], false);
    assert ReleaseRunner(w2).addr == map[];
    var w3 := Step(w2, es[2], false);
    assert es[1..] == [Acquire(0), Replace(a)] && es[1..][1..] == [Replace(a)] && es[1..][1..][1..] == [];
    assert Runs(w3, [], false) && After(w3, [], false) == w3;
    assert Runs(w2, [Replace(a)], false) && After(w2, [Replace(a)], false) == w3;
    assert Runs(w1, es[1..], false) && After(w1, es[1..], false) == w3;
  }
}
