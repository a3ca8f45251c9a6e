/** The callback register as a value: what registering and unregistering do, and what a whole history leaves. */
module Registry {
  import opened Words

  /** A callback, identified by a number. */
  type Callback = nat

  /** The register's maps are keyed by ids of a 32-bit size_t. */
  type Id = U32

  /**
   * `attached` is the state of the GPIO driver's callback; `faults` counts the driver calls that are wrong:
   * adding the callback while it is attached, removing it while it is not.
   */
  datatype RegisterState = RegisterState(next: Id, callbacks: map<Id, Callback>, attached: bool, faults: nat)

  const EMPTY := RegisterState(0, map[], false, 0)

  /** `std::map::insert` keeps an entry that is already there. */
  function Insert<V>(m: map<Id, V>, id: Id, v: V): map<Id, V> {
    if id in m then m else m[id := v]
  }

  function Attach(r: RegisterState): RegisterState {
    r.(attached := true, faults := if r.attached then r.faults + 1 else r.faults)
  }

  function Detach(r: RegisterState): RegisterState {
    r.(attached := false, faults := if r.attached then r.faults else r.faults + 1)
  }

  /** `add_callback`: the driver is attached when there is no callback yet; then the next id is handed out. */
  function Register(r: RegisterState, cb: Callback): RegisterState {
    var ready := if r.callbacks == map[] then Attach(r) else r;
    ready.(next := Add32(r.next, 1), callbacks := Insert(r.callbacks, r.next, cb))
  }

  /** The driver is detached whenever no callback is left, were there any before or not. */
  function Unregister(r: RegisterState, id: Id): RegisterState {
    var rest := r.(callbacks := r.callbacks - {id});
    if rest.callbacks == map[] then Detach(rest) else rest
  }

  function UnregisterAll(r: RegisterState): RegisterState {
    var rest := r.(callbacks := map[]);
    if r.callbacks != map[] then Detach(rest) else rest
  }

  /** The driver is attached exactly while there are callbacks. */
  ghost predicate Consistent(r: RegisterState) {
    r.attached <==> r.callbacks != map[]
  }

  /** Ids were handed out in increasing order. */
  ghost predicate Increasing(r: RegisterState) {
    forall id :: id in r.callbacks ==> id < r.next
  }

  // ----- Ascending iteration -----

  lemma {:induction false} LeastExists(keys: set<Id>)
    requires keys != {}
    ensures exists k :: IsLeast(keys, k)
  {
    var k :| k in keys;
    if keys != {k} {
      LeastExists(keys - {k});
      var m :| IsLeast(keys - {k}, m);
      assert forall j :: j in keys ==> j == k || j in keys - {k};
      if k < m {
        assert IsLeast(keys, k);
      } else {
        assert IsLeast(keys, m);
      }
    } else {
      assert IsLeast(keys, k);
    }
  }

  predicate IsLeast(keys: set<Id>, k: Id) {
    k in keys && forall j :: j in keys ==> k <= j
  }

  ghost function Least(keys: set<Id>): (k: Id)
    requires keys != {}
    ensures IsLeast(keys, k)
  {
    LeastExists(keys);
    var k :| IsLeast(keys, k);
    k
  }

  lemma LeastIs(keys: set<Id>, k: Id)
    requires IsLeast(keys, k)
    ensures keys != {} && Least(keys) == k
  {
  }

  lemma WithoutKey(m: map<Id, Callback>, k: Id)
    requires k in m
    ensures (m - {k}).Keys == m.Keys - {k} && |m - {k}| == |m| - 1
  {
    assert (m - {k}).Keys == m.Keys - {k};
    KeysCount(m);
    KeysCount(m - {k});
  }

  /** The entries of a map in ascending order of their ids. */
  ghost function InOrder(m: map<Id, Callback>): (entries: seq<(Id, Callback)>)
    decreases |m|
  {
    if m == map[] then []
    else
      var k := Least(m.Keys);
      WithoutKey(m, k);
      [(k, m[k])] + InOrder(m - {k})
  }

  lemma KeysCount(m: map<Id, Callback>)
    ensures |m| == |m.Keys|
  {
  }

  /** A new largest id comes last. */
  lemma {:induction false} InOrderInsert(m: map<Id, Callback>, id: Id, cb: Callback)
    requires forall k :: k in m ==> k < id
    ensures InOrder(m[id := cb]) == InOrder(m) + [(id, cb)]
    decreases |m|
  {
    var n := m[id := cb];
    assert id in n;
    if m == map[] {
      LeastIs(n.Keys, id);
      assert n - {id} == map[];
    } else {
      var k := Least(m.Keys);
      LeastIs(n.Keys, k);
      assert n - {k} == (m - {k})[id := cb];
      WithoutKey(m, k);
      InOrderInsert(m - {k}, id, cb);
    }
  }

  function Without(entries: seq<(Id, Callback)>, id: Id): seq<(Id, Callback)> {
    if entries == [] then []
    else if entries[0].0 == id then Without(entries[1..], id)
    else [entries[0]] + Without(entries[1..], id)
  }

  /** Removing an id removes its entry and keeps the order of the others. */
  lemma {:induction false} InOrderRemove(m: map<Id, Callback>, id: Id)
    ensures InOrder(m - {id}) == Without(InOrder(m), id)
    decreases |m|
  {
    if m == map[] {
      assert m - {id} == map[];
    } else {
      var k := Least(m.Keys);
      var rest := m - {k};
      WithoutKey(m, k);
      InOrderRemove(rest, id);
      assert InOrder(m) == [(k, m[k])] + InOrder(rest);
      assert InOrder(m)[1..] == InOrder(rest);
      RemoveBoth(m, k, id);
      if k != id {
        LeastIs((m - {id}).Keys, k);
      }
    }
  }

  lemma RemoveBoth(m: map<Id, Callback>, k: Id, id: Id)
    requires k in m
    ensures k == id ==> (m - {k}) - {id} == m - {id}
    ensures k != id ==> k in m - {id} && (m - {id}) - {k} == (m - {k}) - {id} && (m - {id})[k] == m[k]
  {
  }

  // ----- Histories -----

  datatype Op = Add(cb: Callback) | Drop(id: Id) | Clear

  function Apply(r: RegisterState, op: Op): RegisterState {
    match op
    case Add(cb) => Register(r, cb)
    case Drop(id) => Unregister(r, id)
    case Clear => UnregisterAll(r)
  }

  function After(history: seq<Op>): RegisterState {
    if history == [] then EMPTY
    else Apply(After(history[..|history| - 1]), history[|history| - 1])
  }

  function Adds(history: seq<Op>): (n: nat)
    ensures n <= |history|
  {
    if history == [] then 0
    else Adds(history[..|history| - 1]) + (if history[|history| - 1].Add? then 1 else 0)
  }

  /** The entries a history leaves, without any maps: additions at the end, removals in place. */
  function Live(history: seq<Op>): seq<(Id, Callback)>
    requires Adds(history) < U32_MOD
  {
    if history == [] then []
    else
      var before := history[..|history| - 1];
      match history[|history| - 1]
      case Add(cb) => Live(before) + [(Adds(before), cb)]
      case Drop(id) => Without(Live(before), id)
      case Clear => []
  }

  /** Registering keeps the driver in step with the map, wrapped ids or not, and never misuses the driver. */
  lemma RegisterConsistent(r: RegisterState, cb: Callback)
    requires Consistent(r)
    ensures Consistent(Register(r, cb)) && Register(r, cb).faults == r.faults
    ensures Increasing(r) && r.next + 1 < U32_MOD ==>
              Increasing(Register(r, cb)) && Register(r, cb).callbacks == r.callbacks[r.next := cb]
              && Register(r, cb).next == r.next + 1
  {
    assert r.next in Register(r, cb).callbacks;
  }

  /** Dropping an entry keeps the driver in step with the map; the only wrong call is made on an empty register. */
  lemma UnregisterConsistent(r: RegisterState, id: Id)
    requires Consistent(r)
    ensures Consistent(Unregister(r, id)) && Unregister(r, id).next == r.next
    ensures Increasing(r) ==> Increasing(Unregister(r, id))
    ensures Unregister(r, id).faults == if r.callbacks == map[] then r.faults + 1 else r.faults
  {
    var rest := r.callbacks - {id};
    if rest != map[] {
      var k :| k in rest;
      assert k in r.callbacks;
    }
  }

  /** After any history at all, the driver is attached exactly while there are callbacks. */
  lemma {:induction false} AlwaysConsistent(history: seq<Op>)
    ensures Consistent(After(history))
  {
    if history != [] {
      var before := history[..|history| - 1];
      AlwaysConsistent(before);
      match history[|history| - 1]
      case Add(cb) => RegisterConsistent(After(before), cb);
      case Drop(id) => UnregisterConsistent(After(before), id);
      case Clear =>
    }
  }

  /** How many removals of a history were asked of an empty register. */
  function EmptyDrops(history: seq<Op>): nat
    requires Adds(history) < U32_MOD
  {
    if history == [] then 0
    else
      var before := history[..|history| - 1];
      EmptyDrops(before) + (if history[|history| - 1].Drop? && Live(before) == [] then 1 else 0)
  }

  /** While ids do not wrap, the register holds the live entries in order, and the driver follows them. */
  lemma {:induction false} AfterHistory(history: seq<Op>)
    requires Adds(history) < U32_MOD
    ensures Consistent(After(history)) && Increasing(After(history)) && After(history).next == Adds(history)
    ensures InOrder(After(history).callbacks) == Live(history)
    ensures After(history).attached <==> Live(history) != []
    ensures After(history).faults == EmptyDrops(history)
  {
    if history != [] {
      var before := history[..|history| - 1];
      AfterHistory(before);
      var r := After(before);
      match history[|history| - 1]
      case Add(cb) =>
        RegisterConsistent(r, cb);
        InOrderInsert(r.callbacks, r.next, cb);
      case Drop(id) =>
        UnregisterConsistent(r, id);
        InOrderRemove(r.callbacks, id);
      case Clear =>
    }
  }

  /** Entry `j` of a history is the registration of `cb` under `id`, and nothing after it removes it. */
  ghost predicate StillRegistered(history: seq<Op>, j: nat, id: Id, cb: Callback) {
    && j < |history| && history[j] == Add(cb) && Adds(history[..j]) == id
    && forall k :: j < k < |history| ==> history[k] != Drop(id) && history[k] != Clear
  }

  ghost predicate Ascending(entries: seq<(Id, Callback)>) {
    forall i, j :: 0 <= i < j < |entries| ==> entries[i].0 < entries[j].0
  }

  lemma {:induction false} WithoutMembers(entries: seq<(Id, Callback)>, id: Id)
    ensures forall e :: e in Without(entries, id) <==> e in entries && e.0 != id
    ensures Ascending(entries) ==> Ascending(Without(entries, id))
  {
    if entries != [] {
      WithoutMembers(entries[1..], id);
      if Ascending(entries) {
        assert Ascending(entries[1..]);
        assert forall e :: e in Without(entries[1..], id) ==> e in entries[1..];
        assert forall e :: e in entries[1..] ==> entries[0].0 < e.0;
      }
    }
  }

  /**
   * What executing the callbacks runs: exactly the callbacks registered and not removed since, each once,
   * in the order of their registration.
   */
  lemma {:induction false} LiveIsStillRegistered(history: seq<Op>)
    requires Adds(history) < U32_MOD
    ensures Ascending(Live(history)) && forall e :: e in Live(history) ==> e.0 < Adds(history)
    ensures forall id: Id, cb: Callback ::
              (id, cb) in Live(history) <==> exists j: nat :: StillRegistered(history, j, id, cb)
  {
    if history != [] {
      var before, op := history[..|history| - 1], history[|history| - 1];
      LiveIsStillRegistered(before);
      if op.Drop? {
        WithoutMembers(Live(before), op.id);
      }
      forall id: Id, cb: Callback
        ensures (id, cb) in Live(history) <==> exists j: nat :: StillRegistered(history, j, id, cb) {
        StillRegisteredStep(history, id, cb);
      }
    }
  }

  lemma StillRegisteredStep(history: seq<Op>, id: Id, cb: Callback)
    requires history != [] && Adds(history) < U32_MOD
    ensures var before, op := history[..|history| - 1], history[|history| - 1];
            (exists j: nat :: StillRegistered(history, j, id, cb)) <==>
              (op == Add(cb) && Adds(before) == id)
              || (op != Drop(id) && op != Clear && exists j: nat :: StillRegistered(before, j, id, cb))
  {
    var n := |history| - 1;
    var before, op := history[..n], history[n];
    if op == Add(cb) && Adds(before) == id {
      assert StillRegistered(history, n, id, cb);
    }
    if exists j: nat :: StillRegistered(history, j, id, cb) {
      var j: nat :| StillRegistered(history, j, id, cb);
      if j < n {
        assert before[..j] == history[..j];
        assert StillRegistered(before, j, id, cb);
      }
    }
    if op != Drop(id) && op != Clear && exists j: nat :: StillRegistered(before, j, id, cb) {
      var j: nat :| StillRegistered(before, j, id, cb);
      assert before[..j] == history[..j];
      assert StillRegistered(history, j, id, cb);
    }
  }

  /** Registering while the next id is in use loses the callback; in any other state it adds an entry. */
  lemma WrappedRegistrationIsLost(r: RegisterState, cb: Callback)
    ensures r.next in r.callbacks <==> Register(r, cb).callbacks.Keys == r.callbacks.Keys
    ensures r.next in r.callbacks ==> Register(r, cb).callbacks == r.callbacks
  {
    if r.next !in r.callbacks {
      assert r.next in Register(r, cb).callbacks.Keys;
    }
  }

  /** One callback that stays, and `n` that are registered and removed again. */
  function Churn(n: nat): seq<Op>
    requires n < U32_MOD
  {
    if n == 0 then [Add(7)] else Churn(n - 1) + [Add(8), Drop(n)]
  }

  lemma AfterExtend(history: seq<Op>, op: Op)
    ensures After(history + [op]) == Apply(After(history), op)
  {
    assert (history + [op])[..|history|] == history;
  }

  lemma AfterFirst()
    ensures After(Churn(0)) == RegisterState(1, map[0 := 7], true, 0)
  {
    assert Churn(0)[..0] == [];
    assert After(Churn(0)) == Register(EMPTY, 7);
  }

  lemma {:induction false} AfterChurn(n: nat)
    requires n < U32_MOD
    ensures After(Churn(n)) == RegisterState((n + 1) % U32_MOD, map[0 := 7], true, 0)
  {
    hide After, Register, Unregister;
    if n == 0 {
      AfterFirst();
    } else {
      AfterChurn(n - 1);
      assert Churn(n) == Churn(n - 1) + [Add(8)] + [Drop(n)];
      AfterExtend(Churn(n - 1), Add(8));
      AfterExtend(Churn(n - 1) + [Add(8)], Drop(n));
      ChurnStep(n);
    }
  }

  lemma ChurnStep(n: nat)
    requires 0 < n < U32_MOD
    ensures Unregister(Register(RegisterState(n, map[0 := 7], true, 0), 8), n)
            == RegisterState((n + 1) % U32_MOD, map[0 := 7], true, 0)
  {
    var one := map[0 := 7];
    var added := Register(RegisterState(n, one, true, 0), 8);
    assert 0 in one;
    assert added.callbacks - {n} == one;
  }

  /** A long enough history reaches a register whose next id is in use. */
  lemma NextIdCanBeInUse()
    ensures exists history :: After(history).next in After(history).callbacks
  {
    AfterChurn(U32_MOD - 1);
  }

  // ----- Histories that only remove what is registered -----

  /** Every single removal was asked of a registered id. */
  ghost predicate Proper(history: seq<Op>) {
    forall k :: 0 <= k < |history| && history[k].Drop? ==> history[k].id in After(history[..k]).callbacks
  }

  lemma ProperExtend(history: seq<Op>, op: Op)
    requires Proper(history) && (op.Drop? ==> op.id in After(history).callbacks)
    ensures Proper(history + [op]) && After(history + [op]) == Apply(After(history), op)
  {
    var longer := history + [op];
    AfterExtend(history, op);
    forall k | 0 <= k < |longer| && longer[k].Drop? ensures longer[k].id in After(longer[..k]).callbacks {
      if k < |history| {
        assert longer[..k] == history[..k];
      }
    }
  }

  /** Such a history never misuses the driver. */
  lemma {:induction false} ProperIsFaultless(history: seq<Op>)
    requires Proper(history)
    ensures After(history).faults == 0
  {
    if history != [] {
      var n := |history| - 1;
      var before := history[..n];
      assert forall k :: 0 <= k < n ==> before[..k] == history[..k];
      ProperIsFaultless(before);
      AlwaysConsistent(before);
    }
  }

  lemma {:induction false} AddsMonotone(history: seq<Op>, k: nat)
    requires k <= |history|
    ensures Adds(history[..k]) <= Adds(history)
    decreases |history|
  {
    if k < |history| {
      var before := history[..|history| - 1];
      AddsMonotone(before, k);
      assert before[..k] == history[..k];
    } else {
      assert history[..k] == history;
    }
  }

  /** An id that was handed out and removed does not come back. */
  lemma {:induction false} GoneForGood(history: seq<Op>, j: nat, id: Id)
    requires Adds(history) < U32_MOD && j < |history| && history[j] == Drop(id) && id < Adds(history[..j])
    ensures id !in After(history).callbacks
    decreases |history|
  {
    var n := |history| - 1;
    var before := history[..n];
    AfterHistory(before);
    AddsMonotone(before, j);
    assert before[..j] == history[..j];
    if j < n {
      GoneForGood(before, j, id);
    }
  }

  /** While ids do not wrap, no registration is removed twice. */
  lemma DroppedOnce(history: seq<Op>, j: nat, k: nat)
    requires Proper(history) && Adds(history) < U32_MOD && j < k < |history| && history[j].Drop? && history[k].Drop?
    ensures history[j].id != history[k].id
  {
    AddsMonotone(history, j);
    AddsMonotone(history, k);
    AfterHistory(history[..j]);
    if history[j].id == history[k].id {
      var before := history[..k];
      assert before[..j] == history[..j];
      GoneForGood(before, j, history[j].id);
    }
  }

  lemma {:induction false} InOrderMembers(m: map<Id, Callback>)
    ensures forall id: Id, cb: Callback :: (id, cb) in InOrder(m) <==> id in m && m[id] == cb
    decreases |m|
  {
    if m != map[] {
      var k := Least(m.Keys);
      WithoutKey(m, k);
      InOrderMembers(m - {k});
    }
  }

  /** The ids in use are those of the registrations that nothing has removed. */
  lemma UsedIsStillRegistered(history: seq<Op>, id: Id)
    requires Adds(history) < U32_MOD
    ensures id in After(history).callbacks <==> exists j: nat, cb: Callback :: StillRegistered(history, j, id, cb)
  {
    AfterHistory(history);
    LiveIsStillRegistered(history);
    InOrderMembers(After(history).callbacks);
    if id in After(history).callbacks {
      assert (id, After(history).callbacks[id]) in Live(history);
    }
    if exists j: nat, cb: Callback :: StillRegistered(history, j, id, cb) {
      var j: nat, cb: Callback :| StillRegistered(history, j, id, cb);
      assert (id, cb) in Live(history);
    }
  }
}
