/**
 * InterruptIn with its embedded callback register, and the move-only tokens that own the registrations.
 * A Scope is the set of inputs and tokens whose lifetime has begun and not ended.
 */
module Tokens {
  import opened Words
  import opened Options
  import opened Registry

  /** The pressed polarity of a pin. */
  const POLARITY_PRESSED := true

  /** A node of the register's `_registrations` map; tokens point to it. */
  class RegistrationRecord {
    const owner: InterruptIn
    const id: Id

    constructor (owner: InterruptIn, id: Id)
      ensures this.owner == owner && this.id == id
    {
      this.owner, this.id := owner, id;
    }

    ghost predicate Live()
      reads owner
    {
      id in owner.registrations && owner.registrations[id] == this
    }
  }

  class Scope {
    ghost var inputs: set<InterruptIn>
    ghost var tokens: set<RegistrationToken>

    /** Tokens that are not null and live records are in bijection, and every register is consistent. */
    ghost predicate Valid()
      reads this, inputs, tokens
    {
      InputsValid() && TokensLive() && TokensApart() && RecordsHeld()
    }

    ghost predicate InputsValid()
      reads this, inputs
    {
      forall i :: i in inputs ==> i.Valid()
    }

    ghost predicate TokensLive()
      reads this, inputs, tokens
    {
      forall t :: t in tokens && t.record != null ==> t.record.owner in inputs && t.record.Live()
    }

    ghost predicate TokensApart()
      reads this, tokens
    {
      forall t, u :: t in tokens && u in tokens && t != u && t.record != null ==> t.record != u.record
    }

    ghost predicate RecordsHeld()
      reads this, inputs, tokens
    {
      forall i, id :: i in inputs && id in i.registrations ==> Held(i.registrations[id])
    }

    ghost predicate Held(r: RegistrationRecord)
      reads this, tokens
    {
      exists t :: t in tokens && t.record == r
    }

    /** The token that owns a registration. */
    ghost function Holder(i: InterruptIn, id: Id): (t: RegistrationToken)
      requires Valid() && i in inputs && id in i.registrations
      reads this, inputs, tokens
      ensures t in tokens && t.record == i.registrations[id]
    {
      assert Held(i.registrations[id]);
      var t :| t in tokens && t.record == i.registrations[id];
      t
    }

    /** Two tokens must not own one registration. */
    lemma TwoHolders(t: RegistrationToken, u: RegistrationToken)
      requires t in tokens && u in tokens && t != u && t.record != null && t.record == u.record
      ensures !Valid()
    {
    }

    /** A token must not own a registration of an input that is gone. */
    lemma StrayToken(t: RegistrationToken)
      requires t in tokens && t.record != null && t.record.owner !in inputs
      ensures !Valid()
    {
    }

    constructor ()
      ensures Valid() && inputs == {} && tokens == {}
    {
      inputs, tokens := {}, {};
    }

    /** One input handed out a new registration, held by a new token; nothing else changed. */
    twostate lemma AfterAdd(i: InterruptIn, new token: RegistrationToken, new record: RegistrationRecord)
      requires old(Valid()) && i in inputs && inputs == old(inputs)
      requires tokens == old(tokens) + {token} && token !in old(tokens) && token.record == record
      requires i.Valid() && record.owner == i && record.id !in old(i.registrations)
      requires i.registrations == old(i.registrations)[record.id := record]
      requires forall t :: t in old(tokens) ==> t.record == old(t.record)
      requires forall j :: j in inputs && j != i ==> unchanged(j)
      ensures Valid()
    {
      OldTokensApart(i, record);
      forall j, id | j in inputs && id in j.registrations ensures Held(j.registrations[id]) {
        if j.registrations[id] != record {
          var t :| t in old(tokens) && old(t.record) == old(j.registrations)[id];
          assert t in tokens;
        }
      }
    }

    twostate lemma OldTokensApart(i: InterruptIn, new record: RegistrationRecord)
      requires old(TokensLive()) && i in old(inputs) && inputs == old(inputs) && record.owner == i
      requires record.id !in old(i.registrations) && i.registrations == old(i.registrations)[record.id := record]
      requires forall t :: t in old(tokens) ==> t.record == old(t.record)
      requires forall j :: j in inputs && j != i ==> j.registrations == old(j.registrations)
      ensures forall t :: t in old(tokens) && t.record != null ==>
                t.record.owner in inputs && t.record.Live() && t.record != record
    {
      forall t | t in old(tokens) && t.record != null ensures t.record.owner in inputs && t.record.Live()
          && t.record != record {
        assert old(t.record.Live());
      }
    }

    /** An input's life began with an empty register. */
    twostate lemma AfterNewInput(new i: InterruptIn)
      requires old(Valid()) && inputs == old(inputs) + {i} && tokens == old(tokens)
      requires i.Valid() && i.registrations == map[]
      requires forall t :: t in tokens ==> t.record == old(t.record)
      requires forall j :: j in old(inputs) ==> unchanged(j)
      ensures Valid()
    {
      forall j, id | j in inputs && id in j.registrations ensures Held(j.registrations[id]) {
        assert j in old(inputs);
        var t :| t in old(tokens) && old(t.record) == old(j.registrations)[id];
        assert t in tokens;
      }
    }

    /** An input's life ended when no token held a registration of it. */
    twostate lemma AfterInputEnd(i: InterruptIn)
      requires old(Valid()) && inputs == old(inputs) - {i} && tokens == old(tokens)
      requires forall t :: t in tokens && t.record != null ==> t.record.owner != i
      requires forall t :: t in tokens ==> t.record == old(t.record)
      requires forall j :: j in inputs ==> unchanged(j)
      ensures Valid()
    {
      forall j, id | j in inputs && id in j.registrations ensures Held(j.registrations[id]) {
        var t :| t in old(tokens) && old(t.record) == old(j.registrations)[id];
        assert t in tokens;
      }
    }

    /** A token that owns nothing was added; nothing else changed. */
    twostate lemma AfterNull(new token: RegistrationToken)
      requires old(Valid()) && inputs == old(inputs) && tokens == old(tokens) + {token} && token.record == null
      requires forall t :: t in old(tokens) ==> t.record == old(t.record)
      requires forall j :: j in inputs ==> unchanged(j)
      ensures Valid()
    {
      forall j, id | j in inputs && id in j.registrations ensures Held(j.registrations[id]) {
        var t :| t in old(tokens) && old(t.record) == old(j.registrations)[id];
        assert t in tokens;
      }
    }

    /** The life of a token that owns nothing begins. */
    ghost method Enter(token: RegistrationToken)
      requires Valid() && token.record == null
      modifies this
      ensures Valid() && tokens == old(tokens) + {token} && inputs == old(inputs)
    {
      tokens := tokens + {token};
      AfterNull(token);
    }

    /** A token ended its registration; nothing else changed. */
    twostate lemma AfterReset(token: RegistrationToken)
      requires old(Valid()) && inputs == old(inputs) && tokens == old(tokens) && token in tokens
      requires old(token.record) != null && token.record == null
      requires forall t :: t in tokens && t != token ==> t.record == old(t.record)
      requires var r := old(token.record);
               && r.owner.Valid() && r.owner.registrations == old(r.owner.registrations) - {r.id}
               && (forall j :: j in inputs && j != r.owner ==>
                   unchanged(j))
      ensures Valid()
    {
      var r := old(token.record);
      forall t | t in tokens && t.record != null ensures t.record.owner in inputs && t.record.Live() {
        assert t != token && t.record != r;
      }
      forall j, id | j in inputs && id in j.registrations ensures Held(j.registrations[id]) {
        var t :| t in old(tokens) && old(t.record) == old(j.registrations)[id];
        assert t in tokens && t != token;
      }
    }

    /** A token that owned nothing ended. */
    twostate lemma AfterEnd(token: RegistrationToken)
      requires old(Valid()) && inputs == old(inputs) && tokens == old(tokens) - {token} && old(token.record) == null
      requires forall t :: t in tokens ==> t.record == old(t.record)
      requires forall j :: j in inputs ==> unchanged(j)
      ensures Valid()
    {
      forall j, id | j in inputs && id in j.registrations ensures Held(j.registrations[id]) {
        var t :| t in old(tokens) && old(t.record) == old(j.registrations)[id];
        assert t in tokens;
      }
    }
  }

  class InterruptIn {
    const pin: nat
    var uniqueId: Id
    var callbacks: map<Id, Callback>
    var registrations: map<Id, RegistrationRecord>
    var attached: bool             // the GPIO driver holds this input's callback
    var calls: seq<Callback>       // callbacks executed so far
    ghost var misuses: nat         // wrong calls to the GPIO driver so far
    ghost var history: seq<Op>     // what the register was asked to do so far

    /**
     * The register is what its history makes it, and that history only removed what was registered; both maps
     * have the same keys, each record carries its key and owner, and the driver follows the maps.
     */
    ghost predicate Valid()
      reads this
    {
      && callbacks.Keys == registrations.Keys
      && (forall id :: id in registrations ==> registrations[id].id == id && registrations[id].owner == this)
      && Consistent(Abs())
      && Abs() == After(history) && Proper(history) && misuses == 0
    }

    ghost function Abs(): RegisterState
      reads this
    {
      RegisterState(uniqueId, callbacks, attached, misuses)
    }

    constructor (ghost scope: Scope, pin: nat)
      requires scope.Valid()
      modifies scope
      ensures Abs() == EMPTY && calls == [] && history == [] && this.pin == pin
      ensures scope.Valid() && scope.inputs == old(scope.inputs) + {this} && scope.tokens == old(scope.tokens)
    {
      this.pin := pin;
      uniqueId, callbacks, registrations, attached, calls, misuses, history := 0, map[], map[], false, [], 0, [];
      new;
      scope.inputs := scope.inputs + {this};
      scope.AfterNewInput(this);
    }

    predicate HasCallbacks()
      reads this
      ensures HasCallbacks() <==> Abs().callbacks != map[]
    {
      callbacks != map[]
    }

    /** Adding the driver's callback while it holds it is a misuse. */
    method GpioAddCallback()
      modifies this`attached, this`misuses
      ensures Abs() == Attach(old(Abs()))
    {
      misuses := if attached then misuses + 1 else misuses;
      attached := true;
    }

    /** The driver fails to remove a callback it does not hold. */
    method GpioRemoveCallback()
      modifies this`attached, this`misuses
      ensures Abs() == Detach(old(Abs()))
    {
      misuses := if attached then misuses else misuses + 1;
      attached := false;
    }

    /** Whether the next id is one that a callback is registered under. */
    predicate NextIdInUse()
      reads this
    {
      uniqueId in registrations
    }

    /**
     * A null function yields a token that owns nothing, any other a token that owns the registration of the
     * next id. When the id counter has wrapped onto an id in use, that registration already has an owner: the
     * scope stays valid exactly when this is not so.
     */
    method AddCallback(ghost scope: Scope, cb: Option<Callback>) returns (token: RegistrationToken)
      requires scope.Valid() && this in scope.inputs
      modifies this, scope
      ensures scope.Valid() <==> cb.None? || !old(NextIdInUse())
      ensures fresh(token) && scope.tokens == old(scope.tokens) + {token} && scope.inputs == old(scope.inputs)
      ensures calls == old(calls)
      ensures match cb
              case None => token.record == null && Abs() == old(Abs()) && history == old(history)
              case Some(f) =>
                && Abs() == Register(old(Abs()), f) && history == old(history) + [Add(f)]
                && token.record != null && token.record.owner == this && token.record.id == old(uniqueId)
                && (if old(NextIdInUse())
                    then exists other :: other in old(scope.tokens) && other.record == token.record
                    else fresh(token.record))
    {
      hide Scope.Valid;
      if cb.None? {
        token := new RegistrationToken(null);
        scope.Enter(token);
      } else {
        UsableInput(scope);
        ghost var holder := if NextIdInUse() then scope.Holder(this, uniqueId) else null;
        if !HasCallbacks() {
          GpioAddCallback();
        }
        var record := RegisterCallback(cb.value);
        history := history + [Add(cb.value)];
        token := new RegistrationToken(record);
        scope.tokens := scope.tokens + {token};
        if old(NextIdInUse()) {
          assert holder in old(scope.tokens) && holder.record == token.record;
          scope.TwoHolders(token, holder);
        } else {
          RegisteredIsValid(cb.value);
          scope.AfterAdd(this, token, record);
        }
      }
    }

    lemma UsableInput(scope: Scope)
      requires scope.Valid() && this in scope.inputs
      ensures Valid()
    {
    }

    /** Registering under an id that is not in use keeps the register valid. */
    twostate lemma RegisteredIsValid(cb: Callback)
      requires old(Valid()) && !old(NextIdInUse())
      requires Abs() == Register(old(Abs()), cb) && history == old(history) + [Add(cb)]
      requires registrations.Keys == old(registrations).Keys + {old(uniqueId)}
      requires forall id :: id in registrations ==> registrations[id].id == id && registrations[id].owner == this
      ensures Valid()
    {
      RegisterConsistent(old(Abs()), cb);
      ProperExtend(old(history), Add(cb));
    }

    /** An id that is in use keeps its callback and its record. */
    method RegisterCallback(cb: Callback) returns (record: RegistrationRecord)
      modifies this`uniqueId, this`callbacks, this`registrations
      ensures uniqueId == Add32(old(uniqueId), 1)
      ensures callbacks == Insert(old(callbacks), old(uniqueId), cb)
      ensures old(uniqueId) in registrations && registrations[old(uniqueId)] == record
      ensures if old(NextIdInUse()) then registrations == old(registrations)
              else fresh(record) && record.owner == this && record.id == old(uniqueId)
                   && registrations == old(registrations)[record.id := record]
    {
      var id := uniqueId;
      uniqueId := Add32(uniqueId, 1);
      callbacks := Insert(callbacks, id, cb);
      record := new RegistrationRecord(this, id);
      registrations := Insert(registrations, id, record);
      record := registrations[id];
    }

    method UnregisterCallback(id: Id)
      modifies this`callbacks, this`registrations, this`attached, this`misuses, this`history
      ensures Abs() == Unregister(old(Abs()), id) && history == old(history) + [Drop(id)]
      ensures registrations == old(registrations) - {id}
      ensures old(Valid()) && id in old(callbacks) ==> Valid()
    {
      hide Proper, After;
      callbacks := callbacks - {id};
      if callbacks == map[] {
        GpioRemoveCallback();
      }
      registrations := registrations - {id};
      history := history + [Drop(id)];
      if old(Valid()) && id in old(callbacks) {
        UnregisterConsistent(old(Abs()), id);
        ProperExtend(old(history), Drop(id));
      }
    }

    method UnregisterAllCallbacks()
      modifies this`callbacks, this`registrations, this`attached, this`misuses, this`history
      ensures Abs() == UnregisterAll(old(Abs())) && registrations == map[] && history == old(history) + [Clear]
      ensures old(Valid()) ==> Valid()
    {
      hide Proper, After;
      var hadCallbacks := callbacks != map[];
      callbacks := map[];
      registrations := map[];
      if hadCallbacks {
        GpioRemoveCallback();
      }
      history := history + [Clear];
      if old(Valid()) {
        ProperExtend(old(history), Clear);
      }
    }

    /** A callback that leaves the register alone. */
    method Run(cb: Callback)
      modifies this`calls
      ensures calls == old(calls) + [cb]
    {
      calls := calls + [cb];
    }

    lemma LiveInOrder()
      requires Valid() && Adds(history) < U32_MOD
      ensures InOrder(callbacks) == Live(history)
    {
      AfterHistory(history);
    }

    /** Runs the callbacks in ascending order of their ids: those that the history registered and did not remove. */
    method ExecuteCallbacks()
      modifies this`calls
      ensures calls == old(calls) + Bodies(InOrder(callbacks))
      ensures old(Valid()) && Adds(history) < U32_MOD ==> calls == old(calls) + Bodies(Live(history))
    {
      hide InOrder, Bodies, Least, Live, Valid;
      if Valid() && Adds(history) < U32_MOD {
        LiveInOrder();
      }
      ghost var all := Bodies(InOrder(callbacks));
      var rest := callbacks;
      NoBodies();
      while rest != map[]
        invariant old(calls) + all == calls + Bodies(InOrder(rest))
        decreases rest.Keys
      {
        var id := FirstKey(rest);
        BodiesFirst(rest, id);
        Run(rest[id]);
        rest := rest - {id};
      }
    }

    /** The emulated pin: a transition to pressed runs the callbacks, any other write only stores the value. */
    method Write(values: array<bool>, value: bool)
      requires 1 <= pin <= values.Length
      modifies this`calls, values
      ensures values[..] == old(values[..])[pin - 1 := value]
      ensures calls == old(calls) + if !old(values[pin - 1]) && value then Bodies(InOrder(callbacks)) else []
    {
      var buttonIndex := pin - 1;
      var edgeFalling := values[buttonIndex] == !POLARITY_PRESSED && value == POLARITY_PRESSED;
      values[buttonIndex] := value;
      if edgeFalling {
        ExecuteCallbacks();
      }
    }

    ghost predicate OwnedBy(tokens: set<RegistrationToken>)
      reads tokens
    {
      exists t :: t in tokens && t.record != null && t.record.owner == this
    }

    /**
     * The end of an input's life: whatever was registered is gone and the driver is detached. The scope stays
     * valid exactly when no token still owns a registration of this input.
     */
    method Destroy(ghost scope: Scope)
      requires scope.Valid() && this in scope.inputs
      modifies this, scope
      ensures scope.Valid() <==> !old(OwnedBy(scope.tokens))
      ensures scope.inputs == old(scope.inputs) - {this} && scope.tokens == old(scope.tokens)
      ensures callbacks == map[] && registrations == map[] && !attached && misuses == 0
      ensures history == old(history) + [Clear] && calls == old(calls)
    {
      hide Scope.Valid;
      UsableInput(scope);
      UnregisterAllCallbacks();
      scope.inputs := scope.inputs - {this};
      if old(OwnedBy(scope.tokens)) {
        ghost var t :| t in scope.tokens && t.record != null && t.record.owner == this;
        scope.StrayToken(t);
      } else {
        scope.AfterInputEnd(this);
      }
    }
  }

  function Bodies(entries: seq<(Id, Callback)>): (bodies: seq<Callback>)
    ensures |bodies| == |entries|
    ensures forall k :: 0 <= k < |entries| ==> bodies[k] == entries[k].1
  {
    seq(|entries|, k requires 0 <= k < |entries| => entries[k].1)
  }

  /** Where the iteration over a `std::map` begins. */
  method FirstKey(m: map<Id, Callback>) returns (id: Id)
    requires m != map[]
    ensures IsLeast(m.Keys, id)
  {
    LeastExists(m.Keys);
    id :| id in m.Keys && forall j :: j in m.Keys ==> id <= j;
  }

  lemma NoBodies()
    ensures Bodies(InOrder(map[])) == []
  {
  }

  lemma BodiesFirst(m: map<Id, Callback>, id: Id)
    requires m != map[] && IsLeast(m.Keys, id)
    ensures Bodies(InOrder(m)) == [m[id]] + Bodies(InOrder(m - {id}))
    ensures (m - {id}).Keys < m.Keys
  {
    WithoutKey(m, id);
    LeastIs(m.Keys, id);
    assert InOrder(m) == [(id, m[id])] + InOrder(m - {id});
  }

  class RegistrationToken {
    var record: RegistrationRecord?

    constructor (record: RegistrationRecord?)
      ensures this.record == record
    {
      this.record := record;
    }

    /** The objects that ending a registration touches. */
    ghost function Owned(): set<object>
      reads this
    {
      if record == null then {} else {record.owner}
    }

    /** Gives up the registration, if there is one: its callback is unregistered, and no other changes. */
    method Reset(ghost scope: Scope)
      requires scope.Valid() && this in scope.tokens
      modifies this, Owned()
      ensures scope.Valid() && record == null
      ensures old(record) != null ==>
                old(record).owner.Abs() == Unregister(old(record.owner.Abs()), old(record).id)
                && old(record).owner.history == old(record.owner.history) + [Drop(old(record).id)]
                && old(record).owner.calls == old(record.owner.calls)
    {
      hide Scope.Valid;
      if record != null {
        OwnsLiveRecord(scope);
        record.owner.UnregisterCallback(record.id);
        record := null;
        scope.AfterReset(this);
      }
      record := null;
    }

    lemma OwnsLiveRecord(scope: Scope)
      requires scope.Valid() && this in scope.tokens && record != null
      ensures record.owner in scope.inputs && record.owner.Valid() && record.id in record.owner.callbacks
              && record.owner.attached
    {
      assert record.Live();
    }

    /** Move construction: the new token takes the registration over. */
    constructor Move(ghost scope: Scope, other: RegistrationToken)
      requires scope.Valid() && other in scope.tokens
      modifies scope, other
      ensures scope.Valid() && scope.tokens == old(scope.tokens) + {this} && scope.inputs == old(scope.inputs)
      ensures record == old(other.record) && other.record == null
    {
      record := null;
      new;
      scope.Enter(this);
      Take(scope, other);
    }

    /** `std::exchange(other._p_record, nullptr)` into a token that owns nothing. */
    method Take(ghost scope: Scope, other: RegistrationToken)
      requires scope.Valid() && this in scope.tokens && other in scope.tokens && this != other && record == null
      modifies this, other
      ensures scope.Valid() && record == old(other.record) && other.record == null
    {
      var taken := other.record;
      other.record := null;
      record := taken;
      forall i, id | i in scope.inputs && id in i.registrations ensures scope.Held(i.registrations[id]) {
        var t :| t in scope.tokens && old(t.record) == i.registrations[id];
        assert if t == other then record == old(t.record) else t.record == old(t.record);
      }
    }

    /** Move assignment: what this token owned is unregistered, unless it is assigned to itself. */
    method MoveAssign(ghost scope: Scope, other: RegistrationToken)
      requires scope.Valid() && this in scope.tokens && other in scope.tokens
      modifies this, other, Owned()
      ensures scope.Valid()
      ensures this == other ==> record == old(record) && forall i :: i in scope.inputs ==> i.Abs() == old(i.Abs())
      ensures this != other ==> record == old(other.record) && other.record == null
      ensures this != other && old(record) != null ==>
                old(record).owner.Abs() == Unregister(old(record.owner.Abs()), old(record).id)
                && old(record).owner.history == old(record.owner.history) + [Drop(old(record).id)]
    {
      if this != other {
        Reset(scope);
        Take(scope, other);
      }
    }

    /** The end of a token's life. */
    method Destroy(ghost scope: Scope)
      requires scope.Valid() && this in scope.tokens
      modifies this, scope, Owned()
      ensures scope.Valid() && scope.tokens == old(scope.tokens) - {this} && scope.inputs == old(scope.inputs)
      ensures old(record) != null ==>
                old(record).owner.Abs() == Unregister(old(record.owner.Abs()), old(record).id)
                && old(record).owner.history == old(record.owner.history) + [Drop(old(record).id)]
    {
      Reset(scope);
      label Emptied:
      scope.tokens := scope.tokens - {this};
      scope.AfterEnd@Emptied(this);
    }
  }

  /**
   * Over any run of operations that kept the scope valid, while ids did not wrap: no registration was removed
   * twice, the driver was never misused, and the ids that tokens own are exactly those of the registrations
   * that nothing has removed. So a registration whose token ended was removed, once.
   */
  lemma UnregisteredOnce(scope: Scope, i: InterruptIn, id: Id)
    requires scope.Valid() && i in scope.inputs && Adds(i.history) < U32_MOD
    ensures forall j, k :: 0 <= j < k < |i.history| && i.history[j] == Drop(id) ==> i.history[k] != Drop(id)
    ensures i.misuses == 0
    ensures Owned(scope, i, id) <==> exists j: nat, cb: Callback :: StillRegistered(i.history, j, id, cb)
  {
    hide Proper, After, Adds, StillRegistered;
    i.UsableInput(scope);
    forall j, k | 0 <= j < k < |i.history| && i.history[j] == Drop(id) ensures i.history[k] != Drop(id) {
      if i.history[k] == Drop(id) {
        DroppedOnce(i.history, j, k);
      }
    }
    UsedIsStillRegistered(i.history, id);
    if id in i.registrations {
      var t := scope.Holder(i, id);
      assert t.record.owner == i && t.record.id == id;
    }
  }

  ghost predicate Owned(scope: Scope, i: InterruptIn, id: Id)
    reads scope, scope.tokens
  {
    exists t :: t in scope.tokens && t.record != null && t.record.owner == i && t.record.id == id
  }
}
