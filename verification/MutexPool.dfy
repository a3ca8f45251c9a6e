/**
 * The user-mode mutexes: a Mutex object takes the first free kernel mutex of a static pool when it is
 * constructed and gives it back, reinitialised, when it is destroyed.
 */
module MutexPool {
  import opened Words
  import opened Options

  /** `k_mutex`: a thread may lock it again while it owns it. */
  class KernelMutex {
    var owner: Option<nat>
    var lockCount: nat

    predicate Unlocked()
      reads this
    {
      owner.None? && lockCount == 0
    }

    constructor ()
      ensures Unlocked()
    {
      owner, lockCount := None, 0;
    }

    method Init()
      modifies this
      ensures Unlocked()
    {
      owner, lockCount := None, 0;
    }

    /** One attempt to lock: it succeeds on a free mutex and on one that the thread owns. */
    method Lock(tid: nat) returns (taken: bool)
      modifies this
      ensures taken <==> old(owner).None? || old(owner) == Some(tid)
      ensures taken ==> owner == Some(tid) && lockCount == old(lockCount) + 1
      ensures !taken ==> owner == old(owner) && lockCount == old(lockCount)
    {
      if owner.None? || owner == Some(tid) {
        owner, lockCount := Some(tid), lockCount + 1;
        return true;
      }
      return false;
    }

    /** Only the owner can unlock; the mutex is free again after as many unlocks as locks. */
    method Unlock(tid: nat) returns (released: bool)
      modifies this
      ensures released <==> old(owner) == Some(tid) && old(lockCount) > 0
      ensures released ==> lockCount == old(lockCount) - 1 && owner == if lockCount == 0 then None else Some(tid)
      ensures !released ==> owner == old(owner) && lockCount == old(lockCount)
    {
      if owner != Some(tid) || lockCount == 0 {
        return false;
      }
      lockCount := lockCount - 1;
      if lockCount == 0 {
        owner := None;
      }
      return true;
    }
  }

  /** A Mutex object points to the kernel mutex of its slot. */
  class Mutex {
    const kernelMutex: KernelMutex

    constructor (kernelMutex: KernelMutex)
      ensures this.kernelMutex == kernelMutex
    {
      this.kernelMutex := kernelMutex;
    }
  }

  /** How many slots are busy. */
  function NumberBusy(busy: seq<bool>): (n: nat)
    ensures n <= |busy|
  {
    if busy == [] then 0 else (if busy[0] then 1 else 0) + NumberBusy(busy[1..])
  }

  lemma {:induction false} NumberBusyUpdate(busy: seq<bool>, i: nat, b: bool)
    requires i < |busy|
    ensures NumberBusy(busy[i := b]) == NumberBusy(busy) - (if busy[i] then 1 else 0) + (if b then 1 else 0)
  {
    if i > 0 {
      NumberBusyUpdate(busy[1..], i - 1, b);
      assert busy[i := b][1..] == busy[1..][i - 1 := b];
    } else {
      assert busy[i := b][1..] == busy[1..];
    }
  }

  /** Fewer busy slots than slots means a free slot, and the other way round. */
  lemma {:induction false} Pigeonhole(busy: seq<bool>)
    ensures NumberBusy(busy) < |busy| <==> exists i :: 0 <= i < |busy| && !busy[i]
  {
    if busy != [] {
      Pigeonhole(busy[1..]);
      if exists i :: 0 <= i < |busy| && !busy[i] {
        var i :| 0 <= i < |busy| && !busy[i];
        assert i > 0 ==> !busy[1..][i - 1];
      }
      if exists i :: 0 <= i < |busy[1..]| && !busy[1..][i] {
        var i :| 0 <= i < |busy[1..]| && !busy[1..][i];
        assert !busy[i + 1];
      }
    }
  }

  class Pool {
    const slots: seq<KernelMutex>      // ZPP_MUTEX_ARRAY
    const total: U8                    // how many of the slots are used
    const busy: array<bool>            // ZPP_MUTEX_ARRAY_BUSY
    var instanceCount: U8
    ghost var holders: seq<Mutex?>     // the live Mutex object of each slot in use

    /**
     * The count is the number of busy slots; the busy slots and the live Mutex objects are in bijection; every
     * free slot is unlocked.
     */
    ghost predicate Valid()
      reads this, busy, slots
    {
      && busy.Length == |holders| == total <= |slots|
      && (forall i, j :: 0 <= i < j < |slots| ==> slots[i] != slots[j])
      && instanceCount == NumberBusy(busy[..])
      && (forall i :: 0 <= i < total ==> (busy[i] <==> holders[i] != null))
      && (forall i :: 0 <= i < total && holders[i] != null ==> holders[i].kernelMutex == slots[i])
      && (forall i :: 0 <= i < total && !busy[i] ==> slots[i].Unlocked())
    }

    ghost predicate Live(m: Mutex)
      reads this
    {
      m in holders
    }

    constructor (slots: seq<KernelMutex>, total: U8)
      requires total <= |slots| && forall i, j :: 0 <= i < j < |slots| ==> slots[i] != slots[j]
      requires forall m :: m in slots ==> m.Unlocked()
      ensures Valid() && this.slots == slots && this.total == total && instanceCount == 0
      ensures forall m: Mutex :: !Live(m)
    {
      this.slots, this.total := slots, total;
      busy := new bool[total](_ => false);
      instanceCount := 0;
      holders := seq(total, _ => null);
      new;
      AllFree(busy[..]);
    }

    /**
     * `Mutex::Mutex`. None stands for the failing assertion that too many mutexes are created. The slot
     * taken is the first free one; it was held by nobody and is unlocked, and no other slot changes hands.
     */
    method Construct() returns (m: Option<Mutex>)
      requires Valid()
      modifies this, busy
      ensures Valid()
      ensures m.None? <==> old(instanceCount) == total
      ensures m.None? ==> instanceCount == old(instanceCount) && holders == old(holders)
      ensures m.Some? ==>
                && fresh(m.value) && m.value.kernelMutex.Unlocked() && instanceCount == old(instanceCount) + 1
                && exists i :: 0 <= i < total && holders == old(holders)[i := m.value] && old(holders)[i] == null
                               && forall j :: 0 <= j < i ==> old(holders)[j] != null
    {
      if instanceCount >= total {
        return None;
      }
      Pigeonhole(busy[..]);
      var index := 0;
      while index < total
        invariant 0 <= index <= total && forall j :: 0 <= j < index ==> busy[j]
      {
        if !busy[index] {
          break;
        }
        index := index + 1;
      }
      assert index < total;
      NumberBusyUpdate(busy[..], index, true);
      ghost var before := busy[..];
      busy[index] := true;
      assert busy[..] == before[index := true];
      var mutex := new Mutex(slots[index]);
      instanceCount := instanceCount + 1;
      holders := holders[index := mutex];
      return Some(mutex);
    }

    /** `Mutex::~Mutex`: finds the slot, reinitialises its kernel mutex and frees it, whoever holds the lock. */
    method Destruct(m: Mutex)
      requires Valid() && Live(m)
      modifies this, busy, m.kernelMutex
      ensures Valid() && !Live(m) && instanceCount == old(instanceCount) - 1
      ensures exists i :: 0 <= i < total && old(holders)[i] == m && holders == old(holders)[i := null]
      ensures m.kernelMutex.Unlocked()
    {
      var found := false;
      var index := 0;
      ghost var k :| 0 <= k < total && holders[k] == m;
      while index < total
        invariant 0 <= index <= k && !found
        invariant Valid() && holders == old(holders) && instanceCount == old(instanceCount) && busy[..] == old(busy[..])
        invariant forall j :: 0 <= j < index ==> slots[j] != m.kernelMutex
      {
        if m.kernelMutex == slots[index] {
          NumberBusyUpdate(busy[..], index, false);
          ghost var before := busy[..];
          m.kernelMutex.Init();
          busy[index] := false;
          assert busy[..] == before[index := false];
          instanceCount := instanceCount - 1;
          holders := holders[index := null];
          found := true;
          break;
        }
        index := index + 1;
      }
      assert found;
    }

    /** Locking a live mutex takes no slot and gives none back. */
    method Lock(m: Mutex, tid: nat) returns (taken: bool)
      requires Valid() && Live(m)
      modifies m.kernelMutex
      ensures Valid()
      ensures taken <==> old(m.kernelMutex.owner).None? || old(m.kernelMutex.owner) == Some(tid)
      ensures taken ==> m.kernelMutex.owner == Some(tid) && m.kernelMutex.lockCount == old(m.kernelMutex.lockCount) + 1
      ensures !taken ==> m.kernelMutex.owner == old(m.kernelMutex.owner)
                         && m.kernelMutex.lockCount == old(m.kernelMutex.lockCount)
    {
      taken := m.kernelMutex.Lock(tid);
    }

    /** Unlocking a live mutex takes no slot and gives none back; it succeeds exactly for the thread that holds it. */
    method Unlock(m: Mutex, tid: nat) returns (released: bool)
      requires Valid() && Live(m)
      modifies m.kernelMutex
      ensures Valid()
      ensures released <==> old(m.kernelMutex.owner) == Some(tid) && old(m.kernelMutex.lockCount) > 0
      ensures released ==> m.kernelMutex.lockCount == old(m.kernelMutex.lockCount) - 1
      ensures released && old(m.kernelMutex.lockCount) == 1 ==> m.kernelMutex.Unlocked()
      ensures released && old(m.kernelMutex.lockCount) > 1 ==> m.kernelMutex.owner == Some(tid)
      ensures !released ==> m.kernelMutex.owner == old(m.kernelMutex.owner)
                            && m.kernelMutex.lockCount == old(m.kernelMutex.lockCount)
    {
      released := m.kernelMutex.Unlock(tid);
    }
  }

  lemma {:induction false} AllFree(busy: seq<bool>)
    requires forall i :: 0 <= i < |busy| ==> !busy[i]
    ensures NumberBusy(busy) == 0
  {
    if busy != [] {
      AllFree(busy[1..]);
    }
  }

  /** Two mutexes alive at the same time never share a kernel mutex. */
  lemma LiveMutexesApart(pool: Pool, m: Mutex, n: Mutex)
    requires pool.Valid() && pool.Live(m) && pool.Live(n) && m != n
    ensures m.kernelMutex != n.kernelMutex
  {
    var i :| 0 <= i < pool.total && pool.holders[i] == m;
    var j :| 0 <= j < pool.total && pool.holders[j] == n;
  }
}
