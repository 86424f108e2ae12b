/**
 * internal/input: a registry of input managers, one per key and reference
 * counted, each holding a map of callbacks, plus the tracker of terminals
 * put in raw mode. Every operation is one sequential step (the locks are
 * left out); the reader goroutine is reduced to one dispatch step; the
 * terminal calls IsTerminal and MakeRaw are answered by parameters and
 * Restore is recorded in a log.
 */
module InputManager {
  import opened Wrappers
  import opened Bytes

  /** Keys are Go interface{} values, compared by identity. */
  type Key = nat

  /** A non-nil callback, known by its identity. */
  type Func = nat

  /** The error a Read returns with its bytes. */
  datatype ReadError = NoError | EOF | Failure(code: nat)

  /** The reader a manager is created for: nil, an *os.File with a descriptor, or any other reader. */
  datatype Reader = NilReader | FileReader(fd: nat) | OtherReader(id: nat)

  /** The terminal state terminal.MakeRaw saves, as an opaque token. */
  type TermState = nat

  /** One call of a callback: cb(data, err), the callback being registered under key. */
  datatype Invocation = Invocation(key: Key, cb: Func, data: Bytes, err: ReadError)

  const MinInt32: int := -0x8000_0000
  const MaxInt32: int := 0x7fff_ffff

  type int32 = x: int | MinInt32 <= x <= MaxInt32

  /** atomic.AddInt32: two's-complement addition, wrapping round at the ends. */
  function AddInt32(a: int32, d: int32): (r: int32)
    ensures MinInt32 <= a + d <= MaxInt32 ==> r == a + d
    ensures a + d > MaxInt32 ==> r == a + d - 0x1_0000_0000
    ensures a + d < MinInt32 ==> r == a + d + 0x1_0000_0000
  {
    (a + d - MinInt32) % 0x1_0000_0000 + MinInt32
  }

  /** order names every key of ks exactly once. */
  ghost predicate EachOnce(order: seq<Key>, ks: set<Key>) {
    && (forall i, j :: 0 <= i < j < |order| ==> order[i] != order[j])
    && (forall k :: k in ks <==> k in order)
  }

  /** The calls one dispatch makes, in the order the callbacks are visited. */
  function Deliveries(order: seq<Key>, cbs: map<Key, Func>, data: Bytes, err: ReadError): (r: seq<Invocation>)
    requires forall i :: 0 <= i < |order| ==> order[i] in cbs
    ensures |r| == |order|
    ensures forall i :: 0 <= i < |r| ==> r[i].key == order[i] && r[i].cb == cbs[order[i]] && r[i].data == data && r[i].err == err
  {
    seq(|order|, i requires 0 <= i < |order| && order[i] in cbs => Invocation(order[i], cbs[order[i]], data, err))
  }

  /** Manager (manager.go:14-21) without its lock and condition variable. */
  class Manager {
    var cbs: map<Key, Func>
    var closed: bool
    var count: int32
    var r: Reader
    /** The callback calls made so far, in order. */
    var calls: seq<Invocation>

    /** The manager For builds (manager.go:38-45): one reference, no callbacks, closed. */
    constructor (r: Reader)
      ensures cbs == map[] && closed && count == 1 && this.r == r && calls == []
    {
      cbs := map[];
      closed := true;
      count := 1;
      this.r := r;
      calls := [];
    }

    /**
     * AddCallback (manager.go:91-111): a nil callback (None) or a key
     * already present changes nothing; otherwise cb is stored and, if the
     * manager is closed, called once at once with no bytes and EOF.
     */
    method AddCallback(key: Key, cb: Option<Func>)
      modifies this
      ensures closed == old(closed) && count == old(count) && r == old(r)
      ensures cb.None? || key in old(cbs) ==> cbs == old(cbs) && calls == old(calls)
      ensures cb.Some? && key !in old(cbs) ==>
        && cbs == old(cbs)[key := cb.value]
        && calls == old(calls) + (if closed then [Invocation(key, cb.value, [], EOF)] else [])
    {
      if cb.None? {
        return;
      }
      if key !in cbs {
        cbs := cbs[key := cb.value];
        if closed {
          calls := calls + [Invocation(key, cb.value, [], EOF)];
        }
      }
    }

    /** DeleteCallback (manager.go:113-119): the key is gone, whether or not it was there. */
    method DeleteCallback(key: Key)
      modifies this
      ensures cbs == old(cbs) - {key}
      ensures key !in old(cbs) ==> cbs == old(cbs)
      ensures closed == old(closed) && count == old(count) && r == old(r) && calls == old(calls)
    {
      cbs := cbs - {key};
    }

    /**
     * One pass of the loop in run (manager.go:124-153) once Read returned
     * data and err and a callback is registered (the loop waits until one
     * is): every callback is called once with the same data and err, in
     * the map's unspecified order; EOF closes the manager, and the loop
     * ends when the manager is closed.
     */
    method Dispatch(data: Bytes, err: ReadError) returns (exit: bool, ghost order: seq<Key>)
      requires |data| <= 128
      requires cbs != map[]
      modifies this
      ensures EachOnce(order, cbs.Keys)
      ensures forall i :: 0 <= i < |order| ==> order[i] in cbs
      ensures calls == old(calls) + Deliveries(order, cbs, data, err)
      ensures closed == (old(closed) || err == EOF)
      ensures exit == closed
      ensures cbs == old(cbs) && count == old(count) && r == old(r)
    {
      var made;
      made, order := Deliver(cbs, data, err);
      calls := calls + made;
      if err == EOF {
        closed := true;
      }
      exit := closed;
    }
  }

  /**
   * The for-range over the callbacks in run (manager.go:139-141): each
   * callback once, in an order the map leaves unspecified.
   */
  method Deliver(cbs: map<Key, Func>, data: Bytes, err: ReadError) returns (made: seq<Invocation>, ghost order: seq<Key>)
    ensures EachOnce(order, cbs.Keys)
    ensures forall i :: 0 <= i < |order| ==> order[i] in cbs
    ensures made == Deliveries(order, cbs, data, err)
    ensures forall i :: 0 <= i < |made| ==> made[i].key in cbs && made[i].cb == cbs[made[i].key] && made[i].data == data && made[i].err == err
    ensures forall i, j :: 0 <= i < j < |made| ==> made[i].key != made[j].key
    ensures forall k :: k in cbs ==> exists i :: 0 <= i < |made| && made[i].key == k
  {
    var keys := cbs.Keys;
    made := [];
    order := [];
    while keys != {}
      invariant Visiting(order, keys, cbs.Keys)
      invariant forall i :: 0 <= i < |order| ==> order[i] in cbs
      invariant made == Deliveries(order, cbs, data, err)
      decreases |keys|
    {
      var k :| k in keys;
      VisitStep(order, keys, cbs.Keys, k);
      DeliveriesSnoc(order, k, cbs, data, err);
      made := made + [Invocation(k, cbs[k], data, err)];
      order := order + [k];
      keys := keys - {k};
    }
  }

  /** Part way through a dispatch: order visited without repeats, keys still to visit, together ks. */
  ghost predicate Visiting(order: seq<Key>, keys: set<Key>, ks: set<Key>) {
    && (forall i, j :: 0 <= i < j < |order| ==> order[i] != order[j])
    && (forall k :: k in ks <==> k in order || k in keys)
    && (forall k :: k in keys ==> k !in order)
  }

  lemma VisitStep(order: seq<Key>, keys: set<Key>, ks: set<Key>, k: Key)
    requires Visiting(order, keys, ks) && k in keys
    ensures Visiting(order + [k], keys - {k}, ks)
  {
    var o := order + [k];
    forall i, j | 0 <= i < j < |o|
      ensures o[i] != o[j]
    {
      if j == |order| {
        assert o[i] == order[i];
      }
    }
  }

  lemma DeliveriesSnoc(order: seq<Key>, k: Key, cbs: map<Key, Func>, data: Bytes, err: ReadError)
    requires forall i :: 0 <= i < |order| ==> order[i] in cbs
    requires k in cbs
    ensures Deliveries(order + [k], cbs, data, err) == Deliveries(order, cbs, data, err) + [Invocation(k, cbs[k], data, err)]
  {
  }

  /** How many times fd appears in a log of restores. */
  function Restored(log: seq<(nat, TermState)>, fd: nat): (n: nat)
    ensures n <= |log|
  {
    if log == [] then 0
    else Restored(log[..|log| - 1], fd) + (if log[|log| - 1].0 == fd then 1 else 0)
  }

  /** The package state of internal/input: the managers map and the raw-mode tracker. */
  class Registry {
    var managers: map<Key, Manager>
    /** rawTracker (raw.go:55): the saved state of each terminal put in raw mode. */
    var rawTracker: map<nat, TermState>
    /** The terminal.Restore calls made so far. */
    var restores: seq<(nat, TermState)>
    /** Every descriptor makeRaw has recorded, once per recording. */
    ghost var made: multiset<nat>

    /**
     * A terminal is restored at most once per time it was put in raw
     * mode, counting the entry still held in the tracker as a restore to
     * come.
     */
    ghost predicate Valid()
      reads this
    {
      forall fd :: Restored(restores, fd) + (if fd in rawTracker then 1 else 0) <= made[fd]
    }

    constructor ()
      ensures Valid()
      ensures managers == map[] && rawTracker == map[] && restores == []
    {
      managers := map[];
      rawTracker := map[];
      restores := [];
      made := multiset{};
    }

    /**
     * makeRaw (raw.go:13-33): only a file that is a terminal and that
     * MakeRaw (answered by raw) could switch is recorded, replacing any
     * earlier entry for its descriptor.
     */
    method MakeRaw(r: Reader, isTerminal: bool, raw: Option<TermState>)
      requires Valid()
      modifies this
      ensures Valid()
      ensures r.FileReader? && isTerminal && raw.Some? ==> rawTracker == old(rawTracker)[r.fd := raw.value]
      ensures !(r.FileReader? && isTerminal && raw.Some?) ==> rawTracker == old(rawTracker)
      ensures managers == old(managers) && restores == old(restores)
    {
      if !r.FileReader? {
        return;
      }
      if !isTerminal {
        return;
      }
      if raw.None? {
        return;
      }
      rawTracker := rawTracker[r.fd := raw.value];
      made := made + multiset{r.fd};
    }

    /**
     * unRaw (raw.go:35-52): a tracked file is restored to its saved state
     * and forgotten; anything else is left alone.
     */
    method UnRaw(r: Reader)
      requires Valid()
      modifies this
      ensures Valid()
      ensures r.FileReader? && r.fd in old(rawTracker) ==>
        && restores == old(restores) + [(r.fd, old(rawTracker)[r.fd])]
        && rawTracker == old(rawTracker) - {r.fd}
      ensures !(r.FileReader? && r.fd in old(rawTracker)) ==> restores == old(restores) && rawTracker == old(rawTracker)
      ensures managers == old(managers)
    {
      if !r.FileReader? {
        return;
      }
      if r.fd !in rawTracker {
        return;
      }
      var st := rawTracker[r.fd];
      RestoredSnoc(restores, (r.fd, st));
      restores := restores + [(r.fd, st)];
      rawTracker := rawTracker - {r.fd};
    }

    /**
     * For (manager.go:23-64): a registered key gains a reference and
     * yields its manager; a new key gets a fresh manager with one
     * reference, closed exactly when the reader is nil, and only a
     * non-nil reader is offered to makeRaw.
     */
    method For(key: Key, r: Reader, isTerminal: bool, raw: Option<TermState>) returns (m: Manager)
      requires Valid()
      modifies this, if key in managers then {managers[key]} else {}
      ensures Valid()
      ensures key in old(managers) ==>
        && m == old(managers)[key]
        && m.count == AddInt32(old(m.count), 1)
        && m.cbs == old(m.cbs) && m.closed == old(m.closed) && m.r == old(m.r) && m.calls == old(m.calls)
        && managers == old(managers) && rawTracker == old(rawTracker)
      ensures key !in old(managers) ==>
        && fresh(m)
        && m.count == 1 && m.cbs == map[] && m.closed == r.NilReader? && m.r == r && m.calls == []
        && managers == old(managers)[key := m]
        && (r.FileReader? && isTerminal && raw.Some? ==> rawTracker == old(rawTracker)[r.fd := raw.value])
        && (!(r.FileReader? && isTerminal && raw.Some?) ==> rawTracker == old(rawTracker))
      ensures restores == old(restores)
    {
      if key in managers {
        m := managers[key];
        m.count := AddInt32(m.count, 1);
        return;
      }
      m := new Manager(r);
      if !r.NilReader? {
        m.closed := false;
        MakeRaw(r, isTerminal, raw);
      }
      managers := managers[key := m];
    }

    /**
     * Close (manager.go:66-89): an unknown key is ignored; otherwise the
     * manager loses a reference, and when none is left and it has a
     * reader the reader is handed to unRaw. The manager stays registered.
     */
    method Close(key: Key)
      requires Valid()
      modifies this, if key in managers then {managers[key]} else {}
      ensures Valid()
      ensures managers == old(managers)
      ensures key !in managers ==> restores == old(restores) && rawTracker == old(rawTracker)
      ensures key in managers ==>
        var m := managers[key];
        && m.count == AddInt32(old(m.count), -1)
        && m.cbs == old(m.cbs) && m.closed == old(m.closed) && m.r == old(m.r) && m.calls == old(m.calls)
        && (!(m.count <= 0 && m.r.FileReader? && m.r.fd in old(rawTracker)) ==>
              restores == old(restores) && rawTracker == old(rawTracker))
        && (m.count <= 0 && m.r.FileReader? && m.r.fd in old(rawTracker) ==>
              restores == old(restores) + [(m.r.fd, old(rawTracker)[m.r.fd])] && rawTracker == old(rawTracker) - {m.r.fd})
      ensures |restores| <= |old(restores)| + 1
    {
      if key !in managers {
        return;
      }
      var m := managers[key];
      var n := AddInt32(m.count, -1);
      m.count := n;
      if n > 0 {
        return;
      }
      if m.r.NilReader? {
        return;
      }
      UnRaw(m.r);
    }

    /** Closing a key twice restores its terminal at most once. */
    method CloseTwice(key: Key)
      requires Valid()
      modifies this, if key in managers then {managers[key]} else {}
      ensures Valid()
      ensures |restores| <= |old(restores)| + 1
    {
      Close(key);
      Close(key);
    }
  }

  lemma RestoredSnoc(log: seq<(nat, TermState)>, e: (nat, TermState))
    ensures forall fd :: Restored(log + [e], fd) == Restored(log, fd) + (if e.0 == fd then 1 else 0)
  {
    assert (log + [e])[..|log|] == log;
  }
}
