/**
 Callback registration across three parties: the shim's slot array, where slot `i` belongs
 to trampoline `i`; the host's map from keys to callbacks; and the registry of the meta
 sandbox, from trampoline addresses to keys. Requests to the shim are synchronous.
 */
module Callbacks {
  import opened Options

  /** A host callback, by identity. */
  type Callback = nat

  /** `meta_callback_record`. */
  datatype Record = Record(wasmSlot: nat, key: nat)

  /** The first position of `v` in `s`, or the length of `s`. */
  function IndexOf(s: seq<nat>, v: nat): (i: nat)
    ensures i <= |s| && (i < |s| ==> s[i] == v) && forall j :: 0 <= j < i ==> s[j] != v
  {
    if |s| == 0 then 0 else if s[0] == v then 0 else IndexOf(s[1..], v) + 1
  }

  /** Trampoline addresses, slot keys (0 is free), the host's map, the registry, and the wasm backend's slots. */
  datatype State = State(table: seq<nat>, keys: seq<nat>, callbacks: map<nat, Callback>,
                         registry: map<nat, Record>, wasm: map<nat, nat>)
  {
    ghost predicate Shape() {
      && |table| == |keys|
      && (forall i :: 0 <= i < |table| ==> table[i] != 0)
      && forall i, j :: 0 <= i < |table| && 0 <= j < |table| && table[i] == table[j] ==> i == j
    }

    /** The slot that a registration takes. */
    function FreeSlot(): nat {
      IndexOf(keys, 0)
    }

    /** The state after a registration of `key`, and the trampoline address it answers, 0 for none. */
    function Register(key: nat, cb: Callback, wasmSlot: nat): (State, nat)
      requires |table| == |keys|
    {
      var i := FreeSlot();
      var s := this.(callbacks := callbacks[key := cb]);
      if i == |keys| then (s, 0)
      else if table[i] == 0 then (s.(keys := keys[i := key]), 0)
      else
        (s.(keys := keys[i := key], wasm := wasm[wasmSlot := key],
            registry := if table[i] in registry then registry else registry[table[i] := Record(wasmSlot, key)]),
         table[i])
    }

    /** The state after `key` is unregistered, when the registry scan comes upon `found` first. */
    ghost function Unregister(key: nat, found: Option<nat>): State {
      var i := IndexOf(keys, key);
      this.(registry := if found.Some? then registry - {found.value} else registry,
            callbacks := callbacks - {key},
            keys := if i < |keys| then keys[i := 0] else keys,
            wasm := map w | w in wasm && wasm[w] != key :: wasm[w])
    }

    /** What the registry scan may come upon. */
    ghost predicate Finds(key: nat, found: Option<nat>) {
      match found
      case Some(a) => a in registry && registry[a].key == key
      case None => forall a :: a in registry ==> registry[a].key != key
    }

    /** The callback that library code reaches by calling trampoline `i`. */
    function Reached(i: nat): Option<Callback>
      requires i < |keys|
    {
      if keys[i] == 0 then None
      else if keys[i] in callbacks then Some(callbacks[keys[i]])
      else None
    }

    /** Slots hold distinct keys, and exactly the live ones. */
    ghost predicate SlotsHold(live: map<nat, Callback>) {
      && (forall i, j :: 0 <= i < j < |keys| && keys[i] == keys[j] ==> keys[i] == 0)
      && (forall k :: k in live ==> k != 0 && k in keys)
      && (forall i :: 0 <= i < |keys| && keys[i] != 0 ==> keys[i] in live)
    }

    ghost predicate HostKnows(live: map<nat, Callback>) {
      forall k :: k in live ==> k in callbacks && callbacks[k] == live[k]
    }

    ghost predicate RegistryMatches() {
      && |table| == |keys|
      && (forall a :: a in registry ==> a in table)
      && (forall i :: 0 <= i < |keys| ==> (keys[i] != 0 <==> table[i] in registry))
      && (forall i :: 0 <= i < |keys| && keys[i] != 0 ==> registry[table[i]].key == keys[i])
    }

    ghost predicate WasmMatches() {
      forall a :: a in registry ==> registry[a].wasmSlot in wasm && wasm[registry[a].wasmSlot] == registry[a].key
    }

    /** The three-way agreement, on the callbacks that are live. */
    ghost predicate Agrees(live: map<nat, Callback>) {
      Shape() && SlotsHold(live) && HostKnows(live) && RegistryMatches() && WasmMatches()
    }

    /** Slot `j` holds `key` after its removal, and the host has no callback for it. */
    ghost predicate Orphaned(key: nat, j: nat) {
      && j < |keys|
      && forall found :: Finds(key, found) ==>
        Unregister(key, found).keys[j] == key && Unregister(key, found).Reached(j) == None
    }
  }

  /** Slot `i` holds `k` exactly when the registry maps trampoline `i` to `k`, and then the host has a callback for it. */
  lemma ThreeWay(s: State, live: map<nat, Callback>, i: nat, k: nat)
    requires s.Agrees(live) && i < |s.keys| && k != 0
    ensures |s.table| == |s.keys|
    ensures s.keys[i] == k <==> s.table[i] in s.registry && s.registry[s.table[i]].key == k
    ensures s.keys[i] == k ==> k in s.callbacks && s.callbacks[k] == live[k]
  {}

  /** A live trampoline reaches the callback it was registered for, a free one none. */
  lemma Reaches(s: State, live: map<nat, Callback>, i: nat)
    requires s.Agrees(live) && i < |s.keys|
    ensures s.Reached(i) == if s.keys[i] == 0 then None else Some(live[s.keys[i]])
  {}

  /** Registration answers 0 exactly when every slot is taken. */
  lemma FailsWhenFull(s: State, key: nat, cb: Callback, wasmSlot: nat)
    requires s.Shape()
    ensures s.Register(key, cb, wasmSlot).1 == 0 <==> forall i :: 0 <= i < |s.keys| ==> s.keys[i] != 0
  {}

  /** What a registration makes live: nothing when it fails. */
  function LiveAfter(s: State, live: map<nat, Callback>, key: nat, cb: Callback): map<nat, Callback> {
    if s.FreeSlot() < |s.keys| then live[key := cb] else live
  }

  lemma RegisterHost(s: State, live: map<nat, Callback>, key: nat, cb: Callback, wasmSlot: nat)
    requires s.Agrees(live) && key != 0 && key !in live
    ensures s.Register(key, cb, wasmSlot).0.HostKnows(LiveAfter(s, live, key, cb))
  {
    hide State.RegistryMatches, State.WasmMatches, State.SlotsHold;
  }

  lemma SlotTaken(s: State, live: map<nat, Callback>, t: State, i: nat, key: nat, cb: Callback)
    requires s.SlotsHold(live) && key != 0 && key !in live
    requires i < |s.keys| && s.keys[i] == 0 && t.keys == s.keys[i := key]
    ensures t.SlotsHold(live[key := cb])
  {
    assert t.keys[i] == key;
    forall k | k in live
      ensures k in t.keys
    {
      var j :| 0 <= j < |s.keys| && s.keys[j] == k;
      assert t.keys[j] == k;
    }
  }

  lemma RegisterSlots(s: State, live: map<nat, Callback>, key: nat, cb: Callback, wasmSlot: nat)
    requires s.Agrees(live) && key != 0 && key !in live
    ensures s.Register(key, cb, wasmSlot).0.SlotsHold(LiveAfter(s, live, key, cb))
  {
    hide State.HostKnows, State.RegistryMatches, State.WasmMatches, State.SlotsHold;
    var t := s.Register(key, cb, wasmSlot).0;
    if s.FreeSlot() < |s.keys| {
      SlotTaken(s, live, t, s.FreeSlot(), key, cb);
    } else {
      SameSlots(s, live, t);
    }
  }

  lemma SameSlots(s: State, live: map<nat, Callback>, t: State)
    requires s.SlotsHold(live) && t.keys == s.keys
    ensures t.SlotsHold(live)
  {}

  lemma RegisterRegistry(s: State, live: map<nat, Callback>, key: nat, cb: Callback, wasmSlot: nat)
    requires s.Agrees(live) && key != 0
    ensures s.Register(key, cb, wasmSlot).0.RegistryMatches()
  {
    hide State.SlotsHold, State.HostKnows, State.WasmMatches;
    var i := s.FreeSlot();
    if i < |s.keys| {
      assert s.table[i] !in s.registry;
      assert forall j :: 0 <= j < |s.keys| && j != i ==> s.table[j] != s.table[i];
    }
  }

  lemma RegisterWasm(s: State, live: map<nat, Callback>, key: nat, cb: Callback, wasmSlot: nat)
    requires s.Agrees(live) && wasmSlot !in s.wasm
    ensures s.Register(key, cb, wasmSlot).0.WasmMatches()
  {
    hide State.SlotsHold, State.HostKnows;
  }

  lemma RegisterKeeps(s: State, live: map<nat, Callback>, key: nat, cb: Callback, wasmSlot: nat)
    requires s.Agrees(live) && key != 0 && key !in live && wasmSlot !in s.wasm
    ensures s.Register(key, cb, wasmSlot).0.Agrees(LiveAfter(s, live, key, cb))
  {
    hide State.SlotsHold, State.HostKnows, State.RegistryMatches, State.WasmMatches;
    RegisterHost(s, live, key, cb, wasmSlot);
    RegisterSlots(s, live, key, cb, wasmSlot);
    RegisterRegistry(s, live, key, cb, wasmSlot);
    RegisterWasm(s, live, key, cb, wasmSlot);
  }

  /**
   With a slot free, a registration keeps the agreement exactly when its key is not null and
   not live already: a second registration of a key redirects the trampoline of the first,
   and one of key 0 is recorded for a slot that stays free.
   */
  lemma RegisterKeepsExactly(s: State, live: map<nat, Callback>, key: nat, cb: Callback, wasmSlot: nat)
    requires s.Agrees(live) && wasmSlot !in s.wasm && s.FreeSlot() < |s.keys|
    ensures s.Register(key, cb, wasmSlot).0.Agrees(live[key := cb]) <==> key != 0 && key !in live
  {
    var t := s.Register(key, cb, wasmSlot).0;
    var i := s.FreeSlot();
    if key != 0 && key !in live {
      RegisterKeeps(s, live, key, cb, wasmSlot);
    } else if key == 0 {
      assert !t.SlotsHold(live[key := cb]) by {
        assert key in live[key := cb];
      }
    } else {
      var j :| 0 <= j < |s.keys| && s.keys[j] == key;
      assert t.keys[i] == key && t.keys[j] == key && i != j;
    }
  }

  /** The trampoline of a key registered twice reaches the second callback, and after one removal a slot is left over. */
  lemma SecondRegistration(s: State, live: map<nat, Callback>, key: nat, cb: Callback, wasmSlot: nat, i: nat)
    requires s.Agrees(live) && wasmSlot !in s.wasm && s.FreeSlot() < |s.keys|
    requires i < |s.keys| && key != 0 && s.keys[i] == key
    ensures var t := s.Register(key, cb, wasmSlot).0;
      i < |t.keys| && t.Reached(i) == Some(cb) && exists j :: t.Orphaned(key, j)
  {
    var t := s.Register(key, cb, wasmSlot).0;
    var j := if IndexOf(t.keys, key) == i then s.FreeSlot() else i;
    assert t.keys[i] == key && t.keys[s.FreeSlot()] == key;
    assert t.Orphaned(key, j);
  }

  /** A registration that finds no slot leaves its key in the host's map although it is not live. */
  lemma FailedRegistrationStays(s: State, live: map<nat, Callback>, key: nat, cb: Callback, wasmSlot: nat)
    requires s.Agrees(live) && key != 0 && key !in live && s.FreeSlot() == |s.keys|
    ensures var t := s.Register(key, cb, wasmSlot).0;
      key in t.callbacks && key !in live && t.keys == s.keys && t.registry == s.registry && t.Agrees(live)
  {}

  /** The registry scan comes upon the trampoline of the slot that the shim frees. */
  lemma ScanFindsSlot(s: State, live: map<nat, Callback>, key: nat, found: Option<nat>)
    requires s.Agrees(live) && s.Finds(key, found)
    ensures var i := IndexOf(s.keys, key);
      |s.table| == |s.keys| && found == if key == 0 || i == |s.keys| then None else Some(s.table[i])
  {
    var i := IndexOf(s.keys, key);
    assert key != 0 && i < |s.keys| ==> s.table[i] in s.registry && s.registry[s.table[i]].key == key;
    if found.Some? {
      var j :| 0 <= j < |s.table| && s.table[j] == found.value;
      assert s.keys[j] == key && key != 0;
      assert j == i;
    }
  }

  lemma UnregisterSlots(s: State, live: map<nat, Callback>, key: nat, found: Option<nat>)
    requires s.Agrees(live)
    ensures s.Unregister(key, found).SlotsHold(live - {key})
  {
    hide State.RegistryMatches, State.WasmMatches, State.HostKnows, State.Shape;
    var t := s.Unregister(key, found);
    forall k | k in live - {key}
      ensures k in t.keys
    {
      var j :| 0 <= j < |s.keys| && s.keys[j] == k;
      assert t.keys[j] == k;
    }
  }

  lemma UnregisterHost(s: State, live: map<nat, Callback>, key: nat, found: Option<nat>)
    requires s.Agrees(live)
    ensures s.Unregister(key, found).HostKnows(live - {key})
  {
    hide State.RegistryMatches, State.WasmMatches, State.SlotsHold, State.Shape;
  }

  /** A slot freed together with its entry leaves slots and registry matching. */
  lemma EntryRemoved(s: State, t: State, i: nat)
    requires s.Shape() && s.RegistryMatches() && i < |s.keys|
    requires t.table == s.table && t.keys == s.keys[i := 0] && t.registry == s.registry - {s.table[i]}
    ensures t.RegistryMatches()
  {
    assert forall j :: 0 <= j < |s.keys| && j != i ==> s.table[j] != s.table[i];
  }

  lemma UnregisterRegistry(s: State, live: map<nat, Callback>, key: nat, found: Option<nat>)
    requires s.Agrees(live) && s.Finds(key, found)
    ensures s.Unregister(key, found).RegistryMatches()
  {
    ScanFindsSlot(s, live, key, found);
    var t := s.Unregister(key, found);
    var i := IndexOf(s.keys, key);
    if key == 0 || i == |s.keys| {
      assert t.keys == s.keys && t.registry == s.registry;
    } else {
      hide State.HostKnows, State.WasmMatches, State.Finds, State.SlotsHold, State.RegistryMatches, State.Shape;
      EntryRemoved(s, t, i);
    }
  }

  lemma UnregisterWasm(s: State, live: map<nat, Callback>, key: nat, found: Option<nat>)
    requires s.Agrees(live) && s.Finds(key, found)
    ensures s.Unregister(key, found).WasmMatches()
  {
    ScanFindsSlot(s, live, key, found);
    hide State.HostKnows, State.Finds;
    var t := s.Unregister(key, found);
    forall a | a in t.registry
      ensures s.registry[a].key != key
    {
      var j :| 0 <= j < |s.table| && s.table[j] == a;
      assert s.keys[j] == s.registry[a].key;
    }
  }

  lemma UnregisterKeeps(s: State, live: map<nat, Callback>, key: nat, found: Option<nat>)
    requires s.Agrees(live) && s.Finds(key, found)
    ensures s.Unregister(key, found).Agrees(live - {key})
  {
    UnregisterSlots(s, live, key, found);
    UnregisterHost(s, live, key, found);
    UnregisterRegistry(s, live, key, found);
    UnregisterWasm(s, live, key, found);
    hide State.SlotsHold, State.HostKnows, State.RegistryMatches, State.WasmMatches;
  }

  // ------------------------------------------------------------------------------- runs

  datatype Event =
    | Registers(key: nat, cb: Callback, wasmSlot: nat)
    | Unregisters(key: nat, found: Option<nat>)

  /** Live keys are distinct and not null; the wasm backend answers with a slot that is free. */
  ghost predicate Legal(s: State, live: map<nat, Callback>, e: Event) {
    match e
    case Registers(key, _, w) => key != 0 && key !in live && w !in s.wasm
    case Unregisters(key, found) => s.Finds(key, found)
  }

  /** `es` is a run from (s, live) to (t, alive). */
  ghost predicate Run(s: State, live: map<nat, Callback>, es: seq<Event>, t: State, alive: map<nat, Callback>)
    requires |s.table| == |s.keys|
    decreases |es|
  {
    if |es| == 0 then s == t && live == alive
    else
      Legal(s, live, es[0]) &&
      match es[0]
      case Registers(key, cb, w) => Run(s.Register(key, cb, w).0, LiveAfter(s, live, key, cb), es[1..], t, alive)
      case Unregisters(key, found) => Run(s.Unregister(key, found), live - {key}, es[1..], t, alive)
  }

  /** Agreement over every run of registrations with distinct live keys and of removals. */
  lemma {:induction false} RunAgrees(
      s: State, live: map<nat, Callback>, es: seq<Event>, t: State, alive: map<nat, Callback>)
    requires s.Agrees(live) && Run(s, live, es, t, alive)
    ensures t.Agrees(alive)
    decreases |es|
  {
    if |es| > 0 {
      match es[0]
      case Registers(key, cb, w) =>
        RegisterKeeps(s, live, key, cb, w);
        hide State.Agrees, State.Register, State.Unregister;
        assert Run(s.Register(key, cb, w).0, LiveAfter(s, live, key, cb), es[1..], t, alive);
        RunAgrees(s.Register(key, cb, w).0, LiveAfter(s, live, key, cb), es[1..], t, alive);
      case Unregisters(key, found) =>
        UnregisterKeeps(s, live, key, found);
        hide State.Agrees, State.Register, State.Unregister;
        assert Run(s.Unregister(key, found), live - {key}, es[1..], t, alive);
        RunAgrees(s.Unregister(key, found), live - {key}, es[1..], t, alive);
    }
  }

  // ---------------------------------------------------------------------------- the code

  class System {
    /** `g_callback_keys` and `g_trampoline_table` of the shim. */
    const slots: array<nat>
    const table: seq<nat>
    /** `callback_map` of the process sandbox, and what its dispatch loop publishes while a callback runs. */
    var callbackMap: map<nat, Callback>
    var callbackKey: nat
    /** `callback_registry` of the meta sandbox. */
    var registry: map<nat, Record>
    /** The wasm backend's slots, known by contract only. */
    var wasmSlots: map<nat, nat>
    ghost var live: map<nat, Callback>

    ghost function Now(): State
      reads this, slots
    {
      State(table, slots[..], callbackMap, registry, wasmSlots)
    }

    ghost predicate Valid()
      reads this, slots
    {
      Now().Agrees(live) && callbackKey == 0
    }

    constructor (table: seq<nat>)
      requires forall i :: 0 <= i < |table| ==> table[i] != 0
      requires forall i, j :: 0 <= i < |table| && 0 <= j < |table| && table[i] == table[j] ==> i == j
      ensures Valid() && live == map[] && this.table == table && fresh(slots)
    {
      this.table, slots := table, new nat[|table|](_ => 0);
      callbackMap, callbackKey, registry, wasmSlots, live := map[], 0, map[], map[], map[];
    }

    /** `handle_register_callback`: compare-and-exchange over the slots until one takes the key. */
    method ShimRegister(key: nat) returns (address: nat)
      requires |table| == slots.Length
      modifies slots
      ensures var i := IndexOf(old(slots[..]), 0);
        if i == slots.Length then address == 0 && slots[..] == old(slots[..])
        else address == table[i] && slots[..] == old(slots[..])[i := key]
    {
      var i := 0;
      while i < slots.Length
        invariant 0 <= i <= slots.Length
        invariant slots[..] == old(slots[..])
        invariant forall j :: 0 <= j < i ==> slots[j] != 0
      {
        if slots[i] == 0 {
          IndexIs(slots[..], 0, i);
          slots[i] := key;
          return table[i];
        }
        i := i + 1;
      }
      IndexIs(slots[..], 0, i);
      address := 0;
    }

    /** `handle_unregister_callback`. */
    method ShimUnregister(key: nat)
      modifies slots
      ensures var i := IndexOf(old(slots[..]), key);
        slots[..] == if i == slots.Length then old(slots[..]) else old(slots[..])[i := 0]
    {
      var i := 0;
      while i < slots.Length
        invariant 0 <= i <= slots.Length
        invariant slots[..] == old(slots[..])
        invariant forall j :: 0 <= j < i ==> slots[j] != key
      {
        if slots[i] == key {
          IndexIs(slots[..], key, i);
          slots[i] := 0;
          return;
        }
        i := i + 1;
      }
      IndexIs(slots[..], key, i);
    }

    /**
     `impl_register_callback` of the process sandbox and then of the meta sandbox; the slot
     is what the wasm backend answers. Any key is taken; the agreement is kept for one that
     is neither null nor live.
     */
    method RegisterCallback(key: nat, cb: Callback, wasmSlot: nat) returns (address: nat)
      requires Now().Shape() && callbackKey == 0
      modifies this, slots
      ensures (Now(), address) == old(Now()).Register(key, cb, wasmSlot)
      ensures live == LiveAfter(old(Now()), old(live), key, cb)
      ensures old(Valid()) && key != 0 && key !in old(live) && wasmSlot !in old(wasmSlots) ==> Valid()
      ensures address == 0 <==> forall i :: 0 <= i < slots.Length ==> old(slots[i]) != 0
    {
      hide State.SlotsHold, State.HostKnows, State.RegistryMatches, State.WasmMatches, State.Finds;
      ghost var before := Now();
      callbackMap := callbackMap[key := cb];
      address := ShimRegister(key);
      if address != 0 {
        wasmSlots := wasmSlots[wasmSlot := key];
        if address !in registry {
          registry := registry[address := Record(wasmSlot, key)];
        }
        live := live[key := cb];
      }
      assert forall i :: 0 <= i < slots.Length ==> before.keys[i] == old(slots[i]);
      FailsWhenFull(before, key, cb, wasmSlot);
      if before.Agrees(old(live)) && key != 0 && key !in old(live) && wasmSlot !in before.wasm {
        RegisterKeeps(before, old(live), key, cb, wasmSlot);
      }
    }

    /** `impl_unregister_callback` of the meta sandbox and then of both backends, for any key. */
    method UnregisterCallback(key: nat)
      requires Now().Shape() && callbackKey == 0
      modifies this, slots
      ensures exists found :: old(Now()).Finds(key, found) && Now() == old(Now()).Unregister(key, found)
      ensures live == old(live) - {key}
      ensures old(Valid()) ==> Valid()
    {
      hide State.SlotsHold, State.HostKnows, State.RegistryMatches, State.WasmMatches;
      ghost var before := Now();
      ghost var found: Option<nat> := None;
      if a :| a in registry && registry[a].key == key {
        registry, found := registry - {a}, Some(a);
      }
      callbackMap := callbackMap - {key};
      ShimUnregister(key);
      wasmSlots := map w | w in wasmSlots && wasmSlots[w] != key :: wasmSlots[w];
      live := live - {key};
      assert before.Finds(key, found);
      if before.Agrees(old(live)) {
        UnregisterKeeps(before, old(live), key, found);
      }
      assert Now() == before.Unregister(key, found);
    }

    /**
     A call of trampoline `i` from library code, through to the host's dispatch loop: which
     callback runs, and the key it sees as its own while it does.
     */
    method Fire(i: nat) returns (ran: Option<Callback>, seen: nat)
      requires callbackKey == 0 && i < slots.Length
      modifies this`callbackKey
      ensures callbackKey == 0
      ensures ran == Now().Reached(i) && (ran.Some? ==> seen == slots[i])
      ensures Valid() ==> ran == if slots[i] == 0 then None else Some(live[slots[i]])
    {
      ran, seen := None, 0;
      var key := slots[i];
      assert key == Now().keys[i];
      if key != 0 {
        if key in callbackMap {
          callbackKey := key;
          seen := callbackKey;
          ran := Some(callbackMap[key]);
          callbackKey := 0;
        }
      }
    }
  }

  lemma {:induction false} IndexIs(s: seq<nat>, v: nat, i: nat)
    requires i <= |s| && (i < |s| ==> s[i] == v) && forall j :: 0 <= j < i ==> s[j] != v
    ensures IndexOf(s, v) == i
  {}
}
