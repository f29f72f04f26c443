/**
 The allocation registry of `rlbox_meta_sandbox`: user allocations live on one of two
 backend heaps, the registry maps each tagged pointer to its owner, and allocations of a
 registered struct type carry a second block, a scratch, on the wasm heap.
 */
module MetaAlloc {
  import opened Options

  datatype Backend = Process | Wasm

  /** Parameters of the host: the tag bit as a number, and the size of wasm's linear memory. */
  datatype Host = Host(tag: nat, wasmMemory: nat) {
    /** Wasm offsets leave the tag bit free. */
    ghost predicate Valid() {
      0 < wasmMemory <= tag
    }

    function TagOwner(p: nat): Backend {
      if p >= tag then Wasm else Process
    }

    function TagStrip(p: nat): nat {
      if p >= tag then p - tag else p
    }

    function TagWasm(p: nat): nat {
      if p >= tag then p else p + tag
    }

    /** The registry key of a wasm offset. */
    ghost function Offset(a: nat): nat {
      a + tag
    }
  }

  /** Tagging and stripping are inverse on values that leave the tag bit free. */
  lemma TagRoundTrip(host: Host, p: nat)
    requires p < 2 * host.tag
    ensures host.TagStrip(host.TagWasm(p)) == host.TagStrip(p) < host.tag
    ensures host.TagOwner(host.TagWasm(p)) == Wasm && host.TagOwner(host.TagStrip(p)) == Process
    ensures p == if host.TagOwner(p) == Wasm then host.TagWasm(host.TagStrip(p)) else host.TagStrip(p)
  {}

  /**
   A backend allocator, known only by its contract: it answers with a fresh block in its
   address range or with 0, and takes back blocks that are live. The ghost fields count
   how often each address was handed out and taken back, how often the answer was 0, and
   how often it was given an address that it does not hold.
   */
  class Heap {
    const lo: nat
    const hi: nat
    var live: set<nat>
    ghost var allocs: multiset<nat>
    ghost var frees: multiset<nat>
    ghost var refusals: nat
    ghost var misuses: nat

    ghost predicate Valid()
      reads this
    {
      && 0 < lo
      && (forall p :: p in live ==> lo <= p < hi)
      && allocs == frees + multiset(live)
    }

    constructor (lo: nat, hi: nat)
      requires 0 < lo
      ensures Valid() && live == {} && allocs == frees == multiset{}
      ensures this.lo == lo && this.hi == hi
    {
      this.lo, this.hi := lo, hi;
      live, allocs, frees, refusals, misuses := {}, multiset{}, multiset{}, 0, 0;
    }

    method Malloc() returns (p: nat)
      requires Valid()
      modifies this
      ensures Valid()
      ensures p != 0 ==> lo <= p < hi && p !in old(live)
      ensures live == (if p == 0 then old(live) else old(live) + {p})
      ensures allocs == (if p == 0 then old(allocs) else old(allocs) + multiset{p}) && frees == old(frees)
      ensures refusals == old(refusals) + (if p == 0 then 1 else 0) && misuses == old(misuses)
    {
      p :| p == 0 || (lo <= p < hi && p !in live);
      if p != 0 {
        live, allocs := live + {p}, allocs + multiset{p};
      } else {
        refusals := refusals + 1;
      }
    }

    /** Taking back a block; nothing happens to null. */
    method Free(p: nat)
      requires Valid()
      modifies this
      ensures Valid()
      ensures live == old(live) - {p}
      ensures frees == old(frees) + (if p in old(live) then multiset{p} else multiset{})
      ensures allocs == old(allocs) && refusals == old(refusals)
      ensures misuses == old(misuses) + if p in old(live) || p == 0 then 0 else 1
    {
      assert p !in live ==> live - {p} == live;
      if p in live {
        assert multiset(live) == multiset(live - {p}) + multiset{p};
        live, frees := live - {p}, frees + multiset{p};
      } else if p != 0 {
        misuses := misuses + 1;
      }
    }
  }

  /** `meta_struct_type_info`; the symbol stands for its translator. */
  datatype StructType = StructType(symbol: string, hostSize: nat, wasmSize: nat)

  /** `meta_struct_alloc_info`. */
  datatype StructAlloc = StructAlloc(scratch: nat, symbol: string)

  /** The registered types of a size, in order of registration. */
  function Matches(types: seq<StructType>, size: nat): seq<StructType> {
    if |types| == 0 then []
    else
      var rest := Matches(types[..|types| - 1], size);
      if types[|types| - 1].hostSize == size then rest + [types[|types| - 1]] else rest
  }

  /** One block at `p`, or none when `p` is null. */
  ghost function Once(p: nat): multiset<nat> {
    if p == 0 then multiset{} else multiset{p}
  }

  ghost function Block(p: nat): set<nat> {
    if p == 0 then {} else {p}
  }

  /** What a call comes to: a value, or the end of the process. */
  datatype Outcome<T> = Done(value: T) | Aborted

  // ------------------------------------------------------------- the abstract state

  /** The blocks that struct allocations hold as scratch. */
  ghost function Scratches(structs: map<nat, StructAlloc>): set<nat> {
    set k | k in structs :: structs[k].scratch
  }

  ghost predicate DistinctScratches(structs: map<nat, StructAlloc>) {
    forall k, l :: k in structs && l in structs && structs[k].scratch == structs[l].scratch ==> k == l
  }

  lemma ScratchAdded(m: map<nat, StructAlloc>, k: nat, a: StructAlloc)
    requires k !in m && a.scratch !in Scratches(m) && DistinctScratches(m)
    ensures Scratches(m[k := a]) == Scratches(m) + {a.scratch} && DistinctScratches(m[k := a])
  {
    var n := m[k := a];
    forall s | s in Scratches(m) + {a.scratch}
      ensures s in Scratches(n)
    {
      if s == a.scratch {
        assert n[k].scratch == s;
      } else {
        var l :| l in m && m[l].scratch == s;
        assert n[l].scratch == s;
      }
    }
  }

  lemma ScratchRemoved(m: map<nat, StructAlloc>, k: nat)
    requires k in m && DistinctScratches(m)
    ensures Scratches(m - {k}) == Scratches(m) - {m[k].scratch} && DistinctScratches(m - {k})
    ensures m[k].scratch in Scratches(m)
  {
    var n := m - {k};
    forall s | s in Scratches(m) && s != m[k].scratch
      ensures s in Scratches(n)
    {
      var l :| l in m && m[l].scratch == s;
      assert l in n && n[l].scratch == s;
    }
  }

  /**
   What is live: the two heaps, the registry, the scratches, and on either heap the
   blocks that library code allocated for itself and the registry does not know.
   */
  datatype View = View(process: set<nat>, wasm: set<nat>, owner: map<nat, Backend>,
                       structs: map<nat, StructAlloc>, foreignProcess: set<nat>, foreignWasm: set<nat>)
  {
    /** Every entry's owner is its tag bit, and process blocks lie above wasm's memory. */
    ghost predicate OwnersTagged(host: Host) {
      forall k :: k in owner ==>
        && owner[k] == host.TagOwner(k)
        && if owner[k] == Wasm then 0 < k - host.tag < host.wasmMemory else host.wasmMemory <= k
    }

    /** The process heap is the process-owned allocations and the foreign blocks, each once. */
    ghost predicate ProcessConserved(host: Host) {
      && (forall a :: a in process <==> a in foreignProcess || (a in owner && a < host.tag))
      && (forall a :: a in foreignProcess ==> host.wasmMemory <= a < host.tag && a !in owner)
    }

    /** The wasm heap is the wasm-owned allocations, the scratches and the foreign blocks, each once. */
    ghost predicate WasmConserved(host: Host) {
      && (forall a :: a in wasm <==> a in foreignWasm || a in Scratches(structs) || host.Offset(a) in owner)
      && (forall a :: a in Scratches(structs) ==> host.Offset(a) !in owner)
      && (forall a :: a in foreignWasm ==> host.Offset(a) !in owner && a !in Scratches(structs))
      && (forall a :: a in wasm ==> 0 < a < host.wasmMemory)
      && DistinctScratches(structs)
      && structs.Keys <= owner.Keys
    }

    ghost predicate Conserved(host: Host) {
      OwnersTagged(host) && ProcessConserved(host) && WasmConserved(host)
    }

    /** A fresh user block at `a`. */
    ghost function Alloc(host: Host, choice: Backend, a: nat): View {
      if choice == Wasm then this.(wasm := wasm + {a}, owner := owner[host.Offset(a) := Wasm])
      else this.(process := process + {a}, owner := owner[a := Process])
    }

    /** A scratch for the user block `k`. */
    ghost function Attach(k: nat, s: StructAlloc): View {
      this.(wasm := wasm + {s.scratch}, structs := structs[k := s])
    }

    /** The user block `k` is gone, and its scratch with it. */
    ghost function Release(host: Host, k: nat): View
      requires k in owner
    {
      var scratch := if k in structs then {structs[k].scratch} else {};
      View(if owner[k] == Wasm then process else process - {k},
           if owner[k] == Wasm then wasm - scratch - {host.TagStrip(k)} else wasm - scratch,
           owner - {k}, structs - {k}, foreignProcess, foreignWasm)
    }

    /** The pointer `k` to address `a` enters the registry, and is not foreign any more. */
    ghost function Adopt(b: Backend, k: nat, a: nat): View {
      if b == Wasm then this.(owner := owner[k := b], foreignWasm := foreignWasm - {a})
      else this.(owner := owner[k := b], foreignProcess := foreignProcess - {a})
    }

    /** An entry for `k`, with some other account of the foreign blocks. */
    ghost function WithEntry(k: nat, b: Backend, fp: set<nat>, fw: set<nat>): View {
      this.(owner := owner[k := b], foreignProcess := fp, foreignWasm := fw)
    }

    /** Library code allocates a block for itself. */
    ghost function Foreign(b: Backend, a: nat): View {
      if b == Wasm then this.(wasm := wasm + {a}, foreignWasm := foreignWasm + {a})
      else this.(process := process + {a}, foreignProcess := foreignProcess + {a})
    }

    /** The foreign block at `a` is gone. */
    ghost function ReleaseForeign(b: Backend, a: nat): View {
      if b == Wasm then this.(wasm := wasm - {a}, foreignWasm := foreignWasm - {a})
      else this.(process := process - {a}, foreignProcess := foreignProcess - {a})
    }
  }

  lemma AllocConserves(host: Host, v: View, choice: Backend, a: nat)
    requires host.Valid() && v.Conserved(host)
    requires if choice == Wasm then a !in v.wasm && 0 < a < host.wasmMemory
             else a !in v.process && host.wasmMemory <= a < host.tag
    ensures v.Alloc(host, choice, a).Conserved(host)
    ensures (if choice == Wasm then host.Offset(a) else a) !in v.owner
  {
    hide Scratches, DistinctScratches;
  }

  lemma AttachConserves(host: Host, v: View, k: nat, s: StructAlloc)
    requires host.Valid() && v.Conserved(host)
    requires k in v.owner && k !in v.structs && s.scratch !in v.wasm && 0 < s.scratch < host.wasmMemory
    ensures v.Attach(k, s).Conserved(host)
  {
    ScratchAdded(v.structs, k, s);
    hide Scratches, DistinctScratches;
  }

  lemma ReleaseOwners(host: Host, v: View, k: nat)
    requires host.Valid() && v.Conserved(host) && k in v.owner
    ensures v.Release(host, k).OwnersTagged(host) && v.Release(host, k).ProcessConserved(host)
    ensures if v.owner[k] == Wasm then host.TagStrip(k) in v.wasm else k in v.process && host.TagStrip(k) == k
  {
    hide Scratches, DistinctScratches;
    assert v.owner[k] == Wasm ==> host.Offset(host.TagStrip(k)) == k;
  }

  lemma ReleaseConserves(host: Host, v: View, k: nat)
    requires host.Valid() && v.Conserved(host) && k in v.owner
    ensures v.Release(host, k).Conserved(host)
    ensures if v.owner[k] == Wasm then host.TagStrip(k) in v.wasm else k in v.process && host.TagStrip(k) == k
    ensures k in v.structs ==>
      v.structs[k].scratch in v.wasm && (v.owner[k] == Wasm ==> v.structs[k].scratch != host.TagStrip(k))
  {
    ReleaseOwners(host, v, k);
    if k in v.structs {
      ScratchRemoved(v.structs, k);
    } else {
      assert v.structs - {k} == v.structs;
    }
    hide Scratches, DistinctScratches, View.ProcessConserved;
    assert v.owner[k] == Wasm ==> host.Offset(host.TagStrip(k)) == k;
  }

  lemma ReleaseForeignConserves(host: Host, v: View, b: Backend, a: nat)
    requires host.Valid() && v.Conserved(host)
    requires if b == Wasm then a in v.foreignWasm else a in v.foreignProcess
    ensures v.ReleaseForeign(b, a).Conserved(host)
    ensures if b == Wasm then a in v.wasm else a in v.process
  {
    hide Scratches, DistinctScratches;
  }

  // ---------------------------------------------------------------- looking pointers up

  /** The registry entry a pointer means: its own, or for an untagged one that of the tagged form. */
  function KeyOf(host: Host, owner: map<nat, Backend>, p: nat): (k: Option<nat>)
    ensures k.Some? ==> k.value in owner
  {
    if p in owner then Some(p)
    else if p < host.tag && host.TagWasm(p) in owner then Some(host.TagWasm(p))
    else None
  }

  /** An allocation is found under its tagged and under its stripped form alike. */
  lemma FoundInBothForms(host: Host, v: View, k: nat)
    requires host.Valid() && v.Conserved(host) && k in v.owner
    ensures KeyOf(host, v.owner, k) == Some(k)
    ensures KeyOf(host, v.owner, host.TagStrip(k)) == Some(k)
  {}

  /** `p` is the pointer to something live: an allocation in either form, or a foreign block. */
  ghost predicate Live(host: Host, v: View, p: nat) {
    || KeyOf(host, v.owner, p).Some?
    || (if host.TagOwner(p) == Wasm then host.TagStrip(p) in v.foreignWasm else p in v.foreignProcess)
  }

  /** The state after `p` is freed. */
  ghost function Freed(host: Host, v: View, p: nat): View
    requires Live(host, v, p)
  {
    match KeyOf(host, v.owner, p)
    case Some(k) => v.Release(host, k)
    case None => v.ReleaseForeign(host.TagOwner(p), host.TagStrip(p))
  }

  /** What is to be given back for `p`, and that giving it back keeps everything accounted for. */
  lemma FreedConserves(host: Host, v: View, p: nat)
    requires host.Valid() && v.Conserved(host) && Live(host, v, p)
    ensures Freed(host, v, p).Conserved(host)
    ensures match KeyOf(host, v.owner, p)
      case Some(k) =>
        && k in v.owner
        && (if v.owner[k] == Wasm then host.TagStrip(k) in v.wasm else host.TagStrip(k) in v.process && host.TagStrip(k) == k)
        && (k in v.structs ==> v.structs[k].scratch != 0 && v.structs[k].scratch in v.wasm)
        && (k in v.structs && v.owner[k] == Wasm ==> v.structs[k].scratch != host.TagStrip(k))
      case None =>
        && p !in v.structs
        && v.structs - {p} == v.structs
        && (if host.TagOwner(p) == Wasm then host.TagStrip(p) in v.wasm else host.TagStrip(p) in v.process)
  {
    match KeyOf(host, v.owner, p)
    case Some(k) =>
      ReleaseConserves(host, v, k);
    case None =>
      ReleaseForeignConserves(host, v, host.TagOwner(p), host.TagStrip(p));
  }

  datatype Target = Target(key: nat, heap: Backend)

  /** The entry that freeing `p` takes out, or `p` itself, and the heap that it asks. */
  function Asked(host: Host, owner: map<nat, Backend>, p: nat): Target {
    match KeyOf(host, owner, p)
    case Some(k) => Target(k, owner[k])
    case None => Target(p, host.TagOwner(p))
  }

  /** The heap asked holds the block. */
  ghost predicate Held(host: Host, v: View, p: nat) {
    var t := Asked(host, v.owner, p);
    if t.heap == Wasm then host.TagStrip(t.key) in v.wasm else host.TagStrip(t.key) in v.process
  }

  /** `p` is not live, but the tagged pointer to a scratch. */
  ghost predicate ScratchPointer(host: Host, v: View, p: nat) {
    !Live(host, v, p) && host.TagOwner(p) == Wasm && host.TagStrip(p) in Scratches(v.structs)
  }

  /** The state after any pointer is freed. */
  ghost function FreedAny(host: Host, v: View, p: nat): View {
    if p == 0 then v
    else if Live(host, v, p) then Freed(host, v, p)
    else if host.TagOwner(p) == Wasm then v.(wasm := v.wasm - {host.TagStrip(p)})
    else v
  }

  /** The effect of freeing in the terms of the code. */
  lemma HeldParts(host: Host, v: View, p: nat, key: nat, owner: Backend, scratch: nat)
    requires host.Valid() && v.Conserved(host) && p != 0 && Asked(host, v.owner, p) == Target(key, owner)
    requires scratch == if key in v.structs then v.structs[key].scratch else 0
    ensures var raw := host.TagStrip(key);
      && FreedAny(host, v, p).process == v.process - (if owner == Process then {raw} else {})
      && FreedAny(host, v, p).wasm == v.wasm - Block(scratch) - (if owner == Wasm then {raw} else {})
      && FreedAny(host, v, p).structs == v.structs - {key}
      && FreedAny(host, v, p).owner == (if KeyOf(host, v.owner, p).Some? then v.owner - {key} else v.owner)
      && (Held(host, v, p) <==> if owner == Wasm then raw in v.wasm else raw in v.process)
      && (scratch != 0 ==> scratch in v.wasm && (owner == Wasm ==> raw != scratch))
    ensures !Held(host, v, p) ==> owner == host.TagOwner(p) && key == p
  {
    NullIsNotLive(host, v);
    if Live(host, v, p) {
      LiveParts(host, v, p, key, owner, scratch);
    } else {
      NotLiveParts(host, v, p);
    }
  }

  lemma LiveParts(host: Host, v: View, p: nat, key: nat, owner: Backend, scratch: nat)
    requires host.Valid() && v.Conserved(host) && Live(host, v, p) && Asked(host, v.owner, p) == Target(key, owner)
    requires scratch == if key in v.structs then v.structs[key].scratch else 0
    ensures var raw := host.TagStrip(key);
      && Freed(host, v, p).process == v.process - (if owner == Process then {raw} else {})
      && Freed(host, v, p).wasm == v.wasm - Block(scratch) - (if owner == Wasm then {raw} else {})
      && Freed(host, v, p).structs == v.structs - {key}
      && Freed(host, v, p).owner == if KeyOf(host, v.owner, p).Some? then v.owner - {key} else v.owner
    ensures scratch != 0 ==> scratch in v.wasm
    ensures var raw := host.TagStrip(key);
      if owner == Wasm then raw in v.wasm && raw != scratch else raw in v.process
  {
    hide View.Conserved;
    FreedConserves(host, v, p);
    assert owner == Wasm ==> host.TagStrip(key) in v.wasm;
    if owner == Wasm && key !in v.structs {
      NullIsNotLive(host, v);
    }
  }

  lemma NotLiveParts(host: Host, v: View, p: nat)
    requires host.Valid() && v.Conserved(host) && !Live(host, v, p)
    ensures p !in v.structs && v.structs - {p} == v.structs
    ensures host.TagOwner(p) == Process ==> host.TagStrip(p) == p && p !in v.process
  {
    hide Scratches, DistinctScratches;
  }

  /** The heap asked holds the block exactly when the pointer is live, or the tagged one to a scratch. */
  lemma HeldWhen(host: Host, v: View, p: nat)
    requires host.Valid() && v.Conserved(host)
    ensures Held(host, v, p) <==>
      Live(host, v, p) || ScratchPointer(host, v, p)
  {
    hide DistinctScratches, Scratches;
    if Live(host, v, p) {
      LiveHeld(host, v, p);
    } else {
      NotLiveParts(host, v, p);
      assert host.TagOwner(p) == Wasm ==> host.Offset(host.TagStrip(p)) == p;
    }
  }

  lemma LiveHeld(host: Host, v: View, p: nat)
    requires host.Valid() && v.Conserved(host) && Live(host, v, p)
    ensures Held(host, v, p)
  {
    hide View.Conserved;
    var t := Asked(host, v.owner, p);
    LiveParts(host, v, p, t.key, t.heap, if t.key in v.structs then v.structs[t.key].scratch else 0);
  }

  /**
   Freeing keeps everything accounted for exactly when the pointer is not the tagged one to
   a scratch; then the scratch is gone and its entry stays.
   */
  lemma FreeKeeps(host: Host, v: View, p: nat)
    requires host.Valid() && v.Conserved(host)
    ensures FreedAny(host, v, p).Conserved(host) <==>
      !ScratchPointer(host, v, p)
  {
    if p != 0 && Live(host, v, p) {
      FreedConserves(host, v, p);
    } else {
      HeldWhen(host, v, p);
      NotLiveParts(host, v, p);
      if host.TagOwner(p) == Wasm && host.TagStrip(p) !in Scratches(v.structs) {
        assert v.wasm - {host.TagStrip(p)} == v.wasm;
        assert FreedAny(host, v, p) == v;
      } else if host.TagOwner(p) == Wasm {
        assert host.TagStrip(p) !in FreedAny(host, v, p).wasm;
      }
    }
  }

  /**
   Of a block that heap `b` holds at `a`, by either of its pointers: the call asks that heap
   for that block exactly when the pointer is registered in either form, or its tag bit
   names the heap.
   */
  lemma FreeFindsBlock(host: Host, v: View, b: Backend, a: nat, p: nat)
    requires host.Valid() && v.Conserved(host)
    requires if b == Wasm then a in v.wasm && (p == a || p == host.TagWasm(a)) else a in v.process && p == a
    ensures var t := Asked(host, v.owner, p);
      (t.heap == b && host.TagStrip(t.key) == a) <==> KeyOf(host, v.owner, p).Some? || host.TagOwner(p) == b
  {
    hide DistinctScratches, Scratches;
  }

  /** The offset of a block that wasm code allocated for itself goes to the process heap, which does not hold it. */
  lemma UntaggedOffset(host: Host, v: View, a: nat)
    requires host.Valid() && v.Conserved(host) && a in v.foreignWasm
    ensures Asked(host, v.owner, a) == Target(a, Process) && !Held(host, v, a) && FreedAny(host, v, a) == v
    ensures Live(host, v, host.TagWasm(a)) && FreedAny(host, v, host.TagWasm(a)).wasm == v.wasm - {a}
  {
    hide DistinctScratches, Scratches;
  }

  lemma NullIsNotLive(host: Host, v: View)
    requires host.Valid() && v.Conserved(host)
    ensures 0 !in v.wasm && 0 !in v.process
  {
    hide Scratches, DistinctScratches;
  }

  // ---------------------------------------------------------------------- the sandbox

  class Meta {
    const host: Host
    const process: Heap
    const wasm: Heap
    var allocOwner: map<nat, Backend>
    var structTypes: seq<StructType>
    var structAllocs: map<nat, StructAlloc>
    var mallocsOnProcess: nat
    var mallocsOnWasm: nat
    ghost var foreignProcess: set<nat>
    ghost var foreignWasm: set<nat>

    ghost function Now(): View
      reads this, process, wasm
    {
      View(process.live, wasm.live, allocOwner, structAllocs, foreignProcess, foreignWasm)
    }

    /** The two heaps are apart: process addresses lie above wasm's linear memory. */
    ghost predicate Shape()
      reads this, process, wasm
    {
      && process != wasm && host.Valid() && process.Valid() && wasm.Valid()
      && process.lo >= host.wasmMemory && wasm.hi <= host.wasmMemory
    }

    ghost predicate Valid()
      reads this, process, wasm
    {
      Shape() && Now().Conserved(host)
    }

    constructor (host: Host, process: Heap, wasm: Heap)
      requires process != wasm && host.Valid() && process.Valid() && wasm.Valid()
      requires process.lo >= host.wasmMemory && wasm.hi <= host.wasmMemory
      requires process.live == wasm.live == {}
      ensures Valid() && this.host == host && this.process == process && this.wasm == wasm
      ensures Now() == View({}, {}, map[], map[], {}, {}) && structTypes == []
    {
      this.host, this.process, this.wasm := host, process, wasm;
      allocOwner, structTypes, structAllocs := map[], [], map[];
      mallocsOnProcess, mallocsOnWasm := 0, 0;
      foreignProcess, foreignWasm := {}, {};
      new;
      assert Scratches(map[]) == {};
    }

    /** The wasm branch of the backend allocation, recorded with its owner. */
    method AllocateWasm() returns (p: nat)
      requires Valid()
      modifies this`allocOwner, this`mallocsOnWasm, wasm
      ensures Valid()
      ensures wasm.frees == old(wasm.frees) && wasm.allocs == old(wasm.allocs) + Once(host.TagStrip(p))
      ensures mallocsOnWasm == old(mallocsOnWasm) + if p == 0 then 0 else 1
      ensures wasm.refusals == old(wasm.refusals) + if p == 0 then 1 else 0
      ensures p != 0 ==> p !in old(allocOwner) && host.TagOwner(p) == Wasm
      ensures Now() == if p == 0 then old(Now()) else old(Now()).Alloc(host, Wasm, host.TagStrip(p))
    {
      hide Scratches, DistinctScratches, View.Conserved, View.OwnersTagged, View.ProcessConserved, View.WasmConserved;
      ghost var before := Now();
      var raw := wasm.Malloc();
      if raw == 0 {
        return 0;
      }
      AllocConserves(host, before, Wasm, raw);
      p := host.TagWasm(raw);
      assert p == host.Offset(raw) && host.TagStrip(p) == raw;
      mallocsOnWasm := mallocsOnWasm + 1;
      allocOwner := allocOwner[p := Wasm];
      assert Now() == before.Alloc(host, Wasm, raw);
    }

    /** The process branch: an address with the tag bit set ends the process. */
    method AllocateProcess() returns (r: Outcome<nat>)
      requires Valid()
      modifies this`allocOwner, this`mallocsOnProcess, process
      ensures process.frees == old(process.frees)
      ensures r.Aborted? ==> exists p :: p in process.live && p >= host.tag
      ensures r.Done? ==> Valid() && process.allocs == old(process.allocs) + Once(r.value)
      ensures r.Done? ==> mallocsOnProcess == old(mallocsOnProcess) + if r.value == 0 then 0 else 1
      ensures r == Done(0) ==> process.refusals > old(process.refusals)
      ensures r.Done? && r.value != 0 ==> r.value !in old(allocOwner) && host.TagOwner(r.value) == Process
      ensures r.Done? ==>
        Now() == if r.value == 0 then old(Now()) else old(Now()).Alloc(host, Process, host.TagStrip(r.value))
    {
      hide Scratches, DistinctScratches, View.Conserved, View.OwnersTagged, View.ProcessConserved, View.WasmConserved;
      ghost var before := Now();
      var p := process.Malloc();
      if p == 0 {
        return Done(0);
      }
      if p >= host.tag {
        return Aborted;
      }
      AllocConserves(host, before, Process, p);
      mallocsOnProcess := mallocsOnProcess + 1;
      allocOwner := allocOwner[p := Process];
      assert Now() == before.Alloc(host, Process, p);
      r := Done(p);
    }

    /** The chosen backend has answered 0. */
    twostate predicate Refused(choice: Backend)
      reads process, wasm
    {
      if choice == Wasm then wasm.refusals > old(wasm.refusals) else process.refusals > old(process.refusals)
    }

    /** The branch on the policy's choice. */
    method AllocateBlock(choice: Backend) returns (r: Outcome<nat>)
      requires Valid()
      modifies this`allocOwner, this`mallocsOnProcess, this`mallocsOnWasm, process, wasm
      ensures process.frees == old(process.frees) && wasm.frees == old(wasm.frees)
      ensures r.Aborted? ==> choice == Process && exists p :: p in process.live && p >= host.tag
      ensures r == Done(0) ==> Refused(choice)
      ensures wasm.refusals >= old(wasm.refusals)
      ensures r.Done? ==>
        && Valid()
        && process.allocs == old(process.allocs) + Once(if choice == Process then r.value else 0)
        && wasm.allocs == old(wasm.allocs) + Once(if choice == Wasm then host.TagStrip(r.value) else 0)
      ensures r.Done? && r.value != 0 ==> r.value !in old(allocOwner) && host.TagOwner(r.value) == choice
      ensures r.Done? ==>
        Now() == if r.value == 0 then old(Now()) else old(Now()).Alloc(host, choice, host.TagStrip(r.value))
      ensures r.Done? && r.value != 0 ==>
        && mallocsOnProcess == old(mallocsOnProcess) + (if choice == Process then 1 else 0)
        && mallocsOnWasm == old(mallocsOnWasm) + (if choice == Wasm then 1 else 0)
    {
      hide View.Conserved, View.Alloc;
      if choice == Wasm {
        var p := AllocateWasm();
        r := Done(p);
      } else {
        r := AllocateProcess();
      }
    }

    /** The loop over registered struct types: how many have this size, and the last that has. */
    method FindMatch(size: nat) returns (count: nat, last: Option<StructType>)
      ensures count == |Matches(structTypes, size)|
      ensures last == if count == 0 then None else Some(Matches(structTypes, size)[count - 1])
    {
      count, last := 0, None;
      var i := 0;
      while i < |structTypes|
        invariant 0 <= i <= |structTypes|
        invariant count == |Matches(structTypes[..i], size)|
        invariant last == if count == 0 then None else Some(Matches(structTypes[..i], size)[count - 1])
      {
        assert structTypes[..i + 1][..i] == structTypes[..i];
        if structTypes[i].hostSize == size {
          count, last := count + 1, Some(structTypes[i]);
        }
        i := i + 1;
      }
      assert structTypes[..i] == structTypes;
    }

    /** The co-allocation of a scratch for a fresh block of a struct type. */
    method CoAllocate(p: nat, t: StructType) returns (ghost scratch: nat)
      requires Valid() && p in allocOwner && p !in structAllocs
      modifies this`structAllocs, wasm
      ensures Valid()
      ensures wasm.frees == old(wasm.frees) && wasm.allocs == old(wasm.allocs) + Once(scratch)
      ensures wasm.refusals == old(wasm.refusals) + if scratch == 0 then 1 else 0
      ensures Now() == if scratch == 0 then old(Now()) else old(Now()).Attach(p, StructAlloc(scratch, t.symbol))
    {
      hide Scratches, DistinctScratches, View.Conserved, View.OwnersTagged, View.ProcessConserved, View.WasmConserved;
      ghost var before := Now();
      var s := wasm.Malloc();
      if s != 0 {
        AttachConserves(host, before, p, StructAlloc(s, t.symbol));
        structAllocs := structAllocs[p := StructAlloc(s, t.symbol)];
      }
      scratch := s;
    }

    /** The struct type matching and the co-allocation. */
    method CoAllocateFor(p: nat, size: nat) returns (ok: bool, ghost scratch: nat)
      requires Valid() && p in allocOwner && p !in structAllocs
      modifies this`structAllocs, wasm
      ensures Valid()
      ensures wasm.frees == old(wasm.frees) && wasm.allocs == old(wasm.allocs) + Once(scratch)
      ensures ok <==> |Matches(structTypes, size)| <= 1
      ensures scratch != 0 ==> |Matches(structTypes, size)| == 1 && Matches(structTypes, size)[0].wasmSize != 0
      ensures wasm.refusals >= old(wasm.refusals)
      ensures |Matches(structTypes, size)| == 1 && Matches(structTypes, size)[0].wasmSize != 0 ==>
        scratch != 0 || wasm.refusals > old(wasm.refusals)
      ensures Now() == if scratch == 0 then old(Now())
                       else old(Now()).Attach(p, StructAlloc(scratch, Matches(structTypes, size)[0].symbol))
    {
      hide View.Conserved, View.Attach, Matches, Shape;
      scratch := 0;
      var count, last := FindMatch(size);
      ok := count <= 1;
      if ok && last.Some? && last.value.wasmSize != 0 {
        scratch := CoAllocate(p, last.value);
      }
    }

    /** The state a successful allocation of `p` leaves, with `scratch` 0 where there is none. */
    static ghost function Allocated(host: Host, v: View, choice: Backend, p: nat, scratch: nat, symbol: string): View {
      var w := v.Alloc(host, choice, host.TagStrip(p));
      if scratch == 0 then w else w.Attach(p, StructAlloc(scratch, symbol))
    }

    /**
     `impl_malloc_in_sandbox`: a null answer changes nothing; otherwise the block is fresh,
     tagged with the chosen backend and, when exactly one registered type has its size and
     a wasm size, given a scratch unless the wasm heap refuses one. It aborts only on a
     process address in the tag bit or on a size that two registered types share.
     */
    method Malloc(size: nat, choice: Backend) returns (r: Outcome<nat>, ghost scratch: nat)
      requires Valid()
      modifies this`allocOwner, this`structAllocs, this`mallocsOnProcess, this`mallocsOnWasm, process, wasm
      ensures process.frees == old(process.frees) && wasm.frees == old(wasm.frees)
      ensures r.Aborted? ==>
        || (choice == Process && exists p :: p in process.live && p >= host.tag)
        || |Matches(structTypes, size)| > 1
      ensures r.Done? ==> Valid()
      ensures r == Done(0) ==> Now() == old(Now()) && scratch == 0 && Refused(choice)
      ensures r.Done? ==>
        && process.allocs == old(process.allocs) + Once(if choice == Process then r.value else 0)
        && wasm.allocs == old(wasm.allocs) + Once(if choice == Wasm then host.TagStrip(r.value) else 0) + Once(scratch)
      ensures r.Done? && r.value != 0 ==>
        var types := Matches(structTypes, size);
        && |types| <= 1
        && (scratch != 0 ==> |types| == 1 && types[0].wasmSize != 0)
        && (|types| == 1 && types[0].wasmSize != 0 ==> scratch != 0 || wasm.refusals > old(wasm.refusals))
        && r.value !in old(allocOwner) && host.TagOwner(r.value) == choice
        && mallocsOnProcess == old(mallocsOnProcess) + (if choice == Process then 1 else 0)
        && mallocsOnWasm == old(mallocsOnWasm) + (if choice == Wasm then 1 else 0)
        && Now() == Allocated(host, old(Now()), choice, r.value, scratch, if |types| == 1 then types[0].symbol else "")
    {
      hide View.Conserved, Matches, Heap.Valid, View.Attach;
      ghost var before := Now();
      r := AllocateBlock(choice);
      scratch := 0;
      if r.Aborted? || r.value == 0 {
        return;
      }
      var p := r.value;
      NoScratchYet(host, before, choice, p);
      var ok;
      ok, scratch := CoAllocateFor(p, size);
      if !ok {
        r := Aborted;
      }
    }

    /** The registry lookup of `impl_free_in_sandbox`, which also erases the entry. */
    method TakeOwner(p: nat) returns (key: nat, owner: Backend)
      modifies this`allocOwner
      ensures match KeyOf(host, old(allocOwner), p)
        case Some(k) => key == k && owner == old(allocOwner)[k] && allocOwner == old(allocOwner) - {k}
        case None => key == p && owner == host.TagOwner(p) && allocOwner == old(allocOwner)
    {
      key := p;
      if p !in allocOwner && p < host.tag {
        if host.TagWasm(p) in allocOwner {
          key := host.TagWasm(p);
          owner := allocOwner[key];
          allocOwner := allocOwner - {key};
        } else {
          owner := host.TagOwner(p);
        }
      } else if p in allocOwner {
        owner := allocOwner[p];
        allocOwner := allocOwner - {p};
      } else {
        owner := host.TagOwner(p);
      }
    }

    /** The scratch of an allocation, 0 if it has none; its entry is erased. */
    method TakeScratch(key: nat) returns (scratch: nat)
      modifies this`structAllocs
      ensures structAllocs == old(structAllocs) - {key}
      ensures scratch == if key in old(structAllocs) then old(structAllocs)[key].scratch else 0
    {
      scratch := 0;
      if key in structAllocs {
        scratch := structAllocs[key].scratch;
        structAllocs := structAllocs - {key};
      }
    }

    /** The calls on the backends. */
    method GiveBack(owner: Backend, raw: nat, scratch: nat)
      requires Shape()
      requires scratch != 0 ==> scratch in wasm.live && (owner == Wasm ==> raw != scratch)
      modifies process, wasm
      ensures Shape() && process.allocs == old(process.allocs) && wasm.allocs == old(wasm.allocs)
      ensures process.live == old(process.live) - (if owner == Process then {raw} else {})
      ensures wasm.live == old(wasm.live) - Block(scratch) - (if owner == Wasm then {raw} else {})
      ensures wasm.misuses == old(wasm.misuses) + if owner == Wasm && raw != 0 && raw !in old(wasm.live) then 1 else 0
      ensures process.misuses
        == old(process.misuses) + if owner == Process && raw != 0 && raw !in old(process.live) then 1 else 0
    {
      hide Heap.Valid;
      if scratch != 0 {
        wasm.Free(scratch);
      }
      FreeOn(owner, raw);
    }

    method FreeOn(owner: Backend, raw: nat)
      requires Shape()
      modifies process, wasm
      ensures Shape() && process.allocs == old(process.allocs) && wasm.allocs == old(wasm.allocs)
      ensures process.live == old(process.live) - (if owner == Process then {raw} else {})
      ensures wasm.live == old(wasm.live) - (if owner == Wasm then {raw} else {})
      ensures wasm.misuses == old(wasm.misuses) + if owner == Wasm && raw != 0 && raw !in old(wasm.live) then 1 else 0
      ensures process.misuses
        == old(process.misuses) + if owner == Process && raw != 0 && raw !in old(process.live) then 1 else 0
    {
      hide Heap.Valid;
      if owner == Wasm {
        wasm.Free(raw);
      } else {
        process.Free(raw);
      }
    }

    /** What is given back for `p`: its key, its owner, and its scratch. */
    method Take(p: nat) returns (key: nat, owner: Backend, scratch: nat)
      modifies this`allocOwner, this`structAllocs
      ensures key == Asked(host, old(allocOwner), p).key && owner == Asked(host, old(allocOwner), p).heap
      ensures scratch == if key in old(structAllocs) then old(structAllocs)[key].scratch else 0
      ensures allocOwner == if KeyOf(host, old(allocOwner), p).Some? then old(allocOwner) - {key} else old(allocOwner)
      ensures structAllocs == old(structAllocs) - {key}
    {
      key, owner := TakeOwner(p);
      scratch := TakeScratch(key);
    }

    /**
     `impl_free_in_sandbox`: the pointer may come tagged or stripped.  Of a live pointer the
     block goes back to the heap that it came from, and a scratch with it.  Any other
     pointer goes to the heap that its tag bit names: it takes a scratch away from its
     block if it is the tagged pointer to one, and else changes nothing there.
     */
    method Free(p: nat)
      requires Valid()
      modifies this`allocOwner, this`structAllocs, this`foreignProcess, this`foreignWasm, process, wasm
      ensures process.allocs == old(process.allocs) && wasm.allocs == old(wasm.allocs)
      ensures Now() == FreedAny(host, old(Now()), p)
      ensures Valid() <==> !ScratchPointer(host, old(Now()), p)
      ensures var misused := p != 0 && host.TagStrip(p) != 0 && !Held(host, old(Now()), p);
        && process.misuses == old(process.misuses) + (if misused && host.TagOwner(p) == Process then 1 else 0)
        && wasm.misuses == old(wasm.misuses) + (if misused && host.TagOwner(p) == Wasm then 1 else 0)
    {
      hide View.Conserved, KeyOf, Freed, Live, Heap.Valid, Host.TagStrip, Host.TagOwner, Held, Scratches, Asked;
      ghost var before := Now();
      NullIsNotLive(host, before);
      FreeKeeps(host, before, p);
      if p == 0 {
        return;
      }
      var key, owner, scratch := Take(p);
      HeldParts(host, before, p, key, owner, scratch);
      GiveBack(owner, host.TagStrip(key), scratch);
      ghost var after := FreedAny(host, before, p);
      foreignProcess, foreignWasm := after.foreignProcess, after.foreignWasm;
      assert Now() == after;
    }

    /**
     The registration of a pointer that a call returned: an entry that is there stays.
     Ghost state follows: a foreign block that is returned becomes an allocation.
     */
    method RecordReturn(which: Backend, raw: nat) returns (p: nat)
      modifies this`allocOwner, this`foreignProcess, this`foreignWasm
      ensures p == if which == Wasm && raw != 0 then host.TagWasm(raw) else raw
      ensures Now() == if p == 0 || p in old(allocOwner) then old(Now()) else old(Now()).Adopt(which, p, host.TagStrip(p))
    {
      p := if which == Wasm && raw != 0 then host.TagWasm(raw) else raw;
      if p != 0 && p !in allocOwner {
        allocOwner := allocOwner[p := which];
        if which == Wasm {
          foreignWasm := foreignWasm - {host.TagStrip(p)};
        } else {
          foreignProcess := foreignProcess - {host.TagStrip(p)};
        }
      }
    }

    /** `register_struct_type`: a symbol registered before is replaced in place. */
    method RegisterStructType(t: StructType)
      modifies this`structTypes
      ensures structTypes == Registered(old(structTypes), t)
    {
      var i := 0;
      while i < |structTypes|
        invariant 0 <= i <= |structTypes|
        invariant structTypes == old(structTypes)
        invariant forall k :: 0 <= k < i ==> structTypes[k].symbol != t.symbol
      {
        if structTypes[i].symbol == t.symbol {
          RegisteredAt(structTypes, t, i);
          structTypes := structTypes[i := t];
          return;
        }
        i := i + 1;
      }
      RegisteredNew(structTypes, t);
      structTypes := structTypes + [t];
    }
  }

  lemma NoScratchYet(host: Host, v: View, choice: Backend, p: nat)
    requires host.Valid() && v.Conserved(host) && p !in v.owner
    ensures p !in v.structs
  {}

  /** The list of types after a registration. */
  function Registered(types: seq<StructType>, t: StructType): seq<StructType> {
    if |types| == 0 then [t]
    else if types[0].symbol == t.symbol then [t] + types[1..]
    else [types[0]] + Registered(types[1..], t)
  }

  lemma {:induction false} RegisteredAt(types: seq<StructType>, t: StructType, i: nat)
    requires i < |types| && types[i].symbol == t.symbol
    requires forall k :: 0 <= k < i ==> types[k].symbol != t.symbol
    ensures Registered(types, t) == types[i := t]
  {
    if i > 0 {
      RegisteredAt(types[1..], t, i - 1);
    }
  }

  lemma {:induction false} RegisteredNew(types: seq<StructType>, t: StructType)
    requires forall k :: 0 <= k < |types| ==> types[k].symbol != t.symbol
    ensures Registered(types, t) == types + [t]
  {
    if |types| > 0 {
      RegisteredNew(types[1..], t);
    }
  }

  /** No two registered types share a symbol. */
  ghost predicate DistinctSymbols(types: seq<StructType>) {
    forall i, j :: 0 <= i < j < |types| ==> types[i].symbol != types[j].symbol
  }

  /** Registration keeps symbols distinct, whatever the sizes; it never refuses. */
  lemma {:induction false} RegistrationKeepsDistinct(types: seq<StructType>, t: StructType)
    requires DistinctSymbols(types)
    ensures DistinctSymbols(Registered(types, t)) && t in Registered(types, t)
    ensures forall u :: u in types && u.symbol != t.symbol ==> u in Registered(types, t)
  {
    if i :| 0 <= i < |types| && types[i].symbol == t.symbol {
      RegisteredAt(types, t, i);
      assert types[i := t][i] == t;
      forall u | u in types && u.symbol != t.symbol
        ensures u in types[i := t]
      {
        var j :| 0 <= j < |types| && types[j] == u;
        assert types[i := t][j] == u;
      }
    } else {
      RegisteredNew(types, t);
    }
  }

  /** The matches are the types of that size. */
  lemma {:induction false} MatchesAre(types: seq<StructType>, size: nat)
    ensures forall t :: t in Matches(types, size) <==> t in types && t.hostSize == size
  {
    if |types| > 0 {
      MatchesAre(types[..|types| - 1], size);
      assert types == types[..|types| - 1] + [types[|types| - 1]];
    }
  }

  /** A size that two registered types share is one that no allocation can have. */
  lemma {:induction false} AmbiguousSize(types: seq<StructType>, size: nat)
    ensures |Matches(types, size)| > 0 <==> exists i :: 0 <= i < |types| && types[i].hostSize == size
    ensures |Matches(types, size)| > 1 <==>
      exists i, j :: 0 <= i < j < |types| && types[i].hostSize == size && types[j].hostSize == size
  {
    if |types| > 0 {
      var rest, n := types[..|types| - 1], |types| - 1;
      AmbiguousSize(rest, size);
      if |Matches(rest, size)| > 0 {
        var i :| 0 <= i < |rest| && rest[i].hostSize == size;
        assert types[i].hostSize == size;
        if |Matches(rest, size)| > 1 {
          var k, l :| 0 <= k < l < |rest| && rest[k].hostSize == size && rest[l].hostSize == size;
          assert types[k].hostSize == size && types[l].hostSize == size;
        } else if types[n].hostSize == size {
          assert types[i].hostSize == size && types[n].hostSize == size;
        }
      }
      if i, j :| 0 <= i < j < |types| && types[i].hostSize == size && types[j].hostSize == size {
        assert rest[i].hostSize == size;
        if j < n {
          assert rest[j].hostSize == size;
        }
      }
      if i :| 0 <= i < |types| && types[i].hostSize == size && i < n {
        assert rest[i].hostSize == size;
      }
    }
  }

  // ------------------------------------------------------------------------------ runs

  /** The steps of a run, by their effect on the heaps and the registry. */
  datatype Event =
    | Allocate(choice: Backend, p: nat, scratch: nat, symbol: string)
    | FreePointer(p: nat)
    | LibraryAllocates(b: Backend, a: nat)
    | LibraryFrees(b: Backend, a: nat)
    | CallReturns(b: Backend, p: nat)

  /** An address a backend may answer with. */
  ghost predicate Fresh(host: Host, v: View, b: Backend, a: nat) {
    if b == Wasm then a !in v.wasm && 0 < a < host.wasmMemory
    else a !in v.process && host.wasmMemory <= a < host.tag
  }

  /** What may happen: backends hand out fresh blocks, and what is freed is live. */
  ghost predicate Legal(host: Host, v: View, e: Event) {
    match e
    case Allocate(choice, p, scratch, _) =>
      && Fresh(host, v, choice, host.TagStrip(p)) && host.TagOwner(p) == choice
      && (scratch != 0 ==> Fresh(host, v, Wasm, scratch) && scratch != host.TagStrip(p))
    case FreePointer(p) => Live(host, v, p)
    case LibraryAllocates(b, a) => Fresh(host, v, b, a)
    case LibraryFrees(b, a) => if b == Wasm then a in v.foreignWasm else a in v.foreignProcess
    case CallReturns(b, p) =>
      && host.TagOwner(p) == b
      && (p !in v.owner ==> if b == Wasm then host.TagStrip(p) in v.foreignWasm else p in v.foreignProcess)
  }

  ghost function Next(host: Host, v: View, e: Event): View
    requires Legal(host, v, e)
  {
    match e
    case Allocate(choice, p, scratch, symbol) => Meta.Allocated(host, v, choice, p, scratch, symbol)
    case FreePointer(p) => Freed(host, v, p)
    case LibraryAllocates(b, a) => v.Foreign(b, a)
    case LibraryFrees(b, a) => v.ReleaseForeign(b, a)
    case CallReturns(b, p) => if p in v.owner then v else v.Adopt(b, p, host.TagStrip(p))
  }

  /** `es` is a run from `v` to `w`. */
  ghost predicate Run(host: Host, v: View, es: seq<Event>, w: View)
    decreases |es|
  {
    if |es| == 0 then v == w
    else Legal(host, v, es[0]) && Run(host, Next(host, v, es[0]), es[1..], w)
  }

  lemma AdoptConserves(host: Host, v: View, b: Backend, p: nat)
    requires host.Valid() && v.Conserved(host) && p !in v.owner && host.TagOwner(p) == b
    requires if b == Wasm then host.TagStrip(p) in v.foreignWasm else p in v.foreignProcess
    ensures v.Adopt(b, p, host.TagStrip(p)).Conserved(host)
  {
    hide Scratches, DistinctScratches;
    assert b == Wasm ==> host.Offset(host.TagStrip(p)) == p;
  }

  lemma ForeignConserves(host: Host, v: View, b: Backend, a: nat)
    requires host.Valid() && v.Conserved(host) && Fresh(host, v, b, a)
    ensures v.Foreign(b, a).Conserved(host)
  {
    hide Scratches, DistinctScratches;
  }

  lemma StepConserves(host: Host, v: View, e: Event)
    requires host.Valid() && v.Conserved(host) && Legal(host, v, e)
    ensures Next(host, v, e).Conserved(host)
  {
    hide View.Conserved;
    match e
    case Allocate(choice, p, scratch, symbol) =>
      AllocConserves(host, v, choice, host.TagStrip(p));
      if scratch != 0 {
        NoScratchYet(host, v, choice, p);
        AttachConserves(host, v.Alloc(host, choice, host.TagStrip(p)), p, StructAlloc(scratch, symbol));
      }
    case FreePointer(p) =>
      FreedConserves(host, v, p);
    case LibraryAllocates(b, a) =>
      ForeignConserves(host, v, b, a);
    case LibraryFrees(b, a) =>
      ReleaseForeignConserves(host, v, b, a);
    case CallReturns(b, p) =>
      if p !in v.owner {
        AdoptConserves(host, v, b, p);
      }
  }

  /**
   Conservation over every run: owners are tag bits, each heap holds exactly what the
   registry, the scratches and the libraries account for, and nothing twice.
   */
  lemma {:induction false} RunConserves(host: Host, v: View, es: seq<Event>, w: View)
    requires host.Valid() && v.Conserved(host) && Run(host, v, es, w)
    ensures w.Conserved(host)
    decreases |es|
  {
    hide View.Conserved, Legal, Next;
    if |es| > 0 {
      StepConserves(host, v, es[0]);
      RunConserves(host, Next(host, v, es[0]), es[1..], w);
    }
  }

  /** When no allocation and no foreign block is left, both heaps are empty, scratches included. */
  lemma NothingLeft(host: Host, w: View)
    requires host.Valid() && w.Conserved(host)
    ensures w.owner == map[] && w.foreignProcess == w.foreignWasm == {} ==>
      w.process == {} && w.wasm == {} && w.structs == map[]
  {
    if w.owner == map[] {
      assert w.structs.Keys == {};
      assert Scratches(w.structs) == {};
    }
  }

  /** And then every block that either heap handed out was taken back by that heap exactly as often. */
  lemma AllReturned(m: Meta)
    requires m.Valid()
    requires m.allocOwner == map[] && m.foreignProcess == m.foreignWasm == {}
    ensures m.process.allocs == m.process.frees && m.wasm.allocs == m.wasm.frees
  {
    NothingLeft(m.host, m.Now());
  }

  /**
   A pointer that a call returns and that is not yet registered: the registry stays the
   set of live allocations exactly when it points to a foreign block. Otherwise, say for
   a pointer into the middle of a block, no account of the foreign blocks makes it so.
   */
  lemma ReturnedPointer(host: Host, v: View, b: Backend, p: nat)
    requires host.Valid() && v.Conserved(host) && p !in v.owner && host.TagOwner(p) == b
    ensures (exists fp, fw :: v.WithEntry(p, b, fp, fw).Conserved(host))
      <==> if b == Wasm then host.TagStrip(p) in v.foreignWasm else p in v.foreignProcess
  {
    var a := host.TagStrip(p);
    if (if b == Wasm then a in v.foreignWasm else p in v.foreignProcess) {
      AdoptConserves(host, v, b, p);
      var w := v.Adopt(b, p, a);
      assert v.WithEntry(p, b, w.foreignProcess, w.foreignWasm) == w;
    } else if fp, fw :| v.WithEntry(p, b, fp, fw).Conserved(host) {
      NotAccounted(host, v, b, p, fp, fw);
      assert false;
    }
  }

  lemma NotAccounted(host: Host, v: View, b: Backend, p: nat, fp: set<nat>, fw: set<nat>)
    requires host.Valid() && v.Conserved(host) && p !in v.owner && host.TagOwner(p) == b
    requires v.WithEntry(p, b, fp, fw).Conserved(host)
    ensures if b == Wasm then host.TagStrip(p) in v.foreignWasm else p in v.foreignProcess
  {
    hide Scratches, DistinctScratches;
    assert b == Wasm ==> host.Offset(host.TagStrip(p)) == p;
  }
}
