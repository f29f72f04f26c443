/**
 Pointers and calls of `rlbox_meta_sandbox`: translation between host and sandbox
 addresses, the ownership override of the policy's pick, and what a pointer argument
 becomes when the call goes to wasm.
 */
module MetaInvoke {
  import opened MetaAlloc
  import opened Options

  const WASM_WORD: nat := 0x1_0000_0000

  /** Where wasm's linear memory is mapped in the host. */
  datatype Layout = Layout(host: Host, base: nat) {
    /** Host addresses leave the tag bit free; linear memory is addressed by 32 bits. */
    ghost predicate Valid() {
      host.Valid() && host.wasmMemory <= WASM_WORD && 0 < base && base + host.wasmMemory <= host.tag
    }

    /** `impl_is_pointer_in_sandbox_memory` of the wasm backend. */
    predicate InWasm(h: nat) {
      base <= h < base + host.wasmMemory
    }

    /** The wasm backend's own resolver, after the narrowing cast. */
    function WasmResolve(p: nat): nat {
      base + p % WASM_WORD
    }

    /** `impl_get_unsandboxed_pointer`; null is 0. The process backend maps addresses to themselves. */
    function Unsandboxed(p: nat): nat {
      if p == 0 then 0
      else if p >= host.tag then WasmResolve(host.TagStrip(p))
      else if p < host.wasmMemory then WasmResolve(p)
      else p
    }

    /** `impl_get_sandboxed_pointer`: native to the backend, without a tag. */
    function Sandboxed(h: nat): nat {
      if InWasm(h) then h - base else h
    }
  }

  /**
   Translating a host address into the sandbox and back is the identity exactly when it is
   not the first byte of linear memory, whose offset reads as null, and not a nonzero
   address outside linear memory but below its size, which reads as an offset.
   */
  lemma TranslationRoundTrip(l: Layout, h: nat)
    requires l.Valid() && h < l.host.tag
    ensures l.Unsandboxed(l.Sandboxed(h)) == h <==>
      if l.InWasm(h) then h != l.base else h == 0 || l.host.wasmMemory <= h
  {}

  /**
   Two host addresses translate to the same sandbox pointer exactly when they are one, or one
   lies in linear memory and the other is outside it and equal to its offset.
   */
  lemma TranslationInjective(l: Layout, g: nat, h: nat)
    ensures l.Sandboxed(g) == l.Sandboxed(h) <==>
      g == h || (l.InWasm(g) && !l.InWasm(h) && h == g - l.base) || (l.InWasm(h) && !l.InWasm(g) && g == h - l.base)
  {}

  /** `owner_of`. */
  function OwnerOf(host: Host, owner: map<nat, Backend>, p: nat): Option<Backend> {
    match KeyOf(host, owner, p)
    case Some(k) => if k in owner then Some(owner[k]) else None
    case None => None
  }

  /**
   An allocation's pointer, turned into a host address and back, has lost its tag; its
   owner is still the one recorded when it was allocated.
   */
  lemma OwnerSurvivesTranslation(l: Layout, v: View, k: nat)
    requires l.Valid() && v.Conserved(l.host) && k in v.owner
    requires v.owner[k] == Process ==> !l.InWasm(k)
    ensures l.Sandboxed(l.Unsandboxed(k)) == l.host.TagStrip(k)
    ensures OwnerOf(l.host, v.owner, l.Sandboxed(l.Unsandboxed(k))) == OwnerOf(l.host, v.owner, k) == Some(v.owner[k])
  {
    FoundInBothForms(l.host, v, k);
  }

  // ----------------------------------------------------------------- choosing a backend

  /** An argument: of the pointer representation type, or of another type. */
  datatype Arg = Pointer(p: nat) | Other(value: int)

  /** Some pointer argument is recorded as `b`'s. */
  ghost predicate Sees(host: Host, owner: map<nat, Backend>, args: seq<Arg>, b: Backend) {
    exists i :: 0 <= i < |args| && OwnedBy(host, owner, args[i], b)
  }

  predicate OwnedBy(host: Host, owner: map<nat, Backend>, a: Arg, b: Backend) {
    a.Pointer? && a.p != 0 && OwnerOf(host, owner, a.p) == Some(b)
  }

  /** Where a call goes, given the owners of its pointer arguments and the policy's pick. */
  ghost function Chosen(host: Host, owner: map<nat, Backend>, args: seq<Arg>, pick: Backend, hasWasm: bool)
    : Outcome<Backend>
  {
    var p, w := Sees(host, owner, args, Process), Sees(host, owner, args, Wasm);
    if p && w then Aborted
    else if p then Done(Process)
    else if w || pick == Wasm then if hasWasm then Done(Wasm) else Aborted
    else Done(Process)
  }

  /**
   The ownership override of `impl_invoke_with_func_ptr`: owners of pointer arguments win
   over the policy's pick; it aborts when they differ, or when wasm has no such symbol.
   */
  method ChooseBackend(host: Host, owner: map<nat, Backend>, args: seq<Arg>, pick: Backend, hasWasm: bool)
    returns (r: Outcome<Backend>)
    ensures r == Chosen(host, owner, args, pick, hasWasm)
  {
    var sawProcess, sawWasm := false, false;
    var i := 0;
    while i < |args|
      invariant 0 <= i <= |args|
      invariant sawProcess <==> exists j :: 0 <= j < i && OwnedBy(host, owner, args[j], Process)
      invariant sawWasm <==> exists j :: 0 <= j < i && OwnedBy(host, owner, args[j], Wasm)
    {
      if args[i].Pointer? && args[i].p != 0 {
        var o := OwnerOf(host, owner, args[i].p);
        if o.Some? {
          if o.value == Process {
            sawProcess := true;
          } else {
            sawWasm := true;
          }
        }
      }
      i := i + 1;
    }
    if sawProcess && sawWasm {
      return Aborted;
    }
    var choice := pick;
    if sawProcess {
      choice := Process;
    } else if sawWasm {
      choice := Wasm;
    }
    if choice == Wasm && !hasWasm {
      return Aborted;
    }
    r := Done(choice);
  }

  /** A call that is not aborted runs on the backend that owns each allocation passed to it, in either form. */
  lemma RunsOnOwner(host: Host, v: View, args: seq<Arg>, pick: Backend, hasWasm: bool, i: nat, k: nat)
    requires host.Valid() && v.Conserved(host)
    requires Chosen(host, v.owner, args, pick, hasWasm).Done?
    requires i < |args| && args[i].Pointer? && k in v.owner && (args[i].p == k || args[i].p == host.TagStrip(k))
    ensures Chosen(host, v.owner, args, pick, hasWasm).value == v.owner[k]
    ensures v.owner[k] == Wasm ==> hasWasm
  {
    FoundInBothForms(host, v, k);
    assert OwnedBy(host, v.owner, args[i], v.owner[k]);
  }

  /** A pointer argument that the registry knows, in either form. */
  predicate Known(host: Host, owner: map<nat, Backend>, a: Arg) {
    a.Pointer? && a.p != 0 && (a.p in owner || (a.p < host.tag && host.TagWasm(a.p) in owner))
  }

  /**
   When no pointer argument is registered, the call runs on the policy's pick, and is aborted
   exactly when that is wasm and the symbol has no binding.
   */
  lemma RunsOnPick(host: Host, owner: map<nat, Backend>, args: seq<Arg>, pick: Backend, hasWasm: bool)
    requires forall i :: 0 <= i < |args| ==> !Known(host, owner, args[i])
    ensures Chosen(host, owner, args, pick, hasWasm).Aborted? <==> pick == Wasm && !hasWasm
    ensures Chosen(host, owner, args, pick, hasWasm).Done? ==> Chosen(host, owner, args, pick, hasWasm).value == pick
  {}

  /** A call with a registered argument does not depend on the pick. */
  lemma OwnersDecide(
      host: Host, owner: map<nat, Backend>, args: seq<Arg>, pick: Backend, other: Backend, hasWasm: bool, i: nat)
    requires i < |args| && Known(host, owner, args[i])
    ensures Chosen(host, owner, args, pick, hasWasm) == Chosen(host, owner, args, other, hasWasm)
  {
    var k := if args[i].p in owner then args[i].p else host.TagWasm(args[i].p);
    assert OwnedBy(host, owner, args[i], owner[k]);
    assert Sees(host, owner, args, owner[k]);
    assert owner[k] == Process || owner[k] == Wasm;
  }

  // ---------------------------------------------------------- arguments of a wasm call

  /** The callback registry, as far as arguments go: from process trampoline to wasm slot. */
  type Slots = map<nat, nat>

  /**
   `translate`: a struct allocation becomes the tagged pointer to its scratch, a callback
   handle its wasm slot, and any other pointer loses its tag.
   */
  function Translated(host: Host, structs: map<nat, StructAlloc>, slots: Slots, p: nat): nat {
    if p != 0 && p in structs then host.TagWasm(structs[p].scratch)
    else if p != 0 && p in slots then slots[p]
    else host.TagStrip(p)
  }

  /** The parameter as the wasm function receives it: 32 bits. */
  function Received(host: Host, structs: map<nat, StructAlloc>, slots: Slots, p: nat): nat {
    Translated(host, structs, slots, p) % WASM_WORD
  }

  /** A callback handle arrives as its wasm slot, null as null, and any other pointer without its tag. */
  lemma ReceivesSlot(host: Host, structs: map<nat, StructAlloc>, slots: Slots, p: nat)
    requires p == 0 || p !in structs
    requires host.tag <= WASM_WORD || host.tag % WASM_WORD == 0
    ensures p != 0 && p in slots && slots[p] < WASM_WORD ==> Received(host, structs, slots, p) == slots[p]
    ensures host.tag > 0 ==> Received(host, structs, slots, 0) == 0
    ensures p < host.tag && p < WASM_WORD && p !in slots ==>
      Received(host, structs, slots, p) == p
    ensures 0 < p < host.tag && p < WASM_WORD && host.tag + p !in slots && host.tag + p !in structs ==>
      Received(host, structs, slots, host.tag + p) == p
  {}

  /** The tag bit is the top bit of a 32-bit or of a 64-bit pointer. */
  ghost predicate TopBit(host: Host) {
    host.tag == 0x8000_0000 || host.tag == 0x8000_0000_0000_0000
  }

  /** An allocation without scratch arrives as its own offset, whichever form is passed. */
  lemma ReceivesOwnBlock(l: Layout, v: View, slots: Slots, k: nat, p: nat)
    requires l.Valid() && v.Conserved(l.host) && k in v.owner && v.owner[k] == Wasm
    requires p == k || p == l.host.TagStrip(k)
    requires p !in v.structs && p !in slots
    ensures Received(l.host, v.structs, slots, p) == l.host.TagStrip(k)
    ensures Received(l.host, v.structs, slots, p) in v.wasm
  {
    assert l.host.Offset(l.host.TagStrip(k)) == k;
  }

  /**
   A struct allocation on the wasm side arrives as its scratch exactly when the tagged form
   is passed and pointers are wider than 32 bits: the tagged scratch is not stripped, so a
   32-bit parameter keeps the tag, and the stripped form is not looked up at all.
   */
  lemma ReceivesScratch(l: Layout, v: View, slots: Slots, k: nat, p: nat)
    requires l.Valid() && TopBit(l.host) && v.Conserved(l.host)
    requires k in v.owner && v.owner[k] == Wasm && k in v.structs
    requires p == k || p == l.host.TagStrip(k)
    requires p !in slots
    ensures Received(l.host, v.structs, slots, p) == v.structs[k].scratch <==> p == k && l.host.tag > WASM_WORD
  {
    var s := v.structs[k].scratch;
    assert s in v.wasm && 0 < s < l.host.wasmMemory by {
      assert s in Scratches(v.structs);
    }
    assert l.host.Offset(l.host.TagStrip(k)) == k;
    assert s != l.host.TagStrip(k);
    if p == k {
      assert Translated(l.host, v.structs, slots, p) == l.host.tag + s;
      if l.host.tag > WASM_WORD {
        assert l.host.tag == 0x8000_0000 * WASM_WORD;
      }
    } else {
      assert p !in v.owner;
      assert p !in v.structs;
    }
  }
}
