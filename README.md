# CodeEmitRecorder: a verified model of a jump-patching code emission buffer

This project models `CodeEmitRecorder` from `src/lib.rs` of cfvm_codegen. It is the
byte sink that instruction encoders write machine code into. It holds three things:

- `codes`: the growing byte image.
- `label_name_table`: a map from label name to byte offset.
- `patch_jump_inst_list`: the deferred jump patches. Each patch holds a placeholder
  position and the name of its target label.

An encoder appends instruction bytes. For a jump whose target is not yet known, it
reserves zeroed placeholder bytes and records a patch. It binds labels to the
current end of the image. At the end it calls `patching` with an architecture-specific
callback. For each patch, the callback receives (placeholder position, label offset)
and returns the bytes to write over the placeholder.

Files:

- `patch_spec.dfy` (module `PatchSpec`) gives the value-level meaning of the patch
  pass. `ApplyPatches` applies the patches in list order through `Overwrite`.
  `LastWrite` is an independent description of each byte: it names the byte written
  by the last patch that covers that position. The lemmas connect the two. Together
  they give the frame of the pass, "last writer wins", exact placement when patch
  ranges do not overlap, and idempotence.
- `code_emit.dfy` (module `CodeEmit`) holds the class `CodeEmitRecorder`. Its fields
  are `codes: seq<bv8>`, `labelNameTable: map<string, nat>` and
  `patchJumpInstList: seq<JumpInstPatch>`. Each method is proved against its effect
  on these fields. `ZeroPadding` and `Patching` keep the source's loops: a push loop,
  and a nested loop that overwrites one byte at a time. The module also has client
  scenarios: a forward reference, a backward reference, a redefined label, and a run
  of appends.

Behaviour of `src/lib.rs` that the model keeps as written:

- A patch whose label was never defined makes the `HashMap` index at src/lib.rs:56
  panic. The model states this as a precondition of `Patching`.
- The callback's bytes may be shorter or longer than the placeholder. Each
  non-empty result only has to stay inside the image, because the `Vec` index at
  src/lib.rs:58 panics otherwise; this is a precondition too. An empty result
  indexes nothing, so it is allowed at any position (`PatchSpec.EmptyCallbackResolvable`).
- A second `label` call for the same name silently replaces the earlier binding
  (src/lib.rs:43).
- `patching` does not clear the patch list, so a second call re-runs every patch.
  The callback receives the same (position, label offset) arguments both times and,
  being a pure function here (see "## Left out"), returns the same bytes. So the second
  pass rewrites every patched byte with its earlier value, and
  `PatchSpec.PatchingTwice` proves the image is unchanged.

## Model

| member | source | states |
|---|---|---|
| `PatchSpec.Zeros` | src/lib.rs:27-31 | the placeholder has exactly the requested length and every byte is zero |
| `PatchSpec.Overwrite` | src/lib.rs:57-59 | writing a patch keeps the image length; bytes inside `[pos, pos+len)` become the patch bytes, and all other bytes keep their old value; an empty write is allowed at any position and changes nothing |
| `PatchSpec.ApplyPatches` | src/lib.rs:50-61 | applying all patches in list order never changes the image length |
| `PatchSpec.ApplyPatchesAt` | src/lib.rs:51-60 | each byte of the patched image is the byte written by the last patch that covers it, or the original byte when no patch covers it |
| `PatchSpec.LastWriteNoneIff` | src/lib.rs:51-60 | a position gets no write exactly when no patch range covers it (both directions) |
| `PatchSpec.UnpatchedByteKept` | src/lib.rs:51-60 | a byte outside every patch range keeps its value from before patching |
| `PatchSpec.LastWriterWins` | src/lib.rs:51-60 | when patch ranges overlap, the later patch in list order decides the byte |
| `PatchSpec.DisjointPatchesLand` | src/lib.rs:51-60 | when non-empty patch ranges do not overlap, each placeholder range ends up equal to its callback's output (empty ranges overlap nothing) |
| `PatchSpec.EmptyCallbackResolvable` | src/lib.rs:56-58 | with a callback that yields no bytes, only the label lookup can panic: any patch list whose labels are all defined is accepted, whatever its positions |
| `PatchSpec.PatchingTwice` | src/lib.rs:50-61 | running the whole pass a second time over its own output gives the same image |
| `CodeEmit.CodeEmitRecorder.constructor` | src/lib.rs:19-21 | a new recorder has an empty image, an empty label table and an empty patch list |
| `CodeEmit.CodeEmitRecorder.AddInst` | src/lib.rs:23-25 | the image becomes the old image followed by the instruction bytes; labels and patches are untouched |
| `CodeEmit.CodeEmitRecorder.ZeroPadding` | src/lib.rs:27-31 | the image grows by exactly `plen` zero bytes and the old prefix is kept |
| `CodeEmit.CodeEmitRecorder.AddJumpInst` | src/lib.rs:33-40 | appends `plen` zero bytes and pushes one patch at the end of the list; the patch's position is the old image length and its target is the given label; earlier patches and the label table are untouched |
| `CodeEmit.CodeEmitRecorder.Label` | src/lib.rs:42-44 | binds the name to the current image length and silently replaces any earlier binding; afterwards `CodeLen()` equals the bound offset; the image and the patch list are untouched |
| `CodeEmit.CodeEmitRecorder.CodeLen` | src/lib.rs:46-48 | the number of bytes emitted so far; it reads the state and changes nothing |
| `CodeEmit.CodeEmitRecorder.Patching` | src/lib.rs:50-61 | requires every target label to be defined and every non-empty callback result to fit inside the image; the new image is `ApplyPatches` of the old one; length, label table and patch list are unchanged, so the list is not cleared |
| `CodeEmit.ForwardReference` | src/lib.rs:33-61 | with a jump emitted before its label, the callback is asked about the placeholder position and the label's later offset, and its bytes replace exactly the placeholder |
| `CodeEmit.BackwardReference` | src/lib.rs:33-61 | with a jump emitted after its label, the target offset passed to the callback is at most the placeholder position, and only the placeholder is replaced |
| `CodeEmit.RedefinedLabel` | src/lib.rs:42-44 | defining a label twice keeps the second offset |
| `CodeEmit.EmitAll` | src/lib.rs:23-25 | a run of instruction appends on a fresh recorder yields the concatenation of the instructions |

## Left out

- `dump_codes` (src/lib.rs:63-66) writes the image to a `std::io::Write` sink. This is I/O and there is nothing to verify.
- `mod x86_64` (src/lib.rs:1) is not part of this model. The architecture-specific encoders and their displacement encodings are represented only by the callback parameter of `Patching`.
- Panics: a missing label (src/lib.rs:56) or an out-of-bounds write (src/lib.rs:58) make the Rust code panic. The model makes both of them preconditions of `Patching`. It therefore does not model the partly patched image that a panic leaves behind.
- The callback `&dyn Fn(usize, usize) -> Vec<u8>` is modelled as a pure Dafny function, so it returns the same bytes for the same arguments. A Rust `Fn` could still have side effects or give different results through interior mutability, and the model does not cover that.
- `usize` is modelled as `nat`, so overflow of positions and offsets is not modelled.
- `HashMap<String, usize>` is modelled as a Dafny `map`, whose equality is by value. Hashing and capacity are not modelled.
- The `Debug` and `Default` derives are not modelled. Only the empty state that `Default` produces is kept, in the constructor.
