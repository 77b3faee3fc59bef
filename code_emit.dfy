/** The code emission recorder: an append-only byte image, a label table and a
    list of deferred jump patches, filled in order by an instruction encoder and
    resolved at the end by `Patching`.
 */
module CodeEmit {
  import opened PatchSpec

  class CodeEmitRecorder {
    var patchJumpInstList: seq<JumpInstPatch>
    var labelNameTable: map<string, nat>
    var codes: seq<bv8>

    /** Every recorded placeholder starts inside the image. */
    ghost predicate PatchesWithin()
      reads this
    {
      forall j :: 0 <= j < |patchJumpInstList| ==> patchJumpInstList[j].patchPos <= |codes|
    }

    constructor ()
      ensures codes == [] && labelNameTable == map[] && patchJumpInstList == []
      ensures PatchesWithin()
    {
      patchJumpInstList := [];
      labelNameTable := map[];
      codes := [];
    }

    /** Appends the bytes of one encoded instruction. */
    method AddInst(inst: seq<bv8>)
      modifies this`codes
      ensures codes == old(codes) + inst
      ensures old(PatchesWithin()) ==> PatchesWithin()
    {
      codes := codes + inst;
    }

    /** Appends `plen` zero bytes, one at a time. */
    method ZeroPadding(plen: nat)
      modifies this`codes
      ensures codes == old(codes) + Zeros(plen)
      ensures old(PatchesWithin()) ==> PatchesWithin()
    {
      var i := 0;
      while i < plen
        invariant 0 <= i <= plen
        invariant codes == old(codes) + Zeros(i)
      {
        codes := codes + [0];
        i := i + 1;
      }
    }

    /** Reserves a zeroed placeholder of `plen` bytes for a jump to `jumpToLabel`
        and records where it starts. */
    method AddJumpInst(plen: nat, jumpToLabel: string)
      modifies this`codes, this`patchJumpInstList
      ensures codes == old(codes) + Zeros(plen)
      ensures patchJumpInstList == old(patchJumpInstList) + [JumpInstPatch(|old(codes)|, jumpToLabel)]
      ensures old(PatchesWithin()) ==> PatchesWithin()
    {
      var record := |codes|;
      ZeroPadding(plen);
      patchJumpInstList := patchJumpInstList + [JumpInstPatch(record, jumpToLabel)];
    }

    /** Binds `name` to the current end of the image, replacing any earlier binding. */
    method Label(name: string)
      modifies this`labelNameTable
      ensures labelNameTable == old(labelNameTable)[name := |codes|]
      ensures name in labelNameTable && labelNameTable[name] == CodeLen()
      ensures old(PatchesWithin()) ==> PatchesWithin()
    {
      labelNameTable := labelNameTable[name := CodeLen()];
    }

    /** The number of bytes emitted so far. */
    function CodeLen(): (n: nat)
      reads this
      ensures n == |codes|
    {
      |codes|
    }

    /** Overwrites every placeholder, in list order, with the callback's bytes for
        (placeholder position, target label offset). */
    method Patching(proc: PatchProc)
      requires Resolvable(patchJumpInstList, labelNameTable, proc, |codes|)
      modifies this`codes
      ensures codes == ApplyPatches(old(codes), patchJumpInstList, labelNameTable, proc)
      ensures |codes| == |old(codes)|
      ensures labelNameTable == old(labelNameTable) && patchJumpInstList == old(patchJumpInstList)
      ensures old(PatchesWithin()) ==> PatchesWithin()
    {
      var k := 0;
      while k < |patchJumpInstList|
        invariant 0 <= k <= |patchJumpInstList|
        invariant Resolvable(patchJumpInstList[..k], labelNameTable, proc, |old(codes)|)
        invariant codes == ApplyPatches(old(codes), patchJumpInstList[..k], labelNameTable, proc)
      {
        var p := patchJumpInstList[k];
        var bytes := proc(p.patchPos, labelNameTable[p.jumpToRef]);
        ghost var before := codes;
        var offset := 0;
        while offset < |bytes|
          invariant 0 <= offset <= |bytes|
          invariant |codes| == |before|
          invariant forall i :: 0 <= i < |codes| ==>
            codes[i] == if p.patchPos <= i < p.patchPos + offset then bytes[i - p.patchPos] else before[i]
        {
          codes := codes[p.patchPos + offset := bytes[offset]];
          offset := offset + 1;
        }
        assert codes == Overwrite(before, p.patchPos, bytes);
        assert patchJumpInstList[..k + 1][..k] == patchJumpInstList[..k];
        PrefixResolvable(patchJumpInstList, labelNameTable, proc, |old(codes)|, k + 1);
        k := k + 1;
      }
      assert patchJumpInstList[..k] == patchJumpInstList;
    }
  }

  /** A jump emitted before its label: instruction `a`, a 4-byte placeholder
      jumping to "L", instruction `b`, then "L".  The callback is asked about the
      placeholder at |a| and the label at |a| + 4 + |b|, and its bytes replace
      exactly the placeholder. */
  method ForwardReference(a: seq<bv8>, b: seq<bv8>, proc: PatchProc) returns (image: seq<bv8>)
    requires |proc(|a|, |a| + 4 + |b|)| == 4
    ensures image == a + proc(|a|, |a| + 4 + |b|) + b
  {
    var rec := new CodeEmitRecorder();
    rec.AddInst(a);
    rec.AddJumpInst(4, "L");
    rec.AddInst(b);
    rec.Label("L");
    ghost var pre, p := rec.codes, JumpInstPatch(|a|, "L");
    assert pre == a + Zeros(4) + b;
    assert rec.patchJumpInstList == [p];
    SinglePatch(pre, p, rec.labelNameTable, proc);
    rec.Patching(proc);
    image := rec.codes;
    assert image == pre[..|a|] + proc(|a|, |a| + 4 + |b|) + pre[|a| + 4..];
    SplitAround(a, Zeros(4), b);
  }

  /** A jump emitted after its label: instruction `a`, label "L", instruction `b`,
      then a 4-byte placeholder jumping back to "L".  The callback sees a target
      offset no greater than the placeholder position. */
  method BackwardReference(a: seq<bv8>, b: seq<bv8>, proc: PatchProc) returns (image: seq<bv8>, patchPos: nat, target: nat)
    requires |proc(|a| + |b|, |a|)| == 4
    ensures patchPos == |a| + |b| && target == |a| && target <= patchPos
    ensures image == a + b + proc(patchPos, target)
  {
    var rec := new CodeEmitRecorder();
    rec.AddInst(a);
    rec.Label("L");
    rec.AddInst(b);
    rec.AddJumpInst(4, "L");
    ghost var pre, p := rec.codes, JumpInstPatch(|a| + |b|, "L");
    assert pre == a + b + Zeros(4);
    assert rec.patchJumpInstList == [p];
    patchPos, target := rec.patchJumpInstList[0].patchPos, rec.labelNameTable["L"];
    SinglePatch(pre, p, rec.labelNameTable, proc);
    rec.Patching(proc);
    image := rec.codes;
    assert image == pre[..patchPos] + proc(patchPos, target) + pre[patchPos + 4..];
    SplitAround(a + b, Zeros(4), []);
  }

  /** The parts of a three-part image around its middle. */
  lemma SplitAround(x: seq<bv8>, y: seq<bv8>, z: seq<bv8>)
    ensures (x + y + z)[..|x|] == x && (x + y + z)[|x| + |y|..] == z
  {
  }

  /** Defining a label twice keeps the second offset. */
  method RedefinedLabel(a: seq<bv8>) returns (offset: nat)
    ensures offset == |a|
  {
    var rec := new CodeEmitRecorder();
    rec.Label("L");
    rec.AddInst(a);
    rec.Label("L");
    offset := rec.labelNameTable["L"];
  }

  /** The bytes of `insts` laid end to end. */
  function Concat(insts: seq<seq<bv8>>): seq<bv8>
  {
    if insts == [] then [] else Concat(insts[..|insts| - 1]) + insts[|insts| - 1]
  }

  /** A run of instruction appends on a fresh recorder yields their concatenation. */
  method EmitAll(insts: seq<seq<bv8>>) returns (image: seq<bv8>)
    ensures image == Concat(insts)
  {
    var rec := new CodeEmitRecorder();
    var k := 0;
    while k < |insts|
      invariant 0 <= k <= |insts|
      invariant rec.codes == Concat(insts[..k])
    {
      rec.AddInst(insts[k]);
      assert insts[..k + 1][..k] == insts[..k];
      k := k + 1;
    }
    assert insts[..k] == insts;
    image := rec.codes;
  }
}
