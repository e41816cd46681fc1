/** `patch_cmake_targets`: the rewrite of `CMakeLists.txt`, which swaps the GPU target list. */
module CmakeTargets {
  import opened Text
  import opened Replace

  const OLD_TARGETS: string := "gfx1200;gfx1201"
  const NEW_TARGET: string := "gfx1151"

  /** The whole patch, as the file's new contents. */
  function PatchCmakeTargets(txt: string): string
  {
    ReplaceAll(txt, OLD_TARGETS, NEW_TARGET)
  }

  /** No `gfx1200;gfx1201` can overlap an inserted `gfx1151`. */
  lemma OldVersusNew()
    ensures CannotStartInside(OLD_TARGETS, NEW_TARGET) && CannotRunInto(OLD_TARGETS, NEW_TARGET)
  {
    DifferAt(OLD_TARGETS, NEW_TARGET, 4);
    assert NEW_TARGET[1..] == "fx1151";
    StartInsideByFirst(OLD_TARGETS, NEW_TARGET);
    forall j | 0 < j < |OLD_TARGETS|
      ensures !Compatible(OLD_TARGETS[j..], NEW_TARGET)
    {
      if j == 8 {
        assert OLD_TARGETS[8..] == "gfx1201";
        DifferAt(OLD_TARGETS[8..], NEW_TARGET, 4);
      } else {
        assert OLD_TARGETS[j..][0] == OLD_TARGETS[j] != 'g';
      }
    }
  }

  /**
   * Every occurrence of the old list is swapped: the text is its pieces
   * without `gfx1200;gfx1201` joined by the old list, and the result is the
   * same pieces joined by `gfx1151`.
   */
  lemma CmakeSplit(txt: string)
    ensures Join(Split(txt, OLD_TARGETS), OLD_TARGETS) == txt
    ensures forall k :: 0 <= k < |Split(txt, OLD_TARGETS)| ==> !Contains(Split(txt, OLD_TARGETS)[k], OLD_TARGETS)
    ensures PatchCmakeTargets(txt) == Join(Split(txt, OLD_TARGETS), NEW_TARGET)
  {
    SplitJoin(txt, OLD_TARGETS);
    SplitPieces(txt, OLD_TARGETS);
    ReplaceSplit(txt, OLD_TARGETS, NEW_TARGET);
  }

  /** No `gfx1200;gfx1201` is left. */
  lemma CmakeRemoves(txt: string)
    ensures !Contains(PatchCmakeTargets(txt), OLD_TARGETS)
  {
    OldVersusNew();
    ReplaceRemoves(txt, OLD_TARGETS, NEW_TARGET);
  }

  /** A text holding the old list comes out holding `gfx1151`; one without it is unchanged. */
  lemma CmakeEffect(txt: string)
    ensures Contains(txt, OLD_TARGETS) ==> Contains(PatchCmakeTargets(txt), NEW_TARGET)
    ensures !Contains(txt, OLD_TARGETS) ==> PatchCmakeTargets(txt) == txt
  {
    if Contains(txt, OLD_TARGETS) {
      ReplaceLeavesRep(txt, OLD_TARGETS, NEW_TARGET);
    } else {
      ReplaceAbsent(txt, OLD_TARGETS, NEW_TARGET);
    }
  }

  /**
   * Every other character is kept: turning each `gfx1151` back into the old
   * list restores the original, for a text that held no `gfx1151` before.
   */
  lemma CmakeUndo(txt: string)
    requires !Contains(txt, NEW_TARGET)
    ensures ReplaceAll(PatchCmakeTargets(txt), NEW_TARGET, OLD_TARGETS) == txt
  {
    RunIntoByFirst(NEW_TARGET, NEW_TARGET);
    ReplaceUndo(txt, OLD_TARGETS, NEW_TARGET);
  }

  /** A second run changes nothing. */
  lemma CmakeIdempotent(txt: string)
    ensures PatchCmakeTargets(PatchCmakeTargets(txt)) == PatchCmakeTargets(txt)
  {
    OldVersusNew();
    ReplaceIdempotent(txt, OLD_TARGETS, NEW_TARGET);
  }

  /** The patch adds no carriage return: a text read with universal newlines stays free of them. */
  lemma CmakeNoCarriageReturn(txt: string)
    requires '\r' !in txt
    ensures '\r' !in PatchCmakeTargets(txt)
  {
    ReplaceNoNewChar(txt, OLD_TARGETS, NEW_TARGET, '\r');
  }
}
