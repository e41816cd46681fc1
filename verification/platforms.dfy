/**
 * `patch_platforms_init`: the rewrite of `vllm/platforms/__init__.py`. It
 * comments out the vendor import, forces the `is_rocm` assignment, and turns
 * the device-handle check and the library's init and shutdown calls into
 * `if True:` and `pass`.
 */
module PlatformsInit {
  import opened Text
  import opened Replace
  import opened LineSub

  const IMPORT: string := "import amdsmi"
  const COMMENTED: string := "# " + IMPORT
  const IS_ROCM_KEY: string := "is_rocm = "
  const IS_ROCM_FORCED: string := IS_ROCM_KEY + "True"
  // Long literals are written in pieces, so that facts about them can be checked piece by piece.
  const HANDLE_CHECK: string := "if len(amdsm" + "i.amdsmi_get_" + "processor_handles()) > 0:"
  const HANDLE_FORCED: string := "if True:"
  const INIT_CALL: string := "amdsmi.amdsmi_init()"
  const SHUTDOWN_CALL: string := "amdsmi.amdsmi_shut_down()"
  const PASS: string := "pass"

  /** Comments out every `import amdsmi`. */
  function CommentOut(txt: string): string
  {
    ReplaceAll(txt, IMPORT, COMMENTED)
  }

  /** On every line holding `is_rocm = `, the rest of the line from there becomes `is_rocm = True`. */
  function ForceIsRocm(txt: string): string
  {
    ForceLineTail(txt, IS_ROCM_KEY, IS_ROCM_FORCED)
  }

  /** The three literal replacements, in order: the handle check, the init call, the shutdown call. */
  function StubCalls(txt: string): string
  {
    var t := ReplaceAll(txt, HANDLE_CHECK, HANDLE_FORCED);
    var t' := ReplaceAll(t, INIT_CALL, PASS);
    ReplaceAll(t', SHUTDOWN_CALL, PASS)
  }

  /** The whole patch, as the file's new contents. */
  function PatchPlatformsInit(txt: string): string
  {
    StubCalls(ForceIsRocm(CommentOut(txt)))
  }

  // The comment-out step.

  /**
   * Every `import amdsmi` is rewritten and nothing else is touched: turning
   * each `# import amdsmi` back into `import amdsmi` restores the original,
   * for a text that held no `# import amdsmi` to begin with.
   */
  lemma CommentOutUndo(txt: string)
    requires !Contains(txt, COMMENTED)
    ensures ReplaceAll(CommentOut(txt), COMMENTED, IMPORT) == txt
  {
    assert COMMENTED[1..] == " import amdsmi";
    RunIntoByFirst(COMMENTED, COMMENTED);
    ReplaceUndo(txt, IMPORT, COMMENTED);
  }

  /**
   * Every `import amdsmi` is commented out: the text is its pieces without
   * `import amdsmi` joined by `import amdsmi`, and the result is the same
   * pieces joined by `# import amdsmi`.
   */
  lemma CommentOutSplit(txt: string)
    ensures Join(Split(txt, IMPORT), IMPORT) == txt
    ensures forall k :: 0 <= k < |Split(txt, IMPORT)| ==> !Contains(Split(txt, IMPORT)[k], IMPORT)
    ensures CommentOut(txt) == Join(Split(txt, IMPORT), COMMENTED)
  {
    SplitJoin(txt, IMPORT);
    SplitPieces(txt, IMPORT);
    ReplaceSplit(txt, IMPORT, COMMENTED);
  }

  /** A text holding `import amdsmi` comes out holding `# import amdsmi`; one without it is unchanged. */
  lemma CommentOutEffect(txt: string)
    ensures Contains(txt, IMPORT) ==> Contains(CommentOut(txt), COMMENTED)
    ensures !Contains(txt, IMPORT) ==> CommentOut(txt) == txt
  {
    if Contains(txt, IMPORT) {
      ReplaceLeavesRep(txt, IMPORT, COMMENTED);
    } else {
      ReplaceAbsent(txt, IMPORT, COMMENTED);
    }
  }

  /**
   * The comment-out step is not idempotent: `# import amdsmi` still holds
   * `import amdsmi`, so a second pass comments it out once more.
   */
  lemma CommentOutNotIdempotent(txt: string)
    requires Contains(txt, IMPORT)
    ensures CommentOut(CommentOut(txt)) != CommentOut(txt)
  {
    assert COMMENTED == "# " + IMPORT + "";
    ContainsMiddle("# ", IMPORT, "");
    ReplaceGrowsAgain(txt, IMPORT, COMMENTED);
  }

  // The `is_rocm` step.

  /**
   * Line by line: a line without `is_rocm = ` is unchanged, and a line with it
   * keeps what precedes its first `is_rocm = ` and ends in `is_rocm = True`.
   */
  lemma IsRocmLines(txt: string)
    ensures |Lines(ForceIsRocm(txt))| == |Lines(txt)|
    ensures forall i :: 0 <= i < |Lines(txt)| ==>
      Lines(ForceIsRocm(txt))[i] == ForceLine(Lines(txt)[i], IS_ROCM_KEY, IS_ROCM_FORCED)
  {
    ForceLineTailEachLine(txt, IS_ROCM_KEY, IS_ROCM_FORCED);
  }

  /** Forcing `is_rocm` again changes nothing. */
  lemma IsRocmIdempotent(txt: string)
    ensures ForceIsRocm(ForceIsRocm(txt)) == ForceIsRocm(txt)
  {
    ForceLineTailIdempotent(txt, IS_ROCM_KEY, IS_ROCM_FORCED);
  }

  // The three literal replacements.

  /** The first part of `HANDLE_CHECK` after its first character, as pieces. */
  lemma HandleTail()
    ensures HANDLE_CHECK[1..] == "f len(amdsm" + "i.amdsmi_get_" + "processor_handles()) > 0:"
  {
    var a, b, c := "if len(amdsm", "i.amdsmi_get_", "processor_handles()) > 0:";
    DropConcat(a + b, c, 1);
    DropConcat(a, b, 1);
    assert a[1..] == "f len(amdsm";
  }

  /** No `if len(...) > 0:` can overlap an inserted `if True:`. */
  lemma HandleVersusForced()
    ensures CannotStartInside(HANDLE_CHECK, HANDLE_FORCED) && CannotRunInto(HANDLE_CHECK, HANDLE_FORCED)
  {
    HandleInsideForced();
    HandleIntoForced();
  }

  lemma HandleInsideForced()
    ensures CannotStartInside(HANDLE_CHECK, HANDLE_FORCED)
  {
    assert HANDLE_CHECK[3] == 'l';
    DifferAt(HANDLE_CHECK, HANDLE_FORCED, 3);
    assert HANDLE_FORCED[1..] == "f True:";
    StartInsideByFirst(HANDLE_CHECK, HANDLE_FORCED);
  }

  lemma HandleIntoForced()
    ensures CannotRunInto(HANDLE_CHECK, HANDLE_FORCED)
  {
    HandleTailLacks("if", 'i', 'f');
    assert HANDLE_FORCED[..2] == "if";
    assert HANDLE_CHECK[|HANDLE_CHECK| - 1] == ':';
    RunIntoByPair(HANDLE_CHECK, HANDLE_FORCED);
  }

  /**
   * A two-character string is not in `HANDLE_CHECK` after its first character
   * when its first character is not in the first piece and its second one not
   * in the rest.
   */
  lemma HandleTailLacks(q: string, x: char, y: char)
    requires q == [x, y]
    requires x !in "f len(amdsm"
    requires y !in "i.amdsmi_get_" + "processor_handles()) > 0:"
    ensures !Contains(HANDLE_CHECK[1..], q)
  {
    HandleTail();
    var a, bc := "f len(amdsm", "i.amdsmi_get_" + "processor_handles()) > 0:";
    MissingChar(a, q, x);
    MissingChar(bc, q, y);
    AbsentConcat(a, bc, q);
  }

  /** No `if len(...) > 0:` can overlap an inserted `pass`. */
  lemma HandleVersusPass()
    ensures CannotStartInside(HANDLE_CHECK, PASS) && CannotRunInto(HANDLE_CHECK, PASS)
  {
    HandleInsidePass();
    HandleIntoPass();
  }

  lemma HandleInsidePass()
    ensures CannotStartInside(HANDLE_CHECK, PASS)
  {
    DifferAt(HANDLE_CHECK, PASS, 0);
    assert PASS[1..] == "ass";
    StartInsideByFirst(HANDLE_CHECK, PASS);
  }

  lemma HandleIntoPass()
    ensures CannotRunInto(HANDLE_CHECK, PASS)
  {
    HandleTailLacksPa();
    assert PASS[..2] == "pa";
    assert HANDLE_CHECK[|HANDLE_CHECK| - 1] == ':';
    RunIntoByPair(HANDLE_CHECK, PASS);
  }

  /** `pa` is not in `HANDLE_CHECK` after its first character: its one `p` is followed by `r`. */
  lemma HandleTailLacksPa()
    ensures !Contains(HANDLE_CHECK[1..], "pa")
  {
    HandleTail();
    var ab, c := "f len(amdsm" + "i.amdsmi_get_", "processor_handles()) > 0:";
    MissingChar(ab, "pa", 'p');
    DifferAt("pa", c, 1);
    var c1 := "rocessor_handles()) > 0:";
    MissingChar(c1, "pa", 'p');
    assert c[1..] == c1;
    ContainsCons(c, "pa");
    AbsentConcat(ab, c, "pa");
  }

  /** No `amdsmi.amdsmi_...()` call can overlap an inserted `pass`. */
  lemma CallVersusPass(call: string)
    requires call == INIT_CALL || call == SHUTDOWN_CALL
    ensures CannotStartInside(call, PASS) && CannotRunInto(call, PASS)
  {
    CallInsidePass(call);
    CallLacksP(call);
    RunIntoByFirst(call, PASS);
  }

  /** Neither call holds a `p` after its first character. */
  lemma CallLacksP(call: string)
    requires call == INIT_CALL || call == SHUTDOWN_CALL
    ensures 'p' !in call[1..]
  {
    if call == INIT_CALL {
      var t := "mdsmi.amdsmi_init()";
      assert 'p' !in t;
      assert call[1..] == t;
    } else {
      var t := "mdsmi.amdsmi_shut_down()";
      assert 'p' !in t;
      assert call[1..] == t;
    }
  }

  lemma CallInsidePass(call: string)
    requires |call| >= 2 && call[..2] == "am"
    ensures CannotStartInside(call, PASS)
  {
    DifferAt(call, PASS, 0);
    assert PASS[1..] == "ass";
    MissingChar(PASS[1..], call[..2], 'm');
    StartInsideByPair(call, PASS);
  }

  /** After the three replacements none of the three patterns is left in the text. */
  lemma StubCallsRemoves(txt: string)
    ensures !Contains(StubCalls(txt), HANDLE_CHECK)
    ensures !Contains(StubCalls(txt), INIT_CALL)
    ensures !Contains(StubCalls(txt), SHUTDOWN_CALL)
  {
    HandleVersusForced();
    HandleVersusPass();
    CallVersusPass(INIT_CALL);
    CallVersusPass(SHUTDOWN_CALL);
    var t := ReplaceAll(txt, HANDLE_CHECK, HANDLE_FORCED);
    var t' := ReplaceAll(t, INIT_CALL, PASS);
    ReplaceRemoves(txt, HANDLE_CHECK, HANDLE_FORCED);
    ReplaceKeepsOut(t, INIT_CALL, PASS, HANDLE_CHECK);
    ReplaceKeepsOut(t', SHUTDOWN_CALL, PASS, HANDLE_CHECK);
    ReplaceRemoves(t, INIT_CALL, PASS);
    ReplaceKeepsOut(t', SHUTDOWN_CALL, PASS, INIT_CALL);
    ReplaceRemoves(t', SHUTDOWN_CALL, PASS);
  }

  /** Applying the three replacements a second time changes nothing. */
  lemma StubCallsIdempotent(txt: string)
    ensures StubCalls(StubCalls(txt)) == StubCalls(txt)
  {
    var u := StubCalls(txt);
    StubCallsRemoves(txt);
    ReplaceAbsent(u, HANDLE_CHECK, HANDLE_FORCED);
    ReplaceAbsent(u, INIT_CALL, PASS);
    ReplaceAbsent(u, SHUTDOWN_CALL, PASS);
  }

  // The `is_rocm` line survives the three replacements.

  /** No `is_rocm = ` runs into `is_rocm = True` or into either inserted text, nor begins inside one. */
  lemma KeyVersusInserted()
    ensures CannotRunInto(IS_ROCM_KEY, IS_ROCM_FORCED)
    ensures CannotStartInside(IS_ROCM_KEY, HANDLE_FORCED) && CannotRunInto(IS_ROCM_KEY, HANDLE_FORCED)
    ensures CannotStartInside(IS_ROCM_KEY, PASS) && CannotRunInto(IS_ROCM_KEY, PASS)
  {
    assert IS_ROCM_KEY[1..] == "s_rocm = ";
    RunIntoByFirst(IS_ROCM_KEY, IS_ROCM_FORCED);
    DifferAt(IS_ROCM_KEY, HANDLE_FORCED, 1);
    assert HANDLE_FORCED[1..] == "f True:";
    StartInsideByFirst(IS_ROCM_KEY, HANDLE_FORCED);
    RunIntoByFirst(IS_ROCM_KEY, HANDLE_FORCED);
    DifferAt(IS_ROCM_KEY, PASS, 0);
    assert PASS[1..] == "ass";
    StartInsideByFirst(IS_ROCM_KEY, PASS);
    RunIntoByFirst(IS_ROCM_KEY, PASS);
  }

  /** `is` is absent from five pieces that each end in a character other than `i` and `s`. */
  lemma LacksIs(a: string, b: string, c: string, d: string, e: string)
    requires !Contains(a, "is") && !Contains(b, "is") && !Contains(c, "is")
    requires !Contains(d, "is") && !Contains(e, "is")
    requires a != [] && a[|a| - 1] !in "is" && b != [] && b[|b| - 1] !in "is"
    requires c != [] && c[|c| - 1] !in "is" && d != [] && d[|d| - 1] !in "is"
    ensures !Contains(a + b + c + d + e, "is")
  {
    AbsentConcat(a, b, "is");
    AbsentConcat(a + b, c, "is");
    AbsentConcat(a + b + c, d, "is");
    AbsentConcat(a + b + c + d, e, "is");
  }

  /**
   * None of the three patterns holds `is` after its first character: each of
   * their `i`s is followed by another character.
   */
  lemma PatternTailLacksIs(pat: string)
    requires pat == HANDLE_CHECK || pat == INIT_CALL || pat == SHUTDOWN_CALL
    ensures !Contains(pat[1..], "is")
  {
    if pat == HANDLE_CHECK {
      HandleTailLacksIs();
    } else {
      CallTailLacksIs(pat);
    }
  }

  lemma HandleTailLacksIs()
    ensures !Contains(HANDLE_CHECK[1..], "is")
  {
    HandleTail();
    var a, b, c, d, e := "f len(amdsm", "i.amd", "sm", "i_get_", "processor_handles()) > 0:";
    MissingChar(a, "is", 'i');
    MissingChar(b, "is", 's');
    MissingChar(c, "is", 'i');
    MissingChar(d, "is", 's');
    MissingChar(e, "is", 'i');
    assert "i.amdsmi_get_" == b + c + d;
    LacksIs(a, b, c, d, e);
  }

  lemma CallTailLacksIs(call: string)
    requires call == INIT_CALL || call == SHUTDOWN_CALL
    ensures !Contains(call[1..], "is")
  {
    if call == INIT_CALL {
      InitTailLacksIs();
    } else {
      ShutdownTailLacksIs();
    }
  }

  /** The pieces the two calls share after their first character. */
  lemma CallPiecesLackIs(a: string, b: string, c: string, d: string)
    requires a == "mdsm" && b == "i.amd" && c == "sm" && d == "i_"
    ensures !Contains(a, "is") && !Contains(b, "is") && !Contains(c, "is") && !Contains(d, "is")
    ensures a[|a| - 1] !in "is" && b[|b| - 1] !in "is" && c[|c| - 1] !in "is" && d[|d| - 1] !in "is"
  {
    MissingChar(a, "is", 'i');
    MissingChar(b, "is", 's');
    MissingChar(c, "is", 'i');
    MissingChar(d, "is", 's');
  }

  lemma InitTailLacksIs()
    ensures !Contains(INIT_CALL[1..], "is")
  {
    var a, b, c, d, e := "mdsm", "i.amd", "sm", "i_", "init()";
    CallPiecesLackIs(a, b, c, d);
    MissingChar(e, "is", 's');
    InitTail(a, b, c, d, e);
    LacksIs(a, b, c, d, e);
  }

  lemma InitTail(a: string, b: string, c: string, d: string, e: string)
    requires a == "mdsm" && b == "i.amd" && c == "sm" && d == "i_" && e == "init()"
    ensures INIT_CALL[1..] == a + b + c + d + e
  {
    assert INIT_CALL == "a" + (a + b + c + d + e);
  }

  lemma ShutdownTailLacksIs()
    ensures !Contains(SHUTDOWN_CALL[1..], "is")
  {
    var a, b, c, d, e := "mdsm", "i.amd", "sm", "i_", "shut_down()";
    CallPiecesLackIs(a, b, c, d);
    MissingChar(e, "is", 'i');
    ShutdownTail(a, b, c, d, e);
    LacksIs(a, b, c, d, e);
  }

  lemma ShutdownTail(a: string, b: string, c: string, d: string, e: string)
    requires a == "mdsm" && b == "i.amd" && c == "sm" && d == "i_" && e == "shut_down()"
    ensures SHUTDOWN_CALL[1..] == a + b + c + d + e
  {
    assert SHUTDOWN_CALL == "a" + (a + b + c + d + e);
  }

  /** None of the three patterns occurs in `is_rocm = True` or runs into it, and none holds a line break. */
  lemma PatternVersusForced(pat: string)
    requires pat == HANDLE_CHECK || pat == INIT_CALL || pat == SHUTDOWN_CALL
    ensures '\n' !in pat
    ensures !Contains(IS_ROCM_FORCED, pat) && CannotRunInto(pat, IS_ROCM_FORCED)
  {
    PatternNoBreak(pat);
    if pat == HANDLE_CHECK {
      assert pat[13] == '.' && pat[|pat| - 1] == ':';
    } else {
      assert pat[6] == '.' && pat[|pat| - 1] == ')';
    }
    assert '.' !in IS_ROCM_FORCED;
    MissingChar(IS_ROCM_FORCED, pat, '.');
    PatternTailLacksIs(pat);
    assert IS_ROCM_FORCED[..2] == "is";
    RunIntoByPair(pat, IS_ROCM_FORCED);
  }

  lemma PatternNoBreak(pat: string)
    requires pat == HANDLE_CHECK || pat == INIT_CALL || pat == SHUTDOWN_CALL
    ensures '\n' !in pat
  {
    if pat == HANDLE_CHECK {
      assert '\n' !in "if len(amdsm" && '\n' !in "i.amdsmi_get_" && '\n' !in "processor_handles()) > 0:";
    }
  }

  /** The three replacements keep a text that forcing `is_rocm` leaves alone in that state. */
  lemma StubKeepsForced(txt: string)
    requires ForceIsRocm(txt) == txt
    ensures ForceIsRocm(StubCalls(txt)) == StubCalls(txt)
  {
    KeyVersusInserted();
    PatternVersusForced(HANDLE_CHECK);
    PatternVersusForced(INIT_CALL);
    PatternVersusForced(SHUTDOWN_CALL);
    var t := ReplaceAll(txt, HANDLE_CHECK, HANDLE_FORCED);
    var t' := ReplaceAll(t, INIT_CALL, PASS);
    ReplaceKeepsForced(txt, IS_ROCM_KEY, IS_ROCM_FORCED, HANDLE_CHECK, HANDLE_FORCED);
    ReplaceKeepsForced(t, IS_ROCM_KEY, IS_ROCM_FORCED, INIT_CALL, PASS);
    ReplaceKeepsForced(t', IS_ROCM_KEY, IS_ROCM_FORCED, SHUTDOWN_CALL, PASS);
  }

  // The whole patch.

  /**
   * A second run changes nothing when the first run's output holds no
   * `import amdsmi`: there is nothing left to comment out, the `is_rocm`
   * lines are already forced and the three patterns are gone.
   */
  lemma PatchIdempotentWhen(txt: string)
    requires !Contains(PatchPlatformsInit(txt), IMPORT)
    ensures PatchPlatformsInit(PatchPlatformsInit(txt)) == PatchPlatformsInit(txt)
  {
    var f := ForceIsRocm(CommentOut(txt));
    var u := StubCalls(f);
    ReplaceAbsent(u, IMPORT, COMMENTED);
    IsRocmIdempotent(CommentOut(txt));
    StubKeepsForced(f);
    StubCallsIdempotent(f);
  }

  // The whole patch.

  /**
   * On a text without `c` and `.`, none of `is_rocm = `, the handle check or
   * the two calls can occur, so the patch is the comment-out step alone.
   */
  lemma PatchIsCommentOut(txt: string)
    requires 'c' !in txt && '.' !in txt
    ensures PatchPlatformsInit(txt) == CommentOut(txt)
    ensures 'c' !in PatchPlatformsInit(txt) && '.' !in PatchPlatformsInit(txt)
  {
    var t := CommentOut(txt);
    ReplaceNoNewChar(txt, IMPORT, COMMENTED, 'c');
    ReplaceNoNewChar(txt, IMPORT, COMMENTED, '.');
    MissingChar(t, IS_ROCM_KEY, 'c');
    ForceAbsent(t, IS_ROCM_KEY, IS_ROCM_FORCED);
    MissingChar(t, HANDLE_CHECK, '.');
    MissingChar(t, INIT_CALL, '.');
    MissingChar(t, SHUTDOWN_CALL, '.');
    ReplaceAbsent(t, HANDLE_CHECK, HANDLE_FORCED);
    ReplaceAbsent(t, INIT_CALL, PASS);
    ReplaceAbsent(t, SHUTDOWN_CALL, PASS);
  }

  /**
   * The patch is not idempotent: on every text that holds `import amdsmi`
   * and none of the other patterns' characters `c` and `.`, a second run
   * differs from the first.
   */
  lemma PatchNotIdempotent(txt: string)
    requires 'c' !in txt && '.' !in txt
    requires Contains(txt, IMPORT)
    ensures PatchPlatformsInit(PatchPlatformsInit(txt)) != PatchPlatformsInit(txt)
  {
    PatchIsCommentOut(txt);
    PatchIsCommentOut(PatchPlatformsInit(txt));
    CommentOutNotIdempotent(txt);
  }

  /** Commenting out the one line `import amdsmi`. */
  lemma CommentOutOnce()
    ensures CommentOut(IMPORT + "\n") == COMMENTED + "\n"
  {
    var x := IMPORT + "\n";
    MissingChar("\n", IMPORT, 'i');
    ReplaceAbsent("\n", IMPORT, COMMENTED);
    assert x[|IMPORT|..] == "\n";
    ReplaceAtMatch(x, IMPORT, COMMENTED);
  }

  /** A character other than `i` cannot begin `import amdsmi`, so the scan copies it. */
  lemma CommentOutSkip(c: char, t: string)
    requires c != 'i'
    ensures CommentOut([c] + t) == [c] + CommentOut(t)
  {
    var y := [c] + t;
    DifferAt(IMPORT, y, 0);
    assert y[1..] == t;
    ReplaceAtMiss(y, IMPORT, COMMENTED);
  }

  lemma AppendTwo(a: char, b: char, t: string)
    ensures [a] + ([b] + t) == [a, b] + t
  {
  }

  /** Commenting out the one line `# import amdsmi` once more. */
  lemma CommentOutAgain()
    ensures CommentOut(COMMENTED + "\n") == "# " + COMMENTED + "\n"
  {
    var x := IMPORT + "\n";
    assert COMMENTED + "\n" == "# " + x;
    CommentOutSkip('#', [' '] + x);
    CommentOutSkip(' ', x);
    CommentOutOnce();
    AppendTwo('#', ' ', x);
    AppendTwo('#', ' ', COMMENTED + "\n");
  }

  /** The smallest case: `import amdsmi` becomes `# import amdsmi`, and a second run gives `# # import amdsmi`. */
  lemma PatchTwice()
    ensures PatchPlatformsInit("import amdsmi\n") == "# import amdsmi\n"
    ensures PatchPlatformsInit(PatchPlatformsInit("import amdsmi\n")) == "# # import amdsmi\n"
  {
    var x := IMPORT + "\n";
    var y := COMMENTED + "\n";
    assert x == "import amdsmi\n";
    assert y == "# import amdsmi\n";
    assert "# " + COMMENTED + "\n" == "# # import amdsmi\n";
    PatchIsCommentOut(x);
    CommentOutOnce();
    PatchIsCommentOut(y);
    CommentOutAgain();
  }

  /**
   * The whole patch with the `is_rocm` step at work: `is_rocm = False` is
   * forced and the import below it is commented out.
   */
  lemma PatchForcesAndComments()
    ensures PatchPlatformsInit("is_rocm = False\nimport amdsmi\n") == "is_rocm = True\n# import amdsmi\n"
  {
    var a, c := "is_rocm = False", COMMENTED + "\n";
    var x, t := a + "\n" + (IMPORT + "\n"), IS_ROCM_FORCED + "\n" + c;
    ExampleText(a, c, x, t);
    ExampleCommentOut(a);
    ExampleForce(a, c);
    ExampleStubs(t);
  }

  /** The example's input and output, spelled as their lines. */
  lemma ExampleText(a: string, c: string, x: string, t: string)
    requires a == "is_rocm = False" && c == COMMENTED + "\n"
    requires x == a + "\n" + (IMPORT + "\n") && t == IS_ROCM_FORCED + "\n" + c
    ensures x == "is_rocm = False\nimport amdsmi\n" && t == "is_rocm = True\n# import amdsmi\n"
  {
  }

  /** The comment-out step on the example: only the second line changes. */
  lemma ExampleCommentOut(a: string)
    requires a == "is_rocm = False"
    ensures CommentOut(a + "\n" + (IMPORT + "\n")) == a + "\n" + (COMMENTED + "\n")
  {
    ReplaceFirstLine(a, IMPORT + "\n", IMPORT, COMMENTED);
    MissingChar(a, IMPORT, 'p');
    ReplaceAbsent(a, IMPORT, COMMENTED);
    CommentOutOnce();
  }

  /** The `is_rocm` step on the example: only the first line changes. */
  lemma ExampleForce(a: string, c: string)
    requires a == "is_rocm = False" && c == COMMENTED + "\n"
    ensures ForceIsRocm(a + "\n" + c) == IS_ROCM_FORCED + "\n" + c
  {
    ExampleFirstLine(a);
    ForceFirstLine(a, c, IS_ROCM_KEY, IS_ROCM_FORCED);
    ForceLineAtKey(a, IS_ROCM_KEY, IS_ROCM_FORCED);
    ExampleSecondLine(c);
  }

  lemma ExampleFirstLine(a: string)
    requires a == "is_rocm = False"
    ensures '\n' !in a && '\n' !in IS_ROCM_KEY && IS_ROCM_KEY <= a
  {
    assert a == IS_ROCM_KEY + "False";
  }

  lemma ExampleSecondLine(c: string)
    requires c == COMMENTED + "\n"
    ensures ForceIsRocm(c) == c
  {
    assert '_' in IS_ROCM_KEY && '_' !in c;
    MissingChar(c, IS_ROCM_KEY, '_');
    ForceAbsent(c, IS_ROCM_KEY, IS_ROCM_FORCED);
  }

  /** The three replacements on the example: none of their patterns occurs, for want of a `(`. */
  lemma ExampleStubs(t: string)
    requires t == "is_rocm = True\n# import amdsmi\n"
    ensures StubCalls(t) == t
  {
    assert '(' in HANDLE_CHECK && '(' in INIT_CALL && '(' in SHUTDOWN_CALL;
    MissingChar(t, HANDLE_CHECK, '(');
    ReplaceAbsent(t, HANDLE_CHECK, HANDLE_FORCED);
    MissingChar(t, INIT_CALL, '(');
    ReplaceAbsent(t, INIT_CALL, PASS);
    MissingChar(t, SHUTDOWN_CALL, '(');
    ReplaceAbsent(t, SHUTDOWN_CALL, PASS);
  }

  /** The patch adds no carriage return: none of the texts it writes holds one. */
  lemma PlatformsNoCarriageReturn(txt: string)
    requires '\r' !in txt
    ensures '\r' !in PatchPlatformsInit(txt)
  {
    var t1 := CommentOut(txt);
    var t2 := ForceIsRocm(t1);
    var t3 := ReplaceAll(t2, HANDLE_CHECK, HANDLE_FORCED);
    var t4 := ReplaceAll(t3, INIT_CALL, PASS);
    assert '\r' !in COMMENTED && '\r' !in IS_ROCM_FORCED && '\r' !in HANDLE_FORCED && '\r' !in PASS;
    ReplaceNoNewChar(txt, IMPORT, COMMENTED, '\r');
    ForceNoNewChar(t1, IS_ROCM_KEY, IS_ROCM_FORCED, '\r');
    ReplaceNoNewChar(t2, HANDLE_CHECK, HANDLE_FORCED, '\r');
    ReplaceNoNewChar(t3, INIT_CALL, PASS, '\r');
    ReplaceNoNewChar(t4, SHUTDOWN_CALL, PASS, '\r');
  }
}
