/**
 * `patch_rocm_py`: the rewrite of `vllm/platforms/rocm.py`. It puts a mock
 * `amdsmi` module header on top unless the text already registers one, forces
 * the `device_type` and `device_name` assignments, and appends a
 * `get_device_name` method unless one is already defined.
 */
module RocmPy {
  import opened Text
  import opened LineSub

  /** What the header guard looks for. */
  const SIGNATURE: string := "sys.modules[\"amdsmi\"]"
  // Long literals are written in pieces, so that facts about them can be checked piece by piece.
  const HEADER: string := "import sys\n" + "from unittest.mock import MagicMock\n" + SIGNATURE + " = MagicMock()\n"
  const DEVICE_TYPE_KEY: string := "device_type = "
  const DEVICE_TYPE_FORCED: string := DEVICE_TYPE_KEY + "\"rocm\""
  const DEVICE_NAME_KEY: string := "device_name = "
  const DEVICE_NAME_FORCED: string := DEVICE_NAME_KEY + "\"gfx1151\""
  /** What the method guard looks for. */
  const METHOD_SIGNATURE: string := "def get_device_name"
  const METHOD_HEAD: string := "\n    " + METHOD_SIGNATURE + "("
  const METHOD_REST: string := "self, device_id: int = 0) -> str:\n" + "        return \"AMD-gfx1151\"\n"
  const METHOD: string := METHOD_HEAD + METHOD_REST

  /** The header goes on top exactly when the text lacks the signature; either way the result has it. */
  function AddHeader(txt: string): (r: string)
    ensures Contains(r, SIGNATURE)
    ensures r == HEADER + txt <==> !Contains(txt, SIGNATURE)
    ensures r == txt <==> Contains(txt, SIGNATURE)
  {
    if !Contains(txt, SIGNATURE) then
      HeaderHasSignature(txt);
      HEADER + txt
    else
      txt
  }

  /** The header followed by any text holds the signature. */
  lemma HeaderHasSignature(txt: string)
    ensures Contains(HEADER + txt, SIGNATURE)
  {
    var a := "import sys\n" + "from unittest.mock import MagicMock\n";
    var b := " = MagicMock()\n" + txt;
    assert HEADER + txt == a + SIGNATURE + b;
    ContainsMiddle(a, SIGNATURE, b);
  }

  /** The `device_type` step. */
  function ForceDeviceType(txt: string): string
  {
    ForceLineTail(txt, DEVICE_TYPE_KEY, DEVICE_TYPE_FORCED)
  }

  /** The `device_name` step. */
  function ForceDeviceName(txt: string): string
  {
    ForceLineTail(txt, DEVICE_NAME_KEY, DEVICE_NAME_FORCED)
  }

  /** Both forcing steps, `device_type` first. */
  function ForceDevice(txt: string): string
  {
    ForceDeviceName(ForceDeviceType(txt))
  }

  /** The method goes at the end exactly when the text lacks its definition; either way the result has it. */
  function AddMethod(txt: string): (r: string)
    ensures Contains(r, METHOD_SIGNATURE)
    ensures r == txt + METHOD <==> !Contains(txt, METHOD_SIGNATURE)
    ensures r == txt <==> Contains(txt, METHOD_SIGNATURE)
  {
    if !Contains(txt, METHOD_SIGNATURE) then
      MethodHasSignature(txt);
      txt + METHOD
    else
      txt
  }

  /** Any text followed by the method holds its definition. */
  lemma MethodHasSignature(txt: string)
    ensures Contains(txt + METHOD, METHOD_SIGNATURE)
  {
    ContainsMiddle("\n    ", METHOD_SIGNATURE, "(");
    ContainsConcat(METHOD_HEAD, METHOD_REST, METHOD_SIGNATURE);
    ContainsConcat(txt, METHOD, METHOD_SIGNATURE);
  }

  /** The whole patch, as the file's new contents. */
  function PatchRocmPy(txt: string): string
  {
    AddMethod(ForceDevice(AddHeader(txt)))
  }

  // The forcing steps.

  /**
   * Line by line: a line without `device_type = ` is unchanged, and a line
   * with it keeps what precedes its first `device_type = ` and ends in
   * `device_type = "rocm"`.
   */
  lemma DeviceTypeLines(txt: string)
    ensures |Lines(ForceDeviceType(txt))| == |Lines(txt)|
    ensures forall i :: 0 <= i < |Lines(txt)| ==>
      Lines(ForceDeviceType(txt))[i] == ForceLine(Lines(txt)[i], DEVICE_TYPE_KEY, DEVICE_TYPE_FORCED)
  {
    ForceLineTailEachLine(txt, DEVICE_TYPE_KEY, DEVICE_TYPE_FORCED);
  }

  /** The same for `device_name = ` and `device_name = "gfx1151"`. */
  lemma DeviceNameLines(txt: string)
    ensures |Lines(ForceDeviceName(txt))| == |Lines(txt)|
    ensures forall i :: 0 <= i < |Lines(txt)| ==>
      Lines(ForceDeviceName(txt))[i] == ForceLine(Lines(txt)[i], DEVICE_NAME_KEY, DEVICE_NAME_FORCED)
  {
    ForceLineTailEachLine(txt, DEVICE_NAME_KEY, DEVICE_NAME_FORCED);
  }

  /** Forcing `device_type` again changes nothing. */
  lemma DeviceTypeIdempotent(txt: string)
    ensures ForceDeviceType(ForceDeviceType(txt)) == ForceDeviceType(txt)
  {
    ForceLineTailIdempotent(txt, DEVICE_TYPE_KEY, DEVICE_TYPE_FORCED);
  }

  /** Forcing `device_name` again changes nothing. */
  lemma DeviceNameIdempotent(txt: string)
    ensures ForceDeviceName(ForceDeviceName(txt)) == ForceDeviceName(txt)
  {
    ForceLineTailIdempotent(txt, DEVICE_NAME_KEY, DEVICE_NAME_FORCED);
  }

  /** `device_type = ` can neither occur in nor run into `device_name = "gfx1151"`, and `"rocm"` holds no `device_name = `. */
  lemma TypeVersusName()
    ensures !Contains(DEVICE_NAME_FORCED, DEVICE_TYPE_KEY) && CannotRunInto(DEVICE_TYPE_KEY, DEVICE_NAME_FORCED)
    ensures !Contains(DEVICE_TYPE_FORCED[|DEVICE_TYPE_KEY|..], DEVICE_NAME_KEY)
  {
    TypeKeyVersusName();
    var v := "\"rocm\"";
    MissingChar(v, DEVICE_NAME_KEY, 'v');
    assert DEVICE_TYPE_FORCED[|DEVICE_TYPE_KEY|..] == v;
  }

  lemma TypeKeyVersusName()
    ensures !Contains(DEVICE_NAME_FORCED, DEVICE_TYPE_KEY) && CannotRunInto(DEVICE_TYPE_KEY, DEVICE_NAME_FORCED)
  {
    var t := "evice_type = ";
    assert 'd' !in t;
    assert DEVICE_NAME_FORCED[0] == 'd' && DEVICE_TYPE_KEY[1..] == t;
    RunIntoByFirst(DEVICE_TYPE_KEY, DEVICE_NAME_FORCED);
    var n1, n2 := "device_name = ", "\"gfx1151\"";
    assert 'y' !in n1 && 'y' !in n2;
    assert DEVICE_NAME_FORCED == n1 + n2;
    MissingChar(DEVICE_NAME_FORCED, DEVICE_TYPE_KEY, 'y');
  }

  /** The `device_name` step does not undo the `device_type` step: after both, the `device_type` lines are still forced. */
  lemma ForceDeviceKeepsType(txt: string)
    ensures ForceDeviceType(ForceDevice(txt)) == ForceDevice(txt)
  {
    TypeVersusName();
    DeviceTypeIdempotent(txt);
    ForceLineTailKeepsFixed(ForceDeviceType(txt), DEVICE_TYPE_KEY, DEVICE_TYPE_FORCED,
                            DEVICE_NAME_KEY, DEVICE_NAME_FORCED);
  }

  /** Both forcing steps together, applied again, change nothing. */
  lemma ForceDeviceIdempotent(txt: string)
    ensures ForceDevice(ForceDevice(txt)) == ForceDevice(txt)
  {
    ForceDeviceKeepsType(txt);
    DeviceNameIdempotent(ForceDeviceType(txt));
  }

  // The fixed texts the patch inserts.

  /** The forcing steps leave the header alone and go on behind it. */
  lemma ForceDeviceHeader(txt: string)
    ensures ForceDevice(HEADER + txt) == HEADER + ForceDevice(txt)
  {
    HeaderLacksV();
    ForceKeyHeader(txt, DEVICE_TYPE_KEY, DEVICE_TYPE_FORCED);
    ForceKeyHeader(ForceDeviceType(txt), DEVICE_NAME_KEY, DEVICE_NAME_FORCED);
  }

  /** Forcing a key with a `v` leaves the header alone and goes on behind it. */
  lemma ForceKeyHeader(txt: string, key: string, rep: string)
    requires 'v' in key && '\n' !in key
    requires HEADER[|HEADER| - 1] == '\n' && 'v' !in HEADER
    ensures ForceLineTail(HEADER + txt, key, rep) == HEADER + ForceLineTail(txt, key, rep)
  {
    MissingChar(HEADER, key, 'v');
    ForceAbsent(HEADER, key, rep);
    ForceLineTailConcat(HEADER, txt, key, rep);
  }

  /** The header ends its last line and has no `v`. */
  lemma HeaderLacksV()
    ensures HEADER[|HEADER| - 1] == '\n' && 'v' !in HEADER
  {
    var a, b, c := "import sys\n", "from unittest.mock import MagicMock\n", " = MagicMock()\n";
    assert 'v' !in a && 'v' !in b && 'v' !in SIGNATURE && 'v' !in c;
    assert HEADER == a + b + SIGNATURE + c;
    assert HEADER[|HEADER| - 1] == c[|c| - 1];
  }

  /** A character missing from the pieces of the method's head is missing from the head. */
  lemma HeadLacks(x: char)
    requires x !in "\n    " && x !in METHOD_SIGNATURE && x != '('
    ensures x !in METHOD_HEAD
  {
  }

  /** A character missing from the two lines of the method's rest is missing from the rest. */
  lemma RestLacks(x: char)
    requires x !in "self, device_id: int = 0) -> str:\n"
    requires x !in "        return \"AMD-gfx1151\"\n"
    ensures x !in METHOD_REST
  {
  }

  lemma MethodLacksY()
    ensures 'y' !in METHOD
  {
    RestLacksY();
    HeadLacks('y');
  }

  lemma RestLacksY()
    ensures 'y' !in METHOD_REST
  {
    RestLacks('y');
  }

  /** The method holds no `device_type = `: it has no `y`. */
  lemma MethodLacksTypeKey()
    ensures !Contains(METHOD, DEVICE_TYPE_KEY)
  {
    MethodLacksY();
    MissingChar(METHOD, DEVICE_TYPE_KEY, 'y');
  }

  /** The method holds no `device_name = `: its head has no `=` and its rest no `a`. */
  lemma MethodLacksNameKey()
    ensures !Contains(METHOD, DEVICE_NAME_KEY)
  {
    HeadLacksNameKey();
    RestLacksNameKey();
    assert METHOD_HEAD[|METHOD_HEAD| - 1] == '(';
    AbsentConcat(METHOD_HEAD, METHOD_REST, DEVICE_NAME_KEY);
  }

  lemma HeadLacksNameKey()
    ensures !Contains(METHOD_HEAD, DEVICE_NAME_KEY)
  {
    HeadLacks('=');
    MissingChar(METHOD_HEAD, DEVICE_NAME_KEY, '=');
  }

  lemma RestLacksNameKey()
    ensures !Contains(METHOD_REST, DEVICE_NAME_KEY)
  {
    RestLacks('a');
    MissingChar(METHOD_REST, DEVICE_NAME_KEY, 'a');
  }

  /** Neither forcing step touches the appended method. */
  lemma MethodFixed()
    ensures ForceDeviceType(METHOD) == METHOD
    ensures ForceDeviceName(METHOD) == METHOD
  {
    MethodLacksTypeKey();
    ForceAbsent(METHOD, DEVICE_TYPE_KEY, DEVICE_TYPE_FORCED);
    MethodLacksNameKey();
    ForceAbsent(METHOD, DEVICE_NAME_KEY, DEVICE_NAME_FORCED);
  }

  /** The forcing steps go on across the appended method, which starts a new line, and leave it alone. */
  lemma ForceDeviceMethod(txt: string)
    ensures ForceDevice(txt + METHOD) == ForceDevice(txt) + METHOD
  {
    assert METHOD[0] == '\n';
    MethodFixed();
    ForceLineTailConcat(txt, METHOD, DEVICE_TYPE_KEY, DEVICE_TYPE_FORCED);
    ForceLineTailConcat(ForceDeviceType(txt), METHOD, DEVICE_NAME_KEY, DEVICE_NAME_FORCED);
  }

  // The whole patch.

  /** A text without the signature comes out starting with the header, and so holding the signature. */
  lemma PatchAddsHeader(txt: string)
    requires !Contains(txt, SIGNATURE)
    ensures HEADER <= PatchRocmPy(txt)
    ensures Contains(PatchRocmPy(txt), SIGNATURE)
  {
    ForceDeviceHeader(txt);
    var t := HEADER + ForceDevice(txt);
    assert PatchRocmPy(txt) == t || PatchRocmPy(txt) == t + METHOD;
    assert HEADER <= t;
    HeaderHasSignature(PatchRocmPy(txt)[|HEADER|..]);
    assert PatchRocmPy(txt) == HEADER + PatchRocmPy(txt)[|HEADER|..];
  }

  /** A second run leaves a patched text alone exactly when that text still holds the signature. */
  lemma PatchIdempotentIff(txt: string)
    ensures PatchRocmPy(PatchRocmPy(txt)) == PatchRocmPy(txt) <==> Contains(PatchRocmPy(txt), SIGNATURE)
  {
    var u := PatchRocmPy(txt);
    if Contains(u, SIGNATURE) {
      var t := ForceDevice(AddHeader(txt));
      ForceDeviceIdempotent(AddHeader(txt));
      if u != t {
        ForceDeviceMethod(t);
      }
      assert ForceDevice(u) == u;
    } else {
      PatchAddsHeader(u);
    }
  }

  /**
   * The patch is idempotent on every text that does not yet register the
   * mock module, and in particular the header is never added twice.
   */
  lemma PatchIdempotent(txt: string)
    requires !Contains(txt, SIGNATURE)
    ensures PatchRocmPy(PatchRocmPy(txt)) == PatchRocmPy(txt)
    ensures AddHeader(PatchRocmPy(txt)) == PatchRocmPy(txt)
  {
    PatchAddsHeader(txt);
    PatchIdempotentIff(txt);
  }

  /** Forcing `device_type` on the line `device_type = sys.modules["amdsmi"]`. */
  lemma ForceSignatureLine()
    ensures ForceDeviceType(DEVICE_TYPE_KEY + SIGNATURE + "\n") == DEVICE_TYPE_FORCED + "\n"
  {
    var x := DEVICE_TYPE_KEY + SIGNATURE + "\n";
    assert x[|DEVICE_TYPE_KEY|..] == SIGNATURE + "\n";
    assert '\n' !in SIGNATURE;
    LineEndConcat(SIGNATURE, "\n");
    assert x[|DEVICE_TYPE_KEY| + |SIGNATURE|..] == "\n";
    MissingChar("\n", DEVICE_TYPE_KEY, 'v');
    ForceAbsent("\n", DEVICE_TYPE_KEY, DEVICE_TYPE_FORCED);
    ForceAtMatchAt(x, DEVICE_TYPE_KEY, DEVICE_TYPE_FORCED, |DEVICE_TYPE_KEY| + LineEnd(x[|DEVICE_TYPE_KEY|..]));
  }

  /** The forced line holds no `device_name = `: it has no `n`. */
  lemma ForcedLineKeepsName()
    ensures ForceDeviceName(DEVICE_TYPE_FORCED + "\n") == DEVICE_TYPE_FORCED + "\n"
  {
    var y := DEVICE_TYPE_FORCED + "\n";
    assert 'n' !in y;
    MissingChar(y, DEVICE_NAME_KEY, 'n');
    ForceAbsent(y, DEVICE_NAME_KEY, DEVICE_NAME_FORCED);
  }

  /** The forced line holds no method definition: it has no `g`. */
  lemma ForcedLineLacksMethod()
    ensures !Contains(DEVICE_TYPE_FORCED + "\n", METHOD_SIGNATURE)
  {
    var y := DEVICE_TYPE_FORCED + "\n";
    assert 'g' !in y;
    MissingChar(y, METHOD_SIGNATURE, 'g');
  }

  /** One line `device_type = sys.modules["amdsmi"]`: the signature is there, so no header is added. */
  lemma SignatureOnForcedLine()
    ensures PatchRocmPy(DEVICE_TYPE_KEY + SIGNATURE + "\n") == DEVICE_TYPE_FORCED + "\n" + METHOD
  {
    var x := DEVICE_TYPE_KEY + SIGNATURE + "\n";
    ContainsMiddle(DEVICE_TYPE_KEY, SIGNATURE, "\n");
    assert AddHeader(x) == x;
    ForceSignatureLine();
    ForcedLineKeepsName();
    ForcedLineLacksMethod();
  }

  /** The patched line, with the method appended, has no signature left: it has no `[`. */
  lemma PatchedLineLacksSignature()
    ensures !Contains(DEVICE_TYPE_FORCED + "\n" + METHOD, SIGNATURE)
  {
    var u := DEVICE_TYPE_FORCED + "\n" + METHOD;
    var d1, d2 := "device_type = ", "\"rocm\"\n";
    assert '[' !in d1 && '[' !in d2;
    assert DEVICE_TYPE_FORCED + "\n" == d1 + d2;
    HeadLacks('[');
    RestLacks('[');
    assert '[' !in u;
    MissingChar(u, SIGNATURE, '[');
  }

  /**
   * The patch is not idempotent in general: forcing `device_type` erases the
   * only signature of `device_type = sys.modules["amdsmi"]`, so the second run
   * adds the header.
   */
  lemma PatchNotIdempotent()
    ensures var x := DEVICE_TYPE_KEY + SIGNATURE + "\n";
      PatchRocmPy(PatchRocmPy(x)) != PatchRocmPy(x)
  {
    var x := DEVICE_TYPE_KEY + SIGNATURE + "\n";
    SignatureOnForcedLine();
    PatchedLineLacksSignature();
    PatchIdempotentIff(x);
  }

  /** The header holds no carriage return. */
  lemma HeaderLacksCarriageReturn()
    ensures '\r' !in HEADER
  {
    var a, b, c := "import sys\n", "from unittest.mock import MagicMock\n", " = MagicMock()\n";
    assert '\r' !in a && '\r' !in b && '\r' !in SIGNATURE && '\r' !in c;
    assert HEADER == a + b + SIGNATURE + c;
  }

  /** The method holds no carriage return. */
  lemma MethodLacksCarriageReturn()
    ensures '\r' !in METHOD
  {
    HeadLacks('\r');
    RestLacks('\r');
  }

  /** The forcing steps add no carriage return. */
  lemma ForceDeviceNoCarriageReturn(txt: string)
    requires '\r' !in txt
    ensures '\r' !in ForceDevice(txt)
  {
    assert '\r' !in DEVICE_TYPE_FORCED && '\r' !in DEVICE_NAME_FORCED;
    ForceNoNewChar(txt, DEVICE_TYPE_KEY, DEVICE_TYPE_FORCED, '\r');
    ForceNoNewChar(ForceDeviceType(txt), DEVICE_NAME_KEY, DEVICE_NAME_FORCED, '\r');
  }

  /** The patch adds no carriage return: the header, the forced lines and the method hold none. */
  lemma RocmNoCarriageReturn(txt: string)
    requires '\r' !in txt
    ensures '\r' !in PatchRocmPy(txt)
  {
    HeaderLacksCarriageReturn();
    var h := AddHeader(txt);
    assert '\r' !in h;
    ForceDeviceNoCarriageReturn(h);
    MethodLacksCarriageReturn();
  }
}
