/**
 * The script's main sequence: the three patches run one after another over
 * the checked-out tree, each on its own file. The tree is a map from path to
 * file contents; a patch whose file is missing skips it and leaves the tree
 * as it is.
 */
module Patcher {
  import opened Text
  import PlatformsInit
  import RocmPy
  import CmakeTargets

  type FileSystem = map<string, string>

  const PLATFORMS_INIT_PATH: string := "vllm/platforms/__init__.py"
  const ROCM_PATH: string := "vllm/platforms/rocm.py"
  const CMAKE_PATH: string := "CMakeLists.txt"

  /**
   * Reading a file as text in universal-newline mode: every `\r\n` and every
   * lone `\r` becomes `\n`. A text without carriage returns reads as it is,
   * and no text reads with one.
   */
  function ReadText(s: string): (r: string)
    ensures '\r' !in r
    ensures r == s <==> '\r' !in s
    decreases |s|
  {
    if s == [] then []
    else if s[0] == '\r' then
      "\n" + ReadText(if |s| > 1 && s[1] == '\n' then s[2..] else s[1..])
    else
      [s[0]] + ReadText(s[1..])
  }

  /** Reading works piece by piece: a text splits anywhere except just after a `\r`. */
  lemma {:induction false} ReadTextConcat(a: string, b: string)
    requires a == [] || a[|a| - 1] != '\r'
    ensures ReadText(a + b) == ReadText(a) + ReadText(b)
    decreases |a|
  {
    if a == [] {
      assert a + b == b;
    } else if a[0] != '\r' {
      DropFront(a, b, 1);
      ReadTextConcat(a[1..], b);
    } else {
      assert |a| > 1;
      var k := if a[1] == '\n' then 2 else 1;
      DropFront(a, b, k);
      ReadTextConcat(a[k..], b);
    }
  }

  /** Dropping a front of `a` from `a + b`: what is left still does not end in `\r`. */
  lemma DropFront(a: string, b: string, k: nat)
    requires k <= |a| && (a == [] || a[|a| - 1] != '\r')
    ensures (a + b)[k..] == a[k..] + b
    ensures a[k..] == [] || a[k..][|a[k..]| - 1] != '\r'
    ensures k < |a| ==> (a + b)[k] == a[k]
  {
  }

  /** A `\r\n` reads as one `\n`. */
  lemma ReadTextCrlf(a: string, b: string)
    requires a == [] || a[|a| - 1] != '\r'
    ensures ReadText(a + "\r\n" + b) == ReadText(a) + "\n" + ReadText(b)
  {
    var crlf := "\r\n" + b;
    Regrouped(a, "\r\n", b);
    ReadTextConcat(a, crlf);
    LeadingCrlf(b);
    Regrouped(ReadText(a), "\n", ReadText(b));
  }

  /** A lone `\r`, not followed by `\n`, reads as `\n`. */
  lemma ReadTextCr(a: string, b: string)
    requires a == [] || a[|a| - 1] != '\r'
    requires b == [] || b[0] != '\n'
    ensures ReadText(a + "\r" + b) == ReadText(a) + "\n" + ReadText(b)
  {
    var cr := "\r" + b;
    Regrouped(a, "\r", b);
    ReadTextConcat(a, cr);
    LeadingCr(b);
    Regrouped(ReadText(a), "\n", ReadText(b));
  }

  lemma Regrouped(x: string, y: string, z: string)
    ensures x + y + z == x + (y + z)
  {
  }

  lemma LeadingCrlf(b: string)
    ensures ReadText("\r\n" + b) == "\n" + ReadText(b)
  {
    assert ("\r\n" + b)[2..] == b;
  }

  lemma LeadingCr(b: string)
    requires b == [] || b[0] != '\n'
    ensures ReadText("\r" + b) == "\n" + ReadText(b)
  {
    assert ("\r" + b)[1..] == b;
  }

  /**
   * Reads `path`, rewrites it with `patch` and writes it back (with `\n` line
   * ends); a missing file is skipped. No file is created or removed, and no
   * other file changes.
   */
  function PatchFile(fs: FileSystem, path: string, patch: string -> string): (r: FileSystem)
    ensures r.Keys == fs.Keys
    ensures path !in fs ==> r == fs
    ensures path in fs ==> r[path] == patch(ReadText(fs[path]))
    ensures forall p :: p in fs && p != path ==> r[p] == fs[p]
  {
    if path in fs then fs[path := patch(ReadText(fs[path]))] else fs
  }

  /** The main sequence: `__init__.py`, then `rocm.py`, then `CMakeLists.txt`. */
  function PatchAll(fs: FileSystem): FileSystem
  {
    var fs1 := PatchFile(fs, PLATFORMS_INIT_PATH, PlatformsInit.PatchPlatformsInit);
    var fs2 := PatchFile(fs1, ROCM_PATH, RocmPy.PatchRocmPy);
    PatchFile(fs2, CMAKE_PATH, CmakeTargets.PatchCmakeTargets)
  }

  /** Patches of two different files do not interfere: either order gives the same tree. */
  lemma PatchFileCommutes(fs: FileSystem, p: string, f: string -> string, q: string, g: string -> string)
    requires p != q
    ensures PatchFile(PatchFile(fs, p, f), q, g) == PatchFile(PatchFile(fs, q, g), p, f)
  {
    var a := PatchFile(PatchFile(fs, p, f), q, g);
    var b := PatchFile(PatchFile(fs, q, g), p, f);
    assert a.Keys == b.Keys;
    forall k | k in a
      ensures a[k] == b[k]
    {
    }
  }

  /**
   * What the main sequence does to the tree: each of the three files, where
   * present, holds its own patch of its old contents as read; every other file, and
   * the set of files, stays as it was.
   */
  lemma PatchAllEffect(fs: FileSystem)
    ensures PatchAll(fs).Keys == fs.Keys
    ensures PLATFORMS_INIT_PATH in fs ==>
      PatchAll(fs)[PLATFORMS_INIT_PATH] == PlatformsInit.PatchPlatformsInit(ReadText(fs[PLATFORMS_INIT_PATH]))
    ensures ROCM_PATH in fs ==> PatchAll(fs)[ROCM_PATH] == RocmPy.PatchRocmPy(ReadText(fs[ROCM_PATH]))
    ensures CMAKE_PATH in fs ==> PatchAll(fs)[CMAKE_PATH] == CmakeTargets.PatchCmakeTargets(ReadText(fs[CMAKE_PATH]))
    ensures forall p :: p in fs && p != PLATFORMS_INIT_PATH && p != ROCM_PATH && p != CMAKE_PATH ==>
      PatchAll(fs)[p] == fs[p]
  {
    assert |PLATFORMS_INIT_PATH| == 26 && |ROCM_PATH| == 22 && |CMAKE_PATH| == 14;
  }

  /** The three patches run independently: the reverse order gives the same tree. */
  lemma PatchOrderIrrelevant(fs: FileSystem)
    ensures PatchAll(fs) ==
      PatchFile(PatchFile(PatchFile(fs, CMAKE_PATH, CmakeTargets.PatchCmakeTargets),
                          ROCM_PATH, RocmPy.PatchRocmPy),
                PLATFORMS_INIT_PATH, PlatformsInit.PatchPlatformsInit)
  {
    assert |PLATFORMS_INIT_PATH| == 26 && |ROCM_PATH| == 22 && |CMAKE_PATH| == 14;
    var pi, rp, ct := PlatformsInit.PatchPlatformsInit, RocmPy.PatchRocmPy, CmakeTargets.PatchCmakeTargets;
    PatchFileCommutes(fs, PLATFORMS_INIT_PATH, pi, ROCM_PATH, rp);
    PatchFileCommutes(PatchFile(fs, ROCM_PATH, rp), PLATFORMS_INIT_PATH, pi, CMAKE_PATH, ct);
    PatchFileCommutes(fs, ROCM_PATH, rp, CMAKE_PATH, ct);
  }

  /**
   * Running the script a second time: each patched file is read back as it
   * was written, since no patch adds a carriage return. `rocm.py`, when it did
   * not yet register the mock module, and `CMakeLists.txt` come out as after
   * the first run; so does an `__init__.py` whose first output imports no
   * `amdsmi`, while one that imports `amdsmi` (and has no `c` or `.`) does not.
   */
  lemma PatchAllTwice(fs: FileSystem)
    ensures PLATFORMS_INIT_PATH in fs ==> ReadText(PatchAll(fs)[PLATFORMS_INIT_PATH]) == PatchAll(fs)[PLATFORMS_INIT_PATH]
    ensures ROCM_PATH in fs ==> ReadText(PatchAll(fs)[ROCM_PATH]) == PatchAll(fs)[ROCM_PATH]
    ensures CMAKE_PATH in fs ==> ReadText(PatchAll(fs)[CMAKE_PATH]) == PatchAll(fs)[CMAKE_PATH]
    ensures ROCM_PATH in fs && !Contains(ReadText(fs[ROCM_PATH]), RocmPy.SIGNATURE) ==>
      PatchAll(PatchAll(fs))[ROCM_PATH] == PatchAll(fs)[ROCM_PATH]
    ensures CMAKE_PATH in fs ==> PatchAll(PatchAll(fs))[CMAKE_PATH] == PatchAll(fs)[CMAKE_PATH]
    ensures PLATFORMS_INIT_PATH in fs && !Contains(PatchAll(fs)[PLATFORMS_INIT_PATH], PlatformsInit.IMPORT) ==>
      PatchAll(PatchAll(fs))[PLATFORMS_INIT_PATH] == PatchAll(fs)[PLATFORMS_INIT_PATH]
    ensures PLATFORMS_INIT_PATH in fs && Contains(ReadText(fs[PLATFORMS_INIT_PATH]), PlatformsInit.IMPORT) &&
            'c' !in ReadText(fs[PLATFORMS_INIT_PATH]) && '.' !in ReadText(fs[PLATFORMS_INIT_PATH]) ==>
      PatchAll(PatchAll(fs))[PLATFORMS_INIT_PATH] != PatchAll(fs)[PLATFORMS_INIT_PATH]
  {
    PatchAllEffect(fs);
    PatchAllEffect(PatchAll(fs));
    if ROCM_PATH in fs {
      var t := ReadText(fs[ROCM_PATH]);
      RocmPy.RocmNoCarriageReturn(t);
      if !Contains(t, RocmPy.SIGNATURE) {
        RocmPy.PatchIdempotent(t);
      }
    }
    if CMAKE_PATH in fs {
      var t := ReadText(fs[CMAKE_PATH]);
      CmakeTargets.CmakeNoCarriageReturn(t);
      CmakeTargets.CmakeIdempotent(t);
    }
    if PLATFORMS_INIT_PATH in fs {
      var t := ReadText(fs[PLATFORMS_INIT_PATH]);
      PlatformsInit.PlatformsNoCarriageReturn(t);
      if !Contains(PlatformsInit.PatchPlatformsInit(t), PlatformsInit.IMPORT) {
        PlatformsInit.PatchIdempotentWhen(t);
      }
      if Contains(t, PlatformsInit.IMPORT) && 'c' !in t && '.' !in t {
        PlatformsInit.PatchNotIdempotent(t);
      }
    }
  }
}
