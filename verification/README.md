# A verified model of the vLLM GPU-less source patcher

`patch_vllm.py` adapts a checked-out vLLM tree so that it builds on a machine
without an AMD GPU. It rewrites three files in place:

- `vllm/platforms/__init__.py` (`patch_platforms_init`, modelled by `PlatformsInit.PatchPlatformsInit`): it turns every
  `import amdsmi` into `# import amdsmi`. On each line that holds `is_rocm = `,
  it replaces the rest of the line, from the first `is_rocm = ` on, with
  `is_rocm = True`. It turns the device-handle check into `if True:` and the
  `amdsmi` init and shutdown calls into `pass`;
- `vllm/platforms/rocm.py` (`patch_rocm_py`, modelled by `RocmPy.PatchRocmPy`): it puts a header that registers
  a mock `amdsmi` module on top, unless `sys.modules["amdsmi"]` already occurs.
  On each line that holds `device_type = `, the rest of the line from the first
  one on becomes `device_type = "rocm"`; then the same happens with
  `device_name = ` and `device_name = "gfx1151"`. It appends a
  `get_device_name` method, unless `def get_device_name` already occurs;
- `CMakeLists.txt` (`patch_cmake_targets`, modelled by `CmakeTargets.PatchCmakeTargets`): it swaps the target list
  `gfx1200;gfx1201` for `gfx1151`.

Each patch is a pure function from the old text of its file to the new text.
The main sequence, `Patcher.PatchAll`, is a function on a file tree, a map from
path to contents.
A missing file is skipped. A file is read as Python's `read_text` reads it, in
universal-newline mode (`Patcher.ReadText`): `\r\n` and a lone `\r` become
`\n`. The two Python primitives are modelled directly:

- `str.replace` becomes `Replace.ReplaceAll`, which scans left to right without
  overlap and never rescans what it wrote. `Replace.ReplaceSplit` shows that it
  equals Python's `rep.join(s.split(pat))`: every occurrence is rewritten;
- `re.sub("<key> = .*", rep, txt)` becomes `LineSub.ForceLineTail`. Python's
  `.` does not match a line break, so each match runs from a `key` to the end
  of its line. `LineSub.ForceLine` gives the same rewrite for one line.

Modules:

- `Text`: substring search, lines and the overlap facts;
- `Replace` and `LineSub`: the two primitives and their laws;
- `PlatformsInit`, `RocmPy`, `CmakeTargets`: the three patches;
- `Patcher`: the main sequence.

## Idempotence

The patches are meant to change nothing when the script runs a second time.
The model shows where that holds:

- `CMakeLists.txt`: always idempotent (`CmakeTargets.CmakeIdempotent`).
- `rocm.py`: a second run changes nothing exactly when the patched text still
  holds `sys.modules["amdsmi"]` (`RocmPy.PatchIdempotentIff`).
  - This always holds for a file that did not hold the signature before,
    because it gets the header, which the forcing steps leave alone
    (`RocmPy.PatchIdempotent`).
  - So a second run can change only a file that already held the signature
    and got no header, when forcing then erased every occurrence of the
    signature. `device_type = sys.modules["amdsmi"]` is such a file: forcing
    its one line erases the signature, and the second run adds the header
    (`RocmPy.PatchNotIdempotent`).
- `__init__.py`: a second run changes nothing when the first output holds no
  `import amdsmi` (`PlatformsInit.PatchIdempotentWhen`). That can happen,
  because forcing `is_rocm` erases whatever follows `is_rocm = ` on its line,
  a commented import included. Usually, though, the output still holds
  `import amdsmi`, inside `# import amdsmi`. The comment-out step of the second
  run then adds another `# ` (`PlatformsInit.CommentOutNotIdempotent`). That
  the whole second run then changes the file is proved for texts without `c`
  and `.` (`PlatformsInit.PatchNotIdempotent`). For example, `import amdsmi\n`
  becomes `# import amdsmi\n` and then `# # import amdsmi\n`
  (`PlatformsInit.PatchTwice`).

## Model

| member | source | states |
|---|---|---|
| Replace.ReplaceAbsent | patch_vllm.py:23 | a text without the pattern comes back unchanged |
| Replace.ReplaceLeavesRep | patch_vllm.py:23 | a text holding the pattern comes out holding the replacement |
| Replace.ReplaceUndo | patch_vllm.py:23 | nothing but the occurrences changes: replacing back restores the text, when it held no replacement before and the replacement cannot run into itself |
| Replace.ReplaceGrowsAgain | patch_vllm.py:23 | a replacement that is longer than the pattern and contains it is never idempotent on a text holding the pattern |
| Replace.ReplaceLength | patch_vllm.py:23 | a replacement at least as long as the pattern never shortens the text, and lengthens it when a longer one applies |
| Replace.ReplaceSplit | patch_vllm.py:23 | replacing is splitting at the pattern and joining with the replacement, so every occurrence is rewritten |
| Replace.ReplaceAtFirst | patch_vllm.py:23 | the text before the first occurrence is kept, that occurrence becomes the replacement, and the scan goes on after it |
| Replace.ReplaceConcat | patch_vllm.py:23 | replacing in `a + b` is replacing in each part, when the pattern cannot run from `a` into `b` |
| Replace.ReplaceLines | patch_vllm.py:29-33 | for a pattern and a replacement without line breaks, replacing works line by line and keeps the line count |
| Replace.ReplaceNoNewChar | patch_vllm.py:23-33 | a character absent from the text and the replacement is absent from the result |
| Text.SplitJoin | patch_vllm.py:23 | joining the pieces of a split with the separator gives the text back |
| Text.SplitPieces | patch_vllm.py:23 | no piece of a split holds the separator |
| Replace.ReplacedOccurrence | patch_vllm.py:29-33 | a string that can neither begin inside the replacement nor run into it occurs in the result only if it occurred in the input, and does not start with the pattern |
| Replace.ReplaceRemoves | patch_vllm.py:29-33 | such a pattern leaves no occurrence behind |
| Replace.ReplaceKeepsOut | patch_vllm.py:29-33 | such a string, absent before a replacement, stays absent |
| Replace.ReplaceIdempotent | patch_vllm.py:85 | under the same overlap conditions, a second replacement changes nothing |
| Text.IndexOfFinds | patch_vllm.py:26 | the search gives -1 exactly when the key is absent, and otherwise the position of its first occurrence |
| LineSub.ForceLineShape | patch_vllm.py:26 | a line without the key is unchanged; a line with it keeps the part before its first key and ends in the replacement |
| LineSub.ForceAbsent | patch_vllm.py:26 | a text without the key is unchanged |
| LineSub.ForceOneLine | patch_vllm.py:26 | the scan over one line and a following break acts on that line as the one-line rewrite and then goes on |
| LineSub.ForceLineTailLines | patch_vllm.py:26 | the whole-text rewrite is the one-line rewrite applied to each line, joined back with line breaks |
| LineSub.ForceLineTailEachLine | patch_vllm.py:26 | the rewrite keeps the number of lines and maps line i to the one-line rewrite of line i |
| LineSub.ForceLineTailIdempotent | patch_vllm.py:26 | forcing a second time changes nothing |
| LineSub.ForceLineTailKeepsFixed | patch_vllm.py:60-61 | a text that forcing one key leaves alone stays so after forcing a second key whose replacement cannot bring the first key back |
| LineSub.ForceLineTailConcat | patch_vllm.py:60-65 | forcing a text cut at a line boundary is forcing each part |
| LineSub.ForceNoNewChar | patch_vllm.py:26 | a character absent from the text and the replacement is absent from the result |
| LineSub.ReplaceKeepsForced | patch_vllm.py:26-33 | a text that forcing a key leaves alone stays so after a replacement that cannot bring the key back or break a forced tail |
| PlatformsInit.CommentOutSplit | patch_vllm.py:23 | the text is its pieces between the occurrences of `import amdsmi`, none of which holds it, and the output is the same pieces joined with `# import amdsmi` |
| PlatformsInit.CommentOutUndo | patch_vllm.py:23 | nothing but the occurrences changes: undoing it restores the text, when it held no `# import amdsmi` before |
| PlatformsInit.CommentOutEffect | patch_vllm.py:23 | a text holding `import amdsmi` comes out holding `# import amdsmi`; one without it is unchanged |
| PlatformsInit.CommentOutNotIdempotent | patch_vllm.py:23 | on every text holding `import amdsmi`, commenting out twice differs from once |
| PlatformsInit.CommentOutOnce | patch_vllm.py:23 | `import amdsmi\n` becomes `# import amdsmi\n` |
| PlatformsInit.CommentOutAgain | patch_vllm.py:23 | `# import amdsmi\n` becomes `# # import amdsmi\n` |
| PlatformsInit.IsRocmLines | patch_vllm.py:26 | line by line, each line becomes its one-line rewrite for `is_rocm = ` and `is_rocm = True`, and the line count is kept |
| PlatformsInit.IsRocmIdempotent | patch_vllm.py:26 | forcing `is_rocm` again changes nothing |
| PlatformsInit.StubCallsRemoves | patch_vllm.py:29-33 | after the three replacements, neither the handle check nor the init call nor the shutdown call occurs |
| PlatformsInit.StubCallsIdempotent | patch_vllm.py:29-33 | applying the three replacements again changes nothing |
| PlatformsInit.StubKeepsForced | patch_vllm.py:26-33 | the three replacements keep every `is_rocm` line forced |
| PlatformsInit.PatchIdempotentWhen | patch_vllm.py:22-33 | when the first output holds no `import amdsmi`, a second run changes nothing |
| PlatformsInit.PlatformsNoCarriageReturn | patch_vllm.py:22-35 | a text without carriage returns is patched into one without them |
| PlatformsInit.PatchIsCommentOut | patch_vllm.py:22-33 | on a text without `c` and `.`, the whole patch is the comment-out step alone |
| PlatformsInit.PatchNotIdempotent | patch_vllm.py:22-33 | on a text holding `import amdsmi` and no `c` or `.`, a second run differs from the first |
| PlatformsInit.PatchForcesAndComments | patch_vllm.py:22-33 | with every step at work, `is_rocm = False\nimport amdsmi\n` becomes `is_rocm = True\n# import amdsmi\n` |
| PlatformsInit.PatchTwice | patch_vllm.py:22-33 | the patch maps `import amdsmi\n` to `# import amdsmi\n`, and that to `# # import amdsmi\n` |
| RocmPy.HeaderHasSignature | patch_vllm.py:50-53 | the header followed by any text holds `sys.modules["amdsmi"]` |
| RocmPy.AddHeader | patch_vllm.py:55-57 | the header is prepended exactly when the text lacks the signature, and the result always holds it |
| RocmPy.DeviceTypeLines | patch_vllm.py:60 | line by line, each line becomes its one-line rewrite for `device_type = ` and `device_type = "rocm"` |
| RocmPy.DeviceNameLines | patch_vllm.py:61 | the same for `device_name = ` and `device_name = "gfx1151"` |
| RocmPy.DeviceTypeIdempotent | patch_vllm.py:60 | forcing `device_type` again changes nothing |
| RocmPy.DeviceNameIdempotent | patch_vllm.py:61 | forcing `device_name` again changes nothing |
| RocmPy.ForceDeviceKeepsType | patch_vllm.py:60-61 | the `device_name` step leaves every `device_type` line forced |
| RocmPy.ForceDeviceIdempotent | patch_vllm.py:60-61 | both forcing steps, applied again, change nothing |
| RocmPy.ForceDeviceHeader | patch_vllm.py:50-61 | the forcing steps leave the header alone |
| RocmPy.MethodHasSignature | patch_vllm.py:64-68 | any text followed by the method holds `def get_device_name` |
| RocmPy.AddMethod | patch_vllm.py:63-68 | the method is appended exactly when the text lacks `def get_device_name`, and the result always holds it |
| RocmPy.MethodFixed | patch_vllm.py:60-68 | neither forcing step touches the method text |
| RocmPy.ForceDeviceMethod | patch_vllm.py:60-68 | the forcing steps go across an appended method and leave it alone |
| RocmPy.PatchAddsHeader | patch_vllm.py:47-70 | a text without the signature comes out starting with the header |
| RocmPy.PatchIdempotentIff | patch_vllm.py:47-70 | a second run changes nothing exactly when the patched text still holds the signature |
| RocmPy.PatchIdempotent | patch_vllm.py:47-70 | on a text without the signature, a second run changes nothing and adds no second header |
| RocmPy.SignatureOnForcedLine | patch_vllm.py:56-68 | the one-line file `device_type = sys.modules["amdsmi"]` gets no header, a forced line and the method |
| RocmPy.PatchNotIdempotent | patch_vllm.py:56-68 | on that file, a second run differs from the first |
| RocmPy.RocmNoCarriageReturn | patch_vllm.py:49-70 | a text without carriage returns is patched into one without them |
| CmakeTargets.OldVersusNew | patch_vllm.py:85 | `gfx1200;gfx1201` can neither begin inside `gfx1151` nor run into it |
| CmakeTargets.CmakeRemoves | patch_vllm.py:85 | no `gfx1200;gfx1201` is left |
| CmakeTargets.CmakeEffect | patch_vllm.py:85 | a text holding the old list comes out holding `gfx1151`; one without it is unchanged |
| CmakeTargets.CmakeUndo | patch_vllm.py:85 | every other character is kept: replacing back restores the text, when it held no `gfx1151` before |
| CmakeTargets.CmakeIdempotent | patch_vllm.py:85 | a second run changes nothing |
| CmakeTargets.CmakeSplit | patch_vllm.py:85 | the text is its pieces between the occurrences of `gfx1200;gfx1201`, none of which holds it, and the output is the same pieces joined with `gfx1151` |
| CmakeTargets.CmakeNoCarriageReturn | patch_vllm.py:85-87 | a text without carriage returns is patched into one without them |
| Patcher.ReadText | patch_vllm.py:20 | a text read holds no carriage return, and it reads as it is exactly when it held none |
| Patcher.ReadTextConcat | patch_vllm.py:47 | a text cut anywhere except just after a `\r` reads as its two parts read one after the other |
| Patcher.ReadTextCrlf | patch_vllm.py:82 | a `\r\n` reads as one `\n` |
| Patcher.ReadTextCr | patch_vllm.py:20 | a `\r` not followed by `\n` reads as `\n` |
| Patcher.PatchFile | patch_vllm.py:14-20 | a missing file leaves the tree unchanged; otherwise only that file changes, to the patch of its contents as read, and no file is added or removed |
| Patcher.PatchFileCommutes | patch_vllm.py:95-97 | patches of two different files give the same tree in either order |
| Patcher.PatchAllEffect | patch_vllm.py:91-97 | after the main sequence, each present target file holds its own patch of its old contents as read, and every other file is unchanged |
| Patcher.PatchOrderIrrelevant | patch_vllm.py:95-97 | running the three patches in reverse order gives the same tree |
| Patcher.PatchAllTwice | patch_vllm.py:91-97 | each patched file reads back exactly as written; a second run of the script leaves `CMakeLists.txt` unchanged, `rocm.py` too when it lacked the signature, and `__init__.py` when its first output holds no `import amdsmi`; it changes an `__init__.py` that imports `amdsmi` and has no `c` or `.` |

## Left out

- File I/O: `Path.exists` and the files' contents become the map from path to contents, read through `Patcher.ReadText`. Text encoding and file-system errors are not modelled.
- `write_text` is modelled as writing the text as it is, which is what it does where the line separator is `\n`. On Windows it would write each `\n` as `\r\n`.
- The `print` progress and warning messages: they change no file.
- `build-vllm.py`: it only sets environment variables and runs build subprocesses. It is not part of this model.
- The general `re` engine: only the shape `"<literal> = .*"` occurs, and the model states that shape directly. `LineSub.ForceLineTail` requires only a non-empty key. Its line-by-line laws also require a key without a line break (`LineSub.ForceOneLine` and the laws built on it), and most of them also a replacement without one (`LineSub.ForceLineTailLines`, `LineSub.ForceLineTailIdempotent`). Every key and replacement the script uses qualifies.
- The meaning of the injected Python (the mock header and the method body): it is treated as literal text.
- PlatformsInit.PatchIdempotentWhen: only this direction is proved. That a second run changes the file whenever the first output still holds `import amdsmi` is proved only under the restriction of the next line.
- PlatformsInit.PatchNotIdempotent: proved only for texts without the characters `c` and `.`. On those texts, none of the other steps' patterns can occur. The concrete case in `PlatformsInit.PatchTwice` and the general `PlatformsInit.CommentOutNotIdempotent` cover the comment-out step itself.
- RocmPy.PatchIdempotent: proved only for texts that do not yet hold `sys.modules["amdsmi"]`. `RocmPy.PatchIdempotentIff` gives the exact condition, and `RocmPy.PatchNotIdempotent` gives an input where it fails.
- RocmPy.PatchNotIdempotent: shown on one concrete file, not characterised for all inputs beyond `RocmPy.PatchIdempotentIff`.
- CmakeTargets.CmakeUndo: "every other character is kept" is stated as a round trip, so it requires a text that held no `gfx1151` before.
- PlatformsInit.CommentOutUndo: likewise, it requires a text that held no `# import amdsmi` before.
