# blender_pso2_tools core, modelled in Dafny

This Dafny model covers the parts of the PSO2 Blender add-on that work on names and on one binary format:

- **`Ccl`** (`ccl.dfy`): the CCL colour-set container. It models `int_to_color`, the `Pso2CclColorSet` record and its three pair accessors, `Pso2Ccl(sets)`, `Pso2Ccl[key]` and `Pso2Ccl.read`.
  - `read` is an imperative method over a `Stream` class, which models `BinaryIO` with its `read`, `seek` and `tell`.
  - `read` is proved equal to the pure decoder `Decode`. Properties are proved about `Decode`:
    - when it succeeds, in both directions;
    - what it returns;
    - that trailing bytes have no effect;
    - a round trip with a container writer.
- **`FbxWrapper`** (`fbx_wrapper.dfy`): the bone-id name codec.
  - `BONE_PATTERN` and `BONE_PATTERN_2` are explicit matchers. Each is proved sound and complete against a declarative statement of the strings the pattern accepts.
  - `split_bone_name` and `join_bone_name` are modelled with their round trips.
- **`RenameBones`** (`rename_bones.dfy`): the two Blender operators that move bone ids between bone names and the `pso2_bone_id` custom property.
  - A `Bone` class models bones, both of whose fields the operators update.
  - The two generators and `_find_duplicate_bones` are loop methods, each proved equal to a specification function. The operators call these loop methods.
  - Each operator's `poll` and `execute` is a method. `execute` states the whole new state of every bone.
  - Each commit loop (`RenameEach`, `RestoreEach`) takes the name codec as a parameter, so it is proved for any codec.
- **`Parts`** (`parts.dfy`):
  - `MeshId`, `MESH_ID_NAMES`, and the two regular expressions `MESH_ID_RE` and `MESH_ID_SUB_RE`, each against a declarative form;
  - `get_mesh_id` as a function;
  - `set_mesh_id` as a method on `SceneObject` and `DataBlock` classes;
  - the proof that `get_mesh_id` after `set_mesh_id(m)` gives `m`.
- **`Util`** (`util.dfy`): `remove_blender_suffix`.

Shared pieces:
- **`Wrappers`** (`wrappers.dfy`): `Option` and `Result`.
- **`Text`** (`text.dfy`):
  - the ASCII digit class;
  - Python's `str(n)` and `int(s)` on digit strings, with `int(str(n)) == n`;
  - the scans that the matchers are built from.

Python's regular expressions treat `.` and `$` specially at a line break. The matchers are therefore defined on names without line breaks (`Text.NoNewline`). In `RenameBones`, a bone name with a line break matches neither pattern.

The model follows the code in two places where a reader of the format might expect otherwise:
- The data offset in `read` is 20 bytes from the start of REL0: the tag, 4 reserved bytes, the size field and 8 more reserved bytes (pso2_tools/ccl.py:61-73). A container therefore announces `n` records with a REL0 size of `20 + 28 * n`, not `8 + 28 * n`.
- Both operators check the bones' current names for duplicates (pso2_tools/operators/rename_bones.py:26-28), not the names the rename produces. `"(1)Arm"` and `"(2)Arm"` pass the check and both become `"Arm"` in the model (`RenameBones.ExampleSameBareName`); within one armature Blender would rename the second to `"Arm.001"`, which the model leaves out (see "## Left out").

## Model

| member | source | states |
|---|---|---|
| Ccl.IntToColor | pso2_tools/ccl.py:7-13 | every channel of the colour lies in [0, 1] |
| Ccl.IntToColorBytes | pso2_tools/ccl.py:7-13 | alpha comes from bits 24-31, red from 16-23, green from 8-15 and blue from 0-7, each divided by 255; the result is in (r, g, b, a) order, and bits above 31 never matter |
| Ccl.ExampleColor | pso2_tools/ccl.py:7-13 | `int_to_color(0xFF804020)` is (128/255, 64/255, 32/255, 1) |
| Ccl.ColorSetOfEncode | pso2_tools/ccl.py:39-40 | a record packed with the 28-byte format `<IIIIIII` unpacks to itself |
| Ccl.PairsOfEncode | pso2_tools/ccl.py:26-36 | on a record read back from its 28 bytes, `outerwear_colors`, `basewear_colors` and `innerwear_colors` give (outerwear1, outerwear2), (basewear1, basewear2) and (innerwear1, innerwear2) |
| Ccl.Trunc | pso2_tools/ccl.py:76 | `int()` on a float truncates toward zero |
| Ccl.FloatCountCheck | pso2_tools/ccl.py:75-77 | the test `int(array_count) == array_count` on `(size - 20) / 28` passes exactly when the size is 20 plus a multiple of 28; that count is then the number of records read |
| Ccl.ExampleOffByOne | pso2_tools/ccl.py:75-77 | size 20 + 56 gives 2 records; 20 + 57 and 19 are refused |
| Ccl.GetFromList | pso2_tools/ccl.py:46-50 | looking up an id gives `None` iff no record has it, else the last record with that id |
| Ccl.LaterReplaces | pso2_tools/ccl.py:46-47 | a record later in the list replaces an earlier one with the same id |
| Ccl.WindowIs | pso2_tools/ccl.py:54 | `fp.read(n)` returns the next `n` bytes, fewer at the end of the file, none past it |
| Ccl.Stream.Read | pso2_tools/ccl.py:54 | `fp.read(n)` returns that window and advances the cursor by its length |
| Ccl.Stream.Seek | pso2_tools/ccl.py:59 | `fp.seek(offset, SEEK_CUR)` moves the cursor forward by the offset |
| Ccl.Stream.Tell | pso2_tools/ccl.py:61 | `fp.tell()` returns the cursor |
| Ccl.WindowTag | pso2_tools/ccl.py:54-56 | a 4-byte read equals a tag iff the tag is at the cursor; a short read never does |
| Ccl.WordRead | pso2_tools/ccl.py:58 | a 4-byte read is full iff a word fits before the end, and is then that word |
| Ccl.ReadStep | pso2_tools/ccl.py:80-82 | one loop pass: a short read means the records do not fit (`TruncatedInput`); a full one is the next record |
| Ccl.ReadColorSets | pso2_tools/ccl.py:79-82 | the loop reads exactly `count` records in file order, or fails on the first short read |
| Ccl.ReadRel0 | pso2_tools/ccl.py:61-84 | from the REL0 chunk on, `read` computes the REL0 part of `Decode` |
| Ccl.Read | pso2_tools/ccl.py:52-84 | `Pso2Ccl.read(fp)` returns `Decode` of the file from the cursor on |
| Ccl.DecodeSucceedsIff | pso2_tools/ccl.py:53-84 | `read` succeeds iff both tags are in place, the size fields are present, the REL0 size is 20 plus a multiple of 28, and the announced records fit |
| Ccl.DecodeRel0Value | pso2_tools/ccl.py:63-84 | with a valid REL0 size and the bytes it announces, the result is the table of the records after the 20-byte REL0 header |
| Ccl.DecodeValue | pso2_tools/ccl.py:53-84 | on a well-formed container the result is the table of the `(size - 20) / 28` records after the REL0 header |
| Ccl.DecodeIgnoresTrailing | pso2_tools/ccl.py:79-84 | bytes after the last record never change a successful result |
| Ccl.RecordsOfEncoding | pso2_tools/ccl.py:79-82 | records written one after another are read back in order |
| Ccl.DecodeEncode | pso2_tools/ccl.py:53-84 | reading a container written from a list of records gives `Pso2Ccl(records)`, whatever the header and reserved bytes hold |
| Ccl.ExampleBadMagic | pso2_tools/ccl.py:54-56 | a file starting with `XXXX` fails with `InvalidMagic`, whatever follows |
| FbxWrapper.MatchBonePattern | pso2_tools/fbx_wrapper.py:34 | a match has the form `(digits)name` with those groups |
| FbxWrapper.MatchBonePatternComplete | pso2_tools/fbx_wrapper.py:34 | every string of the form `(digits)name` matches, with exactly those groups |
| FbxWrapper.BonePatternMatchesIff | pso2_tools/fbx_wrapper.py:34 | `BONE_PATTERN.match` succeeds iff the name has the prefix form |
| FbxWrapper.MatchBonePattern2 | pso2_tools/fbx_wrapper.py:37 | a match has the form `name(digits)` with those groups |
| FbxWrapper.MatchBonePattern2Complete | pso2_tools/fbx_wrapper.py:37 | every string of the form `name(digits)` matches, with exactly those groups |
| FbxWrapper.BonePattern2MatchesIff | pso2_tools/fbx_wrapper.py:37 | `BONE_PATTERN_2.match` succeeds iff the name has the suffix form |
| FbxWrapper.SplitPrefersPrefix | pso2_tools/fbx_wrapper.py:41-43 | a name of the prefix form gives its name group and the integer of its digits, whatever the suffix pattern says |
| FbxWrapper.SplitFallsBackToSuffix | pso2_tools/fbx_wrapper.py:45-47 | a name of the suffix form but not the prefix form gives the suffix reading |
| FbxWrapper.SplitNoneIff | pso2_tools/fbx_wrapper.py:41-49 | `split_bone_name` gives `None` iff the name has neither form |
| FbxWrapper.JoinHasPrefixForm | pso2_tools/fbx_wrapper.py:52-53 | `join_bone_name` produces the prefix form, with the decimal id and the name |
| FbxWrapper.SplitJoin | pso2_tools/fbx_wrapper.py:41-53 | splitting a joined name gives back the name and the id |
| FbxWrapper.SplitJoinSplit | pso2_tools/fbx_wrapper.py:41-53 | re-joining a split and splitting again gives the same pair |
| FbxWrapper.ExampleBothForms | pso2_tools/fbx_wrapper.py:41-47 | `"(1)a(2)"` matches both patterns, and the prefix reading `("a(2)", 1)` wins |
| FbxWrapper.ExampleLegacyForm | pso2_tools/fbx_wrapper.py:37-38 | `"Arm#s1#s2(12)"` splits to `("Arm#s1#s2", 12)` |
| FbxWrapper.ExampleCanonicalForm | pso2_tools/fbx_wrapper.py:34-35 | `"(12)Arm#short1#short2"` splits to `("Arm#short1#short2", 12)` |
| FbxWrapper.ExampleNoName | pso2_tools/fbx_wrapper.py:34-38 | `"(5)"` and `"Arm"` carry no id: both patterns need a non-empty name |
| FbxWrapper.ExampleLeadingZeros | pso2_tools/fbx_wrapper.py:41-53 | `"(007)a"` splits to `("a", 7)`, which joins to `"(7)a"` |
| Util.RemoveBlenderSuffix | pso2_tools/util.py:39-40 | the result is a prefix of the name |
| Util.BlenderSuffixAtDigitRun | pso2_tools/util.py:36 | `\.\d+$` can match only at the `.` just before the final run of digits |
| Util.RemoveBlenderSuffixSpec | pso2_tools/util.py:36-40 | a name with a match loses exactly the matched `.digits`; any other name is unchanged |
| Util.RemoveAppendedSuffix | pso2_tools/util.py:36-40 | appending `.digits` to any name and removing the suffix gives the name back |
| Util.ExampleSuffixes | pso2_tools/util.py:36-40 | `"a.1.2"` becomes `"a.1"`, `".001"` becomes `""` and `"Bone"` stays |
| Parts.MeshIdValue | pso2_tools/parts.py:9-23 | every `MeshId` value is below 14 |
| Parts.MeshIdOf | pso2_tools/parts.py:9-23 | `MeshId(n)` exists iff 0 <= n < 14, and has value `n` |
| Parts.MeshIdOfValue | pso2_tools/parts.py:9-23 | `MeshId(int(m)) == m` |
| Parts.MeshIdNamesTotal | pso2_tools/parts.py:26-41 | every `MeshId` has a non-empty display name |
| Parts.SearchMeshId | pso2_tools/parts.py:44 | a found group 1 is a non-empty run of digits |
| Parts.SearchMeshIdComplete | pso2_tools/parts.py:44 | every string in which `mesh\[\d+\]_.*#.*#(\d+)$` has a match is found, with its group 1 |
| Parts.SearchMeshIdSound | pso2_tools/parts.py:44 | whatever the search finds is group 1 of such a match |
| Parts.SearchMeshIdNotDigits | pso2_tools/parts.py:44 | a name whose text after the last `#` is not all digits has no match |
| Parts.ExampleSearch | pso2_tools/parts.py:44 | `"mesh[0]_a#b#3"` has group 1 `"3"` |
| Parts.GetMeshIdFound | pso2_tools/parts.py:48-52 | when the un-suffixed name matches, the result is `MeshId(int(group 1))`, or `ValueError` for an integer of 14 or more |
| Parts.GetMeshIdNone | pso2_tools/parts.py:48-52 | when the un-suffixed name does not match, the result is `None` |
| Parts.GetMeshIdIgnoresSuffix | pso2_tools/parts.py:48-49 | appending one Blender suffix to a name without one does not change its mesh id |
| Parts.ExampleIdDigit | pso2_tools/parts.py:50 | group 1 `"3"` is `MeshId.Ornament1` |
| Parts.ExampleOneSuffix | pso2_tools/parts.py:48-50 | `"mesh[0]_a#b#3.001"` has mesh id `Ornament1` |
| Parts.ExampleTwoSuffixes | pso2_tools/parts.py:48-52 | `"mesh[0]_a#b#3.001.002"` has no mesh id: only one suffix is removed |
| Parts.SubFormAtHash | pso2_tools/parts.py:45 | digits after a `#`, followed by nothing or `.digits`, are where `MESH_ID_SUB_RE` matches |
| Parts.MatchMeshIdDigits | pso2_tools/parts.py:45 | a match is a run of digits preceded by `#` and followed by nothing or `.digits` |
| Parts.SubMeshIdReplacesDigits | pso2_tools/parts.py:45 | `MESH_ID_SUB_RE.sub` replaces exactly the id digits and keeps the rest, suffix included |
| Parts.SubMeshIdUnchanged | pso2_tools/parts.py:45 | a name where the pattern has no match is unchanged |
| Parts.MeshIdString | pso2_tools/parts.py:56 | `str(mesh_id)` is decimal digits that read back as the id's value |
| Parts.SearchMeshIdReplace | pso2_tools/parts.py:44-45 | replacing group 1 with other digits makes the search find the new digits |
| Parts.GetAfterSet | pso2_tools/parts.py:48-61 | on a name that holds a mesh id, `get_mesh_id` after `set_mesh_id(m)` gives `m` |
| Parts.ReadRewritten | pso2_tools/parts.py:48-56 | a name `a#z` whose id digits are replaced by those of `m`, with any suffix, reads as `m` |
| Parts.SetMeshId | pso2_tools/parts.py:55-61 | the object's new name and its data-block's new name are both computed from the old object name, with `str(m)` and `f"{m}_mesh"` in place of the id digits; the data-block link is unchanged |
| RenameBones.DuplicatesCount | pso2_tools/operators/rename_bones.py:109-114 | a name occurring k times is yielded k - 1 times; an absent name never is |
| RenameBones.DuplicatesEmptyIff | pso2_tools/operators/rename_bones.py:109-114 | nothing is yielded iff the names are pairwise distinct |
| RenameBones.DistinctBones | pso2_tools/operators/rename_bones.py:28-39 | bones with distinct names are distinct bones, so each is renamed once |
| RenameBones.WithIdsInNamesMembers | pso2_tools/operators/rename_bones.py:93-96 | one armature yields exactly its bones whose name matches a pattern |
| RenameBones.BonesWithIdsInNamesMembers | pso2_tools/operators/rename_bones.py:88-96 | the generator yields exactly the armature bones whose name matches a pattern |
| RenameBones.WithIdPropsMembers | pso2_tools/operators/rename_bones.py:104-106 | one armature yields exactly its bones holding `pso2_bone_id` |
| RenameBones.BonesWithIdPropsMembers | pso2_tools/operators/rename_bones.py:99-106 | the generator yields exactly the armature bones holding `pso2_bone_id` |
| RenameBones.WithIdsInNamesRepeats | pso2_tools/operators/rename_bones.py:93-96 | the `k`-th bone of an armature, when its name matches both patterns, occupies two neighbouring entries of what that armature yields |
| RenameBones.BonesWithIdsInNamesRepeats | pso2_tools/operators/rename_bones.py:88-96 | that same bone occupies two neighbouring entries of what the generator yields over all objects |
| RenameBones.BothPatternsReportDuplicate | pso2_tools/operators/rename_bones.py:26-34 | a bone matching both patterns makes the duplicate list non-empty, so the rename cancels |
| RenameBones.RestoreAfterRename | pso2_tools/operators/rename_bones.py:36-39 | a name of the form `(id)name` is split into the bare name and id, which join back to the original name |
| RenameBones.RenameAfterRestore | pso2_tools/operators/rename_bones.py:72-74 | a restored name with a non-negative id splits back to the bare name and id; a negative id gives a name `BONE_PATTERN` does not match |
| RenameBones.ExampleSameBareName | pso2_tools/operators/rename_bones.py:26-28 | `"(1)Arm"` and `"(2)Arm"` are not duplicates, although both split to `"Arm"` |
| RenameBones.CollectBonesWithIdsInNames | pso2_tools/operators/rename_bones.py:88-96 | the loops yield exactly the specification sequence, once per matching pattern |
| RenameBones.CollectBonesWithIdProps | pso2_tools/operators/rename_bones.py:99-106 | the loops yield exactly the specification sequence |
| RenameBones.FindDuplicateBones | pso2_tools/operators/rename_bones.py:109-114 | the loop with its set of seen names yields exactly `Duplicates` of the current names |
| RenameBones.RenameBonesPoll | pso2_tools/operators/rename_bones.py:21-23 | the operator is available iff some armature bone's name matches a pattern |
| RenameBones.RestoreBonesPoll | pso2_tools/operators/rename_bones.py:57-59 | the operator is available iff some armature bone holds `pso2_bone_id` |
| RenameBones.RenameBonesExecute | pso2_tools/operators/rename_bones.py:25-41 | the operator cancels iff the collected bones' current names repeat, and then reports those names and changes nothing; otherwise each collected bone gets its bare name and its id as the property; other bones never change |
| RenameBones.RenameEach | pso2_tools/operators/rename_bones.py:36-39 | for any codec, each listed bone whose name the codec splits gets that name and id; a listed bone it does not split and every unlisted bone stay unchanged |
| RenameBones.RestoreBonesExecute | pso2_tools/operators/rename_bones.py:61-78 | the operator cancels iff the collected bones' current names repeat, and then changes nothing; otherwise each bone holding the property gets `(id)name` and loses the property; other bones never change |
| RenameBones.RestoreEach | pso2_tools/operators/rename_bones.py:72-76 | for any codec, each bone holding the property gets the joined name and loses the property, and no other bone changes |

## Left out

- Regular expressions on names with line breaks.
  - Python's `$` also matches before a final `\n`, and `.` does not match `\n`.
  - The matchers and `get_mesh_id`/`set_mesh_id`/`remove_blender_suffix` require names without line breaks.
  - In `RenameBones`, such a name is treated as matching neither pattern.
- Unicode digits: Python's `\d` and `int()` also accept non-ASCII decimal digits. The model's digits are `0`-`9`.
- Blender's own handling of assigned names is not modelled.
  - It appends `.001` to a name already taken and truncates long names.
  - The model assigns names verbatim.
- `pso2_bone_id` values are modelled as integers, the only type the add-on writes. The restore path's `join_bone_name` of another type is not modelled.
- The `TODO` at pso2_tools/operators/rename_bones.py:75 doubts that `del bone[...]` removes the property. The model takes the code at its word: the property is removed.
- `menu_func` and the text of `self.report(...)` are UI only. The reported duplicate names are kept in `Cancelled`.
- `IdNameEntries`: the innermost loop over the two patterns in `_get_bones_with_ids_in_names` is unrolled into one function.
- Python floats are taken as exact reals in `int_to_color` and in the record-count test.
  - For a 32-bit size, `(size - 20) / 28` is never within floating-point error of an integer unless it is one, so the test is the same.
- `struct.unpack("I", ...)` at pso2_tools/ccl.py:58 and 68 uses native byte order. The model reads little-endian, as on every platform Blender runs on.
- Ccl.Read: the cursor position left in `fp` is not stated; only the result is.
- Ccl.ReadRel0: the cursor position left in `fp` is not stated; only the result is.
- Ccl.ReadColorSets: the cursor position left in `fp` is not stated; only the result is.
- Parts.GetMeshIdIgnoresSuffix: stated only for a name that has no Blender suffix yet. On a name that already has one, the second suffix hides the id (`Parts.ExampleTwoSuffixes`).
- Parts.MeshIdString: `str()` of an `IntEnum` member is its decimal value from Python 3.11 on. Earlier versions give `MeshId.Name`, which the model does not cover.
- RenameBones.RenameAfterRestore: for a negative id, stated only for `BONE_PATTERN`.
- RenameBones.RenameBonesExecute: custom-property values are unbounded integers in the model.
  - Blender stores an integer ID property in 32 bits, so an id of 2^31 or more fails at pso2_tools/operators/rename_bones.py:39.
  - That failure comes after the bone's name was already assigned at line 38, and it leaves the batch half renamed.
  - The model renames every collected bone and stores any natural number.
- FbxWrapper.SplitBoneName: Python's `int()` refuses decimal strings longer than 4300 digits by default (from Python 3.11), so `int(m.group(...))` at pso2_tools/fbx_wrapper.py:43 and :47 raises on such a name. The model reads any number of digits.
- The rest of pso2_tools/fbx_wrapper.py, the monkey-patching of Blender's FBX importer and exporter, is not part of this model. The same goes for the other add-on modules (import and export, shaders, panels).
- I/O: only an in-memory byte stream is modelled for `read`; files and their errors are left out.
