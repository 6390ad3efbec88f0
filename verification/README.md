# rvcpu mobile GUI: registry and stereo widening in Dafny

`mobile_gui.py` is a PySimpleGUI front end for an external voice-conversion engine. This project models
the two parts of it that are pure logic, and proves properties about them.

- **The model/index registry.** This covers three steps:
  - The model list is the `.pth` names of the weights directory, in listing order.
  - The index list is the joined path of every `.index` file found by walking the index directory.
  - `find_matching_index` takes a model path. It reduces the path to its base name (last path component, final extension removed). It returns the first index path that contains that name as a substring, or `None`.
- **The stereo widening transform** `stereo`. A one-dimensional sample buffer becomes an n-by-2 buffer:
  - the left column is the input delayed by `delay_samples` samples, with zeros in front;
  - the right column is the input itself;
  - both are cast to int16, and the sample rate is unchanged.
  Any other buffer comes back as it was given.

Modules:

- `Wrappers` (`wrappers.dfy`): `Option` for Python's `None`-or-value, and `Result` for a value or a raised error.
- `PyStr` (`pystr.dfy`): the `str` operations used: `endswith`, the substring test `in`, and `rfind` of one character.
- `PosixPath` (`posixpath.dfy`): the POSIX `os.path` functions used: `basename`, `splitext` and `join`. `splitext` follows CPython's rule that dots leading the final component do not start an extension (`.bashrc` has none).
- `Registry` (`registry.dfy`): the suffix filters, the index walk, the model name and `find_matching_index`.
- `NdArray` (`ndarray.dfy`): the numpy behaviour the transform relies on:
  - slicing, with Python's normalisation of negative and out-of-range bounds;
  - slice assignment, with broadcasting and its error;
  - `zeros`, `column_stack`, and the wrapping `astype(np.int16)`.
- `Stereo` (`stereo.dfy`): the transform as written, a corrected version, and the lemmas relating them.

Inputs that the script gets from the operating system are parameters here:

- The weights directory listing is an `Option<seq<string>>`. `None` means the directory does not exist.
- The `os.walk` result is a sequence of `WalkStep(root, dirs, files)`.
- `delay_samples` is a natural number `d`.

The model follows the code on four points where it is easy to assume otherwise:

- `delay_samples` is computed by truncation (`int(...)`), not by rounding. The model takes `d` as given, so this does not affect any contract.
- With `delay_samples == 0` and a non-empty buffer, the code does not produce two identical channels. `samples[:-0]` is the empty slice, so the assignment on line 71 raises a broadcast error. `Stereo.StereoAsWritten` models this as a `Failure`. See Findings.
- Index resolution is a plain first-match substring test in list order. It is not a longest-common-substring match.
- `find_matching_index` is defined but never called by the script's event loop. It is modelled as a function on its own.

## Model

Some definitions serve as specifications in their own right and carry no contract. Their meaning is stated by the lemmas named here:

- `PyStr.EndsWith` is `str.endswith`; `KeepEndingWith`, `KeepEndingWithCounts` and `ModelFiles` state the filter built on it.
- `PyStr.Contains` is the substring test `in`; `PyStr.ContainsIffOccurs` states its meaning.
- `NdArray.Zeros` is `np.zeros_like`; `Stereo.LeftChannel` states the channel built on it.
- `NdArray.ColumnStack` and `NdArray.AsInt16` are described by `ColumnStackColumns` and `AsInt16Properties`.
- `Registry.JoinAll` is the join on line 21 for each kept file; `IndexFilesOneStep` and `IndexFilesMembership` state it.

| member | source | states |
|---|---|---|
| PyStr.ContainsIffOccurs | mobile_gui.py:36 | `name in path` holds exactly when `name` occurs at some position of `path` |
| PyStr.EmptyIsContained | mobile_gui.py:36 | the empty model name is contained in every path, so it matches the first index file |
| PyStr.LastIndex | mobile_gui.py:34 | `rfind` returns -1 exactly when the character is absent; otherwise it returns a position holding it, with none after it |
| PosixPath.BaseName | mobile_gui.py:34 | `basename` is the longest suffix without `/`: it holds no `/`, and it is the whole path or follows a `/` |
| PosixPath.SplitExt | mobile_gui.py:34 | `splitext` gives root + ext == path; ext is empty, or one dot followed by neither dots nor separators |
| PosixPath.SplitExtLeadingDots | mobile_gui.py:34 | an extension is split off only when the stem's last component is not all dots; when none is split off, only dots precede each dot of the component |
| PosixPath.Join | mobile_gui.py:21 | `os.path.join(root, file)` ends with `file` |
| PosixPath.JoinBaseName | mobile_gui.py:21 | the base name of `os.path.join(root, file)` is `file` for a plain file name |
| Registry.KeepEndingWith | mobile_gui.py:15 | the suffix filter keeps exactly the names with the suffix, and never lengthens the list |
| Registry.KeepEndingWithCounts | mobile_gui.py:15 | each name with the suffix is kept as often as it occurs in the input; no other name is kept |
| Registry.KeepEndingWithAppend | mobile_gui.py:15 | filtering distributes over concatenation, so kept names stay in input order |
| Registry.KeepEndingWithIdempotent | mobile_gui.py:15 | filtering an already filtered list changes nothing |
| Registry.ModelFiles | mobile_gui.py:15 | the model list is empty for a missing directory; otherwise it holds exactly the `.pth` names of the listing, with their multiplicities |
| Registry.IndexFiles | mobile_gui.py:16-21 | every collected index path ends with `.index` |
| Registry.IndexFilesOneStep | mobile_gui.py:18-21 | one walked directory contributes the joined paths of its `.index` files, in the order its files are listed |
| Registry.IndexFilesAppend | mobile_gui.py:18-21 | the index list of a walk is the concatenation of the lists of its parts, so paths keep walk order and multiplicity |
| Registry.IndexFilesMembership | mobile_gui.py:18-21 | a path is collected exactly when it is `join(root, file)` for some walked `file` ending in `.index` |
| Registry.ModelName | mobile_gui.py:34 | the model name holds no `/` and is a prefix of the path's base name |
| Registry.ModelNameStripsExtension | mobile_gui.py:34 | for `dir/stem.ext` with a dot-free `ext` and a stem that is not all dots, the model name is `stem` |
| Registry.ModelNameWithoutExtension | mobile_gui.py:34 | a final component without a dot is its own model name |
| Registry.ModelNameExample | mobile_gui.py:34 | `dir/singerA.pth` names the model `singerA` |
| Registry.FirstContaining | mobile_gui.py:35-38 | the loop returns `None` exactly when no entry contains the name; otherwise it returns the entry at the first position that contains it |
| Registry.FindMatchingIndex | mobile_gui.py:33-38 | the result is `None` exactly when no index path contains the model name; otherwise it is an element of the list that contains the name, and no earlier element does |
| Registry.FirstContainingAppend | mobile_gui.py:35-37 | entries after the first match never change the result; with no match in a prefix, the search continues into the rest |
| Registry.ResolvesToFirstEntry | mobile_gui.py:35-37 | when the model name occurs in the first index path, that path is the result |
| Registry.ResolvesByStem | mobile_gui.py:33-37 | `stem.pth` resolves to a first index path containing `stem`, even when a later path matches the stem more exactly |
| Registry.TrailingSeparatorMatchesFirst | mobile_gui.py:34-37 | a model path ending in `/` has the empty model name and resolves to the first index file |
| NdArray.Slice | mobile_gui.py:71 | `s[lo:hi]` is `s[lo..hi]` for in-range bounds; a negative stop counts from the end; the slice is empty when the stop is at most the start (both non-negative), the stop is at or before `-len(s)`, or the start is at or past `len(s)`; it is never longer than `s` |
| NdArray.SliceSplit | mobile_gui.py:71 | Python's `s[:k] + s[k:] == s` holds for every integer `k`, negative and out of range included |
| NdArray.DropLastSlice | mobile_gui.py:71 | `s[:-d]` drops the last `d` elements for `0 < d <= len(s)`, and is empty for `d == 0` or `d >= len(s)` |
| NdArray.SetSlice | mobile_gui.py:71 | slice assignment fails exactly when the value's length is neither the slice's length nor 1; otherwise only the slice changes, to the value (or its broadcast element) |
| NdArray.ColumnStackColumns | mobile_gui.py:72 | `column_stack` gives one 2-element row per index, and its columns are exactly the two channels |
| NdArray.AsInt16Properties | mobile_gui.py:73 | the array-wide int16 cast keeps the shape, puts every entry in int16 range, and is the identity on an array already in range |
| NdArray.ToInt16 | mobile_gui.py:73 | the int16 cast yields the int16 value congruent to the input modulo 2^16; it is the identity on int16 values |
| Stereo.Delayed | mobile_gui.py:69-71 | the delay line keeps the length and is 0 before `d`, and the sample `d` earlier from `d` on (all zeros when `d >= n`) |
| Stereo.LeftChannel | mobile_gui.py:69-71 | building the left channel fails exactly when the buffer is non-empty and `d == 0`; otherwise the channel is the delay line of the input |
| Stereo.StackIsWidening | mobile_gui.py:72-73 | stacking the delayed channel beside the input and casting gives n rows `[left, right]` at the input's rate |
| Stereo.StereoAsWritten | mobile_gui.py:57-75 | a buffer that is not 1-D comes back unchanged; a 1-D buffer fails exactly when non-empty with `d == 0`; otherwise the result has the same rate, n rows of 2, right = sample, and left = 0 before `d` and the sample `d` earlier after |
| Stereo.StereoCorrected | mobile_gui.py:57-75 | the same widening with no failure case; a buffer that is not 1-D comes back unchanged |
| Stereo.WideningChannels | mobile_gui.py:70-73 | for int16 input, the right column of a widening is the input and the left column is its delay line |
| Stereo.AsWrittenAgreesWithCorrected | mobile_gui.py:69-71 | whenever the code as written succeeds, its result equals the corrected transform's |
| Stereo.CorrectedZeroDelayIsDualMono | mobile_gui.py:71 | with `d == 0` the corrected transform's left and right columns are equal |
| Stereo.ZeroDelayRaises | mobile_gui.py:71 | for the one-sample buffer `[5]` and `d == 0`, the code raises a broadcast error (value length 0, slice length 1), while the corrected transform gives `[[5, 5]]` |
| Stereo.StereoIdempotent | mobile_gui.py:74-75 | widening an already widened buffer returns it unchanged |

## Left out

- The GUI is left out because it is UI plumbing. This covers argument parsing, the PySimpleGUI layout, the event loop and the popups (lines 1-10 and 77-123).
- `initialize_vc` and `convert_audio` (lines 23-55) are left out. They mutate a global handle to the external `VoiceClone` engine, and all conversion happens inside that library, which is not part of this model.
- `os.listdir`, `os.path.exists` and `os.walk` are filesystem I/O. Their results are parameters. A weights path that exists but is not a directory, which makes `os.listdir` raise, is not modelled.
- The pydub `AudioSegment` round trip (lines 60-67) belongs to a foreign audio library. The samples it returns are taken to be the input integer sequence, whatever the sample width.
- The floating-point computation of `delay_samples` (line 68) is left out. `d` is a natural-number parameter.
- Only one-dimensional and two-dimensional (rows) buffers are represented. Arrays of other ranks are returned unchanged by the code anyway.

## Findings

| source | as written | input that shows it | evidently intended | confidence | as-written member | corrected member |
|---|---|---|---|---|---|---|
| mobile_gui.py:71 | `left_channel[delay_samples:] = samples[:-delay_samples]` takes `samples[:-0]`, which is empty, when `delay_samples == 0`. numpy cannot broadcast the empty value into the n-element slice, so the call raises. | a mono buffer of one or more samples with `delay_samples == 0`, e.g. any sample rate below 1667 Hz at the default 0.6 ms | no shift: both channels equal the input | not executed; numpy broadcasting semantics as modelled | Stereo.StereoAsWritten (with Stereo.ZeroDelayRaises) | Stereo.StereoCorrected (with Stereo.CorrectedZeroDelayIsDualMono and Stereo.AsWrittenAgreesWithCorrected) |
