# Local music PWA: file-system helpers

This is a model of the helpers a local music player uses to collect audio files from the user's disk in a browser. There are two ways in:

- **The native directory picker.** The user picks a directory. The helper walks the directory handle depth-first. It keeps every file whose name ends with `.` followed by one of the requested extensions. It returns the kept handles tagged `'fileRef'`. If the picker or the walk fails, it returns `null`.
- **The legacy `<input type="file">`.** The files reported by the input's change event are filtered by the same name test. They are returned tagged `'file'`.

The model is split into four modules:

- `Seqs` (`seqs.dfy`): order-preserving `Filter` and the subsequence relation.
- `Matching` (`matching.dfy`): the `endsWith` / `some` name test.
- `Tree` (`tree.dfy`): the directory handle as a finite tree `Entry = File | Directory | ListingError`. It also holds the reference description of a walk:
  - `FilesOf`/`FilesIn`: every file in depth-first pre-order.
  - `Readable`: no listing below fails.
  - `Occurs`: the entry is somewhere below, at any depth.
- `FileSystem` (`file_system.dfy`): `getFileRefsRecursively`, `getFilesFromLegacyInputEvent` and `getFilesFromDirectory`.

Browser inputs are parameters:

- The picker's outcome is `PickerOutcome`.
- The directory contents are an `Entry` tree. A `ListingError` inside a listing marks the point where iterating that directory throws.
- The change event's `FileList` is an `Option<seq<LocalFile>>`.
- Native-API support is a boolean.

The walk is a recursive method with a loop, matching the `for await` loop of file-system.ts:12-24. Its contract ties the result to the reference `Filter(FilesOf(directory), IsValidRef(extensions))`. That gives three properties:

- **Soundness:** only matching files are returned.
- **Completeness:** every matching file at any depth is returned.
- **Order:** results follow depth-first pre-order, and a subdirectory's files are spliced in where that subdirectory stands.

Any `ListingError` anywhere in the tree makes the whole walk fail. The result is then `null`, never a partial list.

The `try` also covers the recursive walk (file-system.ts:59-66), so a failed traversal yields `null` too.

## Model

| member | source | states |
|---|---|---|
| Seqs.Filter | src/helpers/file-system.ts:37-38 | the kept elements are drawn from the input and accepted by the predicate, every accepted input element is kept, and the result is no longer than the input |
| Seqs.FilterCounts | src/helpers/file-system.ts:37-38 | each accepted element is kept exactly as many times as it occurs in the input, and every occurrence of a rejected one is dropped |
| Seqs.FilterAppend | src/helpers/file-system.ts:19-22 | filtering a concatenation is the concatenation of the filtered parts, so results accumulated in listing order stay in listing order |
| Seqs.FilterIsSubsequence | src/helpers/file-system.ts:37-38 | filtering never reorders: the result is a subsequence of the input |
| Seqs.FilterRejectAll | src/helpers/file-system.ts:14-16 | when the test rejects every element, nothing is kept |
| Matching.EndsWith | src/helpers/file-system.ts:15 | `endsWith`: the suffix is no longer than the string and matches its last characters one by one |
| Matching.HasExtension | src/helpers/file-system.ts:15 | a name ends with `.ext` exactly when it is longer than `ext`, ends with `ext`, and has a literal dot right before it |
| Matching.IsValidName | src/helpers/file-system.ts:14-16 | the front-to-back `some` scan accepts a name exactly when some extension in the list matches it, so an empty list accepts nothing |
| Matching.LiteralDotRequired | src/helpers/file-system.ts:15 | with extension `mp3`, the names `mp3` and `xmp3` are rejected, because the dot is part of the required suffix |
| Matching.CaseSensitive | src/helpers/file-system.ts:38 | with extension `mp3`, `a.MP3` is rejected and `a.mp3` is accepted |
| Tree.FilesInAppend | src/helpers/file-system.ts:12-22 | the pre-order file listing of two consecutive runs of entries is the listing of the first followed by the listing of the second |
| Tree.FilesInIff | src/helpers/file-system.ts:12-23 | the pre-order listing holds exactly the files found at any depth below a directory listing, and never a directory |
| Tree.OccursCons | src/helpers/file-system.ts:12-23 | an entry lies below a listing exactly when it is the first entry, lies below the first entry's own listing, or lies below the rest of the listing |
| FileSystem.IsValidRef | src/helpers/file-system.ts:13-16 | the walk keeps a file handle exactly when some extension matches its name, and never keeps a directory, whatever its name |
| FileSystem.IsValidFile | src/helpers/file-system.ts:38 | the legacy filter keeps a file exactly when some extension matches its name |
| FileSystem.FileContribution | src/helpers/file-system.ts:13-20 | a file met in a listing contributes itself when its name matches and nothing otherwise |
| FileSystem.ExpectedRefsIff | src/helpers/file-system.ts:12-23 | the expected refs of a directory are exactly the matching files anywhere below it |
| FileSystem.NoExtensionsNoRefs | src/helpers/file-system.ts:14-16 | with an empty extension list the walk keeps nothing, because `some` over an empty list is false |
| FileSystem.SubdirectorySplicedInPlace | src/helpers/file-system.ts:21-22 | a subdirectory's matching files appear after everything kept from its earlier siblings and before everything kept from its later ones |
| FileSystem.ExpectedStep | src/helpers/file-system.ts:12-22 | processing one more listing entry appends exactly what that entry contributes |
| FileSystem.GetEntryRefs | src/helpers/file-system.ts:13-23 | one listing entry succeeds exactly when no listing below it fails, and then contributes exactly its matching files in pre-order: a file itself when its name matches, a directory its walk |
| FileSystem.GetFileRefsRecursively | src/helpers/file-system.ts:6-26 | succeeds exactly when no listing below fails, so a failure never leaves a partial list; on success returns exactly the depth-first pre-order listing of the directory's files narrowed to the matching ones (with `FileSystem.ExpectedRefsIff`: every matching file at any depth, nothing else) |
| FileSystem.WrapFiles | src/helpers/file-system.ts:39-44 | every wrapper is tagged `'file'`, unwrapping gives back exactly the input files in order, and a file is wrapped exactly when it is in the input |
| FileSystem.LegacyKeptSound | src/helpers/file-system.ts:37-44 | every wrapped survivor of a present file list is a `'file'` wrapper around a matching input file, and none survive an empty extension list |
| FileSystem.LegacyKeptComplete | src/helpers/file-system.ts:37-44 | the wrapped survivors keep input order, and every matching input file is kept exactly as often as it occurs |
| FileSystem.FilesFromLegacyInputEvent | src/helpers/file-system.ts:28-45 | an absent file list gives the empty list; otherwise every result is a `'file'` wrapper around an unchanged matching input file, the wrapped files keep input order, every matching input file is present as many times as it occurs in the input, and an empty extension list gives nothing |
| FileSystem.GetFilesFromDirectory | src/helpers/file-system.ts:55-88 | without native support, the legacy filter's list (never `null`); with it, `null` exactly when the picker rejects or a listing fails, otherwise one `'fileRef'` wrapper per expected ref, in order, each around a matching file found below the picked directory |

## Left out

- `isNativeFileSystemSupported` (file-system.ts:4) is feature detection on `window`. It becomes the `nativeSupported` parameter.
- `isMobile` (file-system.ts:47-53) is user-agent detection. It only chooses attributes of the fallback input element, so it does not appear.
- Building the fallback `<input>` (file-system.ts:69-83) is not modelled. This covers the `webkitdirectory`/`directory` attributes, `multiple`, and the `accept` string. It is DOM set-up. The `accept` string is built as `'audio/<ext>` with a stray leading quote. That is evidently unintended, so it is not stated as behaviour.
- The `Promise`, the `change` listener, `wait(100)` and `click()` (file-system.ts:85-94) are not modelled. They are event-loop plumbing. The model's legacy branch receives the file list that the change event reports. When no change event fires (for example, the user dismisses the dialog), the promise that file-system.ts:85-94 returns never settles. The model does not represent that.
- `showDirectoryPicker` and `directory.values()` are browser APIs. They are given as a `PickerOutcome` and an `Entry` tree. A failure while iterating a listing is a `ListingError` entry at the point of failure. Each `await` is modelled as sequential evaluation.
- Handle identity is not modelled. Two file handles with the same name are the same `Entry` value. `LocalFile` carries a name, the only field file-system.ts reads, and a size that stands for the fields it passes through untouched.
- Handle kinds other than file and directory are not modelled. The `else if` at file-system.ts:21 would skip them, but the platform defines no others.
- `../types/types` (`FileWrapper`) and `../utils/utils` (`wait`) are not part of this model. `FileWrapper` is reconstructed from how it is built in file-system.ts:40-43 and 63.
