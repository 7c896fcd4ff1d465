/** The helpers of src/helpers/file-system.ts: the recursive walk over a
    picked directory, the filter over the files of a legacy `<input>` change
    event, and the native branch of `getFilesFromDirectory` that wraps the walk
    and turns any failure into `null`. */
module FileSystem {
  import opened Seqs
  import opened Matching
  import opened Tree

  /** `T | null`. */
  datatype Option<T> = None | Some(value: T)

  /** A `File` of the `FileList` an `<input type="file">` reports; only its name
      is ever inspected, the rest is carried along untouched. */
  datatype LocalFile = LocalFile(name: string, size: nat)

  /** `FileWrapper` as file-system.ts builds it: `{type: 'file', file}` around a resolved file,
      or `{type: 'fileRef', file}` around a file handle. */
  datatype FileWrapper =
    | WrappedFile(file: LocalFile)
    | WrappedFileRef(ref: Entry)

  /** What awaiting `showDirectoryPicker()` gives: a directory handle, or a
      rejection (the user cancelled, permission was refused). */
  datatype PickerOutcome = Picked(directory: Entry) | PickerFailed

  /** The walk's test on one handle (`kind === 'file'` and a matching name):
      a directory is never kept, whatever its name. */
  function IsValidRef(extensions: seq<string>): (keep: Entry -> bool)
    ensures forall name :: keep(File(name)) <==>
              exists ext :: ext in extensions && HasExtension(name, ext)
    ensures forall name, values :: !keep(Directory(name, values))
    ensures !keep(ListingError)
  {
    (e: Entry) => e.File? && IsValidName(e.name, extensions)
  }

  /** The legacy filter's test on one file: some extension matches its name. */
  function IsValidFile(extensions: seq<string>): (keep: LocalFile -> bool)
    ensures forall f :: keep(f) <==> exists ext :: ext in extensions && HasExtension(f.name, ext)
  {
    (f: LocalFile) => IsValidName(f.name, extensions)
  }

  /** What a successful walk of `directory` returns, as a reference: the
      pre-order listing of its files, narrowed to the matching ones. */
  ghost function ExpectedRefs(directory: Entry, extensions: seq<string>): seq<Entry>
  {
    Filter(FilesOf(directory), IsValidRef(extensions))
  }

  /** The refs a walk returns are exactly the matching files found anywhere
      below the directory. */
  lemma ExpectedRefsIff(directory: Entry, extensions: seq<string>)
    requires directory.Directory?
    ensures forall x :: x in ExpectedRefs(directory, extensions) <==>
              x.File? && IsValidName(x.name, extensions) && Occurs(x, directory.values)
  {
    forall x
      ensures x in ExpectedRefs(directory, extensions) <==>
              x.File? && IsValidName(x.name, extensions) && Occurs(x, directory.values)
    {
      FilesInIff(directory.values, x);
    }
  }

  /** With no extensions a walk keeps nothing, however deep the tree. */
  lemma NoExtensionsNoRefs(directory: Entry)
    ensures ExpectedRefs(directory, []) == []
  {
    FilterRejectAll(FilesOf(directory), IsValidRef([]));
  }

  /** The files met inside a subdirectory land exactly where that subdirectory
      stands among its siblings: after everything kept before it, before
      everything kept after it. */
  lemma {:induction false} SubdirectorySplicedInPlace(
    before: seq<Entry>, sub: Entry, after: seq<Entry>, name: string, extensions: seq<string>)
    requires sub.Directory?
    ensures ExpectedRefs(Directory(name, before + [sub] + after), extensions) ==
            ExpectedRefs(Directory(name, before), extensions) +
            ExpectedRefs(sub, extensions) +
            ExpectedRefs(Directory(name, after), extensions)
  {
    var keep := IsValidRef(extensions);
    FilesInAppend(before + [sub], after);
    FilesInAppend(before, [sub]);
    assert FilesIn([sub]) == FilesOf(sub) by {
      assert [sub][1..] == [];
    }
    FilterAppend(FilesIn(before) + FilesOf(sub), FilesIn(after), keep);
    FilterAppend(FilesIn(before), FilesOf(sub), keep);
  }

  /** One more listing entry adds exactly what that entry keeps, at the end. */
  lemma ExpectedStep(values: seq<Entry>, i: nat, keep: Entry -> bool)
    requires i < |values|
    ensures Filter(FilesIn(values[..i + 1]), keep) ==
            Filter(FilesIn(values[..i]), keep) + Filter(FilesOf(values[i]), keep)
  {
    FilesInAppend(values[..i], [values[i]]);
    assert values[..i + 1] == values[..i] + [values[i]];
    assert FilesIn([values[i]]) == FilesOf(values[i]) by {
      assert [values[i]][1..] == [];
    }
    FilterAppend(FilesIn(values[..i]), FilesOf(values[i]), keep);
  }

  /** A readable prefix of a listing followed by a readable entry is a longer
      readable prefix. */
  lemma ReadablePrefixExtends(values: seq<Entry>, i: nat)
    requires i < |values|
    requires forall j :: 0 <= j < i ==> Readable(values[j])
    requires Readable(values[i])
    ensures forall j :: 0 <= j < i + 1 ==> Readable(values[j])
  {
  }

  /** A file in the listing contributes itself when its name matches and
      nothing otherwise. */
  lemma FileContribution(name: string, extensions: seq<string>)
    ensures Filter(FilesOf(File(name)), IsValidRef(extensions)) ==
            if IsValidName(name, extensions) then [File(name)] else []
  {
    assert FilesOf(File(name)) == [File(name)];
    assert [File(name)][1..] == [];
  }

  /** `getFileRefsRecursively`: iterate the directory's listing; keep each
      matching file, splice in the result of walking each subdirectory, skip
      non-matching files. A listing that fails anywhere below makes the whole
      walk fail, so a partial list is never returned. */
  method GetFileRefsRecursively(directory: Entry, extensions: seq<string>)
    returns (files: Option<seq<Entry>>)
    requires directory.Directory?
    ensures files.Some? <==> Readable(directory)
    ensures files.Some? ==> files.value == ExpectedRefs(directory, extensions)
    decreases directory, 0
  {
    var values := directory.values;
    var keep := IsValidRef(extensions);
    var acc: seq<Entry> := [];
    var i := 0;
    while i < |values|
      invariant 0 <= i <= |values|
      invariant forall j :: 0 <= j < i ==> Readable(values[j])
      invariant acc == Filter(FilesIn(values[..i]), keep)
    {
      var part := GetEntryRefs(values[i], extensions);
      if part.None? {
        return None;
      }
      ExpectedStep(values, i, keep);
      ReadablePrefixExtends(values, i);
      acc := acc + part.value;
      i := i + 1;
    }
    assert values[..i] == values;
    files := Some(acc);
  }

  /** The body of the walk's loop for one entry `fileRef` of a listing: a
      file is kept when its name matches, a directory is walked recursively,
      and a failing listing throws. */
  method GetEntryRefs(fileRef: Entry, extensions: seq<string>)
    returns (part: Option<seq<Entry>>)
    ensures part.Some? <==> Readable(fileRef)
    ensures part.Some? ==> part.value == Filter(FilesOf(fileRef), IsValidRef(extensions))
    decreases fileRef, 1
  {
    match fileRef {
      case File(name) =>
        FileContribution(name, extensions);
        if IsValidName(name, extensions) {
          part := Some([fileRef]);
        } else {
          part := Some([]);
        }
      case Directory(_, _) =>
        part := GetFileRefsRecursively(fileRef, extensions);
      case ListingError =>
        part := None;
    }
  }

  /** Wraps each file as `{type: 'file', file}`; unwrapping gives back the
      very same files. */
  function WrapFiles(fs: seq<LocalFile>): (r: seq<FileWrapper>)
    ensures forall k :: 0 <= k < |r| ==> r[k].WrappedFile?
    ensures UnwrapFiles(r) == fs
    ensures forall f :: f in fs <==> WrappedFile(f) in r
  {
    assert forall k :: 0 <= k < |fs| ==> fs[k] in fs;
    seq(|fs|, k requires 0 <= k < |fs| => WrappedFile(fs[k]))
  }

  /** The files inside a sequence of `{type: 'file'}` wrappers. */
  function UnwrapFiles(ws: seq<FileWrapper>): seq<LocalFile>
    requires forall k :: 0 <= k < |ws| ==> ws[k].WrappedFile?
  {
    seq(|ws|, k requires 0 <= k < |ws| => ws[k].file)
  }

  /** Each wrapped survivor of the legacy filter over a present file list is a
      `'file'` wrapper around a matching input file, and with no extensions
      nothing survives. */
  lemma LegacyKeptSound(fs: seq<LocalFile>, extensions: seq<string>)
    ensures var r := WrapFiles(Filter(fs, IsValidFile(extensions)));
      && (forall k :: 0 <= k < |r| ==>
            r[k].WrappedFile? && IsValidName(r[k].file.name, extensions) && r[k].file in fs)
      && (|extensions| == 0 ==> r == [])
  {
    var kept := Filter(fs, IsValidFile(extensions));
    var r := WrapFiles(kept);
    assert forall k :: 0 <= k < |r| ==> r[k] in r && r[k] == WrappedFile(r[k].file);
    assert |kept| > 0 ==> kept[0] in kept;
  }

  /** The wrapped survivors keep input order, and every matching input file is
      kept exactly as often as it occurs. */
  lemma LegacyKeptComplete(fs: seq<LocalFile>, extensions: seq<string>)
    ensures var r := WrapFiles(Filter(fs, IsValidFile(extensions)));
      && IsSubsequence(UnwrapFiles(r), fs)
      && (forall f :: f in fs ==>
            multiset(UnwrapFiles(r))[f] == if IsValidName(f.name, extensions) then multiset(fs)[f] else 0)
      && (forall f :: f in fs && IsValidName(f.name, extensions) ==> WrappedFile(f) in r)
  {
    FilterIsSubsequence(fs, IsValidFile(extensions));
    FilterCounts(fs, IsValidFile(extensions));
  }

  /** `getFilesFromLegacyInputEvent`: `files` is the input's `FileList`, absent
      when the event target reports none. */
  function FilesFromLegacyInputEvent(files: Option<seq<LocalFile>>, extensions: seq<string>)
    : (r: seq<FileWrapper>)
    ensures files.None? ==> r == []
    ensures forall k :: 0 <= k < |r| ==>
              r[k].WrappedFile? && IsValidName(r[k].file.name, extensions) &&
              files.Some? && r[k].file in files.value
    ensures files.Some? ==> IsSubsequence(UnwrapFiles(r), files.value)
    ensures files.Some? ==> forall f :: f in files.value ==>
              multiset(UnwrapFiles(r))[f] == if IsValidName(f.name, extensions) then multiset(files.value)[f] else 0
    ensures files.Some? ==> forall f :: f in files.value && IsValidName(f.name, extensions) ==>
              WrappedFile(f) in r
    ensures |extensions| == 0 ==> r == []
  {
    match files
    case None => []
    case Some(fs) =>
      LegacyKeptSound(fs, extensions);
      LegacyKeptComplete(fs, extensions);
      WrapFiles(Filter(fs, IsValidFile(extensions)))
  }

  /** `getFilesFromDirectory`. On the native branch the picker's outcome is
      walked and every ref is tagged `'fileRef'`; a rejected picker or a failed
      walk gives `null`. Otherwise the files of the fallback input's change
      event go through the legacy filter, which never gives `null`. */
  method GetFilesFromDirectory(
    nativeSupported: bool, picker: PickerOutcome, legacyFiles: Option<seq<LocalFile>>,
    extensions: seq<string>)
    returns (r: Option<seq<FileWrapper>>)
    requires picker.Picked? ==> picker.directory.Directory?
    ensures !nativeSupported ==> r == Some(FilesFromLegacyInputEvent(legacyFiles, extensions))
    ensures nativeSupported ==> (r.Some? <==> picker.Picked? && Readable(picker.directory))
    ensures nativeSupported && r.Some? ==>
              |r.value| == |ExpectedRefs(picker.directory, extensions)| &&
              forall k :: 0 <= k < |r.value| ==>
                r.value[k] == WrappedFileRef(ExpectedRefs(picker.directory, extensions)[k])
    ensures nativeSupported && r.Some? ==> forall k :: 0 <= k < |r.value| ==>
              r.value[k].ref.File? && IsValidName(r.value[k].ref.name, extensions) &&
              Occurs(r.value[k].ref, picker.directory.values)
  {
    if !nativeSupported {
      return Some(FilesFromLegacyInputEvent(legacyFiles, extensions));
    }
    match picker {
      case PickerFailed =>
        r := None;
      case Picked(directory) =>
        var refs := GetFileRefsRecursively(directory, extensions);
        match refs {
          case None =>
            r := None;
          case Some(fileRefs) =>
            ExpectedRefsIff(directory, extensions);
            assert forall k :: 0 <= k < |fileRefs| ==> fileRefs[k] in fileRefs;
            r := Some(seq(|fileRefs|, k requires 0 <= k < |fileRefs| => WrappedFileRef(fileRefs[k])));
        }
    }
  }
}
