/**
  The batch step: for every package of the package mapping, in iteration
  order, write the REP-0132 changelog next to the legacy Markdown one unless
  the package already has it. The file system is a map from paths to file
  contents; a path is the base directory, the package's relative path and one
  of the two fixed file names.
 */
module Batch {
  import opened Md2Rst

  /** The two fixed file names next to each package: the legacy Markdown
      changelog that is read, and the reStructuredText changelog that is
      written. */
  datatype FileName = LegacyChangelog | TargetChangelog

  /** The path joined from a base directory, a package's relative path and a
      file name. */
  datatype Path = Path(base: string, pkg: string, file: FileName)

  type FileSystem = map<Path, string>

  datatype Package = Package(name: string)

  /** One item of the package mapping: a relative path and the package
      found there. */
  datatype PackageEntry = PackageEntry(path: string, package: Package)

  /** The file system after a run and the paths written, in order. A run
      that meets a package with neither changelog stops there, keeping the
      files written before, and reports the legacy path it could not read. */
  datatype BatchResult =
    | Done(fs: FileSystem, written: seq<Path>)
    | Failed(fs: FileSystem, written: seq<Path>, missing: Path)

  function LegacyPath(base: string, e: PackageEntry): Path {
    Path(base, e.path, LegacyChangelog)
  }

  function TargetPath(base: string, e: PackageEntry): Path {
    Path(base, e.path, TargetChangelog)
  }

  /** `p` holds the same file, or no file, in both file systems. */
  ghost predicate SameAt(fs: FileSystem, fs': FileSystem, p: Path) {
    (p in fs <==> p in fs') && (p in fs ==> fs[p] == fs'[p])
  }

  /** Every package has its legacy changelog or already has the new one. */
  ghost predicate Convertible(base: string, entries: seq<PackageEntry>, fs: FileSystem) {
    forall i :: 0 <= i < |entries| ==>
      TargetPath(base, entries[i]) in fs || LegacyPath(base, entries[i]) in fs
  }

  /** `generate_changelogs`: the packages in order; a package whose new
      changelog exists is skipped, otherwise its legacy file is converted by
      `convert` and written to the new path. `convert` stands for the line
      rewriter; `GenerateRestChangelogs` passes the model's own. */
  function GenerateChangelogs(convert: string -> string, base: string, entries: seq<PackageEntry>,
                              fs: FileSystem): (r: BatchResult)
    // only new changelogs are written; every other path is untouched
    ensures forall p :: p !in r.written ==> SameAt(fs, r.fs, p)
    ensures forall k :: 0 <= k < |r.written| ==>
              r.written[k].file == TargetChangelog && r.written[k] !in fs && r.written[k] in r.fs
    ensures |r.written| <= |entries|
    // a package that already has its changelog is skipped, and that file is unchanged
    ensures forall i :: 0 <= i < |entries| && TargetPath(base, entries[i]) in fs ==>
              SameAt(fs, r.fs, TargetPath(base, entries[i]))
    decreases |entries|
  {
    if entries == [] then
      Done(fs, [])
    else
      var target := TargetPath(base, entries[0]);
      if target in fs then
        GenerateChangelogs(convert, base, entries[1..], fs)
      else
        var legacy := LegacyPath(base, entries[0]);
        if legacy !in fs then
          Failed(fs, [], legacy)
        else
          var fs' := fs[target := convert(fs[legacy])];
          var r := GenerateChangelogs(convert, base, entries[1..], fs');
          var written := [target] + r.written;
          assert target !in r.written && SameAt(fs', r.fs, target);
          assert forall k :: 0 < k < |written| ==> written[k] == r.written[k - 1];
          r.(written := written)
  }

  /** Package `i` has no new changelog yet and `p` is its legacy path. */
  ghost predicate IsMissing(base: string, entries: seq<PackageEntry>, fs: FileSystem, i: int, p: Path) {
    0 <= i < |entries| && p == LegacyPath(base, entries[i]) && TargetPath(base, entries[i]) !in fs
  }

  /** A run completes exactly when no package lacks both changelogs; a run
      that fails names the legacy file of a package that had neither. */
  lemma {:induction false} BatchCompletes(convert: string -> string, base: string, entries: seq<PackageEntry>,
    fs: FileSystem)
    ensures var r := GenerateChangelogs(convert, base, entries, fs);
            r.Done? <==> Convertible(base, entries, fs)
    ensures var r := GenerateChangelogs(convert, base, entries, fs);
            r.Failed? ==>
              && r.missing !in fs
              && exists i :: IsMissing(base, entries, fs, i, r.missing)
    decreases |entries|
  {
    if entries != [] {
      var rest := entries[1..];
      var target, legacy := TargetPath(base, entries[0]), LegacyPath(base, entries[0]);
      assert forall i :: 0 <= i < |rest| ==> rest[i] == entries[i + 1];
      if target in fs {
        BatchCompletes(convert, base, rest, fs);
        var r := GenerateChangelogs(convert, base, rest, fs);
        assert GenerateChangelogs(convert, base, entries, fs) == r;
        if r.Failed? {
          var i :| IsMissing(base, rest, fs, i, r.missing);
          assert IsMissing(base, entries, fs, i + 1, r.missing);
        }
        assert Convertible(base, entries, fs) <==> Convertible(base, rest, fs) by {
          if Convertible(base, rest, fs) {
            forall i | 0 <= i < |entries|
              ensures TargetPath(base, entries[i]) in fs || LegacyPath(base, entries[i]) in fs
            {
              if i > 0 { assert entries[i] == rest[i - 1]; }
            }
          }
        }
      } else if legacy in fs {
        var fs' := fs[target := convert(fs[legacy])];
        BatchCompletes(convert, base, rest, fs');
        assert Convertible(base, entries, fs) <==> Convertible(base, rest, fs') by {
          forall i | 0 <= i < |rest|
            ensures (TargetPath(base, rest[i]) in fs' || LegacyPath(base, rest[i]) in fs')
                    <==> (TargetPath(base, rest[i]) in fs || LegacyPath(base, rest[i]) in fs)
          {
            if TargetPath(base, rest[i]) == target {
              assert LegacyPath(base, rest[i]) == legacy;
            }
          }
          if Convertible(base, rest, fs') {
            forall i | 0 <= i < |entries|
              ensures TargetPath(base, entries[i]) in fs || LegacyPath(base, entries[i]) in fs
            {
              if i > 0 { assert entries[i] == rest[i - 1]; }
            }
          }
        }
        var r := GenerateChangelogs(convert, base, rest, fs');
        if r.Failed? {
          var i :| IsMissing(base, rest, fs', i, r.missing);
          assert IsMissing(base, entries, fs, i + 1, r.missing);
        }
      } else {
        assert !(TargetPath(base, entries[0]) in fs || LegacyPath(base, entries[0]) in fs);
        assert IsMissing(base, entries, fs, 0, legacy);
      }
    }
  }

  /** After a completed run every package has its new changelog, and each
      one the run created holds the converted legacy file. */
  lemma {:induction false} BatchWritesConverted(convert: string -> string, base: string, entries: seq<PackageEntry>,
    fs: FileSystem)
    requires GenerateChangelogs(convert, base, entries, fs).Done?
    ensures var r := GenerateChangelogs(convert, base, entries, fs);
            forall i :: 0 <= i < |entries| ==>
              var target, legacy := TargetPath(base, entries[i]), LegacyPath(base, entries[i]);
              target in r.fs && (target !in fs ==> legacy in fs && r.fs[target] == convert(fs[legacy]))
    decreases |entries|
  {
    if entries != [] {
      var rest := entries[1..];
      var target, legacy := TargetPath(base, entries[0]), LegacyPath(base, entries[0]);
      var r := GenerateChangelogs(convert, base, entries, fs);
      if target in fs {
        BatchWritesConverted(convert, base, rest, fs);
        forall i | 0 <= i < |entries|
          ensures var t, l := TargetPath(base, entries[i]), LegacyPath(base, entries[i]);
                  t in r.fs && (t !in fs ==> l in fs && r.fs[t] == convert(fs[l]))
        {
          if i > 0 { assert entries[i] == rest[i - 1]; }
        }
      } else {
        var fs' := fs[target := convert(fs[legacy])];
        BatchWritesConverted(convert, base, rest, fs');
        assert r.fs == GenerateChangelogs(convert, base, rest, fs').fs;
        assert SameAt(fs', r.fs, target);
        forall i | 0 <= i < |entries|
          ensures var t, l := TargetPath(base, entries[i]), LegacyPath(base, entries[i]);
                  t in r.fs && (t !in fs ==> l in fs && r.fs[t] == convert(fs[l]))
        {
          if i > 0 {
            assert entries[i] == rest[i - 1];
            var t, l := TargetPath(base, entries[i]), LegacyPath(base, entries[i]);
            assert l in fs' ==> fs'[l] == fs[l];
            if t == target {
              assert l == legacy;
            }
          }
        }
      }
    }
  }

  /** The legacy file next to path `p`. */
  function LegacyOf(p: Path): Path {
    p.(file := LegacyChangelog)
  }

  /** In `fs'`, path `p` holds the conversion of the legacy file next to it
      as it was in `fs`. */
  ghost predicate HoldsConversion(convert: string -> string, fs: FileSystem, fs': FileSystem, p: Path) {
    LegacyOf(p) in fs && p in fs' && fs'[p] == convert(fs[LegacyOf(p)])
  }

  /** Every path written in `r` holds the conversion of its legacy file in
      `fs`. */
  ghost predicate WrittenConverted(convert: string -> string, fs: FileSystem, r: BatchResult) {
    forall k :: 0 <= k < |r.written| ==> HoldsConversion(convert, fs, r.fs, r.written[k])
  }

  /** Every file a run writes, whether the run completes or stops at a
      package with neither changelog, holds the conversion of the legacy file
      beside it. */
  lemma {:induction false} WrittenAreConverted(convert: string -> string, base: string, entries: seq<PackageEntry>,
    fs: FileSystem)
    ensures WrittenConverted(convert, fs, GenerateChangelogs(convert, base, entries, fs))
    decreases |entries|
  {
    if entries != [] {
      var rest := entries[1..];
      var target, legacy := TargetPath(base, entries[0]), LegacyPath(base, entries[0]);
      if target in fs {
        WrittenAreConverted(convert, base, rest, fs);
      } else if legacy in fs {
        var fs' := fs[target := convert(fs[legacy])];
        WrittenAreConverted(convert, base, rest, fs');
        var r' := GenerateChangelogs(convert, base, rest, fs');
        var r := GenerateChangelogs(convert, base, entries, fs);
        assert WrittenConverted(convert, fs', r');
        assert r.written == [target] + r'.written && r.fs == r'.fs;
        forall k | 0 <= k < |r.written| ensures HoldsConversion(convert, fs, r.fs, r.written[k]) {
          if k == 0 {
            assert target !in r'.written;
            assert SameAt(fs', r.fs, target);
            assert LegacyOf(target) == legacy;
          } else {
            var p := r'.written[k - 1];
            assert r.written[k] == p;
            assert HoldsConversion(convert, fs', r.fs, p);
            assert LegacyOf(p) != target;
          }
        }
      }
    }
  }

  ghost predicate NoDuplicates(paths: seq<Path>) {
    forall k, k' :: 0 <= k < k' < |paths| ==> paths[k] != paths[k']
  }

  lemma PrependNoDuplicates(p: Path, paths: seq<Path>)
    requires NoDuplicates(paths) && p !in paths
    ensures NoDuplicates([p] + paths)
  {
    var all := [p] + paths;
    forall k, k' | 0 <= k < k' < |all| ensures all[k] != all[k'] {
      assert all[k'] == paths[k' - 1];
      if k > 0 {
        assert all[k] == paths[k - 1];
      }
    }
  }

  /** A run never writes the same path twice. */
  lemma {:induction false} WrittenOnce(convert: string -> string, base: string, entries: seq<PackageEntry>,
    fs: FileSystem)
    ensures NoDuplicates(GenerateChangelogs(convert, base, entries, fs).written)
    decreases |entries|
  {
    if entries != [] {
      var rest := entries[1..];
      var target, legacy := TargetPath(base, entries[0]), LegacyPath(base, entries[0]);
      if target in fs {
        WrittenOnce(convert, base, rest, fs);
        assert GenerateChangelogs(convert, base, entries, fs) == GenerateChangelogs(convert, base, rest, fs);
      } else if legacy in fs {
        var fs' := fs[target := convert(fs[legacy])];
        WrittenOnce(convert, base, rest, fs');
        var w' := GenerateChangelogs(convert, base, rest, fs').written;
        assert GenerateChangelogs(convert, base, entries, fs).written == [target] + w';
        assert target in fs';
        PrependNoDuplicates(target, w');
      }
    }
  }

  /** When every package already has its changelog, a run writes nothing. */
  lemma {:induction false} AllPresentWritesNothing(convert: string -> string, base: string, entries: seq<PackageEntry>,
    fs: FileSystem)
    requires forall i :: 0 <= i < |entries| ==> TargetPath(base, entries[i]) in fs
    ensures GenerateChangelogs(convert, base, entries, fs) == Done(fs, [])
    decreases |entries|
  {
    if entries != [] {
      assert TargetPath(base, entries[0]) in fs;
      AllPresentWritesNothing(convert, base, entries[1..], fs);
    }
  }

  /** `p` is the new changelog path of one of the listed packages. */
  ghost predicate IsTarget(base: string, entries: seq<PackageEntry>, p: Path) {
    exists i :: 0 <= i < |entries| && p == TargetPath(base, entries[i])
  }

  /** Every path in `written` is the new changelog path of a listed
      package. */
  ghost predicate AllTargets(base: string, entries: seq<PackageEntry>, written: seq<Path>) {
    forall k :: 0 <= k < |written| ==> IsTarget(base, entries, written[k])
  }

  lemma AllTargetsSkip(base: string, entries: seq<PackageEntry>, written: seq<Path>)
    requires entries != [] && AllTargets(base, entries[1..], written)
    ensures AllTargets(base, entries, written)
  {
    forall k | 0 <= k < |written| ensures IsTarget(base, entries, written[k]) {
      var rest := entries[1..];
      assert IsTarget(base, rest, written[k]);
      var i :| 0 <= i < |rest| && written[k] == TargetPath(base, rest[i]);
      assert rest[i] == entries[i + 1];
    }
  }

  lemma AllTargetsWrite(base: string, entries: seq<PackageEntry>, written: seq<Path>)
    requires entries != [] && AllTargets(base, entries[1..], written)
    ensures AllTargets(base, entries, [TargetPath(base, entries[0])] + written)
  {
    AllTargetsSkip(base, entries, written);
    var all := [TargetPath(base, entries[0])] + written;
    forall k | 0 <= k < |all| ensures IsTarget(base, entries, all[k]) {
      if k == 0 {
        assert all[0] == TargetPath(base, entries[0]);
      } else {
        assert all[k] == written[k - 1];
      }
    }
  }

  /** A run writes only the new changelog paths of the listed packages. */
  lemma {:induction false} WrittenAreTargets(convert: string -> string, base: string, entries: seq<PackageEntry>,
    fs: FileSystem)
    ensures AllTargets(base, entries, GenerateChangelogs(convert, base, entries, fs).written)
    decreases |entries|
  {
    if entries != [] {
      var rest := entries[1..];
      var target, legacy := TargetPath(base, entries[0]), LegacyPath(base, entries[0]);
      if target in fs {
        WrittenAreTargets(convert, base, rest, fs);
        AllTargetsSkip(base, entries, GenerateChangelogs(convert, base, rest, fs).written);
      } else if legacy in fs {
        var fs' := fs[target := convert(fs[legacy])];
        WrittenAreTargets(convert, base, rest, fs');
        var w := GenerateChangelogs(convert, base, rest, fs').written;
        assert GenerateChangelogs(convert, base, entries, fs).written == [target] + w;
        AllTargetsWrite(base, entries, w);
      }
    }
  }

  /** The failed run `r` stopped at package `i`: the first package, in
      order, with neither changelog in `fs`. Every package before it had one
      of the two and has its new changelog in `r.fs`, the paths written are
      theirs, and package `i` still has neither file. */
  ghost predicate StoppedAt(base: string, entries: seq<PackageEntry>, fs: FileSystem, r: BatchResult, i: int) {
    && r.Failed? && 0 <= i < |entries|
    && r.missing == LegacyPath(base, entries[i])
    && TargetPath(base, entries[i]) !in r.fs && LegacyPath(base, entries[i]) !in r.fs
    && (forall j :: 0 <= j < i ==> TargetPath(base, entries[j]) in fs || LegacyPath(base, entries[j]) in fs)
    && (forall j :: 0 <= j < i ==> TargetPath(base, entries[j]) in r.fs)
    && AllTargets(base, entries[..i], r.written)
  }

  ghost predicate FailsAtFirstGap(base: string, entries: seq<PackageEntry>, fs: FileSystem, r: BatchResult) {
    r.Failed? ==> exists i :: StoppedAt(base, entries, fs, r, i)
  }

  /** Stopping in the rest of the packages, after skipping the first. */
  lemma StoppedAfterSkip(base: string, entries: seq<PackageEntry>, fs: FileSystem, r: BatchResult, i: int)
    requires entries != [] && TargetPath(base, entries[0]) in fs && TargetPath(base, entries[0]) in r.fs
    requires StoppedAt(base, entries[1..], fs, r, i)
    ensures StoppedAt(base, entries, fs, r, i + 1)
  {
    var rest := entries[1..];
    forall j | 0 <= j < i + 1
      ensures (TargetPath(base, entries[j]) in fs || LegacyPath(base, entries[j]) in fs)
              && TargetPath(base, entries[j]) in r.fs
    {
      if j > 0 {
        assert entries[j] == rest[j - 1];
      }
    }
    assert entries[i + 1] == rest[i];
    assert entries[..i + 1][1..] == rest[..i];
    AllTargetsSkip(base, entries[..i + 1], r.written);
  }

  /** Stopping in the rest of the packages, after writing the first. */
  lemma StoppedAfterWrite(base: string, entries: seq<PackageEntry>, fs: FileSystem, v: string,
    r: BatchResult, i: int)
    requires entries != [] && LegacyPath(base, entries[0]) in fs
    requires StoppedAt(base, entries[1..], fs[TargetPath(base, entries[0]) := v], r, i)
    requires TargetPath(base, entries[0]) in r.fs
    ensures StoppedAt(base, entries, fs, r.(written := [TargetPath(base, entries[0])] + r.written), i + 1)
  {
    var rest := entries[1..];
    var target, legacy := TargetPath(base, entries[0]), LegacyPath(base, entries[0]);
    var fs' := fs[target := v];
    forall j | 0 <= j < i + 1
      ensures (TargetPath(base, entries[j]) in fs || LegacyPath(base, entries[j]) in fs)
              && TargetPath(base, entries[j]) in r.fs
    {
      if j > 0 {
        assert entries[j] == rest[j - 1];
        var t, l := TargetPath(base, entries[j]), LegacyPath(base, entries[j]);
        assert t in fs' || l in fs';
        if t == target {
          assert l == legacy;
        }
        assert l != target;
      }
    }
    assert entries[i + 1] == rest[i];
    assert entries[..i + 1][1..] == rest[..i];
    assert entries[..i + 1][0] == entries[0];
    AllTargetsWrite(base, entries[..i + 1], r.written);
  }

  /** A failed run stops at the first package, in order, that has neither
      changelog, after every package before it got its new one. */
  lemma {:induction false} FailedRunStopsAtFirstGap(convert: string -> string, base: string,
    entries: seq<PackageEntry>, fs: FileSystem)
    ensures FailsAtFirstGap(base, entries, fs, GenerateChangelogs(convert, base, entries, fs))
    decreases |entries|
  {
    if entries != [] {
      var rest := entries[1..];
      var target, legacy := TargetPath(base, entries[0]), LegacyPath(base, entries[0]);
      var r := GenerateChangelogs(convert, base, entries, fs);
      if target in fs {
        FailedRunStopsAtFirstGap(convert, base, rest, fs);
        assert r == GenerateChangelogs(convert, base, rest, fs);
        if r.Failed? {
          var i :| StoppedAt(base, rest, fs, r, i);
          assert SameAt(fs, r.fs, target);
          StoppedAfterSkip(base, entries, fs, r, i);
        }
      } else if legacy !in fs {
        assert StoppedAt(base, entries, fs, r, 0);
      } else {
        var fs' := fs[target := convert(fs[legacy])];
        FailedRunStopsAtFirstGap(convert, base, rest, fs');
        var r0 := GenerateChangelogs(convert, base, rest, fs');
        assert r == r0.(written := [target] + r0.written);
        if r.Failed? {
          var i :| StoppedAt(base, rest, fs', r0, i);
          assert target !in r0.written && SameAt(fs', r0.fs, target);
          StoppedAfterWrite(base, entries, fs, convert(fs[legacy]), r0, i);
        }
      }
    }
  }

  /** A run over packages whose new changelogs exist up to package `i`, which
      has neither file, writes nothing and fails there. */
  lemma {:induction false} RunStopsAt(convert: string -> string, base: string, entries: seq<PackageEntry>,
    fs: FileSystem, i: int)
    requires 0 <= i < |entries|
    requires forall j :: 0 <= j < i ==> TargetPath(base, entries[j]) in fs
    requires TargetPath(base, entries[i]) !in fs && LegacyPath(base, entries[i]) !in fs
    ensures GenerateChangelogs(convert, base, entries, fs) == Failed(fs, [], LegacyPath(base, entries[i]))
    decreases i
  {
    if i > 0 {
      assert TargetPath(base, entries[0]) in fs;
      var rest := entries[1..];
      forall j | 0 <= j < i - 1 ensures TargetPath(base, rest[j]) in fs {
        assert rest[j] == entries[j + 1];
      }
      assert rest[i - 1] == entries[i];
      RunStopsAt(convert, base, rest, fs, i - 1);
    }
  }

  /** Running the batch step again over the result of any run performs no
      writes and leaves the files as they are: after a completed run it
      completes again, after a failed one it fails at the same package. */
  lemma SecondRunWritesNothing(convert: string -> string, base: string, entries: seq<PackageEntry>,
    fs: FileSystem)
    ensures var r := GenerateChangelogs(convert, base, entries, fs);
            GenerateChangelogs(convert, base, entries, r.fs).written == []
    ensures var r := GenerateChangelogs(convert, base, entries, fs);
            r.Done? ==> GenerateChangelogs(convert, base, entries, r.fs) == Done(r.fs, [])
    ensures var r := GenerateChangelogs(convert, base, entries, fs);
            r.Failed? ==> GenerateChangelogs(convert, base, entries, r.fs) == Failed(r.fs, [], r.missing)
  {
    var r := GenerateChangelogs(convert, base, entries, fs);
    if r.Done? {
      BatchWritesConverted(convert, base, entries, fs);
      AllPresentWritesNothing(convert, base, entries, r.fs);
    } else {
      FailedRunStopsAtFirstGap(convert, base, entries, fs);
      var i :| StoppedAt(base, entries, fs, r, i);
      RunStopsAt(convert, base, entries, r.fs, i);
    }
  }

  /** The batch step with the line rewriter of `Md2Rst`. */
  function GenerateRestChangelogs(base: string, entries: seq<PackageEntry>, fs: FileSystem): BatchResult {
    GenerateChangelogs(ConvertFile, base, entries, fs)
  }

  /** With the model's rewriter, every changelog a run creates, whether the
      run completes or stops at a package with neither file, is the
      conversion of the package's legacy file as it was before the run; a
      completed run also leaves every package with its new changelog. */
  lemma RestChangelogsConverted(base: string, entries: seq<PackageEntry>, fs: FileSystem)
    ensures WrittenConverted(ConvertFile, fs, GenerateRestChangelogs(base, entries, fs))
    ensures var r := GenerateRestChangelogs(base, entries, fs);
            r.Done? ==>
              forall i :: 0 <= i < |entries| ==>
                var target, legacy := TargetPath(base, entries[i]), LegacyPath(base, entries[i]);
                target in r.fs && (target !in fs ==> legacy in fs && r.fs[target] == ConvertFile(fs[legacy]))
  {
    WrittenAreConverted(ConvertFile, base, entries, fs);
    if GenerateRestChangelogs(base, entries, fs).Done? {
      BatchWritesConverted(ConvertFile, base, entries, fs);
    }
  }
}
