/** The catalog builder, getFileList in main.go: walk the root directory,
    keep the regular files whose extension is one of the profile's, turn each
    into a download URL line, and return the lines sorted together with
    their total byte length. */
module Catalog {
  import opened Strings
  import opened Wrappers
  import FilePath
  import Url
  import Sorting

  /** The two package-level settings the builder reads: the root of the
      walk and the address clients reach the file server under. */
  datatype Config = Config(rootPath: seq<byte>, externalAddress: seq<byte>)

  /** One call of the walk callback: an error reported for `path`, or the
      entry at `path` whose base name is `name`. The walk itself is not
      modelled; a walk is the sequence of these calls in the order made. */
  datatype WalkEvent =
    | Err(path: seq<byte>)
    | Entry(path: seq<byte>, name: seq<byte>, isDir: bool)

  /** The bytes "/files/" between the address and the escaped path. */
  const FILES: seq<byte> := ['/' as byte, 'f' as byte, 'i' as byte, 'l' as byte, 'e' as byte, 's' as byte, '/' as byte]

  /** The callback's test for emitting a line: not an error, not a
      directory, and the base name's extension is exactly one of `extensions`. */
  predicate Kept(e: WalkEvent, extensions: seq<seq<byte>>)
  {
    e.Entry? && !e.isDir && FilePath.Ext(e.name) in extensions
  }

  /** The path a line names: `path` relative to the root when it lies under
      `rootPath + "/"`, otherwise `path` unchanged. */
  function RelPath(cfg: Config, path: seq<byte>): seq<byte>
  {
    TrimPrefix(path, cfg.rootPath + [SLASH])
  }

  /** What a reader of a catalog line does: strip the address, "/files/" and
      the final newline, and unescape what is left. */
  function ParseLine(cfg: Config, line: seq<byte>): Option<seq<byte>>
  {
    var head := cfg.externalAddress + FILES;
    if |line| < |head| + 1 || line[..|head|] != head || line[|line| - 1] != NEWLINE then None
    else Url.PathUnescape(line[|head|..|line| - 1])
  }

  /** The line emitted for a kept file. It starts with the address and
      "/files/", ends with its only newline after the escaped path, the
      escaped path holds no `/`, and reading the line back gives the
      relative path. */
  function FileUrl(cfg: Config, path: seq<byte>): (line: seq<byte>)
    ensures cfg.externalAddress + FILES <= line
    ensures line[|line| - 1] == NEWLINE
    ensures NEWLINE !in line[|cfg.externalAddress + FILES|..|line| - 1]
    ensures SLASH !in line[|cfg.externalAddress + FILES|..|line| - 1]
    ensures ParseLine(cfg, line) == Some(RelPath(cfg, path))
    ensures NEWLINE !in cfg.externalAddress ==> IsLine(line)
  {
    var escaped := Url.PathEscape(RelPath(cfg, path));
    var line := cfg.externalAddress + FILES + escaped + [NEWLINE];
    assert line[|cfg.externalAddress + FILES|..|line| - 1] == escaped;
    assert line[..|line| - 1] == cfg.externalAddress + FILES + escaped;
    Url.PathUnescapeEscape(RelPath(cfg, path));
    line
  }

  /** The lines one walk event adds. */
  function Emitted(cfg: Config, extensions: seq<seq<byte>>, e: WalkEvent): seq<seq<byte>>
  {
    if Kept(e, extensions) then [FileUrl(cfg, e.path)] else []
  }

  /** The lines appended during a walk, in the order the walk reported them. */
  function Lines(cfg: Config, extensions: seq<seq<byte>>, walk: seq<WalkEvent>): seq<seq<byte>>
  {
    if walk == [] then []
    else Lines(cfg, extensions, walk[..|walk| - 1]) + Emitted(cfg, extensions, walk[|walk| - 1])
  }

  /** The lines of two walk stretches are the lines of each, one after the other. */
  lemma {:induction false} LinesAppend(cfg: Config, extensions: seq<seq<byte>>, a: seq<WalkEvent>, b: seq<WalkEvent>)
    ensures Lines(cfg, extensions, a + b) == Lines(cfg, extensions, a) + Lines(cfg, extensions, b)
    decreases |b|
  {
    if b == [] {
      assert a + b == a;
    } else {
      var n := |b| - 1;
      assert (a + b)[..|a + b| - 1] == a + b[..n];
      LinesAppend(cfg, extensions, a, b[..n]);
    }
  }

  /** An error, a directory or a file with another extension adds nothing and
      takes nothing away: the entries after it are listed as without it. */
  lemma SkippedEventKeepsSiblings(cfg: Config, extensions: seq<seq<byte>>, a: seq<WalkEvent>, e: WalkEvent, b: seq<WalkEvent>)
    requires !Kept(e, extensions)
    ensures Lines(cfg, extensions, a + [e] + b) == Lines(cfg, extensions, a) + Lines(cfg, extensions, b)
  {
    var ae := a + [e];
    assert Lines(cfg, extensions, ae) == Lines(cfg, extensions, a) by {
      assert ae[..|ae| - 1] == a && ae[|ae| - 1] == e;
    }
    LinesAppend(cfg, extensions, ae, b);
  }

  /** The positions in the walk of the kept entries, in walk order. */
  function Origins(extensions: seq<seq<byte>>, walk: seq<WalkEvent>): (o: seq<nat>)
    ensures forall k :: 0 <= k < |o| ==> o[k] < |walk|
  {
    if walk == [] then []
    else
      var n := |walk| - 1;
      Origins(extensions, walk[..n]) + (if Kept(walk[n], extensions) then [n] else [])
  }

  /** Every position in Origins holds a kept entry, and the positions
      strictly increase, so no entry is named twice. */
  lemma {:induction false} OriginsKeptInOrder(extensions: seq<seq<byte>>, walk: seq<WalkEvent>)
    ensures forall k :: 0 <= k < |Origins(extensions, walk)| ==> Kept(walk[Origins(extensions, walk)[k]], extensions)
    ensures forall k, m :: 0 <= k < m < |Origins(extensions, walk)| ==> Origins(extensions, walk)[k] < Origins(extensions, walk)[m]
  {
    if walk != [] {
      var n := |walk| - 1;
      OriginsKeptInOrder(extensions, walk[..n]);
      var prior := Origins(extensions, walk[..n]);
      forall k | 0 <= k < |prior|
        ensures walk[prior[k]] == walk[..n][prior[k]]
      {
      }
    }
  }

  /** Every kept entry's position is in Origins. */
  lemma {:induction false} OriginsComplete(extensions: seq<seq<byte>>, walk: seq<WalkEvent>, i: nat)
    requires i < |walk| && Kept(walk[i], extensions)
    ensures i in Origins(extensions, walk)
  {
    var n := |walk| - 1;
    if i < n {
      assert walk[..n][i] == walk[i];
      OriginsComplete(extensions, walk[..n], i);
    }
  }

  /** Line k of a walk is the line of the k-th kept entry: each line comes
      from exactly one kept entry, and each kept entry gives exactly one line. */
  lemma {:induction false} LinesFromOrigins(cfg: Config, extensions: seq<seq<byte>>, walk: seq<WalkEvent>)
    ensures |Lines(cfg, extensions, walk)| == |Origins(extensions, walk)|
    ensures forall k :: 0 <= k < |Origins(extensions, walk)| ==>
      Lines(cfg, extensions, walk)[k] == FileUrl(cfg, walk[Origins(extensions, walk)[k]].path)
  {
    if walk != [] {
      var n := |walk| - 1;
      LinesFromOrigins(cfg, extensions, walk[..n]);
      var o := Origins(extensions, walk[..n]);
      forall k | 0 <= k < |o|
        ensures walk[..n][o[k]] == walk[o[k]]
      {
      }
    }
  }

  /** With an address free of newlines, every catalog line is one line:
      its only newline is the last byte. */
  lemma LinesAreLines(cfg: Config, extensions: seq<seq<byte>>, walk: seq<WalkEvent>)
    requires NEWLINE !in cfg.externalAddress
    ensures forall k :: 0 <= k < |Lines(cfg, extensions, walk)| ==> IsLine(Lines(cfg, extensions, walk)[k])
  {
    LinesFromOrigins(cfg, extensions, walk);
  }

  /** A directory entry is never kept; a file is kept exactly when its name
      ends with one of the extensions, provided each of them is a proper
      extension (`.` and no further `.` or `/`). */
  lemma KeptBySuffix(extensions: seq<seq<byte>>, e: WalkEvent)
    requires e.Entry?
    requires forall j :: 0 <= j < |extensions| ==> FilePath.IsExtension(extensions[j])
    ensures Kept(e, extensions) <==>
      !e.isDir && exists j :: 0 <= j < |extensions| && EndsWith(e.name, extensions[j])
  {
    if !e.isDir {
      if exists j :: 0 <= j < |extensions| && EndsWith(e.name, extensions[j]) {
        var j :| 0 <= j < |extensions| && EndsWith(e.name, extensions[j]);
        var x := extensions[j];
        var stem := e.name[..|e.name| - |x|];
        assert e.name == stem + x;
        FilePath.ExtOfSuffix(stem, x);
      }
      if Kept(e, extensions) {
        var x := FilePath.Ext(e.name);
        var j :| 0 <= j < |extensions| && extensions[j] == x;
      }
    }
  }

  /** The walk order does not change which lines are listed, only their order. */
  lemma {:induction false} LinesReordered(cfg: Config, extensions: seq<seq<byte>>, w1: seq<WalkEvent>, w2: seq<WalkEvent>)
    requires multiset(w1) == multiset(w2)
    ensures multiset(Lines(cfg, extensions, w1)) == multiset(Lines(cfg, extensions, w2))
    decreases |w1|
  {
    if w1 == [] {
      assert |w2| == |multiset(w2)| == 0;
    } else {
      var n := |w1| - 1;
      var x := w1[n];
      assert x in multiset(w2) by { assert x in multiset(w1); }
      var j :| 0 <= j < |w2| && w2[j] == x;
      var rest := w2[..j] + w2[j+1..];
      assert w1 == w1[..n] + [x];
      assert w2 == w2[..j] + [x] + w2[j+1..];
      assert multiset(w1) == multiset(w1[..n]) + multiset{x};
      assert multiset(w2) == multiset(w2[..j]) + multiset{x} + multiset(w2[j+1..]);
      calc {
        multiset(w1[..n]);
        multiset(w1) - multiset{x};
        multiset(w2) - multiset{x};
        multiset(rest);
      }
      LinesReordered(cfg, extensions, w1[..n], rest);
      LinesAppend(cfg, extensions, w2[..j], w2[j+1..]);
      LinesAppend(cfg, extensions, w2[..j] + [x], w2[j+1..]);
      LinesAppend(cfg, extensions, w2[..j], [x]);
      assert [x][..0] == [];
    }
  }

  /** Two catalogs built from walks reporting the same entries, in any order,
      are byte-identical: the builder is deterministic and repeatable. */
  lemma CatalogDeterministic(cfg: Config, extensions: seq<seq<byte>>, w1: seq<WalkEvent>, w2: seq<WalkEvent>,
                             files1: seq<seq<byte>>, files2: seq<seq<byte>>)
    requires multiset(w1) == multiset(w2)
    requires Sorted(files1) && multiset(files1) == multiset(Lines(cfg, extensions, w1))
    requires Sorted(files2) && multiset(files2) == multiset(Lines(cfg, extensions, w2))
    ensures files1 == files2
  {
    LinesReordered(cfg, extensions, w1, w2);
    SortedUnique(files1, files2);
  }

  /** The two variables the walk callback captures and updates: the slice
      of lines and the running byte count. */
  class Collector {
    var files: seq<seq<byte>>
    var length: int

    constructor ()
      ensures files == [] && length == 0
    {
      files := [];
      length := 0;
    }

    /** The walk callback for one event: an error is logged and skipped, a
        directory is skipped, and a file whose extension is listed has its
        line appended and its byte length added. */
    method Visit(cfg: Config, extensions: seq<seq<byte>>, e: WalkEvent)
      modifies this
      ensures files == old(files) + Emitted(cfg, extensions, e)
      ensures length == old(length) + TotalLength(Emitted(cfg, extensions, e))
    {
      if e.Err? {
        return;
      }
      if e.isDir {
        return;
      }
      if FilePath.Ext(e.name) in extensions {
        var relPath := TrimPrefix(e.path, cfg.rootPath + [SLASH]);
        var fileURL := cfg.externalAddress + FILES + Url.PathEscape(relPath) + [NEWLINE];
        assert fileURL == FileUrl(cfg, e.path);
        files := files + [fileURL];
        length := length + |fileURL|;
      }
    }
  }

  /** getFileList: every walk event goes through the callback, a failed walk
      gives an empty list and 0, and otherwise the collected lines are sorted
      and returned with their total byte length. */
  method GetFileList(cfg: Config, extensions: seq<seq<byte>>, walk: seq<WalkEvent>, walkFailed: bool)
    returns (files: seq<seq<byte>>, length: int)
    ensures walkFailed ==> files == [] && length == 0
    ensures !walkFailed ==> Sorted(files) && multiset(files) == multiset(Lines(cfg, extensions, walk))
    ensures length == TotalLength(files)
  {
    var acc := new Collector();
    var i := 0;
    while i < |walk|
      invariant 0 <= i <= |walk|
      invariant acc.files == Lines(cfg, extensions, walk[..i])
      invariant acc.length == TotalLength(acc.files)
    {
      assert walk[..i + 1][..i] == walk[..i];
      TotalLengthAppend(acc.files, Emitted(cfg, extensions, walk[i]));
      acc.Visit(cfg, extensions, walk[i]);
      i := i + 1;
    }
    assert walk[..i] == walk;
    if walkFailed {
      return [], 0;
    }
    var a := new seq<byte>[|acc.files|](k requires 0 <= k < |acc.files| reads acc => acc.files[k]);
    assert a[..] == acc.files;
    Sorting.SortStrings(a);
    TotalLengthPermutation(acc.files, a[..]);
    files, length := a[..], acc.length;
  }
}
