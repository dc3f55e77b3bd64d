/**
 * The filesystem the persistence layer writes to, as a map from paths to
 * contents, and the external conversion tool as a function from the input
 * image and the argument vector to the bytes it writes (None when it fails).
 */
module Disks {
  import opened Outcomes
  import opened RubyStrings

  type Bytes = seq<bv8>
  type Files = map<string, Bytes>
  type Tool = (Bytes, seq<string>) -> Option<Bytes>

  /** The file a command line writes: its last argument. */
  function Target(argv: seq<string>): string {
    if |argv| < 2 then "" else argv[|argv| - 1]
  }

  /**
   * What one run of the tool leaves behind: it reads the file named by the
   * second argument and, when that exists and the tool succeeds, writes the
   * last argument. A failed run leaves no trace; its exit status is ignored.
   */
  function Executed(files: Files, argv: seq<string>, tool: Tool): Files {
    if |argv| < 2 || argv[1] !in files then files
    else match tool(files[argv[1]], argv)
      case None => files
      case Some(out) => files[argv[|argv| - 1] := out]
  }

  /** A run removes no file and changes no file but its target. */
  lemma ExecutedFrame(files: Files, argv: seq<string>, tool: Tool, p: string)
    ensures p in files ==> p in Executed(files, argv, tool)
    ensures p != Target(argv) ==>
      (p in Executed(files, argv, tool) <==> p in files) &&
      (p in files ==> Executed(files, argv, tool)[p] == files[p])
  {
  }

  /** The runs of the first `n` commands, in order. */
  function ConvertFirst(files: Files, cmds: seq<seq<string>>, n: nat, tool: Tool): Files
    requires n <= |cmds|
    decreases n
  {
    if n == 0 then files else Executed(ConvertFirst(files, cmds, n - 1, tool), cmds[n - 1], tool)
  }

  /** The runs of a sequence of commands, in order. */
  function ConvertAll(files: Files, cmds: seq<seq<string>>, tool: Tool): Files {
    ConvertFirst(files, cmds, |cmds|, tool)
  }

  /**
   * What runs of the first `n` commands, all reading the same input `src`,
   * leave in `r` when started from `files`: `src` as it was, the tool's
   * output for that input at the target of each run that succeeds, and
   * every path that no run targets as it was.
   */
  ghost predicate RanFirst(files: Files, cmds: seq<seq<string>>, n: nat, tool: Tool, src: string, r: Files)
    requires n <= |cmds| && src in files
  {
    && src in r && r[src] == files[src]
    && (forall i :: 0 <= i < n && tool(files[src], cmds[i]).Some? ==>
          Target(cmds[i]) in r && r[Target(cmds[i])] == tool(files[src], cmds[i]).value)
    && (forall p :: NotTargeted(cmds, n, p) ==> (p in r <==> p in files) && (p in r ==> r[p] == files[p]))
  }

  /** No run among the first `n` writes `p`. */
  predicate NotTargeted(cmds: seq<seq<string>>, n: nat, p: string)
    requires n <= |cmds|
  {
    forall i :: 0 <= i < n ==> p != Target(cmds[i])
  }

  /**
   * Runs whose outputs are distinct from every input and from each other,
   * all reading the same input `src`, each leave the tool's output for that
   * input at their target, and touch nothing else.
   */
  lemma {:induction false} ConvertFirstSpec(files: Files, cmds: seq<seq<string>>, n: nat, tool: Tool, src: string)
    requires n <= |cmds| && src in files
    requires forall i :: 0 <= i < |cmds| ==> |cmds[i]| >= 2 && cmds[i][1] == src && Target(cmds[i]) != src
    requires forall i, j :: 0 <= i < j < |cmds| ==> Target(cmds[i]) != Target(cmds[j])
    ensures RanFirst(files, cmds, n, tool, src, ConvertFirst(files, cmds, n, tool))
    decreases n
  {
    if n > 0 {
      ConvertFirstSpec(files, cmds, n - 1, tool, src);
      RanOneMore(files, cmds, n, tool, src, ConvertFirst(files, cmds, n - 1, tool));
    }
  }

  /** One more run keeps RanFirst. */
  lemma {:induction false} RanOneMore(files: Files, cmds: seq<seq<string>>, n: nat, tool: Tool, src: string, prev: Files)
    requires 0 < n <= |cmds| && src in files
    requires forall i :: 0 <= i < |cmds| ==> |cmds[i]| >= 2 && cmds[i][1] == src && Target(cmds[i]) != src
    requires forall i, j :: 0 <= i < j < |cmds| ==> Target(cmds[i]) != Target(cmds[j])
    requires RanFirst(files, cmds, n - 1, tool, src, prev)
    ensures RanFirst(files, cmds, n, tool, src, Executed(prev, cmds[n - 1], tool))
  {
    var m := n - 1;
    var r := Executed(prev, cmds[m], tool);
    ExecutedFrame(prev, cmds[m], tool, src);
    forall i | 0 <= i < n && tool(files[src], cmds[i]).Some?
      ensures Target(cmds[i]) in r && r[Target(cmds[i])] == tool(files[src], cmds[i]).value
    {
      if i < m {
        ExecutedFrame(prev, cmds[m], tool, Target(cmds[i]));
      }
    }
    forall p | NotTargeted(cmds, n, p)
      ensures (p in r <==> p in files) && (p in r ==> r[p] == files[p])
    {
      assert NotTargeted(cmds, m, p);
      ExecutedFrame(prev, cmds[m], tool, p);
    }
  }

  /** The runs remove no file. */
  lemma {:induction false} ConvertFirstKeeps(files: Files, cmds: seq<seq<string>>, n: nat, tool: Tool, p: string)
    requires n <= |cmds| && p in files
    ensures p in ConvertFirst(files, cmds, n, tool)
    decreases n
  {
    if n > 0 {
      ConvertFirstKeeps(files, cmds, n - 1, tool, p);
      ExecutedFrame(ConvertFirst(files, cmds, n - 1, tool), cmds[n - 1], tool, p);
    }
  }

  /**
   * Writing `data` to a scratch file `src`, running commands that all read
   * it and write distinct other files, then removing `src`: each command
   * whose run succeeds leaves its output at its target, `src` is gone, and
   * every other path is as it was before the scratch file was written.
   */
  lemma ConvertFromScratch(files: Files, src: string, data: Bytes, cmds: seq<seq<string>>, tool: Tool)
    requires forall i :: 0 <= i < |cmds| ==> |cmds[i]| >= 2 && cmds[i][1] == src && Target(cmds[i]) != src
    requires forall i, j :: 0 <= i < j < |cmds| ==> Target(cmds[i]) != Target(cmds[j])
    ensures var r := ConvertAll(files[src := data], cmds, tool) - {src};
      && src !in r
      && (forall i :: 0 <= i < |cmds| && tool(data, cmds[i]).Some? ==>
            Target(cmds[i]) in r && r[Target(cmds[i])] == tool(data, cmds[i]).value)
      && (forall p :: (p != src && forall i :: 0 <= i < |cmds| ==> p != Target(cmds[i])) ==>
            (p in r <==> p in files) && (p in r ==> r[p] == files[p]))
  {
    var start := files[src := data];
    ConvertFirstSpec(start, cmds, |cmds|, tool, src);
    var all := ConvertAll(start, cmds, tool);
    var r := all - {src};
    forall i | 0 <= i < |cmds| && tool(data, cmds[i]).Some?
      ensures Target(cmds[i]) in r && r[Target(cmds[i])] == tool(data, cmds[i]).value
    {
      assert Target(cmds[i]) in all;
    }
    forall p | p != src && (forall i :: 0 <= i < |cmds| ==> p != Target(cmds[i]))
      ensures (p in r <==> p in files) && (p in r ==> r[p] == files[p])
    {
      assert p in all <==> p in start;
    }
  }

  /** `p` lies in the tree rooted at `dir`, or is `dir` itself. */
  predicate Under(p: string, dir: string) {
    p == dir || (|dir| < |p| && p[..|dir|] == dir && (EndsWithSep(dir) || p[|dir|] == '/'))
  }

  /** The filesystem after FileUtils.rm_rf(dir). */
  function WithoutTree(files: Files, dir: string): (r: Files)
    ensures forall p :: p in r <==> p in files && !Under(p, dir)
    ensures forall p :: p in r ==> r[p] == files[p]
  {
    map p | p in files && !Under(p, dir) :: files[p]
  }

  /** Two filesystems that agree outside `dir` are the same once `dir` is removed from both. */
  lemma WithoutTreeAgrees(f1: Files, f2: Files, dir: string)
    requires forall p :: !Under(p, dir) ==> (p in f1 <==> p in f2) && (p in f1 ==> f1[p] == f2[p])
    ensures WithoutTree(f1, dir) == WithoutTree(f2, dir)
  {
    var a, b := WithoutTree(f1, dir), WithoutTree(f2, dir);
    assert forall p :: p in a <==> p in b;
    assert forall p :: p in a ==> a[p] == b[p];
  }

  /** An in-memory filesystem that the persistence layer changes in place. */
  class Disk {
    var files: Files

    constructor(initial: Files)
      ensures files == initial
    {
      files := initial;
    }

    /** File.open(path, "wb") { |f| f.write(data) }. */
    method Write(path: string, data: Bytes)
      modifies this
      ensures files == old(files)[path := data]
    {
      files := files[path := data];
    }

    /** File.open(path).read, or ENOENT when there is no such file. */
    method Read(path: string) returns (r: Result<Bytes>)
      ensures path in files ==> r == Ok(files[path])
      ensures path !in files ==> r == Err(NoSuchFile(path))
    {
      if path in files {
        r := Ok(files[path]);
      } else {
        r := Err(NoSuchFile(path));
      }
    }

    /** FileUtils.rm(path): the file must exist. */
    method Remove(path: string)
      requires path in files
      modifies this
      ensures files == old(files) - {path}
    {
      files := files - {path};
    }

    /** FileUtils.rm_rf(dir): everything under `dir` goes; nothing else changes. */
    method RemoveTree(dir: string)
      modifies this
      ensures files == WithoutTree(old(files), dir)
    {
      files := WithoutTree(files, dir);
    }

    /** A backtick run of the tool; the exit status is not looked at. */
    method Execute(argv: seq<string>, tool: Tool)
      modifies this
      ensures files == Executed(old(files), argv, tool)
    {
      if |argv| >= 2 && argv[1] in files {
        var out := tool(files[argv[1]], argv);
        if out.Some? {
          files := files[argv[|argv| - 1] := out.value];
        }
      }
    }
  }
}
