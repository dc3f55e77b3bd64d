/**
 * Imagery::Model: the images of one record, kept as one PNG file per size
 * under root/public/system/<namespace>/<key>, with the URL each is served
 * under, and the save and delete that write and remove them. The S3,
 * Missing and Faking layers sit on top of url, save and delete.
 */
module Imagery {
  import opened Outcomes
  import opened RubyStrings
  import opened SizeTables
  import opened Paths
  import opened Conversion
  import opened Disks
  import S3
  import opened Missing
  import Faking

  // ----- the root -----

  /** @root after `@root ||= root if root`, where `given` is ROOT_DIR when that constant is defined. */
  function RootAfter(memo: Option<string>, given: Option<string>): Option<string> {
    if memo.None? && given.Some? then given else memo
  }

  /** What Model#root returns: the root it keeps, or UndefinedRoot. */
  function RootOf(memo: Option<string>, given: Option<string>): Result<string> {
    match RootAfter(memo, given)
    case None => Err(UndefinedRoot)
    case Some(r) => Ok(r)
  }

  /**
   * An assigned root wins over ROOT_DIR; without one, ROOT_DIR is taken and
   * kept; with neither the call fails. Once a root is kept, later calls
   * neither change nor lose it, whatever ROOT_DIR says then.
   */
  lemma RootSpec(memo: Option<string>, given: Option<string>, later: Option<string>)
    ensures memo.Some? ==> RootOf(memo, given) == Ok(memo.value) && RootAfter(memo, given) == memo
    ensures memo.None? && given.Some? ==> RootOf(memo, given) == Ok(given.value) && RootAfter(memo, given) == given
    ensures RootOf(memo, given).Err? <==> memo.None? && given.None?
    ensures RootOf(memo, given).Err? ==> RootOf(memo, given).error == UndefinedRoot
    ensures RootOf(memo, given).Ok? ==>
      RootAfter(RootAfter(memo, given), later) == RootAfter(memo, given) &&
      RootOf(RootAfter(memo, given), later) == RootOf(memo, given)
  {
  }

  // ----- file, tmp, cmd and url as functions of the state -----

  /** Model#file(size): UnknownSize is checked before the root is looked at. */
  function FileOutcome(sizes: Table, size: string, memo: Option<string>, given: Option<string>,
                       ns: string, key: string): Result<string>
  {
    if !HasKey(sizes, size) then Err(UnknownSize(size))
    else match RootOf(memo, given)
      case Err(e) => Err(e)
      case Ok(root) => Ok(FilePath(root, ns, key, size))
  }

  /** @root after Model#file(size): only a known size reaches the root. */
  function FileMemo(sizes: Table, size: string, memo: Option<string>, given: Option<string>): Option<string> {
    if HasKey(sizes, size) then RootAfter(memo, given) else memo
  }

  /**
   * For any namespace, key and size: an unknown size fails with
   * UnknownSize even when no root is defined; a known one fails, with
   * UndefinedRoot, exactly when no root is.
   */
  lemma FileErrors(sizes: Table, size: string, memo: Option<string>, given: Option<string>, ns: string, key: string)
    ensures !HasKey(sizes, size) ==> FileOutcome(sizes, size, memo, given, ns, key) == Err(UnknownSize(size))
    ensures HasKey(sizes, size) ==>
      (FileOutcome(sizes, size, memo, given, ns, key).Err? <==> RootOf(memo, given).Err?)
    ensures HasKey(sizes, size) && RootOf(memo, given).Err? ==>
      FileOutcome(sizes, size, memo, given, ns, key) == Err(UndefinedRoot)
  {
  }

  /**
   * A known size with a root defined: the file is
   * root/public/system/<ns>/<key>/<size>.png, directly in the record
   * directory.
   */
  lemma FileSpec(sizes: Table, size: string, memo: Option<string>, given: Option<string>, ns: string, key: string)
    requires Plain(ns) && Plain(key) && '/' !in size
    ensures HasKey(sizes, size) && RootOf(memo, given).Ok? ==>
      var root := RootOf(memo, given).value;
      var file := FileOutcome(sizes, size, memo, given, ns, key);
      && file.Ok?
      && file.value == (if EndsWithSep(root) then root else root + "/") + "public" + WebPath(ns, key, size)
      && WebPath(ns, key, size) == "/system/" + ns + ("/" + key + "/" + Filename(size))
      && Dirname(file.value) == RecordDir(root, ns, key)
  {
    if HasKey(sizes, size) && RootOf(memo, given).Ok? {
      var root := RootOf(memo, given).value;
      assert !StartsWithSep(size) by {
        if size != "" { assert size[0] in size; }
      }
      FileLayout(root, ns, key, size);
      FileInRecordDir(root, ns, key, size);
    }
  }

  /** Model#tmp: the scratch copy of an upload, once the root is resolved. */
  function TmpOutcome(memo: Option<string>, given: Option<string>, ns: string, key: string): Result<string> {
    match RootOf(memo, given)
    case Err(e) => Err(e)
    case Ok(root) => Ok(TmpPath(root, ns, key))
  }

  /** Model#cmd(size) for a size of the table, as an argument vector. */
  function CmdOutcome(sizes: Table, size: string, memo: Option<string>, given: Option<string>,
                      ns: string, key: string): Result<seq<string>>
    requires HasKey(sizes, size)
  {
    match RootOf(memo, given)
    case Err(e) => Err(e)
    case Ok(root) => Ok(CommandLine(TmpPath(root, ns, key), Lookup(sizes, size).value, FilePath(root, ns, key, size)))
  }

  /**
   * Web#url(size), with the file path cut after root/public rather than at
   * the last "public" anywhere in it.
   */
  function WebUrlOutcome(sizes: Table, size: string, memo: Option<string>, given: Option<string>,
                         ns: string, key: string): Result<string>
  {
    match FileOutcome(sizes, size, memo, given, ns, key)
    case Err(e) => Err(e)
    case Ok(_) => Ok(WebPath(ns, key, size))
  }

  /**
   * The URL fails exactly when the file does, with the same error; the
   * file is root joined with "public" followed by the URL; and whenever the
   * namespace, key and size hold no "public", the URL is what the source's
   * split on "public" yields.
   */
  lemma WebUrlSpec(sizes: Table, size: string, memo: Option<string>, given: Option<string>, ns: string, key: string)
    ensures var url := WebUrlOutcome(sizes, size, memo, given, ns, key);
      var file := FileOutcome(sizes, size, memo, given, ns, key);
      && (url.Err? <==> file.Err?)
      && (url.Err? ==> url.error == file.error)
      && (url.Ok? ==> file.value == Join(RootOf(memo, given).value, PublicDir) + url.value)
    ensures var url := WebUrlOutcome(sizes, size, memo, given, ns, key);
      var file := FileOutcome(sizes, size, memo, given, ns, key);
      url.Ok? && Plain(ns) && Plain(key) && size != "" && '/' !in size &&
      !Contains(ns, PublicDir) && !Contains(key, PublicDir) && !Contains(size, PublicDir) ==>
        UrlAsWritten(file.value) == Some(url.value)
  {
    var url := WebUrlOutcome(sizes, size, memo, given, ns, key);
    if url.Ok? {
      var root := RootOf(memo, given).value;
      FileSplitsAtPublic(root, ns, key, size);
      if Plain(ns) && Plain(key) && size != "" && '/' !in size &&
         !Contains(ns, PublicDir) && !Contains(key, PublicDir) && !Contains(size, PublicDir) {
        UrlAsWrittenAgrees(root, ns, key, size);
      }
    }
  }

  // ----- save and delete on the filesystem -----

  /** The conversion commands of save, one per size in the order of the table. */
  function Commands(root: string, ns: string, key: string, sizes: Table): (cmds: seq<seq<string>>)
    ensures |cmds| == |sizes|
  {
    if sizes == [] then []
    else
      var c := CommandLine(TmpPath(root, ns, key), sizes[0].geometry, FilePath(root, ns, key, sizes[0].name));
      [c] + Commands(root, ns, key, sizes[1..])
  }

  /** The i-th command converts tmp to the file of the i-th size, with that size's geometry. */
  lemma {:induction false} CommandAt(root: string, ns: string, key: string, sizes: Table, i: int)
    requires 0 <= i < |sizes|
    ensures Commands(root, ns, key, sizes)[i] ==
      CommandLine(TmpPath(root, ns, key), sizes[i].geometry, FilePath(root, ns, key, sizes[i].name))
    decreases i
  {
    if i > 0 {
      CommandAt(root, ns, key, sizes[1..], i - 1);
    }
  }

  /** With a kept root, Model#cmd of the i-th size is the i-th conversion command. */
  lemma CommandOfSize(sizes: Table, i: int, root: string, given: Option<string>, ns: string, key: string)
    requires WellFormed(sizes) && 0 <= i < |sizes|
    ensures HasKey(sizes, sizes[i].name)
    ensures CmdOutcome(sizes, sizes[i].name, Some(root), given, ns, key) == Ok(Commands(root, ns, key, sizes)[i])
  {
    assert Keys(sizes)[i] == sizes[i].name;
    LookupAt(sizes, i);
    CommandAt(root, ns, key, sizes, i);
  }

  /**
   * The filesystem after Persistence#save with a resolved root: the upload
   * is written to tmp, every conversion runs, and tmp is removed.
   */
  function SavedFiles(files: Files, root: string, ns: string, key: string, sizes: Table,
                      data: Bytes, tool: Tool): Files
  {
    ConvertAll(files[TmpPath(root, ns, key) := data], Commands(root, ns, key, sizes), tool) - {TmpPath(root, ns, key)}
  }

  /** The files of two different sizes are different files. */
  lemma FilesOfSizesDiffer(root: string, ns: string, key: string, s1: string, s2: string)
    requires Plain(key) && '/' !in s1 && '/' !in s2 && s1 != s2
    ensures FilePath(root, ns, key, s1) != FilePath(root, ns, key, s2)
  {
    FileInRecordDir(root, ns, key, s1);
    FileInRecordDir(root, ns, key, s2);
    SuffixedDiffer(RecordDir(root, ns, key) + "/", s1, s2, ".png");
  }

  /** Two different names between the same prefix and suffix give different strings. */
  lemma SuffixedDiffer(d: string, s1: string, s2: string, ext: string)
    requires s1 != s2
    ensures d + (s1 + ext) != d + (s2 + ext)
  {
    var p1, p2 := d + (s1 + ext), d + (s2 + ext);
    if |s1| != |s2| {
      assert |p1| != |p2|;
    } else {
      var j :| 0 <= j < |s1| && s1[j] != s2[j];
      assert p1[|d| + j] == s1[j] && p2[|d| + j] == s2[j];
    }
  }

  /** The scratch copy is never the file of a size: one ends in 'p', the other in ".png". */
  lemma TmpIsNoSizeFile(root: string, ns: string, key: string, size: string)
    requires Plain(key) && '/' !in size
    ensures FilePath(root, ns, key, size) != TmpPath(root, ns, key)
  {
    FileInRecordDir(root, ns, key, size);
    TmpInRecordDir(root, ns, key);
    var f := FilePath(root, ns, key, size);
    var t := TmpPath(root, ns, key);
    assert f[|f| - 1] == 'g';
    assert t[|t| - 1] == 'p';
  }

  /** A name joined onto a directory lies under it. */
  lemma ChildIsUnder(dir: string, name: string)
    ensures Under(dir + "/" + name, dir)
  {
    var p := dir + "/" + name;
    assert p[..|dir|] == dir;
    assert p[|dir|] == '/';
  }

  /** The sizes hold no name with a separator when the custom sizes hold none. */
  lemma SizeNamesPlain(custom: Table)
    requires WellFormed(custom)
    requires forall k :: HasKey(custom, k) ==> '/' !in k
    ensures WellFormed(SizesOf(custom))
    ensures forall i :: 0 <= i < |SizesOf(custom)| ==> '/' !in SizesOf(custom)[i].name
  {
    SizesWellFormed(custom);
    SizesKeys(custom);
    assert '/' !in Original;
  }

  /**
   * Every conversion command reads the scratch copy and writes its size's
   * file, which is not the scratch copy, and no two write the same file.
   */
  lemma CommandsShape(root: string, ns: string, key: string, sizes: Table)
    requires Plain(key) && WellFormed(sizes)
    requires forall i :: 0 <= i < |sizes| ==> '/' !in sizes[i].name
    ensures forall i :: 0 <= i < |sizes| ==>
      var c := Commands(root, ns, key, sizes)[i];
      && |c| >= 2 && c[1] == TmpPath(root, ns, key)
      && Target(c) == FilePath(root, ns, key, sizes[i].name)
      && Target(c) != TmpPath(root, ns, key)
    ensures forall i, j :: 0 <= i < j < |sizes| ==>
      Target(Commands(root, ns, key, sizes)[i]) != Target(Commands(root, ns, key, sizes)[j])
  {
    var tmp := TmpPath(root, ns, key);
    var cmds := Commands(root, ns, key, sizes);
    forall i | 0 <= i < |sizes|
      ensures |cmds[i]| >= 2 && cmds[i][1] == tmp && Target(cmds[i]) == FilePath(root, ns, key, sizes[i].name)
      ensures Target(cmds[i]) != tmp
    {
      CommandAt(root, ns, key, sizes, i);
      CommandLineLayout(tmp, sizes[i].geometry, FilePath(root, ns, key, sizes[i].name));
      TmpIsNoSizeFile(root, ns, key, sizes[i].name);
    }
    forall i, j | 0 <= i < j < |sizes| ensures Target(cmds[i]) != Target(cmds[j]) {
      CommandAt(root, ns, key, sizes, i);
      CommandAt(root, ns, key, sizes, j);
      CommandLineLayout(tmp, sizes[i].geometry, FilePath(root, ns, key, sizes[i].name));
      CommandLineLayout(tmp, sizes[j].geometry, FilePath(root, ns, key, sizes[j].name));
      assert Keys(sizes)[i] != Keys(sizes)[j];
      FilesOfSizesDiffer(root, ns, key, sizes[i].name, sizes[j].name);
    }
  }

  /**
   * Persistence#save, for sizes whose names hold no separator: the scratch
   * copy is gone, every size whose conversion succeeds has its file with
   * the converted image, and every other path is as it was.
   */
  lemma SaveWritesEveryVariant(files: Files, root: string, ns: string, key: string, custom: Table,
                               data: Bytes, tool: Tool)
    requires Plain(key) && WellFormed(custom)
    requires forall k :: HasKey(custom, k) ==> '/' !in k
    ensures var sizes := SizesOf(custom);
      var cmds := Commands(root, ns, key, sizes);
      var saved := SavedFiles(files, root, ns, key, sizes, data, tool);
      && TmpPath(root, ns, key) !in saved
      && (forall i :: 0 <= i < |sizes| && tool(data, cmds[i]).Some? ==>
            FilePath(root, ns, key, sizes[i].name) in saved &&
            saved[FilePath(root, ns, key, sizes[i].name)] == tool(data, cmds[i]).value)
      && (forall p :: (p != TmpPath(root, ns, key) &&
                       forall i :: 0 <= i < |sizes| ==> p != FilePath(root, ns, key, sizes[i].name)) ==>
            (p in saved <==> p in files) && (p in saved ==> saved[p] == files[p]))
  {
    var sizes := SizesOf(custom);
    SizeNamesPlain(custom);
    CommandsShape(root, ns, key, sizes);
    ConvertFromScratch(files, TmpPath(root, ns, key), data, Commands(root, ns, key, sizes), tool);
  }

  /**
   * Deleting after saving leaves the filesystem as deleting alone would:
   * save writes nothing outside the record directory.
   */
  lemma SaveThenDelete(files: Files, root: string, ns: string, key: string, custom: Table,
                       data: Bytes, tool: Tool)
    requires Plain(key) && WellFormed(custom)
    requires forall k :: HasKey(custom, k) ==> '/' !in k
    ensures var dir := RecordDir(root, ns, key);
      WithoutTree(SavedFiles(files, root, ns, key, SizesOf(custom), data, tool), dir) == WithoutTree(files, dir)
  {
    var sizes := SizesOf(custom);
    var dir := RecordDir(root, ns, key);
    var saved := SavedFiles(files, root, ns, key, sizes, data, tool);
    SaveWritesEveryVariant(files, root, ns, key, custom, data, tool);
    SizeNamesPlain(custom);
    forall p | !Under(p, dir) ensures (p in saved <==> p in files) && (p in saved ==> saved[p] == files[p]) {
      OutsideRecordDir(root, ns, key, sizes, p);
    }
    WithoutTreeAgrees(saved, files, dir);
  }

  /** A path outside the record directory is neither the scratch copy nor the file of a size. */
  lemma OutsideRecordDir(root: string, ns: string, key: string, sizes: Table, p: string)
    requires Plain(key)
    requires forall i :: 0 <= i < |sizes| ==> '/' !in sizes[i].name
    requires !Under(p, RecordDir(root, ns, key))
    ensures p != TmpPath(root, ns, key)
    ensures forall i :: 0 <= i < |sizes| ==> p != FilePath(root, ns, key, sizes[i].name)
  {
    var dir := RecordDir(root, ns, key);
    TmpInRecordDir(root, ns, key);
    ChildIsUnder(dir, TmpName);
    forall i | 0 <= i < |sizes| ensures p != FilePath(root, ns, key, sizes[i].name) {
      FileInRecordDir(root, ns, key, sizes[i].name);
      ChildIsUnder(dir, Filename(sizes[i].name));
    }
  }

  /**
   * Persistence#delete removes the directory of the default file, which is
   * the record directory: no file of any size and no scratch copy is left,
   * and nothing outside the record directory changes.
   */
  lemma DeleteClearsRecord(files: Files, root: string, ns: string, key: string, size: string)
    requires Plain(key) && '/' !in size
    ensures var dir := RecordDir(root, ns, key);
      var left := WithoutTree(files, Dirname(FilePath(root, ns, key, size)));
      && (forall s :: '/' !in s ==> FilePath(root, ns, key, s) !in left)
      && TmpPath(root, ns, key) !in left
      && (forall p :: !Under(p, dir) ==> (p in left <==> p in files) && (p in left ==> left[p] == files[p]))
  {
    var dir := RecordDir(root, ns, key);
    FileInRecordDir(root, ns, key, size);
    forall s | '/' !in s ensures Under(FilePath(root, ns, key, s), dir) {
      FileInRecordDir(root, ns, key, s);
      ChildIsUnder(dir, Filename(s));
    }
    TmpInRecordDir(root, ns, key);
    ChildIsUnder(dir, TmpName);
  }

  /** What a gateway loop returns: the error that ended it, or true. */
  function Returned(run: S3.Run): Result<bool> {
    if run.error.Some? then Err(run.error.value) else Ok(true)
  }

  // ----- the model object -----

  /**
   * One record's images. `s3` is the class-level S3 configuration when the
   * class includes Imagery::S3, `faking` the class-level fake-mode switch
   * when it includes Imagery::Faking, and `withMissing` tells whether
   * Imagery::Missing is in effect.
   */
  class Model {
    const key: string
    const namespace: string
    var custom: Table
    var defaultSize: string
    var root: Option<string>
    var existing: Option<string>
    const withMissing: bool
    const s3: S3.Config?
    const faking: Faking.ModeSwitch?

    /**
     * Model.new(model, key, namespace): the namespace defaults to the one
     * derived from the class name; no custom sizes; :original is the
     * default size.
     */
    constructor(key: string, namespace: Option<string>, className: string,
                withMissing: bool, s3: S3.Config?, faking: Faking.ModeSwitch?)
      requires namespace.Some? || NamespaceFor(className).Some?
      ensures this.key == key
      ensures this.namespace == if namespace.Some? then namespace.value else NamespaceFor(className).value
      ensures custom == [] && defaultSize == Original && root == None && existing == None
      ensures Valid()
      ensures Sizes() == DefaultSizes
      ensures this.withMissing == withMissing && this.s3 == s3 && this.faking == faking
    {
      this.key := key;
      this.namespace := if namespace.Some? then namespace.value else NamespaceFor(className).value;
      custom := [];
      defaultSize := Original;
      root := None;
      existing := None;
      this.withMissing := withMissing;
      this.s3 := s3;
      this.faking := faking;
      SizesOfNone();
    }

    /** Every table the source builds is a Ruby hash: no size appears twice. */
    ghost predicate Valid()
      reads this`custom
    {
      WellFormed(custom)
    }

    /** Model#sizes: the custom sizes merged with the built-in ones. */
    function Sizes(): Table
      reads this`custom
    {
      SizesOf(custom)
    }

    /** The writer sizes=. */
    method SetSizes(t: Table)
      requires WellFormed(t)
      modifies this
      ensures custom == t && defaultSize == old(defaultSize) && root == old(root) && existing == old(existing)
    {
      custom := t;
    }

    /** The writer root=, which may also store nil. */
    method SetRoot(r: Option<string>)
      modifies this
      ensures root == r && custom == old(custom) && defaultSize == old(defaultSize) && existing == old(existing)
    {
      root := r;
    }

    /** The writer default_size=. */
    method SetDefaultSize(size: string)
      modifies this
      ensures defaultSize == size && custom == old(custom) && root == old(root) && existing == old(existing)
    {
      defaultSize := size;
    }

    /** The writer existing= of Imagery::Missing. */
    method SetExisting(e: Option<string>)
      modifies this
      ensures existing == e && custom == old(custom) && defaultSize == old(defaultSize) && root == old(root)
    {
      existing := e;
    }

    /** Model#root with ROOT_DIR as `given`. */
    method Root(given: Option<string>) returns (r: Result<string>)
      modifies this
      ensures r == RootOf(old(root), given) && root == RootAfter(old(root), given)
      ensures custom == old(custom) && defaultSize == old(defaultSize) && existing == old(existing)
    {
      if given.Some? && root.None? {
        root := given;
      }
      r := if root.Some? then Ok(root.value) else Err(UndefinedRoot);
    }

    /** Model#file(size); the no-argument form passes defaultSize. */
    method File(size: string, given: Option<string>) returns (r: Result<string>)
      modifies this
      ensures r == FileOutcome(Sizes(), size, old(root), given, namespace, key)
      ensures root == FileMemo(Sizes(), size, old(root), given)
      ensures custom == old(custom) && defaultSize == old(defaultSize) && existing == old(existing)
    {
      if !HasKey(Sizes(), size) {
        return Err(UnknownSize(size));
      }
      var base := Root(given);
      match base {
        case Err(e) => r := Err(e);
        case Ok(b) => r := Ok(JoinAll(b, [Directory, namespace, key, Filename(size)]));
      }
    }

    /** Model#tmp. */
    method Tmp(given: Option<string>) returns (r: Result<string>)
      modifies this
      ensures r == TmpOutcome(old(root), given, namespace, key) && root == RootAfter(old(root), given)
      ensures custom == old(custom) && defaultSize == old(defaultSize) && existing == old(existing)
    {
      var base := Root(given);
      match base {
        case Err(e) => r := Err(e);
        case Ok(b) => r := Ok(JoinAll(b, [Directory, namespace, key, TmpName]));
      }
    }

    /** Model#cmd(size): the geometry and extent come from the size's entry. */
    method Cmd(size: string, given: Option<string>) returns (r: Result<seq<string>>)
      requires HasKey(Sizes(), size)
      modifies this
      ensures custom == old(custom) && defaultSize == old(defaultSize) && existing == old(existing)
      ensures r == CmdOutcome(Sizes(), size, old(root), given, namespace, key)
      ensures root == RootAfter(old(root), given)
    {
      var g := Lookup(Sizes(), size).value;
      var t := Tmp(given);
      if t.Err? {
        return Err(t.error);
      }
      var f := File(size, given);
      var argv := BuildCommand(t.value, g, f.value);
      r := Ok(argv);
    }

    /** Web#url(size), cutting the file after root/public. */
    method WebUrl(size: string, given: Option<string>) returns (r: Result<string>)
      modifies this
      ensures r == WebUrlOutcome(Sizes(), size, old(root), given, namespace, key)
      ensures root == FileMemo(Sizes(), size, old(root), given)
      ensures custom == old(custom) && defaultSize == old(defaultSize) && existing == old(existing)
    {
      var f := File(size, given);
      match f {
        case Err(e) => r := Err(e);
        case Ok(p) =>
          var b := root.value;
          FileSplitsAtPublic(b, namespace, key, size);
          r := Ok(p[|Join(b, PublicDir)|..]);
      }
    }

    /**
     * Model#url(size) with every layer in place: S3#url when the class
     * includes Imagery::S3, otherwise Missing#url over Web#url when
     * Imagery::Missing is in effect, otherwise Web#url.
     */
    method Url(size: string, given: Option<string>) returns (r: Result<string>)
      modifies this
      ensures s3 != null ==>
        r == S3.PublicUrl(s3.domain, S3.HostOf(s3.host), s3.bucket, namespace, key, size) && root == old(root)
      ensures s3 == null && withMissing ==>
        r == MissingUrl(existing, namespace, size, WebUrlOutcome(Sizes(), size, old(root), given, namespace, key))
      ensures s3 == null && withMissing && IsMissing(existing) ==> root == old(root)
      ensures s3 == null && !withMissing ==> r == WebUrlOutcome(Sizes(), size, old(root), given, namespace, key)
      ensures s3 == null && !(withMissing && IsMissing(existing)) ==> root == FileMemo(Sizes(), size, old(root), given)
      ensures custom == old(custom) && defaultSize == old(defaultSize) && existing == old(existing)
    {
      if s3 != null {
        var domain := s3.domain;
        if domain.Some? {
          r := Ok(ArrayJoin([domain.value, namespace, key, Filename(size)], "/"));
        } else {
          var bucket := S3.BucketOf(s3.bucket);
          match bucket {
            case Err(e) => r := Err(e);
            case Ok(b) => r := Ok(ArrayJoin([S3.HostOf(s3.host), b, namespace, key, Filename(size)], "/"));
          }
        }
      } else if withMissing && IsMissing(existing) {
        r := Ok(MissingPath(namespace, size));
      } else {
        r := WebUrl(size, given);
      }
    }

    /** Model#convert(size): the command of the size runs; its exit status is not looked at. */
    method Convert(disk: Disk, tool: Tool, size: string, given: Option<string>, ghost i: nat)
      requires Valid() && root.Some? && i < |Sizes()| && size == Sizes()[i].name
      modifies this, disk
      ensures root == old(root)
      ensures custom == old(custom) && defaultSize == old(defaultSize) && existing == old(existing)
      ensures disk.files == Executed(old(disk.files), Commands(root.value, namespace, key, Sizes())[i], tool)
    {
      SizesWellFormed(custom);
      CommandOfSize(Sizes(), i, root.value, given, namespace, key);
      var c := Cmd(size, given);
      disk.Execute(c.value, tool);
    }

    /**
     * sizes.keys.each { |size| convert(size) }, with the root already
     * resolved: each size's command runs, in the order of the table.
     */
    method ConvertSizes(disk: Disk, tool: Tool, given: Option<string>)
      requires Valid()
      requires root.Some?
      modifies this, disk
      ensures root == old(root)
      ensures custom == old(custom) && defaultSize == old(defaultSize) && existing == old(existing)
      ensures disk.files == ConvertAll(old(disk.files), Commands(root.value, namespace, key, Sizes()), tool)
    {
      var sizes := Sizes();
      ghost var start := disk.files;
      ghost var cmds := Commands(root.value, namespace, key, sizes);
      var i := 0;
      while i < |sizes|
        invariant 0 <= i <= |sizes|
        invariant root == old(root) && custom == old(custom)
        invariant defaultSize == old(defaultSize) && existing == old(existing)
        invariant disk.files == ConvertFirst(start, cmds, i, tool)
      {
        Convert(disk, tool, sizes[i].name, given, i);
        i := i + 1;
      }
    }

    /**
     * Persistence#save: the upload goes to tmp, each size is converted
     * from it in the order of the table, and tmp is removed. Directories
     * are implicit in the filesystem.
     */
    method PersistSave(data: Bytes, disk: Disk, tool: Tool, given: Option<string>) returns (r: Result<bool>)
      requires Valid()
      modifies this, disk
      ensures root == RootAfter(old(root), given)
      ensures custom == old(custom) && defaultSize == old(defaultSize) && existing == old(existing)
      ensures match RootOf(old(root), given)
        case Err(e) => r == Err(e) && disk.files == old(disk.files)
        case Ok(b) => r == Ok(true) && disk.files == SavedFiles(old(disk.files), b, namespace, key, Sizes(), data, tool)
    {
      var t := Tmp(given);
      if t.Err? {
        return Err(t.error);
      }
      var tmp := t.value;
      disk.Write(tmp, data);
      ghost var written := disk.files;
      ConvertSizes(disk, tool, given);
      ConvertFirstKeeps(written, Commands(root.value, namespace, key, Sizes()), |Sizes()|, tool, tmp);
      disk.Remove(tmp);
      r := Ok(true);
    }

    /** Whether the class includes Imagery::Faking and its mode is :fake. */
    predicate IsFaked()
      reads faking
    {
      faking != null && faking.mode == Some(Faking.Fake)
    }

    /** Faking#save over Persistence#save: in fake mode it returns at once and touches nothing. */
    method FakeableSave(data: Bytes, disk: Disk, tool: Tool, given: Option<string>) returns (r: Result<bool>)
      requires Valid()
      modifies this, disk
      ensures custom == old(custom) && defaultSize == old(defaultSize) && existing == old(existing)
      ensures IsFaked() ==> r == Ok(true) && disk.files == old(disk.files) && root == old(root)
      ensures !IsFaked() ==> root == RootAfter(old(root), given)
      ensures !IsFaked() ==> match RootOf(old(root), given)
        case Err(e) => r == Err(e) && disk.files == old(disk.files)
        case Ok(b) => r == Ok(true) && disk.files == SavedFiles(old(disk.files), b, namespace, key, Sizes(), data, tool)
    {
      if faking != null && faking.mode == Some(Faking.Fake) {
        return Ok(true);
      }
      r := PersistSave(data, disk, tool, given);
    }

    /**
     * One pass of the upload loop of S3#save, once the root is kept: the
     * size's file (which Model#file then finds without touching the record)
     * is opened, the bucket read, and the file stored at the gateway under
     * its object key.
     */
    method UploadOne(disk: Disk, gateway: S3.Gateway, k: S3.ObjectKey) returns (r: Result<bool>)
      requires root.Some? && s3 != null
      modifies gateway
      ensures var u := S3.UploadOf(k, root.value, namespace, key, disk.files, s3.bucket);
        && (u.Err? ==> r == Err(u.error) && gateway.calls == old(gateway.calls))
        && (u.Ok? ==> r == Ok(true) && gateway.calls == old(gateway.calls) + [u.value])
    {
      var body := disk.Read(FilePath(root.value, namespace, key, k.size));
      if body.Err? {
        return Err(body.error);
      }
      var bucket := S3.BucketOf(s3.bucket);
      if bucket.Err? {
        return Err(bucket.error);
      }
      gateway.Store(k.path, body.value, bucket.value, S3.PublicRead, S3.PngType);
      r := Ok(true);
    }

    /**
     * The upload loop of S3#save over given object keys, with the root
     * kept: `passes` holds what each pass does, and the loop stops at the
     * first pass that raises.
     */
    method UploadEach(disk: Disk, gateway: S3.Gateway, keys: seq<S3.ObjectKey>,
                      ghost passes: seq<Result<S3.GatewayCall>>) returns (r: Result<bool>)
      requires root.Some? && s3 != null && |passes| == |keys|
      requires forall j {:trigger keys[j]} :: 0 <= j < |keys| ==>
        passes[j] == S3.UploadOf(keys[j], root.value, namespace, key, disk.files, s3.bucket)
      modifies gateway
      ensures var run := S3.RunFirst(passes, |keys|);
        gateway.calls == old(gateway.calls) + run.calls && r == Returned(run)
    {
      ghost var calls0 := gateway.calls;
      var i := 0;
      while i < |keys|
        invariant 0 <= i <= |keys|
        invariant var done := S3.RunFirst(passes, i);
          done.error == None && gateway.calls == calls0 + done.calls
      {
        r := UploadOne(disk, gateway, keys[i]);
        if r.Err? {
          S3.RunFails(passes, i);
          return;
        }
        S3.RunStep(calls0, passes, i);
        i := i + 1;
      }
      r := Ok(true);
    }

    /**
     * S3#save's uploads: for each size, in the order of the table, its file
     * is stored at the gateway, until one pass fails. The table is never
     * empty, so the first pass resolves the root before anything is stored;
     * here it is resolved once up front, to the same effect.
     */
    method Upload(disk: Disk, gateway: S3.Gateway, given: Option<string>) returns (r: Result<bool>)
      requires Valid() && s3 != null
      modifies this, gateway
      ensures root == RootAfter(old(root), given)
      ensures custom == old(custom) && defaultSize == old(defaultSize) && existing == old(existing)
      ensures match RootOf(old(root), given)
        case Err(e) => r == Err(e) && gateway.calls == old(gateway.calls)
        case Ok(b) =>
          var run := S3.Uploads(S3.ObjectKeys(Sizes(), namespace, key), b, namespace, key, disk.files, s3.bucket);
          gateway.calls == old(gateway.calls) + run.calls && r == Returned(run)
    {
      var base := Root(given);
      if base.Err? {
        return Err(base.error);
      }
      var sizes := Sizes();
      var keys := S3.ObjectKeys(sizes, namespace, key);
      ghost var passes := S3.UploadPasses(keys, base.value, namespace, key, disk.files, s3.bucket);
      forall j | 0 <= j < |keys|
        ensures passes[j] == S3.UploadOf(keys[j], base.value, namespace, key, disk.files, s3.bucket)
      {
        S3.UploadPassAt(keys, base.value, namespace, key, disk.files, s3.bucket, j);
      }
      r := UploadEach(disk, gateway, keys, passes);
    }

    /**
     * Model#save with every layer in place: Faking#save over
     * Persistence#save, followed, when the class includes Imagery::S3, by
     * the uploads of S3#save.
     */
    method Save(data: Bytes, disk: Disk, gateway: S3.Gateway, tool: Tool, given: Option<string>) returns (r: Result<bool>)
      requires Valid()
      modifies this, disk, gateway
      ensures custom == old(custom) && defaultSize == old(defaultSize) && existing == old(existing)
      ensures s3 == null ==> gateway.calls == old(gateway.calls)
      ensures s3 == null && IsFaked() ==> r == Ok(true) && disk.files == old(disk.files) && root == old(root)
      ensures s3 != null || !IsFaked() ==> root == RootAfter(old(root), given)
      ensures match RootOf(old(root), given)
        case Err(e) => (s3 != null || !IsFaked()) ==>
          r == Err(e) && disk.files == old(disk.files) && gateway.calls == old(gateway.calls)
        case Ok(b) =>
          var files := if IsFaked() then old(disk.files) else SavedFiles(old(disk.files), b, namespace, key, Sizes(), data, tool);
          && disk.files == files
          && (s3 == null ==> r == Ok(true))
          && (s3 != null ==>
                var run := S3.Uploads(S3.ObjectKeys(Sizes(), namespace, key), b, namespace, key, files, s3.bucket);
                gateway.calls == old(gateway.calls) + run.calls && r == Returned(run))
    {
      r := FakeableSave(data, disk, tool, given);
      if s3 != null && r.Ok? {
        r := Upload(disk, gateway, given);
      }
    }

    /** Persistence#delete: the directory of the default size's file goes, with everything in it. */
    method PersistDelete(disk: Disk, given: Option<string>) returns (r: Result<bool>)
      modifies this, disk
      ensures root == FileMemo(Sizes(), defaultSize, old(root), given)
      ensures custom == old(custom) && defaultSize == old(defaultSize) && existing == old(existing)
      ensures match FileOutcome(Sizes(), defaultSize, old(root), given, namespace, key)
        case Err(e) => r == Err(e) && disk.files == old(disk.files)
        case Ok(p) => r == Ok(true) && disk.files == WithoutTree(old(disk.files), Dirname(p))
    {
      var f := File(defaultSize, given);
      if f.Err? {
        return Err(f.error);
      }
      disk.RemoveTree(Dirname(f.value));
      r := Ok(true);
    }

    /** The delete loop of S3#delete: one gateway delete per size, each reading the bucket. */
    method DeleteObjects(gateway: S3.Gateway) returns (r: Result<bool>)
      requires s3 != null
      modifies gateway
      ensures var run := S3.Deletions(S3.ObjectKeys(Sizes(), namespace, key), s3.bucket);
        gateway.calls == old(gateway.calls) + run.calls && r == Returned(run)
    {
      var keys := S3.ObjectKeys(Sizes(), namespace, key);
      ghost var calls0 := gateway.calls;
      ghost var passes := S3.DeletePasses(keys, s3.bucket);
      var i := 0;
      while i < |keys|
        invariant 0 <= i <= |keys|
        invariant var done := S3.RunFirst(passes, i);
          done.error == None && gateway.calls == calls0 + done.calls
      {
        S3.DeletePassAt(keys, s3.bucket, i);
        var bucket := S3.BucketOf(s3.bucket);
        if bucket.Err? {
          S3.RunStop(passes, i + 1, |keys|);
          return Err(bucket.error);
        }
        gateway.Delete(keys[i].path, bucket.value);
        S3.RunStep(calls0, passes, i);
        i := i + 1;
      }
      r := Ok(true);
    }

    /**
     * Model#delete with every layer in place: Persistence#delete, then,
     * when the class includes Imagery::S3, the deletes of S3#delete.
     */
    method Delete(disk: Disk, gateway: S3.Gateway, given: Option<string>) returns (r: Result<bool>)
      modifies this, disk, gateway
      ensures root == FileMemo(Sizes(), defaultSize, old(root), given)
      ensures custom == old(custom) && defaultSize == old(defaultSize) && existing == old(existing)
      ensures match FileOutcome(Sizes(), defaultSize, old(root), given, namespace, key)
        case Err(e) => r == Err(e) && disk.files == old(disk.files) && gateway.calls == old(gateway.calls)
        case Ok(p) =>
          && disk.files == WithoutTree(old(disk.files), Dirname(p))
          && (s3 == null ==> r == Ok(true) && gateway.calls == old(gateway.calls))
          && (s3 != null ==>
                var run := S3.Deletions(S3.ObjectKeys(Sizes(), namespace, key), s3.bucket);
                gateway.calls == old(gateway.calls) + run.calls && r == Returned(run))
    {
      r := PersistDelete(disk, given);
      if s3 != null && r.Ok? {
        r := DeleteObjects(gateway);
      }
    }
  }
}
