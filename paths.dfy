/**
 * Where the files of an asset record live and what URL they are served
 * under: the record directory `root/public/system/<namespace>/<key>`, one
 * `<size>.png` per size inside it, the upload's scratch copy `tmp` beside
 * them, and the web path obtained from the file path.
 */
module Paths {
  import opened Outcomes
  import opened RubyStrings

  const PublicDir := "public"
  /** Model's @@directory: the asset tree below the application root. */
  const Directory := "public/system"
  const TmpName := "tmp"

  /** Model#filename: "%s.png" % size. */
  function Filename(size: string): string {
    size + ".png"
  }

  /** Model#namespace_for: the last `::` component of the class name, downcased; None stands for nil. */
  function NamespaceFor(className: string): (r: Option<string>)
    ensures className == "" ==> r.None?
    ensures r.Some? ==> r.value != ""
    ensures r.Some? ==> forall i :: 0 <= i < |r.value| ==> !('A' <= r.value[i] <= 'Z')
  {
    match SplitLast(className, "::")
    case None => None
    case Some(last) => Some(Downcase(last))
  }

  /** A top-level class is named after itself. */
  lemma NamespaceOfTopLevel(name: string)
    requires name != "" && !Contains(name, "::")
    ensures NamespaceFor(name) == Some(Downcase(name))
  {
    SplitLastWhole(name, "::");
  }

  /** A class nested in `outer` is named after its own last component. */
  lemma NamespaceOfNested(outer: string, name: string)
    requires outer != "" && outer[|outer| - 1] != ':'
    requires name != "" && name[0] != ':' && !Contains(name, "::")
    ensures NamespaceFor(outer + "::" + name) == Some(Downcase(name))
  {
    var s := outer + "::" + name;
    var k := |outer|;
    forall j | k - 2 < j < k + 2 && j != k ensures !OccursAt(s, "::", j) {
      if j == k - 1 {
        assert s[j] == outer[k - 1];
        if j + 2 <= |s| {
          assert s[j..j + 2][0] == s[j];
        }
      } else if j == k + 1 {
        assert s[k + 2] == name[0];
        if j + 2 <= |s| {
          assert s[j..j + 2][1] == s[k + 2];
        }
      }
    }
    LastPieceAfter(outer, "::", name);
  }

  /** The directory holding every file of the record: root/public/system/<namespace>/<key>. */
  function RecordDir(root: string, ns: string, key: string): string {
    JoinAll(root, [Directory, ns, key])
  }

  /** Model#file(size) once the size is known and the root resolved: root_path(directory, namespace, key, filename(size)). */
  function FilePath(root: string, ns: string, key: string, size: string): string {
    JoinAll(root, [Directory, ns, key, Filename(size)])
  }

  /** Model#tmp once the root is resolved: root_path(directory, namespace, key, 'tmp'). */
  function TmpPath(root: string, ns: string, key: string): string {
    JoinAll(root, [Directory, ns, key, TmpName])
  }

  /** Web#url as written: file(size).split('public').last; None stands for nil. */
  function UrlAsWritten(file: string): Option<string> {
    SplitLast(file, PublicDir)
  }

  /** The URL path the file is served under: what follows root/public in the file path. */
  function WebPath(ns: string, key: string, size: string): string {
    JoinAll("/system", [ns, key, Filename(size)])
  }

  /** A path component without a separator at either end. */
  predicate Plain(s: string) {
    |s| > 0 && s[0] != '/' && s[|s| - 1] != '/'
  }

  /** A component that does not start with '/' is joined with a single '/' onto a path that does not end in one. */
  lemma JoinPlain(a: string, b: string)
    requires |a| > 0 && a[|a| - 1] != '/' && !StartsWithSep(b)
    ensures Join(a, b) == a + "/" + b
  {
  }

  /** Joining a plain component onto such a path gives one again. */
  lemma {:induction false} JoinPlainStep(a: string, b: string)
    requires |a| > 0 && !EndsWithSep(a) && Plain(b)
    ensures Join(a, b) == a + "/" + b
    ensures |a + "/" + b| > 0 && !EndsWithSep(a + "/" + b)
  {
    var r := a + "/" + b;
    assert r[|r| - 1] == b[|b| - 1];
  }

  /** Every file path is root joined with "public", followed by the web path. */
  lemma FileSplitsAtPublic(root: string, ns: string, key: string, size: string)
    ensures FilePath(root, ns, key, size) == Join(root, PublicDir) + WebPath(ns, key, size)
  {
    var parts := [ns, key, Filename(size)];
    var pub := Join(root, PublicDir);
    assert Join(root, Directory) == pub + "/system";
    assert [Directory, ns, key, Filename(size)][1..] == parts;
    JoinAllUnderPrefix(pub, "/system", parts, 1);
  }

  /** A size that does not start with '/' has a plain file name. */
  lemma FilenamePlain(size: string)
    requires !StartsWithSep(size)
    ensures Plain(Filename(size))
  {
    var f := Filename(size);
    assert f[|f| - 1] == 'g';
    if size == "" {
      assert f == ".png";
    } else {
      assert f[0] == size[0];
    }
  }

  /** The web path of plain components, as the joins build it, regrouped. */
  lemma WebPathRegroup(ns: string, key: string, f: string)
    ensures "/system" + "/" + ns + "/" + key + "/" + f == "/system/" + ns + ("/" + key + "/" + f)
  {
    assert "/system" + "/" == "/system/";
  }

  /** With plain components the web path is /system/<ns>/<key>/<size>.png. */
  lemma {:induction false} WebPathLayout(ns: string, key: string, size: string)
    requires Plain(ns) && Plain(key) && !StartsWithSep(size)
    ensures WebPath(ns, key, size) == "/system/" + ns + ("/" + key + "/" + Filename(size))
  {
    var f := Filename(size);
    FilenamePlain(size);
    JoinAllThree("/system", ns, key, f);
    var a := "/system" + "/" + ns;
    JoinPlainStep("/system", ns);
    var b := a + "/" + key;
    JoinPlainStep(a, key);
    JoinPlainStep(b, f);
    WebPathRegroup(ns, key, f);
  }

  /**
   * The file of a size is root/public/system/<ns>/<key>/<size>.png, with a
   * single separator after a root that already ends in one (such as "/").
   */
  lemma FileLayout(root: string, ns: string, key: string, size: string)
    requires Plain(ns) && Plain(key) && !StartsWithSep(size)
    ensures FilePath(root, ns, key, size) ==
      (if EndsWithSep(root) then root else root + "/") + "public" + WebPath(ns, key, size)
    ensures WebPath(ns, key, size) == "/system/" + ns + ("/" + key + "/" + Filename(size))
  {
    FileSplitsAtPublic(root, ns, key, size);
    WebPathLayout(ns, key, size);
  }

  /** The record directory ends with the key. */
  lemma RecordDirEndsWithKey(root: string, ns: string, key: string)
    requires Plain(key)
    ensures RecordDir(root, ns, key) != ""
    ensures !EndsWithSep(RecordDir(root, ns, key))
  {
    assert [Directory, ns] + [key] == [Directory, ns, key];
    JoinAllSnoc(root, [Directory, ns], key);
  }

  /** Joining a name onto the record path joins it onto the record directory. */
  lemma JoinOntoRecordDir(root: string, ns: string, key: string, name: string)
    ensures JoinAll(root, [Directory, ns, key, name]) == Join(RecordDir(root, ns, key), name)
  {
    assert [Directory, ns, key] + [name] == [Directory, ns, key, name];
    JoinAllSnoc(root, [Directory, ns, key], name);
  }

  /** A plain name joined onto the record path lies directly in the record directory. */
  lemma ChildOfRecordDir(root: string, ns: string, key: string, name: string)
    requires Plain(key) && name != "" && '/' !in name
    ensures JoinAll(root, [Directory, ns, key, name]) == RecordDir(root, ns, key) + "/" + name
    ensures Dirname(JoinAll(root, [Directory, ns, key, name])) == RecordDir(root, ns, key)
  {
    var dir := RecordDir(root, ns, key);
    JoinOntoRecordDir(root, ns, key, name);
    RecordDirEndsWithKey(root, ns, key);
    JoinPlain(dir, name);
    DirnameOfChild(dir, name);
  }

  /** The file of a size sits directly in the record directory. */
  lemma FileInRecordDir(root: string, ns: string, key: string, size: string)
    requires Plain(key) && '/' !in size
    ensures FilePath(root, ns, key, size) == RecordDir(root, ns, key) + "/" + Filename(size)
    ensures Dirname(FilePath(root, ns, key, size)) == RecordDir(root, ns, key)
  {
    var f := Filename(size);
    assert '/' !in f by {
      assert forall j :: 0 <= j < |f| ==> f[j] == if j < |size| then size[j] else ".png"[j - |size|];
    }
    ChildOfRecordDir(root, ns, key, f);
  }

  /** The scratch copy of an upload sits directly in the record directory, beside the files. */
  lemma TmpInRecordDir(root: string, ns: string, key: string)
    requires Plain(key)
    ensures TmpPath(root, ns, key) == RecordDir(root, ns, key) + "/" + TmpName
    ensures Dirname(TmpPath(root, ns, key)) == RecordDir(root, ns, key)
  {
    ChildOfRecordDir(root, ns, key, TmpName);
  }

  /**
   * Two occurrences of "public" are at least six characters apart, since
   * its first letter appears in it only once.
   */
  lemma PublicApart(s: string, k: int)
    requires OccursAt(s, PublicDir, k)
    ensures forall j :: k - 6 < j < k + 6 && j != k ==> !OccursAt(s, PublicDir, j)
  {
    forall j | k - 6 < j < k + 6 && j != k ensures !OccursAt(s, PublicDir, j) {
      if 0 <= j && j + 6 <= |s| {
        if j < k {
          assert s[j..j + 6][k - j] == s[k] == 'p';
        } else {
          assert s[j..j + 6][0] == s[j] == PublicDir[j - k];
        }
      }
    }
  }

  /** split('public').last is what follows the last "public", when that is not empty. */
  lemma AfterLastPublic(x: string, c: string)
    requires c != "" && !Contains(c, PublicDir)
    ensures UrlAsWritten(x + PublicDir + c) == Some(c)
  {
    var s := x + PublicDir + c;
    assert s[|x|..|x| + 6] == PublicDir;
    PublicApart(s, |x|);
    LastPieceAfter(x, PublicDir, c);
  }

  /** "public" does not occur in `/<key>/<size>.png` when it occurs in neither the key nor the size. */
  lemma NoPublicInTail(key: string, size: string)
    requires !Contains(key, PublicDir) && !Contains(size, PublicDir)
    ensures !Contains("/" + key + "/" + Filename(size), PublicDir)
  {
    NoHead("", PublicDir);
    NotSame("png", PublicDir);
    NotAcross(size, '.', "png", PublicDir);
    assert Filename(size) == size + ['.'] + "png";
    NotAcross(key, '/', Filename(size), PublicDir);
    NotAcross("", '/', key + ['/'] + Filename(size), PublicDir);
    assert "/" + key + "/" + Filename(size) == "" + ['/'] + (key + ['/'] + Filename(size));
  }

  /** "public" does not occur in the web path when it occurs in none of the components. */
  lemma NoPublicInWebPath(ns: string, key: string, size: string)
    requires !Contains(ns, PublicDir) && !Contains(key, PublicDir) && !Contains(size, PublicDir)
    ensures !Contains("/system/" + ns + ("/" + key + "/" + Filename(size)), PublicDir)
  {
    var c := "/" + key + "/" + Filename(size);
    NoPublicInTail(key, size);
    NoHead("/system", PublicDir);
    assert c == "" + ['/'] + (key + "/" + Filename(size));
    assert !Contains(key + "/" + Filename(size), PublicDir) by {
      OccursShift(c, PublicDir, 1, 0);
      forall i ensures !OccursAt(key + "/" + Filename(size), PublicDir, i) {
        OccursShift(c, PublicDir, 1, i);
      }
    }
    NotAcross(ns, '/', key + "/" + Filename(size), PublicDir);
    assert ns + c == ns + ['/'] + (key + "/" + Filename(size));
    NotAcross("/system", '/', ns + c, PublicDir);
    assert "/system/" + ns + c == "/system" + ['/'] + (ns + c);
  }

  /**
   * Splitting on "public" gives the web path whenever neither the
   * namespace, the key nor the size contains "public"; the root may.
   */
  lemma UrlAsWrittenAgrees(root: string, ns: string, key: string, size: string)
    requires Plain(ns) && Plain(key) && !StartsWithSep(size)
    requires !Contains(ns, PublicDir) && !Contains(key, PublicDir) && !Contains(size, PublicDir)
    ensures UrlAsWritten(FilePath(root, ns, key, size)) == Some(WebPath(ns, key, size))
  {
    var x := if EndsWithSep(root) then root else root + "/";
    FileLayout(root, ns, key, size);
    NoPublicInWebPath(ns, key, size);
    AfterLastPublic(x, WebPath(ns, key, size));
  }

  /** The class Republic is given the namespace "republic". */
  lemma RepublicNamespace(name: string)
    requires name == "Republic"
    ensures NamespaceFor(name) == Some("republic")
  {
    NoHead(name, "::");
    NamespaceOfTopLevel(name);
    assert Downcase(name) == "republic";
  }

  /**
   * When the namespace ends in "public", the split stops inside it and the
   * URL keeps only /<key>/<size>.png.
   */
  lemma UrlAsWrittenCutsNamespace(root: string, pre: string, key: string, size: string)
    requires pre == "" || pre[0] != '/'
    requires Plain(key) && !StartsWithSep(size)
    requires !Contains(key, PublicDir) && !Contains(size, PublicDir)
    ensures UrlAsWritten(FilePath(root, pre + PublicDir, key, size)) == Some("/" + key + "/" + Filename(size))
  {
    var ns := pre + PublicDir;
    assert ns[|ns| - 1] == 'c';
    assert ns[0] != '/' by {
      if pre == "" { assert ns[0] == 'p'; } else { assert ns[0] == pre[0]; }
    }
    var r := if EndsWithSep(root) then root else root + "/";
    var c := "/" + key + "/" + Filename(size);
    calc {
      FilePath(root, ns, key, size);
      { FileLayout(root, ns, key, size); }
      r + PublicDir + ("/system/" + ns + c);
      r + PublicDir + ("/system/" + ns) + c;
      r + PublicDir + "/system/" + ns + c;
      r + PublicDir + "/system/" + pre + PublicDir + c;
    }
    NoPublicInTail(key, size);
    AfterLastPublic(r + PublicDir + "/system/" + pre, c);
  }

  /**
   * A record of namespace "republic", key 1001, under root /tmp: the split
   * finds the "public" inside the namespace, and the URL loses
   * /system/republic.
   */
  lemma RepublicUrl(root: string, ns: string, key: string, size: string)
    requires root == "/tmp" && ns == "republic" && key == "1001" && size == "original"
    ensures UrlAsWritten(FilePath(root, ns, key, size)) == Some("/1001/original.png")
  {
    NotSame(key, PublicDir);
    NoHead(size, PublicDir);
    assert "re" + PublicDir == ns;
    UrlAsWrittenCutsNamespace(root, "re", key, size);
    RepublicSpelled(ns, key, size);
  }

  /** The web path of the same record keeps the namespace. */
  lemma RepublicWebPath(ns: string, key: string, size: string)
    requires ns == "republic" && key == "1001" && size == "original"
    ensures WebPath(ns, key, size) == "/system/republic/1001/original.png"
  {
    WebPathLayout(ns, key, size);
    RepublicSpelled(ns, key, size);
  }

  /** The paths of the record above, spelled out. */
  lemma RepublicSpelled(ns: string, key: string, size: string)
    requires ns == "republic" && key == "1001" && size == "original"
    ensures "/" + key + "/" + Filename(size) == "/1001/original.png"
    ensures "/system/" + ns + ("/" + key + "/" + Filename(size)) == "/system/republic/1001/original.png"
  {
    var tail := "/" + key + "/" + Filename(size);
    assert tail == "/1001/original.png";
    assert "/system/" + ns == "/system/republic";
    assert "/system/republic" + "/1001/original.png" == "/system/republic/1001/original.png";
  }
}
