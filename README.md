# Imagery in Dafny

A model of Imagery, a small Ruby library that keeps the images of one record
(a photo, an avatar) as one PNG file per size. The files live under
`root/public/system/<namespace>/<key>/<size>.png`. The model covers:

- `Imagery::Model`: the size table, the file of a size, the URL it is served
  under, and `save` and `delete`, which write and remove the files through
  ImageMagick's `convert`;
- `Imagery::S3`: a bucket, distribution domain and host setting at class
  level, public URLs on S3, and the uploads and deletions issued to the S3
  gateway;
- `Imagery::Missing`: a placeholder URL while the record has no file;
- `Imagery::Faking`: a class-level fake mode that turns `save` into a no-op.

Modules:

- `Outcomes`: Option (nil), Result and the library's exceptions.
- `RubyStrings`: the Ruby behaviour paths are built from. This is
  `File.join`, `Array#join`, `String#split(str).last`, `String#downcase`
  and `File.dirname`.
- `SizeTables`: the size table as an insertion-ordered hash, with
  `Hash#[]=` and `Hash#merge`.
- `Paths`: the record directory, the file and scratch paths, the web path,
  and `namespace_for`.
- `Conversion`: the `convert` argument vector of one size.
- `Disks`: the filesystem as a map from paths to bytes, and `convert` as a
  function parameter. `Disk` is the filesystem object that save and delete
  change in place.
- `S3`: the S3 settings (`Config`), the gateway call log (`Gateway`), URLs,
  object keys, and the store and delete loops as runs that stop at the
  first exception.
- `Missing` and `Faking`: the two overlays.
- `Imagery`: the class `Model`, its methods and the lemmas about save and
  delete.

`Model.Url`, `Model.Save` and `Model.Delete` compose the layers the way
Ruby's method lookup does for a class that includes them:

- `url`: S3#url (which does not call `super`), else Missing#url over
  Web#url, else Web#url.
- `save`: S3#save around Faking#save around Persistence#save.
- `delete`: S3#delete around Persistence#delete.

The `ROOT_DIR` constant is a `given: Option<string>` parameter on every
method that reaches `root`, and `Model#root` keeps the first root it sees.

## Model

| member | source | states |
|---|---|---|
| Imagery.RootSpec | lib/imagery/model.rb:208-211 | An assigned root wins over ROOT_DIR. Without one ROOT_DIR is taken and kept. The call fails with UndefinedRoot exactly when neither is set. Once a root is kept, later calls neither change nor lose it. |
| Imagery.Model.Root | lib/imagery/model.rb:208-211 | Returns RootOf of the old memo and ROOT_DIR and stores RootAfter; nothing else changes. |
| Imagery.FileOutcome | lib/imagery/model.rb:89-93 | Definition of file(size) as a function of the state: UnknownSize unless the size is in the table, then the root's error, else FilePath. Its properties are FileErrors and FileSpec. |
| Imagery.FileErrors | lib/imagery/model.rb:89-93 | For every namespace, key and size: an unknown size fails with UnknownSize even without a root. A known size fails exactly when no root is defined, with UndefinedRoot. |
| Imagery.FileSpec | lib/imagery/model.rb:89-93 | For a plain namespace and key and a size without '/': with a known size and a root, the file is root/public/system/ns/key/size.png, with one separator after a root ending in '/', and its dirname is the record directory. |
| Imagery.Model.File | lib/imagery/model.rb:89-93 | The result is FileOutcome of the state. Only a known size resolves (and memoises) the root. |
| Imagery.Model.Tmp | lib/imagery/model.rb:180-182 | The scratch path root/public/system/ns/key/tmp once the root resolves, else UndefinedRoot; the root is memoised. |
| Imagery.TmpIsNoSizeFile | lib/imagery/model.rb:180-182 | The scratch copy is never the file of any size. |
| Imagery.FilesOfSizesDiffer | lib/imagery/model.rb:188-190 | Two different sizes have different files. |
| Imagery.Model.Cmd | lib/imagery/model.rb:196-206 | For a size of the table: the argv reading tmp, with the size's geometry and extent, writing the size's file; UndefinedRoot without a root. |
| Imagery.CommandAt | lib/imagery/model.rb:196-206 | The i-th conversion command of save converts tmp into the i-th size's file with that size's geometry. |
| Imagery.CommandOfSize | lib/imagery/model.rb:192-206 | With a kept root, cmd of the i-th size is exactly the i-th conversion command. |
| Imagery.CommandsShape | lib/imagery/model.rb:196-206 | Every command reads tmp and writes its size's file, which is not tmp. No two commands write the same file. |
| Conversion.CommandLineLayout | lib/imagery/model.rb:196-206 | The argv is convert, tmp, -thumbnail geometry, -gravity center, then -extent e exactly when an extent is given, and ends with the target; 7 or 9 arguments. |
| Conversion.BuildCommand | lib/imagery/model.rb:197-203 | The argv pushed piece by piece equals CommandLine. |
| Imagery.WebUrlSpec | lib/imagery/model.rb:129-131 | The URL fails exactly when the file does, with the same error. The file is File.join(root, "public") followed by the URL. When neither namespace, key nor size contains "public", the URL equals what split('public').last yields. |
| Imagery.Model.WebUrl | lib/imagery/model.rb:129-131 | The result is WebUrlOutcome: the file path with root/public cut off; the root is memoised as by file. |
| Imagery.Model.Url | lib/imagery/s3.rb:86-92 | With S3: S3.PublicUrl of the settings, root untouched. Otherwise with Missing: MissingUrl over Web#url, root untouched while missing. Otherwise Web#url. |
| Missing.MissingUrl | lib/imagery/missing.rb:22-28 | For nil or empty `existing`: /missing/ns/size.png, with no root and no size check. Otherwise exactly the overridden URL, errors included. |
| Missing.MissingPathLayout | lib/imagery/missing.rb:24 | ['', 'missing', ns, filename].join('/') is /missing/ns/size.png. |
| Imagery.Model.SetExisting | lib/imagery/missing.rb:20 | Sets existing and changes no other field. |
| Imagery.Model.constructor | lib/imagery/model.rb:40-47 | Key as given; namespace as given or derived from the class name; no custom sizes; default size original; no root; sizes are the built-in table. |
| Imagery.Model.SetSizes | lib/imagery/model.rb:33 | Sets the custom sizes and changes no other field. |
| Imagery.Model.SetRoot | lib/imagery/model.rb:29 | Sets the root, nil included, and changes no other field. |
| Imagery.Model.SetDefaultSize | lib/imagery/model.rb:25 | Sets the default size and changes no other field. |
| SizeTables.Lookup | lib/imagery/model.rb:192 | Hash#[]: a value exactly for a key of the table, and that entry is in the table. |
| SizeTables.Store | lib/imagery/model.rb:63 | Hash#[]=: an existing key keeps its place; a new key is appended. |
| SizeTables.StoreLookup | lib/imagery/model.rb:63 | After storing, the key finds the new value and every other key finds what it found before. |
| SizeTables.MergeKeys | lib/imagery/model.rb:63 | a.merge(b) keeps a's keys in order, then adds b's new keys. No key is repeated, and the keys are exactly those of a or b. |
| SizeTables.MergeLookup | lib/imagery/model.rb:63 | In a.merge(b) a key of b takes b's value, any other key a's. |
| SizeTables.SizesSpec | lib/imagery/model.rb:62-64 | The sizes always hold original with 1920x1200> even when overridden. Every other key keeps its custom value. The keys are the custom ones in order, plus original appended when new. |
| SizeTables.SizesOfNone | lib/imagery/model.rb:62-64 | Without custom sizes the sizes are the built-in table alone. |
| SizeTables.SizesWellFormed | lib/imagery/model.rb:62-64 | The sizes have distinct names. |
| SizeTables.SizesNotEmpty | lib/imagery/model.rb:62-64 | The sizes are never empty. |
| Imagery.SizeNamesPlain | lib/imagery/model.rb:62-64 | When no custom size name holds '/', no size name does. |
| Paths.NamespaceOfTopLevel | lib/imagery/model.rb:184-186 | A class name without '::' gives its own downcased name. |
| Paths.NamespaceOfNested | lib/imagery/model.rb:184-186 | Outer::Name gives the downcased Name. |
| Paths.RepublicNamespace | lib/imagery/model.rb:184-186 | The class Republic gets the namespace "republic". |
| Paths.NamespaceFor | lib/imagery/model.rb:184-186 | The last '::' component of the class name, downcased; nil when there is none. An empty name gives nil, and a namespace is never empty and holds no upper-case ASCII letter. |
| Paths.Filename | lib/imagery/model.rb:188-190 | Definition of "%s.png" % size. |
| Paths.FilePath | lib/imagery/model.rb:89-93 | Definition of root_path(directory, namespace, key, filename(size)) once the root is resolved; FileLayout and FileInRecordDir state its shape. |
| Paths.TmpPath | lib/imagery/model.rb:180-182 | Definition of root_path(directory, namespace, key, 'tmp'); TmpInRecordDir states its shape. |
| Paths.UrlAsWritten | lib/imagery/model.rb:130 | Definition of file.split('public').last, nil when the split is empty; UrlAsWrittenAgrees and UrlAsWrittenCutsNamespace state when it is and is not the web path. |
| Paths.WebPath | lib/imagery/model.rb:129-131 | The corrected URL: File.join("/system", ns, key, filename); WebPathLayout spells it out and FileSplitsAtPublic ties it to the file. |
| SizeTables.SizesOf | lib/imagery/model.rb:62-64 | Definition of @sizes.merge(default); SizesSpec states its keys and values. |
| Imagery.Model.Sizes | lib/imagery/model.rb:62-64 | Model#sizes: SizesOf of the custom sizes. |
| S3.PublicUrl | lib/imagery/s3.rb:86-92 | Definition of S3#url; PublicUrlSpec states both forms and the error. |
| S3.ObjectKeys | lib/imagery/s3.rb:119-123 | One key per size, as many keys as sizes; ObjectKeysSpec states each key. |
| Conversion.CommandLine | lib/imagery/model.rb:196-206 | Definition of the argument vector of cmd; CommandLineLayout states its layout. |
| Missing.MissingPath | lib/imagery/missing.rb:24 | Definition of ['', 'missing', namespace, filename(size)].join('/'); MissingPathLayout spells it out. |
| Paths.FileSplitsAtPublic | lib/imagery/model.rb:89-93 | Every file path is File.join(root, "public") followed by the web path. |
| Paths.FileLayout | lib/imagery/model.rb:89-93 | The file of a size spelled out: root, one '/', public/system/ns/key/size.png. |
| Paths.FileInRecordDir | lib/imagery/model.rb:89-93 | The file of a size is directly in the record directory, and its dirname is that directory. |
| Paths.TmpInRecordDir | lib/imagery/model.rb:180-182 | tmp is directly in the record directory, beside the files. |
| Paths.ChildOfRecordDir | lib/imagery/model.rb:213-215 | root_path(directory, ns, key, name) is the record directory, '/', name. |
| Paths.WebPathLayout | lib/imagery/model.rb:129-131 | The web path is /system/ns/key/size.png. |
| Paths.UrlAsWrittenAgrees | lib/imagery/model.rb:129-131 | split('public').last of the file is the web path whenever ns, key and size hold no "public" (the root may). |
| Paths.UrlAsWrittenCutsNamespace | lib/imagery/model.rb:129-131 | For a namespace ending in "public", split('public').last keeps only /key/size.png. |
| Paths.RepublicUrl | lib/imagery/model.rb:129-131 | Namespace republic, key 1001, root /tmp: the URL as written is /1001/original.png. |
| Paths.RepublicWebPath | lib/imagery/model.rb:129-131 | The same record's web path is /system/republic/1001/original.png. |
| Paths.AfterLastPublic | lib/imagery/model.rb:130 | split('public').last of x + "public" + c is c, for non-empty c free of "public". |
| RubyStrings.Join | lib/imagery/model.rb:213-215 | File.join of two operands ends with the right operand. |
| RubyStrings.PiecesLast | lib/imagery/model.rb:130 | The last piece of a split is what follows the last occurrence of the separator, or the whole string when there is none. |
| RubyStrings.LastPieceAfter | lib/imagery/model.rb:130 | split(sep).last of x + sep + c is c when c is non-empty and free of sep. |
| RubyStrings.SplitLastWhole | lib/imagery/model.rb:185 | A non-empty string without the separator splits into itself. |
| RubyStrings.DirnameOfChild | lib/imagery/model.rb:173 | File.dirname(dir + "/" + name) is dir for a plain name. |
| RubyStrings.ArrayJoinThree | lib/imagery/s3.rb:121 | [a, b, c].join(sep) is a, sep, b, sep, c. |
| Disks.ExecutedFrame | lib/imagery/model.rb:193 | A run of convert removes no file and changes nothing but its target. |
| Disks.ConvertFirstSpec | lib/imagery/model.rb:164 | Runs reading one source and writing distinct other files: src unchanged, each successful run's output at its target, every untargeted path unchanged. |
| Disks.RanOneMore | lib/imagery/model.rb:164 | One more such run keeps that description true. |
| Disks.ConvertFirstKeeps | lib/imagery/model.rb:164 | The conversions remove no file. |
| Disks.ConvertFromScratch | lib/imagery/model.rb:161-168 | Write src, run the commands, remove src: src is gone, each successful output is at its target, every other path is as before the write. |
| Disks.WithoutTree | lib/imagery/model.rb:173 | rm_rf: exactly the paths outside the tree remain, with their contents. |
| Disks.WithoutTreeAgrees | lib/imagery/model.rb:173 | Filesystems that agree outside a directory are equal after removing it. |
| Disks.Disk.Write | lib/imagery/model.rb:163 | The path now holds the data; nothing else changes. |
| Disks.Disk.Read | lib/imagery/s3.rb:100 | The file's bytes, or ENOENT when it is absent. |
| Disks.Disk.Remove | lib/imagery/model.rb:165 | The existing path is removed; nothing else changes. |
| Disks.Disk.RemoveTree | lib/imagery/model.rb:173 | The filesystem becomes WithoutTree of the old one. |
| Disks.Disk.Execute | lib/imagery/model.rb:193 | The filesystem becomes Executed of the old one. |
| Imagery.Model.Convert | lib/imagery/model.rb:192-194 | Runs the i-th size's conversion command on the disk; fields unchanged. |
| Imagery.Model.ConvertSizes | lib/imagery/model.rb:164 | The disk becomes ConvertAll of the commands in table order; fields unchanged. |
| Imagery.Model.PersistSave | lib/imagery/model.rb:161-168 | Without a root: UndefinedRoot and the disk untouched. With one: true and the disk becomes SavedFiles (tmp written, every size converted, tmp removed). |
| Imagery.SaveWritesEveryVariant | lib/imagery/model.rb:161-168 | After save, tmp is gone. Each size whose conversion succeeds has its file with the converted image. Every other path is unchanged. |
| Imagery.SaveThenDelete | lib/imagery/model.rb:161-175 | Deleting after saving leaves the same filesystem as deleting alone: save writes nothing outside the record directory. |
| Imagery.DeleteClearsRecord | lib/imagery/model.rb:172-175 | After delete no file of any size and no tmp remains, and nothing outside the record directory changes. |
| Imagery.Model.PersistDelete | lib/imagery/model.rb:172-175 | If file(default_size) fails, that error and the disk untouched. Otherwise true, and the tree at its dirname is removed. |
| Imagery.Model.FakeableSave | lib/imagery/faking.rb:24-28 | In fake mode: true with disk and root untouched. Otherwise exactly PersistSave. |
| S3.BucketOf | lib/imagery/s3.rb:13-27 | The stored bucket, or UndefinedBucket exactly when none is stored, raised with BUCKET_ERROR_MSG (the heredoc with its six-space indentation removed). |
| S3.HostOf | lib/imagery/s3.rb:39-42 | The stored host, or http://s3.amazonaws.com. |
| S3.Config.constructor | lib/imagery/s3.rb:8 | No bucket, domain or host set. |
| S3.Config.Bucket | lib/imagery/s3.rb:13-16 | A given bucket is stored first; returns BucketOf the stored one; other settings unchanged. |
| S3.Config.DistributionDomain | lib/imagery/s3.rb:29-32 | A given domain is stored first; returns the stored domain or nil. |
| S3.Config.Host | lib/imagery/s3.rb:39-42 | A given host is stored first; returns HostOf the stored one. |
| S3.Config.SetBucket | lib/imagery/s3.rb:8 | The writer stores its value, nil included; other settings unchanged. |
| S3.Config.SetDistributionDomain | lib/imagery/s3.rb:8 | As SetBucket, for the domain. |
| S3.Config.SetHost | lib/imagery/s3.rb:8 | As SetBucket, for the host. |
| S3.PublicUrlSpec | lib/imagery/s3.rb:86-92 | With a domain: domain/ns/key/size.png whatever the bucket. Without one: host/bucket/ns/key/size.png. UndefinedBucket exactly when neither domain nor bucket is set. |
| S3.ObjectKeyAt | lib/imagery/s3.rb:119-123 | The i-th object key pairs [ns, key, filename].join('/') with the i-th size. |
| S3.ObjectKeySize | lib/imagery/s3.rb:119-123 | The i-th key holds the file of the i-th size. |
| S3.ObjectKeysSpec | lib/imagery/s3.rb:119-123 | One key per size, in table order: ns/key/size.png. |
| S3.ObjectKeyMatchesWebPath | lib/imagery/s3.rb:119-123 | An object key is the web path without its leading /system/. |
| S3.Gateway.Store | lib/imagery/s3.rb:140-143 | Appends exactly one store call with its arguments to the log. |
| S3.Gateway.Delete | lib/imagery/s3.rb:156-159 | Appends exactly one delete call with its arguments to the log. |
| S3.UploadOf | lib/imagery/s3.rb:99-104 | ENOENT when the size's file is absent. Else UndefinedBucket without a bucket. Else a public-read image/png store of the file's bytes under the key. |
| S3.RunFirst | lib/imagery/s3.rb:98-105 | At most n calls after n passes, and exactly n when none raised. |
| S3.RunStop | lib/imagery/s3.rb:98-105 | Once a pass has raised, later passes change nothing. |
| S3.RunFails | lib/imagery/s3.rb:98-105 | A raising pass ends the loop with its exception after the calls already issued. |
| S3.RunStep | lib/imagery/s3.rb:98-105 | A pass that does not raise appends its call. |
| S3.RunAll | lib/imagery/s3.rb:98-105 | When no pass raises, every pass's call is issued, in order. |
| S3.RunFailsFirst | lib/imagery/s3.rb:98-105 | When the first pass raises, nothing is issued. |
| S3.UploadsAll | lib/imagery/s3.rb:96-107 | With every file present and a bucket: one store per key, in order, and no error. |
| S3.UploadsWithoutBucket | lib/imagery/s3.rb:96-107 | Without a bucket nothing is stored and the loop fails, with UndefinedBucket once the first file is present. |
| Imagery.Model.UploadOne | lib/imagery/s3.rb:99-104 | One pass: the gateway log grows by UploadOf's call, or stays and the error is returned. |
| Imagery.Model.UploadEach | lib/imagery/s3.rb:98-105 | The log grows by the run of the passes, stopping at the first failure, whose error is returned. |
| Imagery.Model.Upload | lib/imagery/s3.rb:96-107 | Without a root: UndefinedRoot and no call. Otherwise the log grows by S3.Uploads of the object keys. |
| Imagery.Model.Save | lib/imagery/s3.rb:96-107 | The save layers combined. Without S3 in fake mode: true, nothing touched. Else the local save; then with S3 the uploads of the files as saved (as left, in fake mode). |
| S3.DeleteOf | lib/imagery/s3.rb:114 | A delete of the key from the bucket, or UndefinedBucket exactly when none is set. |
| S3.DeletionsSpec | lib/imagery/s3.rb:111-116 | With a bucket, every key is deleted from it, in order. Without one, nothing is and the error is UndefinedBucket. |
| Imagery.Model.DeleteObjects | lib/imagery/s3.rb:113-115 | The gateway log grows by S3.Deletions of the object keys; its error is returned. |
| Imagery.Model.Delete | lib/imagery/s3.rb:111-116 | The local delete. If it fails: its error, nothing removed, no gateway call. Else the tree is removed and, with S3, the deletions are issued. |
| Faking.ModeSwitch.SetMode | lib/imagery/faking.rb:8-10 | The next mode read returns the value set. |
| Faking.FakedRestoresOnce | lib/imagery/faking.rb:16-21 | A single faked puts the prior mode back, whether its block returns or raises. |
| Faking.FakedFromFake | lib/imagery/faking.rb:16-21 | As written, faked entered in :fake mode leaves :fake in both slots. |
| Faking.NestedFakedStaysFake | lib/imagery/faking.rb:16-21 | As written, a faked nested in another leaves the mode :fake after the outer call, whatever it was. |
| Faking.FakedKeepingPriorRestores | lib/imagery/faking.rb:16-21 | With the prior mode kept per call, every faked, nested or not, restores the mode it found. |
| Faking.ModeSwitch.Faked | lib/imagery/faking.rb:16-21 | The mode is :fake inside the block. The call returns or raises as the block does. The state afterwards is FakedKeepingPrior of the state before, so the mode is restored per call. |
| Faking.FakedAsWritten | lib/imagery/faking.rb:16-21 | Definition of faked as written, on the two class-level slots: @omode takes the mode, the mode becomes :fake, the block runs (a nested faked included), and the mode takes @omode back. |
| Faking.FakedKeepingPrior | lib/imagery/faking.rb:16-21 | Definition of faked as evidently intended: the prior mode is kept per call and put back by that call. |

## Left out

- Imagery.Model.Upload: resolves the root once before the loop. The source's first pass calls file(size) and resolves it there. The size table is never empty (SizeTables.SizesNotEmpty), so nothing is stored before that, and the result is the same.
- Imagery.Model.UploadOne: reads the size's file path directly rather than calling file(size). With the root kept and the size taken from the table, file(size) cannot fail and does not change the record.
- Imagery.Model.Url: S3 and Missing are fields (`s3`, `withMissing`) rather than module inclusion. Missing is included unconditionally at lib/imagery/model.rb:218, so a real class always has it; the flag also allows the plain Web#url.
- Imagery.Model.constructor: the namespace comes from the class name string. The source's anonymous classes have a nil name and raise NoMethodError; the model requires a namespace or a class name with a last component instead.
- Imagery.Model.Cmd: the argument vector is kept as a sequence. Shell quoting by Escape.shell_command and the backtick shell are not modelled.
- Imagery.Model.Convert: convert's exit status is ignored, as in the source, and save still returns true. A failing run leaves its target as it was: absent on a first save, the earlier image on a re-save, which an S3 save then uploads.
- Imagery.Model.PersistSave: FileUtils.mkdir_p is not modelled, because directories are implicit in a map from paths to bytes.
- Imagery.Model.Save: the S3 gateway's return values are not looked at, so each store and delete counts as success. The AWS connection, its retry on NoConnectionEstablished and the environment credentials are left out.
- Imagery.Model.Url: S3#url reads the settings fields directly rather than calling the getters. The getters have no side effect without an argument.
- RubyStrings.Downcase: ASCII letters only; Ruby's Unicode case mapping is not modelled.
- Geometries: a geometry is a resize string and an optional extent. Empty or longer geometry arrays, and symbol versus string keys, are not modelled.
- RubyStrings.SplitLast: models `split` with a string separator of one or more characters. The single-space and regular-expression forms are not used by the library and are left out.
- lib/imagery.rb (the `Imagery.new` shortcut and autoloads) and lib/imagery/test.rb are not part of this model.
- Concurrency between records sharing a directory is not modelled.

## Findings

| source | as written | input that shows it | evidently intended | confidence | as-written member | corrected member |
|---|---|---|---|---|---|---|
| lib/imagery/model.rb:130 | url is the text after the last "public" anywhere in the file path | class Republic, key 1001, root /tmp: the file is /tmp/public/system/republic/1001/original.png and the url comes out /1001/original.png | the path after root/public, /system/republic/1001/original.png | not executed | Paths.RepublicUrl | Paths.RepublicWebPath |
| lib/imagery/faking.rb:16-21 | faked keeps the prior mode in one class-level @omode slot, which a nested faked overwrites with :fake | mode nil, then faked { faked { } }: the mode is :fake afterwards | each faked restores the mode it found | not executed | Faking.NestedFakedStaysFake | Faking.FakedKeepingPriorRestores |

`Imagery.Model.WebUrl` uses the corrected web path. `Faking.ModeSwitch.Faked` keeps the prior mode per call.
