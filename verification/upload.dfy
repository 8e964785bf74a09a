/** Path and URL handling of uploaded files (readmes and avatars): the
    guards an upload must pass, the stored file name, the public URL of a
    stored path, and which file a deletion targets. The bytes written and
    removed are not modelled. */
module Upload {
  import opened Results
  import opened Strings

  const UploadDir := "uploads"

  /** 5 << 20 bytes. */
  const MaxFileSize: int := 5 * 1048576

  /** Base of the public URL of an uploaded file. */
  const BaseURL := "http://localhost:8080"

  /** The content types an upload may declare, for every purpose. */
  predicate AllowedImageType(contentType: string) {
    contentType == "image/jpeg" || contentType == "image/png" || contentType == "image/gif"
  }

  /** What the multipart header tells about an uploaded file. */
  datatype FileHeader = FileHeader(filename: string, size: int, contentType: string)

  /** Go's `filepath.Ext`: the suffix from the last '.' of the final path
      element, or "" when that element has no '.'. */
  function Ext(path: string): (e: string)
    ensures |e| <= |path| && e == path[|path| - |e|..]
    ensures e != "" ==> e[0] == '.' && '/' !in e && '.' !in e[1..]
  {
    if path == [] || path[|path| - 1] == '/' then ""
    else if path[|path| - 1] == '.' then "."
    else
      var init := path[..|path| - 1];
      var last := path[|path| - 1];
      var e := Ext(init);
      if e == "" then ""
      else
        var r := e + [last];
        assert path[|path| - |r|..] == init[|init| - |e|..] + [last];
        assert r[1..] == e[1..] + [last];
        assert r[0] == e[0];
        r
  }

  /** No extension means the final path element has no dot: together with
      the contract of `Ext` this pins down the suffix it returns. */
  lemma {:induction false} ExtEmptyMeansDotless(path: string)
    requires Ext(path) == ""
    ensures '.' !in path[LastIndexOf(path, '/') + 1..]
  {
    if path != [] {
      var init := path[..|path| - 1];
      var last := path[|path| - 1];
      if last == '/' {
        assert LastIndexOf(path, '/') == |path| - 1;
      } else {
        assert last != '.';
        assert Ext(init) == "";
        ExtEmptyMeansDotless(init);
        DotlessFinalStep(path);
      }
    }
  }

  /** A final character other than '/' and '.' keeps the final path
      element free of dots. */
  lemma DotlessFinalStep(path: string)
    requires path != [] && path[|path| - 1] != '/' && path[|path| - 1] != '.'
    requires var init := path[..|path| - 1]; '.' !in init[LastIndexOf(init, '/') + 1..]
    ensures '.' !in path[LastIndexOf(path, '/') + 1..]
  {
    var init := path[..|path| - 1];
    LastIndexOfSkipsLast(path, '/');
    var j := LastIndexOf(init, '/') + 1;
    assert path[j..] == init[j..] + [path[|path| - 1]];
  }

  /** The last occurrence of `c` is unaffected by a final character other
      than `c`. */
  lemma LastIndexOfSkipsLast(path: string, c: char)
    requires path != [] && path[|path| - 1] != c
    ensures LastIndexOf(path, c) == LastIndexOf(path[..|path| - 1], c)
  {
  }

  /** The last `n` characters of `p` are its whole final path element, and
      that element holds no dot. */
  predicate DotlessFinal(p: string, n: nat) {
    && n <= |p|
    && (n == |p| || p[|p| - n - 1] == '/')
    && forall i :: |p| - n <= i < |p| ==> p[i] != '.' && p[i] != '/'
  }

  /** A path whose final element has no dot has no extension. */
  lemma {:induction false} ExtOfDotless(p: string, n: nat)
    requires DotlessFinal(p, n)
    ensures Ext(p) == ""
  {
    if n > 0 {
      var init := p[..|p| - 1];
      assert DotlessFinal(init, n - 1) by {
        forall i | |init| - (n - 1) <= i < |init| ensures init[i] != '.' && init[i] != '/' {
          assert init[i] == p[i];
        }
      }
      ExtOfDotless(init, n - 1);
    }
  }

  /** Appending an extension to a path whose final element has no dot makes
      it the path's extension. */
  lemma {:induction false} ExtOfStemPlusExt(stem: string, n: nat, e: string)
    requires DotlessFinal(stem, n)
    requires e == "" || (e[0] == '.' && '/' !in e && '.' !in e[1..])
    ensures Ext(stem + e) == e
    decreases |e|
  {
    if e == [] {
      assert stem + e == stem;
      ExtOfDotless(stem, n);
    } else if |e| > 1 {
      var init := e[..|e| - 1];
      assert (stem + e)[..|stem + e| - 1] == stem + init;
      assert '.' !in init[1..] by { assert init[1..] == e[1..|e| - 1]; }
      ExtOfStemPlusExt(stem, n, init);
      assert e[|e| - 1] in e[1..];
    }
  }

  /** The name a stored upload gets: date, '_', a fresh UUID, then the
      original extension. */
  function StoredName(date: string, uuid: string, filename: string): string {
    date + "_" + uuid + Ext(filename)
  }

  /** `filepath.Join(dir, name)`. The date ("20060102" layout) and the UUID
      contain no separators or dots, so the lexical cleaning Join performs
      leaves these names unchanged. */
  function JoinPath(dir: string, name: string): string {
    dir + "/" + name
  }

  /** `UploadFile(file, subDir)` up to the path it returns; `date` and `uuid`
      are the clock's and the UUID generator's values. The size message
      prints MaxFileSize with %d. */
  function UploadFile(file: FileHeader, subDir: string, date: string, uuid: string): (r: Result<string>)
    ensures r.Ok? <==> file.size <= MaxFileSize && AllowedImageType(file.contentType)
    ensures file.size > MaxFileSize ==> r == Err("file size exceeds maximum limit of 5242880 bytes")
    ensures r.Ok? ==> subDir + "/" + date + "_" + uuid <= r.value
    ensures r.Ok? ==> |r.value| == |subDir| + |date| + |uuid| + 2 + |Ext(file.filename)|
  {
    if file.size > MaxFileSize then Err("file size exceeds maximum limit of 5242880 bytes")
    else if !AllowedImageType(file.contentType) then Err("file type not allowed")
    else Ok(JoinPath(subDir, StoredName(date, uuid, file.filename)))
  }

  /** The stored path keeps the uploaded file's extension. */
  lemma StoredPathKeepsExtension(file: FileHeader, subDir: string, date: string, uuid: string)
    requires '.' !in date && '.' !in uuid && '/' !in date && '/' !in uuid
    requires UploadFile(file, subDir, date, uuid).Ok?
    ensures Ext(UploadFile(file, subDir, date, uuid).value) == Ext(file.filename)
  {
    var name := date + "_" + uuid;
    var stem := subDir + "/" + name;
    assert UploadFile(file, subDir, date, uuid).value == stem + Ext(file.filename);
    assert DotlessFinal(stem, |name|) by {
      forall i | |stem| - |name| <= i < |stem| ensures stem[i] != '.' && stem[i] != '/' {
        assert stem[i] == name[i - (|stem| - |name|)];
        assert name[i - (|stem| - |name|)] in date || name[i - (|stem| - |name|)] in uuid
            || name[i - (|stem| - |name|)] == '_';
      }
    }
    ExtOfStemPlusExt(stem, |name|, Ext(file.filename));
  }

  /** A path the URL helpers leave alone. */
  predicate IsAbsoluteURL(path: string) {
    "http://" <= path || "https://" <= path
  }

  /** `GetFileURL`: "" stays "", absolute URLs are returned unchanged, any
      other path is served under the uploads route of the base URL. */
  function GetFileURL(path: string): (url: string)
    ensures path == "" ==> url == ""
    ensures IsAbsoluteURL(path) ==> url == path
    ensures path != "" && !IsAbsoluteURL(path) ==> url == BaseURL + "/uploads/" + path
  {
    if path == "" then ""
    else if IsAbsoluteURL(path) then path
    else BaseURL + "/uploads/" + path
  }

  /** A URL produced by `GetFileURL` is a fixed point of it. */
  lemma GetFileURLIdempotent(path: string)
    ensures GetFileURL(GetFileURL(path)) == GetFileURL(path)
  {
    if path != "" && !IsAbsoluteURL(path) {
      var url := BaseURL + "/uploads/" + path;
      assert url[..7] == "http://";
    }
  }

  /** The file `DeleteFile(path)` removes, or `None` when it does nothing.
      Go joins with `filepath.Join`, which also cleans the result; the
      model joins without cleaning. The two agree on every clean relative
      path, and every path an upload stores is one (`StoredPathIsClean`,
      `DeleteRemovesStoredFile`); for other strings, such as "a/../b" or
      "x/", Go removes the cleaned path instead. */
  function DeleteTarget(path: string): (target: Option<string>)
    ensures path == "" || IsAbsoluteURL(path) ==> target == None
    ensures path != "" && !IsAbsoluteURL(path) ==> target == Some(UploadDir + "/" + path)
  {
    if path == "" || IsAbsoluteURL(path) then None else Some(JoinPath(UploadDir, path))
  }

  /** Deletion leaves a path alone exactly when the URL mapping does: only
      paths that name a local upload are ever removed. */
  lemma DeleteNoOpIffURLUnchanged(path: string)
    ensures DeleteTarget(path).None? <==> GetFileURL(path) == path
  {
    if path != "" && !IsAbsoluteURL(path) {
      assert |GetFileURL(path)| > |path|;
    }
  }

  // ------------------------------------------------------- clean paths

  /** A path element `filepath.Clean` keeps as it is. */
  predicate GoodElement(e: string) { e != "" && e != "." && e != ".." }

  /** A relative path that `filepath.Clean` returns unchanged: elements
      separated by single '/', none of them empty, `.` or `..`. For such a
      path `filepath.Join` adds the separator and nothing else. */
  predicate CleanRelative(p: string) {
    forall e | e in Split(p, '/') :: GoodElement(e)
  }

  /** Joining two clean relative paths with '/' gives a clean path. */
  lemma JoinClean(dir: string, path: string)
    requires CleanRelative(dir) && CleanRelative(path)
    ensures CleanRelative(dir + "/" + path)
  {
    SplitConcat(dir, path, '/');
  }

  /** A name without separators is clean when it is a good element. */
  lemma SingleElementClean(e: string)
    requires '/' !in e && GoodElement(e)
    ensures CleanRelative(e)
  {
    SplitNoSeparator(e, '/');
  }

  /** Every path an upload stores under a clean subdirectory is clean,
      provided the date and the UUID hold no separator. */
  lemma StoredPathIsClean(file: FileHeader, subDir: string, date: string, uuid: string)
    requires CleanRelative(subDir) && '/' !in date && '/' !in uuid
    requires UploadFile(file, subDir, date, uuid).Ok?
    ensures CleanRelative(UploadFile(file, subDir, date, uuid).value)
  {
    var e := Ext(file.filename);
    assert '/' !in e;
    StoredNameIsElement(date, uuid, e);
    SingleElementClean(date + "_" + uuid + e);
    JoinClean(subDir, date + "_" + uuid + e);
  }

  /** A stored name built from pieces without separators is one good path
      element: the '_' after the date keeps it from being `.` or `..`. */
  lemma StoredNameIsElement(date: string, uuid: string, e: string)
    requires '/' !in date && '/' !in uuid && '/' !in e
    ensures '/' !in date + "_" + uuid + e && GoodElement(date + "_" + uuid + e)
  {
    var name := date + "_" + uuid + e;
    assert name[|date|] == '_';
    forall i | 0 <= i < |name| ensures name[i] != '/' {
      if i < |date| {
        assert name[i] == date[i];
      } else if i > |date| + |uuid| {
        assert name[i] == e[i - |date| - 1 - |uuid|];
      } else if i > |date| {
        assert name[i] == uuid[i - |date| - 1];
      }
    }
  }

  /** Deleting an avatar or readme that an upload stored removes exactly
      `uploads/<path>`, a clean path, so `filepath.Join`'s cleaning does
      not change it. */
  lemma DeleteRemovesStoredFile(file: FileHeader, subDir: string, date: string, uuid: string)
    requires subDir == "avatars" || subDir == "readme"
    requires '/' !in date && '/' !in uuid
    requires UploadFile(file, subDir, date, uuid).Ok?
    ensures var p := UploadFile(file, subDir, date, uuid).value;
            DeleteTarget(p) == Some(UploadDir + "/" + p) && CleanRelative(UploadDir + "/" + p)
  {
    var p := UploadFile(file, subDir, date, uuid).value;
    SingleElementClean(subDir);
    SingleElementClean(UploadDir);
    StoredPathIsClean(file, subDir, date, uuid);
    JoinClean(UploadDir, p);
    assert p[0] == subDir[0];
    assert !IsAbsoluteURL(p);
  }

  /** A README that is not an image (Markdown, plain text) cannot be
      uploaded: the image content-type guard applies to readmes as well. */
  lemma ReadmeMustBeImage(file: FileHeader, date: string, uuid: string)
    requires file.contentType == "text/markdown" || file.contentType == "text/plain"
    ensures UploadFile(file, "readme", date, uuid).Err?
  {
  }
}
