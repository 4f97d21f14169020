/** The download side (background.js): the MIME type guessed from a file name, the path
    a file is saved under, the request handed to the downloads API, and the settings
    read from storage. */
module Background {
  import opened Text
  import Naming

  // ---------------------------------------------------------------------------
  // guessMime

  /** The position of the last c in s, or -1. */
  function LastIndexOf(s: string, c: char): (r: int)
    ensures -1 <= r < |s|
    ensures r >= 0 ==> s[r] == c
    ensures forall j :: r < j < |s| ==> s[j] != c
  {
    if s == [] then -1
    else if s[|s| - 1] == c then |s| - 1
    else LastIndexOf(s[..|s| - 1], c)
  }

  /** `filename.split('.').pop()`: the dot-free tail of the name that follows its last dot,
      or the whole name when it has no dot. */
  function Extension(name: string): (e: string)
    ensures |e| <= |name| && e == name[|name| - |e|..]
    ensures forall i :: 0 <= i < |e| ==> e[i] != '.'
    ensures |e| == |name| || name[|name| - |e| - 1] == '.'
  {
    name[LastIndexOf(name, '.') + 1..]
  }

  /** `guessMime(filename)`, comparing the lower-cased extension with each known one. */
  function GuessMime(name: string): string {
    var ext := Extension(name);
    if EqCI(ext, "md") then "text/markdown"
    else if EqCI(ext, "json") then "application/json"
    else if EqCI(ext, "html") || EqCI(ext, "htm") then "text/html"
    else if EqCI(ext, "diff") || EqCI(ext, "patch") then "text/x-diff"
    else if EqCI(ext, "txt") || EqCI(ext, "log") then "text/plain"
    else "application/octet-stream"
  }

  /** The tail after a final dot is the extension. */
  lemma {:induction false} ExtensionOfAppend(base: string, ext: string)
    requires forall i :: 0 <= i < |ext| ==> ext[i] != '.'
    ensures Extension(base + "." + ext) == ext
  {
    var s := base + "." + ext;
    var dot := LastIndexOf(s, '.');
    assert s[|base|] == '.';
    assert forall j :: |base| < j < |s| ==> s[j] == ext[j - |base| - 1];
    assert dot == |base|;
    assert s[dot + 1..] == ext;
  }

  /** Two strings that differ in their first lower-cased character are not equal ignoring
      case. */
  lemma NotEqCIAt0(a: string, b: string)
    requires |a| > 0 && |b| > 0 && |a| == |b| && Lower(b[0]) != Lower(a[0])
    ensures !EqCI(a, b)
  {
  }

  /** Each known extension, in any letter case, gives its type, and anything else the
      generic binary type. */
  lemma GuessMimeSpec(name: string)
    ensures var e := Extension(name); var m := GuessMime(name);
      (m == "text/markdown" <==> EqCI(e, "md")) &&
      (m == "application/json" <==> EqCI(e, "json")) &&
      (m == "text/html" <==> EqCI(e, "html") || EqCI(e, "htm")) &&
      (m == "text/x-diff" <==> EqCI(e, "diff") || EqCI(e, "patch")) &&
      (m == "text/plain" <==> EqCI(e, "txt") || EqCI(e, "log")) &&
      (m == "application/octet-stream" <==>
        !(EqCI(e, "md") || EqCI(e, "json") || EqCI(e, "html") || EqCI(e, "htm") || EqCI(e, "diff") ||
          EqCI(e, "patch") || EqCI(e, "txt") || EqCI(e, "log")))
  {
    var e := Extension(name);
    if |e| == 4 {
      NotEqCIAt0("json", "html");
      NotEqCIAt0("json", "diff");
      NotEqCIAt0("html", "diff");
      if EqCI(e, "json") {
        assert Lower(e[0]) == 'j';
      } else if EqCI(e, "html") {
        assert Lower(e[0]) == 'h';
      }
    } else if |e| == 3 {
      if EqCI(e, "htm") {
        assert Lower(e[0]) == 'h';
      } else if EqCI(e, "txt") {
        assert Lower(e[0]) == 't';
      }
    }
  }

  // ---------------------------------------------------------------------------
  // The saved path.

  predicate IsSlash(c: char) { c == '/' }

  predicate NotSlash(c: char) { c != '/' }

  const DefaultFolder: string := "Documents/codex_archive"

  /** `.replace(/\/+/g, "/")` */
  function CollapseSlashes(s: string): string {
    ReplaceRuns(s, IsSlash, '/')
  }

  /** `${baseFolder}/${path}` with every run of slashes collapsed to one. */
  function ExportPath(baseFolder: string, path: string): string {
    CollapseSlashes(baseFolder + "/" + path)
  }

  /** A string in which no two slashes meet is its own collapse. */
  lemma {:induction false} CollapseNoDoubleSlash(s: string)
    requires NoAdjacent(s, IsSlash)
    ensures CollapseSlashes(s) == s
    decreases |s|
  {
    if s != [] {
      NoAdjacentSlice(s, 1, |s|, IsSlash);
      assert s[1..][..] == s[1..];
      CollapseNoDoubleSlash(s[1..]);
      if IsSlash(s[0]) {
        assert SkipRun(s, IsSlash) == SkipRun(s[1..], IsSlash) == s[1..];
      }
      assert s == [s[0]] + s[1..];
    }
  }

  /** The saved path has no `//`, keeps every other character of the folder and of the
      file's path in order, and collapsing it again changes nothing. */
  lemma ExportPathSpec(baseFolder: string, path: string)
    ensures var r := ExportPath(baseFolder, path);
      NoAdjacent(r, IsSlash) &&
      Keep(r, NotSlash) == Keep(baseFolder, NotSlash) + Keep(path, NotSlash) &&
      CollapseSlashes(r) == r
  {
    var s := baseFolder + "/" + path;
    ReplaceRunsNoAdjacent(s, IsSlash, '/');
    ReplaceRunsKeep(s, IsSlash, '/', NotSlash);
    KeepAppend(baseFolder + "/", path, NotSlash);
    KeepAppend(baseFolder, "/", NotSlash);
    assert Keep("/", NotSlash) == [];
    CollapseNoDoubleSlash(ExportPath(baseFolder, path));
  }

  /** A file name without slashes ends the saved path verbatim, after one slash. */
  lemma ExportPathKeepsName(baseFolder: string, name: string)
    requires forall i :: 0 <= i < |name| ==> name[i] != '/'
    ensures ExportPath(baseFolder, name) == CollapseSlashes(baseFolder + "/") + name
    ensures EndsWith(ExportPath(baseFolder, name), "/" + name)
  {
    var folder := baseFolder + "/";
    var c := CollapseSlashes(folder);
    var p := ExportPath(baseFolder, name);
    assert p == c + name by {
      assert forall i :: 0 <= i < |name| ==> !IsSlash(name[i]);
      ReplaceRunsAppendPlain(folder, name, IsSlash, '/');
    }
    assert c != [] && c[|c| - 1] == '/' by {
      CollapseEndsWithSlash(folder);
    }
    var tail := "/" + name;
    assert |tail| <= |p|;
    assert p[|p| - |tail|..] == tail by {
      assert forall i :: 0 <= i < |tail| ==> p[|p| - |tail| + i] == tail[i];
    }
  }

  /** The collapse of a string ending in a slash ends in a slash. */
  lemma {:induction false} CollapseEndsWithSlash(s: string)
    requires s != [] && s[|s| - 1] == '/'
    ensures var c := CollapseSlashes(s); c != [] && c[|c| - 1] == '/'
    decreases |s|
  {
    var c := CollapseSlashes(s);
    if IsSlash(s[0]) {
      var t := SkipRun(s, IsSlash);
      SkipRunSuffix(s, IsSlash);
      assert c == ['/'] + CollapseSlashes(t);
      if t != [] {
        assert t[|t| - 1] == s[|s| - 1];
        CollapseEndsWithSlash(t);
      }
    } else {
      assert c == [s[0]] + CollapseSlashes(s[1..]);
      assert s[1..] != [] && s[1..][|s| - 2] == '/';
      CollapseEndsWithSlash(s[1..]);
    }
  }

  // ---------------------------------------------------------------------------
  // downloadOne

  /** What `downloadOne` hands to the downloads API: a data URL and a file name. */
  datatype Download = Download(url: string, filename: string)

  /** `path.replace(/^\/+/, "")` */
  function StripLeadingSlashes(path: string): string {
    SkipRun(path, IsSlash)
  }

  /** `downloadOne({ path, base64, mime })`; a missing MIME type is the empty string. */
  function DownloadOne(path: string, base64: string, mime: string): Download {
    Download("data:" + (if mime == "" then GuessMime(path) else mime) + ";base64," + base64,
             StripLeadingSlashes(path))
  }

  /** The file name is the path without its leading slashes: it does not start with a
      slash, and the path is that run of slashes followed by the file name. The data URL
      carries the given type, or the type guessed from the path when none is given. */
  lemma DownloadOneSpec(path: string, base64: string, mime: string)
    ensures var d := DownloadOne(path, base64, mime);
      (d.filename == [] || d.filename[0] != '/') &&
      (exists k :: 0 <= k <= |path| && (forall i :: 0 <= i < k ==> path[i] == '/') && d.filename == path[k..]) &&
      d.url == "data:" + (if mime == "" then GuessMime(path) else mime) + ";base64," + base64
  {
    var f := StripLeadingSlashes(path);
    var k := |path| - |f|;
    SkipRunSuffix(path, IsSlash);
    assert forall i :: 0 <= i < k ==> IsSlash(path[i]);
  }

  /** A saved export path reaches the downloads API with no leading slash and no `//`. */
  lemma DownloadOfExportPath(baseFolder: string, path: string, base64: string, mime: string)
    ensures var f := DownloadOne(ExportPath(baseFolder, path), base64, mime).filename;
      (f == [] || f[0] != '/') && NoAdjacent(f, IsSlash) &&
      Keep(f, NotSlash) == Keep(baseFolder, NotSlash) + Keep(path, NotSlash)
  {
    var r := ExportPath(baseFolder, path);
    ExportPathSpec(baseFolder, path);
    var f := StripLeadingSlashes(r);
    SkipRunSuffix(r, IsSlash);
    NoAdjacentSlice(r, |r| - |f|, |r|, IsSlash);
    KeepSkipRun(r, IsSlash, NotSlash);
  }

  /** A file name of name characters ending in `.md` or `.json` lands under the folder
      intact, and the type guessed from the saved path is markdown or JSON accordingly. */
  lemma SavedFileType(baseFolder: string, name: string, markdown: bool)
    requires CharsOK(name, Naming.NameChar)
    requires if markdown then EndsWith(name, ".md") else EndsWith(name, ".json")
    ensures var p := ExportPath(baseFolder, name);
      EndsWith(p, "/" + name) &&
      GuessMime(p) == (if markdown then "text/markdown" else "application/json")
  {
    var ext := if markdown then "md" else "json";
    var p := ExportPath(baseFolder, name);
    var front := CollapseSlashes(baseFolder + "/");
    assert p == front + name && EndsWith(p, "/" + name) by {
      assert forall i :: 0 <= i < |name| ==> Naming.NameChar(name[i]);
      ExportPathKeepsName(baseFolder, name);
    }
    var stem := name[..|name| - |ext| - 1];
    assert name == stem + "." + ext;
    assert p == (front + stem) + "." + ext;
    ExtensionOfAppend(front + stem, ext);
  }

  /** The file the export saves, `<title>__<version><types>.md` or `.json`, lands under the
      folder with its name intact, and the type guessed from that path is the one the
      export states: markdown for `.md`, JSON for `.json`. */
  lemma ExportedFileType(baseFolder: string, title: string, located: string, keys: seq<string>, markdown: bool)
    ensures var name := Naming.ExportFilename(Naming.Slug(title), Naming.VersionSegment(located), keys, markdown);
      var p := ExportPath(baseFolder, name);
      EndsWith(p, "/" + name) &&
      GuessMime(p) == (if markdown then "text/markdown" else "application/json")
  {
    Naming.ExportFilenameSpec(title, located, keys, markdown);
    SavedFileType(baseFolder, Naming.ExportFilename(Naming.Slug(title), Naming.VersionSegment(located), keys, markdown),
                  markdown);
  }

  // ---------------------------------------------------------------------------
  // getSettings

  /** A stored setting: a string or a flag. */
  datatype Value = Str(s: string) | Flag(b: bool)

  type Settings = map<string, Value>

  /** `DEFAULT_SETTINGS` */
  const Defaults: Settings :=
    map["baseFolder" := Str(DefaultFolder), "defaultFormat" := Str("json"), "includeLogsByDefault" := Flag(false)]

  /** `chrome.storage.sync.get(keys)` with an object of defaults: exactly the keys of the
      defaults, each with its stored value when there is one, else its default. */
  function StorageGet(stored: Settings, defaults: Settings): (res: Settings)
    ensures res.Keys == defaults.Keys
  {
    map k | k in defaults :: if k in stored then stored[k] else defaults[k]
  }

  /** `{ ...DEFAULT_SETTINGS, ...res }` and the legacy `exportMode` mapping, applied to res. */
  function MergeLegacy(res: Settings): Settings {
    var merged := Defaults + res;
    if "defaultFormat" !in res && "exportMode" in res && res["exportMode"].Str? then
      merged["defaultFormat" := Str(if res["exportMode"].s == "markdown" then "markdown" else "json")]
    else merged
  }

  /** `getSettings()` as written: the merge is applied to what the storage returns for
      the default keys only. */
  function GetSettingsAsWritten(stored: Settings): Settings {
    MergeLegacy(StorageGet(stored, Defaults))
  }

  /** `getSettings()` as intended: the merge is applied to everything stored, so a legacy
      `exportMode` is seen when no `defaultFormat` was stored. */
  function GetSettings(stored: Settings): Settings {
    MergeLegacy(stored)
  }

  /** As written, the result holds the default keys only, each stored value overriding its
      default; the legacy mapping never applies, since the storage always returns
      `defaultFormat`. */
  lemma GetSettingsAsWrittenSpec(stored: Settings)
    ensures var r := GetSettingsAsWritten(stored);
      r.Keys == Defaults.Keys &&
      forall k :: k in Defaults ==> r[k] == if k in stored then stored[k] else Defaults[k]
  {
    var res := StorageGet(stored, Defaults);
    assert "defaultFormat" in res;
  }

  /** A store holding only the legacy `exportMode: 'markdown'` yields the JSON format as
      written, and the markdown format as intended. */
  lemma LegacyExportModeIgnored()
    ensures GetSettingsAsWritten(map["exportMode" := Str("markdown")])["defaultFormat"] == Str("json")
    ensures GetSettings(map["exportMode" := Str("markdown")])["defaultFormat"] == Str("markdown")
  {
    var stored := map["exportMode" := Str("markdown")];
    GetSettingsAsWrittenSpec(stored);
    assert "defaultFormat" !in stored;
  }

  /** As intended: every default key is present; every stored key keeps its stored value,
      except that `defaultFormat`, when not stored, comes from a stored string `exportMode`
      (markdown exactly when it is 'markdown', else json) or else from the default. */
  lemma GetSettingsSpec(stored: Settings)
    ensures var r := GetSettings(stored);
      Defaults.Keys <= r.Keys &&
      (forall k :: k in stored && k != "defaultFormat" ==> r[k] == stored[k]) &&
      (forall k :: k in Defaults && k !in stored && k != "defaultFormat" ==> r[k] == Defaults[k]) &&
      r["defaultFormat"] ==
        if "defaultFormat" in stored then stored["defaultFormat"]
        else if "exportMode" in stored && stored["exportMode"].Str? then
          Str(if stored["exportMode"].s == "markdown" then "markdown" else "json")
        else Str("json")
  {
  }

  /** The folder setting, falling back to the default when it is empty or false:
      `settings.baseFolder || DEFAULT_SETTINGS.baseFolder`, stringified as the template does. */
  function BaseFolder(settings: Settings): (folder: string)
    ensures folder != ""
  {
    if "baseFolder" !in settings then DefaultFolder
    else match settings["baseFolder"]
      case Str(s) => if s == "" then DefaultFolder else s
      case Flag(b) => if b then "true" else DefaultFolder
  }

  /** The folder is the same whether the settings are read as written or as intended. */
  lemma BaseFolderUnaffected(stored: Settings)
    ensures BaseFolder(GetSettingsAsWritten(stored)) == BaseFolder(GetSettings(stored))
  {
    GetSettingsAsWrittenSpec(stored);
  }

  /** A file to save: `{ path, base64, mime }`. */
  datatype FileRequest = FileRequest(path: string, base64: string, mime: string)

  /** The `EXPORT_SINGLE` message: save one file under the configured folder, read with
      `getSettings` as written (BaseFolderUnaffected: the intended reader gives the same
      folder). */
  function ExportSingle(stored: Settings, file: FileRequest): Download {
    DownloadOne(ExportPath(BaseFolder(GetSettingsAsWritten(stored)), file.path), file.base64, file.mime)
  }

  /** The `EXPORT_FILES` message: every file under the configured folder, in order. */
  function ExportFiles(stored: Settings, files: seq<FileRequest>): (ds: seq<Download>)
    ensures |ds| == |files|
  {
    seq(|files|, i requires 0 <= i < |files| => ExportSingle(stored, files[i]))
  }

  /** Every file of an export is saved under the configured folder: its name has no leading
      slash and no `//`, and its other characters are the folder's followed by the path's. */
  lemma ExportFilesSpec(stored: Settings, files: seq<FileRequest>)
    ensures forall i :: 0 <= i < |files| ==>
      var f := ExportFiles(stored, files)[i].filename;
      (f == [] || f[0] != '/') && NoAdjacent(f, IsSlash) &&
      Keep(f, NotSlash) == Keep(BaseFolder(GetSettingsAsWritten(stored)), NotSlash) + Keep(files[i].path, NotSlash)
  {
    forall i | 0 <= i < |files|
      ensures var f := ExportFiles(stored, files)[i].filename;
        (f == [] || f[0] != '/') && NoAdjacent(f, IsSlash) &&
        Keep(f, NotSlash) == Keep(BaseFolder(GetSettingsAsWritten(stored)), NotSlash) + Keep(files[i].path, NotSlash)
    {
      DownloadOfExportPath(BaseFolder(GetSettingsAsWritten(stored)), files[i].path, files[i].base64, files[i].mime);
    }
  }
}
