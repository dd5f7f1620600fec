# ProfileHub, modelled in Dafny

ProfileHub is a small Go command-line tool that scaffolds and builds a
personal link page. This project models its file-handling core:

- `init` (cmd/init.go) picks a template from the catalog embedded in the
  binary. It refuses an unknown template before touching the disk. It then
  creates the project directory and extracts the template tree into it.
- `build` (cmd/build.go) prepares `dist/` and loads `config/config.yml`. It
  parses `src/index.html`, renders it into `dist/index.html`, and copies
  the layout, static and webfont trees into `dist/`.
- `CopyDir` (utils/config.go) and its twin `copyDir` (cmd/build.go) mirror
  a tree with `filepath.Walk`. They skip entries named `.gitkeep` and stop
  at the first error.
- `LoadConfig` (utils/config.go) reads and decodes the site configuration.
- The stand-alone server in main.go has a loader pair, a theme resolution
  step and the recursive `printYAML` formatter.

How the model is built:

- **The file tree** is a map from paths to nodes. A path is a list of
  components, and `[]` is the working directory. A node is a directory or
  a file with its bytes.
- **The disk** is a `FileSystem.Disk` object whose `entries` field the os
  calls update in place. Each method is proved equal to a specification
  function: `Mkdirs`, `Created` or `Written`.
- **Library results are inputs**, because the library code is not part of
  this model:
  - a refused os call is a `denied` flag;
  - a failure at a given path is a `Faults` map;
  - the YAML decoder, the template parser and the renderer are function
    parameters;
  - the order in which `filepath.Walk` visits paths is an `order` list.
    `CopyTree.CopyDirMirrorsSource`, `Build.CopyStepLands` and
    `Build.RunBuildCopyLands` assume `CopyTree.IsWalkOrder`: the root, then
    every entry below it, each once, in lexical order.
    `CopyTree.WalkOrderUnique` proves that only one list qualifies. The
    other walk lemmas hold for any order.
  - Go's map iteration order is a `KeyOrder` function.
- **The embedded catalog** is a tree of `Scaffold.EmbedEntry` values. The
  children of each directory are listed in `ReadDir` order.
- **Printed messages** are event lists (`InitEvent`, `BuildEvent`) or line
  lists (`YamlLines`). The exact wording is not modelled.

## Model

| member | source | states |
|---|---|---|
| Paths.Target | utils/config.go:85-95 | `Join(dst, Rel(src, p))` lies within `dst`, at the same depth below it as `p` is below `src`. `src` itself maps to `dst`. Every other entry keeps its base name. |
| Paths.TargetInjective | utils/config.go:85-95 | Two distinct source entries never share a destination path. |
| Paths.AncestorFirst | utils/config.go:80 | In the walk's lexical order, a directory comes before everything below it. |
| FileSystem.Mkdirs | utils/config.go:96-98 | `os.MkdirAll` succeeds iff it is not refused and no component of the path is a regular file. On success, every prefix of the path is a directory. It keeps every existing entry. It adds only directories on the path. On error, the tree is unchanged. |
| FileSystem.Created | utils/config.go:106-109 | `os.Create` succeeds iff the parent is a directory and the target is not one. On success, it leaves an empty file. On error, the tree is unchanged. |
| FileSystem.Written | cmd/init.go:105-107 | `os.WriteFile` succeeds under the same condition as `os.Create`. Afterwards the file holds exactly the given bytes. On error, the tree is unchanged. |
| FileSystem.ReadBytes | utils/config.go:55-58 | `os.ReadFile` returns bytes iff the path is a readable regular file. The bytes are that file's content. |
| FileSystem.Disk.MkdirAll | utils/config.go:96-98 | The disk ends up exactly as `Mkdirs` says, and the same error is returned. |
| FileSystem.Disk.Create | utils/config.go:106-109 | The disk ends up exactly as `Created` says, and the same error is returned. |
| FileSystem.Disk.Fill | utils/config.go:112 | `io.Copy` into the file just created: the file holds the copied bytes, and nothing else changes. |
| FileSystem.Disk.WriteFile | cmd/init.go:105 | The disk ends up exactly as `Written` says, and the same error is returned. |
| CopyTree.Visit | utils/config.go:80-114 | One callback call, with every branch in source order. A missing or unstattable entry gives the stat error, and a path outside `src` gives the `Rel` error, both with the tree unchanged. A `.gitkeep` entry gives nil with no change. A directory succeeds iff its `MkdirAll` is not refused and no file is on the target path; otherwise the error is `MkdirAll`'s, with the tree unchanged. A file succeeds iff open, create and copy are not refused and the target can be created. An open failure leaves the tree unchanged. A create failure leaves it unchanged too. A copy failure leaves an empty file at the target. On success with `src != dst`, the target mirrors the entry. With `src == dst` a file is its own target, and the copy leaves it empty, as Go's `os.Create` truncates the file just opened for reading. It changes no file other than the target, removes no directory, and leaves everything away from `dst` untouched. |
| CopyTree.VisitEntry | utils/config.go:80-114 | The callback on the disk, proved equal to `Visit`. |
| CopyTree.Walk | utils/config.go:79-115 | `filepath.Walk` with the callback, over the visit order. A nil result means every visited path lay under `src`. An error is an I/O error that names a visited path or its target. |
| CopyTree.CopyDir | utils/config.go:79-115 | The walk loop on the disk. Its final tree and error equal `Walk` over the visit order. |
| CopyTree.WalkAppend | utils/config.go:80-84 | A walk over `a + b` walks `b` only when the walk over `a` returned nil. |
| CopyTree.WalkStopsAtFirstError | utils/config.go:80-113 | A failing walk fails at exactly one entry. Every entry before it returned nil, and its error is the walk's result. Later entries are not visited. |
| CopyTree.WalkConfined | utils/config.go:85-95 | Whatever the outcome, nothing outside `dst` and its ancestors changes. |
| CopyTree.WalkKeepsDirs | utils/config.go:96-113 | No directory disappears during a walk, wherever it stops. |
| CopyTree.WalkKeeps | utils/config.go:95-113 | After a successful walk, an entry that no visited path targets is unchanged. |
| CopyTree.WalkMirrors | utils/config.go:95-113 | Take a successful walk over distinct paths, with `dst` neither inside `src` nor an ancestor of it. Then a visited entry under `src` that is not named `.gitkeep` is mirrored at its target. |
| CopyTree.CopyDirMirrorsSource | utils/config.go:69-115 | `CopyDir` returned nil, in walk order, with `dst` outside `src`. Then every source directory is a directory at `dst/r`, and every source file is at `dst/r` with identical bytes, except entries named `.gitkeep`. |
| CopyTree.NoSentinelCreated | utils/config.go:90-93 | If no `.gitkeep` directory below `src` has contents, the walk creates no new entry named `.gitkeep` under `dst`. |
| CopyTree.SentinelDirectoryLeaks | utils/config.go:90-97 | A `.gitkeep` directory with a subdirectory is skipped but still descended into. The child's `MkdirAll` then creates `dst/.gitkeep`. |
| CopyTree.WalkOrderUnique | utils/config.go:80 | There is only one lexical visit order for a given tree, so the `order` input is determined by the tree. |
| SiteConfig.LoadConfig | utils/config.go:54-67 | A read failure yields `ReadError`, and a decode failure yields `ParseError`. Both come back with the zero `Config`. A successful read and decode returns the decoded value with a nil error. |
| Scaffold.SplitJoin | cmd/init.go:29 | Splitting a template name at `/` and joining it again gives the name back. |
| Scaffold.JoinSplit | cmd/init.go:29 | Joining slash-free elements with "/" and splitting the result gives the elements back. |
| Scaffold.EmbedPath | cmd/init.go:29 | `fs.ValidPath`: "." names the root. Any other accepted name is the join of its elements, and every element is non-empty, not "." and not "..". A rejected name has an invalid element. |
| Scaffold.EmbedPathAccepts | cmd/init.go:29 | Every non-empty list of valid elements is accepted. Its joined name maps back to that same list. |
| Scaffold.Find | cmd/init.go:29 | The entry found has the wanted name and is in the directory. No result means no entry has that name. |
| Scaffold.Known | cmd/init.go:29 | `templates.FS.ReadDir(name)` succeeds iff the name is "." or a valid path to a directory of the catalog. A path to a file is refused. |
| Scaffold.FindUnique | cmd/init.go:29 | With distinct sibling names, the lookup returns the entry that carries the name. |
| Scaffold.AvailableTemplates | cmd/init.go:32-38 | The listing holds a name iff a directory of the embedded root has it. Its length is the number of directory entries, so each directory is printed once and plain files never are. |
| Scaffold.AvailableTemplatesInOrder | cmd/init.go:34-38 | Two template directories are listed in their `ReadDir` order. |
| Scaffold.ListedTemplatesKnown | cmd/init.go:29-38 | Every name the listing prints is accepted by the `ReadDir` check, given distinct valid names. |
| Scaffold.ExtractDirInto | cmd/init.go:78-112 | `extractDir` on the disk: the loop over the entries, recursing into directories. Its final tree and error equal `ExtractDir`. |
| Scaffold.ExtractDir | cmd/init.go:78-112 | `extractDir`: a `ReadDir` failure comes first, then the loop over the entries. It removes no existing entry. An error is an I/O error of `ReadDir`, `MkdirAll`, `ReadFile` or `WriteFile`. |
| Scaffold.ExtractEntries | cmd/init.go:84-109 | The loop over the entries; the first error ends it. It removes no existing entry, and its errors are of the same four kinds. |
| Scaffold.ExtractEntry | cmd/init.go:85-107 | One iteration: a directory is created and recursed into, and a file is read, its parent created and the file written. It removes no existing entry, and its errors are of the same four kinds. |
| Scaffold.ExtractEntriesAppend | cmd/init.go:84-109 | Extracting `a + b` extracts `b` only when `a` returned nil. |
| Scaffold.ExtractStopsAtFirstError | cmd/init.go:79-107 | A failing extraction fails at one entry. The entries before it returned nil, its error (`ReadDir`, `MkdirAll`, `ReadFile` or `WriteFile`) is returned, and later entries are not written. |
| Scaffold.ExtractDirKeeps | cmd/init.go:85-107 | Whatever the outcome, extraction keeps every directory and every file outside `dest`. A new entry lies within `dest` or is a directory on the way to it. |
| Scaffold.ExtractEntriesKeeps | cmd/init.go:84-109 | The same for the loop over one directory's entries. |
| Scaffold.ExtractEntryKeeps | cmd/init.go:86-107 | One entry keeps every directory and every file not at or below `dest/name`. A new entry is at or below `dest/name`, or is a directory on the way to it: a file's `MkdirAll(filepath.Dir(dstPath))` may create `dest` and its ancestors. |
| Scaffold.ExtractEntriesKeepFile | cmd/init.go:84-109 | A file that no sibling is extracted onto survives the extraction of the siblings. |
| Scaffold.ExtractDirMirrors | cmd/init.go:84-108 | After a nil result, every embedded entry at `r` is at `dest/r`: a directory as a directory, a file with identical bytes. No name is filtered, `.gitkeep` included. |
| Scaffold.ExtractEntriesMirrors | cmd/init.go:84-109 | The same for the loop over one directory's entries. |
| Scaffold.ExtractEntryMirrors | cmd/init.go:88-107 | One entry that returned nil is at `dest/name`, and so is its whole subtree. |
| Scaffold.ExtractTemplate | cmd/init.go:67-76 | An unknown template returns "not found" before anything is written. Otherwise every directory and every file outside the project is kept, and a new entry lies within the project or is a directory on the way to it. |
| Scaffold.RunInit | cmd/init.go:19-64 | An empty `--template` means "default". An unknown template prints the error and then exactly the directory listing, and the tree is unchanged. A known one logs "Creating" first. Success is printed iff the name is known, `MkdirAll` succeeded and extraction returned nil. A failed `MkdirAll` logs its error, leaves the tree unchanged and extracts nothing. A failed extraction logs that extraction's own error, and the tree is the one the extraction left. Every existing directory and every file outside the project directory is kept. A new entry lies within the project or is a directory on the way to it. |
| Scaffold.Init | cmd/init.go:19-64 | initCmd's Run on the disk, proved equal to `RunInit`. |
| Scaffold.InitMirrorsTemplate | cmd/init.go:47-58 | When success is printed, the project directory exists and holds the whole template tree. |
| Build.Prepare | cmd/build.go:53-54 | When not blocked, `dist`, `dist/static` and `dist/webfonts` are directories afterwards. Errors are dropped. Existing entries are kept, and new entries are directories under `dist`. |
| Build.ConfigDocument | cmd/build.go:58-76 | A document comes back iff the config is a regular file that decodes. A directory opens but fails to decode. |
| Build.IndexTemplate | cmd/build.go:80 | `template.ParseFiles("src/index.html")` succeeds iff the file can be read, is a regular file and parses. The template is then that file's content. |
| Build.Parsed | cmd/build.go:58-90 | Run reaches `os.Create("dist/index.html")` iff the config opens, is a regular file and decodes, and `src/index.html` can be read and parses. The job is then that template, the glob outcome and the decoded document. |
| Build.CopyConfined | cmd/build.go:16-46 | A `copyDir` step changes nothing away from its own `dist/` directory and removes no directory. It is the same walk as `CopyDir`. |
| Build.Copy | cmd/build.go:104-117 | One `copyDir` call of Run walks the step's source tree into its `dist/` directory. A nil result means every visited path lay under that source. An error is an I/O error. |
| Build.CopyAll | cmd/build.go:103-117 | The three copies all run. Their errors are reported in the order layout, static, webfonts, at most one each. No path away from the three `dist/` targets changes, and no directory is removed. |
| Build.RunBuild | cmd/build.go:51-119 | "Building" comes first, then either exactly one aborting error or any copy errors followed by "Build complete". Each abort happens exactly when its cause holds: the config does not open, does not decode, `src/index.html` cannot be read or does not parse, `dist/index.html` cannot be created, or rendering fails. A failing glob never aborts. "Build complete" is printed iff both parsed, the create succeeded and rendering succeeded, and then `dist/index.html` holds the rendered page. The final tree and the copy errors are then exactly those of `CopyAll` run on the prepared tree with the page written, and the log is "Building", those copy errors, then "Build complete". A config or template abort leaves only the two prepared directories. A render error leaves only `dist/index.html` changed. The dist directories exist on every outcome when their `MkdirAll` is not blocked. |
| Build.Compile | cmd/build.go:65-118 | A decode failure comes before any template parse. A template read or parse failure comes before `dist/index.html` is created, and neither changes the tree. Once both parsed, the rest is `Publish` with that template and document. |
| Build.Publish | cmd/build.go:92-118 | The create error is reported iff `os.Create` fails, and then nothing changes. The render error is reported iff the create succeeded and rendering failed, and then only `dist/index.html` changes, holding the partial output, and no copy runs. Otherwise the three copies run on the tree with the rendered page, and "Build complete" follows whatever they reported. `dist/index.html` then still holds the page. |
| Build.RunOnDisk | cmd/build.go:51-119 | buildCmd's Run on the disk, proved equal to `RunBuild`. |
| Build.CompileOnDisk | cmd/build.go:65-90 | Proved equal to `Compile`. |
| Build.PublishOnDisk | cmd/build.go:92-101 | Proved equal to `Publish`. |
| Build.CopyAllOnDisk | cmd/build.go:103-117 | Proved equal to `CopyAll`. |
| Build.CopyAllReports | cmd/build.go:104-117 | Any error a copy step returns is reported under that step, whether or not an earlier step failed. |
| Build.CopyAllReportsOwn | cmd/build.go:104-117 | Every copy error in the log is the error its own step returned. |
| Build.CopyAllKeepsTarget | cmd/build.go:103-117 | The later copy steps do not touch what an earlier step wrote in its own `dist/` directory. |
| Build.CopyStepLands | cmd/build.go:103-117 | Take a copy step that reported no error, walked in lexical order. Its source tree, apart from `.gitkeep` entries, is mirrored in its `dist/` directory at the end, whatever the other steps did. |
| Build.RunBuildCopyLands | cmd/build.go:92-118 | Take a completed build and a copy step that walked its source in lexical order and whose error is not in the log. Every entry of that source, apart from `.gitkeep` entries, is mirrored in its `dist/` directory in the tree the build leaves. |
| LegacyMain.Pad | main.go:14-17 | The padding loop yields exactly 2·indent spaces. |
| LegacyMain.PrintYaml | main.go:13-37 | `printYAML` returns the strings its `Printf` calls print, without the newlines, equal to `YamlLines`. A scalar prints the single string `pad + key + ": " + value`. |
| LegacyMain.PrintFields | main.go:19-23 | The loop over a `map[string]interface{}`, in the map's iteration order, equals `FieldLines`. |
| LegacyMain.PrintPairs | main.go:24-28 | The loop over a `map[string]string`, in the map's iteration order, equals `PairLines`. |
| LegacyMain.PrintItems | main.go:29-33 | The loop over a list, in index order, equals `ItemLines`. |
| LegacyMain.YamlLines | main.go:13-37 | `printYAML` as a function of the key, value, indent and map order. It prints at least one string, and exactly one for a string or other scalar. |
| LegacyMain.DecimalRoundTrip | main.go:32 | `%d` of an index reads back as that index. |
| LegacyMain.ItemKeysDistinct | main.go:31-32 | Distinct list indices print under distinct keys `[i]`. |
| LegacyMain.YamlIndented | main.go:13-37 | The first string is the key's own line at 2·indent spaces. Every later string belongs to a nested value and is indented at least two spaces more. |
| LegacyMain.FieldsIndented | main.go:19-23 | Nested map entries print at the next level. |
| LegacyMain.ItemsIndented | main.go:29-33 | List items print at the next level. |
| LegacyMain.PairsIndented | main.go:24-28 | Every `map[string]string` line starts with `pad + "  "`. |
| LegacyMain.StringMapLines | main.go:24-28 | A `map[string]string` prints its key line and then exactly one `pad + "  k: v"` line per entry, with no recursion. |
| LegacyMain.ListLinesInOrder | main.go:29-33 | Item i prints under key `[i]` one level deeper. Its lines come right after the lines of items 0 to i-1. |
| LegacyMain.LoadConfigMap | main.go:39-52 | `loadConfig` returns a nil map with a read or a parse error. A successful read and decode returns the decoded map with a nil error. |
| LegacyMain.LoadThemes | main.go:54-67 | `loadThemes` returns a nil map with a read or a parse error. A successful read and decode returns the decoded table with a nil error. |
| LegacyMain.Start | main.go:69-90 | Start-up stops with its own reason at each of the four fatal points, checked in order. A config load error is reported with that error, before the themes are read. A `theme` that is missing or not a string gives `ThemeNameMissing`. A themes load error is reported with that error. A theme name the table lacks gives `ThemeUnknown` with that name. Otherwise `config["theme"]` holds that theme's colours and every other key is unchanged. |

## Left out

- YAML decoding, `html/template` parsing, execution and escaping are foreign libraries. They are function parameters (`decode`, `parse`, `render`, `unmarshal`), so their behaviour is not modelled.
- The HTTP server in main.go:94-102 and in cmd/dev.go is network I/O. cmd/dev.go is not part of this model.
- `template.Must(template.ParseFiles(...))` at main.go:92 panics at start-up when the page template cannot be read or parsed. `LegacyMain.Start` ends at `Serving` before that point, so this panic is not modelled.
- cobra command registration and flag reading (cmd/root.go, the `init()` functions) are CLI plumbing. The flag value and the project name are parameters.
- File modes, permissions, symbolic links and partial writes by `io.Copy` are not modelled. A copy either completes or fails without writing, apart from the empty file `os.Create` leaves.
- Open file handles are not modelled. Truncation by `os.Create` is modelled on whole file contents only: a later read sees the contents as they are at that moment. For `CopyTree.Visit` with `src == dst`, this gives the empty file the row above describes.
- The walk order is taken from the tree when each walk starts. A walk that changes the tree it is still walking is not modelled.
- `filepath.Rel` never fails for paths the walk hands out. The model keeps the error branch for paths outside `src`.
- Go map iteration order is random on every `range`. The model fixes it per key set through `KeyOrder`.
- The embedded catalog's `ReadDir(".")` for the template listing never fails, so the listing is always printed.
- When `ParseGlob` fails partway, `html/template` may keep some layouts in the template set. The model records only whether the glob parsed (`TemplateSet.withLayouts`).
- The bytes of the partials under `src/layout` are not carried in `TemplateSet`, which holds only `src/index.html` and the glob flag. So in the model a rendered page cannot depend on the partials' contents.
- The exact text of console messages is not modelled. Events record which step reported what.
- LegacyMain.YamlLines: each element is the string one `Printf` call prints, without its newline. A key or scalar value that itself contains a newline, such as a YAML block scalar, spans several lines on the terminal, and its continuation lines carry no padding. The indentation lemmas are about these strings, not about terminal lines.
- CopyTree.NoSentinelCreated: holds only when no `.gitkeep` directory below the source has contents. `CopyTree.SentinelDirectoryLeaks` shows that such a directory is recreated under the destination.
- LegacyMain.YamlIndented: `printYAML` takes a Go `int` indent, but the model takes a natural number. With a negative indent Go pads nothing at that level or at the nested levels that stay negative, so "two spaces more" does not hold there. main.go has no call to it apart from its own recursion, which only adds 1.
- CopyTree.Visit: the working directory `[]` is never an entry of the tree, so a walk rooted at "." fails at once with the stat error, while Go's `Lstat(".")` succeeds. Walks from "." are not modelled. The build's walks start at `src/...`.
- CopyTree.CopyDirMirrorsSource: assumes the destination is not inside the source or the other way round. A copy into its own subtree changes the tree it walks.
