# snap-packaging core, modelled in Dafny

This project models the self-contained logic of the snap packaging scripts:

- **Package staging** (`Packaging::Platform`, module `Platforms`):
  - the constructor defaults;
  - the de-duplicated, nil-free skeleton directory list;
  - the staging, output and binary roots;
  - the build-VM path rewriting;
  - the three staging steps `create_skeleton`, `package_binary` and `create_symlink`, and `prep_package`, which runs them in order.
- **Filesystem helpers and version repair** (`Packaging::Util`, module `Util`):
  - `mkdir_p`, `ln_s` and `valid_symlink?`;
  - `semver`, with its fallback extraction of the leftmost, longest match of `\d*\.\d*\.\d*`.
- **Plugin naming and metadata** (`Packaging::Plugins`, module `Plugins`):
  - `plugin_name`: the line-anchored prefix match, the acronym table and the capitalising fallback;
  - `metadata`: the type classification, the records and the `myfcn(`…`)` wrapper.

Supporting modules:

- `Paths`: Ruby's `File.join`, plus basename, parent and ancestors.
- `FileSystem`: an abstract filesystem.
  - A value `Tree` holds a set of directories, a map of regular files and a map from link path to stored target.
  - The class `Disk` holds that state and offers the `FileUtils` primitives `mkdir_p`, `cp` and `ln_s`.
- `SemVer`: the strict version grammar of Semantic Versioning 2.0.0 (items 2, 9 and 10), which stands in for the `semantic` gem.
- `Lists`: `Array#uniq` and `Array#compact`.
- `Strings`: substring search.
- `Wrappers`: `Option`, `Result` and `Outcome`.

A staging step is a `method` that takes a `Disk`. Each one is proved equal to a specification function over `Tree` values, and the end-state properties are lemmas about those functions. A raised exception is an `Err`/`Fail` value.

## Model

| member | source | states |
|---|---|---|
| Platforms.New | lib/packaging/platform.rb:22-32 | Construction fails exactly when the project lookup finds nothing, and then with the "project does not exist" error |
| Platforms.NewAsWritten | lib/packaging/platform.rb:24-25 | As written, construction fails exactly when the lookup finds nothing, and then with a method call on nil rather than the intended message |
| Platforms.NewMissingProject | lib/packaging/platform.rb:24-32 | The written and the intended constructors agree whenever the project exists; for a missing project the written one fails on `nil.name` and the intended one with the project's name |
| Platforms.SkelDirectoriesSpec | lib/packaging/platform.rb:48-62 | The skeleton has no duplicates and no nil, lists exactly the non-nil literal entries, includes the service directory when it is set, and keeps the order of first occurrence |
| Platforms.DefaultSkeleton | lib/packaging/platform.rb:28-32 | With the constructor's roots, `man` is `/opt/<proj>/share/man`, and the skeleton contains `/usr/bin`, `/etc/<proj>`, `/etc/<proj>/keyrings`, `/var/log/<proj>`, `/opt/<proj>/bin`, `/opt/<proj>/plugins` and `man1`, `man5` and `man8` under `man` |
| Platforms.SkeletonUnderRoots | lib/packaging/platform.rb:50-60 | For any roots without a trailing separator, the skeleton entries are spelled out as root + "/" + project name (+ sub-path) |
| Platforms.RootsSpelledOut | lib/packaging/platform.rb:149-175 | `tmp_path` is `tmp/<os_name>/<os_version>`, `out_path` is `pkg/os/<os_name>/<os_version>`, and `go_binary_path` is `pkg/<osarch>` |
| Paths.JoinEnds | lib/packaging/platform.rb:150 | `File.join` begins with the left part, less its trailing separators, and ends with the right part. A separator always stands between a non-empty left part and a relative right part |
| Paths.JoinPlain | lib/packaging/platform.rb:150 | A relative part joined onto one without a trailing separator gets exactly one separator between them |
| Paths.JoinAbsolute | lib/packaging/platform.rb:65 | An absolute skeleton path joined onto the staging root follows the root, less its trailing separators |
| Paths.JoinAssoc | lib/packaging/platform.rb:112 | With a non-empty middle part, joining three parts gives the same path whichever two are joined first |
| Paths.Basename | lib/packaging/platform.rb:110 | The basename is the longest tail of the path that holds no separator: the whole path when it has none, otherwise everything after its last separator |
| Paths.Parent | lib/packaging/util.rb:23 | Without a separator the parent is `.`. Otherwise the path is the parent, a separator and the basename, where the parent is `/` or a proper ancestor |
| Paths.Lineage | lib/packaging/util.rb:14 | The directories `mkdir_p` creates for a path are the path and its proper ancestors |
| Paths.ParentOfJoin | lib/packaging/platform.rb:110-111 | A file name joined onto a directory names an entry whose parent is that directory and whose basename is that name |
| Paths.JoinInjective | lib/packaging/platform.rb:110-111 | Distinct file names joined onto the same directory give distinct paths |
| Paths.NotInParentLineage | lib/packaging/util.rb:23-24 | Creating the parent of a path, other than `/` or `.`, never creates the path itself |
| Platforms.SubFirstSpec | lib/packaging/platform.rb:155 | `String#sub` with a plain pattern removes exactly the first occurrence, and leaves the string unchanged when there is none |
| Platforms.FpmPaths | lib/packaging/platform.rb:153-171 | Without a build VM, the fpm paths are the staging and output roots. With one, a leading project path is cut off, and a path that does not contain it is unchanged |
| Platforms.OptBinListed | lib/packaging/platform.rb:56 | `<opt>/<proj>/bin` is always a skeleton directory |
| Platforms.OptBinIsRebased | lib/packaging/platform.rb:70 | The directory `package_binary` copies into is the skeleton's `<opt>/<proj>/bin`, rebased under the staging root |
| Platforms.LinkPair | lib/packaging/platform.rb:110-112 | The link is `<tmp>/usr/bin/<b>` and its target is the install path `/opt/<proj>/bin/<b>`, not a staging path |
| Platforms.CopyAllFailStays | lib/packaging/platform.rb:71-73 | Once a copy in the loop fails, the rest of the binary list is not processed |
| Platforms.LinkAllFailStays | lib/packaging/platform.rb:109-114 | Once a link in the loop fails, the rest of the binary list is not processed |
| Platforms.SkeletonEffect | lib/packaging/platform.rb:64-67 | `create_skeleton` succeeds exactly when no rebased skeleton directory is blocked by a file or link. On success every rebased skeleton directory and its ancestors exist. Files and links are untouched |
| Platforms.CopyAllEffect | lib/packaging/platform.rb:69-74 | The copies only add or overwrite files. An empty binary list changes nothing. On success each binary's basename is a file in the target directory |
| Platforms.CopyAllKeeps | lib/packaging/platform.rb:71-73 | Files that are not a copy destination keep their contents, and no other file appears |
| Platforms.CopyAllContents | lib/packaging/platform.rb:71-73 | With distinct basenames, each staged copy holds the contents of its source binary |
| Platforms.LinkAllEffect | lib/packaging/platform.rb:108-115 | On success every binary's link path is a symlink whose stored target is the matching target path |
| Platforms.PrepPackageEndState | lib/packaging/platform.rb:35-38 | After skeleton, binaries and symlinks: every skeleton directory exists under `tmp_path`, every binary is at `tmp/opt/<proj>/bin/<b>`, and every `tmp/usr/bin/<b>` is a symlink to `/opt/<proj>/bin/<b>` |
| Platforms.CopyAllPasses | lib/packaging/platform.rb:69-74 | The copy loop completes when the target directory exists and each binary is a regular file with a non-empty basename. Its copy target must not be the binary itself, a directory or a link |
| Platforms.LinkAllPasses | lib/packaging/platform.rb:108-115 | The link loop completes when nothing blocks the link directory and nothing stands at any link path. A repeated basename finds its link already right. The loop changes no file, and adds only the binaries' links and the link directory's lineage |
| Platforms.SkeletonOnly | lib/packaging/platform.rb:64-67 | `create_skeleton` adds no directory other than the rebased skeleton directories and those above them |
| Platforms.PrepRunPasses | lib/packaging/platform.rb:34-37 | The first three steps complete on a valid tree when: nothing blocks the skeleton; the binaries are regular files; and no staged copy or link path collides with a directory, a link, a skeleton directory, the binary itself or another binary's copy |
| Platforms.CreateSkeleton | lib/packaging/platform.rb:64-67 | The method leaves the disk and returns the outcome given by the skeleton specification |
| Platforms.PackageBinary | lib/packaging/platform.rb:69-74 | The copy loop leaves the disk and returns the outcome given by the copy specification over the binary list |
| Platforms.CreateSymlink | lib/packaging/platform.rb:108-115 | The link loop leaves the disk and returns the outcome given by the symlink specification over the binary list |
| Platforms.PrepPackage | lib/packaging/platform.rb:35-38 | The three steps run in order and stop at the first failure, as the combined specification says |
| Lists.UniqSpec | lib/packaging/platform.rb:61 | `uniq` gives distinct elements, the same element set, and the order of first occurrence |
| Lists.CompactUniqSpec | lib/packaging/platform.rb:61 | `uniq.compact` is distinct, holds exactly the non-nil values, and keeps the order of first occurrence |
| FileSystem.MakeDirsEffect | lib/packaging/util.rb:14 | `FileUtils.mkdir_p` succeeds exactly when neither the directory nor any ancestor is a file or link. On success it adds exactly the directory and its ancestors. On failure it changes nothing |
| FileSystem.MakeDirsAllEffect | lib/packaging/platform.rb:66 | `FileUtils.mkdir_p` of a list creates each directory's lineage and nothing outside them. It succeeds exactly when none is blocked |
| FileSystem.CopyFileEffect | lib/packaging/platform.rb:72 | `FileUtils.cp` into a directory copies the source's contents to the target and changes nothing else |
| FileSystem.MakeLinkEffect | lib/packaging/util.rb:24 | `FileUtils.ln_s` stores the target at the link. Without force, an existing entry makes it fail and nothing is removed |
| FileSystem.CopyFilePasses | lib/packaging/platform.rb:72 | `FileUtils.cp` completes exactly when the source is a regular file and the target is not the source, a directory or a link, and the target's parent is a directory |
| FileSystem.MakeLinkPasses | lib/packaging/util.rb:24 | `FileUtils.ln_s` completes exactly when no directory stands at the link, force is given if a file or link does, and otherwise the link's parent is a directory |
| FileSystem.Disk.MkdirP | lib/packaging/util.rb:14 | The disk state after the call is the one the `mkdir_p` specification gives |
| FileSystem.Disk.MkdirPList | lib/packaging/platform.rb:66 | The directory loop leaves the disk in the state, and returns the outcome, of the list specification |
| FileSystem.Disk.Cp | lib/packaging/platform.rb:72 | The disk state after the call is the one the copy specification gives |
| FileSystem.Disk.LnS | lib/packaging/util.rb:24 | The disk state after the call is the one the link specification gives |
| Util.GuardRedundant | lib/packaging/util.rb:12-16 | Util's `mkdir_p`, which skips existing directories, has the same effect as the unguarded library call on a list |
| Util.MkdirPEffect | lib/packaging/util.rb:12-16 | Afterwards each directory and all its ancestors exist (on success). Existing directories, files and links are untouched, and nothing is created outside the lineages |
| Util.MkdirPIdempotent | lib/packaging/util.rb:12-16 | Calling `mkdir_p` a second time with the same list succeeds and changes nothing |
| Util.MkdirPFailStays | lib/packaging/util.rb:13-15 | Once one directory fails, the remaining ones are not attempted |
| Util.MkdirP | lib/packaging/util.rb:12-16 | The loop leaves the disk and returns the outcome given by the `mkdir_p` specification |
| Util.LnSEffect | lib/packaging/util.rb:21-25 | On success, the link's parent is a directory and `valid_symlink?(link, target)` holds. Without force, existing entries are never removed |
| Util.LnSIdempotent | lib/packaging/util.rb:22 | A repeated `ln_s` with the same link and target, with or without force, is a no-op |
| Util.LnSCollision | lib/packaging/util.rb:21-24 | Without force, a directory, a file, or a link to another target at `link` makes the call fail and changes nothing |
| Util.LnSForce | lib/packaging/util.rb:21-24 | With force, a file or a differently-targeted link at `link` is replaced by the link, and nothing else changes |
| Util.LnSPasses | lib/packaging/util.rb:21-25 | `ln_s` completes exactly when the link is already valid, or when nothing blocks its parent, no directory stands at the link, and force is given or nothing stands there |
| Util.LnSShape | lib/packaging/util.rb:21-25 | Without force, `ln_s` changes no file, adds directories only on the way to the link's parent, and adds no link other than its own |
| Util.IsValidSymlink | lib/packaging/util.rb:30-32 | The disk query is true exactly when `link` is a symlink whose stored text is `target` |
| Util.ValidSymlinkExact | lib/packaging/util.rb:28-32 | A valid symlink is valid for its exact stored text and no other. The answer does not depend on which directories and files exist, so the target need not exist |
| Util.LnS | lib/packaging/util.rb:21-25 | The method leaves the disk and returns the outcome given by the `ln_s` specification |
| Util.MatchEndAtSpec | lib/packaging/util.rb:77 | From a start position, the greedy match ends at the longest end for which the text fits `\d*\.\d*\.\d*`, and is absent when no end fits |
| Util.LeftmostMatchSpec | lib/packaging/util.rb:77 | The search returns the first start position at which the pattern matches, and nothing when no position matches |
| Util.CleanVersionSpec | lib/packaging/util.rb:77 | The extracted text is a substring matching the pattern, with no match starting earlier and no longer match at the same start. It is absent exactly when no substring matches |
| Util.SemverOfWellFormed | lib/packaging/util.rb:74-75 | A version string that parses strictly is returned as that version |
| Util.SemverInTag | lib/packaging/util.rb:74-79 | Any version `semver` returns is well formed, and its canonical text occurs in the input |
| Util.SemverFallbackPlain | lib/packaging/util.rb:76-78 | A version recovered by the fallback has no pre-release and no build part |
| Util.SemverWithoutDot | lib/packaging/util.rb:74-78 | Input with at most one dot neither parses strictly nor holds a match of the pattern, so `semver` raises on the nil match |
| Util.SemverOfTwoPartTag | lib/packaging/util.rb:74-78 | `v1.2` is refused |
| Util.SemverOfPrefixedTag | lib/packaging/util.rb:72-78 | A tag made of a non-empty prefix with no digits or dots, `X.Y.Z` and a suffix not starting with a digit (such as `v0.13.0-beta`) yields `X.Y.Z` |
| Util.SemverOfDots | lib/packaging/util.rb:77-78 | `..` matches the pattern with empty digit runs, and the strict re-parse of it fails |
| SemVer.ParseFormat | lib/packaging/util.rb:75 | The strict parser reads back every well-formed version from its canonical text |
| SemVer.FormatParse | lib/packaging/util.rb:75 | Every string the strict parser accepts is the canonical text of the well-formed version it returns |
| Plugins.CaptureSpec | lib/packaging/plugins.rb:14 | No capture exactly when no line starts with a plugin prefix. Otherwise the kind is the prefix on the first such line, and the capture runs from after the prefix to the end of that line |
| Plugins.CaptureOfPrefixed | lib/packaging/plugins.rb:14 | A one-line name `snap-plugin-<kind>-<suffix>` captures that kind and suffix |
| Plugins.PrefixAlternatives | lib/packaging/plugins.rb:14 | At most one of the three kind prefixes can match at a position |
| Plugins.DisplayNameSpec | lib/packaging/plugins.rb:18-35 | Table keys map to their table values. The empty suffix fails on the nil slice. Any other suffix gives its first character upper-cased and the rest unchanged |
| Plugins.DisplayNameExamples | lib/packaging/plugins.rb:18-35 | `mysql` gives `MySQL`, `nfs-client` gives `NFS Client`, `haproxy` gives `HAproxy`, `foobar` gives `Foobar`, and the empty suffix fails |
| Plugins.PluginNameSpec | lib/packaging/plugins.rb:13-36 | `plugin_name` raises "Unknown snap_plugin" exactly when no line carries a prefix. It fails on the nil slice exactly when the captured suffix is empty |
| Plugins.PluginNameOfPrefixed | lib/packaging/plugins.rb:14-35 | For a one-line prefixed name, the plugin name is the display name of the suffix |
| Plugins.PluginNameOfBarePrefix | lib/packaging/plugins.rb:14-35 | `snap-plugin-<kind>-` with nothing after it passes the raise check, then fails in the fallback |
| Plugins.ClassifySpec | lib/packaging/plugins.rb:44-53 | The type is the kind word that occurs anywhere in the name, taking `collector`, then `processor`, then `publisher`. It is unknown exactly when none occurs |
| Plugins.ClassifyOfMatch | lib/packaging/plugins.rb:14-53 | A name `plugin_name` accepts always gets a type, and that type ranks no later than the captured kind |
| Plugins.ClassifyDisagrees | lib/packaging/plugins.rb:14-53 | A publisher whose suffix mentions `collector` is typed as a collector |
| Plugins.RecordOfSpec | lib/packaging/plugins.rb:55-66 | A record succeeds exactly when the plugin name does, and then has the keys `name`, `type`, `desription` and `url`. The description defaults to `No description.` |
| Plugins.CollectSpec | lib/packaging/plugins.rb:41-68 | The loop succeeds exactly when every repo does, giving one record per repo in order. Otherwise it fails with the first failing repo's error |
| Plugins.CollectFailStays | lib/packaging/plugins.rb:41-68 | Once a repo raises, later repos are not processed |
| Plugins.UnwrapWrap | lib/packaging/plugins.rb:70 | The `myfcn(` wrapper can be removed again to give back the serialised data |
| Plugins.MetadataSpec | lib/packaging/plugins.rb:38-71 | Metadata succeeds exactly when every repo's plugin name does. The output is the wrapper around the serialisation of one record per repo, in order. Otherwise the first failing repo's error is raised |
| Plugins.Metadata | lib/packaging/plugins.rb:38-71 | The record loop returns what the metadata specification gives |

## Left out

- `fpm` (lib/packaging/platform.rb:117-143) builds and runs a shell command, possibly over `vagrant ssh`. Its only product is printed output, so it is not modelled. Its two path inputs are `FpmTmpPath` and `FpmOutputPath`.
- `package_config` copies one file, `snapd.conf.yaml` from the support directory, to `<tmp>/<etc>/<project>/snapd.conf.yaml`, and `package_example` copies the project's `examples` tree into `<tmp>/<opt>/<project>` with `cp_r`. Both read files outside the staging tree. `package_service` and `generate_man` are empty. None of them is modelled, and `PrepPackage` stops after `create_symlink`.
- `go_binary_files` is a directory glob. The binary list is a parameter of the staging steps.
- `Packaging.get` and `Packaging.config` are global lookups. The looked-up project (or its absence) and the configuration are parameters of the constructor.
- The `os_name`, `os_version`, `osarch` and `build_vm` accessors are set by the caller. They are fields of the immutable `Platform` value, which is fixed for one build.
- `load_json`, `load_yaml`, `os_family`, `working_dir` and `go_build` in util.rb are file, process and environment I/O, and are not modelled.
- `Plugins.repos` loads a YAML file, and the GitHub client fetches each repo. Both are replaced by a list of repos given as input.
- `JSON.pretty_generate` is a function parameter of `Metadata`.
- `SemVer.Parse` is the Semantic Versioning 2.0.0 grammar, not the `semantic` gem's own code. Leading zeros and other corner cases of that gem may differ.
- `FileSystem.MakeLink`: when `link` is an existing directory, `FileUtils.ln_s` creates the link inside it. The model treats this as a failure.
- `FileSystem.Tree`: paths are plain strings. There is no `..` or `.` normalisation, no link resolution, no permissions and no concurrent access. Any symlink at or on the way to a path makes the operation fail: `cp` does not follow a link at its source or target, and `ln_s` does not put the new link inside a directory that a link at the link path points to.
- `Paths.Basename` and `Paths.Parent` split at the last separator. Unlike `Pathname`, they do not first strip trailing separators or collapse repeated ones, so `a/b/` has an empty basename and the parent `a/b`.
- File contents are uninterpreted byte strings, and `cp` copies them unchanged.
- `Plugins.Upcase`: `String#capitalize` is modelled for ASCII letters only. Other characters are left unchanged.
- The Ruby `Symbol` conversion `name.to_sym` in the table lookup is modelled as string-keyed lookup.

## Findings

| source | as written | input that shows it | evidently intended | confidence | as-written member | corrected member |
|---|---|---|---|---|---|---|
| lib/packaging/platform.rb:24-25 | `Packaging.get project_name \|\| fail(...)` parses as `Packaging.get(project_name \|\| fail(...))`. The `fail` never runs for a named project, and a missing project leaves `@project` nil, so line 32 raises `NoMethodError` on `nil.name` | any `project_name` for which `Packaging.get` returns nil | fail with "the project … does not exist." | not executed | Platforms.NewAsWritten (shown by Platforms.NewMissingProject) | Platforms.New |
