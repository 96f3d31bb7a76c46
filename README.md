# edmgutil in Dafny

A model of edmgutil, a macOS command-line tool. It creates encrypted, self-expiring scratch
disk images and imports encrypted zip archives into them. It lists and ejects the managed
volumes, and it installs or removes an hourly crontab entry that ejects the expired ones.
The tool is a thin layer over `hdiutil`, `7z`, `SetFile`, `mdutil` and `crontab`. The model
covers the logic between those calls and leaves the calls themselves as inputs.

The project is organised in modules that follow the program:

- `outcomes.dfy` (`Outcomes`): `Option`, `Result` and the errors the program can end with.
  The error values are an I/O error propagated by `?`, a `u64` parse error, a `bail!`
  message and an `unwrap` panic.
- `text.dfy` (`Text`): the Rust string operations the core relies on. These are `trim`,
  `lines()`, `writeln!`, `contains`, `ends_with`, `split_ascii_whitespace`, `u64::to_string`
  and `str::parse::<u64>`, plus `Path::join` and `Path::file_name` on plain paths.
- `effects.dfy` (`Effects`): the effects a run attempts (creating, attaching and removing an
  image, writing a file, the icon steps, `mdutil`, the `7z` calls, the password prompt).
  - A run is modelled as the trace of effects it attempted plus its result. Which effects
    fail is an input, `fails`.
  - `StopsAtFirstFailure` and `Succeeded` are the discipline `?` imposes: every effect
    before the last one succeeded, except the icon copy, whose failure is ignored.
  - These trace predicates are recursive. `StopsIff` and `SucceededIff` give their meaning
    as quantified statements.
- `cron.dfy` (`Cron`): `do_cronedit`, the crontab rewrite.
- `eject.dfy` (`Eject`): the selection loop of `eject_command`.
- `dmg.dfy` (`Dmg`):
  - parsing the output of `hdiutil attach` (`mount_dmg`);
  - the registry of managed volumes (`list_volumes`);
  - `secure_volume` with its expiry marker.
- `zip.dfy` (`Zip`): the size read from `7z l` and the `check_password` verdict on `7z t`.
- `downloads.dfy` (`Downloads`): `find_downloads_in_folder`, its per-entry URL choice and
  the sort by file name.
- `lifecycle.dfy` (`Lifecycle`): `prepare_dmg`, `finalize_dmg`, `new_command` and
  `import_command`.
  - These are functions that return a `Run`: the trace of effects attempted and the result.
  - `Host` bundles everything the outside world answers: failures, the prompt reply, both
    UUIDs, the temporary directory, the clock, the captured `attach` and `7z t` output,
    `canonicalize` and the regular-file check.
  - `ImportCommand` takes the result of `get_uncompressed_zip_size` as its `size`
    argument. That result is `Zip.UncompressedSize` of the listing `7z l` printed.
    `Zip.SizeErrors` shows it satisfies `Lifecycle.SizeError`, which the import lemmas
    require. `Lifecycle.ImportSizeOfListing` passes the size of a concrete listing and
    proves that every image the import creates has that listing's byte count in units
    plus `extra_size`.

Loops in the source are methods with loop invariants, each proved against a recursive
function:

| method | loop | specification function |
|---|---|---|
| `Cron.CopyLines` | `do_cronedit` loop | `Render`, `Unmanaged` |
| `Eject.EjectCommand` | `eject_command` loop | `Ejections` |
| `Dmg.ParseAttachOutput` | `mount_dmg` loop | `AttachedMount` |
| `Dmg.ListVolumes` | nested `list_volumes` loops | `Registry` |
| `Downloads.FindDownloadsInFolder` | `find_downloads_in_folder` loop | `Scan`, `SortByName` |

The lemmas then prove what the program promises about those functions.

Behaviour of the code worth noting:

- **The whole scan can fail.** When an entry's where-froms attribute is present but does
  not decode as a plist list of strings, the scan ends with a decode error. A failing
  `read_dir` entry ends it with an I/O error (src/downloads.rs:16-19).
- **The size always gains a unit.** The image size is `bytes / 1024 + 1`
  (src/zip.rs:18), so an exact multiple of 1024 gains a whole extra unit. These units of
  1024 bytes are passed to `hdiutil create -megabytes` (src/dmg.rs:32-33).
- **The managed line is matched by suffix.** A crontab line is managed when its trimmed
  text ends with `<exe> eject --expired` (src/main.rs:174), whatever comes before that.
- **Install then uninstall can change the file.** `lines()` drops a `'\r'` before each
  `'\n'`, and `writeln!` ends every line with a plain `'\n'`. So CRLF endings become LF,
  and a missing final newline is added, even when no line is added or removed.
  `Cron.InstallTextFixpoint` states that a second install rewrites the text the first one
  wrote unchanged. It needs two conditions: no line, as `lines()` reads it, ends in `'\r'`
  (a file with plain CRLF endings qualifies), and the executable path has no `'\n'`.
- **An executable path with a newline is never recognised.** The entry
  `0 * * * * <exe> eject --expired` is written over two lines when `<exe>` holds a `'\n'`
  (src/main.rs:170, 184). Neither line ends with the command, so every install appends
  the entry again and uninstall removes nothing (`Cron.NewlineInPathNotRecognised`).
- **An import always prompts unless `--password` is given.** `prepare_dmg` generates a
  password only when there is no source archive (src/main.rs:38). `import` always passes
  its archive.

## Model

| member | source | states |
|---|---|---|
| Cron.ModeOf | src/main.rs:162-166 | only the exact values "install" and "uninstall" of `CRONTAB_MODE` select an edit; any other value, or none, selects nothing (characterised by `Cron.CronEdit`) |
| Cron.CronCommand | src/main.rs:170 | the command text `<exe> eject --expired` |
| Cron.CronEntry | src/main.rs:184 | the hourly entry `0 * * * * <command>` that install appends |
| Cron.IsManaged | src/main.rs:174 | a line is managed when its trimmed text ends with the command |
| Cron.Unmanaged | src/main.rs:173-180 | the lines uninstall keeps: the unmanaged ones, in order (characterised by `Cron.UnmanagedExact`) |
| Cron.Rewrite | src/main.rs:173-185 | the lines written for a mode: install keeps every line and appends the entry when none is managed, uninstall keeps the unmanaged lines (characterised by `Cron.InstallAddsOneEntry` and `Cron.UnmanagedExact`) |
| Cron.CronEdit | src/main.rs:160-190 | no recognised `CRONTAB_MODE` gives `Ok(false)` and writes nothing; an unreadable crontab is an I/O error; otherwise it writes exactly the rendered rewrite of the crontab's lines for the mode and returns `Ok(true)` |
| Cron.CopyLines | src/main.rs:173-181 | the loop sets `found` exactly when some line is managed, and writes every line on install, or exactly the unmanaged lines on uninstall, one `writeln!` each, in order |
| Cron.EntryIsManaged | src/main.rs:170-184 | the appended entry `0 * * * * <exe> eject --expired` is itself recognised as the managed line |
| Cron.UnmanagedAppend | src/main.rs:173-180 | uninstall treats each line on its own: it distributes over concatenation, so kept lines stay in their order |
| Cron.UnmanagedExact | src/main.rs:174-180 | uninstall keeps no managed line and every unmanaged line, and drops exactly as many lines as are managed |
| Cron.CountManagedPositive | src/main.rs:174-175 | the count of managed lines is positive exactly when some line is managed |
| Cron.UninstallUnchangedIff | src/main.rs:174-180 | uninstall leaves the lines unchanged if and only if no line is managed |
| Cron.UnmanagedOfUnmanaged | src/main.rs:174-180 | with no managed line, uninstall is the identity |
| Cron.InstallAddsOneEntry | src/main.rs:173-185 | install keeps all lines as a prefix, adds nothing when a managed line exists, and otherwise leaves exactly one managed line |
| Cron.InstallIdempotent | src/main.rs:174-185 | installing twice gives the same lines as installing once |
| Cron.UninstallAfterInstall | src/main.rs:173-185 | uninstalling after installing gives the same lines as uninstalling the original |
| Cron.ManagedIgnoresCR | src/main.rs:173-174 | a trailing `'\r'` stripped by `lines()` does not change whether a line is managed |
| Cron.AnyManagedReadBack | src/main.rs:173-180 | reading the written crontab back finds a managed line exactly when the written lines had one |
| Cron.SecondInstallAppendsNothing | src/main.rs:173-187 | for an executable path without `'\n'`: after one install the file holds a managed line, and a second install writes back the lines it read without appending |
| Cron.InstallTextFixpoint | src/main.rs:173-187 | for an executable path without `'\n'` and a crontab none of whose lines, as `lines()` reads them, ends in `'\r'`: a second install rewrites the text the first one wrote byte for byte, and uninstalling after install writes what uninstalling the original writes |
| Cron.NewlineInPathNotRecognised | src/main.rs:170-185 | with a `'\n'` in the executable path, installing into an empty crontab writes the entry as two lines, neither managed; a second install appends the entry again and uninstall keeps both lines |
| Eject.ReferencePath | src/main.rs:119 | the canonical form of the path given, or nothing when no path was given or it does not canonicalise |
| Eject.IsExpired | src/main.rs:124 | a volume is expired when its expiry is strictly before now |
| Eject.IsMatch | src/main.rs:125-126 | a volume matches when there is a reference path and the volume's mount point canonicalises to it (characterised by `Eject.PathEjectsOnlyMatches`) |
| Eject.Selected | src/main.rs:124-127 | a volume is selected by `--expired` when its expiry is strictly before now, by `--all`, or when the path given and its mount point canonicalise to the same path |
| Eject.Ejections | src/main.rs:123-134 | the mount points of the selected volumes, in registry order (characterised by `Eject.EjectedIffSelected`) |
| Eject.EjectCommand | src/main.rs:117-145 | ejects exactly `Ejections` (the selected volumes, in registry order), and fails with "volume was not mounted" if and only if a path was given and no volume's canonical mount point equals its canonical form (also when the path does not canonicalise) |
| Eject.EjectionsAppend | src/main.rs:123-138 | the ejections of a concatenated registry are the ejections of each part, in order |
| Eject.EjectedIffSelected | src/main.rs:123-134 | every volume selected by `--expired` with a strictly earlier expiry, `--all` or a canonical path match is ejected, and everything ejected is the mount point of a selected volume |
| Eject.PathEjectsOnlyMatches | src/main.rs:119-127 | with only a path given, something is ejected exactly when some volume matches it |
| Eject.AllEjectsEverything | src/main.rs:127 | `--all` ejects every managed volume, in registry order |
| Eject.ExpiredAllAndPathScenario | src/main.rs:123-142 | with volumes A (expired) and B (not): `--expired` ejects only A, `--all` both, B's path only B without error, and an unmatched path nothing, with the error |
| Dmg.AttachedMount | src/dmg.rs:64-77 | the mount point after the second tab of the first line containing `"\tApple_HFS"`; "failed to mount dmg" when no line does, a panic when that line has a single tab (characterised by `Dmg.AttachReportsMount` and `Dmg.AttachErrors`) |
| Dmg.ParseAttachOutput | src/dmg.rs:64-77 | the loop over the `attach` output lines returns exactly `AttachedMount` of that output |
| Dmg.AttachErrors | src/dmg.rs:65-77 | reading the attach output fails only with "failed to mount dmg" or with the `unwrap` panic |
| Dmg.MountDmg | src/dmg.rs:52-78 | `mount_dmg` attaches the image with the password as its one effect; it fails with an I/O error when that fails, and otherwise returns what the attach output gives |
| Dmg.FirstContaining | src/dmg.rs:65-68 | the index found is of the first line containing `"\tApple_HFS"`, or the line count when none does |
| Dmg.FirstContainingIs | src/dmg.rs:65-68 | the first line containing the pattern is unique: any index with the defining properties is the one found |
| Dmg.FirstContainingAfter | src/dmg.rs:65-68 | a matching line after lines that do not match is the one found, whatever follows it |
| Dmg.AfterSecondTab | src/dmg.rs:69-73 | the third field of `splitn(3, '\t')`, if there is one (characterised by `Dmg.AfterSecondTabSplit`) |
| Dmg.AfterSecondTabSplit | src/dmg.rs:69-73 | `splitn(3, '\t').nth(2)` yields everything after the second tab, later tabs included |
| Dmg.AfterSecondTabMissing | src/dmg.rs:70-73 | a line with a single tab yields nothing, which the `unwrap` turns into a panic |
| Dmg.HfsLine | src/dmg.rs:66-73 | a device line `<device>\tApple_HFS\t<mount>` contains the pattern and yields exactly `<mount>` |
| Dmg.AttachReportsMount | src/dmg.rs:64-74 | attach output whose first `Apple_HFS` line is `<device>\tApple_HFS\t<mount>` gives `<mount>`, whatever lines precede and follow it |
| Dmg.MarkerExpiry | src/dmg.rs:93-98 | the seconds the volume's `.encrypted-volume-good-until` file parses to, or nothing when it cannot be read or parsed |
| Dmg.EntityVolumes | src/dmg.rs:91-102 | the entities of one image that have a mount point and a readable marker, with their expiries, in order (characterised by `Dmg.EntityVolumesExact`) |
| Dmg.Registry | src/dmg.rs:88-105 | the volumes of every image, image by image (characterised by `Dmg.RegistryAppend` and `Dmg.RegistryExpiryFromMarker`) |
| Dmg.ListVolumes | src/dmg.rs:88-105 | the nested loops collect exactly `Registry`: the entities with a mount point whose marker reads and parses, image by image and entity by entity |
| Dmg.EntityVolumesAppend | src/dmg.rs:91-102 | the volumes of concatenated entity lists are those of each list, in order |
| Dmg.RegistrySnoc | src/dmg.rs:90-103 | one more image appends its volumes after those of the images before it |
| Dmg.RegistryAppend | src/dmg.rs:90-103 | the registry of concatenated image lists is the registry of each, in image order |
| Dmg.EntityVolumesExact | src/dmg.rs:91-101 | every listed volume is an entity's mount point with the expiry its marker parses to, and every such entity is listed; the others are skipped without error |
| Dmg.RegistryExpiryFromMarker | src/dmg.rs:93-99 | the expiry reported for every listed volume is the value parsed from its marker |
| Dmg.ExpiryAfter | src/dmg.rs:119-120 | the expiry `now + days * 86400` in whole seconds since the epoch (characterised by `Dmg.SecureVolumeOrder` and `Dmg.MarkerRoundTrip`) |
| Dmg.SecureVolume | src/dmg.rs:118-153 | the effects of `secure_volume` and its result `Ok(())` or an I/O error (characterised by `Dmg.SecureVolumeSteps` and `Dmg.SecureVolumeStops`) |
| Dmg.SecureVolumeOrder | src/dmg.rs:118-152 | `secure_volume` first writes `.metadata_never_index`, then the marker with the decimal of `now + days * 86400`; a successful run has written the marker and ends with `mdutil` |
| Dmg.SecureVolumeIcon | src/dmg.rs:129-141 | `SetFile` runs only after the icon copy, as the third effect, when the copy succeeded |
| Dmg.SecureVolumeOnVolume | src/dmg.rs:121-151 | every effect of `secure_volume` is on the mounted volume |
| Dmg.SecureVolumeSteps | src/dmg.rs:118-153 | a convenience lemma for callers: the order, icon and on-volume properties together |
| Dmg.SecureVolumeStops | src/dmg.rs:118-153 | the run stops at its first failure other than the icon copy, fails (with an I/O error) exactly when its last effect failed, and succeeds only if every effect did |
| Dmg.MarkerRoundTrip | src/dmg.rs:119-125 | the decimal expiry `secure_volume` writes parses back, as `list_volumes` reads it at line 96, to the same seconds |
| Dmg.SecuredVolumeIsListed | src/dmg.rs:90-99 | a mount point whose marker holds what `secure_volume` wrote is listed with that expiry, wherever it sits among its image's entities |
| Zip.LastLine | src/zip.rs:16 | the last of `lines()` of the trimmed listing, if any (characterised by `Zip.SummaryIsLastLine`) |
| Zip.LineSize | src/zip.rs:17-18 | the third word of the line parsed as `u64`, in units; a panic without a third word, a parse error for a bad one (characterised by `Zip.SummaryLineSize`) |
| Zip.UncompressedSize | src/zip.rs:8-19 | the size of the listing's last line, or a panic when there is none (characterised by `Zip.ListingSize` and `Zip.SizeErrors`) |
| Zip.SizeUnits | src/zip.rs:18 | `bytes / 1024 + 1` is the unique `k >= 1` with `(k - 1) * 1024 <= bytes < k * 1024` |
| Zip.SizeErrors | src/zip.rs:16-17 | reading the size fails only with an `unwrap` panic or a parse error |
| Zip.SizeUnitsCover | src/zip.rs:18 | the units always cover strictly more than `bytes` and at most 1024 more, a whole extra unit for exact multiples of 1024 |
| Zip.SummaryLineSize | src/zip.rs:17-18 | a last line whose third whitespace-separated word is the decimal byte count gives that count in units |
| Zip.ShortLinePanics | src/zip.rs:17 | a last line of fewer than three words makes the `unwrap` panic |
| Zip.NonNumericIsError | src/zip.rs:17 | a third word that starts with neither a digit nor '+' is a parse error, not a panic |
| Zip.BlankListingPanics | src/zip.rs:16 | an empty or all-whitespace listing has no last line, and the `unwrap` panics |
| Zip.TrimDropsWhitespaceSuffix | src/zip.rs:16 | whitespace after the listing does not change its trimmed text |
| Zip.LinesEndWith | src/zip.rs:16 | the text after the final `'\n'` is the last of `lines()` |
| Zip.LinesCons | src/zip.rs:16 | a first line without `'\n'` is split off at the `'\n'` after it, losing one trailing `'\r'` |
| Zip.TrimKeepsLastLine | src/zip.rs:16 | trimming text that ends in a non-blank line removes only leading whitespace: that line stays whole, after nothing or after a `'\n'` |
| Zip.TrimmedListing | src/zip.rs:16 | with whitespace after the summary line too, the trimmed listing is the trimmed-start text before the summary line, then that line |
| Zip.LastLineAfterNewline | src/zip.rs:16 | a line after nothing or after a `'\n'` is the last of `lines()` |
| Zip.SummaryIsLastLine | src/zip.rs:16 | whatever precedes the summary line and whatever whitespace follows it, the summary is the last line of the trimmed listing |
| Zip.ListingSize | src/zip.rs:8-19 | a full listing ending in the summary line gives the byte count of its third field in units |
| Zip.PasswordAccepted | src/zip.rs:32 | the verdict of `check_password` on the captured output (characterised by `Zip.PasswordAcceptedIff`) |
| Zip.WrongPasswordRejects | src/zip.rs:32 | "ERROR: Wrong password" anywhere on stderr rejects, whatever stdout says |
| Zip.AllClearAccepts | src/zip.rs:32 | "Everything is Ok" anywhere on stdout accepts when stderr has no wrong-password error |
| Zip.NoAllClearRejects | src/zip.rs:32 | a stdout that does not contain "Everything is Ok" rejects, whatever stderr says; this follows from the definition alone |
| Zip.NoCapitalERejects | src/zip.rs:32 | a stdout with no `'E'` at all (an empty one, say) does not contain the all-clear, so it rejects |
| Zip.PasswordAcceptedIff | src/zip.rs:21-33 | the definition restated through `Text.ContainsIff`: accepted exactly when stdout splits around "Everything is Ok" and stderr does not split around "ERROR: Wrong password"; the properties of the verdict are `Zip.WrongPasswordRejects`, `Zip.AllClearAccepts` and `Zip.NoAllClearRejects` |
| Downloads.Usable | src/downloads.rs:22-26 | a stored string is usable when it parses as a URL that `is_match` accepts for the entry's path (characterised by `Downloads.FirstSource`) |
| Downloads.FirstSource | src/downloads.rs:20-27 | the chosen URL is the first stored string, in stored order, that parses and satisfies `is_match`; there is none when no string does |
| Downloads.FindDownloadsInFolder | src/downloads.rs:9-37 | a failing `read_dir` is an I/O error, and a failing scan returns the scan's error; otherwise the result is the records the loop collects, sorted by file name |
| Downloads.Scan | src/downloads.rs:15-32 | the records the loop collects, in entry order, or the error of the first entry that aborts (characterised by `Downloads.ScanExact` and `Downloads.ScanFailsIff`) |
| Downloads.ScanKeepsError | src/downloads.rs:15-19 | once the scan has failed, later entries do not change the error |
| Downloads.ScanFailsIff | src/downloads.rs:15-19 | the scan fails exactly when some item aborts (a `read_dir` error or an attribute that does not decode), and its error is that of the first such item: an I/O error for a `read_dir` error, a decode error for an undecodable attribute |
| Downloads.ScanExact | src/downloads.rs:15-32 | each record comes from one entry, with the entry's path and its first usable URL; every entry with a usable URL is recorded; there are at most as many records as entries |
| Downloads.OneRecordPerEntry | src/downloads.rs:24-30 | with distinct entry names, no two records share a path: each entry contributes at most one |
| Downloads.Key | src/downloads.rs:34 | the sort key of a record: the file name of its path (characterised by `Text.FileNameOfJoin`) |
| Downloads.NameLe | src/downloads.rs:34 | file names compared lexicographically by code point (characterised by `Downloads.NameLeReflexive`, `NameLeTotal`, `NameLeAntisymmetric` and `NameLeTransitive`) |
| Downloads.InsertByName | src/downloads.rs:34 | inserting a record adds exactly that record |
| Downloads.SortByName | src/downloads.rs:34 | the sort neither adds nor loses records |
| Downloads.NameLeReflexive | src/downloads.rs:34 | the file-name order is reflexive |
| Downloads.NameLeTotal | src/downloads.rs:34 | the file-name order is total |
| Downloads.NameLeAntisymmetric | src/downloads.rs:34 | the file-name order is antisymmetric |
| Downloads.NameLeTransitive | src/downloads.rs:34 | the file-name order is transitive |
| Downloads.InsertKeepsSorted | src/downloads.rs:34 | inserting into a sorted sequence keeps it sorted |
| Downloads.SortIsSorted | src/downloads.rs:34 | the result is sorted by file name |
| Downloads.NamedAppend | src/downloads.rs:34 | the records of one name in a concatenation are those of each part, in order |
| Downloads.InsertKeepsNamedOrder | src/downloads.rs:34 | insertion puts a record after all earlier records of the same name |
| Downloads.SortIsStable | src/downloads.rs:34 | records with equal names keep their collection order, as `sort_by_cached_key` is stable |
| Downloads.SortSpecification | src/downloads.rs:34 | the sort is a permutation, sorted by name, and stable |
| Text.JoinPath | src/main.rs:53 | `Path::join` with a relative name: the name after the directory, with a `'/'` between them unless the directory is empty or already ends in one; also used at src/dmg.rs:94, 121, 123 and 131 |
| Text.FileName | src/downloads.rs:34 | `Path::file_name` of a plain path: the text after its last `'/'` (characterised by `Text.FileNameOfJoin`) |
| Text.FileNameOfJoin | src/downloads.rs:34 | the sort key of a record is the name of its entry |
| Text.Contains | src/zip.rs:32 | `str::contains`: the pattern occurs at some position; also used at src/dmg.rs:66 (characterised by `Text.ContainsIff`) |
| Text.ContainsIff | src/zip.rs:32 | `contains` holds exactly when the text splits into something, the pattern, and something |
| Text.TrimStart | src/zip.rs:16 | `trim_start` removes exactly the leading whitespace |
| Text.TrimEnd | src/zip.rs:16 | `trim_end` removes exactly the trailing whitespace |
| Text.Trim | src/main.rs:174 | `str::trim`: `TrimEnd` after `TrimStart`; also used at src/zip.rs:16 (characterised by `Text.TrimStart`, `Text.TrimEnd` and `Text.TrimUnchanged`) |
| Text.EndsWith | src/main.rs:174 | `str::ends_with`: the suffix is no longer than the text and equals its end |
| Text.TrimUnchanged | src/main.rs:174 | text that neither starts nor ends with whitespace is its own trim |
| Text.Lines | src/main.rs:173 | no line from `lines()` contains a `'\n'` |
| Text.LinesOfRender | src/main.rs:173-180 | reading back what `writeln!` wrote gives the lines, less one trailing `'\r'` each |
| Text.RenderRoundTrip | src/main.rs:173-180 | lines without `'\n'` and without a trailing `'\r'` read back exactly |
| Text.RenderAppend | src/main.rs:180 | writing two runs of lines is writing their concatenation |
| Text.Tokens | src/zip.rs:17 | every token of `split_ascii_whitespace` is a non-empty word without ASCII whitespace |
| Text.TokensOfJoin | src/zip.rs:17 | splitting words joined by single spaces gives the words back |
| Text.Decimal | src/dmg.rs:124 | `to_string` writes a non-empty string of digits, with a leading zero only for 0 |
| Text.DecimalValue | src/dmg.rs:124 | the digits written denote the number |
| Text.ParseU64 | src/dmg.rs:96 | `parse::<u64>` only gives values that fit in 64 bits |
| Text.DecimalRoundTrip | src/dmg.rs:124 | what `to_string` writes, `parse::<u64>` reads back as the same number |
| Effects.StopsIff | src/main.rs:56-60 | a trace stops at its first failure exactly when every effect before its last one survived |
| Effects.SucceededIff | src/main.rs:56-60 | a trace succeeded exactly when every effect survived |
| Effects.ContinueAfter | src/main.rs:93-99 | steps run after steps that all succeeded keep the first-failure discipline and end as the later steps end |
| Lifecycle.Prompts | src/main.rs:38 | the prompt is needed exactly when no password was given and the image is kept or an archive is imported (characterised by `Lifecycle.PromptsIff`) |
| Lifecycle.Password | src/main.rs:35-44 | the given password; otherwise a generated one exactly when the image is not kept and nothing is imported; otherwise the prompt's reply |
| Lifecycle.Stem | src/main.rs:49 | `file_stem` of a file name: the text before its last `'.'`; the whole name when it has no dot, when its only dot is the leading one (a dot file such as `.zip`), or when it is `..` (characterised by `Lifecycle.BeforeLastDotOf`) |
| Lifecycle.FileStem | src/main.rs:49 | the stem of the path's file name, or nothing when the path has no file name (characterised by `Lifecycle.ArchiveVolumeName`) |
| Lifecycle.BeforeLastDotOf | src/main.rs:49 | `base.ext` with a dot-free `ext` has `base` before its last dot |
| Lifecycle.ArchiveVolumeName | src/main.rs:46-51 | without `--volume-name`, an archive `dir/base.ext` gives the volume name `base` |
| Lifecycle.DefaultVolume | src/main.rs:46-51 | without a name or a source archive, the volume is "EncryptedScratchpad" |
| Lifecycle.ImageFileName | src/main.rs:53 | the name `encrypted-<uuid>-<volume>.dmg` |
| Lifecycle.ImagePath | src/main.rs:52-53 | that name joined to the temporary directory (characterised by `Lifecycle.ImageInTempDir`) |
| Lifecycle.ImageInTempDir | src/main.rs:52-53 | the image is `encrypted-<uuid>-<volume>.dmg` directly in the temporary directory |
| Lifecycle.VolumeName | src/main.rs:46-51 | `--volume-name`, else the archive's file stem, else "EncryptedScratchpad" (characterised by `Lifecycle.ArchiveVolumeName` and `Lifecycle.DefaultVolume`) |
| Lifecycle.PrepareDmg | src/main.rs:30-67 | the effects of `prepare_dmg` and what it returns (characterised by `Lifecycle.PrepareFollowsPlan` and `Lifecycle.PrepareStopsAtFirstFailure`) |
| Lifecycle.PrepareStopsWithinPlan | src/main.rs:55-58 | a `prepare_dmg` run that stops early has run a prefix of prompt, create, attach |
| Lifecycle.PrepareSecuresMount | src/main.rs:58-60 | a run that gets past attaching secures the mount point the attach output names |
| Lifecycle.PrepareCompletesPlan | src/main.rs:55-66 | a run has at least one effect, and a successful one completes the plan |
| Lifecycle.PrepareFront | src/main.rs:55-60 | a convenience lemma for the lemmas after it: the three facts above together |
| Lifecycle.PrepareFollowsPlan | src/main.rs:30-67 | `prepare_dmg` runs prompt (when it prompts), create, attach, then writes `.metadata_never_index` and the expiry marker on the mount point read; a success returns the password, image path and that mount point |
| Lifecycle.PrepareStopsAtFirstFailure | src/main.rs:35-60 | `prepare_dmg` stops at its first failure, succeeds only if every effect did, and reports an I/O error only when its last effect failed |
| Lifecycle.PrepareErrors | src/main.rs:56-60 | `prepare_dmg` fails only with an I/O error or with the error of reading the attach output |
| Lifecycle.PrepareEffects | src/main.rs:35-60 | every effect of `prepare_dmg` is a planned step or an effect on the volume |
| Lifecycle.PromptsIff | src/main.rs:35-44 | the prompt appears, as the first effect only, exactly when no password is given and the image is kept or an archive is imported |
| Lifecycle.PrepareCreates | src/main.rs:52-56 | `prepare_dmg` creates only the planned image, with the chosen volume name, size and password |
| Lifecycle.PrepareCreatesPlanned | src/main.rs:52-66 | a successful `prepare_dmg` created the planned image and returns its path |
| Lifecycle.PrepareAttached | src/main.rs:58 | a successful `prepare_dmg` attached the planned image with the chosen password |
| Lifecycle.FinalizeDmg | src/main.rs:69-78 | with `--keep` nothing is removed; otherwise the image file is removed, and the only possible error is that removal failing |
| Lifecycle.NewCommand | src/main.rs:80-84 | `new_command`: `prepare_dmg` without an archive, then `finalize_dmg` (characterised by `Lifecycle.NewCommandStops` and `Lifecycle.NewCommandSucceeds`) |
| Lifecycle.NewCommandStops | src/main.rs:80-84 | `new` stops at its first failure, and an I/O error means its last effect failed |
| Lifecycle.NewCommandPrompts | src/main.rs:80-84 | `new` prompts exactly when `--keep` is given without `--password` |
| Lifecycle.NewCommandSucceeds | src/main.rs:80-84 | a successful `new` created the planned image, and removed it, as its last effect, exactly when `--keep` was not given |
| Lifecycle.TestAndExtract | src/main.rs:94-98 | `7z t`, "invalid password" on a rejected test, then `7z x` into the mount point (characterised by `Lifecycle.TestAndExtractRun`) |
| Lifecycle.FillImage | src/main.rs:93-99 | what `import` does after `prepare_dmg`: the test and extraction, then `finalize_dmg` (characterised by `Lifecycle.FillImageShape`) |
| Lifecycle.TestAndExtractRun | src/main.rs:94-98 | `7z t` runs first with the image's password; "invalid password" is exactly a successful test that `check_password` rejects; extraction into the mount point follows exactly an accepted test |
| Lifecycle.ImportCommand | src/main.rs:86-91 | a path that does not canonicalise fails with an I/O error, and one that is not a regular file fails with "source archive is not a file", both before any effect |
| Lifecycle.ImportFills | src/main.rs:92-99 | once a listing gave a size, `import` is the listing followed by prepare, test, extract and finalize |
| Lifecycle.ImportStoppedEarly | src/main.rs:87-92 | an `import` that got no size stopped at canonicalising, at the file check, at a failed listing, or with the size error |
| Lifecycle.FillImageShape | src/main.rs:94-99 | after `prepare_dmg`: the test, then the extraction only after an accepted test, then the removal only without `--keep`; the invalid-password error and success are characterised |
| Lifecycle.FillImageStops | src/main.rs:94-99 | testing, extracting and finalizing keep the first-failure discipline |
| Lifecycle.FilledStops | src/main.rs:93-99 | `prepare_dmg` followed by those steps stops at its first failure |
| Lifecycle.ImportStopsAtFirstFailure | src/main.rs:86-101 | `import` stops at its first failure, succeeds only if every effect did, and reports an I/O error only when the last effect failed or the path did not canonicalise |
| Lifecycle.ImportStopsListed | src/main.rs:92-100 | the same, for an import whose listing gave a size |
| Lifecycle.CreatesOnlyIff | src/main.rs:56 | `CreatesOnly` holds exactly when every image creation in the trace is the given one |
| Lifecycle.FillImageCreates | src/main.rs:94-99 | testing, extracting and finalizing create no image |
| Lifecycle.FilledCreates | src/main.rs:93-99 | the prepare and fill stages of an import create only the planned image |
| Lifecycle.ImportSize | src/main.rs:92-93 | every image an `import` creates has the archive's size in units plus `extra_size`, and the planned name and password; without a size nothing is created |
| Lifecycle.ImportSizeListed | src/main.rs:92-93 | the same, for an import whose listing gave a size |
| Lifecycle.ImportSizeOfListing | src/main.rs:92-93 | with the size `get_uncompressed_zip_size` reads from a listing ending in a summary line, every image the import creates has that line's byte count in units plus `extra_size` |
| Lifecycle.ExtractsAfterTestIff | src/main.rs:94-98 | `ExtractsAfterTest` holds exactly when every extraction comes right after a successful, accepted test of the archive with the password, into the mount point |
| Lifecycle.PrepareExtractsNothing | src/main.rs:30-67 | `prepare_dmg` extracts nothing |
| Lifecycle.FillImageExtracts | src/main.rs:94-98 | the fill stage extracts only into the given mount point, right after an accepted test |
| Lifecycle.FilledExtracts | src/main.rs:93-98 | prepare then fill extracts only into the mount point read from the attach output, right after an accepted test |
| Lifecycle.ImportExtractsAfterAcceptedTest | src/main.rs:93-98 | an `import` extracts the archive only into the mount point, with the image's password, and only right after `7z t` with that password succeeded and was accepted |
| Lifecycle.ImportExtractsListed | src/main.rs:93-98 | the same, for an import whose listing gave a size |
| Lifecycle.FillImageInvalidPassword | src/main.rs:94-96 | after a prepare run that did not test the archive, "invalid password" is exactly a succeeded, rejected test |
| Lifecycle.FilledInvalidPassword | src/main.rs:93-96 | prepare then fill gives "invalid password" exactly for a succeeded, rejected test |
| Lifecycle.ImportInvalidPassword | src/main.rs:94-96 | an `import` fails with "invalid password" exactly when `7z t` ran with the image's password, succeeded, and `check_password` rejected its output |
| Lifecycle.FillImageSucceeds | src/main.rs:94-99 | a successful fill extracted the archive after every effect of `prepare_dmg`, and removed the image, last, exactly without `--keep` |
| Lifecycle.FilledSucceeds | src/main.rs:93-99 | a successful prepare and fill extracted into the attached mount point after attaching, and removed the image, last, exactly without `--keep` |
| Lifecycle.ImportSucceeds | src/main.rs:86-101 | a successful `import` extracted the archive with the image's password into the mount point after attaching the image, and removed the image, as its last effect, exactly when `--keep` was not given |
| Lifecycle.ImportSucceedsListed | src/main.rs:92-100 | the same, for an import whose listing gave a size |
| Lifecycle.ImportTestsAfterAttach | src/main.rs:92-95 | whenever an `import` runs `7z t`, the effects before it are exactly the listing and a whole, successful `prepare_dmg`, which attached the image with the password the test uses |
| Lifecycle.ImportTestsListed | src/main.rs:92-95 | the same, for an import whose listing gave a size |
| Lifecycle.PrepareTestsNothing | src/main.rs:30-67 | `prepare_dmg` never tests an archive, and a successful one returns the chosen password |
| Lifecycle.FillImageTests | src/main.rs:94-95 | after a `prepare_dmg` run that tested nothing, the only test comes right after it, with its password |
| Lifecycle.ImportPrompts | src/main.rs:35-44 | an `import` prompts exactly when it reached `prepare_dmg` without `--password`; every image it creates gets the given password, or else the prompt's reply, never a generated one |
| Lifecycle.FilledPrompts | src/main.rs:35-44 | prepare then fill, with an archive, prompts exactly when no `--password` was given |

## Left out

- **Process spawning.** Running `hdiutil`, `7z`, `SetFile`, `mdutil` and `crontab`
  (src/dmg.rs:29-50, src/dmg.rs:108-116, src/zip.rs:35-47, src/main.rs:147-158) is not
  modelled. Each call is an effect whose failure is the input `fails`, and its captured
  output is a given string.
- **Exit statuses.** The program never checks the exit status of these tools, and neither
  does the model.
- **The image size is not checked.** `make_dmg` records the size it is given, and the
  model does not check that the size suits the disk (`-megabytes` receives KiB units).
- **Randomness, the prompt and the clock.** Both UUIDs, the prompt's reply and the current
  time are fields of `Host`, or parameters.
- **Printed messages.** Nothing the program writes to stdout is an effect in the model.
  No later step reads that output.
  - `Lifecycle.FinalizeDmg`: the "Placed encrypted DMG at: <image>" line with `--keep`
    (src/main.rs:71) is not modelled, so its `--keep` run is empty. Neither are the
    "Mounted encrypted DMG at: <mount>" and "Ummount with: umount" lines printed on both
    branches (src/main.rs:75-76).
  - `Eject.EjectCommand`: the "Ejecting [expired ]volume <mount>" line printed before each
    eject is not modelled (src/main.rs:128-132). Its "expired " qualifier depends on the
    volume's expiry.
  - `Lifecycle.PrepareDmg`: the "[1]", "[2]" and "[3]" progress lines (src/main.rs:55, 57,
    59) and the "[4]" line of `import_command` (src/main.rs:97) are not modelled.
  - `list_command` (src/main.rs:103-115) only prints, and is not modelled.
- **Time is whole seconds.**
  - Sub-second precision and chrono formatting are not modelled.
  - `Eject.IsExpired`: `now` is whole seconds, so a volume expiring in the current second
    is not expired here, while the source compares against a `SystemTime` with
    sub-second precision.
- **Time overflow.**
  - `Dmg.SecureVolume`: the panic or error when `now + days * 86400` overflows
    `SystemTime`, or precedes the epoch, is not modelled.
  - `Dmg.MarkerExpiry`: the overflow of `UNIX_EPOCH + secs` for huge markers is not
    modelled.
- **`Lifecycle.ImportCommand` sizes are unbounded.** The `usize` overflow of
  `size + extra_size` is not modelled.
- **`Cron.CronEdit` failures not modelled:**
  - the panic of `args_os().nth(1).unwrap()` when no path argument is given;
  - a failing `current_exe()`, which becomes the parameter `exe`;
  - a failing `fs::write`, since the written text is the result;
  - `writeln!` into a `String`, which cannot fail.
- **Failures around the eject loop.**
  - `Eject.EjectCommand`: a failing `hdiutil eject` (the `?` at src/main.rs:133) is not
    modelled. An error there would stop the loop early.
  - A failing `list_volumes()` before the loop is left out. The loop starts from the
    registry already read.
- **`Dmg.ListVolumes` input.** It starts from the images of `hdiutil info -plist` already
  decoded. Process and plist decoding errors are left out. Reading the marker file is the
  input `readFile`.
- **UTF-8 decoding.** Decoding a tool's output as UTF-8 (`from_utf8(..)?`) is not modelled.
  Outputs are given as strings.
- **Canonical paths.**
  - `fs::canonicalize` is the partial function `canonical`.
  - `fs::metadata(..).is_file()` is the predicate `isFile`.
  - `Path::file_name` and `file_stem` are modelled for plain `/`-separated paths only.
- **Extraction output.** The output of `7z x` and a non-zero exit from it are not
  modelled. Extraction is an effect that succeeds or fails.
- **The sort algorithm.** `sort_by_cached_key` is modelled by a stable insertion sort on a
  sequence, with its result characterised by sortedness, permutation and stability. That
  characterisation determines the result. Sorting in place is not modelled.
- **`Downloads.FindDownloadsInFolder` inputs.**
  - `read_dir`, `xattr::get` and plist decoding are given as one listing of items.
  - `Url::parse` and `is_match` are the parameters `parse` and `isMatch`.
  - The domain matcher and the age filter are not part of this model: the scan takes
    `is_match` as a closure, and no subcommand in src/main.rs dispatches it.
- **Other files.** `src/cli.rs` holds only argument declarations and `build.rs` only a
  compile-time OS check; neither is part of this model. The options appear as fields of
  `ImageOptions` and `EjectArgs`.
- **`main` itself.** The check that `7z` is installed and the dispatch on the subcommand are
  not modelled.
- **Deleting a mounted image.** Whether the backing file may be deleted while it is
  mounted is a platform question. The model only records the removal.
