# pkgpulse core, modelled in Dafny

pkgpulse reports which packages make up a container image and how much space each takes. This
project models the part of it that works without a registry, a daemon or a terminal:

- **Layer scan** (`extractPackagesFromImage`, first pass). The image's layers are read in order,
  and every tar entry updates three database slots. These are APK, dpkg, and one slot that the
  three RPM database files share. The scan also builds a map from executable paths in the binary
  directories to their sizes.
- **Database parsers.** `parseAPKDB` and `parseDpkgDB` are line-by-line record state machines.
  The mapping loop of `parseRPMDB` runs over the records the RPM library returns.
- **Go binary probe** (`detectGoBinaries`). When the parsers find nothing, candidate executables
  are read again, layer by layer, and the Go build information reader is asked about each.
- **Per-image aggregation** (`analyzeImage`): rows, the installed total, the package map, the
  sort by size, and the compressed size summed from the manifest.
- **Fallback size normalisation** for a decoded syft SBOM (`runSyftAndParse`).
- **Cache paths** (`getCacheDir`, `hashImageRef`, `getCachePaths`) and the column helper `trunc`.
- **Release tool:** `parseLatestChangelogEntry` over the changelog's lines, the tag name, the tag
  annotation, and the commit arguments.

Modules follow the program: `LayerScan`, `ApkDb`, `DpkgDb`, `RpmDb`, `BinaryProbe` and `Extract`
for the extractor; `Aggregate`, `Syft`, `CachePaths` and `Display` for the rest of `main.go`;
`Changelog`, `ChangelogHeader` and `Release` for the release tool. The Go library functions the
core relies on are written out in `GoText` (strings, strconv, bufio.ScanLines), `FilePath`
(path/filepath, lexical, Unix) and `Stanzas` (the blank-line grouping both line parsers see).
`SeqFacts` holds small generic sequence lemmas.

Imperative code stays imperative. Each loop of the source is a `method` with a `while` loop. Its
invariant ties the loop variables to a specification function of the input read so far, and its
`ensures` states that the result is that function of the whole input. The loop bodies are
separate methods (`ScanEntry`, `ReadApkLine`, `DpkgLine`, `ProbeEntry`, `ChangelogLine`), each
proved to be one step of the specification. The sort of `analyzeImage` is an insertion sort in
place on an `array`. The properties the source promises are lemmas about the specification
functions.

Go strings are byte strings. A `string` here is a sequence of bytes, one `char` per byte, so
`len`, slicing and `trunc`'s three-byte ellipsis are exact. Go's `/` truncates toward zero; it is
written out as `GoText.DivKB`. `strconv.ParseInt` is modelled with its sign and its int64 range.

Foreign code is a parameter of the model:

- SHA-256 is a function from text to 32 bytes.
- The RPM database library is a function from the database's bytes to `Option<seq<RpmRecord>>`.
- `buildinfo.Read` is a function from a file's bytes to `Option<BuildInfo>`.
- The environment (`XDG_CACHE_HOME`) and the home directory are inputs.
- `img.Layers()` is an `Option` of the decoded layers.

Behaviours of the source that the model keeps as written, and proves:

- A whiteout counts only when the whole normalised path starts with `.wh.`. It clears the slot
  of the database at exactly the remaining path, and the candidate at exactly that path. Any of
  the three RPM paths clears the shared RPM slot. `rpmFormat` is never reset.
- dpkg's status test is a substring test. A status of `deinstall ok not-installed` or
  `install reinstreq half-installed` counts as installed (`DpkgDb.NotInstalledStatusPasses`).
- An APK `S` line is read whenever the size is still 0, not only when there is no `I` line.
  An `I` value under 1024 bytes leaves the size at 0, so a later `S` line sets it
  (`ApkDb.SizeAfterSmallInstalledSize`).
- An APK record is typed `""` until the first blank line, and `"apk"` after it. A dpkg record is
  typed `""`, then `"deb"`.
- A binary's version comes from the first copy of its path that the reader accepts, in layer
  order. Its size is the one the scan recorded, which is the last candidate write.
- An image loaded from the cache reads no manifest, so its compressed size is 0.
- The header pattern matches leftmost-first: `# 1.0-summary text` yields version `1.0` and
  summary `summary text` (`ChangelogHeader.LeftmostFirstExample`).
- `trunc` counts bytes. On multi-byte text it can cut inside a character, and the result is
  `n + 2` bytes long when it adds the ellipsis.

## Model

| member | source | states |
|---|---|---|
| LayerScan.ScanLayers | main.go:596-678 | the slots, RPM format and candidate map after the nested layer/entry loops are those of the scan specification over all entries in layer order |
| LayerScan.ScanEntry | main.go:623-675 | one entry: the path is normalised, a `.wh.` path clears the matching slots and candidate, anything else goes to the read switch; the new state is one scan step |
| LayerScan.ReadEntry | main.go:647-675 | a database path fills its slot (RPM paths also set the format), a regular executable of positive size in a binary directory is recorded with its size, anything else changes nothing |
| LayerScan.Actions | main.go:614-675 | one action per entry, in entry order |
| LayerScan.ScanSnoc | main.go:605-676 | reading one more entry of a layer is one more step of the scan |
| LayerScan.ActionsPrefix | main.go:614-675 | the actions of the first n entries are the first n actions |
| LayerScan.DbPathNotWhiteout | main.go:44-48 | no database path starts with `.wh.`, so a database path is never taken for a whiteout |
| LayerScan.ClassifySlot | main.go:628-666 | seen from one slot, an entry is a whiteout of one of its paths, a write of one of them with the entry's bytes, or neither (both directions) |
| LayerScan.ApplySlot | main.go:630-666 | a step changes a slot only through that slot's writes and whiteouts |
| LayerScan.SlotIsLastTouch | main.go:598-666 | after all layers each slot holds the bytes of the last entry writing one of its paths, or nothing when a whiteout of one of its paths came later |
| LayerScan.RunSlotLast | main.go:598-666 | the same over actions: the slot is what the last action touching it left |
| LayerScan.SlotUntouched | main.go:598-666 | a slot that no entry writes or whites out stays empty |
| LayerScan.RunSlotUntouched | main.go:598-666 | the same over actions |
| LayerScan.RpmFormatIsLastWrite | main.go:655-666 | the RPM format names the path of the last RPM write; whiteouts do not reset it |
| LayerScan.RunFormatLast | main.go:655-666 | the same over actions |
| LayerScan.ClassifyCandidate | main.go:643-674 | seen from a path, an entry records it as a candidate with its size exactly when it is a regular file with an execute bit, positive size and a binary parent directory; it whites it out exactly when its path is `.wh.` + that path |
| LayerScan.ApplyCandidate | main.go:643-672 | a step changes the candidate at p only by recording p or whiting out exactly p |
| LayerScan.CandidateIsLastWrite | main.go:669-674 | a path is a candidate with the size of its last candidate write when no whiteout of exactly it follows; later non-candidate writes leave it |
| LayerScan.RunCandidateLast | main.go:669-674 | the same over actions |
| LayerScan.CandidateWhitedOut | main.go:643 | a whiteout of exactly p removes the candidate unless a candidate write of p follows |
| LayerScan.RunWhitedOut | main.go:643 | the same over actions |
| LayerScan.CandidateNeedsWrite | main.go:669-674 | a path without a candidate write is never a candidate |
| LayerScan.RunNeedsWrite | main.go:669-674 | the same over actions |
| LayerScan.CandidatesWellFormed | main.go:669-673 | every candidate sits directly in a binary directory and has a positive size |
| LayerScan.RunCandidatesOk | main.go:669-673 | the same over actions |
| ApkDb.ParseApkDB | main.go:828-876 | the loop's result is the records of the blank-line groups, each kept when named, in order |
| ApkDb.ReadApkLine | main.go:834-867 | one loop iteration is one step of that specification: an empty line closes the record, another line may set a field |
| ApkDb.ApkFieldLine | main.go:845-867 | a line shorter than two bytes or without `:` at byte 1 is skipped; P, V, I and S set the name, version or size as the parse step says |
| ApkDb.ApkStart | main.go:829-830 | before any line nothing is reported and the current record is empty and untyped |
| ApkDb.ApkClose | main.go:836-842 | an empty line reports the current record if named and starts a fresh record typed "apk" |
| ApkDb.ApkExtend | main.go:845-867 | a non-empty line reports nothing and updates only the current record |
| ApkDb.ApkFinal | main.go:870-873 | the end of input reports the last record if named |
| ApkDb.EmitApkShape | main.go:836-873 | at most one record per group, each named; every record after the first is typed "apk", the first "" or "apk" |
| ApkDb.FoldApkKeepsKind | main.go:852-867 | field lines never change a record's type |
| ApkDb.ApkFieldIsLast | main.go:853-856 | a record's name (version) is the value of the last P (V) line of its group |
| ApkDb.ApkFieldAbsent | main.go:841-856 | without a P (V) line the record keeps its initial name (version): nothing carries across groups |
| ApkDb.ApkInstalledSizeWins | main.go:857-866 | the last I line whose value parses gives the size, its bytes divided by 1024; later S lines are ignored when that count is non-zero, and when it is 0 no later S line may give a non-zero count |
| ApkDb.SizeAfterSmallInstalledSize | main.go:857-866 | "I:100" then "S:2048" gives 2 KB: an I line under 1024 bytes leaves the size at 0, so the S line still sets it |
| ApkDb.ApkSizeNeedsSizeLine | main.go:857-866 | without a parsable I or S line the size stays as it was |
| ApkDb.ApkSizeZero | main.go:861-866 | a record of size 0 stays at 0 when no I line parses and no S line gives a non-zero kilobyte count |
| ApkDb.ApkPackageSizeFallback | main.go:861-866 | with no parsable I line, the first S line giving a non-zero kilobyte count sets the size of a record that had none, and every later S line is ignored |
| ApkDb.ParseInt768000 | main.go:858 | "768000" parses to 768000 |
| ApkDb.BusyboxRecord | main.go:828-876 | a first group P:busybox, V:1.37.0-r50, I:768000 gives busybox 1.37.0-r50, 750 KB, type "" |
| ApkDb.BusyboxDatabase | main.go:828-876 | that database alone yields exactly that one record |
| DpkgDb.SplitField | main.go:899-909 | a line splits exactly when it does not start with a space and contains ": ", and key + ": " + value gives back the line |
| DpkgDb.Fields | main.go:899-924 | one field per line, in order |
| DpkgDb.ParseDpkgDB | main.go:879-933 | the loop's result is the records of the blank-line groups, each kept when named and installed, in order |
| DpkgDb.DpkgLine | main.go:886-924 | one loop iteration is one step of that specification |
| DpkgDb.DpkgFieldLine | main.go:899-924 | a non-empty line sets the field its key names, and nothing else |
| DpkgDb.DpkgStart | main.go:880-882 | before any line nothing is reported, the record is empty and untyped, and it is not installed |
| DpkgDb.DpkgClose | main.go:888-895 | an empty line reports the current record if named and installed, then starts a "deb" record that is not installed |
| DpkgDb.DpkgExtend | main.go:898-924 | a non-empty line reports nothing and sets its field of the current record |
| DpkgDb.DpkgFinal | main.go:927-930 | the end of input reports the last record if named and installed |
| DpkgDb.FoldSnoc | main.go:911-924 | one more line sets one more field |
| DpkgDb.FoldDpkgKeepsKind | main.go:911-924 | field lines never change a record's type |
| DpkgDb.FieldsKeepKind | main.go:911-924 | the same over fields |
| DpkgDb.EmitDpkgShape | main.go:890-930 | at most one record per group, each named; every record after the first is typed "deb", the first "" or "deb" |
| DpkgDb.RecordKind | main.go:881-893 | the first group's record is untyped, the others "deb" |
| DpkgDb.KeepShape | main.go:890-893 | appending a group's record keeps that shape |
| DpkgDb.SetFieldRead | main.go:911-924 | setting a field changes that field only |
| DpkgDb.LastFieldWins | main.go:911-924 | each field holds what the last line setting it said |
| DpkgDb.FieldUnset | main.go:911-924 | a field no line sets keeps its initial value |
| DpkgDb.FieldOfLine | main.go:899-924 | for each key, both directions: a line is a Package, Version, parsable Installed-Size or Status line exactly when it sets that field, with that value |
| DpkgDb.DpkgStatusIsLast | main.go:921-923 | whether a record is installed is decided by its group's last Status line containing "installed" |
| DpkgDb.DpkgStatusAbsent | main.go:882-894 | a group without a Status line keeps the initial "not installed" |
| DpkgDb.DpkgNameIsLast | main.go:912-913 | the name is the value of the last Package line |
| DpkgDb.DpkgVersionIsLast | main.go:914-915 | the version is the value of the last Version line |
| DpkgDb.DpkgSizeIsLastParsable | main.go:916-920 | the size is the last parsable Installed-Size, as kilobytes unchanged |
| DpkgDb.DpkgSizeNeedsSizeLine | main.go:916-920 | an unparsable or missing Installed-Size leaves the size as it was |
| DpkgDb.ContinuationIgnored | main.go:899-901 | a line starting with a space sets nothing |
| DpkgDb.InstalledStatus | main.go:923 | "install ok installed" passes the status test |
| DpkgDb.NotInstalledStatusPasses | main.go:923 | "deinstall ok not-installed" and "install reinstreq half-installed" pass it too |
| DpkgDb.ConfigFilesStatusFails | main.go:923 | "deinstall ok config-files" fails it |
| RpmDb.MapRpmRecords | main.go:743-755 | the loop's result is the mapped list of named records |
| RpmDb.ParseRpmDB | main.go:712-756 | no packages when the library fails, otherwise the mapped list |
| RpmDb.RpmPackagesMembership | main.go:744-753 | a record exists exactly for each named library record, with version-release and size/1024; never more records than library records |
| RpmDb.RpmPackagesShape | main.go:745-751 | every record is typed "rpm", named, and joins version and release with a hyphen |
| BinaryProbe.BinaryVersion | main.go:805-809 | the main module's version unless it is empty or "(devel)", else the Go version (both directions) |
| BinaryProbe.ProbeAll | main.go:811-819 | one recorded path per record |
| BinaryProbe.DetectGoBinaries | main.go:759-825 | no records and candidates untouched when the layers cannot be listed; otherwise the records and remaining candidates of the probe specification over all entries |
| BinaryProbe.ProbeLayer | main.go:768-822 | the loop over one layer continues the probe specification over that layer's entries |
| BinaryProbe.ProbeEntry | main.go:784-819 | one entry: a candidate path the reader accepts becomes a record and leaves the candidates; anything else changes nothing |
| BinaryProbe.ProbeSnoc | main.go:775-820 | one more entry is one more probe step |
| BinaryProbe.ProbeAccounted | main.go:787-819 | the probed paths are distinct candidates; record k is named by the base name of path k, sized candidate size / 1024 and typed "binary"; the remaining candidates are exactly the others, with their sizes |
| BinaryProbe.ProbeCount | main.go:818-819 | records plus remaining candidates number the candidates: each candidate yields at most one record |
| BinaryProbe.ProbedBinaries | main.go:811-819 | every probed record is typed "binary", and there are no more of them than candidates |
| BinaryProbe.ProbedKinds | main.go:815 | every probed record is typed "binary" |
| BinaryProbe.FirstRead | main.go:787-802 | the first entry at a path that the reader accepts: no earlier one is accepted, and None means none is |
| BinaryProbe.ProbeVersionIsFirstRead | main.go:799-819 | each record's version comes from the first accepted copy of its path, in layer order |
| BinaryProbe.ReadMeansProbed | main.go:787-819 | an entry the reader accepts leaves its path outside the remaining candidates |
| BinaryProbe.UnreadCandidateRemains | main.go:787-802 | a candidate no copy of which is accepted remains, with its size, and yields no record |
| Extract.ExtractPackagesFromImage | main.go:586-709 | nothing when the layers cannot be listed; otherwise the parsed non-empty slots, and the probed binaries only when those are empty and there are candidates |
| Extract.ParseDatabases | main.go:680-700 | each slot is parsed only when it holds a byte, in APK, dpkg, RPM order |
| Extract.EmptyDatabases | main.go:683-694 | the line parsers find nothing in empty input, so an empty slot behaves like an absent one |
| Extract.OsPackagesNotBinary | main.go:683-700 | no database record is typed "binary" |
| Extract.ApkNotBinary | main.go:683-688 | no APK record is typed "binary" |
| Extract.DpkgNotBinary | main.go:689-694 | no dpkg record is typed "binary" |
| Extract.RpmNotBinary | main.go:695-700 | no RPM record is typed "binary" |
| Extract.ExtractedKinds | main.go:702-706 | binary records and database records never mix, and there are no more binary records than candidates |
| Aggregate.AggregateRows | main.go:555-579 | the rows are the positive-size packages, sorted largest first, as a permutation; the total is their sum, the count their number, the map the last row per name |
| Aggregate.SortBySizeDesc | main.go:572 | the table ends sorted by non-increasing size and is a permutation of what it was |
| Aggregate.InsertLast | main.go:572 | one insertion step: the prefix one longer is sorted, contents permuted |
| Aggregate.Swap | main.go:572 | two entries exchanged, the others unchanged, contents permuted |
| Aggregate.CompressedSize | main.go:490-514 | the sum of the manifest's layer sizes, or 0 for an image from the cache |
| Aggregate.RowsMembership | main.go:559-570 | a row exists exactly for each package with a positive size; never more rows than packages |
| Aggregate.RowsPositive | main.go:560-561 | every row has a positive size, so the total is at least the number of rows |
| Aggregate.SumKBPermutation | main.go:557-572 | the total does not depend on the order of the rows, so it is also that of the sorted table |
| Aggregate.SumKBRemove | main.go:557-561 | removing a row removes its size from the total |
| Aggregate.PackageMapIsLast | main.go:568 | a name maps to the row of the last positive-size package with that name |
| Aggregate.PackageMapKeys | main.go:556-568 | the map's names are exactly the rows' names, so it has at most as many entries as rows |
| Syft.NormaliseSbom | main.go:953-1010 | the three loops' result is the size-normalised artifact list of the specification |
| Syft.FileSizeIsLast | main.go:954-959 | a file ID maps to the size of its last file with a positive size |
| Syft.FileSizesPositive | main.go:954-959 | only files with a positive size are recorded, and every such ID is |
| Syft.EvidenceIsLast | main.go:961-966 | an artifact maps to the child of its last "evident-by" relationship |
| Syft.NoEvidence | main.go:961-991 | without an "evident-by" relationship an artifact has no file |
| Syft.SizedPackagesMembership | main.go:968-1008 | a record exists exactly for each artifact with a positive size under its type's rule, keeping name, version and type |
| Syft.SizeUnits | main.go:971-998 | the size rule for every type: deb takes a positive installedSize as kilobytes; apk takes a positive installedSize divided by 1024, else a positive size divided by 1024; rpm takes a positive size divided by 1024; any other type takes a positive installedSize as kilobytes, else a positive size divided by 1024; in every other case the size is 0, and rpm has a size exactly from 1024 bytes |
| Syft.BinarySize | main.go:986-991 | a binary artifact's size is its last evidence file's size divided by 1024, 0 when that file is not listed, and so positive exactly when the file was listed with at least 1024 bytes |
| CachePaths.HexDigit | main.go:134 | a nibble becomes a lower-case hex digit |
| CachePaths.HexEncode | main.go:134 | two hex digits per byte |
| CachePaths.HexRoundTrip | main.go:134 | decoding the hex text gives back the bytes |
| CachePaths.HashImageRef | main.go:132-135 | 16 hex digits |
| CachePaths.SafeName | main.go:143-144 | every "/" and ":" of the reference becomes "_" and every other byte is kept, so no "/" or ":" is left |
| CachePaths.CacheDirShape | main.go:120-130 | the directory is unknown exactly when XDG_CACHE_HOME is unset and there is no home; otherwise its last element is "pkgpulse" |
| CachePaths.XdgOverridesHome | main.go:121-129 | a set XDG_CACHE_HOME decides the directory whatever the home is |
| CachePaths.BaseNameIsName | main.go:143-146 | the base name with either suffix is one path element |
| CachePaths.CachePathsShape | main.go:137-147 | both paths are empty exactly when the directory is unknown; otherwise they share directory and stem and differ only in ".tar"/".json" |
| CachePaths.CacheFile | main.go:146 | one cache file is the directory's prefix, the base name and the suffix |
| Display.RuneCount | main.go:1114-1122 | a byte string shows at most as many characters as it has bytes |
| Display.RuneCountAppend | main.go:1121 | characters of a concatenation add up |
| Display.RuneCountAscii | main.go:1114-1122 | ASCII text shows one character per byte |
| Display.EllipsisIsOneRune | main.go:1121 | the ellipsis is three bytes and one character |
| Display.TruncShape | main.go:1114-1122 | short strings are kept; otherwise a prefix of n bytes (n <= 1), or of n - 1 bytes plus the ellipsis, n + 2 bytes in all |
| Display.TruncRuneBound | main.go:1114-1122 | the result never shows more than n characters |
| Display.TruncAsciiWidth | main.go:1114-1122 | on ASCII text it shows exactly min(len, n) characters |
| Display.TruncIdempotent | main.go:1114-1122 | truncating twice to the same width changes nothing more |
| GoText.TrimPrefix | main.go:624-625 | removes the prefix once when present, else the text is unchanged |
| GoText.CutPrefix | main.go:628 | found exactly when the text starts with the prefix, and prefix + rest gives back the text |
| GoText.Index | main.go:903 | the first occurrence, with none before it; None exactly when there is none |
| GoText.IndexByte | main.go:670 | the first occurrence of a byte; None exactly when it is absent |
| GoText.SpaceEnd | tools/release-tool/main.go:133-134 | the first index from i on whose byte is not white space; every byte skipped is white space |
| GoText.SpaceStart | tools/release-tool/main.go:133-134 | going down from j to no lower than lo, the end of the last byte that is not white space; every byte skipped is white space |
| GoText.TrimSpace | tools/release-tool/main.go:142-144 | the result is a window of the input that neither starts nor ends with white space, and every byte before and after the window is white space |
| GoText.ReplaceByte | main.go:143-144 | same length; every byte `from` becomes `to` and every other byte is unchanged |
| GoText.ParseInt | main.go:858-863 | succeeds exactly on one or more digits with an optional "+" or "-" whose value is within int64; the value is the digits' decimal value, negated after "-" |
| GoText.ParseFormatRoundTrip | main.go:858 | every int64 value, written in decimal, parses back |
| GoText.DivKB | main.go:859 | Go's truncating division by 1024, for both signs |
| GoText.DivKBPositive | main.go:560 | at least one kilobyte exactly from 1024 bytes |
| GoText.ScanLines | main.go:832-834 | no line holds a newline |
| GoText.ScanLinesRoundTrip | main.go:832-834 | without carriage returns the lines give back the data, up to a final newline |
| GoText.ScanLinesCons | main.go:832-834 | a line followed by a newline is read as that line, less one final carriage return |
| Stanzas.Blocks | main.go:836-843 | at least one group |
| Stanzas.BlocksRoundTrip | main.go:836-843 | the groups, rejoined with empty lines, give back the lines |
| Stanzas.BlocksShape | main.go:888-896 | one group more than empty lines, and no group holds an empty line |
| Stanzas.BlocksWithoutBlank | main.go:836-843 | lines without an empty one form one group |
| FilePath.SplitSlash | main.go:670 | at least one element, none holding a slash |
| FilePath.Reduce | main.go:670 | Clean keeps only real names and leading "..": no "", no "." |
| FilePath.Clean | main.go:670 | never empty |
| FilePath.LastIndexByte | main.go:670 | the last occurrence, with none after it; None exactly when absent |
| FilePath.TrimTrailingSlashes | main.go:805 | a prefix that does not end in a slash |
| FilePath.Base | main.go:805 | never empty |
| FilePath.JoinName | main.go:127-146 | joining a plain name to a directory appends it to the cleaned directory, and Base gives the name back |
| FilePath.CleanAppendName | main.go:146 | cleaning d/n appends n to the cleaned d |
| FilePath.BaseOfName | main.go:805 | the base of a path ending in a plain name is that name |
| FilePath.DirOfJoin | main.go:670 | the directory of d/n is the cleaned d |
| Changelog.ParseLatestChangelogEntry | tools/release-tool/main.go:110-166 | the result is the latest-entry specification over the lines with the header pattern compiled at line 117 |
| Changelog.ScanChangelog | tools/release-tool/main.go:119-163 | the scan loop, the error test and the bullet rewrite give the latest-entry specification, for any header matcher |
| Changelog.ChangelogLine | tools/release-tool/main.go:125-147 | one iteration is one step: a matching '#' line opens the entry or stops the loop, other '#' lines are skipped, a '-' line adds its trimmed rest while collecting |
| Changelog.Kinds | tools/release-tool/main.go:124-147 | one kind per line, in order |
| Changelog.Bulleted | tools/release-tool/main.go:159-161 | each bullet prefixed with "- " |
| Changelog.ScanSnoc | tools/release-tool/main.go:124-148 | one more line is one more step |
| Changelog.StoppedStaysKinds | tools/release-tool/main.go:138 | once stopped at a second header, later kinds change nothing |
| Changelog.StoppedStays | tools/release-tool/main.go:138 | once stopped, later lines change nothing |
| Changelog.NoHeadingIgnored | tools/release-tool/main.go:127-147 | without a heading the scan never opens an entry |
| Changelog.PrefixIgnoredKinds | tools/release-tool/main.go:141 | kinds before the first heading change nothing |
| Changelog.CollectingAfterHeading | tools/release-tool/main.go:132-146 | after the first heading, until another, the entry is open with its groups and the bullets since |
| Changelog.OpenAtHeading | tools/release-tool/main.go:132-136 | the first heading opens the entry with its trimmed groups and no bullets |
| Changelog.CollectOne | tools/release-tool/main.go:141-146 | a non-heading line while open adds at most its bullet |
| Changelog.NoHeaderFails | tools/release-tool/main.go:154-156 | no matching header is an error |
| Changelog.PrefixIgnored | tools/release-tool/main.go:141-147 | lines before the first header, bullets included, change nothing |
| Changelog.KindsAppend | tools/release-tool/main.go:124-147 | classifying two runs of lines one after the other gives the kinds of their concatenation |
| Changelog.BulletTextsOfLines | tools/release-tool/main.go:141-146 | the scan's bullets are the trimmed rests of the '-' lines, for any matcher |
| Changelog.LatestEntryBetweenHeaders | tools/release-tool/main.go:124-163 | with the first header at j and the next at end: the trimmed groups and the description of the bullets between; an error exactly when the trimmed summary is empty |
| Changelog.ScanBetweenHeaders | tools/release-tool/main.go:124-148 | the loop's variables at its end, with the first header at j and the next at end |
| Changelog.BulletsBetween | tools/release-tool/main.go:141-146 | the bullets of a run of lines |
| Changelog.HeadingsBetween | tools/release-tool/main.go:127-137 | header lines are exactly the headings, with their trimmed groups |
| Changelog.HeadingIff | tools/release-tool/main.go:127-134 | a line is a heading exactly when it starts with '#' and matches, and then carries its trimmed groups |
| Changelog.EntryBetweenHeadings | tools/release-tool/main.go:127-146 | over kinds: the entry of the first heading with the bullets up to the next |
| Changelog.StopAtHeading | tools/release-tool/main.go:138 | a heading while collecting stops the loop and keeps the entry |
| Changelog.StopsAtSecondHeader | tools/release-tool/main.go:138 | the lines from the second header on can be dropped without changing the result |
| Changelog.ScanStopsAt | tools/release-tool/main.go:138 | the scan of all lines is the scan up to the second header, stopped |
| Changelog.StopsAtSecondHeading | tools/release-tool/main.go:138 | the same over kinds |
| Changelog.DescriptionLines | tools/release-tool/main.go:158-163 | the description is empty exactly without bullets; otherwise its lines are the bullets each prefixed "- " |
| Changelog.JoinScan | tools/release-tool/main.go:162 | lines joined with newlines scan back to those lines |
| ChangelogHeader.Run | tools/release-tool/main.go:117 | a run of one character class stays within the text |
| ChangelogHeader.RunSpec | tools/release-tool/main.go:117 | the run is all of its class and stops at the end or at a character outside it |
| ChangelogHeader.Tail | tools/release-tool/main.go:117 | the summary group of `\s*-\s*(.+)$` is non-empty and has no newline |
| ChangelogHeader.AfterBuild | tools/release-tool/main.go:117 | the optional build part then the tail end within the text |
| ChangelogHeader.BuildLengths | tools/release-tool/main.go:117 | a backtracked build run ends within the run |
| ChangelogHeader.AfterPre | tools/release-tool/main.go:117 | the optional pre-release part then the rest end within the text |
| ChangelogHeader.PreLengths | tools/release-tool/main.go:117 | a backtracked pre-release run ends after its dash |
| ChangelogHeader.VersionCore | tools/release-tool/main.go:117 | major.minor ends after its start |
| ChangelogHeader.AfterCore | tools/release-tool/main.go:117 | the rest of `{1,2}` and the tail end within the text |
| ChangelogHeader.PatchEnd | tools/release-tool/main.go:117 | a patch number is at least one digit |
| ChangelogHeader.TailWellFormed | tools/release-tool/main.go:117 | " - summary" yields the summary when it does not start with white space |
| ChangelogHeader.AfterBuildLongest | tools/release-tool/main.go:117 | the longest build run is tried first |
| ChangelogHeader.AfterPreLongest | tools/release-tool/main.go:117 | the longest pre-release run is tried first |
| ChangelogHeader.AfterBuildAbsent | tools/release-tool/main.go:117 | without '+', the tail is tried in place |
| ChangelogHeader.AfterPreAbsent | tools/release-tool/main.go:117 | without '-', the build part is tried in place |
| ChangelogHeader.BuildAt | tools/release-tool/main.go:117 | a build part followed by the tail matches |
| ChangelogHeader.PreAt | tools/release-tool/main.go:117 | a pre-release part followed by a match matches |
| ChangelogHeader.AfterPreWellFormed | tools/release-tool/main.go:117 | "-pre+build - summary" yields the summary, either part optional |
| ChangelogHeader.HeaderAt | tools/release-tool/main.go:117-128 | a header "# " + core + rest yields the core through the end of the version, and the summary |
| ChangelogHeader.VersionCoreAt | tools/release-tool/main.go:117 | digits, a dot and digits are the core |
| ChangelogHeader.HeaderAfterCore | tools/release-tool/main.go:117-128 | a core followed by a matching rest is a header |
| ChangelogHeader.HeaderWithoutPatch | tools/release-tool/main.go:117-128 | major.minor then a rest yields version and summary |
| ChangelogHeader.HeaderWithPatch | tools/release-tool/main.go:117-128 | major.minor.patch then a rest yields version and summary |
| ChangelogHeader.HeaderWellFormed | tools/release-tool/main.go:117-128 | "# <version> - <summary>" yields exactly that version and summary, for every well-formed version |
| ChangelogHeader.DashRightAfterCore | tools/release-tool/main.go:117-128 | leftmost-first: in "# x.y-word rest" with no " - " after the word, the version is x.y and the summary starts at the word |
| ChangelogHeader.PreReleaseFails | tools/release-tool/main.go:117 | that word cannot be the pre-release part: every cut of it fails |
| ChangelogHeader.DashTail | tools/release-tool/main.go:117 | then the dash after the core is the pattern's dash |
| ChangelogHeader.LeftmostFirstExample | tools/release-tool/main.go:117-128 | "# 1.0-summary text" yields "1.0" and "summary text" |
| Release.TagRoundTrip | tools/release-tool/main.go:194 | the tag gives back its version, and distinct versions get distinct tags |
| Release.CommitMatchesTag | tools/release-tool/main.go:222-241 | the commit message git builds from the arguments equals the tag's annotation |
| Release.CommitOptions | tools/release-tool/main.go:222-225 | the -m values are the summary, then the description only when non-empty |
| Release.MessageRoundTrip | tools/release-tool/main.go:238-241 | a one-line summary and the description are recovered from the annotation |

## Left out

- Registry and daemon fetching, authentication, manifest retrieval and the cache's file I/O
  (loading, saving, listing, clearing). Only the layer-size sum and the path derivation are
  modelled.
- Tar decoding, `layer.Uncompressed` and their errors. A layer that cannot be opened is skipped
  and a read error ends that layer's loop in the source. The model starts from decoded entries,
  each with the bytes `io.ReadAll` returns.
- `io.ReadAll` errors in `detectGoBinaries`, which skip a candidate; the model always has the bytes.
- The RPM database library, its temporary file and its format argument (only logged). The
  library is a function parameter, and any failure returns no packages.
- SHA-256 and `buildinfo.Read` are function parameters; their algorithms are not modelled.
- Running syft and decoding its JSON; the model starts from the decoded SBOM.
- Concurrency in `main` (goroutines, semaphore, progress channel), including the race on a
  shared cache entry.
- Floating-point megabytes (`toMB`, the rows' MB, `InstalledMB`) and table/CSV rendering.
  Sizes stay in integer kilobytes; the sort compares kilobytes, which orders rows as MB does.
- `sort.Slice` is unstable. Aggregate.SortBySizeDesc promises only sorted and permuted, so
  the order of rows of equal size is left open, as in the source.
- CLI parsing, the cache commands, usage text and process exit.
- The 64 KiB `bufio.Scanner` token limit and `scanner.Err`: lines are assumed shorter.
- int64 overflow in the sums (`totalInstalled`, `totalCompressed`): integers are unbounded.
- Unicode white space beyond the single-byte ASCII set in `strings.TrimSpace`, and invalid
  UTF-8 handling.
- The release tool's git subprocesses, their ordering and outputs, and opening the changelog.
  git's own message clean-up (stripping trailing white space) is not modelled by
  Release.CommitMatchesTag.
- Opaque whiteouts (`.wh..wh..opq`) and whiteouts placed on a base name, which the source does
  not handle either.
- ChangelogHeader.HeaderWellFormed covers headers written "# <version> - <summary>" with a
  summary that does not start with white space. Other header shapes are covered only by
  ChangelogHeader.DashRightAfterCore and the worked example.
- `img.Layers()` is called twice in the source, once at the start of the scan and once in
  `detectGoBinaries`. The model has one `Option` of layers for both calls, so it assumes the
  second call returns the same layers whenever the first one succeeds.
- Changelog.ScanChangelog takes the header matcher as a parameter. Its properties hold for
  every matcher; Changelog.ParseLatestChangelogEntry passes the header pattern.
