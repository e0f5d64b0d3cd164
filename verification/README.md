# Verified models of the haproxy-boshrelease tooling

This project models the parts of the HAProxy BOSH release that decide, parse or coordinate
something, and proves what they keep:

- **Dependency bumps** (`Versions`, `Packaging`, `Selection`, `Links`, `Changelog`, `Bump`,
  `BumpRuns`). A run picks the newest release of each dependency, rewrites one line of a packaging
  script, swaps a blob, opens a pull request and resets the tree. `Packaging` treats the script as a
  text format with one writer and two independent readers. `Bump` is the program, with caches,
  tracked files, remote branches and early exits; it refines a function that takes every dependency
  from the same base files. `BumpRuns` draws the consequences for whole runs.
- **The certificate archive** (`CrtList`, `Ttar`, `Certs`). One template loop prints crt-list lines
  that name files by index, another prints those files; the spec helper looks files up by splitting
  on the header marker. `Ttar` is proved for any one-line marker, `CrtList` and `Certs` for any
  plain directory; `HEADER` and `SSL_DIR` are the ones in use.
- **The configuration reader** (`HaproxyConfig`), the spec helper that groups a configuration into
  sections.
- **Stopping processes** (`StopProtocol`, `Pidfile`). The shell functions run against an arbitrary
  timeline of poll answers; a second model interleaves many scripts and daemons over one pidfile.
- **The bidirectional copy** (`CopyProtocol`): every interleaving of the two goroutines of every call
  in one accept loop.
- **The CI skip decision** (`SkipCi`).

`Text` and `Decimal` hold what the formats share. `hide` statements only take definitions away from
the solver; nothing is assumed anywhere.

## Behaviour worth knowing

Each of these is a lemma that gives the exact condition or a concrete case.

- A release with one component or more than four is written into the packaging file, which the
  next reading then rejects (`Packaging.WriteThenReadIff`).
- Stripping a tag prefix with `lstrip` eats leading characters of the version too: `pcre2-20.1` reads
  as 0.1 (`Selection.PcreTwentyIsMisread`).
- Link pages never reveal a component of two digits: 2.3.10 is invisible below 2.3
  (`Links.VisibleIff`). The dots of the pinned version are pattern dots, so 213.4 counts as a 2.3
  release (`Links.DotMatchesDigit`); a pin holds exactly if it has no dot (`Links.PinHoldsIff`), as
  that of socat, while those of keepalived and lua have one.
- A writer whose variable name is a prefix of another variable destroys the other one's lines
  (`Packaging.OtherReadingKept`); the six names in use are safe
  (`BumpRuns.DependenciesAreUndisturbed`).
- `current_version` is documented as always identical to the version in `blobs.yml`. The file without
  suffix (hatop) keeps its superseded blob on every bump (`BumpRuns.StaleBlobIff`).
- An exception in the middle of a push leaves a half-finished branch (`BumpRuns.HalfFinishedBranch`)
  or an open pull request without its label (`BumpRuns.PullIsBumpOfBase`) behind; which exception
  leaves what is in `BumpRuns.ExceptionTellsBranches`.
- The two readers of the packaging file differ when the URL holds a `#`, the variable has two lines
  or another line prints something (`Packaging.TwoReadersAgree`).
- With both `ssl_pem` and `crt_list`, certificates of the same number are printed under one path,
  and a lookup returns that of `ssl_pem` (`Certs.NamedFilesAreFound`).
- Two guards on one stale pidfile can remove the pidfile of a live daemon (`Pidfile.TwoGuardsRace`),
  and so can a guard that finds the file gone between its test and its read, because `ps -p ""` fails
  (`Pidfile.EmptyReadRace`). `Pidfile.StartIsSafeIff` says exactly which starts cannot lead there.
- A stop reports a timeout although the wait saw the process end exactly if the pid is taken again
  at the next poll (`StopProtocol.ReusedPidReportsTimeout`).
- The copy returns after one direction; the other goroutine never ends
  (`CopyProtocol.OtherGoroutineIsStuck`) and may leave bytes unwritten, under the exact condition of
  `CopyProtocol.BytesLeftIff`.
- `ci/README.md` speaks of ignoring folders; only their direct children are ignored
  (`SkipCi.DirectChildrenOnly`). A changed file on a last line without newline is not looked at
  (`SkipCi.UnterminatedLineIsIgnored`).

## Model

| member | source | states |
|---|---|---|
| Versions.LessIff | ci/scripts/autobump-dependencies.py:279 | versions are ordered by the first zero-padded component that differs, and rank the same exactly when none does |
| Versions.LessIsStrictWeakOrder | ci/scripts/autobump-dependencies.py:512 | the order used by the gate, the scan and the sort is asymmetric and any third version separates two ranked ones |
| Versions.ParseOfPrint | ci/scripts/autobump-dependencies.py:278 | parsing the printed form of any version, of any number of components, returns that version |
| Versions.PrintOfParseIff | ci/scripts/autobump-dependencies.py:278-287 | printing a parsed version text gives the text back if and only if no component of it has a leading zero |
| Decimal.ValueOfPrint | ci/scripts/autobump-dependencies.py:181 | decimal printing of a component is inverted by decimal reading, for every natural |
| Packaging.MatchLineIff | ci/scripts/autobump-dependencies.py:127-134 | the reader takes a version from a line exactly when the line splits as the pattern asks, and then no other version is possible |
| Packaging.ReadVersionExact | ci/scripts/autobump-dependencies.py:125-135 | reading raises exactly when no line has the pattern; otherwise the first line that has it decides |
| Packaging.WriteThenRead | ci/scripts/autobump-dependencies.py:173-185 | a fresh reading of the written file returns the written version, for every file with a line for the name and every URL, line breaks included |
| Packaging.WriteThenReadIff | ci/scripts/autobump-dependencies.py:129-135 | with a one-line URL the written version can be read back if and only if it has two to four components |
| Packaging.UrlReadsBack | ci/scripts/autobump-dependencies.py:180-181 | an independent reader of the comment gets the one-line URL back, whole, from the written line |
| Packaging.LinesOfWritten | ci/scripts/autobump-dependencies.py:177-185 | the written file has as many lines as before and every line not starting with the name is untouched |
| Packaging.UniversalBreak | ci/scripts/autobump-dependencies.py:177-178 | in text mode a carriage return, with or without a line feed after it, reads as one line feed |
| Packaging.LastWriteWins | ci/scripts/autobump-dependencies.py:173-185 | writing twice leaves the file that writing only the last value leaves |
| Packaging.WritesCommute | ci/scripts/autobump-dependencies.py:173-185 | writes for two different names give the same file in either order, even if one name is a prefix of the other |
| Packaging.OtherReadingKept | ci/scripts/autobump-dependencies.py:180-181 | a write keeps another readable variable's version if and only if the written name is not a prefix of the other |
| Packaging.SedLineCuts | ci/scripts/shipit:67-71 | from a line with the name and a comment the two commands print the text around the first assignment up to the last hash, without its spaces |
| Packaging.TwoReadersAgree | ci/scripts/shipit:66-72 | on every written file with a line for the name, the release script prints the version if and only if the URL has no '#', one line carries the name, nothing is printed before it and nothing but empty lines after it |
| Selection.GetDownloadUrl | ci/scripts/autobump-dependencies.py:264-269 | returns the URL of the first asset with the suffix, none exactly if no asset has it |
| Selection.DownloadUrlIsFirst | ci/scripts/autobump-dependencies.py:266-268 | an asset with the suffix that no earlier asset has is the one downloaded |
| Selection.GithubSource.FetchLatestRelease | ci/scripts/autobump-dependencies.py:259-291 | returns the earliest greatest usable release above 0.0.0; the first unparseable tag or strict maximum without asset decides the exception |
| Selection.GithubSource.ScanFound | ci/scripts/autobump-dependencies.py:271-291 | field by field: the release returned is the earliest greatest candidate above 0.0.0 that is no prerelease and carries the pin, with its title, the URL of its first asset with the suffix, and the file {name}-{version}{suffix} |
| Selection.GithubSource.ScanRaised | ci/scripts/autobump-dependencies.py:271-289 | an exception means an unparseable tag, a candidate above 0.0.0 without an asset, or no candidate above 0.0.0 |
| Selection.SortIsStable | ci/scripts/autobump-dependencies.py:328 | the descending sort exists: descending by version, every rank class in its original order |
| Selection.HeadOfStableSort | ci/scripts/autobump-dependencies.py:328 | the head of any stable descending sort is the earliest greatest candidate |
| Selection.FetchFromLinks | ci/scripts/autobump-dependencies.py:326-330 | returns the earliest greatest candidate and raises exactly on an empty list |
| Selection.ScanEqualsSort | ci/scripts/autobump-dependencies.py:271-291 | without exceptions on the way, the running maximum and any stable descending sort choose the same release, ties included, exactly when one is above 0.0.0 |
| Selection.TagStripsExactly | ci/scripts/autobump-dependencies.py:277 | a tag loses its prefix and nothing else if and only if the version text does not start with a character of the prefix |
| Selection.PcreTwentyIsMisread | ci/scripts/autobump-dependencies.py:277 | tag pcre2-20.1 reads as version 0.1 |
| Links.VisibleIff | ci/scripts/autobump-dependencies.py:301-321 | the link of a version below the pinned one, in any directory and whatever follows the file name, is found with that version if and only if all its further components have one digit; otherwise nothing is found |
| Links.TextAtIff | ci/scripts/autobump-dependencies.py:301 | the greedy match at a position takes a version group exactly when the pattern, read declaratively with its unescaped dots, allows that group there; no other group is possible |
| Links.SearchIsLeftmost | ci/scripts/autobump-dependencies.py:312-315 | the search takes the group of the leftmost match and finds nothing exactly when the pattern matches nowhere |
| Links.LinkSource.FetchLatestRelease | ci/scripts/autobump-dependencies.py:304-330 | the first matching link whose version does not parse raises; otherwise the earliest greatest release of all matching links is returned, or the no-release exception on none |
| Links.LinkSource.LinkChosen | ci/scripts/autobump-dependencies.py:312-328 | field by field: the release returned is that of the earliest link with the greatest version, with the absolute form of the link and the matched file name with and without extension |
| Links.LinkSource.LinkRaised | ci/scripts/autobump-dependencies.py:312-330 | an exception means a group that does not parse, or no matching link |
| Links.PinHoldsIff | ci/scripts/autobump-dependencies.py:301-315 | no link whatever is taken for a release that does not start with the pinned version if and only if the pinned version has one component |
| Links.DotMatchesDigit | ci/scripts/autobump-dependencies.py:301 | as an example, with 2.3 pinned a link of 213.4 is found and ranks above every 2.3.x |
| Changelog.BaseIsNotAboveCurrent | ci/scripts/autobump-dependencies.py:359-370 | the version the quote stops at never ranks above the current one and is the current one within a minor line |
| Changelog.BaseOfLine | ci/scripts/autobump-dependencies.py:364-370 | for a bump upwards the base is the current version within its major.minor line, and otherwise major.minor.0 of that line, below which no version of it ranks |
| Changelog.QuotedLines | ci/scripts/autobump-dependencies.py:398-406 | quotes exactly the lines from the first head of the latest version up to the first head of the current one |
| Changelog.BumpQuote | ci/scripts/autobump-dependencies.py:359-406 | the quote of a bump runs from the first head of the latest version to the first head of the comparison base |
| Changelog.QuoteHoldsChanges | ci/scripts/autobump-dependencies.py:359-406 | in an ordered changelog the quote holds every section above the current version and not above the latest, whole; with a section for the comparison base it consists of exactly the sections above that base |
| Bump.Dependency.CurrentVersion | ci/scripts/autobump-dependencies.py:117-135 | returns the cached version or what the packaging file reads as, and caches a success |
| Bump.Dependency.LatestRelease | ci/scripts/autobump-dependencies.py:137-141 | asks the outside once and keeps a successful answer |
| Bump.Pipeline.RemoveCurrentBlob | ci/scripts/autobump-dependencies.py:158-163 | removes the tarball of the current version if it is there and no other blob |
| Bump.Pipeline.UpdatePackagingFile | ci/scripts/autobump-dependencies.py:173-185 | the line loop leaves the written file in the tree and changes no other file |
| Bump.Pipeline.BranchFromBase | ci/scripts/autobump-dependencies.py:232-244 | an old branch of the name is replaced by the base; a failed lookup or deletion still attempts the creation, which fails while the old branch stands, and a failed creation leaves no branch |
| Bump.Pipeline.CreatePr | ci/scripts/autobump-dependencies.py:197-250 | after the release notes, on a real run only, the branch and pull request are those of the specified push, with the name, versions, URL and notes that its title and body print; an exception leaves exactly what was pushed before it |
| Bump.Pipeline.BumpDependency | ci/scripts/autobump-dependencies.py:508-529 | one pass of the loop has the outcome of the dependency taken alone on the base, remote branches included, and leaves the base behind unless it raised |
| Bump.Pipeline.BumpAll | ci/scripts/autobump-dependencies.py:507-529 | the run with caches, tree changes and resets leaves the pull requests, in order, and the branches of the run in which every dependency meets the base |
| BumpRuns.AttemptExact | ci/scripts/autobump-dependencies.py:508-529 | a pull request is opened if and only if the release is newer, none is open, the run is not a dry one and no step reached before the labelling raises |
| BumpRuns.NewerEnds | ci/scripts/autobump-dependencies.py:516-526 | on a due dependency the first step that raises, in the order of the program, decides the exception, and before the branch steps nothing is pushed |
| BumpRuns.RunExact | ci/scripts/autobump-dependencies.py:507-529 | told from the answers alone, a run stops at the first dependency that fails and its pull requests are, in order, those of the dependencies up to there that get through |
| BumpRuns.PullIsBumpOfBase | ci/scripts/autobump-dependencies.py:507-529 | every pull request belongs to a due dependency and holds the base with that dependency alone bumped; only the last one can lack its label, and then the labelling raised |
| BumpRuns.DueIsPulled | ci/scripts/autobump-dependencies.py:508-526 | a run without exceptions opens a pull request for every due dependency |
| BumpRuns.StopsAtFirstException | ci/scripts/autobump-dependencies.py:507-529 | a run that raises is the run over the dependencies before some dependency, which raised nothing, followed by that dependency's attempt |
| BumpRuns.BranchContents | ci/scripts/autobump-dependencies.py:197-250 | after every run each bump branch is as it was or was left by its due dependency as missing, base, base with packaging file, or whole bump; without an exception only untouched and whole are possible |
| BumpRuns.ExceptionTellsBranches | ci/scripts/autobump-dependencies.py:206-250 | a run that raises ends at one dependency, whose branch the exception alone tells: as it was or missing, base, base with packaging file, whole bump, or untouched; every other dependency's branch is as it was or whole |
| BumpRuns.HalfFinishedBranch | ci/scripts/autobump-dependencies.py:209-220 | a due dependency whose blobs push alone raises leaves a branch that reads as the new version with the base's blobs |
| BumpRuns.TitleTellsBump | ci/scripts/autobump-dependencies.py:222-223 | pull requests with equal titles are for the same dependency and version |
| BumpRuns.PullTextOverRuns | ci/scripts/autobump-dependencies.py:199-226 | in every pull request of every run an independent reader finds in the text the version read from the base, the version looked up, and the URL, each in its role |
| BumpRuns.PullsMatchBranches | ci/scripts/autobump-dependencies.py:206-227 | at the end of every run over different names each pull request's branch holds its files |
| BumpRuns.NeverDowngrades | ci/scripts/autobump-dependencies.py:508-526 | a pull request's packaging file reads as a version strictly above the base file's; outside two to four components it does not read at all |
| BumpRuns.PullFrame | ci/scripts/autobump-dependencies.py:206-220 | in the branch only the dependency's own lines of its own packaging file differ from the base |
| BumpRuns.TarballKeyInjective | ci/scripts/autobump-dependencies.py:159 | a tarball path is a stored path only for the same package and name, and two tarball paths coincide only for the same version too |
| BumpRuns.BumpMovesBlob | ci/scripts/autobump-dependencies.py:519-523 | a standard bump drops the old path, adds the new one with the download, keeps all others, and the packaging version names an existing blob again |
| BumpRuns.OtherAgreementKept | ci/scripts/autobump-dependencies.py:519-523 | a bump keeps another dependency's packaging version naming an existing blob, whatever suffix that one is stored with |
| BumpRuns.OwnAgreementIff | ci/scripts/autobump-dependencies.py:519-523 | after its bump a dependency's packaging version names an existing blob if and only if it has two to four components and the file has the standard name or the blob was there before and is not the one removed |
| BumpRuns.AgreementOverRuns | ci/scripts/autobump-dependencies.py:507-529 | for each dependency on its own: if its packaging version names an existing blob on the base, it does in every pull request of every run, given a standard file name for its own release alone |
| BumpRuns.StaleBlobIff | ci/scripts/autobump-dependencies.py:158-163 | the superseded blob goes if and only if it is stored with the suffix .tar.gz |
| BumpRuns.GithubBlobFate | ci/scripts/autobump-dependencies.py:281-286 | the release found by the scan is stored under its suffix, and its predecessor goes exactly for .tar.gz |
| BumpRuns.LinkFileIsStandardIff | ci/scripts/autobump-dependencies.py:312-321 | the release found on a link page has the standard file name if and only if no component of its version group has a leading zero, on the pinned line or not |
| BumpRuns.LinkBlobFate | ci/scripts/autobump-dependencies.py:304-330 | if the links found carry the pinned version literally, as they do for a pin of one component, the release extends it by one-digit components and has the standard file name |
| BumpRuns.DependenciesAreUndisturbed | ci/scripts/autobump-dependencies.py:460-503 | the six dependencies have plain and different names, different blob paths and no variable that is a prefix of another in its file |
| BumpRuns.DependenciesAgree | ci/scripts/autobump-dependencies.py:460-529 | for the list in use: each of the six dependencies, hatop without suffix included, stays in agreement in every pull request of every run |
| CrtList.PrintSettings | jobs/haproxy/templates/certs.ttar.erb:28-58 | the optional settings are appended one by one in their fixed order |
| CrtList.PrintLine | jobs/haproxy/templates/certs.ttar.erb:28-73 | building a line piece by piece gives the line of path, bracketed settings and SNI filters |
| CrtList.DecodeOfLine | jobs/haproxy/templates/certs.ttar.erb:28-73 | an independent reader recovers from a printed line its path, the settings given in order, and the filter list |
| CrtList.SettingsReadBack | jobs/haproxy/templates/certs.ttar.erb:28-62 | each configured value is read back under its own haproxy keyword, and a setting not configured is not read |
| CrtList.PathAndFiltersReadBack | jobs/haproxy/templates/certs.ttar.erb:66-73 | the path read back is the numbered certificate, and the filters are those given, in order |
| CrtList.LineDeterminesEntry | jobs/haproxy/templates/certs.ttar.erb:28-73 | equal lines come from the same index, equal settings and equal filters, up to string versus one-element list |
| Ttar.TtarEntry | spec/spec_helper.rb:39-49 | the search loop answers with the piece after the first piece equal to the path, or reports the paths seen |
| Ttar.CutRejoins | spec/spec_helper.rb:40 | cutting at the markers loses nothing: the pieces with their markers are the text |
| Ttar.AbsentIsReported | spec/spec_helper.rb:42-48 | a path among none of the fields raises, with exactly the fields that hold /var/vcap, in order |
| Ttar.LookupFound | spec/spec_helper.rb:42-43 | a path among the fields gives the field after its first occurrence, or nothing if that is the last one |
| Ttar.LookupIsSlot | spec/spec_helper.rb:40-45 | on any text not starting with '/', looking up an absolute path returns a marker-free text that follows that path, never text taken for a path |
| Ttar.RoundTripIff | spec/spec_helper.rb:39-49 | every entry that is the first of its one-line path is found with its content if and only if no content holds the marker |
| Certs.PrintLines | jobs/haproxy/templates/certs.ttar.erb:27-75 | prints all lines, or aborts exactly when a setting is given globally and in an entry, on the first such entry |
| Certs.PrintFiles | jobs/haproxy/templates/certs.ttar.erb:81-105 | prints the files of every entry, optional ones only if given |
| Certs.Render | jobs/haproxy/templates/certs.ttar.erb:1-107 | the whole template, with ssl_pem, crt_list, both or neither: the text is one archive of all files, unless a setting given twice aborts it |
| Certs.LineNamesItsFiles | jobs/haproxy/templates/certs.ttar.erb:27-105 | reading line i yields, in order, exactly the paths of the files printed for entry i |
| Certs.NoOrphans | jobs/haproxy/templates/certs.ttar.erb:81-105 | every file in the archive is named by the line of some entry |
| Certs.TemplateIsWellformed | jobs/haproxy/templates/certs.ttar.erb:2-107 | all printed paths are absolute and one line each |
| Certs.OnlyCertsAreShadowed | jobs/haproxy/templates/certs.ttar.erb:15-103 | a path is printed twice exactly for the certificate of a crt-list entry whose number ssl_pem uses too; then ssl_pem's comes first |
| Certs.NamedFilesAreFound | jobs/haproxy/templates/certs.ttar.erb:1-107 | every path named by line i is found in the archive text with the matching field of entry i, except that ssl_pem's certificate i is found in place of the entry's |
| Certs.FieldsAreFound | jobs/haproxy/templates/certs.ttar.erb:1-107 | field by field, by literal paths: each given client CA and revocation list is found with its own text, each certificate as configured with chain before key, ssl_pem's first, and a field not given is not found |
| Certs.PemFieldsAreFound | jobs/haproxy/templates/certs.ttar.erb:2-17 | without a crt_list each ssl_pem certificate is found as configured and no other |
| Certs.ExtLineIff | jobs/haproxy/templates/certs.ttar.erb:77-79 | the looked-up crt-list ends with the line for external certificates if and only if they are on |
| Certs.PemsAreFound | jobs/haproxy/templates/certs.ttar.erb:2-17 | every ssl_pem certificate is found under its number, with or without a crt_list |
| Certs.LineIsFound | jobs/haproxy/templates/certs.ttar.erb:25-79 | splitting the crt-list looked up in the archive gives back line i, with or without ssl_pem |
| Certs.ArchiveRoundTripIff | jobs/haproxy/templates/certs.ttar.erb:1-107 | in all four cases of the template every file that no earlier one shadows reads back unchanged if and only if no content holds the header marker |
| HaproxyConfig.LayoutIsIrrelevant | spec/spec_helper.rb:60-77 | files whose kept lines differ only in the blanks around body lines read the same, exceptions included |
| HaproxyConfig.NoiseIsIrrelevant | spec/spec_helper.rb:61-62 | an empty line, or any text after a hash behind any whitespace, inserted anywhere changes nothing |
| HaproxyConfig.BodyLinesAreRead | spec/spec_helper.rb:61-76 | under a header every line that starts with whitespace and is no comment is read, stripped and in order; lines in front of the first header belong to nothing |
| HaproxyConfig.RoundTripIff | spec/spec_helper.rb:60-77 | reading printed sections returns their trimmed lines in order, and raises exactly if the last section is empty |
| HaproxyConfig.DistinctSectionsAreFound | spec/spec_helper.rb:65-76 | with different headers every section is found under its own |
| HaproxyConfig.LastSectionWins | spec/spec_helper.rb:65-76 | of several sections with one header the last one is found |
| StopProtocol.Host.WaitPidDeath | src/common/utils.sh:49-67 | the polling loop answers as the bounded recursion does, with the same polls and sleeps |
| StopProtocol.WaitExact | src/common/utils.sh:49-67 | success exactly when one of the first 10*timeout+1 polls sees the process dead, stopping there, with one sleep fewer than polls |
| StopProtocol.Host.Stop | src/common/utils.sh:83-123 | the script's signals, polls, exit code and pidfile are those of the specified stop |
| StopProtocol.Host.Guard | src/common/utils.sh:17-36 | the guard's poll, exit code and pidfile are those of the specified guard |
| StopProtocol.GuardIff | src/common/utils.sh:22-35 | the guard refuses if and only if the file names a pid that is alive, and then leaves the file; otherwise the file is gone |
| StopProtocol.KillIff | src/common/utils.sh:108-114 | SIGKILL is sent exactly when the flag is 1 and the first and all bounded polls saw the process alive |
| StopProtocol.KillIsLastResort | src/common/utils.sh:104-123 | before KILL come the first poll and all bounded ones, each alive; after it one sleep and the poll that decides |
| StopProtocol.ExitMeansGone | src/common/utils.sh:83-123 | exit 0 exactly when no pidfile is left, removal only straight after a dead poll, TERM exactly to a process found alive and before KILL |
| StopProtocol.StopExact | src/common/utils.sh:83-123 | on every timeline and for every pidfile a stop succeeds if and only if there is no file, or it names a pid and the first poll is dead, or the poll after the first dead bounded one is dead, or all bounded ones are alive and the one after KILL is dead |
| StopProtocol.StopIff | src/common/utils.sh:74-77 | as a corollary, without pid reuse a stop succeeds if and only if the process is dead by the last poll |
| StopProtocol.ReusedPidReportsTimeout | src/common/utils.sh:106-118 | when the wait sees the process die no KILL is sent, and the stop exits 1 if and only if the next poll finds the pid in use again |
| Pidfile.RemovalIsSafe | src/common/utils.sh:22-35 | in every interleaving, with test and read as separate steps, a removal follows a dead poll of the pid that was last started when the script read, or, by a guard alone, an empty read after another script removed the file behind its test; it takes a live process's pidfile if and only if the run's last start has neither ended nor lost its file, and then that start came after the read |
| Pidfile.TwoGuardsRace | src/common/utils.sh:29-35 | two overlapping guards can remove the pidfile of a live daemon |
| Pidfile.EmptyReadRace | src/common/utils.sh:22-35 | a guard that reads nothing because another one removed the file after its test can remove the pidfile of a live daemon without having polled any |
| Pidfile.EmptyReadLostFile | src/common/utils.sh:22-27 | a script reads nothing only if another script removed the file after its test |
| Pidfile.StartIsSafeIff | src/common/utils.sh:10-35 | whatever follows a start, short of another one, keeps every live process's pidfile if and only if nothing ran at the start and no script had read the file, save a stop that read nothing |
| Pidfile.SafeRunIff | src/common/utils.sh:10-35 | over whole runs every state on the way is safe in this sense if and only if every start of the run met that condition |
| Pidfile.LiveKeepsItsPidfile | src/common/utils.sh:10-15 | over every run in which each start finds nothing running and no script that may remove without reading again, every live process keeps its pidfile |
| CopyProtocol.EveryRun | acceptance-tests/remote.go:158-180 | in every interleaving a call returns with one received completion, writes stay prefixes of reads, calls are serial, and each returned call leaves one goroutine behind |
| CopyProtocol.OtherGoroutineIsStuck | acceptance-tests/remote.go:170-179 | after the return no continuation lets the other goroutine pass its send |
| CopyProtocol.NewestCanReturn | acceptance-tests/remote.go:158-180 | from every reachable state some continuation lets the newest call return |
| CopyProtocol.BytesLeftIff | acceptance-tests/remote.go:158-180 | in every run a direction of a call has read bytes it has not written if and only if the last chunk read there is not followed by a write of its size |
| CopyProtocol.ReturnsWithBytesPending | acceptance-tests/remote.go:179 | as an example, a call returns while the other direction has read bytes it has not written |
| SkipCi.SkipCi | ci/scripts/functions-ci.sh:3-27 | the triple loop returns 0 exactly when every changed file equals an entry or is matched in an ignored directory |
| SkipCi.ReadBack | ci/scripts/functions-ci.sh:6-7 | reading a file of lines gives exactly their paths, in order, whatever spaces and tabs surround them |
| SkipCi.SkipIff | ci/scripts/functions-ci.sh:3-27 | on such files the run is skipped if and only if every changed path is covered by an entry of the ignore list |
| SkipCi.CoversIff | ci/scripts/functions-ci.sh:9-22 | an entry covers itself and, if it is a directory, its children, or the pattern itself if it has none |
| SkipCi.OnlySetsMatter | ci/scripts/functions-ci.sh:6-24 | order and repetition do not matter; more entries or fewer changes never turn a skip into a run |
| SkipCi.DirectChildrenOnly | ci/scripts/functions-ci.sh:11-17 | an ignored directory covers a path below it if and only if the rest of the path is a child's name |
| SkipCi.UnterminatedLineIsIgnored | ci/scripts/functions-ci.sh:6 | a last line without newline never influences the decision |

## Left out

- FetchLatestRelease: tags with epoch, pre-, post-, development or local parts are not modelled; `parse` is any function from tags to final-release versions, with None for its exception.
- LinkSource: the HTML parser is abstracted to the list of href values; names and pinned versions are taken to hold no special character of patterns other than the dot.
- AttemptOn: network, git, GitHub and bosh calls are answers given from outside; a step that raises is taken to have had no effect of its own.
- CreatePr: the text of the pull request is that for a one-line URL, the release notes are given from outside, and the remote base is taken to be the checked-out base.
- CleanupLocalChanges: untracked files, private.yml among them, are not modelled.
- HaproxyDependency lookups: the JSON index of haproxy.org is one of the arbitrary release answers.
- QuotedLines: the truncation of the release notes to 60000 characters and their fixed text are not modelled.
- Entry: values of another type than the job documents, for instance a number as `verify`, and a `crt_list` that is not a list are not modelled.
- ArchiveRoundTripIff: certificates that ssl_pem shadows are taken to be free of the marker; unpacking the archive, where a later file of the same path would replace the earlier one, is not part of this model.
- LineDeterminesEntry: stated for values without blanks and brackets and for a non-empty alpn list without commas, because the line format cannot tell others apart.
- LiveKeepsItsPidfile: a daemon is taken to come up and to write its pidfile in one step, because its code is not part of this model; signals are process ends at any time; the scripts' messages and the 0.5 second pause are not timed.
- EveryRun: sockets are byte sequences; closing them and the goroutines that close the listeners are not modelled.
- SkipCi: the shell's handling of backslashes and of NUL bytes in file names is not modelled.
- The templates haproxy.config, drain, reload, haproxy_wrapper and keepalived, and HAProxy itself, are not part of this model.
- The Go SSH, BOSH and HTTP helpers, the base64 and gzip list templates and the single-value PEM templates would only add easy members.
