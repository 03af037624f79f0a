# Steam250 Shared: storage, mapping and logging core in Dafny

This project models the core of the Steam250 shared library and proves properties of that model. The core has six parts:

- **Two storage classes over a remote drive.**
  - `ReadWriteStorage` reads below the directory `data` and writes below `building...`.
  - The older `OnlineStorage` creates directories from the top of the drive.
  - Both classes locate files and directories by name, one path segment at a time. They create directory chains where pieces are missing and upload local files. They locate the latest and yesterday's database snapshot under `data/<yyyymm>/<dd>/<build>/steam.sqlite`.
  - `ReadWriteStorage` also downloads a file, or a directory's files, to the local disk.
- **The computed fields of the app-details mapping**:
  - `platforms`, `total_reviews`, `ea`, `alias`, `parent_id`, `release_date` and `steam_deck`;
  - the integer casts of `vrx`, `free` and `adult`.
- **The log processor** that writes the app of a log record's context into its message, in place of `%app%`.
- **The platform bit flags.**
- **The `StorageRoot` enumeration.**

Modules, one per file:

- **Results**: `Result`/`Option` and the error kinds.
- **Strings**: PHP's `explode`, `basename`, `filename` metadata, a byte-wise string order, decimal digits and `str_replace`.
- **Queries**: the LINQ operators `where`, `first`, `single`, `singleOrDefault`, `orderByDescending()->first()` and `all`.
- **Drive**: the drive as an in-memory listing of entries `(id, name, kind, parent)` with file bytes keyed by id.
  - The `Adapter` class holds that state. Its `createDir` and `put` change it in place.
- **LocalDisk**: the local file system as readable files, directory listings and unwritable paths.
- **Resolver**: `find`, the findLeafObject walk, and the create-what-is-missing walk.
- **Transfer**: the upload step shared by both classes.
- **Calendar**: Gregorian day arithmetic and formatting.
- **Snapshots**: the snapshot fetchers, which both classes implement identically.
- **ReadWrite** and **Online**: the two storage classes.
- **Roots**: `StorageRoot`.
- **PhpValues**: the PHP values the callbacks see.
- **AppDetails**: the mapping's fields.
- **AppLog**: the log processor.
- **Platforms**: the platform constants.

Pure logic is written as functions. Each loop of the source is a `method` with a `while` loop over the `Adapter` or `Disk` object:

- the walk of findLeafObject;
- the walk of createDirectoriesArray and makeDirectoryArrayRecursively;
- the `all()` chains of upload and download.

Each method is proved equal to the function that specifies it. The properties are proved about those functions.

## Model

| member | source | states |
|---|---|---|
| Resolver.Find | src/Storage/ReadWriteStorage.php:157-169 | find() is None exactly when no child of the parent has that name (and kind when one is given); it is the one match when there is exactly one; several matches is the singleOrDefault error |
| Resolver.FindMeaning | src/Storage/OnlineStorage.php:87-109 | in terms of the tree: None iff no entry of the tree is a matching child; otherwise the entry returned is an entry of the tree, a child of `parent` with the name and kind asked for, and every other matching entry equals it |
| Resolver.FoundInTree | src/Storage/OnlineStorage.php:87-99 | the entry find() reports is in the tree and matches the name, parent and kind |
| Resolver.MatchesMeaning | src/Storage/ReadWriteStorage.php:159-166 | the `where` of find() keeps exactly the children with an equal name and, when a type is given, an equal type |
| Resolver.ResolveOne | src/Storage/ReadWriteStorage.php:190-198 | resolving one segment is one find() with no type constraint: null on no match, the id of the match otherwise |
| Resolver.ResolveAppend | src/Storage/ReadWriteStorage.php:190-200 | the walk of a+b is the walk of a, then the walk of b from where a ended, stopping at the first missing segment |
| Resolver.ResolveLastStep | src/Storage/ReadWriteStorage.php:190-200 | a resolved path ends at the one child carrying the last segment under the id the other segments resolve to |
| Resolver.ResolveMissing | src/Storage/ReadWriteStorage.php:193-195 | a path that resolves to null has a first segment with no match under the id the segments before it resolve to |
| ReadWrite.LeafSegments | src/Storage/ReadWriteStorage.php:183-186 | the segments findLeafObject walks are "data" followed by the pieces of the path |
| ReadWrite.ResolvedExists | src/Storage/ReadWriteStorage.php:197-200 | a resolved id is an entry of the drive and never a string PHP reads as false |
| ReadWrite.ReadWriteStorage.FindLeafObject | src/Storage/ReadWriteStorage.php:181-201 | the do-while loop returns exactly the resolution of "data"/filespec from the top with no type constraint |
| ReadWrite.WriteSegments | src/Storage/ReadWriteStorage.php:114-119 | the chain createDirectories walks is "building..." followed by the pieces of the argument |
| Resolver.FindAfterCreate | src/Storage/ReadWriteStorage.php:132-136 | after creating a missing directory, findDirectory reports exactly the new directory |
| Resolver.MaterializeResolves | src/Storage/ReadWriteStorage.php:117-140 | on success the whole chain resolves, directory by directory from the starting parent, to the returned id |
| Resolver.MaterializeExisting | src/Storage/ReadWriteStorage.php:126-130 | a chain that already resolves is reused: the resolved id is returned and the tree is unchanged |
| Resolver.MaterializeIdempotent | src/Storage/ReadWriteStorage.php:104-130 | a second call with the same chain returns the same id and creates nothing |
| Resolver.MaterializeGrows | src/Storage/ReadWriteStorage.php:123-137 | the walk only appends directories, each with no same-named directory under its parent when added, also when it fails part-way |
| Resolver.GrowsExtends | src/Storage/ReadWriteStorage.php:132-136 | such growth keeps the old listing as a prefix and adds only directories |
| Resolver.FindStable | src/Storage/ReadWriteStorage.php:126-136 | directories added by the walk never make an earlier unique directory lookup ambiguous or different |
| Resolver.MaterializeCreatesMissing | src/Storage/ReadWriteStorage.php:123-137 | only the missing suffix is created: one new directory per segment after those that already exist, carrying exactly those names in order |
| Resolver.MaterializeFresh | src/Storage/ReadWriteStorage.php:132-136 | under a directory with no children every segment is created, in order |
| Resolver.MaterializeFailure | src/Storage/ReadWriteStorage.php:132-134 | the walk fails only on an ambiguous directory name or on a createDir the adapter refused, and then the error names the refused path |
| Resolver.CreateRefused | src/Storage/ReadWriteStorage.php:132-134 | a missing directory whose creation is refused stops the walk, with nothing changed at that step, and the error names "$parent/$directory" |
| Resolver.MaterializeWellFormed | src/Storage/ReadWriteStorage.php:132-136 | the walk keeps the drive's guarantees (unique, truthy ids, existing parents, every file has bytes) |
| Resolver.MaterializeIn | src/Storage/ReadWriteStorage.php:117-140 | the do-while loop over the adapter returns the id and leaves the listing that the walk function computes, and touches no file bytes |
| ReadWrite.CreateDirectoriesResolves | src/Storage/ReadWriteStorage.php:112-140 | createDirectories returns the directory the chain "building.../<directories>" resolves to, and a second call returns the same id and creates nothing |
| ReadWrite.ReadWriteStorage.CreateDirectories | src/Storage/ReadWriteStorage.php:112-115 | the method's id and new listing are the walk of "building..." + the pieces of the argument from the top |
| Online.DirectorySegments | src/Storage/OnlineStorage.php:59-62 | the pieces walked are never empty and join back to the argument: no prefix is added |
| Online.MakeDirectoryResolves | src/Storage/OnlineStorage.php:64-85 | on success the returned id is the directory the argument's own pieces resolve to from the top, and a second call returns the same id and creates nothing |
| Online.OnlineStorage.MakeDirectoryRecursively | src/Storage/OnlineStorage.php:59-85 | the method's id and new listing are the walk of the argument's pieces from the top |
| Transfer.UploadTarget | src/Storage/ReadWriteStorage.php:87-93 | the target of a put is the one same-named file under the destination when findFile reports one, otherwise a new file "$directory/$filename"; several same-named files is the error |
| Transfer.TargetOfFound | src/Storage/OnlineStorage.php:46-49 | the file findFile reports is the entry the next upload writes over |
| Transfer.PutOne | src/Storage/OnlineStorage.php:41-52 | one upload keeps the drive's guarantees, changes nothing unless it returns true, and returns true only for a readable local file |
| Transfer.PutOneShape | src/Storage/OnlineStorage.php:46-51 | a successful upload overwrote the reported file and added no entry, or added exactly one new file named by the base name under the destination |
| Transfer.PutOneStores | src/Storage/OnlineStorage.php:41-52 | after a successful upload there is exactly one file of that base name under the destination, and it holds the local bytes |
| Transfer.PutOneOverExisting | src/Storage/OnlineStorage.php:48-51 | with an existing target an upload adds no entry, whether or not the put succeeds |
| Transfer.PutOneAgain | src/Storage/OnlineStorage.php:41-52 | uploading the same file a second time overwrites in place and adds no entry |
| Transfer.PutOneKeepsOthers | src/Storage/OnlineStorage.php:46-51 | an upload of one name changes neither the lookup of another name nor that file's bytes |
| Online.OnlineStorage.Upload | src/Storage/OnlineStorage.php:41-52 | the method's result, listing and bytes are those of the single-file upload into the parent the caller names |
| Transfer.PutAll | src/Storage/ReadWriteStorage.php:86-96 | the all() over the uploads keeps the drive's guarantees, and returns true only if every file was readable |
| Transfer.PutAllFirstSucceeded | src/Storage/ReadWriteStorage.php:86 | a run that returned true began with a successful upload |
| Transfer.PutAllStep | src/Storage/ReadWriteStorage.php:86-96 | after a successful first upload, all() goes on with the rest from the first upload's result |
| Transfer.PutAllKeeps | src/Storage/ReadWriteStorage.php:86-96 | uploads none of which has a given base name keep that file's lookup and bytes |
| Transfer.PutAllStores | src/Storage/ReadWriteStorage.php:86-96 | when all() returned true, each uploaded file whose base name no later path repeats is the one file of that name under the destination and holds its local bytes |
| Transfer.PutEach | src/Storage/ReadWriteStorage.php:86-96 | the loop over the adapter returns and leaves exactly what the all() function computes |
| ReadWrite.LocalSelection | src/Storage/ReadWriteStorage.php:73-84 | a non-directory is uploaded alone; for a directory exactly the iterator's entries that are regular files are uploaded, readable or not |
| ReadWrite.UploadAll | src/Storage/ReadWriteStorage.php:69-97 | upload keeps the drive's guarantees: create the "building..." chain, then put every selected file into its leaf |
| ReadWrite.UploadNothing | src/Storage/ReadWriteStorage.php:86 | a directory with no files is uploaded as true (all() over nothing), after the destination chain is created |
| ReadWrite.UploadLands | src/Storage/ReadWriteStorage.php:69-97 | after a successful upload the destination is the directory "building.../<parent>" resolves to, and each uploaded file whose base name no later file repeats is the one file of that name in it, holding the local bytes |
| ReadWrite.ReadWriteStorage.Upload | src/Storage/ReadWriteStorage.php:69-97 | the method's result, listing and bytes are those of the upload function |
| ReadWrite.Selection | src/Storage/ReadWriteStorage.php:44-54 | download writes only entries of type file: the direct file children of a directory, all of them, or the one resolved file |
| ReadWrite.WriteAllAnd | src/Storage/ReadWriteStorage.php:55-57 | the all() of the writes is true iff every selected name can be written |
| ReadWrite.WriteAllCast | src/Storage/ReadWriteStorage.php:55-57 | with the `(bool)` cast the all() of the writes is true iff every selected name can be written and every file read from the drive is non-empty |
| ReadWrite.WriteAllKeeps | src/Storage/ReadWriteStorage.php:55-57 | local paths that are no selected entry's name are left as they were |
| ReadWrite.WriteAllStores | src/Storage/ReadWriteStorage.php:55-57 | after a download that reported true, each entry whose name no later entry repeats is on disk with the bytes read from the drive |
| ReadWrite.EmptyFileReportsFailure | src/Storage/ReadWriteStorage.php:56 | with the source's `(bool)` cast a writable empty file is written yet the download reports false; the corrected test reports true |
| ReadWrite.DownloadAll | src/Storage/ReadWriteStorage.php:38-59 | a download that throws leaves the local files as they were, whichever write test it uses |
| ReadWrite.DownloadUnresolved | src/Storage/ReadWriteStorage.php:40-42 | a path that does not resolve below "data" is the "File not found in read directory" error naming the path |
| ReadWrite.DownloadResolved | src/Storage/ReadWriteStorage.php:44-58 | a resolved path writes its selection in order; with the source's `(bool)` cast download returns true iff every name is writable and every file non-empty, with the documented test iff every name is writable |
| ReadWrite.ReadWriteStorage.WriteEach | src/Storage/ReadWriteStorage.php:50-57 | the loop over the local disk returns and leaves exactly what the all() function with the documented write test computes |
| ReadWrite.ReadWriteStorage.Download | src/Storage/ReadWriteStorage.php:38-59 | the method's result and local files are those of the download function with the documented write test |
| Snapshots.RootDir | src/Storage/ReadWriteStorage.php:270-273 | findRootDir returns a directory named "data" at the top; none is an error naming "data", several is the ambiguity error |
| Snapshots.LatestChild | src/Storage/ReadWriteStorage.php:215-218 | orderByDescending(filename)->first() gives a child no other child's filename exceeds, and errors on an empty directory |
| Snapshots.LatestChildIsFirst | src/Storage/ReadWriteStorage.php:215-218 | the chosen child is the first in listing order that carries its filename |
| Snapshots.LatestYearMonth | src/Storage/ReadWriteStorage.php:207-213 | the chosen year-month is a child of "data" whose filename starts with "20" and is the greatest such |
| Snapshots.LatestYearMonthIsFirst | src/Storage/ReadWriteStorage.php:207-213 | the chosen year-month is the first "20" child in listing order that carries its filename |
| Snapshots.LatestBuild | src/Storage/ReadWriteStorage.php:282-295 | succeeds iff the latest build directory holds exactly one steam.sqlite, which is returned with the build's filename as vdir |
| Snapshots.FetchLatestChain | src/Storage/ReadWriteStorage.php:203-224 | the latest snapshot is the one steam.sqlite of the greatest build of the greatest day of the greatest "20" year-month under "data", each the first in listing order with its filename, and vdir is "data/<ym>/<day>/<build>" |
| Snapshots.LatestChildIsNumericMax | src/Storage/OnlineStorage.php:119-125 | when the filenames are digit strings of one width, the greatest by bytes is the numeric maximum |
| Snapshots.LatestDay | src/Storage/ReadWriteStorage.php:228-242 | the year-month and day that yesterday is computed from are the latest "20" year-month under "data" and the latest child of it |
| Snapshots.Yesterday | src/Storage/ReadWriteStorage.php:228-246 | yesterday is the valid date whose next day is the date spelt by the latest year-month's filename followed by the latest day's filename |
| Snapshots.DayDirOf | src/Storage/ReadWriteStorage.php:248-262 | the day directory has yesterday's two-digit day as filename and lies in the only child of "data" named by yesterday's year-month |
| Snapshots.DayDirIsFirstMatch | src/Storage/ReadWriteStorage.php:248-262 | the day directory is found iff exactly one child of "data" is named by yesterday's year-month and at least one of its children by yesterday's day, and it is the first such child |
| Snapshots.FetchYesterdaysChain | src/Storage/ReadWriteStorage.php:226-268 | yesterday's snapshot is the one steam.sqlite of the greatest build (the first with its filename) in the day directory of the day before the date spelt by the latest year-month and its latest day, and vdir is "data/<Ym>/<d>/<build>" of that day |
| Snapshots.YesterdayMonthMissing | src/Storage/ReadWriteStorage.php:248-254 | no year-month directory carrying yesterday's name is an error, not a fallback |
| Snapshots.YesterdayDayMissing | src/Storage/OnlineStorage.php:164-170 | no day directory carrying yesterday's day is an error |
| Snapshots.DayDirMissing | src/Storage/ReadWriteStorage.php:256-262 | the first() of the day lookup errors when nothing matches |
| Calendar.Pred | src/Storage/ReadWriteStorage.php:244 | "-1day" is the latest valid date before the given one: day 1 rolls to the last day of the previous month, 1 January to 31 December |
| Calendar.SuccOfPred | src/Storage/OnlineStorage.php:152 | the day after the day before is the day itself |
| Calendar.PredOfSucc | src/Storage/OnlineStorage.php:152 | the day before the day after is the day itself |
| Calendar.DaysIn | src/Storage/ReadWriteStorage.php:244 | months have 28 to 31 days, February 29 exactly in leap years |
| Calendar.FormatYearMonth | src/Storage/ReadWriteStorage.php:245 | format('Ym') is six digits spelling the year and the zero-padded month |
| Calendar.FormatDay | src/Storage/ReadWriteStorage.php:246 | format('d') is two digits spelling the day |
| Calendar.ParseDate | src/Storage/ReadWriteStorage.php:244 | parsing gives a valid date, or an error naming the string |
| Calendar.FormatParse | src/Storage/ReadWriteStorage.php:244-246 | formatting a parsed date gives back the strings it was parsed from |
| Calendar.ParseFormat | src/Storage/OnlineStorage.php:152-154 | parsing the formatted year-month and day of a date gives the date back |
| Queries.Where | src/Storage/ReadWriteStorage.php:290-292 | where keeps exactly the elements satisfying the callback, and never more of them than the input has |
| Queries.WhereAppend | src/Storage/ReadWriteStorage.php:159-166 | filtering distributes over concatenation |
| Queries.WhereSingleton | src/Storage/ReadWriteStorage.php:290-292 | the filter of one element is that element when the callback accepts it, and empty otherwise |
| Queries.WhereCons | src/Storage/ReadWriteStorage.php:290-292 | the filter of x followed by s is x (when accepted) followed by the filter of s: the kept elements keep their order |
| Queries.WhereMultiset | src/Storage/ReadWriteStorage.php:290-292 | each accepted element is kept as often as it occurs, each rejected element not at all |
| Queries.First | src/Storage/ReadWriteStorage.php:212 | first() is the first element and errors on an empty sequence |
| Queries.Single | src/Storage/ReadWriteStorage.php:293 | single() is the only element; none and several are errors |
| Queries.SingleOrDefault | src/Storage/ReadWriteStorage.php:167 | singleOrDefault() is null on none, the element on one, an error on several |
| Queries.GreatestIndex | src/Storage/ReadWriteStorage.php:211-212 | the position chosen holds a greatest key and is the first position with that key |
| Queries.Greatest | src/Storage/ReadWriteStorage.php:211-212 | orderByDescending->first() is an element whose key no other exceeds and, the sort being stable, the first one in order with that key; an error on none |
| Drive.Lookup | src/Storage/ReadWriteStorage.php:47 | getMetadata reports the entry of that id, or nothing when no entry has it |
| Drive.NewId | src/Storage/ReadWriteStorage.php:132 | a created entry gets an id no entry has and that PHP reads as true |
| Drive.CreateDirIn | src/Storage/ReadWriteStorage.php:132 | createDir succeeds iff the path is not refused and the parent exists, and then appends exactly one directory |
| Drive.PutIn | src/Storage/ReadWriteStorage.php:92-95 | put keeps the drive's guarantees, leaves everything alone when it fails, and fails on a refused path |
| Drive.Adapter.CreateDir | src/Storage/ReadWriteStorage.php:132 | the adapter's createDir changes the listing as CreateDirIn says and no bytes |
| Drive.Adapter.Put | src/Storage/ReadWriteStorage.php:92-95 | the adapter's put changes listing and bytes as PutIn says |
| LocalDisk.Disk.FilePutContents | src/Storage/ReadWriteStorage.php:56 | file_put_contents gives the byte count or false, and the new files |
| Strings.Split | src/Storage/ReadWriteStorage.php:114 | explode gives at least one piece, none containing the separator |
| Strings.JoinSplit | src/Storage/OnlineStorage.php:61 | joining the pieces of explode gives the string back |
| Strings.Basename | src/Storage/ReadWriteStorage.php:87 | basename has no slash and is the path itself when the path has none |
| Strings.BasenameIsLastComponent | src/Storage/ReadWriteStorage.php:87 | basename is the last '/'-separated component of the path once trailing slashes are trimmed: a suffix of it preceded by a slash or by nothing |
| Strings.FileName | src/Storage/ReadWriteStorage.php:19 | the filename metadata is the name cut before its last dot, or the whole name |
| Strings.LexLeTotal | src/Storage/ReadWriteStorage.php:211 | the byte-wise order the model uses for orderByDescending is total |
| Strings.LexLeTransitive | src/Storage/ReadWriteStorage.php:211 | the byte-wise order is transitive |
| Strings.LexLeAntisymmetric | src/Storage/ReadWriteStorage.php:211 | the byte-wise order is antisymmetric |
| Strings.LexLeIsNumeric | src/Storage/ReadWriteStorage.php:211 | on digit strings of equal width the byte-wise order is the numeric order |
| Strings.Pad | src/Storage/ReadWriteStorage.php:245-246 | zero padding gives that many digits denoting the number |
| Strings.NatToString | src/Log/SteamAppProcessor.php:13 | the decimal text of a number is digits denoting it, with no leading zero |
| Strings.ReplaceAbsent | src/Log/SteamAppProcessor.php:13 | str_replace leaves a string without the pattern as it is |
| Strings.ReplaceFirst | src/Log/SteamAppProcessor.php:13 | str_replace keeps the text before the first occurrence, puts the replacement, and goes on after it |
| Strings.ReplaceByItself | src/Log/SteamAppProcessor.php:13 | replacing the pattern by itself changes nothing |
| PhpValues.Get | src/Mapping/AppDetailsMapping.php:37 | a missing key reads as null |
| PhpValues.StringToInt | src/Mapping/AppDetailsMapping.php:44-45 | the integer cast of a string stays within the 64-bit range |
| PhpValues.IntStringRoundTrip | src/Mapping/AppDetailsMapping.php:44-45 | casting the decimal text of an integer gives the integer back |
| PhpValues.LeadingSpaceIgnored | src/Mapping/AppDetailsMapping.php:44-45 | leading whitespace does not change the integer cast |
| PhpValues.DigitPrefixOfText | src/Mapping/AppDetailsMapping.php:44-45 | the cast reads the maximal run of leading digits and stops at the first non-digit |
| PhpValues.UnsignedDigitsToInt | src/Mapping/AppDetailsMapping.php:44-45 | digits followed by non-numeric text cast to the digits' value, clamped to the 64-bit range |
| PhpValues.SignedToInt | src/Mapping/AppDetailsMapping.php:44-45 | a leading sign negates (or keeps) the value of the digits after it, clamped; a sign with no digits is 0 |
| PhpValues.NoNumberIsZero | src/Mapping/AppDetailsMapping.php:44-45 | a string that does not start with whitespace, a sign or a digit casts to 0 |
| PhpValues.Interpolate | src/Log/SteamAppProcessor.php:13 | a value is printable inside a string except an object without a string form; integers print in decimal, strings as themselves |
| PhpValues.Offset | src/Log/SteamAppProcessor.php:13 | `$app[key]` on an array reads its entry (null when absent); a string or an object cannot be read that way |
| AppDetails.ReleaseDate | src/Mapping/AppDetailsMapping.php:35-39 | null iff the date is falsy or missing; the timestamp of a date object; any other value is an error |
| AppDetails.InArrayStrict | src/Mapping/AppDetailsMapping.php:58 | strict in_array is true iff some element is identical to the needle |
| AppDetails.EarlyAccess | src/Mapping/AppDetailsMapping.php:56-60 | ea is 1 iff the genres hold the exact string "Early Access", else 0; genres that are no array are an error |
| AppDetails.EarlyAccessIsStrict | src/Mapping/AppDetailsMapping.php:58 | a `true` genre, which a loose comparison would equate with "Early Access", does not count, and neither does any value not identical to it: such genres give 0 |
| AppDetails.TotalReviews | src/Mapping/AppDetailsMapping.php:64-68 | total_reviews is the sum of the positive and negative reviews when both are numbers and the sum is in range, otherwise the int return type's error |
| AppDetails.TotalReviewsOfCounts | src/Mapping/AppDetailsMapping.php:66 | for counts in range the total is their sum, at least each, and independent of their order |
| AppDetails.PlatformMask | src/Mapping/AppDetailsMapping.php:70-79 | platforms lies in 0..7, has the Windows, Linux and Mac bit iff that flag is truthy, and no VR bit |
| AppDetails.PlatformMaskOnto | src/Mapping/AppDetailsMapping.php:72-77 | every value in 0..7 is produced by some combination of flags |
| AppDetails.SteamDeck | src/Mapping/AppDetailsMapping.php:80-82 | null iff the key is unset or null; the id of a compatibility object; any other set value is an error |
| AppDetails.FalseDateVersusDeck | src/Mapping/AppDetailsMapping.php:35-39 | a false date is no date (truthiness), yet a false steam_deck is set (isset) and cannot be read |
| AppDetails.IntegerFieldCases | src/Mapping/AppDetailsMapping.php:44-45 | vrx, free and adult cast a missing key to 0, booleans to 0 and 1, integers to themselves, "" to 0 and an integer's decimal text to that integer |
| AppDetails.AppDetailsMapping.ParentId | src/Mapping/AppDetailsMapping.php:83-86 | parent_id has a value iff app_id is not identical to the mapping's app id, and the value is the copied app_id |
| AppDetails.AppDetailsMapping.Alias | src/Mapping/AppDetailsMapping.php:87 | alias is 1 iff canonical_id is not identical to the mapping's app id, else 0 |
| AppDetails.AppDetailsMapping.StrictIdentity | src/Mapping/AppDetailsMapping.php:84-87 | an id given as a string counts as different: parent_id is copied and alias is 1 |
| AppLog.AppLabel | src/Log/SteamAppProcessor.php:13 | the label of an app with an integer id and a string name is "#<id> <name>" |
| AppLog.Process | src/Log/SteamAppProcessor.php:10-16 | without a truthy app the record is returned unchanged; with one every "%app%" in the message is replaced by the label; context and every other key are never changed; an error only when the label cannot be built |
| AppLog.NoPlaceholderUnchanged | src/Log/SteamAppProcessor.php:13 | a message with no "%app%" comes back unchanged even when an app is present |
| AppLog.FirstPlaceholderReplaced | src/Log/SteamAppProcessor.php:12-14 | the first placeholder becomes the label, the text before it is kept, and the scan continues after it |
| Platforms.FlagValues | src/Platform.php:12-17 | the constants are 1, 2, 4, 8, 16 and 32 |
| Platforms.FlagsAreDisjointBits | src/Platform.php:12-17 | each constant is a single bit and no two share one |
| Platforms.AllFlags | src/Platform.php:12-17 | the OR of all six is 63 |
| Roots.StorageRoot.GetName | src/Storage/StorageRoot.php:22-25 | the name is "read" exactly for the read root and "write" exactly for the write root |
| Roots.StorageRoot.GetDirectory | src/Storage/StorageRoot.php:27-30 | the directory is the enumeration's own value, a key of the name mapping |
| Roots.Member | src/Storage/StorageRoot.php:14-20 | a value is a member iff it is a key of the name mapping |
| Roots.DirectoryRoundTrip | src/Storage/StorageRoot.php:14-15 | a value names a root exactly when it is that root's directory |
| Roots.RootsDistinct | src/Storage/StorageRoot.php:14-20 | the two directories differ, and so do their names: the mapping is injective |
| Roots.RootsMatchStorage | src/Storage/StorageRoot.php:14-15 | the directories agree with READ_DIR and WRITE_DIR of ReadWriteStorage and with ROOT_DIR of OnlineStorage |

Some functions only compute. The table names the lemmas and methods that state their properties, rather than giving each function a body-repeating contract:

- `Resolver.Resolve` is the findLeafObject walk (ReadWriteStorage.php lines 181-201). See ResolveOne, ResolveAppend, ResolveLastStep, ResolveMissing, ResolvedExists and ReadWriteStorage.FindLeafObject.
- `Resolver.Materialize` is the walk of createDirectoriesArray and makeDirectoryArrayRecursively (ReadWriteStorage.php lines 117-140, OnlineStorage.php lines 64-85). See the Materialize* lemmas, FindStable, CreateRefused and MaterializeIn.
- `Resolver.FindFile` and `Resolver.FindDirectory` are findFile() and findDirectory() (ReadWriteStorage.php lines 171-179). They are Find with the type `file` or `dir`, which FindMeaning and FoundInTree specify. TargetOfFound, UploadTarget and RootDir state them.
- `Snapshots.FetchLatest` is fetchLatestDatabaseSnapshot() (ReadWriteStorage.php lines 203-224). See FetchLatestChain.
- `Snapshots.FetchYesterdays` and `Snapshots.SnapshotOfDay` are fetchYesterdaysLastDatabaseSnapshot() (ReadWriteStorage.php lines 226-268). See FetchYesterdaysChain, YesterdayMonthMissing, YesterdayDayMissing and DayDirMissing.
- `ReadWrite.WriteAll` and `ReadWrite.CastToBool` are download's `all()` and its `(bool)` cast (ReadWriteStorage.php lines 50-57). See WriteAllAnd, WriteAllCast, WriteAllKeeps, WriteAllStores and EmptyFileReportsFailure.
- `Strings.Replace` is `str_replace` (SteamAppProcessor.php line 13). See ReplaceAbsent, ReplaceFirst, ReplaceByItself and AppLog.Process.
- `PhpValues.ToInt` and `AppDetails.IntegerField` are the integer cast of vrx, free and adult (AppDetailsMapping.php lines 44-45 and 61). See IntegerFieldCases, IntStringRoundTrip and the StringToInt lemmas.
- `PhpValues.IsTruthy` is PHP's truthiness (AppDetailsMapping.php lines 37 and 73-75, SteamAppProcessor.php line 12). See ReleaseDate, PlatformMask, FalseDateVersusDeck and AppLog.Process.

## Left out

- The Google Drive adapter is modelled as a finite listing of entries. Ids are fresh strings. Order is the listing order. The class `Drive.Adapter` holds that listing. The adapter's guarantees are assumed: unique ids that PHP reads as true, and existing parents.
- The `filename` metadata is taken to be the name cut before its last dot. It is an assumption about the adapter.
- Factories, credentials and token refresh are network and authentication code. The CLI commands and `Application` are argument plumbing. `LoggerFactory` is logger wiring. `SharedQueries` is a floating-point SQL string. `Algorithm` is constants.
- `OnlineStorage::list`, `download` and `delete`, and `ReadWriteStorage::delete`, are bare calls into the adapter.
- Local file I/O is a parameter, the `Disk` state:
  - `file_get_contents` reads the bytes of readable files;
  - `isFile()` is membership in a set of regular files, which need not be readable;
  - the `DirectoryIterator` results are given per directory;
  - `file_put_contents` fails on unwritable paths.
- `is_dir` is membership in the directory listings.
- Transfer.PutOne, Transfer.PutAll: an unreadable local file is the error `LocalReadFailed` naming it, and the upload stops there. In PHP `file_get_contents` returns `false`, which Flysystem's untyped `put` accepts; what the adapter then does with it is not modelled.
- Snapshots.RootDir: no "data" directory is the error `NotFound("data")`. In PHP `findRootDir` is declared to return a string, so reading `['basename']` of the null result raises a TypeError inside `findRootDir`. The model does not tell that error apart from the others.
- Queries.Greatest, Snapshots.LatestChild, Snapshots.LatestYearMonth: keys are compared byte by byte (Strings.LexLe). PHP compares two numeric strings as numbers, so "999" sorts below "1000" and "01" ties with "1". The two orders agree on digit names of one width, which is what the zero-padded dated directories are (Snapshots.LatestChildIsNumericMax). For other names the model does not promise PHP's order.
- ReadWrite.ReadWriteStorage.Download, ReadWrite.ReadWriteStorage.WriteEach: the class's loop judges each write by the documented test (the write did not fail), not by the source's `(bool)` cast. The download as written is ReadWrite.DownloadAll with CastToBool; ReadWrite.DownloadResolved and ReadWrite.WriteAllCast state its result.
- ReadWrite.Selection: an id with no metadata gives `None`, which download reports as not found. This cannot happen for a resolved id of a well-formed drive.
- Calendar.ParseDate accepts only six digits followed by two digits that name an existing day; anything else is an error. PHP's lenient parsing, such as rolling over out-of-range days, is not modelled.
- Yesterday's year is formatted for years -1 to 9999 only, the range the parsed dates reach.
- The do-while loops are `while` loops. Their argument lists are never empty, because `explode` always yields a piece, so the test may come first.
- PhpValues.StringToInt: numeric strings with a decimal point or exponent are read only up to their integer digits. There are no floats in the model.
- AppDetails.TotalReviews: numeric strings, arrays and objects as review counts are errors. PHP would add numeric strings.
- AppLog.Process: a truthy string app, or an app that is an object, is an error. The model does not distinguish PHP's warning-and-continue from a thrown error for string offsets.
- The regex fields `videos`, `capsule_hash` and `capsule_alt` are left out, because they depend on PCRE semantics. The plain `Copy` fields are left out too.
- The mapper DSL engine itself is left out. Each field is a function of the details array.

## Findings

| source | as written | input that shows it | evidently intended | confidence | as-written member | corrected member |
|---|---|---|---|---|---|---|
| src/Storage/ReadWriteStorage.php:56 | each write is judged by `(bool)file_put_contents(...)`, which is false for a write of zero bytes | downloading a drive file with empty contents to a writable local path: the file is written, yet download returns false | download returns true iff every file was written, as its doc comment says (`file_put_contents(...) !== false`) | medium, not executed | ReadWrite.EmptyFileReportsFailure | ReadWrite.WriteAllAnd |
