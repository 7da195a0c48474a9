# gofoil catalog and announce protocol, modelled in Dafny

gofoil serves a directory of game packages over HTTP. It also announces the
catalog to homebrew installers on consoles (Tinfoil, FBI) over a raw TCP
connection. This project models the byte-level core of `main.go`:

- **Catalog builder** (`getFileList`). It goes over the entries of a
  directory walk and skips errors and directories. It keeps a file when the
  extension of its base name is one of the profile's extensions. It then
  builds the line `externalAddress + "/files/" + PathEscape(relPath) + "\n"`,
  appends it and adds its byte length to a counter. Finally it sorts the
  lines. Module `Catalog`.
- **List encoder** (`sendFileList`). It writes a 4-byte big-endian header
  holding `uint32(length)`, then each line verbatim. Module `Announce`.
- **Client profile table** (`clientApps`) and the comma split of the host
  list. Module `Gofoil`.

The Go library functions the core depends on are modelled as well, each
with the property the core relies on:
- `strings.TrimPrefix`, `strings.Split` and Go's byte-wise string order
  (module `Strings`);
- `filepath.Ext` (module `FilePath`);
- `url.PathEscape` (module `Url`), which follows sections 2.1 and 3.3 of
  RFC 3986. main.go never calls `url.PathUnescape`. Its model is the reader
  that the escaping round trip is stated against (`Url.PathUnescapeEscape`,
  `Catalog.ParseLine`);
- `binary.BigEndian` (module `Binary`);
- `sort.Strings` (module `Sorting`).

Go strings are byte sequences (`seq<byte>`, where `byte` is 0..255). The
directory walk is an input: a sequence of `WalkEvent`s (`Err(path)` or
`Entry(path, name, isDir)`) plus a flag saying whether the walk as a whole
failed. The package-level `rootPath` and `externalAddress` are passed in as
a `Catalog.Config`. The variables the walk callback captures and updates
(`files`, `length`) are the fields of the `Catalog.Collector` object. The
`io.Writer` is the `Announce.Sink` class, whose `written` field grows with
each write.

In these details the model follows what main.go does:
- `url.PathEscape` escapes `/`. A nested file `sub/c.xci` is therefore
  announced as `.../files/sub%2Fc.xci`, not `.../files/sub/c.xci`.
- The length is a Go `int`, converted with `uint32(...)`. The header
  therefore holds the length modulo 2^32 (`Binary.Uint32Of`).
- Write errors are ignored (the results of `out.Write` are dropped). The
  sink never fails, and no error result is modelled.
- The relative path is `TrimPrefix(path, rootPath + "/")`. When the walked
  path does not start with that prefix, the whole path is escaped and
  announced. `filepath.Walk` builds every child path with `filepath.Join`,
  which cleans it. So this happens for every entry whenever `rootPath` is
  not in `filepath.Clean` form (`/games/`, `./games`, `//games`,
  `games/.`), or when the root is itself a listed file. A directory root is
  skipped (main.go:119-121) and never announced. `Strings.TrimPrefix`
  states this case.

## Model

| member | source | states |
|---|---|---|
| `Gofoil.ClientApps` | main.go:34-45 | exactly the keys Tinfoil and FBI; each profile's name is its key; ports 2000 and 5000; extensions .nsp/.nsz/.xci and .cia/.tik; the two lists are disjoint; every extension is a proper `filepath.Ext` result |
| `Gofoil.ProfileSelectsBySuffix` | main.go:34-45 | for either profile, an entry is listed iff it is not a directory and its name ends with one of the profile's extensions |
| `Strings.Split` | main.go:59 | the host list splits into at least one piece; no piece holds a comma; joining the pieces with commas gives the argument back |
| `Gofoil.ClientHosts` | main.go:59 | the host list is at least one comma-free host name, and joining the names with commas gives the configured value back |
| `Strings.SplitJoin` | main.go:59 | splitting a comma-join of comma-free pieces gives exactly those pieces, so Split and Join are inverse |
| `Catalog.GetFileList` | main.go:109-137 | a failed walk gives no lines and length 0; otherwise the lines are sorted byte-wise and are a permutation of the lines the callback appended during the walk; the length is the total byte length of the returned lines |
| `Catalog.Collector.constructor` | main.go:111-112 | the captured slice starts empty and the counter at 0 |
| `Catalog.Collector.Visit` | main.go:114-129 | the callback appends exactly the lines of the event (none for an error, a directory or an unlisted extension; one for a listed file) and adds exactly their byte length |
| `Catalog.FileUrl` | main.go:123-124 | the line starts with the address and `/files/` and ends with a newline; the escaped part holds no `/` and no newline; parsing the line back gives the path relative to `rootPath + "/"`; with a newline-free address the newline is the line's only one |
| `Catalog.LinesAppend` | main.go:114-129 | the lines of a walk split into two stretches are the lines of each stretch, in order |
| `Catalog.SkippedEventKeepsSiblings` | main.go:115-121 | an error entry, a directory or an unlisted file adds nothing and never drops the entries after it |
| `Catalog.Origins` | main.go:114-129 | the positions it lists for the kept entries all lie inside the walk |
| `Catalog.OriginsKeptInOrder` | main.go:115-122 | each listed position holds an entry that is not an error, not a directory and has a listed extension, and the positions strictly increase |
| `Catalog.OriginsComplete` | main.go:115-122 | the position of every such entry is listed |
| `Catalog.LinesFromOrigins` | main.go:122-126 | there are as many lines as kept entries, and line k is the line of the k-th kept entry: each line corresponds to exactly one entry |
| `Catalog.LinesAreLines` | main.go:124 | with a newline-free external address, every catalog line ends with its only newline |
| `Catalog.KeptBySuffix` | main.go:119-122 | given proper extensions, an entry is kept iff it is not a directory and its name ends with one of them |
| `Catalog.LinesReordered` | main.go:114-135 | walks reporting the same entries in any order give the same multiset of lines |
| `Catalog.CatalogDeterministic` | main.go:135 | two sorted catalogs of walks with the same entries are byte-identical |
| `Strings.TrimPrefix` | main.go:123 | when the prefix is present, prefix followed by the result is the input; otherwise the input is returned unchanged |
| `FilePath.Ext` | main.go:122 | the result is a suffix of the name; if not empty it starts with `.` and holds no other `.` and no `/`; if empty no `.` follows the last `/` |
| `FilePath.ExtOfSuffix` | main.go:122 | a name ending in a proper extension has exactly that extension, whatever precedes it |
| `Url.PathEscape` | main.go:124 | the escaped path holds no `/` and no newline and is one to three times as long as the input |
| `Url.PathUnescapeEscape` | main.go:124 | unescaping the escaped path recovers the relative path exactly |
| `Url.PathEscapeSafe` | main.go:124 | a path made only of unreserved bytes is left unchanged |
| `Strings.LessEqIsLexicographic` | main.go:135 | the byte-wise comparison sort.Strings uses is the lexicographic order: prefix first, else the first differing byte decides |
| `Strings.LessEqTotal` | main.go:135 | any two strings are comparable |
| `Strings.LessEqAntisymmetric` | main.go:135 | strings that compare both ways are equal |
| `Strings.LessEqTransitive` | main.go:135 | the comparison is transitive |
| `Strings.AdjacentSorted` | main.go:135 | a list whose neighbours are in order is sorted |
| `Strings.SortedUnique` | main.go:135 | two sorted lists with the same elements are equal, so the sorted catalog does not depend on the walk order |
| `Sorting.SortStrings` | main.go:135 | the slice is sorted in place into ascending byte-wise order and stays a permutation of what it held |
| `Strings.TotalLengthPermutation` | main.go:126-135 | the byte count accumulated before the sort is still the total length of the sorted lines |
| `Binary.Uint32Of` | main.go:143 | `uint32(n)` is below 2^32, is n when n already is, and differs from n by a multiple of 2^32 |
| `Binary.BigEndian` | main.go:143 | the header has four bytes and decoding them big-endian gives the value back |
| `Binary.BigEndianInjective` | main.go:143 | different lengths get different headers |
| `Binary.PutUint32` | main.go:142-143 | the four-byte buffer holds the big-endian encoding of the value |
| `Announce.Sink.Write` | main.go:144 | a write appends the buffer's bytes to what the connection has received |
| `Announce.SendFileList` | main.go:139-152 | the bytes written are exactly the header holding the length mod 2^32, then every line in list order, with nothing between or after |
| `Announce.FrameLength` | main.go:142-151 | an announcement is 4 bytes plus the total length of the lines |
| `Announce.EmptyFrame` | main.go:142-151 | an empty list with length 0 is sent as exactly `00 00 00 00` |
| `Announce.ReceiveFrame` | main.go:142-151 | when the header holds the lines' total length (below 2^32), a receiver that reads the header and then that many bytes gets exactly the concatenated lines, whatever follows |
| `Announce.SplitConcat` | main.go:147-151 | cutting the received bytes at newlines gives back each line without its newline, then an empty last piece |
| `Gofoil.AnnounceCatalog` | main.go:102-103 | for a catalog built from any walk, when the external address holds no newline and the lines' total length is below 2^32, every entry is one line, a receiver of the frame sent with that length recovers the concatenated lines, and cutting them at newlines gives the entries back |

## Left out

- The HTTP server, the router, `HealthcheckHandler` and `main` (main.go:63-91) are left out. They are network I/O over an external file server. As written, `main` does not compile: line 76 lacks a trailing comma, and line 79 ranges over an undefined `targetHosts`.
- `pollHost` (main.go:93-107) is left out: a ticker, TCP dials with a timeout, and unordered iteration over the profile map. What one successful tick sends is stated by `Announce.SendFileList`; what a receiver recovers from it is stated by `Gofoil.AnnounceCatalog`. The model does not capture that connections are never closed (`defer` inside a loop that never returns).
- Flag and environment parsing in `readArgs` (main.go:48-58) is left out. The parsed values are parameters; only the split at line 59 is modelled.
- `filepath.Walk` itself is not modelled: the walk is an input sequence of events plus a "walk failed" flag. The real callback never returns an error, so that flag is never set in practice.
- Go's `sort.Strings` algorithm is not modelled; an insertion sort stands in for it. Only the outcome is specified: sorted and a permutation. By `Strings.SortedUnique`, that outcome is unique.
- The 64-bit limit of Go's `int` is not modelled. The running length is unbounded, because it cannot overflow before 2^63 bytes of lines exist.
- Logging (`log.Printf`) is left out, as are the ignored error results of `out.Write`.
