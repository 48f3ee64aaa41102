# AdamFS client, modelled in Dafny

AdamFS is a Hadoop `FileSystem` that keeps nothing itself. Each operation is passed to a
server at `localhost:9999` over a fresh socket:

- The client writes one request line: a two-digit opcode followed by its payload.
- The server answers with one response line: a two-character id, a one-character status
  (`"1"` for success) and the data.
- `open` keeps the socket open, and the returned `AdamFSInputStream` reads the file over it.
  For every read, the stream writes a control line `position:length` and takes the bytes the
  server sends back.

The model covers the client class `AdamFileSystem` and its read stream `AdamFSInputStream`.

- **The server** is an oracle `serve: (Store, line) -> (Store, Option<line>)`. A missing answer
  is `readLine()` returning null. Every property is proved for every oracle.
- **The state the client changes** is a `Server` object holding the store and the log of every
  request line sent. Each client round-trip is one call of `Server.RoundTrip`.
- **Each filesystem operation** is a method of class `AdamFileSystem` that `modifies` the
  server. Each method is proved to give the same new world and the same result as a function
  in module `Operations`. The properties are lemmas about those functions
  (`OperationProperties`).
- **Exceptions** are the `Err` side of a `Result`:
  - `NotFound` is FileNotFoundException;
  - `IOFailure` is the IOExceptions the client throws itself;
  - `Fault` is every runtime exception: short or missing response lines, a bad number, too
    few fields, bad array arguments;
  - `Diverged` is running out of the `fuel` that bounds the recursion of `rename` and
    `delete`, which stands for StackOverflowError.
- **The read stream** is a class with `position`, `incoming` (the bytes the server has put on
  the socket and the stream has not read yet) and `sent` (the control lines written). The
  caller's buffer is a Dafny `array<bv8>`.
- **`Long.parseLong`, `Long.toString` and `String.split("[ ]")`** are modelled exactly, in
  module `JavaText`, as Java 6 (the platform this Hadoop release targets) defines them: in
  particular `Long.parseLong` rejects a leading `'+'`. This lets the stat parse and the read control line be proved to
  round-trip.

Source paths below are relative to the repository root. `AdamFileSystem.java` and
`AdamFSInputStream.java` are in `hadoop-0.20.204.0/src/core/org/apache/hadoop/fs/adamfs/`.

The model follows the code as written, including where it departs from its own comments:

- `rename`:
  - when the rename request fails and `dst` does not exist, `getFileStatus(dst)` throws
    FileNotFoundException out of `rename`; it does not return false;
  - the retry into a directory is itself a full `rename`, so it retries again whenever the new
    destination is also a directory. It is not limited to one retry.
- `delete` of an empty directory returns false when the delete answer's status is exactly
  `"0"` or the answer is unreadable, and true otherwise.
- `delete` ignores the children's results and returns the result of deleting the directory
  again.
- `append` calls `create(f, ..., overwrite = false, ...)` on a file it has just found to exist,
  so it never succeeds against a server whose answers to the same stat agree.
- `read(b, off, len)` keeps its offset arithmetic exactly as written. After the first byte it
  sets `off += 1`, then `length -= off`, so the second socket read asks for `len - off - 1`
  bytes. It also adds that read's `-1` to the count.

## Model

| member | source | states |
|---|---|---|
| Paths.MakeAbsolute | hadoop-0.20.204.0/src/core/org/apache/hadoop/fs/adamfs/AdamFileSystem.java:417-426 | null becomes "/"; a path starting with the default name loses exactly that prefix (prefix + result = path); any other path is unchanged |
| Paths.MakeAbsoluteOfPrefixed | hadoop-0.20.204.0/src/core/org/apache/hadoop/fs/adamfs/AdamFileSystem.java:420-423 | putting the default name in front of any path and making it absolute gives the path back |
| Paths.MakeAbsoluteOfQualified | hadoop-0.20.204.0/src/core/org/apache/hadoop/fs/adamfs/AdamFileSystem.java:272 | a path the client qualified itself as adamfs://localhost:9999 is made absolute again to the same string |
| Paths.Qualify | hadoop-0.20.204.0/src/core/org/apache/hadoop/fs/adamfs/AdamFileSystem.java:272 | the qualified path is the qualifier followed by exactly the given path |
| Paths.Child | hadoop-0.20.204.0/src/core/org/apache/hadoop/fs/adamfs/AdamFileSystem.java:313 | path + "/" + name: the parent, then a '/' at index \|parent\|, then the name, and nothing else |
| Paths.LastSlash | hadoop-0.20.204.0/src/core/org/apache/hadoop/fs/adamfs/AdamFileSystem.java:198 | the index of the last '/' (a '/' sits there and none after it), or -1 when there is none |
| Paths.Name | hadoop-0.20.204.0/src/core/org/apache/hadoop/fs/adamfs/AdamFileSystem.java:198 | src.getName() is the suffix of the path after its last '/' (the whole path when it has none), and holds no '/' |
| Paths.NameOfChild | hadoop-0.20.204.0/src/core/org/apache/hadoop/fs/adamfs/AdamFileSystem.java:198 | the name of dst + "/" + n is n, for any n without '/' |
| Paths.Parent | hadoop-0.20.204.0/src/core/org/apache/hadoop/fs/adamfs/AdamFileSystem.java:124-125 | getParent is null exactly for the empty path and the root; otherwise "." for a single relative component, "/" when the last '/' is the first character, else everything before the last '/' |
| Paths.ParentOfChild | hadoop-0.20.204.0/src/core/org/apache/hadoop/fs/adamfs/AdamFileSystem.java:124-126 | the parent of dir + "/" + name is dir, for a non-root dir not ending in '/' |
| Wire.RequestRoundTrip | hadoop-0.20.204.0/src/core/org/apache/hadoop/fs/adamfs/AdamFileSystem.java:437-439 | the server reads back the two-digit opcode and the whole payload from the request line |
| Wire.RenamePayload | hadoop-0.20.204.0/src/core/org/apache/hadoop/fs/adamfs/AdamFileSystem.java:189 | src, then ':' at index \|src\|, then dst |
| Wire.RenamePayloadRoundTrip | hadoop-0.20.204.0/src/core/org/apache/hadoop/fs/adamfs/AdamFileSystem.java:189 | splitting the payload at its first ':' gives src and dst back, for a src without ':' |
| Wire.Decode | hadoop-0.20.204.0/src/core/org/apache/hadoop/fs/adamfs/AdamFileSystem.java:375-377 | the slicing succeeds exactly on a line of at least 3 characters; id has 2 characters and status 1, and id + status + data is the line |
| Wire.DecodeFormat | hadoop-0.20.204.0/src/core/org/apache/hadoop/fs/adamfs/AdamFileSystem.java:375-377 | slicing the line a server writes for a response gives that response back |
| Oracle.Server.RoundTrip | hadoop-0.20.204.0/src/core/org/apache/hadoop/fs/adamfs/AdamFileSystem.java:452-458 | the request line is logged and the store and answer become those of the server's step |
| JavaText.AddLong | hadoop-0.20.204.0/src/core/org/apache/hadoop/fs/adamfs/AdamFSInputStream.java:80 | long addition: the exact sum when it fits in 64 bits, otherwise the sum wrapped by 2^64 |
| JavaText.DecimalString | hadoop-0.20.204.0/src/core/org/apache/hadoop/fs/adamfs/AdamFSInputStream.java:67 | Long.toString: digits only, except a leading '-' exactly for negative numbers |
| JavaText.ParseLong | hadoop-0.20.204.0/src/core/org/apache/hadoop/fs/adamfs/AdamFileSystem.java:386 | Long.parseLong (Java 6) returns a value only within the 64-bit range |
| JavaText.ParseLongAccepts | hadoop-0.20.204.0/src/core/org/apache/hadoop/fs/adamfs/AdamFileSystem.java:386 | Long.parseLong (Java 6) accepts exactly an optional '-' followed by at least one digit, whose value is a long; a '+' is rejected; the value is the digits' value, negated after '-' |
| JavaText.ParseLongOfDecimal | hadoop-0.20.204.0/src/core/org/apache/hadoop/fs/adamfs/AdamFileSystem.java:86 | parsing the decimal spelling of any long gives that long |
| JavaText.ParseLongs | hadoop-0.20.204.0/src/core/org/apache/hadoop/fs/adamfs/AdamFileSystem.java:386-391 | parsing the four number fields gives one value per field |
| JavaText.ParseLongsEach | hadoop-0.20.204.0/src/core/org/apache/hadoop/fs/adamfs/AdamFileSystem.java:386-391 | the fields parse exactly when each one does, each to its own Long.parseLong value |
| JavaText.SplitOfJoin | hadoop-0.20.204.0/src/core/org/apache/hadoop/fs/adamfs/AdamFileSystem.java:381 | split("[ ]") of space-joined fields without spaces (last one not empty) gives the fields back |
| FileStatusCodec.ParseStatus | hadoop-0.20.204.0/src/core/org/apache/hadoop/fs/adamfs/AdamFileSystem.java:380-395 | a built status has replication 1 and the requested path; a failed parse is a runtime exception |
| FileStatusCodec.ParseStatusFields | hadoop-0.20.204.0/src/core/org/apache/hadoop/fs/adamfs/AdamFileSystem.java:381-395 | a status is built exactly when there are at least 8 fields and fields 0, 2, 3, 4 parse; each field of the status comes from its place (isDir iff field 1 is "1") |
| FileStatusCodec.ParseFormatStatus | hadoop-0.20.204.0/src/core/org/apache/hadoop/fs/adamfs/AdamFileSystem.java:380-395 | the stat data a server writes for a status is parsed back to that status, with replication 1 and the requested path |
| Operations.StatusOf | hadoop-0.20.204.0/src/core/org/apache/hadoop/fs/adamfs/AdamFileSystem.java:374-398 | FileNotFound exactly when the answer is readable and its status is not "1"; a status is returned only on a "1" answer and carries the requested path |
| OperationProperties.StatOfWellFormedAnswer | hadoop-0.20.204.0/src/core/org/apache/hadoop/fs/adamfs/AdamFileSystem.java:367-398 | a "1" answer carrying a status's fields yields that status after exactly one stat request |
| OperationProperties.MkdirsWhenPresent | hadoop-0.20.204.0/src/core/org/apache/hadoop/fs/adamfs/AdamFileSystem.java:341-343 | mkdirs of an existing path returns true after the stat alone |
| OperationProperties.MkdirsWhenAbsent | hadoop-0.20.204.0/src/core/org/apache/hadoop/fs/adamfs/AdamFileSystem.java:349-363 | mkdirs of a missing path sends one mkdir request after the stat; on a "1" answer it returns a fresh exists(f), on another status false, and an unreadable answer (null or shorter than 3 characters) throws a runtime exception |
| OperationProperties.MkdirsWhenStatThrows | hadoop-0.20.204.0/src/core/org/apache/hadoop/fs/adamfs/AdamFileSystem.java:338-343 | when the stat throws anything but FileNotFoundException, mkdirs throws it, after the stat alone |
| OperationProperties.MkdirsRequestOnlyWhenAbsent | hadoop-0.20.204.0/src/core/org/apache/hadoop/fs/adamfs/AdamFileSystem.java:341-351 | a mkdir request is sent only for a path whose stat said it does not exist |
| OperationProperties.RenameFirstRequest | hadoop-0.20.204.0/src/core/org/apache/hadoop/fs/adamfs/AdamFileSystem.java:186-189 | every rename starts with the request "09" + abs(src) + ":" + abs(dst) |
| OperationProperties.RenameSentGrows | hadoop-0.20.204.0/src/core/org/apache/hadoop/fs/adamfs/AdamFileSystem.java:184-204 | rename only appends to the request log |
| OperationProperties.RenameAnsweredSentGrows | hadoop-0.20.204.0/src/core/org/apache/hadoop/fs/adamfs/AdamFileSystem.java:190-202 | what rename does after its first answer only appends to the request log |
| OperationProperties.RenameIntoDirectorySentGrows | hadoop-0.20.204.0/src/core/org/apache/hadoop/fs/adamfs/AdamFileSystem.java:197-201 | the retry into a directory only appends to the request log |
| OperationProperties.RenameOutcome | hadoop-0.20.204.0/src/core/org/apache/hadoop/fs/adamfs/AdamFileSystem.java:189-203 | true on a "1" answer; a runtime exception, with no stat sent, on an unreadable answer (null or shorter than 3 characters); on another status the stat of dst decides: a directory means the result of renaming src to dst/name(src), a file means false, and a failed stat is thrown |
| OperationProperties.RenameFuelEnough | hadoop-0.20.204.0/src/core/org/apache/hadoop/fs/adamfs/AdamFileSystem.java:197-199 | a rename that ends within some recursion depth gives the same world and result with any larger depth |
| OperationProperties.RenameAnsweredFuelEnough | hadoop-0.20.204.0/src/core/org/apache/hadoop/fs/adamfs/AdamFileSystem.java:194-202 | the same, for rename after its first answer |
| OperationProperties.RenameIntoDirectoryFuelEnough | hadoop-0.20.204.0/src/core/org/apache/hadoop/fs/adamfs/AdamFileSystem.java:197-201 | the same, for the retry into a directory |
| OperationProperties.DeleteWhenStatFails | hadoop-0.20.204.0/src/core/org/apache/hadoop/fs/adamfs/AdamFileSystem.java:224-225 | a path whose stat throws is not deleted: false, after the stat alone |
| OperationProperties.DeletePlainFile | hadoop-0.20.204.0/src/core/org/apache/hadoop/fs/adamfs/AdamFileSystem.java:226-239 | a file is deleted by exactly one delete request after the stat; the result is whether the answer reads "1" |
| OperationProperties.DeleteEmptyDirectory | hadoop-0.20.204.0/src/core/org/apache/hadoop/fs/adamfs/AdamFileSystem.java:245-265 | an empty directory is removed by one delete request after the listing; false on a status of exactly "0" and on an unreadable answer (the exception is caught), true otherwise |
| OperationProperties.DeleteFailedListing | hadoop-0.20.204.0/src/core/org/apache/hadoop/fs/adamfs/AdamFileSystem.java:245-280 | a directory whose listing answer is unreadable or not "1" is not deleted: false, after exactly the stat and the listing request |
| OperationProperties.DeleteNonEmptyDirectory | hadoop-0.20.204.0/src/core/org/apache/hadoop/fs/adamfs/AdamFileSystem.java:266-275 | after the stat and the listing request, a directory with names is emptied by the loop over the children (DeleteChildren) and, when that loop returns, deleted again at its qualified path one level deeper |
| OperationProperties.DeleteChildrenOrder | hadoop-0.20.204.0/src/core/org/apache/hadoop/fs/adamfs/AdamFileSystem.java:268-273 | the loop deletes child i at the qualified path + "/" + name i, one level deeper, on the world the children before it left |
| OperationProperties.DeleteNeverThrows | hadoop-0.20.204.0/src/core/org/apache/hadoop/fs/adamfs/AdamFileSystem.java:224-285 | delete returns a boolean whatever the server does; only runaway recursion escapes |
| OperationProperties.DeleteStattedNeverThrows | hadoop-0.20.204.0/src/core/org/apache/hadoop/fs/adamfs/AdamFileSystem.java:225-281 | the same, once the stat has answered |
| OperationProperties.DeleteListedNeverThrows | hadoop-0.20.204.0/src/core/org/apache/hadoop/fs/adamfs/AdamFileSystem.java:245-280 | the same, once the listing has answered |
| OperationProperties.DeleteChildrenNeverThrows | hadoop-0.20.204.0/src/core/org/apache/hadoop/fs/adamfs/AdamFileSystem.java:268-273 | the loop over the children stops only on runaway recursion |
| OperationProperties.DeleteFuelEnough | hadoop-0.20.204.0/src/core/org/apache/hadoop/fs/adamfs/AdamFileSystem.java:272-275 | a delete that ends within some recursion depth gives the same world and result with any larger depth |
| OperationProperties.DeleteStattedFuelEnough | hadoop-0.20.204.0/src/core/org/apache/hadoop/fs/adamfs/AdamFileSystem.java:225-281 | the same, once the stat has answered |
| OperationProperties.DeleteListedFuelEnough | hadoop-0.20.204.0/src/core/org/apache/hadoop/fs/adamfs/AdamFileSystem.java:251-280 | the same, once the listing has answered |
| OperationProperties.DeleteChildrenFuelEnough | hadoop-0.20.204.0/src/core/org/apache/hadoop/fs/adamfs/AdamFileSystem.java:268-273 | the same, for the loop over the children |
| OperationProperties.ListStatusOfFile | hadoop-0.20.204.0/src/core/org/apache/hadoop/fs/adamfs/AdamFileSystem.java:292-295 | listStatus of a file is the one-element array of its status, after the stat alone |
| OperationProperties.ListStatusFailure | hadoop-0.20.204.0/src/core/org/apache/hadoop/fs/adamfs/AdamFileSystem.java:316-324 | a stat that throws, a listing answer that is unreadable or not "1", or a child's stat that throws, gives the empty array: every exception inside the try is caught |
| OperationProperties.ListStatusOfDirectory | hadoop-0.20.204.0/src/core/org/apache/hadoop/fs/adamfs/AdamFileSystem.java:308-315 | listing a directory, when no child's stat throws, gives one entry per listed name, in order: entry i is what the stat of path + "/" + name i answered after the stats of the names before it; the requests are the stat, the listing "02", then one stat per name in order |
| OperationProperties.StatAllPaths | hadoop-0.20.204.0/src/core/org/apache/hadoop/fs/adamfs/AdamFileSystem.java:309-315 | the loop over the names gives, when it does not throw, one status per name: the i-th is for the i-th child path and is what that child's stat answered after the stats of the names before it |
| OperationProperties.StatAllRequests | hadoop-0.20.204.0/src/core/org/apache/hadoop/fs/adamfs/AdamFileSystem.java:309-315 | the loop, when it does not throw, adds exactly one stat request per name to the log, in the listing's order |
| OperationProperties.CreateRefusesExisting | hadoop-0.20.204.0/src/core/org/apache/hadoop/fs/adamfs/AdamFileSystem.java:109-119 | create on an existing directory, or on an existing file without overwrite, throws IOException after two stats and nothing else |
| OperationProperties.CreateWhenStatThrows | hadoop-0.20.204.0/src/core/org/apache/hadoop/fs/adamfs/AdamFileSystem.java:103-109 | when the first stat throws anything but FileNotFoundException, exists passes it on and create throws it, after that stat alone |
| OperationProperties.CreateWhenSecondStatThrows | hadoop-0.20.204.0/src/core/org/apache/hadoop/fs/adamfs/AdamFileSystem.java:109-111 | when the existence check finds the file but the second getFileStatus throws, create throws that, after exactly the two stats |
| OperationProperties.CreateOverwrites | hadoop-0.20.204.0/src/core/org/apache/hadoop/fs/adamfs/AdamFileSystem.java:109-167 | create over an existing file with overwrite: exactly two stats and the write-setup "06" request; the absolute path on a "1" answer, IOException on another status, a runtime exception on an unreadable answer |
| OperationProperties.CreateNewFile | hadoop-0.20.204.0/src/core/org/apache/hadoop/fs/adamfs/AdamFileSystem.java:121-172 | create of a missing file: mkdirs of the qualified parent (when there is one), IOException when it returns false; then "05", IOException unless it answers "1"; then "06", the absolute path on "1" and IOException otherwise; unreadable answers are runtime exceptions; the requests after mkdirs are exactly "05" and "06" |
| OperationProperties.AppendNeverSucceeds | hadoop-0.20.204.0/src/core/org/apache/hadoop/fs/adamfs/AdamFileSystem.java:176-181 | against a server whose stats do not change its store, append never succeeds |
| OperationProperties.OpenOfLengthAnswer | hadoop-0.20.204.0/src/core/org/apache/hadoop/fs/adamfs/AdamFileSystem.java:69-86 | an open answered "1" with a decimal long gives that long as the file length, after one open request |
| AdamFS.AdamFileSystem.Absolute | hadoop-0.20.204.0/src/core/org/apache/hadoop/fs/adamfs/AdamFileSystem.java:417-426 | makeAbsolute(f).toString() for a non-null f: the default-name prefix removed when present, otherwise f |
| AdamFS.AdamFileSystem.GetFileStatus | hadoop-0.20.204.0/src/core/org/apache/hadoop/fs/adamfs/AdamFileSystem.java:367-398 | one stat round-trip, its answer read as Operations.StatusOf says |
| AdamFS.AdamFileSystem.Exists | hadoop-0.20.204.0/src/core/org/apache/hadoop/fs/adamfs/AdamFileSystem.java:109 | true when getFileStatus returns, false when it throws FileNotFoundException, any other exception passed on |
| AdamFS.AdamFileSystem.Mkdirs | hadoop-0.20.204.0/src/core/org/apache/hadoop/fs/adamfs/AdamFileSystem.java:338-364 | new world and result are those of Operations.Mkdirs, which MkdirsWhenPresent, MkdirsWhenAbsent and MkdirsWhenStatThrows describe |
| AdamFS.AdamFileSystem.Rename | hadoop-0.20.204.0/src/core/org/apache/hadoop/fs/adamfs/AdamFileSystem.java:184-204 | new world and result are those of Operations.Rename, which RenameOutcome and the Rename lemmas describe |
| AdamFS.AdamFileSystem.RenameAnswered | hadoop-0.20.204.0/src/core/org/apache/hadoop/fs/adamfs/AdamFileSystem.java:190-202 | rename after the server's answer behaves as Operations.RenameAnswered |
| AdamFS.AdamFileSystem.RenameIntoDirectory | hadoop-0.20.204.0/src/core/org/apache/hadoop/fs/adamfs/AdamFileSystem.java:197-201 | the retry into a directory behaves as Operations.RenameIntoDirectory |
| AdamFS.AdamFileSystem.Delete | hadoop-0.20.204.0/src/core/org/apache/hadoop/fs/adamfs/AdamFileSystem.java:213-286 | new world and result are those of Operations.Delete, which the Delete lemmas describe (stat failure, plain file, empty directory, failed listing, non-empty directory) |
| AdamFS.AdamFileSystem.DeleteStatted | hadoop-0.20.204.0/src/core/org/apache/hadoop/fs/adamfs/AdamFileSystem.java:225-281 | delete after the stat behaves as Operations.DeleteStatted |
| AdamFS.AdamFileSystem.DeleteListed | hadoop-0.20.204.0/src/core/org/apache/hadoop/fs/adamfs/AdamFileSystem.java:245-280 | delete after the listing behaves as Operations.DeleteListed |
| AdamFS.AdamFileSystem.DeleteChildren | hadoop-0.20.204.0/src/core/org/apache/hadoop/fs/adamfs/AdamFileSystem.java:268-273 | the loop deletes the children in order, as Operations.DeleteChildren (invariant: the prefix handled so far) |
| AdamFS.AdamFileSystem.ListStatus | hadoop-0.20.204.0/src/core/org/apache/hadoop/fs/adamfs/AdamFileSystem.java:289-325 | a fresh array whose contents, with the new world, are those of Operations.ListStatus, which the ListStatus lemmas describe |
| AdamFS.AdamFileSystem.ListListed | hadoop-0.20.204.0/src/core/org/apache/hadoop/fs/adamfs/AdamFileSystem.java:304-319 | listStatus after the listing answer behaves as Operations.ListListed |
| AdamFS.AdamFileSystem.StatAll | hadoop-0.20.204.0/src/core/org/apache/hadoop/fs/adamfs/AdamFileSystem.java:309-315 | a fresh array filled by the loop holds exactly the statuses of Operations.StatAll (invariant: filled prefix + what the rest of the loop gives) |
| AdamFS.AdamFileSystem.StatFirst | hadoop-0.20.204.0/src/core/org/apache/hadoop/fs/adamfs/AdamFileSystem.java:311-313 | one turn of the loop: the first name's status in front of what the remaining names give |
| AdamFS.AdamFileSystem.Create | hadoop-0.20.204.0/src/core/org/apache/hadoop/fs/adamfs/AdamFileSystem.java:96-173 | new world and result (the path the write stream writes to) are those of Operations.Create, which CreateRefusesExisting, CreateWhenStatThrows, CreateWhenSecondStatThrows, CreateOverwrites and CreateNewFile describe |
| AdamFS.AdamFileSystem.Append | hadoop-0.20.204.0/src/core/org/apache/hadoop/fs/adamfs/AdamFileSystem.java:176-181 | the stat of f, then create(f, overwrite = false), as Operations.Append |
| AdamFS.AdamFileSystem.Open | hadoop-0.20.204.0/src/core/org/apache/hadoop/fs/adamfs/AdamFileSystem.java:66-92 | succeeds exactly when Operations.Open does; the stream is fresh, at position 0, with no control line sent and the file length the server answered |
| InputStream.ControlLineRoundTrip | hadoop-0.20.204.0/src/core/org/apache/hadoop/fs/adamfs/AdamFSInputStream.java:67 | the server reads back the position and length from the control line "position:length" |
| InputStream.ReadStep | hadoop-0.20.204.0/src/core/org/apache/hadoop/fs/adamfs/AdamFSInputStream.java:55-83 | a read takes no more bytes than are waiting, and takes any only for a valid window, no more than length |
| InputStream.ReadStepKeeps | hadoop-0.20.204.0/src/core/org/apache/hadoop/fs/adamfs/AdamFSInputStream.java:55-83 | a control line goes out exactly for a valid request of at least one byte; a positive count is the number of bytes taken; -1 exactly when the socket was at its end; the position moves by the count returned and by nothing else; failures are runtime exceptions, and one is thrown exactly for a null b, a bad window, or (with bytes waiting) 2 <= length <= off; a request of length 0 on a valid window returns 0 |
| InputStream.ReadFromStart | hadoop-0.20.204.0/src/core/org/apache/hadoop/fs/adamfs/AdamFSInputStream.java:55-83 | from offset 0, with at least two bytes waiting when length is 2 or more, a read takes min(length, waiting) bytes and advances the position by that many (with a single byte waiting, a longer read returns 0: ReadEndAfterFirstByte) |
| InputStream.ReadPastWindowThrows | hadoop-0.20.204.0/src/core/org/apache/hadoop/fs/adamfs/AdamFSInputStream.java:75-78 | with off >= length >= 2 the second socket read throws, after the first byte was taken, the position unchanged |
| InputStream.ReadShortAtOffset | hadoop-0.20.204.0/src/core/org/apache/hadoop/fs/adamfs/AdamFSInputStream.java:75-78 | with 0 < off < length a read takes at most length - off bytes |
| InputStream.ReadEndAfterFirstByte | hadoop-0.20.204.0/src/core/org/apache/hadoop/fs/adamfs/AdamFSInputStream.java:75-80 | when the socket ends after the first byte, a read of two or more bytes returns 0 and leaves the position unchanged |
| InputStream.AdamFSInputStream.constructor | hadoop-0.20.204.0/src/core/org/apache/hadoop/fs/adamfs/AdamFSInputStream.java:24-33 | the stream starts at position 0 with the given file length and nothing sent |
| InputStream.AdamFSInputStream.Receive | hadoop-0.20.204.0/src/core/org/apache/hadoop/fs/adamfs/AdamFSInputStream.java:78 | the socket's read(b, off, len): bad arguments throw, len 0 gives 0, an empty socket -1, otherwise min(len, waiting) bytes copied into b from off, the rest of b unchanged |
| InputStream.AdamFSInputStream.Read | hadoop-0.20.204.0/src/core/org/apache/hadoop/fs/adamfs/AdamFSInputStream.java:55-83 | result, position, bytes left, control lines and the contents of b are those ReadStep gives |
| InputStream.AdamFSInputStream.Transfer | hadoop-0.20.204.0/src/core/org/apache/hadoop/fs/adamfs/AdamFSInputStream.java:69-82 | the first byte, then one socket read for the rest, as ReadStep gives them |
| InputStream.AdamFSInputStream.ReadByte | hadoop-0.20.204.0/src/core/org/apache/hadoop/fs/adamfs/AdamFSInputStream.java:36-46 | -1 with nothing sent at or past the file length; otherwise one control line and the next waiting byte as 0..255, the position one further, or -1 when nothing is waiting |
| InputStream.AdamFSInputStream.ReadInto | hadoop-0.20.204.0/src/core/org/apache/hadoop/fs/adamfs/AdamFSInputStream.java:49-52 | a null b throws and changes nothing; otherwise a read of the whole of b; when no byte is taken, b is unchanged |
| InputStream.AdamFSInputStream.PositionalRead | hadoop-0.20.204.0/src/core/org/apache/hadoop/fs/adamfs/AdamFSInputStream.java:86-91 | an ordinary read from the given position, which stays the stream's position; when no byte is taken, b is unchanged |
| InputStream.AdamFSInputStream.Seek | hadoop-0.20.204.0/src/core/org/apache/hadoop/fs/adamfs/AdamFSInputStream.java:104-107 | the position becomes pos and nothing is sent |
| InputStream.AdamFSInputStream.GetPos | hadoop-0.20.204.0/src/core/org/apache/hadoop/fs/adamfs/AdamFSInputStream.java:110-113 | the current position, a long |
| InputStream.AdamFSInputStream.MakeAbsolute | hadoop-0.20.204.0/src/core/org/apache/hadoop/fs/adamfs/AdamFSInputStream.java:123-132 | the same three cases as the filesystem's makeAbsolute |

## Left out

- Sockets, `initiate_connection` and `close_connection`: each round-trip is one oracle step, and
  an unreachable server is not modelled. Closing a connection changes nothing the client can
  observe afterwards.
- `initialize`, `getUri`, `setWorkingDirectory` and `getWorkingDirectory`: configuration
  plumbing, outside the protocol.
- Hadoop `Path` normalisation (`new Path(...)` collapsing slashes, resolving URIs): paths are
  plain strings. `new Path(dst, src.getName())` is `dst + "/" + name`, and
  `new Path("adamfs", "localhost:9999", p)` is the qualifier followed by `p`.
- `FsPermission`: the permission field is kept as its text.
- Unicode digits: `Long.parseLong` is modelled for ASCII digits only.
- UTF-16: a Dafny `string` is a sequence of Unicode scalar values, while Java's `substring` counts
  UTF-16 code units. Response lines and paths with characters outside the Basic Multilingual
  Plane are sliced differently by the model.
- Null paths: the operations take a path, never null (only `makeAbsolute` models the null case).
  A null `Path` argument makes the Java methods throw NullPointerException, which is not modelled.
- AdamFS.AdamFileSystem.Delete: the `recursive` argument is left out, because the client ignores
  it and always deletes recursively.
- AdamFS.AdamFileSystem.Rename: when the last component of `src` is empty (`src` is the root),
  the retry into a directory renames to `dst + "/"`. The Java code builds `new Path(dst, "")`
  there, which Hadoop's `Path` rejects with IllegalArgumentException outside any `try`. Path.java
  is not part of this model, so the model carries on with that path instead of throwing.
- Paths.MakeAbsolute: a path equal to `fs.default.name` is made absolute to the empty string.
  The Java code builds `new Path("")` there, which Hadoop's `Path` rejects with
  IllegalArgumentException, and in `delete` that happens outside the `try`. Path.java is not part
  of this model, so the model carries on with the empty path instead of throwing.
- `AdamFSOutputStream`, and the bytes `create` then writes: `create` returns the path the write
  stream is set up for. AdamFSOutputStream.java is not part of this model.
- `readFully` (both are empty in the source), `seekToNewSource` (returns false), statistics and
  logging.
- AdamFS.AdamFileSystem.Rename: the recursion of `rename` and `delete` is bounded by a `fuel`
  parameter. Running out stands for StackOverflowError. The FuelEnough lemmas show that more
  fuel never changes a result that was reached.
- AdamFS.AdamFileSystem.Open: the bytes the server will send on the kept connection are a
  parameter (`incoming`), not part of the oracle's answer.
- AdamFS.AdamFileSystem.Create: the `permission`, `bufferSize`, `replication`, `blockSize` and
  `progress` arguments are left out, because the client sends none of them to the server.
- InputStream.AdamFSInputStream.Receive: a socket read returns every waiting byte that fits.
  The shorter reads a real socket may make are not modelled.
