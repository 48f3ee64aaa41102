/** What each AdamFileSystem operation does, as a function of the server oracle and the
    world before the call: the world after it (the store and the request lines sent) and the
    value returned or the failure thrown. Each operation is split into the stages of its
    source, one function per stage, each taking the outcome of the round-trip before it.
    The methods of class AdamFileSystem are proved to behave exactly like these functions. */
module Operations {
  import opened Outcomes
  import opened JavaText
  import opened Paths
  import opened Wire
  import opened FileStatusCodec
  import opened Oracle

  /** The server to talk to and the configured fs.default.name. */
  datatype Env = Env(serve: Serve, defaultName: string)

  /** makeAbsolute(f).toString() for a non-null path f. */
  function Abs(env: Env, f: string): string
  {
    MakeAbsolute(Some(f), env.defaultName)
  }

  /** The request line of a stat of f. */
  function StatLine(env: Env, f: string): string
  {
    Request(OpStat, Abs(env, f))
  }

  /** The answer decodes and its status is "1". */
  predicate Accepted(response: Option<string>)
  {
    Decode(response).Some? && Succeeded(Decode(response).value)
  }

  // ------------------------------------------------------------------ getFileStatus

  /** How getFileStatus reads the answer to its stat request. */
  function StatusOf(f: string, response: Option<string>): (r: Result<FileStatus>)
    ensures r == Err(NotFound) <==> Decode(response).Some? && !Succeeded(Decode(response).value)
    ensures r.Ok? ==> Accepted(response) && r.value.path == f
  {
    match Decode(response)
    case None => Err(Fault)
    case Some(resp) => if Succeeded(resp) then ParseStatus(f, resp.data) else Err(NotFound)
  }

  /** getFileStatus: one stat round-trip. */
  function Stat(env: Env, w: World, f: string): Step<Result<FileStatus>>
  {
    var x := Exchange(env.serve, w, OpStat, Abs(env, f));
    Step(x.world, StatusOf(f, x.result))
  }

  /** exists (inherited from Hadoop's FileSystem): true when getFileStatus returns, false when
      it throws FileNotFoundException; any other failure passes through. */
  function Exists(env: Env, w: World, f: string): Step<Result<bool>>
  {
    var st := Stat(env, w, f);
    Step(st.world, match st.result
                   case Ok(_) => Ok(true)
                   case Err(NotFound) => Ok(false)
                   case Err(e) => Err(e))
  }

  // ------------------------------------------------------------------ mkdirs

  /** mkdirs: nothing more to do when the path exists; otherwise one mkdir round-trip, and on
      success the answer of a fresh existence check. */
  function Mkdirs(env: Env, w: World, f: string): Step<Result<bool>>
  {
    var present := Exists(env, w, f);
    if present.result.Err? then present
    else if present.result.value then Step(present.world, Ok(true))
    else MkdirsAnswered(env, Exchange(env.serve, present.world, OpMkdir, Abs(env, f)), f)
  }

  function MkdirsAnswered(env: Env, x: Step<Option<string>>, f: string): Step<Result<bool>>
  {
    match Decode(x.result)
    case None => Step(x.world, Err(Fault))
    case Some(resp) => if Succeeded(resp) then Exists(env, x.world, f) else Step(x.world, Ok(false))
  }

  // ------------------------------------------------------------------ rename

  /** rename: one rename round-trip; when it fails and dst is a directory, the rename of src to
      dst/name(src). A dst that does not exist makes getFileStatus throw. `fuel` bounds the
      depth of the retries. */
  function Rename(env: Env, w: World, src: string, dst: string, fuel: nat): Step<Result<bool>>
    decreases fuel, 3
  {
    if fuel == 0 then Step(w, Err(Diverged))
    else RenameBody(env, w, src, dst, fuel)
  }

  /** The body of rename once the depth allows it, starting with the rename round-trip. */
  function RenameBody(env: Env, w: World, src: string, dst: string, fuel: nat): Step<Result<bool>>
    requires fuel > 0
    decreases fuel, 2
  {
    RenameAnswered(env, Exchange(env.serve, w, OpRename, RenamePayload(Abs(env, src), Abs(env, dst))), src, dst, fuel)
  }

  function RenameAnswered(env: Env, x: Step<Option<string>>, src: string, dst: string, fuel: nat): Step<Result<bool>>
    requires fuel > 0
    decreases fuel, 1
  {
    match Decode(x.result)
    case None => Step(x.world, Err(Fault))
    case Some(resp) =>
      if Succeeded(resp) then Step(x.world, Ok(true))
      else RenameIntoDirectory(env, Stat(env, x.world, dst), src, Child(dst, Name(src)), fuel)
  }

  function RenameIntoDirectory(env: Env, st: Step<Result<FileStatus>>, src: string, into: string, fuel: nat): Step<Result<bool>>
    requires fuel > 0
    decreases fuel, 0
  {
    if st.result.Err? then Step(st.world, Err(st.result.failure))
    else if st.result.value.isDir then Rename(env, st.world, src, into, fuel - 1)
    else Step(st.world, Ok(false))
  }

  // ------------------------------------------------------------------ delete

  /** delete(f, true): a plain file is removed by one delete round-trip; a directory is listed,
      and removed directly when the listing is empty; otherwise every listed child is deleted
      and then the directory is deleted again. Every Exception ends the call with false; only
      running out of `fuel` (unbounded recursion) passes through. */
  function Delete(env: Env, w: World, f: string, fuel: nat): Step<Result<bool>>
    decreases fuel, 3, 0
  {
    if fuel == 0 then Step(w, Err(Diverged))
    else DeleteBody(env, w, f, fuel)
  }

  /** The body of delete(f, true) inside its try block, starting with getFileStatus(f). */
  function DeleteBody(env: Env, w: World, f: string, fuel: nat): Step<Result<bool>>
    requires fuel > 0
    decreases fuel, 2, 1
  {
    DeleteStatted(env, Stat(env, w, f), Abs(env, f), fuel)
  }

  function DeleteStatted(env: Env, st: Step<Result<FileStatus>>, path: string, fuel: nat): Step<Result<bool>>
    requires fuel > 0
    decreases fuel, 2, 0
  {
    if st.result.Err? then Step(st.world, Ok(false))
    else if !st.result.value.isDir then
      var x := Exchange(env.serve, st.world, OpDelete, path);
      Step(x.world, Ok(Accepted(x.result)))
    else DeleteListed(env, Exchange(env.serve, st.world, OpList, path), path, fuel)
  }

  function DeleteListed(env: Env, x: Step<Option<string>>, path: string, fuel: nat): Step<Result<bool>>
    requires fuel > 0
    decreases fuel, 1, 0
  {
    match Decode(x.result)
    case None => Step(x.world, Ok(false))
    case Some(resp) =>
      if !Succeeded(resp) then Step(x.world, Ok(false))
      else if resp.data == "" then
        var y := Exchange(env.serve, x.world, OpDelete, path);
        Step(y.world, Ok(Decode(y.result).Some? && Decode(y.result).value.status != "0"))
      else DeleteAgain(env, DeleteChildren(env, x.world, path, Split(resp.data), fuel), path, fuel)
  }

  /** The loop of delete over the listed names, in order, each child one level deeper; the
      results are ignored, only a runaway recursion stops the loop. */
  function DeleteChildren(env: Env, w: World, path: string, names: seq<string>, fuel: nat): Step<Result<()>>
    requires fuel > 0
    decreases fuel, 0, |names|
  {
    if names == [] then Step(w, Ok(()))
    else
      var done := DeleteChildren(env, w, path, names[..|names| - 1], fuel);
      if done.result.Err? then done
      else
        var r := Delete(env, done.world, Qualify(Child(path, names[|names| - 1])), fuel - 1);
        Step(r.world, if r.result.Err? then Err(r.result.failure) else Ok(()))
  }

  function DeleteAgain(env: Env, done: Step<Result<()>>, path: string, fuel: nat): Step<Result<bool>>
    requires fuel > 0
    decreases fuel, 0, 0
  {
    if done.result.Err? then Step(done.world, Err(done.result.failure))
    else Delete(env, done.world, Qualify(path), fuel - 1)
  }

  // ------------------------------------------------------------------ listStatus

  /** listStatus: a path that is not a directory lists as its own status; a directory lists as
      the status of each name of its listing. Every failure gives the empty listing. */
  function ListStatus(env: Env, w: World, f: string): Step<seq<FileStatus>>
  {
    var st := Stat(env, w, f);
    if st.result.Err? then Step(st.world, [])
    else if !st.result.value.isDir then Step(st.world, [st.result.value])
    else ListListed(env, Exchange(env.serve, st.world, OpList, Abs(env, f)), Abs(env, f))
  }

  function ListListed(env: Env, x: Step<Option<string>>, path: string): Step<seq<FileStatus>>
  {
    match Decode(x.result)
    case None => Step(x.world, [])
    case Some(resp) =>
      if !Succeeded(resp) then Step(x.world, [])
      else
        var all := StatAll(env, x.world, path, Split(resp.data));
        Step(all.world, if all.result.Ok? then all.result.value else [])
  }

  /** The loop of listStatus: the status of each child in order, stopping at the first throw. */
  function StatAll(env: Env, w: World, path: string, names: seq<string>): Step<Result<seq<FileStatus>>>
    decreases |names|, 2
  {
    if names == [] then Step(w, Ok([])) else StatFrom(env, w, path, names)
  }

  /** One turn of that loop: the first name becomes the path directory + "/" + name ... */
  function StatFrom(env: Env, w: World, path: string, names: seq<string>): Step<Result<seq<FileStatus>>>
    requires names != []
    decreases |names|, 1
  {
    StatThen(env, w, Qualify(Child(path, names[0])), path, names[1..])
  }

  /** ... whose status is asked for; the loop goes on over the other names. */
  function StatThen(env: Env, w: World, child: string, path: string, rest: seq<string>): Step<Result<seq<FileStatus>>>
    decreases |rest| + 1, 0
  {
    var st := Stat(env, w, child);
    if st.result.Err? then Step(st.world, Err(st.result.failure))
    else Prepend([st.result.value], StatAll(env, st.world, path, rest))
  }

  /** Statuses already gathered, in front of what the rest of the loop gathers. */
  function Prepend(done: seq<FileStatus>, rest: Step<Result<seq<FileStatus>>>): Step<Result<seq<FileStatus>>>
  {
    Step(rest.world, if rest.result.Err? then rest.result else Ok(done + rest.result.value))
  }

  // ------------------------------------------------------------------ create, append, open

  /** create: refuse an existing directory, and an existing file unless `overwrite`; for a new
      file, make its parent directories and create it empty; then set up the write stream,
      which is returned as the absolute path it writes to. */
  function Create(env: Env, w: World, f: string, overwrite: bool): Step<Result<string>>
  {
    var abs := Abs(env, f);
    var present := Exists(env, w, f);
    if present.result.Err? then Step(present.world, Err(present.result.failure))
    else if present.result.value then CreateOverExisting(env, Stat(env, present.world, f), abs, overwrite)
    else CreateNew(env, MakeParent(env, present.world, abs), abs)
  }

  function CreateOverExisting(env: Env, st: Step<Result<FileStatus>>, abs: string, overwrite: bool): Step<Result<string>>
  {
    if st.result.Err? then Step(st.world, Err(st.result.failure))
    else if st.result.value.isDir || !overwrite then Step(st.world, Err(IOFailure))
    else SetupWrite(env, st.world, abs)
  }

  /** The parent directories of a new file: mkdirs of the qualified parent, when there is one. */
  function MakeParent(env: Env, w: World, abs: string): Step<Result<bool>>
  {
    match Parent(abs)
    case None => Step(w, Ok(true))
    case Some(p) => Mkdirs(env, w, Qualify(p))
  }

  function CreateNew(env: Env, made: Step<Result<bool>>, abs: string): Step<Result<string>>
  {
    if made.result.Err? then Step(made.world, Err(made.result.failure))
    else if !made.result.value then Step(made.world, Err(IOFailure))
    else
      var x := Exchange(env.serve, made.world, OpCreate, abs);
      match Decode(x.result)
      case None => Step(x.world, Err(Fault))
      case Some(resp) => if Succeeded(resp) then SetupWrite(env, x.world, abs) else Step(x.world, Err(IOFailure))
  }

  /** The last step of create: the write-setup round-trip. On success the connection stays open
      for a write stream on the absolute path. */
  function SetupWrite(env: Env, w: World, abs: string): Step<Result<string>>
  {
    var x := Exchange(env.serve, w, OpWrite, abs);
    match Decode(x.result)
    case None => Step(x.world, Err(Fault))
    case Some(resp) => if Succeeded(resp) then Step(x.world, Ok(abs)) else Step(x.world, Err(IOFailure))
  }

  /** append: the status of f, then create(f, overwrite = false). */
  function Append(env: Env, w: World, f: string): Step<Result<string>>
  {
    var st := Stat(env, w, f);
    if st.result.Err? then Step(st.world, Err(st.result.failure)) else Create(env, st.world, f, false)
  }

  /** open: one open round-trip; on success the connection stays open for a read stream whose
      file length is the data of the answer. */
  function Open(env: Env, w: World, f: string): Step<Result<int>>
  {
    var x := Exchange(env.serve, w, OpOpen, Abs(env, f));
    match Decode(x.result)
    case None => Step(x.world, Err(Fault))
    case Some(resp) =>
      if !Succeeded(resp) then Step(x.world, Err(IOFailure))
      else match ParseLong(resp.data)
        case None => Step(x.world, Err(Fault))
        case Some(n) => Step(x.world, Ok(n))
  }
}
