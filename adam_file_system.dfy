/** The client class: every operation opens a connection to the server, sends one request
    line, reads one response line and acts on it. Each method is proved to leave the server in
    the world, and to return the value, that its function in module Operations gives. */
module AdamFS {
  import opened Outcomes
  import opened JavaText
  import opened Paths
  import opened Wire
  import opened FileStatusCodec
  import opened Oracle
  import opened Operations
  import opened InputStream
  import opened OperationProperties

  /** Once a child's delete has run away, the loop over the children stops with it. */
  lemma {:induction false} DeleteChildrenStops(env: Env, w: World, path: string, names: seq<string>, j: nat, fuel: nat)
    requires fuel > 0 && j <= |names|
    requires DeleteChildren(env, w, path, names[..j], fuel).result.Err?
    ensures DeleteChildren(env, w, path, names, fuel) == DeleteChildren(env, w, path, names[..j], fuel)
    decreases |names| - j
  {
    if j < |names| {
      assert names[..j + 1][..j] == names[..j];
      DeleteChildrenStops(env, w, path, names, j + 1, fuel);
    } else {
      assert names[..j] == names;
    }
  }

  /** One more turn of the loop of delete: the next child is deleted one level deeper. */
  lemma DeleteChildrenNext(env: Env, w: World, path: string, names: seq<string>, i: nat, fuel: nat)
    requires fuel > 0 && i < |names|
    requires DeleteChildren(env, w, path, names[..i], fuel).result.Ok?
    ensures var done := DeleteChildren(env, w, path, names[..i], fuel);
      var r := Delete(env, done.world, Qualify(Child(path, names[i])), fuel - 1);
      DeleteChildren(env, w, path, names[..i + 1], fuel) == Step(r.world, if r.result.Err? then Err(r.result.failure) else Ok(()))
  {
    assert names[..i + 1][..i] == names[..i];
  }

  /** A listing with names: delete runs the loop over them, then deletes the directory again. */
  lemma DeleteListedChildren(env: Env, x: Step<Option<string>>, path: string, fuel: nat)
    requires fuel > 0
    requires Decode(x.result).Some? && Succeeded(Decode(x.result).value) && Decode(x.result).value.data != ""
    ensures DeleteListed(env, x, path, fuel)
         == DeleteAgain(env, DeleteChildren(env, x.world, path, Split(Decode(x.result).value.data), fuel), path, fuel)
  {
  }

  /** Gathering in two steps is gathering in one. */
  lemma PrependPrepend(done: seq<FileStatus>, more: seq<FileStatus>, rest: Step<Result<seq<FileStatus>>>)
    ensures Prepend(done, Prepend(more, rest)) == Prepend(done + more, rest)
  {
    if rest.result.Ok? {
      assert done + (more + rest.result.value) == (done + more) + rest.result.value;
    }
  }

  /** Nothing gathered yet changes nothing. */
  lemma PrependNothing(rest: Step<Result<seq<FileStatus>>>)
    ensures Prepend([], rest) == rest
  {
    if rest.result.Ok? {
      assert [] + rest.result.value == rest.result.value;
    }
  }

  class AdamFileSystem {
    /** fs.default.name, read from the configuration when the filesystem is initialised. */
    const defaultName: string
    /** The server at localhost:9999 that every connection goes to. */
    const remote: Server

    function Environment(): Env
    {
      Env(remote.serve, defaultName)
    }

    constructor (defaultName: string, remote: Server)
      ensures this.defaultName == defaultName && this.remote == remote
    {
      this.defaultName := defaultName;
      this.remote := remote;
    }

    /** makeAbsolute(f).toString(). */
    function Absolute(f: string): (r: string)
      ensures defaultName <= f ==> defaultName + r == f
      ensures !(defaultName <= f) ==> r == f
    {
      MakeAbsolute(Some(f), defaultName)
    }

    /** getFileStatus(f). */
    method GetFileStatus(f: string) returns (r: Result<FileStatus>)
      modifies remote
      ensures Step(remote.Now(), r) == Stat(Environment(), old(remote.Now()), f)
    {
      var response := remote.RoundTrip(OpStat, Absolute(f));
      r := StatusOf(f, response);
    }

    /** exists(f), as the FileSystem base class defines it on top of getFileStatus. */
    method Exists(f: string) returns (r: Result<bool>)
      modifies remote
      ensures Step(remote.Now(), r) == Operations.Exists(Environment(), old(remote.Now()), f)
    {
      var st := GetFileStatus(f);
      match st
      case Ok(_) => r := Ok(true);
      case Err(NotFound) => r := Ok(false);
      case Err(e) => r := Err(e);
    }

    /** mkdirs(f, permission). */
    method Mkdirs(f: string) returns (r: Result<bool>)
      modifies remote
      ensures Step(remote.Now(), r) == Operations.Mkdirs(Environment(), old(remote.Now()), f)
    {
      var present := Exists(f);
      if present.Err? {
        return present;
      }
      if present.value {
        return Ok(true);
      }
      ghost var w := remote.Now();
      var response := remote.RoundTrip(OpMkdir, Absolute(f));
      assert Operations.Mkdirs(Environment(), old(remote.Now()), f)
          == MkdirsAnswered(Environment(), Step(remote.Now(), response), f);
      match Decode(response)
      case None => r := Err(Fault);
      case Some(resp) =>
        if Succeeded(resp) {
          r := Exists(f);
        } else {
          r := Ok(false);
        }
    }

    /** rename(src, dst); `fuel` bounds the depth of the retries into a directory. */
    method Rename(src: string, dst: string, fuel: nat) returns (r: Result<bool>)
      modifies remote
      ensures Step(remote.Now(), r) == Operations.Rename(Environment(), old(remote.Now()), src, dst, fuel)
      decreases fuel, 2
    {
      if fuel == 0 {
        return Err(Diverged);
      }
      var response := remote.RoundTrip(OpRename, RenamePayload(Absolute(src), Absolute(dst)));
      r := RenameAnswered(src, dst, response, fuel);
    }

    /** The rest of rename once the server has answered the rename request: true on success,
        otherwise the status of dst decides. */
    method RenameAnswered(src: string, dst: string, response: Option<string>, fuel: nat) returns (r: Result<bool>)
      requires fuel > 0
      modifies remote
      ensures Step(remote.Now(), r) == Operations.RenameAnswered(Environment(), Step(old(remote.Now()), response), src, dst, fuel)
      decreases fuel, 1
    {
      match Decode(response)
      case None => r := Err(Fault);
      case Some(resp) =>
        if Succeeded(resp) {
          r := Ok(true);
        } else {
          var st := GetFileStatus(dst);
          r := RenameIntoDirectory(src, Child(dst, Name(src)), st, fuel);
        }
    }

    /** The end of rename after a refused answer: the status of dst decides between the retry
        into the directory, false, and the exception getFileStatus threw. */
    method RenameIntoDirectory(src: string, into: string, st: Result<FileStatus>, fuel: nat) returns (r: Result<bool>)
      requires fuel > 0
      modifies remote
      ensures Step(remote.Now(), r) == Operations.RenameIntoDirectory(Environment(), Step(old(remote.Now()), st), src, into, fuel)
      decreases fuel, 0
    {
      if st.Err? {
        r := Err(st.failure);
      } else if st.value.isDir {
        r := Rename(src, into, fuel - 1);
      } else {
        r := Ok(false);
      }
    }

    /** delete(f, true); `fuel` bounds the depth of the recursion. */
    method Delete(f: string, fuel: nat) returns (r: Result<bool>)
      modifies remote
      ensures Step(remote.Now(), r) == Operations.Delete(Environment(), old(remote.Now()), f, fuel)
      decreases fuel, 3
    {
      if fuel == 0 {
        return Err(Diverged);
      }
      var path := Absolute(f);
      var st := GetFileStatus(f);
      r := DeleteStatted(st, path, fuel);
    }

    /** The rest of delete once getFileStatus(f) has answered: a file is deleted by one request,
        a directory is listed first; a thrown status gives false. */
    method DeleteStatted(st: Result<FileStatus>, path: string, fuel: nat) returns (r: Result<bool>)
      requires fuel > 0
      modifies remote
      ensures Step(remote.Now(), r) == Operations.DeleteStatted(Environment(), Step(old(remote.Now()), st), path, fuel)
      decreases fuel, 2
    {
      if st.Err? {
        return Ok(false);
      }
      if !st.value.isDir {
        var response := remote.RoundTrip(OpDelete, path);
        return Ok(Accepted(response));
      }
      var listing := remote.RoundTrip(OpList, path);
      r := DeleteListed(listing, path, fuel);
    }

    /** The rest of delete for a directory once its listing has come back: an empty one is
        deleted at once, otherwise each child is deleted in turn and then the directory again. */
    method DeleteListed(listing: Option<string>, path: string, fuel: nat) returns (r: Result<bool>)
      requires fuel > 0
      modifies remote
      ensures Step(remote.Now(), r) == Operations.DeleteListed(Environment(), Step(old(remote.Now()), listing), path, fuel)
      decreases fuel, 1
    {
      if Decode(listing).None? || !Succeeded(Decode(listing).value) {
        return Ok(false);
      }
      var data := Decode(listing).value.data;
      if data == "" {
        var response := remote.RoundTrip(OpDelete, path);
        return Ok(Decode(response).Some? && Decode(response).value.status != "0");
      }
      DeleteListedChildren(Environment(), Step(old(remote.Now()), listing), path, fuel);
      var done := DeleteChildren(path, Split(data), fuel);
      if done.Err? {
        return Err(done.failure);
      }
      r := Delete(Qualify(path), fuel - 1);
    }

    /** The loop of delete over the names of a listing: each child is deleted, one level
        deeper, in order; only a runaway recursion stops the loop. */
    method DeleteChildren(path: string, files: seq<string>, fuel: nat) returns (done: Result<()>)
      requires fuel > 0
      modifies remote
      ensures Step(remote.Now(), done) == Operations.DeleteChildren(Environment(), old(remote.Now()), path, files, fuel)
      decreases fuel, 0
    {
      var i := 0;
      while i < |files|
        invariant 0 <= i <= |files|
        invariant Operations.DeleteChildren(Environment(), old(remote.Now()), path, files[..i], fuel) == Step(remote.Now(), Ok(()))
      {
        DeleteChildrenNext(Environment(), old(remote.Now()), path, files, i, fuel);
        var d := Delete(Qualify(Child(path, files[i])), fuel - 1);
        if d.Err? {
          DeleteChildrenStops(Environment(), old(remote.Now()), path, files, i + 1, fuel);
          return Err(d.failure);
        }
        i := i + 1;
      }
      assert files[..i] == files;
      done := Ok(());
    }

    /** listStatus(f): a fresh array of the statuses, empty when anything throws. */
    method ListStatus(f: string) returns (listing: array<FileStatus>)
      modifies remote
      ensures fresh(listing)
      ensures Step(remote.Now(), listing[..]) == Operations.ListStatus(Environment(), old(remote.Now()), f)
    {
      var st := GetFileStatus(f);
      if st.Err? {
        listing := new FileStatus[0];
        assert listing[..] == [];
        return;
      }
      if !st.value.isDir {
        listing := new FileStatus[] [st.value];
        assert listing[..] == [st.value];
        return;
      }
      var path := Absolute(f);
      var response := remote.RoundTrip(OpList, path);
      listing := ListListed(response, path);
    }

    /** The rest of listStatus for a directory once its listing has come back. */
    method ListListed(response: Option<string>, path: string) returns (listing: array<FileStatus>)
      modifies remote
      ensures fresh(listing)
      ensures Step(remote.Now(), listing[..]) == Operations.ListListed(Environment(), Step(old(remote.Now()), response), path)
    {
      if Decode(response).None? || !Succeeded(Decode(response).value) {
        listing := new FileStatus[0];
        assert listing[..] == [];
        return;
      }
      var all := StatAll(path, Split(Decode(response).value.data));
      if all.Err? {
        listing := new FileStatus[0];
        assert listing[..] == [];
        return;
      }
      listing := all.value;
    }

    /** The loop of listStatus: an array as long as the listing, filled with the status of
        each name in turn; the first status that throws ends it. */
    method StatAll(path: string, files: seq<string>) returns (r: Result<array<FileStatus>>)
      modifies remote
      ensures r.Ok? ==> fresh(r.value)
      ensures Step(remote.Now(), if r.Ok? then Ok(r.value[..]) else Err(r.failure))
           == Operations.StatAll(Environment(), old(remote.Now()), path, files)
    {
      var ret := new FileStatus[|files|];
      assert files[0..] == files && ret[..0] == [];
      PrependNothing(Operations.StatAll(Environment(), remote.Now(), path, files));
      var i := 0;
      while i < |files|
        invariant 0 <= i <= |files|
        invariant Operations.StatAll(Environment(), old(remote.Now()), path, files)
               == Prepend(ret[..i], Operations.StatAll(Environment(), remote.Now(), path, files[i..]))
      {
        var child := StatFirst(path, files[i..]);
        if child.Err? {
          return Err(child.failure);
        }
        ret[i] := child.value;
        assert files[i..][1..] == files[i + 1..];
        PrependPrepend(ret[..i], [child.value], Operations.StatAll(Environment(), remote.Now(), path, files[i + 1..]));
        assert ret[..i + 1] == ret[..i] + [child.value];
        i := i + 1;
      }
      assert files[i..] == [] && ret[..i] == ret[..];
      assert Operations.StatAll(Environment(), remote.Now(), path, files[i..]) == Step(remote.Now(), Ok([]));
      assert ret[..] + [] == ret[..];
      r := Ok(ret);
    }

    /** One turn of the loop of listStatus: the status of the first of the names left. */
    method StatFirst(path: string, names: seq<string>) returns (r: Result<FileStatus>)
      requires names != []
      modifies remote
      ensures Operations.StatAll(Environment(), old(remote.Now()), path, names)
           == if r.Err? then Step(remote.Now(), Err(r.failure))
              else Prepend([r.value], Operations.StatAll(Environment(), remote.Now(), path, names[1..]))
    {
      assert Operations.StatAll(Environment(), remote.Now(), path, names)
          == StatThen(Environment(), remote.Now(), Qualify(Child(path, names[0])), path, names[1..]);
      r := GetFileStatus(Qualify(Child(path, names[0])));
    }

    /** create(f, permission, overwrite, ...): the absolute path the write stream is set up for. */
    method Create(f: string, overwrite: bool) returns (r: Result<string>)
      modifies remote
      ensures Step(remote.Now(), r) == Operations.Create(Environment(), old(remote.Now()), f, overwrite)
    {
      var abs := Absolute(f);
      var present := Exists(f);
      if present.Err? {
        return Err(present.failure);
      }
      var found := present.value;
      if found {
        var st := GetFileStatus(f);
        if st.Err? {
          return Err(st.failure);
        } else if st.value.isDir || !overwrite {
          return Err(IOFailure);
        }
      }
      if !found {
        match Parent(abs)
        case None =>
        case Some(p) =>
          var made := Mkdirs(Qualify(p));
          if made.Err? {
            return Err(made.failure);
          } else if !made.value {
            return Err(IOFailure);
          }
      }
      var code: string;
      if !found {
        var response := remote.RoundTrip(OpCreate, abs);
        if Decode(response).None? {
          return Err(Fault);
        }
        code := Decode(response).value.status;
      } else {
        code := "1";
      }
      if code == "1" {
        var response := remote.RoundTrip(OpWrite, abs);
        if Decode(response).None? {
          return Err(Fault);
        }
        if Succeeded(Decode(response).value) {
          r := Ok(abs);
        } else {
          r := Err(IOFailure);
        }
      } else {
        r := Err(IOFailure);
      }
    }

    /** append(f, ...): the status of f, then create(f, ..., overwrite = false, ...). */
    method Append(f: string) returns (r: Result<string>)
      modifies remote
      ensures Step(remote.Now(), r) == Operations.Append(Environment(), old(remote.Now()), f)
    {
      var st := GetFileStatus(f);
      if st.Err? {
        return Err(st.failure);
      }
      r := Create(f, false);
    }

    /** open(f, bufferSize): a read stream over the open connection, for the file length the
        server answered with. `incoming` stands for the bytes the server will send on it. */
    method Open(f: string, incoming: seq<bv8>) returns (r: Result<AdamFSInputStream>)
      modifies remote
      ensures var spec := Operations.Open(Environment(), old(remote.Now()), f);
        && remote.Now() == spec.world
        && (r.Ok? <==> spec.result.Ok?)
        && (r.Err? ==> r.failure == spec.result.failure)
        && (r.Ok? ==> && fresh(r.value) && r.value.Valid()
                      && r.value.fileLength == spec.result.value && r.value.defaultName == defaultName
                      && r.value.position == 0 && r.value.incoming == incoming && r.value.sent == [])
    {
      var response := remote.RoundTrip(OpOpen, Absolute(f));
      match Decode(response)
      case None => r := Err(Fault);
      case Some(resp) =>
        if !Succeeded(resp) {
          r := Err(IOFailure);
        } else {
          match ParseLong(resp.data)
          case None => r := Err(Fault);
          case Some(n) =>
            var stream := new AdamFSInputStream(defaultName, incoming, n);
            r := Ok(stream);
        }
    }
  }
}
