/** Properties of the filesystem operations that hold for every server. */
module OperationProperties {
  import opened Outcomes
  import opened JavaText
  import opened Paths
  import opened Wire
  import opened FileStatusCodec
  import opened Oracle
  import opened Operations

  // ------------------------------------------------------------------ getFileStatus

  /** A stat answered with status "1" and a well-formed field list yields exactly the status the
      server described, with replication 1 and the path asked for. */
  lemma StatOfWellFormedAnswer(env: Env, w: World, f: string, id: string, st: FileStatus)
    requires |id| == 2
    requires IsLong(st.length) && IsLong(st.blockSize) && IsLong(st.modTime) && IsLong(st.accessTime)
    requires NoSpace(st.permission) && NoSpace(st.owner) && NoSpace(st.group) && st.group != ""
    requires env.serve(w.store, StatLine(env, f)).1 == Some(Format(Response(id, "1", FormatStatus(st))))
    ensures Stat(env, w, f).result == Ok(st.(replication := 1, path := f))
    ensures Stat(env, w, f).world.sent == w.sent + [StatLine(env, f)]
  {
    DecodeFormat(Response(id, "1", FormatStatus(st)));
    ParseFormatStatus(st, f);
  }

  // ------------------------------------------------------------------ mkdirs

  /** mkdirs of a path that exists returns true after the stat alone: no mkdir request. */
  lemma MkdirsWhenPresent(env: Env, w: World, f: string)
    requires Stat(env, w, f).result.Ok?
    ensures Mkdirs(env, w, f) == Step(Stat(env, w, f).world, Ok(true))
    ensures Mkdirs(env, w, f).world.sent == w.sent + [StatLine(env, f)]
  {
  }

  /** mkdirs of a missing path sends one mkdir request right after the stat; a success answer
      is followed by a fresh existence check whose answer is the result, any other status
      gives false, and an unreadable answer is a runtime exception. */
  lemma MkdirsWhenAbsent(env: Env, w: World, f: string)
    requires Stat(env, w, f).result == Err(NotFound)
    ensures var x := Exchange(env.serve, Stat(env, w, f).world, OpMkdir, Abs(env, f));
      && x.world.sent == w.sent + [StatLine(env, f), Request(OpMkdir, Abs(env, f))]
      && (Accepted(x.result) ==> Mkdirs(env, w, f) == Exists(env, x.world, f))
      && (Decode(x.result).Some? && !Accepted(x.result) ==> Mkdirs(env, w, f) == Step(x.world, Ok(false)))
      && (Decode(x.result).None? ==> Mkdirs(env, w, f) == Step(x.world, Err(Fault)))
  {
  }

  /** mkdirs when the stat throws anything but FileNotFoundException: exists passes it on, and
      mkdirs throws it after the stat alone. */
  lemma MkdirsWhenStatThrows(env: Env, w: World, f: string)
    requires Stat(env, w, f).result.Err? && Stat(env, w, f).result != Err(NotFound)
    ensures Mkdirs(env, w, f) == Step(Stat(env, w, f).world, Err(Stat(env, w, f).result.failure))
    ensures Mkdirs(env, w, f).world.sent == w.sent + [StatLine(env, f)]
  {
  }

  /** A mkdir request goes out only for a path whose stat said it does not exist. */
  lemma MkdirsRequestOnlyWhenAbsent(env: Env, w: World, f: string)
    requires Request(OpMkdir, Abs(env, f)) in Mkdirs(env, w, f).world.sent[|w.sent|..]
    ensures Stat(env, w, f).result == Err(NotFound)
  {
    assert StatLine(env, f)[..2] == OpStat && Request(OpMkdir, Abs(env, f))[..2] == OpMkdir;
  }

  // ------------------------------------------------------------------ rename

  /** Every rename starts with the request "09" + src + ":" + dst (both made absolute). */
  lemma RenameFirstRequest(env: Env, w: World, src: string, dst: string, fuel: nat)
    requires fuel > 0
    ensures w.sent + [Request(OpRename, Abs(env, src) + ":" + Abs(env, dst))] <= Rename(env, w, src, dst, fuel).world.sent
  {
    var x := Exchange(env.serve, w, OpRename, RenamePayload(Abs(env, src), Abs(env, dst)));
    assert Rename(env, w, src, dst, fuel) == RenameAnswered(env, x, src, dst, fuel);
    RenameAnsweredSentGrows(env, x, src, dst, fuel);
  }

  /** rename only adds to the request log: what was sent before is a prefix of what was sent after. */
  lemma {:induction false} RenameSentGrows(env: Env, w: World, src: string, dst: string, fuel: nat)
    ensures w.sent <= Rename(env, w, src, dst, fuel).world.sent
    decreases fuel, 2
  {
    if fuel > 0 {
      var x := Exchange(env.serve, w, OpRename, RenamePayload(Abs(env, src), Abs(env, dst)));
      assert Rename(env, w, src, dst, fuel) == RenameAnswered(env, x, src, dst, fuel);
      RenameAnsweredSentGrows(env, x, src, dst, fuel);
      SentPrefixTrans(w.sent, x.world.sent, Rename(env, w, src, dst, fuel).world.sent);
    }
  }

  lemma {:induction false} RenameAnsweredSentGrows(env: Env, x: Step<Option<string>>, src: string, dst: string, fuel: nat)
    requires fuel > 0
    ensures x.world.sent <= RenameAnswered(env, x, src, dst, fuel).world.sent
    decreases fuel, 1
  {
    if Decode(x.result).Some? && !Accepted(x.result) {
      var st := Stat(env, x.world, dst);
      assert RenameAnswered(env, x, src, dst, fuel) == RenameIntoDirectory(env, st, src, Child(dst, Name(src)), fuel);
      RenameIntoDirectorySentGrows(env, st, src, Child(dst, Name(src)), fuel);
      SentPrefixTrans(x.world.sent, st.world.sent, RenameAnswered(env, x, src, dst, fuel).world.sent);
    }
  }

  lemma {:induction false} RenameIntoDirectorySentGrows(env: Env, st: Step<Result<FileStatus>>, src: string, into: string, fuel: nat)
    requires fuel > 0
    ensures st.world.sent <= RenameIntoDirectory(env, st, src, into, fuel).world.sent
    decreases fuel, 0
  {
    if st.result.Ok? && st.result.value.isDir {
      RenameSentGrows(env, st.world, src, into, fuel - 1);
    }
  }

  /** Being a prefix is transitive. */
  lemma SentPrefixTrans(a: seq<string>, b: seq<string>, c: seq<string>)
    requires a <= b && b <= c
    ensures a <= c
  {
    assert c[..|a|] == c[..|b|][..|a|];
  }

  /** rename returns true at once on a success answer, and throws a runtime exception on an
      unreadable one; on any other status it asks for the status of dst: a directory means the
      result of renaming src to dst/name(src), a file means false, and a missing dst means
      FileNotFound is thrown. */
  lemma RenameOutcome(env: Env, w: World, src: string, dst: string, fuel: nat)
    requires fuel > 0
    ensures var x := Exchange(env.serve, w, OpRename, RenamePayload(Abs(env, src), Abs(env, dst)));
      var st := Stat(env, x.world, dst);
      var r := Rename(env, w, src, dst, fuel);
      && (Accepted(x.result) ==> r == Step(x.world, Ok(true)))
      && (Decode(x.result).None? ==> r == Step(x.world, Err(Fault)))
      && (Decode(x.result).Some? && !Accepted(x.result) ==>
            && (st.result.Err? ==> r == Step(st.world, Err(st.result.failure)))
            && (st.result.Ok? && st.result.value.isDir ==> r == Rename(env, st.world, src, Child(dst, Name(src)), fuel - 1))
            && (st.result.Ok? && !st.result.value.isDir ==> r == Step(st.world, Ok(false))))
  {
    var x := Exchange(env.serve, w, OpRename, RenamePayload(Abs(env, src), Abs(env, dst)));
    assert Rename(env, w, src, dst, fuel) == RenameAnswered(env, x, src, dst, fuel);
    if Decode(x.result).Some? && !Accepted(x.result) {
      var st := Stat(env, x.world, dst);
      assert RenameAnswered(env, x, src, dst, fuel) == RenameIntoDirectory(env, st, src, Child(dst, Name(src)), fuel);
    }
  }

  /** The fuel bound only cuts off a runaway chain of retries: a rename that finishes within some
      fuel gives the same world and result with any more fuel. */
  lemma {:induction false} RenameFuelEnough(env: Env, w: World, src: string, dst: string, fuel: nat, more: nat)
    requires Rename(env, w, src, dst, fuel).result != Err(Diverged)
    requires fuel <= more
    ensures Rename(env, w, src, dst, more) == Rename(env, w, src, dst, fuel)
    decreases fuel, 2
  {
    var x := Exchange(env.serve, w, OpRename, RenamePayload(Abs(env, src), Abs(env, dst)));
    assert Rename(env, w, src, dst, fuel) == RenameAnswered(env, x, src, dst, fuel);
    assert Rename(env, w, src, dst, more) == RenameAnswered(env, x, src, dst, more);
    RenameAnsweredFuelEnough(env, x, src, dst, fuel, more);
  }

  lemma {:induction false} RenameAnsweredFuelEnough(env: Env, x: Step<Option<string>>, src: string, dst: string, fuel: nat, more: nat)
    requires 0 < fuel <= more
    requires RenameAnswered(env, x, src, dst, fuel).result != Err(Diverged)
    ensures RenameAnswered(env, x, src, dst, more) == RenameAnswered(env, x, src, dst, fuel)
    decreases fuel, 1
  {
    if Decode(x.result).Some? && !Accepted(x.result) {
      var st := Stat(env, x.world, dst);
      assert RenameAnswered(env, x, src, dst, fuel) == RenameIntoDirectory(env, st, src, Child(dst, Name(src)), fuel);
      assert RenameAnswered(env, x, src, dst, more) == RenameIntoDirectory(env, st, src, Child(dst, Name(src)), more);
      RenameIntoDirectoryFuelEnough(env, st, src, Child(dst, Name(src)), fuel, more);
    }
  }

  lemma {:induction false} RenameIntoDirectoryFuelEnough(env: Env, st: Step<Result<FileStatus>>, src: string, into: string, fuel: nat, more: nat)
    requires 0 < fuel <= more
    requires RenameIntoDirectory(env, st, src, into, fuel).result != Err(Diverged)
    ensures RenameIntoDirectory(env, st, src, into, more) == RenameIntoDirectory(env, st, src, into, fuel)
    decreases fuel, 0
  {
    if st.result.Ok? && st.result.value.isDir {
      assert RenameIntoDirectory(env, st, src, into, fuel) == Rename(env, st.world, src, into, fuel - 1);
      assert RenameIntoDirectory(env, st, src, into, more) == Rename(env, st.world, src, into, more - 1);
      RenameFuelEnough(env, st.world, src, into, fuel - 1, more - 1);
    }
  }

  // ------------------------------------------------------------------ delete

  /** A path whose stat throws is not deleted: false, after the stat alone. */
  lemma DeleteWhenStatFails(env: Env, w: World, f: string, fuel: nat)
    requires fuel > 0 && Stat(env, w, f).result.Err?
    ensures Delete(env, w, f, fuel) == Step(Stat(env, w, f).world, Ok(false))
    ensures Delete(env, w, f, fuel).world.sent == w.sent + [StatLine(env, f)]
  {
    assert Delete(env, w, f, fuel) == DeleteStatted(env, Stat(env, w, f), Abs(env, f), fuel);
  }

  /** A plain file is deleted by exactly one delete request after the stat; the result is
      whether the answer's status was "1". */
  lemma DeletePlainFile(env: Env, w: World, f: string, fuel: nat)
    requires fuel > 0 && Stat(env, w, f).result.Ok? && !Stat(env, w, f).result.value.isDir
    ensures var x := Exchange(env.serve, Stat(env, w, f).world, OpDelete, Abs(env, f));
      && Delete(env, w, f, fuel).world.sent == w.sent + [StatLine(env, f), Request(OpDelete, Abs(env, f))]
      && Delete(env, w, f, fuel).result == Ok(Decode(x.result).Some? && Decode(x.result).value.status == "1")
  {
    assert Delete(env, w, f, fuel) == DeleteStatted(env, Stat(env, w, f), Abs(env, f), fuel);
  }

  /** A directory whose listing succeeds empty is removed by one delete request; the result is
      false only when the answer's status is exactly "0" (or the answer is unreadable). */
  lemma DeleteEmptyDirectory(env: Env, w: World, f: string, fuel: nat)
    requires fuel > 0 && Stat(env, w, f).result.Ok? && Stat(env, w, f).result.value.isDir
    requires var x := Exchange(env.serve, Stat(env, w, f).world, OpList, Abs(env, f));
      Accepted(x.result) && Decode(x.result).value.data == ""
    ensures var x := Exchange(env.serve, Stat(env, w, f).world, OpList, Abs(env, f));
      var y := Exchange(env.serve, x.world, OpDelete, Abs(env, f));
      && Delete(env, w, f, fuel).world.sent
           == w.sent + [StatLine(env, f), Request(OpList, Abs(env, f)), Request(OpDelete, Abs(env, f))]
      && Delete(env, w, f, fuel).result == Ok(Decode(y.result).Some? && Decode(y.result).value.status != "0")
  {
    var st := Stat(env, w, f);
    var x := Exchange(env.serve, st.world, OpList, Abs(env, f));
    assert Delete(env, w, f, fuel) == DeleteStatted(env, st, Abs(env, f), fuel);
    assert DeleteStatted(env, st, Abs(env, f), fuel) == DeleteListed(env, x, Abs(env, f), fuel);
  }

  /** A directory whose listing answer is unreadable or not a success is not deleted: false,
      after the stat and the listing request (the NullPointerException or
      StringIndexOutOfBoundsException of an unreadable answer is caught as well). */
  lemma DeleteFailedListing(env: Env, w: World, f: string, fuel: nat)
    requires fuel > 0 && Stat(env, w, f).result.Ok? && Stat(env, w, f).result.value.isDir
    requires !Accepted(Exchange(env.serve, Stat(env, w, f).world, OpList, Abs(env, f)).result)
    ensures Delete(env, w, f, fuel).result == Ok(false)
    ensures Delete(env, w, f, fuel).world.sent == w.sent + [StatLine(env, f), Request(OpList, Abs(env, f))]
  {
    var st := Stat(env, w, f);
    var x := Exchange(env.serve, st.world, OpList, Abs(env, f));
    assert Delete(env, w, f, fuel) == DeleteStatted(env, st, Abs(env, f), fuel);
    assert DeleteStatted(env, st, Abs(env, f), fuel) == DeleteListed(env, x, Abs(env, f), fuel);
    assert DeleteListed(env, x, Abs(env, f), fuel) == Step(x.world, Ok(false));
  }

  /** A directory whose listing succeeds with names is emptied child by child (each child's path
      is the directory's path, '/', the name), and then delete runs again on the directory. */
  lemma DeleteNonEmptyDirectory(env: Env, w: World, f: string, fuel: nat)
    requires fuel > 0 && Stat(env, w, f).result.Ok? && Stat(env, w, f).result.value.isDir
    requires var x := Exchange(env.serve, Stat(env, w, f).world, OpList, Abs(env, f));
      Accepted(x.result) && Decode(x.result).value.data != ""
    ensures var x := Exchange(env.serve, Stat(env, w, f).world, OpList, Abs(env, f));
      var done := DeleteChildren(env, x.world, Abs(env, f), Split(Decode(x.result).value.data), fuel);
      && x.world.sent == w.sent + [StatLine(env, f), Request(OpList, Abs(env, f))]
      && (done.result.Ok? ==> Delete(env, w, f, fuel) == Delete(env, done.world, Qualify(Abs(env, f)), fuel - 1))
  {
    var st := Stat(env, w, f);
    var x := Exchange(env.serve, st.world, OpList, Abs(env, f));
    var done := DeleteChildren(env, x.world, Abs(env, f), Split(Decode(x.result).value.data), fuel);
    assert Delete(env, w, f, fuel) == DeleteStatted(env, st, Abs(env, f), fuel);
    assert DeleteStatted(env, st, Abs(env, f), fuel) == DeleteListed(env, x, Abs(env, f), fuel);
    assert DeleteListed(env, x, Abs(env, f), fuel) == DeleteAgain(env, done, Abs(env, f), fuel);
  }

  /** The loop over the children deletes child i at the qualified path + "/" + name i, one level
      deeper, on the world the children before it left, once they all returned. */
  lemma DeleteChildrenOrder(env: Env, w: World, path: string, names: seq<string>, fuel: nat, i: nat)
    requires fuel > 0 && i < |names|
    ensures var before := DeleteChildren(env, w, path, names[..i], fuel);
      var r := Delete(env, before.world, Qualify(Child(path, names[i])), fuel - 1);
      before.result.Ok? ==>
        DeleteChildren(env, w, path, names[..i + 1], fuel)
          == Step(r.world, if r.result.Err? then Err(r.result.failure) else Ok(()))
  {
    assert names[..i + 1][..i] == names[..i];
    assert names[..i + 1][i] == names[i];
  }

  /** delete never throws an Exception: it returns a boolean, unless the recursion runs away. */
  lemma {:induction false} DeleteNeverThrows(env: Env, w: World, f: string, fuel: nat)
    ensures Delete(env, w, f, fuel).result.Ok? || Delete(env, w, f, fuel).result == Err(Diverged)
    decreases fuel, 3, 0
  {
    if fuel > 0 {
      var st := Stat(env, w, f);
      assert Delete(env, w, f, fuel) == DeleteStatted(env, st, Abs(env, f), fuel);
      DeleteStattedNeverThrows(env, st, Abs(env, f), fuel);
    }
  }

  lemma {:induction false} DeleteStattedNeverThrows(env: Env, st: Step<Result<FileStatus>>, path: string, fuel: nat)
    requires fuel > 0
    ensures var r := DeleteStatted(env, st, path, fuel); r.result.Ok? || r.result == Err(Diverged)
    decreases fuel, 2, 0
  {
    if st.result.Ok? && st.result.value.isDir {
      var x := Exchange(env.serve, st.world, OpList, path);
      assert DeleteStatted(env, st, path, fuel) == DeleteListed(env, x, path, fuel);
      DeleteListedNeverThrows(env, x, path, fuel);
    }
  }

  lemma {:induction false} DeleteListedNeverThrows(env: Env, x: Step<Option<string>>, path: string, fuel: nat)
    requires fuel > 0
    ensures var r := DeleteListed(env, x, path, fuel); r.result.Ok? || r.result == Err(Diverged)
    decreases fuel, 1, 0
  {
    if Accepted(x.result) && Decode(x.result).value.data != "" {
      var names := Split(Decode(x.result).value.data);
      var done := DeleteChildren(env, x.world, path, names, fuel);
      assert DeleteListed(env, x, path, fuel) == DeleteAgain(env, done, path, fuel);
      DeleteChildrenNeverThrows(env, x.world, path, names, fuel);
      if done.result.Ok? {
        DeleteNeverThrows(env, done.world, Qualify(path), fuel - 1);
      }
    }
  }

  lemma {:induction false} DeleteChildrenNeverThrows(env: Env, w: World, path: string, names: seq<string>, fuel: nat)
    requires fuel > 0
    ensures var done := DeleteChildren(env, w, path, names, fuel);
      done.result.Ok? || done.result == Err(Diverged)
    decreases fuel, 0, |names|
  {
    if names != [] {
      var front := names[..|names| - 1];
      DeleteChildrenNeverThrows(env, w, path, front, fuel);
      var done := DeleteChildren(env, w, path, front, fuel);
      if done.result.Ok? {
        DeleteNeverThrows(env, done.world, Qualify(Child(path, names[|names| - 1])), fuel - 1);
      }
    }
  }

  /** The fuel bound only cuts off runaway recursion: a delete that finishes within some fuel
      gives the same world and result with any more fuel. */
  lemma {:induction false} DeleteFuelEnough(env: Env, w: World, f: string, fuel: nat, more: nat)
    requires Delete(env, w, f, fuel).result != Err(Diverged)
    requires fuel <= more
    ensures Delete(env, w, f, more) == Delete(env, w, f, fuel)
    decreases fuel, 3, 0
  {
    var st := Stat(env, w, f);
    assert Delete(env, w, f, fuel) == DeleteStatted(env, st, Abs(env, f), fuel);
    assert Delete(env, w, f, more) == DeleteStatted(env, st, Abs(env, f), more);
    DeleteStattedFuelEnough(env, st, Abs(env, f), fuel, more);
  }

  lemma {:induction false} DeleteStattedFuelEnough(env: Env, st: Step<Result<FileStatus>>, path: string, fuel: nat, more: nat)
    requires 0 < fuel <= more
    requires DeleteStatted(env, st, path, fuel).result != Err(Diverged)
    ensures DeleteStatted(env, st, path, more) == DeleteStatted(env, st, path, fuel)
    decreases fuel, 2, 0
  {
    if st.result.Ok? && st.result.value.isDir {
      var x := Exchange(env.serve, st.world, OpList, path);
      assert DeleteStatted(env, st, path, fuel) == DeleteListed(env, x, path, fuel);
      assert DeleteStatted(env, st, path, more) == DeleteListed(env, x, path, more);
      DeleteListedFuelEnough(env, x, path, fuel, more);
    }
  }

  lemma {:induction false} DeleteListedFuelEnough(env: Env, x: Step<Option<string>>, path: string, fuel: nat, more: nat)
    requires 0 < fuel <= more
    requires DeleteListed(env, x, path, fuel).result != Err(Diverged)
    ensures DeleteListed(env, x, path, more) == DeleteListed(env, x, path, fuel)
    decreases fuel, 1, 0
  {
    if Accepted(x.result) && Decode(x.result).value.data != "" {
      var names := Split(Decode(x.result).value.data);
      var done := DeleteChildren(env, x.world, path, names, fuel);
      assert DeleteListed(env, x, path, fuel) == DeleteAgain(env, done, path, fuel);
      assert DeleteListed(env, x, path, more) == DeleteAgain(env, DeleteChildren(env, x.world, path, names, more), path, more);
      DeleteChildrenNeverThrows(env, x.world, path, names, fuel);
      DeleteChildrenFuelEnough(env, x.world, path, names, fuel, more);
      DeleteFuelEnough(env, done.world, Qualify(path), fuel - 1, more - 1);
    }
  }

  lemma {:induction false} DeleteChildrenFuelEnough(env: Env, w: World, path: string, names: seq<string>, fuel: nat, more: nat)
    requires 0 < fuel <= more
    requires DeleteChildren(env, w, path, names, fuel).result != Err(Diverged)
    ensures DeleteChildren(env, w, path, names, more) == DeleteChildren(env, w, path, names, fuel)
    decreases fuel, 0, |names|
  {
    if names != [] {
      var front := names[..|names| - 1];
      var child := Qualify(Child(path, names[|names| - 1]));
      var done := DeleteChildren(env, w, path, front, fuel);
      DeleteChildrenNeverThrows(env, w, path, front, fuel);
      DeleteChildrenFuelEnough(env, w, path, front, fuel, more);
      DeleteNeverThrows(env, done.world, child, fuel - 1);
      DeleteFuelEnough(env, done.world, child, fuel - 1, more - 1);
    }
  }

  // ------------------------------------------------------------------ listStatus

  /** listStatus of a path that is not a directory is the one-element listing of its own status,
      after the stat alone. */
  lemma ListStatusOfFile(env: Env, w: World, f: string)
    requires Stat(env, w, f).result.Ok? && !Stat(env, w, f).result.value.isDir
    ensures ListStatus(env, w, f) == Step(Stat(env, w, f).world, [Stat(env, w, f).result.value])
    ensures ListStatus(env, w, f).world.sent == w.sent + [StatLine(env, f)]
  {
  }

  /** A stat that throws, a listing answer that is unreadable or not a success, or a child's
      stat that throws, gives the empty listing: every exception inside the try is caught. */
  lemma ListStatusFailure(env: Env, w: World, f: string)
    requires var st := Stat(env, w, f);
      var x := Exchange(env.serve, st.world, OpList, Abs(env, f));
      || st.result.Err?
      || (st.result.value.isDir && !Accepted(x.result))
      || (st.result.value.isDir && Accepted(x.result)
          && StatAll(env, x.world, Abs(env, f), Split(Decode(x.result).value.data)).result.Err?)
    ensures ListStatus(env, w, f).result == []
  {
  }

  /** Listing a directory, when no child's stat throws, gives one entry per listed name, in the
      listing's order: entry i is what the stat of directory + "/" + name i returned, asked after
      the stats of the names before it. The requests are the stat of f, the listing, then one stat
      per name. */
  lemma ListStatusOfDirectory(env: Env, w: World, f: string)
    requires Stat(env, w, f).result.Ok? && Stat(env, w, f).result.value.isDir
    requires Accepted(Exchange(env.serve, Stat(env, w, f).world, OpList, Abs(env, f)).result)
    ensures var x := Exchange(env.serve, Stat(env, w, f).world, OpList, Abs(env, f));
      var path := Abs(env, f);
      var names := Split(Decode(x.result).value.data);
      var listing := ListStatus(env, w, f).result;
      var sent := ListStatus(env, w, f).world.sent;
      StatAll(env, x.world, path, names).result.Ok? ==>
        && |listing| == |names|
        && (forall i :: 0 <= i < |names| ==>
              Stat(env, StatAll(env, x.world, path, names[..i]).world, Qualify(Child(path, names[i]))).result
                == Ok(listing[i]))
        && sent == w.sent + [StatLine(env, f), Request(OpList, path)] + StatLines(env, path, names)
  {
    var st := Stat(env, w, f);
    var path := Abs(env, f);
    var x := Exchange(env.serve, st.world, OpList, path);
    var names := Split(Decode(x.result).value.data);
    var all := StatAll(env, x.world, path, names);
    if all.result.Ok? {
      assert ListStatus(env, w, f) == Step(all.world, all.result.value) by {
        assert ListStatus(env, w, f) == ListListed(env, x, path);
      }
      StatAllPaths(env, x.world, path, names);
      StatAllLog(env, x.world, path, names);
      assert x.world.sent == w.sent + [StatLine(env, f), Request(OpList, path)];
    }
  }

  /** The loop of listStatus, when no stat throws: one status per name, entry i for the path
      directory + "/" + name i, and it is what the stat of that path returned once the names
      before it had been asked for. */
  lemma StatAllPaths(env: Env, w: World, path: string, names: seq<string>)
    ensures var all := StatAll(env, w, path, names).result;
      all.Ok? ==> && |all.value| == |names|
                  && (forall i :: 0 <= i < |names| ==> all.value[i].path == Qualify(Child(path, names[i])))
                  && (forall i :: 0 <= i < |names| ==>
                        Stat(env, StatAll(env, w, path, names[..i]).world, Qualify(Child(path, names[i]))).result
                          == Ok(all.value[i]))
  {
    if StatAll(env, w, path, names).result.Ok? {
      StatAllLength(env, w, path, names);
      forall i | 0 <= i < |names|
        ensures StatAll(env, w, path, names).result.value[i].path == Qualify(Child(path, names[i]))
        ensures Stat(env, StatAll(env, w, path, names[..i]).world, Qualify(Child(path, names[i]))).result
             == Ok(StatAll(env, w, path, names).result.value[i])
      {
        StatAllEntry(env, w, path, names, i);
      }
    }
  }

  /** When no stat throws, the loop gives one status per name and sends one request per name,
      after the requests already made. */
  lemma {:induction false} StatAllLength(env: Env, w: World, path: string, names: seq<string>)
    ensures var r := StatAll(env, w, path, names);
      r.result.Ok? ==> |r.result.value| == |names| && w.sent <= r.world.sent && |r.world.sent| == |w.sent| + |names|
    decreases |names|
  {
    if names != [] && StatAll(env, w, path, names).result.Ok? {
      var st := Stat(env, w, Qualify(Child(path, names[0])));
      StatAllStep(env, w, path, names);
      StatAllLength(env, st.world, path, names[1..]);
    }
  }

  /** One turn of the loop: a stat that throws ends it; otherwise the loop goes on from the
      stat's world, and the status comes first in what it gathers. */
  lemma StatAllStep(env: Env, w: World, path: string, names: seq<string>)
    requires names != []
    ensures var child := Qualify(Child(path, names[0]));
      var st := Stat(env, w, child);
      var rest := StatAll(env, st.world, path, names[1..]);
      var r := StatAll(env, w, path, names);
      && st.world.sent == w.sent + [StatLine(env, child)]
      && (st.result.Err? ==> r.result.Err?)
      && (st.result.Ok? ==> r.world == rest.world && r.result.Ok? == rest.result.Ok?)
      && (st.result.Ok? && rest.result.Ok? ==> r.result.value == [st.result.value] + rest.result.value)
  {
    assert StatAll(env, w, path, names) == StatThen(env, w, Qualify(Child(path, names[0])), path, names[1..]);
  }

  /** Entry i of the loop's result, when no stat throws: the status of directory + "/" + name i,
      as the stat of that path answered after the names before it. */
  lemma {:induction false} StatAllEntry(env: Env, w: World, path: string, names: seq<string>, i: nat)
    requires i < |names| && StatAll(env, w, path, names).result.Ok?
    ensures |StatAll(env, w, path, names).result.value| == |names|
    ensures StatAll(env, w, path, names).result.value[i].path == Qualify(Child(path, names[i]))
    ensures Stat(env, StatAll(env, w, path, names[..i]).world, Qualify(Child(path, names[i]))).result
         == Ok(StatAll(env, w, path, names).result.value[i])
    decreases i
  {
    StatAllLength(env, w, path, names);
    StatAllStep(env, w, path, names);
    var st := Stat(env, w, Qualify(Child(path, names[0])));
    if i == 0 {
      assert names[..0] == [];
    } else {
      StatAllEntry(env, st.world, path, names[1..], i - 1);
      assert names[i] == names[1..][i - 1];
      StatAllPrefixWorld(env, w, path, names, i);
    }
  }

  /** Past a first stat that returns, the world after the first i names is the world after the
      next i - 1 names from there. */
  lemma StatAllPrefixWorld(env: Env, w: World, path: string, names: seq<string>, i: nat)
    requires 0 < i <= |names| && Stat(env, w, Qualify(Child(path, names[0]))).result.Ok?
    ensures StatAll(env, w, path, names[..i]).world
         == StatAll(env, Stat(env, w, Qualify(Child(path, names[0]))).world, path, names[1..][..i - 1]).world
  {
    assert names[..i][0] == names[0];
    assert names[..i][1..] == names[1..][..i - 1];
    StatAllStep(env, w, path, names[..i]);
  }

  /** The loop of listStatus, when no stat throws, sends exactly one stat request per name, in
      the listing's order, after the requests already made. */
  lemma StatAllRequests(env: Env, w: World, path: string, names: seq<string>)
    ensures var r := StatAll(env, w, path, names);
      r.result.Ok? ==> && w.sent <= r.world.sent
                       && |r.world.sent| == |w.sent| + |names|
                       && forall i :: 0 <= i < |names| ==>
                            r.world.sent[|w.sent| + i] == StatLine(env, Qualify(Child(path, names[i])))
  {
    var r := StatAll(env, w, path, names);
    if r.result.Ok? {
      StatAllLog(env, w, path, names);
      forall i | 0 <= i < |names|
        ensures r.world.sent[|w.sent| + i] == StatLine(env, Qualify(Child(path, names[i])))
      {
        StatLinesAt(env, path, names, i);
      }
    }
  }

  /** The stat requests for the given names, in order: entry i is the stat of
      directory + "/" + name i (StatLinesAt). */
  function StatLines(env: Env, path: string, names: seq<string>): (lines: seq<string>)
    ensures |lines| == |names|
  {
    if names == [] then [] else [StatLine(env, Qualify(Child(path, names[0])))] + StatLines(env, path, names[1..])
  }

  lemma {:induction false} StatLinesAt(env: Env, path: string, names: seq<string>, i: nat)
    requires i < |names|
    ensures StatLines(env, path, names)[i] == StatLine(env, Qualify(Child(path, names[i])))
    decreases i
  {
    if i > 0 {
      StatLinesAt(env, path, names[1..], i - 1);
      assert names[i] == names[1..][i - 1];
    }
  }

  /** When no stat throws, the loop adds exactly the stat requests of the names to the log. */
  lemma {:induction false} StatAllLog(env: Env, w: World, path: string, names: seq<string>)
    ensures var r := StatAll(env, w, path, names);
      r.result.Ok? ==> r.world.sent == w.sent + StatLines(env, path, names)
    decreases |names|
  {
    if names != [] && StatAll(env, w, path, names).result.Ok? {
      var child := Qualify(Child(path, names[0]));
      StatAllStep(env, w, path, names);
      StatAllLog(env, Stat(env, w, child).world, path, names[1..]);
      assert w.sent + [StatLine(env, child)] + StatLines(env, path, names[1..])
          == w.sent + StatLines(env, path, names);
    }
  }


  // ------------------------------------------------------------------ create, append, open

  /** create on an existing directory, or on an existing file without `overwrite`, fails after
      its two stats, before any create or write request. */
  lemma CreateRefusesExisting(env: Env, w: World, f: string, overwrite: bool)
    requires var st1 := Stat(env, w, f);
      var st2 := Stat(env, st1.world, f);
      st1.result.Ok? && st2.result.Ok? && (st2.result.value.isDir || !overwrite)
    ensures Create(env, w, f, overwrite).result == Err(IOFailure)
    ensures Create(env, w, f, overwrite).world.sent == w.sent + [StatLine(env, f), StatLine(env, f)]
  {
  }

  /** create when the first stat throws something other than FileNotFoundException: exists
      passes it on, and create throws it. */
  lemma CreateWhenStatThrows(env: Env, w: World, f: string, overwrite: bool)
    requires Stat(env, w, f).result.Err? && Stat(env, w, f).result != Err(NotFound)
    ensures Create(env, w, f, overwrite) == Step(Stat(env, w, f).world, Err(Stat(env, w, f).result.failure))
  {
  }

  /** create when exists finds the file but the second getFileStatus throws: create throws that,
      after exactly the two stats. */
  lemma CreateWhenSecondStatThrows(env: Env, w: World, f: string, overwrite: bool)
    requires Stat(env, w, f).result.Ok? && Stat(env, Stat(env, w, f).world, f).result.Err?
    ensures Create(env, w, f, overwrite).result == Err(Stat(env, Stat(env, w, f).world, f).result.failure)
    ensures Create(env, w, f, overwrite).world.sent == w.sent + [StatLine(env, f), StatLine(env, f)]
  {
  }

  /** create over an existing file with `overwrite`: two stats, then the write-setup request;
      the result is the absolute path when that answer reads "1". */
  lemma CreateOverwrites(env: Env, w: World, f: string)
    requires var st1 := Stat(env, w, f);
      var st2 := Stat(env, st1.world, f);
      st1.result.Ok? && st2.result.Ok? && !st2.result.value.isDir
    ensures var st2 := Stat(env, Stat(env, w, f).world, f);
      var y := Exchange(env.serve, st2.world, OpWrite, Abs(env, f));
      && Create(env, w, f, true).world.sent == w.sent + [StatLine(env, f), StatLine(env, f), Request(OpWrite, Abs(env, f))]
      && Create(env, w, f, true).result
           == if Decode(y.result).None? then Err(Fault)
              else if Succeeded(Decode(y.result).value) then Ok(Abs(env, f)) else Err(IOFailure)
  {
  }

  /** create of a missing file: after the stat, mkdirs of the qualified parent (when there is
      one); false from it throws IOException. Then the create request "05"; an answer that is not
      "1" throws IOException. Then the write-setup request "06", whose "1" answer gives the
      absolute path and any other answer IOException. */
  lemma CreateNewFile(env: Env, w: World, f: string, overwrite: bool)
    requires Stat(env, w, f).result == Err(NotFound)
    ensures var st := Stat(env, w, f);
      var abs := Abs(env, f);
      var made := if Parent(abs).None? then Step(st.world, Ok(true)) else Mkdirs(env, st.world, Qualify(Parent(abs).value));
      var x := Exchange(env.serve, made.world, OpCreate, abs);
      var y := Exchange(env.serve, x.world, OpWrite, abs);
      var r := Create(env, w, f, overwrite);
      && (made.result.Err? ==> r == Step(made.world, Err(made.result.failure)))
      && (made.result == Ok(false) ==> r == Step(made.world, Err(IOFailure)))
      && (made.result == Ok(true) && Decode(x.result).None? ==> r == Step(x.world, Err(Fault)))
      && (made.result == Ok(true) && Decode(x.result).Some? && !Succeeded(Decode(x.result).value) ==>
            r == Step(x.world, Err(IOFailure)))
      && (made.result == Ok(true) && Accepted(x.result) ==>
            && r.world.sent == made.world.sent + [Request(OpCreate, abs), Request(OpWrite, abs)]
            && r.result == if Decode(y.result).None? then Err(Fault)
                           else if Succeeded(Decode(y.result).value) then Ok(abs) else Err(IOFailure))
  {
  }

  /** append can only succeed against a server whose two stats of the same path disagree: when
      stats leave the store alone, append always fails. */
  lemma AppendNeverSucceeds(env: Env, w: World, f: string)
    requires forall s: Store :: env.serve(s, StatLine(env, f)).0 == s
    ensures Append(env, w, f).result.Err?
  {
    var st := Stat(env, w, f);
    assert StatLine(env, f) == Request(OpStat, Abs(env, f));
    if st.result.Ok? {
      assert st.world.store == w.store;
      var st2 := Stat(env, st.world, f);
      assert st2.world.store == w.store;
      assert st2.result == st.result;
    }
  }

  /** open answered with status "1" and a decimal long gives that long as the file length. */
  lemma OpenOfLengthAnswer(env: Env, w: World, f: string, id: string, n: int)
    requires |id| == 2 && IsLong(n)
    requires env.serve(w.store, Request(OpOpen, Abs(env, f))).1 == Some(Format(Response(id, "1", DecimalString(n))))
    ensures Open(env, w, f).result == Ok(n)
    ensures Open(env, w, f).world.sent == w.sent + [Request(OpOpen, Abs(env, f))]
  {
    DecodeFormat(Response(id, "1", DecimalString(n)));
    ParseLongOfDecimal(n);
  }
}
