/** The eight space-separated fields of a stat response and the FileStatus built from them. */
module FileStatusCodec {
  import opened Outcomes
  import opened JavaText

  /** FileStatus as getFileStatus builds it; the permission is carried as its text. */
  datatype FileStatus = FileStatus(
    length: int,
    isDir: bool,
    replication: int,
    blockSize: int,
    modTime: int,
    accessTime: int,
    permission: string,
    owner: string,
    group: string,
    path: string)

  /** The parse getFileStatus makes of the data of a successful stat response for path f:
      fields 0, 2, 3 and 4 are longs, field 1 is "1" for a directory, fields 5 to 7 are the
      permission, owner and group; fewer than eight fields or an unparsable number throws. */
  function ParseStatus(f: string, data: string): (r: Result<FileStatus>)
    ensures r.Err? ==> r.failure == Fault
    ensures r.Ok? ==> r.value.replication == 1 && r.value.path == f
  {
    var ps := Split(data);
    if |ps| < 8 then Err(Fault)
    else
      match ParseLongs([ps[0], ps[2], ps[3], ps[4]])
      case Some(ns) => Ok(FileStatus(ns[0], ps[1] == "1", 1, ns[1], ns[2], ns[3], ps[5], ps[6], ps[7], f))
      case None => Err(Fault)
  }

  /** The fields of a parsed status, each taken from its place in the field list: the status is
      built exactly when there are at least eight fields (later ones are ignored) and the four
      numbers parse. */
  lemma ParseStatusFields(f: string, data: string)
    ensures var ps := Split(data);
      var r := ParseStatus(f, data);
      && (r.Ok? <==> |ps| >= 8 && ParseLong(ps[0]).Some? && ParseLong(ps[2]).Some?
                     && ParseLong(ps[3]).Some? && ParseLong(ps[4]).Some?)
      && (r.Ok? ==> && Some(r.value.length) == ParseLong(ps[0])
                    && (r.value.isDir <==> ps[1] == "1")
                    && Some(r.value.blockSize) == ParseLong(ps[2])
                    && Some(r.value.modTime) == ParseLong(ps[3])
                    && Some(r.value.accessTime) == ParseLong(ps[4])
                    && r.value.permission == ps[5]
                    && r.value.owner == ps[6] && r.value.group == ps[7])
  {
    var ps := Split(data);
    if |ps| >= 8 {
      ParseLongsEach([ps[0], ps[2], ps[3], ps[4]]);
    }
  }

  /** The data a server sends for a status: the eight fields, space separated. */
  function FormatStatus(st: FileStatus): string
  {
    Join([DecimalString(st.length), if st.isDir then "1" else "0", DecimalString(st.blockSize),
          DecimalString(st.modTime), DecimalString(st.accessTime), st.permission, st.owner, st.group])
  }

  /** A status whose numbers are longs and whose text fields hold no space (the group not
      empty) is read back as itself, with replication 1 and the path that was asked for. */
  lemma ParseFormatStatus(st: FileStatus, f: string)
    requires IsLong(st.length) && IsLong(st.blockSize) && IsLong(st.modTime) && IsLong(st.accessTime)
    requires NoSpace(st.permission) && NoSpace(st.owner) && NoSpace(st.group) && st.group != ""
    ensures ParseStatus(f, FormatStatus(st)) == Ok(st.(replication := 1, path := f))
  {
    var fs := [DecimalString(st.length), if st.isDir then "1" else "0", DecimalString(st.blockSize),
               DecimalString(st.modTime), DecimalString(st.accessTime), st.permission, st.owner, st.group];
    forall i | 0 <= i < |fs| ensures NoSpace(fs[i]) {
      if i in {0, 2, 3, 4} {
        assert forall j :: 0 <= j < |fs[i]| ==> IsDigit(fs[i][j]) || fs[i][j] == '-';
      }
    }
    SplitOfJoin(fs);
    ParseLongsEach([fs[0], fs[2], fs[3], fs[4]]);
    ParseLongOfDecimal(st.length);
    ParseLongOfDecimal(st.blockSize);
    ParseLongOfDecimal(st.modTime);
    ParseLongOfDecimal(st.accessTime);
  }
}
