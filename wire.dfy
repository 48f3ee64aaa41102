/** The adamfs line protocol: request lines are a two-digit opcode followed directly by the
    payload; response lines are a two-character id, a one-character status, then data. */
module Wire {
  import opened Outcomes

  const OpStat: string := "01"
  const OpList: string := "02"
  const OpDelete: string := "03"
  const OpMkdir: string := "04"
  const OpCreate: string := "05"
  const OpWrite: string := "06"
  const OpOpen: string := "07"
  const OpRename: string := "09"

  /** send_command: the request line is the opcode immediately followed by the payload. */
  function Request(opcode: string, payload: string): string
  {
    opcode + payload
  }

  /** How the server reads a request line: the first two characters are the opcode. */
  function ParseRequest(line: string): Option<(string, string)>
  {
    if |line| < 2 then None else Some((line[..2], line[2..]))
  }

  /** A two-character opcode and any payload survive the trip through a request line. */
  lemma RequestRoundTrip(opcode: string, payload: string)
    requires |opcode| == 2
    ensures ParseRequest(Request(opcode, payload)) == Some((opcode, payload))
  {
  }

  /** The payload of a rename request: source and destination separated by one ':'. */
  function RenamePayload(src: string, dst: string): (p: string)
    ensures |p| == |src| + 1 + |dst|
    ensures p[..|src|] == src && p[|src|] == ':' && p[|src| + 1..] == dst
  {
    src + ":" + dst
  }

  /** The index of the first occurrence of c in s, or |s| when there is none. */
  function IndexOf(s: string, c: char): (i: nat)
    ensures i <= |s| && (i < |s| ==> s[i] == c)
    ensures forall j :: 0 <= j < i ==> s[j] != c
  {
    if |s| == 0 then 0 else if s[0] == c then 0 else 1 + IndexOf(s[1..], c)
  }

  /** The server's reading of a rename payload: split at the first ':'. */
  function SplitRename(p: string): Option<(string, string)>
  {
    var i := IndexOf(p, ':');
    if i == |p| then None else Some((p[..i], p[i + 1..]))
  }

  /** A source path without a ':' and any destination survive the trip through a rename payload. */
  lemma RenamePayloadRoundTrip(src: string, dst: string)
    requires ':' !in src
    ensures SplitRename(RenamePayload(src, dst)) == Some((src, dst))
  {
    var p := RenamePayload(src, dst);
    assert IndexOf(p, ':') == |src|;
  }

  datatype Response = Response(id: string, status: string, data: string)

  /** The response slicing every operation performs: substring(0, 2), substring(2, 3) and the
      rest. A missing line (readLine gave null) or one shorter than three characters makes the
      slicing throw; that is None here. */
  function Decode(line: Option<string>): (r: Option<Response>)
    ensures r.Some? <==> line.Some? && |line.value| >= 3
    ensures r.Some? ==> |r.value.id| == 2 && |r.value.status| == 1
    ensures r.Some? ==> r.value.id + r.value.status + r.value.data == line.value
  {
    match line
    case None => None
    case Some(s) =>
      if |s| < 3 then None
      else
        assert s[..2] + s[2..3] + s[3..] == s;
        Some(Response(s[..2], s[2..3], s[3..]))
  }

  /** The line a server writes for a response. */
  function Format(r: Response): string
  {
    r.id + r.status + r.data
  }

  /** Decoding a well-formed response line gives back the response it was written from. */
  lemma DecodeFormat(r: Response)
    requires |r.id| == 2 && |r.status| == 1
    ensures Decode(Some(Format(r))) == Some(r)
  {
    var s := Format(r);
    assert s[..2] == r.id && s[2..3] == r.status && s[3..] == r.data;
  }

  /** The status test each operation makes: success_code.compareTo("1") == 0. */
  predicate Succeeded(r: Response)
  {
    r.status == "1"
  }
}
