/** Path strings as the client handles them: stripping the default filesystem name,
    the qualified child paths it builds, and the last-component / parent split. */
module Paths {
  import opened Outcomes

  /** The scheme and authority the client hard-codes when it builds a Path of its own
      (new Path("adamfs", "localhost:9999", p)). */
  const Qualifier: string := "adamfs://localhost:9999"

  /** makeAbsolute: a null path is the root; a path spelled with the default filesystem
      name in front loses exactly that prefix; any other path is kept as it is. */
  function MakeAbsolute(f: Option<string>, defaultName: string): (r: string)
    ensures f.None? ==> r == "/"
    ensures f.Some? && defaultName <= f.value ==> defaultName + r == f.value
    ensures f.Some? && !(defaultName <= f.value) ==> r == f.value
  {
    match f
    case None => "/"
    case Some(p) => if defaultName <= p then p[|defaultName|..] else p
  }

  /** Putting the default name in front of a path and making it absolute gives the path back. */
  lemma MakeAbsoluteOfPrefixed(defaultName: string, p: string)
    ensures MakeAbsolute(Some(defaultName + p), defaultName) == p
  {
    assert defaultName <= defaultName + p;
    assert (defaultName + p)[|defaultName|..] == p;
  }

  /** With the default name the client hard-codes, a path the client qualified itself is made
      absolute again to the very same string. */
  lemma MakeAbsoluteOfQualified(p: string)
    ensures MakeAbsolute(Some(Qualify(p)), Qualifier) == p
  {
    MakeAbsoluteOfPrefixed(Qualifier, p);
  }

  /** new Path("adamfs", "localhost:9999", p), as a string. */
  function Qualify(p: string): (q: string)
    ensures Qualifier <= q && q[|Qualifier|..] == p
  {
    Qualifier + p
  }

  /** The entry `name` inside directory `parent` (the client writes parent + "/" + name). */
  function Child(parent: string, name: string): (c: string)
    ensures |c| == |parent| + 1 + |name| && c[|parent|] == '/'
    ensures c[..|parent|] == parent && c[|parent| + 1..] == name
  {
    parent + "/" + name
  }

  /** The index of the last '/' in p, or -1 when there is none (String.lastIndexOf). */
  function LastSlash(p: string): (i: int)
    ensures -1 <= i < |p|
    ensures i >= 0 ==> p[i] == '/'
    ensures forall j :: i < j < |p| ==> p[j] != '/'
  {
    if |p| == 0 then -1
    else if p[|p| - 1] == '/' then |p| - 1
    else LastSlash(p[..|p| - 1])
  }

  /** Path.getName: the text after the last '/' (all of p when it has none). */
  function Name(p: string): (n: string)
    ensures '/' !in n
    ensures |n| <= |p| && p[|p| - |n|..] == n
    ensures |n| < |p| ==> p[|p| - |n| - 1] == '/'
  {
    p[LastSlash(p) + 1..]
  }

  /** Path.getParent on a bare path string: none for the empty path and the root, "." for a
      single relative component, else everything before the last '/' (the root for "/x"). */
  function Parent(p: string): (r: Option<string>)
    ensures r.None? <==> p == "" || p == "/"
    ensures r.Some? ==> r.value == (if LastSlash(p) == -1 then "." else if LastSlash(p) == 0 then "/" else p[..LastSlash(p)])
  {
    var i := LastSlash(p);
    if |p| == 0 || (i == 0 && |p| == 1) then None
    else if i == -1 then Some(".")
    else Some(p[..if i == 0 then 1 else i])
  }

  /** The last component of a child path is the name it was built from. */
  lemma NameOfChild(parent: string, name: string)
    requires '/' !in name
    ensures Name(Child(parent, name)) == name
  {
    var c := Child(parent, name);
    assert LastSlash(c) == |parent| by {
      LastSlashAt(c, |parent|);
    }
  }

  /** The parent of a child path is the directory it was built from (for a non-root directory
      not ending in '/'). */
  lemma ParentOfChild(parent: string, name: string)
    requires '/' !in name && parent != "" && parent != "/"
    requires parent[|parent| - 1] != '/'
    ensures Parent(Child(parent, name)) == Some(parent)
  {
    var c := Child(parent, name);
    LastSlashAt(c, |parent|);
    if |parent| == 1 {
      assert parent[0] != '/';
    }
  }

  lemma {:induction false} LastSlashAt(p: string, k: int)
    requires 0 <= k < |p| && p[k] == '/'
    requires forall j :: k < j < |p| ==> p[j] != '/'
    ensures LastSlash(p) == k
  {
    if k != |p| - 1 {
      LastSlashAt(p[..|p| - 1], k);
    }
  }
}
