/** A reference to a GitHub repository, written "owner/name". */
module RepositoryRef {
  import opened Wrappers
  import opened Strings

  datatype Repository = Repository(owner: string, name: string)

  const EmptyReference: string := "GitHub repository references must not be empty"
  const MissingSlash: string := "GitHub repository references must include '/'"

  /** Repository.toString. */
  function ToString(r: Repository): string {
    r.owner + "/" + r.name
  }

  /** Repository.of: a reference with text, cut at its first '/'. The owner
      may be empty and the name may hold further slashes. */
  function Of(reference: string): (r: Result<Repository, string>)
    ensures !HasText(reference) <==> r == Failure(EmptyReference)
    ensures HasText(reference) && '/' !in reference <==> r == Failure(MissingSlash)
    ensures r.Success? ==> '/' !in r.value.owner && reference == r.value.owner + "/" + r.value.name
  {
    if !HasText(reference) then Failure(EmptyReference)
    else
      match IndexOf(reference, '/')
      case None => Failure(MissingSlash)
      case Some(i) =>
        assert reference == reference[..i] + "/" + reference[i + 1..];
        Success(Repository(reference[..i], reference[i + 1..]))
  }

  /** Printing an accepted reference gives the reference back. */
  lemma ToStringOfOf(reference: string)
    requires Of(reference).Success?
    ensures ToString(Of(reference).value) == reference
  {
  }

  /** Parsing a printed repository gives the repository back exactly when its
      owner holds no '/'; otherwise the first slash of the owner wins. */
  lemma OfToString(x: Repository)
    ensures '/' !in x.owner ==> Of(ToString(x)) == Success(x)
    ensures '/' in x.owner ==> Of(ToString(x)).Success? && Of(ToString(x)) != Success(x)
  {
    var s := ToString(x);
    assert s[|x.owner|] == '/';
    assert !IsWhitespace(s[|x.owner|]);
    var r := Of(s);
    if '/' !in x.owner {
      assert s[..|x.owner|] == x.owner;
      assert IndexOf(s, '/') == Some(|x.owner|) by {
        assert '/' !in s[..|x.owner|];
      }
      assert s[|x.owner| + 1..] == x.name;
    } else {
      var k :| 0 <= k < |x.owner| && x.owner[k] == '/';
      assert s[k] == '/';
      assert r.value.owner != x.owner;
    }
  }

  /** Repository.equals compares owner and name, so two accepted references
      denote equal repositories exactly when they are the same text. */
  lemma OfIsInjective(a: string, b: string)
    requires Of(a).Success? && Of(b).Success?
    ensures Of(a).value == Of(b).value <==> a == b
  {
  }

  /** An empty owner is accepted. */
  lemma EmptyOwnerAccepted()
    ensures Of("/name") == Success(Repository("", "name"))
  {
    OfToString(Repository("", "name"));
    assert ToString(Repository("", "name")) == "/name";
  }

  /** The name keeps every slash after the first. */
  lemma NameKeepsSlashes()
    ensures Of("owner/name/more") == Success(Repository("owner", "name/more"))
  {
    var x := Repository("owner", "name/more");
    assert '/' !in x.owner;
    assert ToString(x) == "owner/name/more";
    OfToString(x);
  }

  lemma ReferenceWithoutSlashRejected()
    ensures Of("owner") == Failure(MissingSlash)
  {
    assert !IsWhitespace("owner"[0]);
  }

  lemma BlankReferenceRejected()
    ensures Of(" ") == Failure(EmptyReference)
  {
    assert IsWhitespace(" "[0]);
  }
}
