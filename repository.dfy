/** The API client's identity (Api.__init__) and the "owner/repo" string it is
    built from (setup_api). */
module Repository {
  import opened Wrappers

  // ---------------------------------------------------------------------------
  // str.split with an explicit separator

  /** The pieces of s between occurrences of sep, as str.split(sep) returns them:
      always at least one piece, empty pieces kept ("a//b" has three). */
  function Split(s: string, sep: char): (parts: seq<string>)
    ensures |parts| >= 1
    decreases |s|
  {
    if s == [] then [[]]
    else
      var rest := Split(s[1..], sep);
      if s[0] == sep then [[]] + rest
      else [[s[0]] + rest[0]] + rest[1..]
  }

  /** The pieces glued back together with sep between them. */
  function Join(parts: seq<string>, sep: char): string
    requires |parts| >= 1
    decreases |parts|
  {
    if |parts| == 1 then parts[0] else parts[0] + [sep] + Join(parts[1..], sep)
  }

  /** No piece contains the separator. */
  predicate SeparatorFree(parts: seq<string>, sep: char)
  {
    forall i :: 0 <= i < |parts| ==> sep !in parts[i]
  }

  /** Joining the pieces gives back the string that was split. */
  lemma {:induction false} JoinSplit(s: string, sep: char)
    ensures Join(Split(s, sep), sep) == s
    decreases |s|
  {
    if s != [] {
      JoinSplit(s[1..], sep);
      var rest := Split(s[1..], sep);
      if s[0] == sep {
        assert Split(s, sep)[1..] == rest;
      } else if |rest| > 1 {
        assert Split(s, sep)[1..] == rest[1..];
      }
    }
  }

  /** No piece of a split contains the separator. */
  lemma {:induction false} SplitSeparatorFree(s: string, sep: char)
    ensures SeparatorFree(Split(s, sep), sep)
    decreases |s|
  {
    if s != [] {
      SplitSeparatorFree(s[1..], sep);
      var rest := Split(s[1..], sep);
      var parts := Split(s, sep);
      forall i | 0 <= i < |parts| ensures sep !in parts[i] {
        if s[0] == sep {
          if i > 0 { assert parts[i] == rest[i - 1]; }
        } else if i == 0 {
          assert sep !in rest[0];
          assert parts[0] == [s[0]] + rest[0];
        } else {
          assert parts[i] == rest[i];
        }
      }
    }
  }

  /** Splitting a separator-free prefix a followed by b extends b's first piece. */
  lemma {:induction false} SplitFreePrefix(a: string, b: string, sep: char)
    requires sep !in a
    ensures Split(a + b, sep) == [a + Split(b, sep)[0]] + Split(b, sep)[1..]
    decreases |a|
  {
    if a == [] {
      var parts := Split(b, sep);
      assert a + b == b && a + parts[0] == parts[0];
      assert [parts[0]] + parts[1..] == parts;
    } else {
      assert a[0] in a;
      assert sep !in a[1..] by {
        forall c | c in a[1..] ensures c != sep { assert c in a; }
      }
      assert (a + b)[1..] == a[1..] + b;
      SplitFreePrefix(a[1..], b, sep);
      assert [a[0]] + (a[1..] + Split(b, sep)[0]) == a + Split(b, sep)[0];
    }
  }

  /** A separator-free piece followed by the separator splits off as one piece. */
  lemma SplitFreePiece(a: string, b: string, sep: char)
    requires sep !in a
    ensures Split(a + [sep] + b, sep) == [a] + Split(b, sep)
  {
    SplitFreePrefix(a, [sep] + b, sep);
    assert a + [sep] + b == a + ([sep] + b);
    assert ([sep] + b)[1..] == b;
    assert a + [] == a;
  }

  /** Splitting inverts joining, when no piece contains the separator. */
  lemma {:induction false} SplitJoin(parts: seq<string>, sep: char)
    requires |parts| >= 1 && SeparatorFree(parts, sep)
    ensures Split(Join(parts, sep), sep) == parts
    decreases |parts|
  {
    if |parts| == 1 {
      SplitFreePrefix(parts[0], [], sep);
      assert parts[0] + [] == parts[0];
    } else {
      assert SeparatorFree(parts[1..], sep) by {
        forall i | 0 <= i < |parts[1..]| ensures sep !in parts[1..][i] {
          assert parts[1..][i] == parts[i + 1];
        }
      }
      SplitJoin(parts[1..], sep);
      assert sep !in parts[0];
      SplitFreePiece(parts[0], Join(parts[1..], sep), sep);
      assert [parts[0]] + parts[1..] == parts;
    }
  }

  /** There is more than one piece exactly when the separator occurs. */
  lemma {:induction false} SplitSeveralIff(s: string, sep: char)
    ensures |Split(s, sep)| >= 2 <==> sep in s
    decreases |s|
  {
    if sep !in s {
      SplitFreePrefix(s, [], sep);
      assert s + [] == s;
    } else if s[0] != sep {
      assert sep in s[1..] by {
        var i :| 0 <= i < |s| && s[i] == sep;
        assert s[1..][i - 1] == sep;
      }
      SplitSeveralIff(s[1..], sep);
    }
  }

  // ---------------------------------------------------------------------------
  // "owner/repo"

  /** The two names the script takes from the repository string. */
  datatype RepositoryName = RepositoryName(owner: string, repo: string)

  /** Indices 0 and 1 of repository.split("/"); indexing 1 fails (None) when the
      string has no "/". Any pieces after the second are ignored. */
  function SplitRepository(repository: string): (r: Option<RepositoryName>)
    ensures r.None? <==> '/' !in repository
    ensures r.Some? ==> '/' !in r.value.owner && '/' !in r.value.repo
    ensures r.Some? ==>
              var n := |r.value.owner| + 1 + |r.value.repo|;
              n <= |repository| && repository[..n] == r.value.owner + "/" + r.value.repo &&
              (n == |repository| || repository[n] == '/')
  {
    var parts := Split(repository, '/');
    SplitSeveralIff(repository, '/');
    if |parts| < 2 then None
    else
      SplitSeparatorFree(repository, '/');
      JoinSplit(repository, '/');
      JoinFirstTwo(parts, '/');
      Some(RepositoryName(parts[0], parts[1]))
  }

  /** A join of at least two pieces starts with the first two and the separator
      between them, followed by the end or by another separator. */
  lemma JoinFirstTwo(parts: seq<string>, sep: char)
    requires |parts| >= 2
    ensures var n := |parts[0]| + 1 + |parts[1]|;
            var s := Join(parts, sep);
            n <= |s| && s[..n] == parts[0] + [sep] + parts[1] && (n == |s| || s[n] == sep)
  {
    var tail := parts[1..];
    assert Join(parts, sep) == parts[0] + [sep] + Join(tail, sep);
    if |tail| > 1 {
      assert Join(tail, sep) == parts[1] + [sep] + Join(tail[1..], sep);
    }
  }

  /** "owner/repo" with slash-free names splits back into those two names. */
  lemma SplitRepositoryRoundTrip(owner: string, repo: string)
    requires '/' !in owner && '/' !in repo
    ensures SplitRepository(owner + "/" + repo) == Some(RepositoryName(owner, repo))
  {
    var parts := [owner, repo];
    assert Join(parts, '/') == owner + "/" + repo by {
      assert Join(parts[1..], '/') == repo;
    }
    SplitJoin(parts, '/');
  }

  // ---------------------------------------------------------------------------
  // The API client

  /** The client's fixed configuration; every request goes to baseUrl + path. */
  datatype Api = Api(owner: string, repo: string, token: string, baseUrl: string)

  const ApiRoot: string := "https://api.github.com/repos/"

  /** The prefix of every request: the repository's Actions endpoints. */
  function BaseUrl(owner: string, repo: string): string
  {
    ApiRoot + owner + "/" + repo + "/actions/"
  }

  /** Api(repo, owner, token): note that the constructor takes the repository
      name first, while the URL names the owner first. */
  function NewApi(repo: string, owner: string, token: string): (api: Api)
    ensures api.owner == owner && api.repo == repo && api.token == token
    ensures api.baseUrl == BaseUrl(owner, repo)
  {
    Api(owner, repo, token, BaseUrl(owner, repo))
  }

  lemma CharAfterName(name: string, x: string, i: int)
    ensures 0 <= i < |name| ==> (name + "/" + x)[i] == name[i] && name[i] in name
    ensures i == |name| ==> (name + "/" + x)[i] == '/'
  {
  }

  /** The base URL determines owner and repository when the owner has no "/". */
  lemma BaseUrlInjective(owner1: string, repo1: string, owner2: string, repo2: string)
    requires '/' !in owner1 && '/' !in owner2
    requires BaseUrl(owner1, repo1) == BaseUrl(owner2, repo2)
    ensures owner1 == owner2 && repo1 == repo2
  {
    var tail := "/actions/";
    var u1, u2 := owner1 + "/" + repo1 + tail, owner2 + "/" + repo2 + tail;
    assert BaseUrl(owner1, repo1) == ApiRoot + u1;
    assert BaseUrl(owner2, repo2) == ApiRoot + u2;
    assert u1 == BaseUrl(owner1, repo1)[|ApiRoot|..];
    assert u2 == BaseUrl(owner2, repo2)[|ApiRoot|..];
    assert u1 == u2;
    assert u1 == owner1 + "/" + (repo1 + tail) && u2 == owner2 + "/" + (repo2 + tail);
    if |owner1| < |owner2| {
      CharAfterName(owner1, repo1 + tail, |owner1|);
      CharAfterName(owner2, repo2 + tail, |owner1|);
      assert false;
    } else if |owner2| < |owner1| {
      CharAfterName(owner2, repo2 + tail, |owner2|);
      CharAfterName(owner1, repo1 + tail, |owner2|);
      assert false;
    }
    assert owner1 == u1[..|owner1|] == u2[..|owner2|] == owner2;
    assert |repo1| == |repo2|;
    assert repo1 == u1[|owner1| + 1..|owner1| + 1 + |repo1|] == u2[|owner2| + 1..|owner2| + 1 + |repo2|] == repo2;
  }

  /** setup_api: split INPUT_REPOSITORY and build the client; None when the
      repository string has no "/" (the script fails with an index error). */
  function SetupApi(repository: string, token: string): (r: Option<Api>)
    ensures r.None? <==> '/' !in repository
    ensures r.Some? ==>
              r.value.token == token && '/' !in r.value.owner && '/' !in r.value.repo &&
              r.value.baseUrl == BaseUrl(r.value.owner, r.value.repo) &&
              var n := |r.value.owner| + 1 + |r.value.repo|;
              n <= |repository| && repository[..n] == r.value.owner + "/" + r.value.repo &&
              (n == |repository| || repository[n] == '/')
    ensures r.Some? ==> SplitRepository(repository) == Some(RepositoryName(r.value.owner, r.value.repo))
  {
    match SplitRepository(repository)
    case None => None
    case Some(name) => Some(NewApi(name.repo, name.owner, token))
  }

  /** For "owner/repo" the client's URL names that owner and that repository. */
  lemma SetupApiRoundTrip(owner: string, repo: string, token: string)
    requires '/' !in owner && '/' !in repo
    ensures SetupApi(owner + "/" + repo, token) == Some(Api(owner, repo, token, BaseUrl(owner, repo)))
  {
    SplitRepositoryRoundTrip(owner, repo);
  }
}
