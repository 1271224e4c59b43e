/**
  The upload policy of the deploy script: which bucket and prefix a checkout
  goes to, which files count as revved (content-hashed), and the headers each
  uploaded file gets.
*/
module Deploy {
  import opened Wrappers

  // File names, as Node's POSIX `path` module reads them.

  /** `p` without its trailing slashes. */
  function TrimSlashes(p: string): (r: string)
    ensures |r| <= |p| && r == p[..|r|]
    ensures r == [] || r[|r| - 1] != '/'
    ensures forall i :: |r| <= i < |p| ==> p[i] == '/'
  {
    if p != [] && p[|p| - 1] == '/' then TrimSlashes(p[..|p| - 1]) else p
  }

  /** The index of the last `c` in `s`, or -1. */
  function LastIndexOf(s: string, c: char): (r: int)
    ensures -1 <= r < |s|
    ensures r >= 0 ==> s[r] == c
    ensures forall i :: r < i < |s| ==> s[i] != c
  {
    if s == [] then -1
    else if s[|s| - 1] == c then |s| - 1
    else LastIndexOf(s[..|s| - 1], c)
  }

  /** `path.basename(p)`: the last segment, trailing slashes ignored. */
  function Basename(p: string): (r: string)
    ensures '/' !in r
  {
    var q := TrimSlashes(p);
    q[LastIndexOf(q, '/') + 1..]
  }

  /**
    `path.extname(p)`: from the last dot of the base name to its end; empty
    when there is no dot, when the only dot starts the name (`.bashrc`), and
    for `..`.
  */
  function Extname(p: string): (r: string)
    ensures r == [] || r[0] == '.'
  {
    var b := Basename(p);
    var d := LastIndexOf(b, '.');
    if d <= 0 || b == ".." then "" else b[d..]
  }

  /** The extension is a suffix of the base name that keeps at least one character in front of it. */
  lemma ExtnameSuffix(p: string)
    ensures var b := Basename(p); var e := Extname(p);
      e != [] ==> |e| < |b| && b[|b| - |e|..] == e && '.' !in e[1..]
  {
    var b := Basename(p);
    var d := LastIndexOf(b, '.');
    if d > 0 && b != ".." {
      assert b[|b| - |b[d..]|..] == b[d..];
      forall i | 0 <= i < |b[d..][1..]| ensures b[d..][1..][i] != '.' {
        assert b[d..][1..][i] == b[d + 1 + i];
      }
    }
  }

  /** A name with no dot, or with a dot only in front, has no extension; `index` and `.bashrc` are served as pages. */
  lemma ExtnameEmpty(p: string)
    requires '.' !in Basename(p) || (Basename(p)[0] == '.' && '.' !in Basename(p)[1..])
    ensures Extname(p) == ""
  {
  }

  // Revved file names: `/.+\.rev-.+/` matched against the base name.

  /** The characters `.` in a regular expression does not match. */
  predicate IsLineTerminator(c: char) {
    c == '\n' || c == '\r' || c == '\U{2028}' || c == '\U{2029}'
  }

  /** `.rev-` starts at `i`, with a matchable character just before it and just after it. */
  predicate RevAt(b: string, i: int) {
    && 1 <= i && i + 5 < |b|
    && b[i] == '.' && b[i + 1] == 'r' && b[i + 2] == 'e' && b[i + 3] == 'v' && b[i + 4] == '-'
    && !IsLineTerminator(b[i - 1]) && !IsLineTerminator(b[i + 5])
  }

  /** What the regular expression accepts: some match of `.rev-` with the two `.+` around it. */
  ghost predicate MatchesRevved(b: string) {
    exists i :: RevAt(b, i)
  }

  /** Scans `b` from `i` for a place where `.+\.rev-.+` matches. */
  function FindRev(b: string, i: nat): (r: bool)
    decreases |b| - i
  {
    if i + 6 > |b| then false
    else if RevAt(b, i) then true
    else FindRev(b, i + 1)
  }

  /** `isRevved(name)`. */
  function IsRevved(name: string): bool {
    FindRev(Basename(name), 1)
  }

  lemma {:induction false} FindRevIff(b: string, i: nat)
    requires i >= 1
    ensures FindRev(b, i) <==> exists j :: i <= j && RevAt(b, j)
    decreases |b| - i
  {
    if i + 6 <= |b| && !RevAt(b, i) {
      FindRevIff(b, i + 1);
      if exists j :: i <= j && RevAt(b, j) {
        var j :| i <= j && RevAt(b, j);
        assert i + 1 <= j;
      }
    }
  }

  /** `isRevved` holds exactly when the regular expression matches the base name. */
  lemma IsRevvedIff(name: string)
    ensures IsRevved(name) <==> MatchesRevved(Basename(name))
  {
    FindRevIff(Basename(name), 1);
  }

  /** The base name of `dir/name` is `name`. */
  lemma BasenameOfChild(dir: string, name: string)
    requires name != [] && '/' !in name
    ensures Basename(dir + "/" + name) == name
  {
    var p := dir + "/" + name;
    assert p[|p| - 1] == name[|name| - 1];
    assert TrimSlashes(p) == p;
    var k := LastIndexOf(p, '/');
    assert p[|dir|] == '/';
    forall i | |dir| < i < |p| ensures p[i] != '/' {
      assert p[i] == name[i - |dir| - 1];
    }
    assert k == |dir|;
    assert p[k + 1..] == name;
  }

  /** A content-hashed asset such as `main.rev-1a2b3c.js` is revved, in whatever directory. */
  lemma RevvedExample(dir: string)
    ensures IsRevved(dir + "/" + "main.rev-1a2b3c.js")
  {
    var name := "main.rev-1a2b3c.js";
    HashedNameMatches(name);
    BasenameOfChild(dir, name);
    IsRevvedIff(dir + "/" + name);
  }

  /** The hashed name matches at its dot before `rev-`, and has no slash. */
  lemma HashedNameMatches(name: string)
    requires name == "main.rev-1a2b3c.js"
    ensures name != [] && '/' !in name && MatchesRevved(name)
  {
    assert name[3] == 'n' && name[4] == '.' && name[5] == 'r' && name[6] == 'e' && name[7] == 'v';
    assert name[8] == '-' && name[9] == '1';
    assert RevAt(name, 4);
  }

  /** A name without `.rev-` is not revved. */
  lemma NotRevvedPlain() ensures !IsRevved("main.js") {
    var b := "main.js";
    assert b[1] == 'a';
    NotRevved(b);
  }

  /** `.rev-` at the very start of the base name leaves nothing for the first `.+`. */
  lemma NotRevvedNothingBefore() ensures !IsRevved(".rev-1a2b") {
    var b := ".rev-1a2b";
    assert b[1] == 'r' && b[2] == 'e' && b[3] == 'v';
    NotRevved(b);
  }

  /** `.rev-` at the very end of the base name leaves nothing for the second `.+`. */
  lemma NotRevvedNothingAfter() ensures !IsRevved("main.rev-") {
    var b := "main.rev-";
    assert b[1] == 'a' && b[2] == 'i' && b[3] == 'n';
    NotRevved(b);
  }

  lemma NotRevved(b: string)
    requires '/' !in b && |b| <= 9 && forall i :: 1 <= i < |b| - 5 ==> b[i] != '.'
    ensures !IsRevved(b)
  {
    assert TrimSlashes(b) == b;
    assert Basename(b) == b;
    assert forall i :: !RevAt(b, i);
    IsRevvedIff(b);
  }

  // Numbers in template literals.

  function DigitChar(d: nat): char
    requires d < 10
  {
    ['0', '1', '2', '3', '4', '5', '6', '7', '8', '9'][d]
  }

  function DigitValue(c: char): int {
    c as int - '0' as int
  }

  /** `${n}` for a natural number: its decimal digits. */
  function Decimal(n: nat): (r: string)
    ensures |r| >= 1 && forall i :: 0 <= i < |r| ==> '0' <= r[i] <= '9'
  {
    if n < 10 then [DigitChar(n)] else Decimal(n / 10) + [DigitChar(n % 10)]
  }

  /** Reads decimal digits back. */
  function ParseDecimal(s: string): int {
    if s == [] then 0 else 10 * ParseDecimal(s[..|s| - 1]) + DigitValue(s[|s| - 1])
  }

  /** The digits read back as the number they were written from. */
  lemma {:induction false} DecimalRoundTrip(n: nat)
    ensures ParseDecimal(Decimal(n)) == n
  {
    var r := Decimal(n);
    if n < 10 {
      assert r[..0] == [];
    } else {
      assert r[..|r| - 1] == Decimal(n / 10);
      DecimalRoundTrip(n / 10);
    }
  }

  // The per-file parameters.

  const OneYear := 31556926
  const OneMinute := 60

  lemma OneYearDigits()
    ensures Decimal(OneYear) == "31556926"
  {
    assert Decimal(3) == "3";
    assert Decimal(31) == "31";
    assert Decimal(315) == "315";
    assert Decimal(3155) == "3155";
    assert Decimal(31556) == "31556";
    assert Decimal(315569) == "315569";
    assert Decimal(3155692) == "3155692";
  }

  lemma OneMinuteDigits()
    ensures Decimal(OneMinute) == "60"
  {
    assert Decimal(6) == "6";
  }

  /** The cache lifetime in seconds: a year for revved files, a minute for the rest. */
  function Ttl(localFile: string): nat {
    if IsRevved(localFile) then OneYear else OneMinute
  }

  /**
    `getS3Params`: a `ContentType` of `text/html` for files without an
    extension (so that `about` is served as a page) and a `CacheControl` for
    every file; nothing else.
  */
  method GetS3Params(localFile: string) returns (fileParams: map<string, string>)
    ensures "ContentType" in fileParams <==> Extname(localFile) == ""
    ensures "ContentType" in fileParams ==> fileParams["ContentType"] == "text/html"
    ensures "CacheControl" in fileParams && fileParams["CacheControl"] == "max-age=" + Decimal(Ttl(localFile))
    ensures fileParams.Keys <= {"ContentType", "CacheControl"}
  {
    fileParams := map[];
    var ext := Extname(localFile);
    if ext == "" {
      fileParams := fileParams["ContentType" := "text/html"];
    }
    var ttl := if IsRevved(localFile) then OneYear else OneMinute;
    fileParams := fileParams["CacheControl" := "max-age=" + Decimal(ttl)];
  }

  /** The two cache headers the deploy ever sends. */
  lemma CacheHeaders(localFile: string)
    ensures IsRevved(localFile) ==> "max-age=" + Decimal(Ttl(localFile)) == "max-age=31556926"
    ensures !IsRevved(localFile) ==> "max-age=" + Decimal(Ttl(localFile)) == "max-age=60"
  {
    if IsRevved(localFile) {
      OneYearDigits();
    } else {
      OneMinuteDigits();
    }
  }

  // Where the upload goes.

  datatype Target = Target(bucketName: string, remotePrefix: string)

  datatype DeployError = NotGitHub(host: string)

  const ProductionBucket := "callum-ig"
  const DevelopmentBucket := "callum-ig-dev"

  /**
    The bucket and prefix for the checkout whose `origin` points at `host`
    and `repo`, on branch `branchName`: only `github.com` remotes deploy;
    `master` goes to the production bucket under `v1/<repo>/`, any other
    branch to the development bucket under `v1/<repo>/<branch>/`.
  */
  function UploadTarget(host: string, repo: string, branchName: string): Result<Target, DeployError> {
    if host != "github.com" then Failure(NotGitHub(host))
    else if branchName == "master" then Success(Target(ProductionBucket, "v1/" + repo + "/"))
    else Success(Target(DevelopmentBucket, "v1/" + repo + "/" + branchName + "/"))
  }

  /** Only `master` deploys to production, and every prefix lies under `v1/<repo>/` and ends in a slash. */
  lemma UploadTargetShape(host: string, repo: string, branchName: string)
    ensures UploadTarget(host, repo, branchName).Success? <==> host == "github.com"
    ensures var t := UploadTarget(host, repo, branchName);
      t.Success? ==>
        && (t.value.bucketName == ProductionBucket <==> branchName == "master")
        && (t.value.bucketName == ProductionBucket || t.value.bucketName == DevelopmentBucket)
        && |t.value.remotePrefix| >= |repo| + 4
        && t.value.remotePrefix[..|repo| + 4] == "v1/" + repo + "/"
        && t.value.remotePrefix[|t.value.remotePrefix| - 1] == '/'
        && (branchName == "master" ==> |t.value.remotePrefix| == |repo| + 4)
        && (branchName != "master" ==> t.value.remotePrefix[|repo| + 4..|t.value.remotePrefix| - 1] == branchName)
  {
    assert ProductionBucket != DevelopmentBucket by {
      assert |ProductionBucket| != |DevelopmentBucket|;
    }
    var p := "v1/" + repo + "/";
    if host == "github.com" && branchName != "master" {
      var q := p + branchName + "/";
      assert q[..|repo| + 4] == p;
      assert q[|repo| + 4..|q| - 1] == branchName;
    }
  }

  /** Two branches of the same repository never share a bucket and prefix. */
  lemma UploadTargetsDistinct(repo: string, b1: string, b2: string)
    requires b1 != b2
    ensures UploadTarget("github.com", repo, b1) != UploadTarget("github.com", repo, b2)
  {
    if b1 != "master" && b2 != "master" {
      var p := "v1/" + repo + "/";
      var q1 := p + b1 + "/";
      var q2 := p + b2 + "/";
      assert b1 == q1[|p|..|q1| - 1];
      assert b2 == q2[|p|..|q2| - 1];
    }
  }
}
