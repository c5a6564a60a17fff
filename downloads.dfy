/** The download side of the packager: the request for one platform's installer, the file name
    taken from the response, and the rewrite of the platform's install script. */
module Downloads {
  import opened Wrappers
  import opened Text
  import opened LocalFiles

  const ASSET_GRP_NAME := "assets"
  const ARM64 := "arm64"
  const WINDOWS := "windows"

  // ---------------------------------------------------------------------------------------------
  // Service answers

  /** One item of the object-groups listing. */
  datatype ObjectGroup = ObjectGroup(name: string, id: string)

  /** One item of the osquery-packages listing. */
  datatype OsqueryPackage = OsqueryPackage(version: string)

  /** An HTTP response. Header names are kept in lower case, as the case-insensitive
      header dictionary of the HTTP client looks them up; `bodyIsJson` says whether the body
      parses as JSON, which the API call relies on for every response it does not stream and
      for every response whose status is not 200. */
  datatype Response = Response(status: int, headers: map<string, string>, body: FileData, bodyIsJson: bool)

  /** The header's value, or "" when the response has none. */
  function HeaderValue(r: Response, name: string): string
  {
    if name in r.headers then r.headers[name] else ""
  }

  /** The API call keeps the response as a stream only for these content types; for any other
      the response has no stream and reading one fails. */
  predicate IsStream(r: Response)
  {
    var contentType := HeaderValue(r, "content-type");
    Contains(contentType, "application/octet-stream")
    || Contains(contentType, "application/x-redhat-package-manager")
  }

  // ---------------------------------------------------------------------------------------------
  // Listing lookups

  /** The version of the first listed osquery package, cut at its first "-"; an empty listing
      makes the lookup raise. */
  function PackagesVersion(items: seq<OsqueryPackage>): (r: Result<string>)
    ensures r.Failure? <==> items == []
    ensures r.Success? ==>
      var v := items[0].version;
      && |r.value| <= |v| && r.value == v[..|r.value|]
      && '-' !in r.value
      && (|r.value| < |v| ==> v[|r.value|] == '-')
  {
    if items == [] then Failure("IndexError: no osquery package listed")
    else Success(Split(items[0].version, '-')[0])
  }

  // ---------------------------------------------------------------------------------------------
  // Query parameters: an insertion-ordered dictionary of strings

  type Params = seq<(string, string)>

  /** `d.get(k)`. */
  function Get(d: Params, k: string): Option<string>
  {
    if d == [] then None
    else if d[0].0 == k then Some(d[0].1)
    else Get(d[1..], k)
  }

  function Keys(d: Params): seq<string>
  {
    if d == [] then [] else [d[0].0] + Keys(d[1..])
  }

  /** `d.update({k: v})`. */
  function Put(d: Params, k: string, v: string): Params
  {
    if d == [] then [(k, v)]
    else if d[0].0 == k then [(k, v)] + d[1..]
    else [d[0]] + Put(d[1..], k, v)
  }

  /** The dictionary update: a present key keeps its place and takes the new value, a new key
      goes last, and every other key reads as before. */
  lemma {:induction false} PutSpec(d: Params, k: string, v: string)
    ensures Get(Put(d, k, v), k) == Some(v)
    ensures forall k' :: k' != k ==> Get(Put(d, k, v), k') == Get(d, k')
    ensures Keys(Put(d, k, v)) == if Get(d, k).Some? then Keys(d) else Keys(d) + [k]
  {
    if d != [] && d[0].0 != k {
      PutSpec(d[1..], k, v);
      var t := Put(d[1..], k, v);
      assert Put(d, k, v) == [d[0]] + t;
      assert Put(d, k, v)[1..] == t;
      if Get(d, k).None? {
        assert Keys(d) + [k] == [d[0].0] + (Keys(d[1..]) + [k]);
      }
    }
  }

  /** A key not yet present goes last. */
  lemma {:induction false} PutNew(d: Params, k: string, v: string)
    requires Get(d, k).None?
    ensures Put(d, k, v) == d + [(k, v)]
  {
    if d != [] {
      PutNew(d[1..], k, v);
      assert d == [d[0]] + d[1..];
    }
  }

  /** The parameters of one download request. */
  function QueryParams(installerVersion: string, archType: string, withRemediation: bool): Params
  {
    var q := [("osqVersion", installerVersion)];
    var q := if archType == ARM64 then Put(q, "gravitonPackage", "true") else q;
    if withRemediation then Put(q, "remediationPackage", "true") else q
  }

  /** What a request starts from: the osquery version alone. */
  lemma NoParamBefore(q0: Params)
    requires |q0| == 1 && q0[0].0 == "osqVersion"
    ensures Keys(q0) == ["osqVersion"]
    ensures Get(q0, "gravitonPackage") == None && Get(q0, "remediationPackage") == None
  {
    assert |"gravitonPackage"| == 15 && |"remediationPackage"| == 18 && |"osqVersion"| == 10;
    assert q0[1..] == [];
  }

  /** A request always asks for the osquery version, adds the Graviton flag for ARM builds and
      the remediation flag when the richer package is wanted, in that order. */
  lemma QueryParamsContents(installerVersion: string, archType: string, withRemediation: bool)
    ensures var q := QueryParams(installerVersion, archType, withRemediation);
      && Get(q, "osqVersion") == Some(installerVersion)
      && Get(q, "gravitonPackage") == (if archType == ARM64 then Some("true") else None)
      && Get(q, "remediationPackage") == (if withRemediation then Some("true") else None)
      && Keys(q) == ["osqVersion"]
           + (if archType == ARM64 then ["gravitonPackage"] else [])
           + (if withRemediation then ["remediationPackage"] else [])
  {
    var q0: Params := [("osqVersion", installerVersion)];
    NoParamBefore(q0);
    PutSpec(q0, "gravitonPackage", "true");
    var q1 := if archType == ARM64 then Put(q0, "gravitonPackage", "true") else q0;
    assert Get(q1, "remediationPackage") == None;
    PutSpec(q1, "remediationPackage", "true");
  }

  /** `k=v` for every pair, in order. */
  function Assignments(q: Params): (r: seq<string>)
    ensures |r| == |q|
  {
    if q == [] then [] else [q[0].0 + "=" + q[0].1] + Assignments(q[1..])
  }

  /** `'&'.join(f'{k}={v}' for k, v in q.items())`. */
  function QueryString(q: Params): string
  {
    Join(Assignments(q), '&')
  }

  /** Reads a query string back: split at "&", then each piece at its first "=". */
  function ParseQuery(s: string): Params
  {
    ParsePairs(Split(s, '&'))
  }

  function ParsePairs(pieces: seq<string>): (q: Params)
    ensures |q| == |pieces|
  {
    if pieces == [] then []
    else
      var i := IndexOf(pieces[0], '=');
      [(pieces[0][..i], if i < |pieces[0]| then pieces[0][i + 1..] else "")] + ParsePairs(pieces[1..])
  }

  /** A parameter that survives the query string: no "&" anywhere, no "=" in its name. */
  predicate Plain(kv: (string, string))
  {
    '&' !in kv.0 && '&' !in kv.1 && '=' !in kv.0
  }

  /** The query string of a non-empty list of plain parameters reads back as the same list. */
  lemma {:induction false} QueryStringRoundTrip(q: Params)
    requires q != []
    requires forall k :: 0 <= k < |q| ==> Plain(q[k])
    ensures ParseQuery(QueryString(q)) == q
  {
    var pieces := Assignments(q);
    AssignmentsHaveNoAmpersand(q);
    SplitJoin(pieces, '&');
    ParsePairsOfAssignments(q);
  }

  lemma {:induction false} AssignmentsHaveNoAmpersand(q: Params)
    requires forall k :: 0 <= k < |q| ==> Plain(q[k])
    ensures forall k :: 0 <= k < |q| ==> '&' !in Assignments(q)[k]
  {
    if q != [] {
      AssignmentsHaveNoAmpersand(q[1..]);
      assert Assignments(q)[0] == q[0].0 + "=" + q[0].1;
      assert forall k :: 1 <= k < |q| ==> Assignments(q)[k] == Assignments(q[1..])[k - 1];
    }
  }

  lemma {:induction false} ParsePairsOfAssignments(q: Params)
    requires forall k :: 0 <= k < |q| ==> Plain(q[k])
    ensures ParsePairs(Assignments(q)) == q
  {
    if q != [] {
      var a := q[0].0 + "=" + q[0].1;
      assert a == q[0].0 + ['='] + q[0].1;
      IndexOfConcat(q[0].0, '=', q[0].1);
      assert a[..|q[0].0|] == q[0].0;
      assert a[|q[0].0| + 1..] == q[0].1;
      ParsePairsOfAssignments(q[1..]);
      assert Assignments(q) == [a] + Assignments(q[1..]);
    }
  }

  /** The path segment of the asset group id; a missing id is formatted as Python's `None`. */
  function GroupSegment(assetGroupId: Option<string>): string
  {
    if assetGroupId.Some? then assetGroupId.value else "None"
  }

  /** `/packageDownloads/osquery/{os}/{asset group}`, with `?` and the query string only when
      there are parameters. */
  function DownloadPath(osName: string, assetGroupId: Option<string>, q: Params): string
  {
    "/packageDownloads/osquery/" + osName + "/" + GroupSegment(assetGroupId)
      + (if q == [] then "" else "?" + QueryString(q))
  }

  /** The path of a download request carries its parameters: everything after its first "?"
      reads back as the parameters, in order. */
  lemma DownloadPathCarriesParams(osName: string, assetGroupId: Option<string>,
                                  installerVersion: string, archType: string, withRemediation: bool)
    requires '?' !in osName && '?' !in GroupSegment(assetGroupId)
    requires '&' !in installerVersion
    ensures var q := QueryParams(installerVersion, archType, withRemediation);
      var path := DownloadPath(osName, assetGroupId, q);
      var i := IndexOf(path, '?');
      i < |path| && ParseQuery(path[i + 1..]) == q
  {
    var q := QueryParams(installerVersion, archType, withRemediation);
    var base := "/packageDownloads/osquery/" + osName + "/" + GroupSegment(assetGroupId);
    assert '?' !in base by {
      assert forall k :: 0 <= k < |base| ==>
        (base[k] in "/packageDownloads/osquery/" || base[k] in osName || base[k] in GroupSegment(assetGroupId));
    }
    var path := DownloadPath(osName, assetGroupId, q);
    assert q != [] by {
      QueryParamsContents(installerVersion, archType, withRemediation);
      assert |Keys(q)| >= 1;
    }
    assert path == base + ['?'] + QueryString(q);
    IndexOfConcat(base, '?', QueryString(q));
    assert path[|base| + 1..] == QueryString(q);
    assert forall k :: 0 <= k < |q| ==> Plain(q[k]) by {
      QueryParamsArePlain(installerVersion, archType, withRemediation);
    }
    QueryStringRoundTrip(q);
  }

  /** Every query parameter is free of "&" and "=" in its name, and of "&" in its value. */
  lemma QueryParamsArePlain(installerVersion: string, archType: string, withRemediation: bool)
    requires '&' !in installerVersion
    ensures var q := QueryParams(installerVersion, archType, withRemediation);
      forall k :: 0 <= k < |q| ==> Plain(q[k])
  {
    var v := ("osqVersion", installerVersion);
    var g := ("gravitonPackage", "true");
    var r := ("remediationPackage", "true");
    QueryParamsList(installerVersion, archType, withRemediation);
    GravitonFlagPlain();
    RemediationFlagPlain();
    var q1 := if archType == ARM64 then [v, g] else [v];
    assert forall k :: 0 <= k < |q1| ==> Plain(q1[k]);
    PlainSnoc(q1, r);
  }

  /** The parameters written out: the version, then the flags that apply, in that order. */
  lemma QueryParamsList(installerVersion: string, archType: string, withRemediation: bool)
    ensures QueryParams(installerVersion, archType, withRemediation)
      == [("osqVersion", installerVersion)]
         + (if archType == ARM64 then [("gravitonPackage", "true")] else [])
         + (if withRemediation then [("remediationPackage", "true")] else [])
  {
    var q0: Params := [("osqVersion", installerVersion)];
    var q1 := if archType == ARM64 then Put(q0, "gravitonPackage", "true") else q0;
    GravitonStep(installerVersion, archType);
    if withRemediation {
      PutNew(q1, "remediationPackage", "true");
    }
  }

  /** After the Graviton flag: the version, then the flag for ARM builds, and no remediation flag. */
  lemma GravitonStep(installerVersion: string, archType: string)
    ensures var q0: Params := [("osqVersion", installerVersion)];
      var q1 := if archType == ARM64 then Put(q0, "gravitonPackage", "true") else q0;
      && q1 == q0 + (if archType == ARM64 then [("gravitonPackage", "true")] else [])
      && Get(q1, "remediationPackage").None?
  {
    var q0: Params := [("osqVersion", installerVersion)];
    NoParamBefore(q0);
    if archType == ARM64 {
      PutNew(q0, "gravitonPackage", "true");
      PutSpec(q0, "gravitonPackage", "true");
    }
  }

  lemma GravitonFlagPlain()
    ensures Plain(("gravitonPackage", "true"))
  {
  }

  lemma RemediationFlagPlain()
    ensures Plain(("remediationPackage", "true"))
  {
  }

  /** Appending a plain parameter, when it applies, keeps every parameter plain. */
  lemma PlainSnoc(q: Params, kv: (string, string))
    requires forall k :: 0 <= k < |q| ==> Plain(q[k])
    requires Plain(kv)
    ensures forall k :: 0 <= k < |q| + 1 ==> Plain((q + [kv])[k])
  {
  }

  // ---------------------------------------------------------------------------------------------
  // The file name in the Content-Disposition header: the first match of `filename="(.+?)"`

  const FILENAME_OPEN := "filename=\""

  /** `filename="(.+?)"` matches at `p` with capture `name`: at least one character, none of
      them a newline, the closing quote right after it and no quote before it (the lazy `+?`). */
  ghost predicate IsMatch(s: string, p: nat, name: string)
  {
    && OccursAt(s, FILENAME_OPEN, p)
    && |name| >= 1
    && p + 10 + |name| < |s|
    && s[p + 10..p + 10 + |name|] == name
    && s[p + 10 + |name|] == '"'
    && '\n' !in name
    && '"' !in name[1..]
  }

  /** The index of the first quote at or after `j`, unless a newline or the end comes first. */
  function CloseQuote(s: string, j: nat): (r: Option<nat>)
    ensures r.Some? ==>
      (j <= r.value < |s| && s[r.value] == '"' && forall k :: j <= k < r.value ==> s[k] != '"' && s[k] != '\n')
    ensures r.None? ==> forall e :: j <= e < |s| && s[e] == '"' ==> '\n' in s[j..e]
    decreases |s| - j
  {
    if j >= |s| then None
    else if s[j] == '"' then Some(j)
    else if s[j] == '\n' then None
    else CloseQuote(s, j + 1)
  }

  /** The capture of the pattern when it matches at `p`. */
  function MatchAt(s: string, p: nat): (r: Option<string>)
    ensures r.Some? ==> IsMatch(s, p, r.value)
    ensures forall name :: IsMatch(s, p, name) ==> r == Some(name)
  {
    if OccursAt(s, FILENAME_OPEN, p) && p + 10 < |s| && s[p + 10] != '\n' then
      match CloseQuote(s, p + 11)
      case Some(e) =>
        assert forall k :: p + 11 <= k < e ==> s[k] != '"' && s[k] != '\n';
        Some(s[p + 10..e])
      case None => None
    else None
  }

  /** The leftmost match at or after `p`. */
  function FirstMatch(s: string, p: nat): Option<string>
    decreases |s| - p
  {
    if p >= |s| then None
    else
      match MatchAt(s, p)
      case Some(name) => Some(name)
      case None => FirstMatch(s, p + 1)
  }

  /** `FirstMatch` finds the leftmost match at or after `p`, and none when there is none. */
  lemma {:induction false} FirstMatchSpec(s: string, p: nat)
    ensures var r := FirstMatch(s, p);
      && (r.Some? ==>
            exists q :: (p <= q && IsMatch(s, q, r.value) && forall q', name :: p <= q' < q ==> !IsMatch(s, q', name)))
      && (r.None? ==> forall q, name :: p <= q ==> !IsMatch(s, q, name))
    decreases |s| - p
  {
    if p < |s| && MatchAt(s, p).None? {
      FirstMatchSpec(s, p + 1);
      var r := FirstMatch(s, p + 1);
      if r.Some? {
        var q :| p + 1 <= q && IsMatch(s, q, r.value) && forall q', name :: p + 1 <= q' < q ==> !IsMatch(s, q', name);
        assert forall q', name :: p <= q' < q ==> !IsMatch(s, q', name);
      }
    } else if p < |s| {
      assert IsMatch(s, p, FirstMatch(s, p).value);
    }
  }

  /** `re.findall(r'filename="(.+?)"', header)[0]`, or None where that indexing raises. */
  function FileNameFromDisposition(header: string): Option<string>
  {
    FirstMatch(header, 0)
  }

  /** The file name is the capture of the leftmost match; there is none exactly when nothing
      matches. */
  lemma FileNameFromDispositionSpec(header: string)
    ensures var r := FileNameFromDisposition(header);
      && (r.Some? ==> exists p :: (IsMatch(header, p, r.value) && forall q, name :: q < p ==> !IsMatch(header, q, name)))
      && (r.None? ==> forall p, name :: !IsMatch(header, p, name))
  {
    FirstMatchSpec(header, 0);
  }

  // ---------------------------------------------------------------------------------------------
  // The install script rewrite: `re.sub(r"(filename=|\$filename=)[^\n]+", r"\g<1>" + name, text)`

  const ASSIGN := "filename="
  const PS_ASSIGN := "$filename="

  /** The install script of a platform. */
  function InstallScriptName(osName: string): (r: string)
    ensures r == "install.ps1" <==> osName == WINDOWS
    ensures r == "install.sh" <==> osName != WINDOWS
  {
    if osName == WINDOWS then "install.ps1" else "install.sh"
  }

  /** What follows the end of the current line (the newline included). */
  function LineRest(s: string): (r: string)
    ensures |r| <= |s|
    ensures r == [] || r[0] == '\n'
  {
    s[IndexOf(s, '\n')..]
  }

  /** The scan `re.sub` performs: at each position try `filename=` and then `$filename=`, each
      followed by at least one non-newline character; a match keeps its prefix, replaces the rest
      of the line with `fileName` and resumes at the end of the line. */
  function Substitute(s: string, fileName: string): string
    decreases |s|
  {
    if s == [] then []
    else if OccursAt(s, ASSIGN, 0) && 9 < |s| && s[9] != '\n' then
      ASSIGN + fileName + Substitute(LineRest(s[9..]), fileName)
    else if OccursAt(s, PS_ASSIGN, 0) && 10 < |s| && s[10] != '\n' then
      PS_ASSIGN + fileName + Substitute(LineRest(s[10..]), fileName)
    else [s[0]] + Substitute(s[1..], fileName)
  }

  /** The index of the first `filename=` in a line, or its length when there is none. */
  function FirstAssign(line: string): (i: nat)
    ensures i <= |line|
  {
    if line == [] then 0
    else if OccursAt(line, ASSIGN, 0) then 0
    else 1 + FirstAssign(line[1..])
  }

  /** `FirstAssign` finds the first `filename=` of the line. */
  lemma {:induction false} FirstAssignSpec(line: string)
    ensures var i := FirstAssign(line);
      && (i < |line| ==> OccursAt(line, ASSIGN, i))
      && (forall k :: 0 <= k < i ==> !OccursAt(line, ASSIGN, k))
  {
    if line != [] && !OccursAt(line, ASSIGN, 0) {
      var t := line[1..];
      FirstAssignSpec(t);
      var i := 1 + FirstAssign(t);
      forall k | 1 <= k <= i && k < |line|
        ensures OccursAt(line, ASSIGN, k) <==> OccursAt(t, ASSIGN, k - 1)
      {
        if k + 9 <= |line| {
          assert line[k..k + 9] == t[k - 1..k + 8];
        }
      }
    }
  }

  /** One line of the rewritten script: everything after its first `filename=` is replaced by
      the file name, when there is something after it; any other line is kept. */
  function RewriteLine(line: string, fileName: string): string
  {
    var i := FirstAssign(line);
    if i + 9 < |line| then line[..i + 9] + fileName else line
  }

  function RewriteLines(lines: seq<string>, fileName: string): (r: seq<string>)
    ensures |r| == |lines|
  {
    if lines == [] then [] else [RewriteLine(lines[0], fileName)] + RewriteLines(lines[1..], fileName)
  }

  lemma {:induction false} RewriteLinesAt(lines: seq<string>, fileName: string, k: nat)
    requires k < |lines|
    ensures RewriteLines(lines, fileName)[k] == RewriteLine(lines[k], fileName)
  {
    if k > 0 {
      RewriteLinesAt(lines[1..], fileName, k - 1);
    }
  }

  /** The line-wise reading of the rewrite: split at newlines, rewrite each line, join. */
  function RewriteScript(s: string, fileName: string): string
  {
    Join(RewriteLines(Split(s, '\n'), fileName), '\n')
  }

  /** A line that does not start with a replaceable `filename=` rewrites as its tail does. */
  lemma RewriteLineStep(line: string, fileName: string)
    requires line != []
    requires !(OccursAt(line, ASSIGN, 0) && 9 < |line|)
    ensures RewriteLine(line, fileName) == [line[0]] + RewriteLine(line[1..], fileName)
  {
    if !OccursAt(line, ASSIGN, 0) {
      RewriteLineSkip(line, fileName);
    } else {
      RewriteLineBare(line, fileName);
    }
  }

  lemma RewriteLineSkip(line: string, fileName: string)
    requires line != [] && !OccursAt(line, ASSIGN, 0)
    ensures RewriteLine(line, fileName) == [line[0]] + RewriteLine(line[1..], fileName)
  {
    var t := line[1..];
    assert FirstAssign(line) == 1 + FirstAssign(t);
    if FirstAssign(t) + 9 < |t| {
      var i := FirstAssign(t);
      RewriteLineAt(line, i + 1, fileName);
      RewriteLineAt(t, i, fileName);
      RewriteLineCut(line, t, i, fileName, RewriteLine(line, fileName), RewriteLine(t, fileName));
    } else {
      assert line == [line[0]] + t;
    }
  }

  /** Cutting after the first `filename=` commutes with dropping the first character. */
  lemma RewriteLineCut(line: string, t: string, i: nat, fileName: string, a: string, b: string)
    requires line != [] && t == line[1..] && i + 9 < |t|
    requires a == line[..i + 10] + fileName && b == t[..i + 9] + fileName
    ensures a == [line[0]] + b
  {
    HeadSlice(line, i + 10);
    ConsAssoc(a, line[..i + 10], line[0], t[..i + 9], fileName, b);
  }

  /** A line whose first `filename=` is followed by something is cut after it. */
  lemma RewriteLineAt(line: string, i: nat, fileName: string)
    requires FirstAssign(line) == i && i + 9 < |line|
    ensures RewriteLine(line, fileName) == line[..i + 9] + fileName
  {
  }

  /** A prefix is the first character followed by the same prefix of the tail. */
  lemma HeadSlice(line: string, n: nat)
    requires 1 <= n <= |line|
    ensures line[..n] == [line[0]] + line[1..][..n - 1]
  {
  }

  /** A line that is exactly `filename=` is kept, as is its tail. */
  lemma RewriteLineBare(line: string, fileName: string)
    requires OccursAt(line, ASSIGN, 0) && |line| <= 9
    ensures RewriteLine(line, fileName) == [line[0]] + RewriteLine(line[1..], fileName)
  {
    var t := line[1..];
    assert |t| == 8;
    assert FirstAssign(line) == 0;
    assert line == [line[0]] + t;
  }

  /** A `$filename=` holds a `filename=` one character further on. */
  lemma PsAssignHoldsAssign(s: string)
    ensures OccursAt(s, PS_ASSIGN, 0) ==> OccursAt(s, ASSIGN, 1) && !OccursAt(s, ASSIGN, 0)
  {
    if OccursAt(s, PS_ASSIGN, 0) {
      assert s[..10] == PS_ASSIGN;
      assert s[1..10] == s[..10][1..];
      assert PS_ASSIGN[1..] == ASSIGN;
      assert s[0] == '$';
    }
  }

  /** The scan over one line followed by the rest of the text rewrites that line alone. */
  lemma {:induction false} SubstituteLine(line: string, rest: string, fileName: string)
    requires '\n' !in line
    requires rest == [] || rest[0] == '\n'
    ensures Substitute(line + rest, fileName) == RewriteLine(line, fileName) + Substitute(rest, fileName)
    decreases |line|
  {
    var s := line + rest;
    if line == [] {
      assert s == rest;
    } else if OccursAt(s, ASSIGN, 0) && 9 < |s| && s[9] != '\n' {
      SubstituteLineAssign(line, rest, fileName);
    } else if OccursAt(s, PS_ASSIGN, 0) && 10 < |s| && s[10] != '\n' {
      SubstituteLinePsAssign(line, rest, fileName);
    } else {
      SubstituteLineOther(line, rest, fileName);
      SubstituteLine(line[1..], rest, fileName);
      ConsAssoc(Substitute(s, fileName), RewriteLine(line, fileName), line[0],
                RewriteLine(line[1..], fileName), Substitute(rest, fileName), Substitute(line[1..] + rest, fileName));
    }
  }

  /** `[c] + (a + b)` regrouped, over plain values. */
  lemma ConsAssoc(whole: string, left: string, c: char, a: string, b: string, ab: string)
    requires whole == [c] + ab && ab == a + b && left == [c] + a
    ensures whole == left + b
  {
  }

  /** The line starts with a replaceable `filename=`. */
  lemma SubstituteLineAssign(line: string, rest: string, fileName: string)
    requires '\n' !in line
    requires rest == [] || rest[0] == '\n'
    requires var s := line + rest; OccursAt(s, ASSIGN, 0) && 9 < |s| && s[9] != '\n'
    ensures Substitute(line + rest, fileName) == RewriteLine(line, fileName) + Substitute(rest, fileName)
  {
    var s := line + rest;
    NoTokenAcrossLineEnd(line, rest, ASSIGN);
    assert 9 < |line|;
    assert s[..9] == line[..9];
    assert s[9..] == line[9..] + rest;
    IndexOfLineEnd(line[9..], rest);
    assert FirstAssign(line) == 0;
  }

  /** The line starts with a replaceable `$filename=`: the same as a `filename=` one further on. */
  lemma SubstituteLinePsAssign(line: string, rest: string, fileName: string)
    requires '\n' !in line
    requires rest == [] || rest[0] == '\n'
    requires var s := line + rest; !(OccursAt(s, ASSIGN, 0) && 9 < |s| && s[9] != '\n')
    requires var s := line + rest; OccursAt(s, PS_ASSIGN, 0) && 10 < |s| && s[10] != '\n'
    ensures Substitute(line + rest, fileName) == RewriteLine(line, fileName) + Substitute(rest, fileName)
  {
    var s := line + rest;
    NoTokenAcrossLineEnd(line, rest, PS_ASSIGN);
    assert s[..10] == line[..10];
    PsAssignScan(line, rest, fileName);
    PsAssignLine(line, fileName);
  }

  /** The scan replaces the rest of a `$filename=` line and resumes at its end. */
  lemma PsAssignScan(line: string, rest: string, fileName: string)
    requires '\n' !in line && 10 < |line|
    requires rest == [] || rest[0] == '\n'
    requires var s := line + rest; !(OccursAt(s, ASSIGN, 0) && 9 < |s| && s[9] != '\n')
    requires var s := line + rest; OccursAt(s, PS_ASSIGN, 0) && s[10] != '\n'
    ensures Substitute(line + rest, fileName) == PS_ASSIGN + fileName + Substitute(rest, fileName)
  {
    var s := line + rest;
    assert s[10..] == line[10..] + rest;
    IndexOfLineEnd(line[10..], rest);
  }

  /** A line starting with `$filename=` has its first `filename=` at index 1. */
  lemma PsAssignLine(line: string, fileName: string)
    requires OccursAt(line, PS_ASSIGN, 0) && 10 < |line|
    ensures RewriteLine(line, fileName) == PS_ASSIGN + fileName
  {
    PsAssignHoldsAssign(line);
    var t := line[1..];
    assert t[..9] == line[1..10];
    assert FirstAssign(t) == 0;
    assert FirstAssign(line) == 1;
  }

  /** No replaceable token at the start: the first character is copied. */
  lemma SubstituteLineOther(line: string, rest: string, fileName: string)
    requires '\n' !in line && line != []
    requires rest == [] || rest[0] == '\n'
    requires var s := line + rest; !(OccursAt(s, ASSIGN, 0) && 9 < |s| && s[9] != '\n')
    requires var s := line + rest; !(OccursAt(s, PS_ASSIGN, 0) && 10 < |s| && s[10] != '\n')
    ensures Substitute(line + rest, fileName) == [line[0]] + Substitute(line[1..] + rest, fileName)
    ensures RewriteLine(line, fileName) == [line[0]] + RewriteLine(line[1..], fileName)
  {
    var s := line + rest;
    assert s[1..] == line[1..] + rest;
    assert 9 < |line| ==> s[..9] == line[..9] && s[9] == line[9];
    RewriteLineStep(line, fileName);
  }

  /** A token without a newline cannot start a line shorter than itself. */
  lemma NoTokenAcrossLineEnd(line: string, rest: string, token: string)
    requires '\n' !in token
    requires rest == [] || rest[0] == '\n'
    ensures |line| < |token| ==> !OccursAt(line + rest, token, 0)
  {
    var s := line + rest;
    if |line| < |token| && |token| <= |s| {
      assert s[..|token|][|line|] == s[|line|] == '\n';
    }
  }

  lemma IndexOfLineEnd(a: string, rest: string)
    requires '\n' !in a
    requires rest == [] || rest[0] == '\n'
    ensures IndexOf(a + rest, '\n') == |a|
    ensures (a + rest)[|a|..] == rest
  {
    var s := a + rest;
    assert forall k :: 0 <= k < |a| ==> s[k] == a[k];
    if rest != [] {
      assert s[|a|] == '\n';
    }
  }

  /** A newline is copied as it is and the scan goes on after it. */
  lemma SubstituteNewline(tail: string, fileName: string)
    ensures Substitute(['\n'] + tail, fileName) == ['\n'] + Substitute(tail, fileName)
  {
    var s := ['\n'] + tail;
    assert s[0] == '\n';
    assert !OccursAt(s, ASSIGN, 0) && !OccursAt(s, PS_ASSIGN, 0);
    assert s[1..] == tail;
  }

  /** The line-wise rewrite of a first line, a newline and the rest. */
  lemma RewriteScriptStep(s: string, fileName: string)
    requires IndexOf(s, '\n') < |s|
    ensures var i := IndexOf(s, '\n');
      RewriteScript(s, fileName)
        == RewriteLine(s[..i], fileName) + ['\n'] + RewriteScript(s[i + 1..], fileName)
  {
    var i := IndexOf(s, '\n');
    RewriteLinesOfSplit(s, fileName);
    JoinStep(RewriteScript(s, fileName), RewriteScript(s[i + 1..], fileName), RewriteLine(s[..i], fileName),
      RewriteLines(Split(s, '\n'), fileName), RewriteLines(Split(s[i + 1..], '\n'), fileName));
  }

  /** Rewriting the lines of a script with a line break handles its first line, then the rest. */
  lemma RewriteLinesOfSplit(s: string, fileName: string)
    requires IndexOf(s, '\n') < |s|
    ensures var i := IndexOf(s, '\n');
      RewriteLines(Split(s, '\n'), fileName)
        == [RewriteLine(s[..i], fileName)] + RewriteLines(Split(s[i + 1..], '\n'), fileName)
  {
    var i := IndexOf(s, '\n');
    SplitAtFirst(s, '\n');
    RewriteLinesCons(s[..i], Split(s[i + 1..], '\n'), fileName);
  }

  /** `JoinCons` over named values, which keeps the rewrite functions folded. */
  lemma JoinStep(script: string, tail: string, first: string, all: seq<string>, rest: seq<string>)
    requires |rest| >= 1 && all == [first] + rest
    requires script == Join(all, '\n') && tail == Join(rest, '\n')
    ensures script == first + ['\n'] + tail
  {
    JoinCons(first, rest, '\n');
  }

  lemma RewriteLinesCons(line: string, lines: seq<string>, fileName: string)
    ensures RewriteLines([line] + lines, fileName) == [RewriteLine(line, fileName)] + RewriteLines(lines, fileName)
  {
    assert ([line] + lines)[1..] == lines;
  }

  /** The scan `re.sub` performs is exactly the line-wise rewrite. */
  lemma {:induction false} SubstituteIsLineWise(s: string, fileName: string)
    ensures Substitute(s, fileName) == RewriteScript(s, fileName)
    decreases |s|
  {
    var i := IndexOf(s, '\n');
    if i == |s| {
      SubstituteOneLine(s, fileName);
    } else {
      SubstituteIsLineWise(s[i + 1..], fileName);
      LineWiseStep(s, fileName);
    }
  }

  /** If the scan is line-wise after the first line break, it is line-wise on the whole text. */
  lemma LineWiseStep(s: string, fileName: string)
    requires IndexOf(s, '\n') < |s|
    requires Substitute(s[IndexOf(s, '\n') + 1..], fileName) == RewriteScript(s[IndexOf(s, '\n') + 1..], fileName)
    ensures Substitute(s, fileName) == RewriteScript(s, fileName)
  {
    SubstituteFirstLine(s, fileName);
    RewriteScriptStep(s, fileName);
  }

  /** The scan over a text without a line break rewrites it as one line. */
  lemma SubstituteOneLine(s: string, fileName: string)
    requires IndexOf(s, '\n') == |s|
    ensures Substitute(s, fileName) == RewriteLine(s, fileName) == RewriteScript(s, fileName)
  {
    assert s + [] == s;
    SubstituteLine(s, [], fileName);
    assert Substitute([], fileName) == [];
    RewriteScriptOneLine(s, fileName);
  }

  /** The scan over a text with a line break rewrites its first line, keeps the break and goes
      on with the rest. */
  lemma SubstituteFirstLine(s: string, fileName: string)
    requires IndexOf(s, '\n') < |s|
    ensures var i := IndexOf(s, '\n');
      Substitute(s, fileName) == RewriteLine(s[..i], fileName) + ['\n'] + Substitute(s[i + 1..], fileName)
  {
    var i := IndexOf(s, '\n');
    var line := s[..i];
    var tail := s[i + 1..];
    assert '\n' !in line;
    assert line + (['\n'] + tail) == s;
    SubstituteLine(line, ['\n'] + tail, fileName);
    SubstituteNewline(tail, fileName);
    Regroup(Substitute(s, fileName), RewriteLine(line, fileName),
      Substitute(['\n'] + tail, fileName), Substitute(tail, fileName));
  }

  lemma Regroup(whole: string, first: string, rest: string, tail: string)
    requires whole == first + rest && rest == ['\n'] + tail
    ensures whole == first + ['\n'] + tail
  {
  }

  /** A script without a line break is one line. */
  lemma RewriteScriptOneLine(s: string, fileName: string)
    requires IndexOf(s, '\n') == |s|
    ensures RewriteScript(s, fileName) == RewriteLine(s, fileName)
  {
    assert Split(s, '\n') == [s];
    assert RewriteLines([s], fileName) == [RewriteLine(s, fileName)];
  }

  /** A script with no `filename=` in it is left as it was. */
  lemma {:induction false} SubstituteWithoutAssignment(s: string, fileName: string)
    requires forall p :: 0 <= p <= |s| ==> !OccursAt(s, ASSIGN, p)
    ensures Substitute(s, fileName) == s
    decreases |s|
  {
    if s != [] {
      PsAssignHoldsAssign(s);
      forall p | 0 <= p <= |s[1..]|
        ensures !OccursAt(s[1..], ASSIGN, p)
      {
        assert !OccursAt(s, ASSIGN, p + 1);
        if p + 9 <= |s[1..]| {
          assert s[1..][p..p + 9] == s[p + 1..p + 10];
        }
      }
      SubstituteWithoutAssignment(s[1..], fileName);
    }
  }

  /** A rewritten line holds no newline when the file name holds none. */
  lemma RewriteLineHasNoNewline(line: string, fileName: string)
    requires '\n' !in line && '\n' !in fileName
    ensures '\n' !in RewriteLine(line, fileName)
  {
    var i := FirstAssign(line);
    if i + 9 < |line| {
      assert forall k :: 0 <= k < i + 9 ==> line[..i + 9][k] == line[k];
    }
  }

  /** The rewrite keeps the script's lines: same number of lines, and line k of the result is
      line k of the script, rewritten. */
  lemma SubstituteKeepsLines(s: string, fileName: string)
    requires '\n' !in fileName
    ensures Split(Substitute(s, fileName), '\n') == RewriteLines(Split(s, '\n'), fileName)
  {
    SubstituteIsLineWise(s, fileName);
    var lines := Split(s, '\n');
    var out := RewriteLines(lines, fileName);
    forall k | 0 <= k < |out|
      ensures '\n' !in out[k]
    {
      RewriteLinesAt(lines, fileName, k);
      RewriteLineHasNoNewline(lines[k], fileName);
    }
    SplitJoin(out, '\n');
  }

  /** Two strings that agree on their first `n` characters agree on every `filename=` that ends
      within them. */
  lemma OccursAtSharedPrefix(a: string, b: string, n: nat, k: nat)
    requires n <= |a| && n <= |b| && a[..n] == b[..n]
    requires k + 9 <= n
    ensures OccursAt(a, ASSIGN, k) <==> OccursAt(b, ASSIGN, k)
  {
    assert a[k..k + 9] == a[..n][k..k + 9];
    assert b[k..k + 9] == b[..n][k..k + 9];
  }

  /** The first `filename=` is where one occurs with none before it. */
  lemma FirstAssignIs(line: string, i: nat)
    requires i < |line| && OccursAt(line, ASSIGN, i)
    requires forall k :: 0 <= k < i ==> !OccursAt(line, ASSIGN, k)
    ensures FirstAssign(line) == i
  {
    FirstAssignSpec(line);
  }

  /** Rewriting a line twice gives what rewriting once gave, for a non-empty file name. */
  lemma RewriteLineIdempotent(line: string, fileName: string)
    requires fileName != []
    ensures RewriteLine(RewriteLine(line, fileName), fileName) == RewriteLine(line, fileName)
  {
    var i := FirstAssign(line);
    if i + 9 < |line| {
      var once := line[..i + 9] + fileName;
      RewriteLineAt(line, i, fileName);
      CutKeepsFirstAssign(line, i, fileName, once);
      RewriteLineAt(once, i, fileName);
      assert once[..i + 9] + fileName == once;
    }
  }

  /** Cutting a line after its first `filename=` and appending a name keeps that `filename=` first. */
  lemma CutKeepsFirstAssign(line: string, i: nat, fileName: string, once: string)
    requires FirstAssign(line) == i && i + 9 < |line|
    requires fileName != [] && once == line[..i + 9] + fileName
    ensures FirstAssign(once) == i && i + 9 < |once|
  {
    assert once[..i + 9] == line[..i + 9];
    FirstAssignSpec(line);
    forall k | 0 <= k <= i
      ensures OccursAt(once, ASSIGN, k) <==> OccursAt(line, ASSIGN, k)
    {
      OccursAtSharedPrefix(once, line, i + 9, k);
    }
    FirstAssignIs(once, i);
  }

  /** Running the rewrite again on its own output changes nothing: re-staging a platform with the
      same file name leaves the install script stable. */
  lemma SubstituteIdempotent(s: string, fileName: string)
    requires fileName != [] && '\n' !in fileName
    ensures Substitute(Substitute(s, fileName), fileName) == Substitute(s, fileName)
  {
    var once := Substitute(s, fileName);
    SubstituteIsLineWise(once, fileName);
    SubstituteKeepsLines(s, fileName);
    var lines := RewriteLines(Split(s, '\n'), fileName);
    assert RewriteLines(lines, fileName) == lines by {
      forall k | 0 <= k < |lines|
        ensures RewriteLines(lines, fileName)[k] == lines[k]
      {
        RewriteLinesAt(lines, fileName, k);
        RewriteLinesAt(Split(s, '\n'), fileName, k);
        RewriteLineIdempotent(Split(s, '\n')[k], fileName);
      }
    }
    SubstituteIsLineWise(s, fileName);
  }

  // ---------------------------------------------------------------------------------------------
  // Reading a script in text mode

  /** What reading a file in text mode yields: every line break, whether `\r\n`, a lone `\r` or
      `\n`, becomes `\n` (universal newlines); writing back in text mode keeps `\n`. */
  function ReadText(s: string): string
    decreases |s|
  {
    if s == [] then []
    else if s[0] == '\r' then ['\n'] + ReadText(if |s| > 1 && s[1] == '\n' then s[2..] else s[1..])
    else [s[0]] + ReadText(s[1..])
  }

  /** Text mode leaves no carriage return behind. */
  lemma {:induction false} ReadTextHasNoCarriageReturn(s: string)
    ensures '\r' !in ReadText(s)
    decreases |s|
  {
    if s != [] {
      if s[0] == '\r' {
        ReadTextHasNoCarriageReturn(if |s| > 1 && s[1] == '\n' then s[2..] else s[1..]);
      } else {
        ReadTextHasNoCarriageReturn(s[1..]);
      }
    }
  }

  /** A text without carriage returns reads back unchanged, so reading is idempotent. */
  lemma {:induction false} ReadTextKeepsPlainText(s: string)
    requires '\r' !in s
    ensures ReadText(s) == s
    decreases |s|
  {
    if s != [] {
      assert s[0] != '\r' && '\r' !in s[1..];
      ReadTextKeepsPlainText(s[1..]);
    }
  }

  /** Text without carriage returns followed by `\r\n`, or by a lone `\r`, reads as that text
      followed by `\n`. */
  lemma {:induction false} ReadTextLineBreak(line: string, t: string)
    requires '\r' !in line
    ensures ReadText(line + "\r\n" + t) == line + "\n" + ReadText(t)
    ensures t == [] || t[0] != '\n' ==> ReadText(line + "\r" + t) == line + "\n" + ReadText(t)
    decreases |line|
  {
    if line == [] {
      assert line + "\r\n" + t == "\r\n" + t && ("\r\n" + t)[2..] == t;
      assert line + "\r" + t == "\r" + t && ("\r" + t)[1..] == t;
    } else {
      ReadTextLineBreak(line[1..], t);
      assert (line + "\r\n" + t)[1..] == line[1..] + "\r\n" + t;
      assert (line + "\r" + t)[1..] == line[1..] + "\r" + t;
    }
  }

  /** Reading a text back once more changes nothing. */
  lemma ReadTextIdempotent(s: string)
    ensures ReadText(ReadText(s)) == ReadText(s)
  {
    ReadTextHasNoCarriageReturn(s);
    ReadTextKeepsPlainText(ReadText(s));
  }

  // ---------------------------------------------------------------------------------------------
  // Staging one download

  /** A file name taken from the header is one line: non-empty, without a line break. */
  lemma FileNameIsOneLine(header: string)
    requires FileNameFromDisposition(header).Some?
    ensures var name := FileNameFromDisposition(header).value;
      name != [] && '\n' !in name
  {
    var name := FileNameFromDisposition(header).value;
    FileNameFromDispositionSpec(header);
    var p :| IsMatch(header, p, name) && forall q, name' :: q < p ==> !IsMatch(header, q, name');
  }

  const NOT_JSON := "JSONDecodeError: the response body is not JSON"
  const NO_STREAM := "AttributeError: the response holds no stream"
  const NO_FILE_NAME := "IndexError: no file name in content-disposition"
  const NO_INSTALL_SCRIPT := "FileNotFoundError: no install script"

  /** What the API call makes of a response before the download reads it: a response whose
      status is not 200 has its body logged as JSON, and a response that is not a stream is
      parsed as JSON and holds no stream; either parse raises on a body that is not JSON. */
  function ApiCallError(r: Response): (e: Option<string>)
    ensures e.None? <==> IsStream(r) && (r.status == 200 || r.bodyIsJson)
  {
    if (r.status != 200 || !IsStream(r)) && !r.bodyIsJson then Some(NOT_JSON)
    else if !IsStream(r) then Some(NO_STREAM)
    else None
  }

  /** What handling one response does to the local files: the API call must keep the response
      as a stream and its `content-disposition` must name a file; a 200 response is written to
      `./{dir}/{name}`; then the platform's install script in the same directory is read and
      rewritten to name the file. The result is the file name, or the error the source raises. */
  function StageDownload(files: map<Path, FileData>, r: Response, dirName: string, osName: string)
    : (Result<string>, map<Path, FileData>)
  {
    if ApiCallError(r).Some? then (Failure(ApiCallError(r).value), files)
    else
      match FileNameFromDisposition(HeaderValue(r, "content-disposition"))
      case None => (Failure(NO_FILE_NAME), files)
      case Some(fileName) => PointScript(StoreBody(files, r, dirName, fileName), dirName, osName, fileName)
  }

  /** A 200 response's body is written to `./{dir}/{name}`; any other status writes nothing. */
  function StoreBody(files: map<Path, FileData>, r: Response, dirName: string, fileName: string)
    : map<Path, FileData>
  {
    if r.status == 200 then files[Staged(dirName, fileName) := r.body] else files
  }

  /** The platform's install script is read in text mode, rewritten to name the file and
      written back; a missing script raises. */
  function PointScript(files: map<Path, FileData>, dirName: string, osName: string, fileName: string)
    : (Result<string>, map<Path, FileData>)
  {
    var script := Staged(dirName, InstallScriptName(osName));
    if script in files && files[script].Text? then
      (Success(fileName), files[script := Text(Substitute(ReadText(files[script].text), fileName))])
    else
      (Failure(NO_INSTALL_SCRIPT), files)
  }

  /** Staging touches only the working directory it is given and adds at most the downloaded
      file to it; a response the API call rejects, or one that names no file, changes nothing. */
  lemma StageDownloadFrame(files: map<Path, FileData>, r: Response, dirName: string, osName: string)
    ensures var (res, files') := StageDownload(files, r, dirName, osName);
      && (forall p :: p in files && !(p.Staged? && p.dir == dirName) ==> p in files' && files'[p] == files[p])
      && (forall p :: p in files' && p !in files ==>
            && p.Staged? && p.dir == dirName && r.status == 200
            && FileNameFromDisposition(HeaderValue(r, "content-disposition")) == Some(p.name))
      && files.Keys <= files'.Keys
      && BucketView(files') == BucketView(files)
      && (|| !IsStream(r) || (r.status != 200 && !r.bodyIsJson)
          || FileNameFromDisposition(HeaderValue(r, "content-disposition")).None? ==>
            res.Failure? && files' == files)
  {
    var found := FileNameFromDisposition(HeaderValue(r, "content-disposition"));
    if ApiCallError(r).None? && found.Some? {
      var name := found.value;
      var written := StoreBody(files, r, dirName, name);
      var files' := PointScript(written, dirName, osName, name).1;
      assert StageDownload(files, r, dirName, osName).1 == files';
      StoreBodyFrame(files, r, dirName, name);
      PointScriptFrame(written, dirName, osName, name);

    }
  }

  /** Storing the body adds at most `./{dir}/{name}`, and only for a 200 response. */
  lemma StoreBodyFrame(files: map<Path, FileData>, r: Response, dirName: string, fileName: string)
    ensures var written := StoreBody(files, r, dirName, fileName);
      && (forall p :: p in files && !(p.Staged? && p.dir == dirName) ==> p in written && written[p] == files[p])
      && (forall p :: p in written && p !in files ==> p == Staged(dirName, fileName) && r.status == 200)
      && files.Keys <= written.Keys
      && BucketView(written) == BucketView(files)
  {
    WriteStagedFrame(files, StoreBody(files, r, dirName, fileName), dirName, fileName);
  }

  /** Rewriting the install script changes only that script, which is already there. */
  lemma PointScriptFrame(files: map<Path, FileData>, dirName: string, osName: string, fileName: string)
    ensures var files' := PointScript(files, dirName, osName, fileName).1;
      && (forall p :: p in files && !(p.Staged? && p.dir == dirName) ==> p in files' && files'[p] == files[p])
      && files'.Keys == files.Keys
      && BucketView(files') == BucketView(files)
  {
    WriteStagedFrame(files, PointScript(files, dirName, osName, fileName).1, dirName, InstallScriptName(osName));
  }

  /** One write into a working directory, or none. */
  lemma WriteStagedFrame(files: map<Path, FileData>, files': map<Path, FileData>, dirName: string, name: string)
    requires || files' == files
             || (Staged(dirName, name) in files' && files' == files[Staged(dirName, name) := files'[Staged(dirName, name)]])
    ensures forall p :: p in files && !(p.Staged? && p.dir == dirName) ==> p in files' && files'[p] == files[p]
    ensures forall p :: p in files' && p !in files ==> p == Staged(dirName, name)
    ensures files.Keys <= files'.Keys
    ensures BucketView(files') == BucketView(files)
  {
    if files' != files {
      BucketViewIgnoresStaged(files, dirName, name, files'[Staged(dirName, name)]);
    }
  }

  /** A successful download: the response is a stream whose body parses as JSON unless the
      status is 200, the file name is the header's first match, a 200 body is stored under it,
      and the install script's lines are those of the old script as text mode reads it, each
      rewritten to name the file; rewriting the new script again with the same name changes
      nothing. */
  lemma StageDownloadSuccess(files: map<Path, FileData>, r: Response, dirName: string, osName: string)
    ensures var (res, files') := StageDownload(files, r, dirName, osName);
      var script := Staged(dirName, InstallScriptName(osName));
      res.Success? ==>
        && IsStream(r) && (r.status != 200 ==> r.bodyIsJson)
        && FileNameFromDisposition(HeaderValue(r, "content-disposition")) == Some(res.value)
        && (r.status == 200 && res.value != script.name ==> files'[Staged(dirName, res.value)] == r.body)
        && (r.status != 200 && script != Staged(dirName, res.value) ==>
              (Staged(dirName, res.value) in files') == (Staged(dirName, res.value) in files))
        && script in files' && files'[script].Text?
        && var old_ := if r.status == 200 && res.value == script.name then r.body else files[script];
           old_.Text?
           && Split(files'[script].text, '\n') == RewriteLines(Split(ReadText(old_.text), '\n'), res.value)
           && Substitute(files'[script].text, res.value) == files'[script].text
  {
    var (res, files') := StageDownload(files, r, dirName, osName);
    if res.Success? {
      var name := res.value;
      FileNameIsOneLine(HeaderValue(r, "content-disposition"));
      var written := StoreBody(files, r, dirName, name);
      var script := Staged(dirName, InstallScriptName(osName));
      SubstituteKeepsLines(ReadText(written[script].text), name);
      SubstituteIdempotent(ReadText(written[script].text), name);
    }
  }

  // ---------------------------------------------------------------------------------------------
  // The API object

  /** `r` is what the asset-group lookup answers: the id of the first group named `assets`, or
      None when no group has that name. */
  ghost predicate FirstAssetGroup(groups: seq<ObjectGroup>, r: Option<string>)
  {
    && (r.None? <==> forall i :: 0 <= i < |groups| ==> groups[i].name != ASSET_GRP_NAME)
    && (r.Some? ==>
          exists i :: && 0 <= i < |groups| && groups[i].name == ASSET_GRP_NAME && groups[i].id == r.value
                      && forall j :: 0 <= j < i ==> groups[j].name != ASSET_GRP_NAME)
  }

  /** The answer of the asset-group lookup over a listing. */
  function AssetGroupOf(groups: seq<ObjectGroup>): (r: Option<string>)
    ensures FirstAssetGroup(groups, r)
  {
    if groups == [] then None
    else if groups[0].name == ASSET_GRP_NAME then
      assert groups[0].id == Some(groups[0].id).value;
      Some(groups[0].id)
    else
      var r := AssetGroupOf(groups[1..]);
      assert forall i :: 1 <= i < |groups| ==> groups[i] == groups[1..][i - 1];
      if r.Some? then
        var i :| && 0 <= i < |groups[1..]| && groups[1..][i].name == ASSET_GRP_NAME && groups[1..][i].id == r.value
                 && forall j :: 0 <= j < i ==> groups[1..][j].name != ASSET_GRP_NAME;
        assert groups[i + 1].name == ASSET_GRP_NAME && groups[i + 1].id == r.value;
        r
      else r
  }

  class PackageDownloadsApi {
    /** Looked up once, when the object is made. */
    const assetGroupId: Option<string>

    constructor(groups: seq<ObjectGroup>)
      ensures assetGroupId == AssetGroupOf(groups)
    {
      var id := GetAssetGroupId(groups);
      assetGroupId := id;
    }

    /** The first group of the listing named `assets`. */
    static method GetAssetGroupId(groups: seq<ObjectGroup>) returns (r: Option<string>)
      ensures r == AssetGroupOf(groups)
    {
      for i := 0 to |groups|
        invariant AssetGroupOf(groups[i..]) == AssetGroupOf(groups)
      {
        assert groups[i..][1..] == groups[i + 1..];
        if groups[i].name == ASSET_GRP_NAME {
          return Some(groups[i].id);
        }
      }
      return None;
    }

    /** Requests the installer of one platform, stores it in `./{dirName}/` and points the
        platform's install script at it. */
    method DownloadPackage(fs: FileSystem, server: string -> Response, osName: string, dirName: string,
                           queryParams: Params)
      returns (res: Result<string>)
      modifies fs
      ensures (res, fs.files)
        == StageDownload(old(fs.files), server(DownloadPath(osName, assetGroupId, queryParams)), dirName, osName)
    {
      var path := DownloadPath(osName, assetGroupId, queryParams);
      var response := server(path);
      if (response.status != 200 || !IsStream(response)) && !response.bodyIsJson {
        return Failure(NOT_JSON);
      }
      if !IsStream(response) {
        return Failure(NO_STREAM);
      }
      var found := FileNameFromDisposition(HeaderValue(response, "content-disposition"));
      if found.None? {
        return Failure(NO_FILE_NAME);
      }
      var fileName := found.value;
      if response.status == 200 {
        fs.files := fs.files[Staged(dirName, fileName) := response.body];
      }
      var installFile := Staged(dirName, InstallScriptName(osName));
      if !(installFile in fs.files && fs.files[installFile].Text?) {
        return Failure(NO_INSTALL_SCRIPT);
      }
      var content := ReadText(fs.files[installFile].text);
      content := Substitute(content, fileName);
      fs.files := fs.files[installFile := Text(content)];
      return Success(fileName);
    }
  }
}
