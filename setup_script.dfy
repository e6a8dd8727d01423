/** The two line-processing helpers of the package's build script: the
    version read from the package's `__init__.py` and the requirement names
    read from `requirements.txt`. Both work on the file's lines as
    `readlines()` returns them, trailing newlines included. */
module SetupScript {
  import opened Errors
  import opened PyStrings

  const VersionPrefix := "__version__ ="
  const Assignment := " = "

  /** A line that `get_version` takes as the version assignment. */
  predicate IsVersionLine(line: string) {
    StartsWith(line, VersionPrefix)
  }

  /** What `get_version` returns for the line it picked: the second
      `" = "`-separated piece with its first and its last two characters
      dropped; `[1]` raises IndexError when there is no second piece. */
  function VersionOfLine(line: string): (r: Result<string>)
    ensures r.Err? <==> forall j :: !HasAt(line, Assignment, j)
    ensures r.Err? ==> r.error == IndexError
  {
    var parts := Split(line, Assignment);
    if |parts| < 2 then Err(IndexError)
    else
      Ok(Slice(parts[1], 1, -2))
  }

  /** `get_version` over the lines of the package's `__init__.py`: the
      first version line decides; ValueError when there is none. */
  function GetVersion(lines: seq<string>): (r: Result<string>)
    ensures r == Err(ValueError(NoVersionIdentifier)) <==>
              forall k :: 0 <= k < |lines| ==> !IsVersionLine(lines[k])
  {
    if lines == [] then Err(ValueError(NoVersionIdentifier))
    else if IsVersionLine(lines[0]) then VersionOfLine(lines[0])
    else GetVersion(lines[1..])
  }

  /** The first version line alone decides the result. */
  lemma {:induction false} GetVersionFirstMatch(lines: seq<string>, k: nat)
    requires k < |lines| && IsVersionLine(lines[k])
    requires forall j :: 0 <= j < k ==> !IsVersionLine(lines[j])
    ensures GetVersion(lines) == VersionOfLine(lines[k])
  {
    if k > 0 {
      assert !IsVersionLine(lines[0]);
      GetVersionFirstMatch(lines[1..], k - 1);
    }
  }

  /** Lines after one that already holds a version line are never read. */
  lemma {:induction false} GetVersionIgnoresLaterLines(lines: seq<string>, more: seq<string>)
    requires exists k :: 0 <= k < |lines| && IsVersionLine(lines[k])
    ensures GetVersion(lines + more) == GetVersion(lines)
  {
    if !IsVersionLine(lines[0]) {
      assert (lines + more)[1..] == lines[1..] + more;
      var k :| 0 <= k < |lines| && IsVersionLine(lines[k]);
      assert k > 0 && IsVersionLine(lines[1..][k - 1]);
      GetVersionIgnoresLaterLines(lines[1..], more);
    }
  }

  /** The version line the package's `__init__.py` carries for version `v`. */
  function VersionLine(v: string): string {
    "__version__ = \"" + v + "\"\n"
  }

  /** An occurrence of `" = "` in the quoted version lies inside the version. */
  lemma QuotedOccurrence(v: string)
    ensures forall j :: HasAt("\"" + v + "\"\n", Assignment, j) ==> 1 <= j && HasAt(v, Assignment, j - 1)
  {
    var q := "\"" + v + "\"\n";
    forall j | HasAt(q, Assignment, j) ensures 1 <= j && HasAt(v, Assignment, j - 1) {
      assert q[j..j + 3] == Assignment;
      assert q[j] == ' ' && q[j + 1] == '=' && q[j + 2] == ' ';
      assert 1 <= j && j + 2 <= |v|;
      assert v[j - 1..j + 2] == q[j..j + 3];
    }
  }

  /** Reading back a written version line yields the version, provided the
      version itself contains no `" = "`. */
  lemma VersionLineRoundTrip(v: string)
    requires forall j :: !HasAt(v, Assignment, j)
    ensures IsVersionLine(VersionLine(v))
    ensures VersionOfLine(VersionLine(v)) == Ok(v)
  {
    var line := VersionLine(v);
    var q := "\"" + v + "\"\n";
    assert line == "__version__" + Assignment + q;
    assert StartsWith(line, VersionPrefix) by {
      assert line[..|VersionPrefix|] == VersionPrefix;
    }
    assert HasAt(line, Assignment, 11);
    forall j | 0 <= j < 11 ensures !HasAt(line, Assignment, j) {
      assert line[j] == "__version__"[j];
    }
    assert Find(line, Assignment) == Some(11);
    QuotedOccurrence(v);
    assert line[..11] == "__version__";
    assert line[14..] == q;
    assert Find(q, Assignment) == None;
    assert Split(q, Assignment) == [q];
    assert Split(line, Assignment) == ["__version__", q];
    SliceDropsOneAndTwo(q);
    assert q[1..|q| - 2] == v;
  }

  /** A line not starting with `_` is no version line. */
  lemma NotVersionLine(line: string)
    requires line != [] && line[0] != '_'
    ensures !IsVersionLine(line)
  {
    assert VersionPrefix[0] == '_';
  }

  lemma VersionHasNoAssignment()
    ensures forall j :: !HasAt("0.4.3", Assignment, j)
  {
    forall j ensures !HasAt("0.4.3", Assignment, j) {
      if 0 <= j < 3 {
        assert "0.4.3"[j] != ' ';
      }
    }
  }

  /** The package's `__init__.py`: its version line for "0.4.3", the lines
      before it (comments, a docstring, blank lines: none starts with `_`)
      as `header` and the lines after it as `rest`. The build reads version
      "0.4.3" from it. */
  lemma InitModuleVersion(header: seq<string>, rest: seq<string>)
    requires forall j :: 0 <= j < |header| ==> header[j] == "" || header[j][0] != '_'
    ensures GetVersion(header + ["__version__ = \"0.4.3\"\n"] + rest) == Ok("0.4.3")
  {
    VersionHasNoAssignment();
    VersionLineRoundTrip("0.4.3");
    var lines := header + ["__version__ = \"0.4.3\"\n"] + rest;
    assert lines[|header|] == VersionLine("0.4.3");
    forall j | 0 <= j < |header| ensures !IsVersionLine(lines[j]) {
      assert lines[j] == header[j];
      if header[j] != "" {
        NotVersionLine(header[j]);
      }
    }
    GetVersionFirstMatch(lines, |header|);
  }

  /** `s.split(" ", maxsplit=1)[0]`: the text before the first space, or the
      whole line, newline included, when it has none. */
  function FirstToken(line: string): (token: string)
    ensures token <= line
    ensures ' ' !in token
    ensures token == line || line[|token|] == ' '
  {
    match Find(line, " ")
    case None =>
      assert forall k :: 0 <= k < |line| && line[k] == ' ' ==> HasAt(line, " ", k) by {
        forall k | 0 <= k < |line| && line[k] == ' ' ensures HasAt(line, " ", k) {
          assert line[k..k + 1] == [line[k]];
        }
      }
      line
    case Some(i) =>
      assert forall k :: 0 <= k < i && line[k] == ' ' ==> HasAt(line, " ", k) by {
        forall k | 0 <= k < i && line[k] == ' ' ensures HasAt(line, " ", k) {
          assert line[k..k + 1] == [line[k]];
        }
      }
      assert line[i..i + 1] == " ";
      line[..i]
  }

  /** `get_install_requires` over the lines of `requirements.txt`: the first
      token of every non-empty line, in order. */
  function GetInstallRequires(lines: seq<string>): (reqs: seq<string>)
    ensures |reqs| <= |lines|
    ensures forall k :: 0 <= k < |reqs| ==> ' ' !in reqs[k]
  {
    if lines == [] then []
    else (if lines[0] == "" then [] else [FirstToken(lines[0])]) + GetInstallRequires(lines[1..])
  }

  /** The comprehension works line by line: concatenated inputs give
      concatenated outputs. */
  lemma {:induction false} InstallRequiresAppend(a: seq<string>, b: seq<string>)
    ensures GetInstallRequires(a + b) == GetInstallRequires(a) + GetInstallRequires(b)
  {
    if a == [] {
      assert a + b == b;
    } else {
      var head := if a[0] == "" then [] else [FirstToken(a[0])];
      assert (a + b)[0] == a[0];
      assert (a + b)[1..] == a[1..] + b;
      InstallRequiresAppend(a[1..], b);
      calc {
        GetInstallRequires(a + b);
        head + GetInstallRequires(a[1..] + b);
        head + (GetInstallRequires(a[1..]) + GetInstallRequires(b));
        (head + GetInstallRequires(a[1..])) + GetInstallRequires(b);
        GetInstallRequires(a) + GetInstallRequires(b);
      }
    }
  }

  /** With no empty line, entry `k` is the first token of line `k`. */
  lemma {:induction false} InstallRequiresPerLine(lines: seq<string>)
    requires forall k :: 0 <= k < |lines| ==> lines[k] != ""
    ensures |GetInstallRequires(lines)| == |lines|
    ensures forall k :: 0 <= k < |lines| ==> GetInstallRequires(lines)[k] == FirstToken(lines[k])
  {
    if lines != [] {
      InstallRequiresPerLine(lines[1..]);
    }
  }

  /** Empty lines contribute nothing. */
  lemma InstallRequiresSkipsEmpty(a: seq<string>, b: seq<string>)
    ensures GetInstallRequires(a + [""] + b) == GetInstallRequires(a + b)
  {
    InstallRequiresAppend(a + [""], b);
    InstallRequiresAppend(a, [""]);
    InstallRequiresAppend(a, b);
  }
}
