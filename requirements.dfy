/** Reading package names from a requirements file, one line at a time:
    a line counts when it is not blank and does not begin with `#`, and it
    contributes the text of its stripped form before the first `=`. */
module Requirements {
  import opened Sequences

  /** `str.isspace` for one character. */
  predicate IsSpace(c: char) {
    || c == ' ' || c == '\t' || c == '\n' || c == '\r' || c == '\U{B}' || c == '\U{C}'
    || ('\U{1C}' <= c <= '\U{1F}') || c == '\U{85}' || c == '\U{A0}' || c == '\U{1680}'
    || ('\U{2000}' <= c <= '\U{200A}') || c == '\U{2028}' || c == '\U{2029}'
    || c == '\U{202F}' || c == '\U{205F}' || c == '\U{3000}'
  }

  /** `str.lstrip()`: the longest suffix that does not begin with white space. */
  function StripStart(s: string): (r: string)
    ensures |r| <= |s| && r == s[|s| - |r|..]
    ensures forall k :: 0 <= k < |s| - |r| ==> IsSpace(s[k])
    ensures r == [] || !IsSpace(r[0])
  {
    if s != [] && IsSpace(s[0]) then StripStart(s[1..]) else s
  }

  /** `str.rstrip()`: the longest prefix that does not end with white space. */
  function StripEnd(s: string): (r: string)
    ensures |r| <= |s| && r == s[..|r|]
    ensures forall k :: |r| <= k < |s| ==> IsSpace(s[k])
    ensures r == [] || !IsSpace(r[|r| - 1])
  {
    if s != [] && IsSpace(s[|s| - 1]) then StripEnd(s[..|s| - 1]) else s
  }

  /** `str.strip()` */
  function Strip(s: string): string {
    StripEnd(StripStart(s))
  }

  /** `s.split(c)[0]`: the text before the first `c`, or all of `s`. */
  function BeforeFirst(s: string, c: char): (r: string)
    ensures r <= s && c !in r
    ensures |r| < |s| ==> s[|r|] == c
  {
    if s == [] || s[0] == c then [] else [s[0]] + BeforeFirst(s[1..], c)
  }

  /** The text before the first `c` is determined by where `c` first occurs. */
  lemma BeforeFirstAt(s: string, c: char, n: nat)
    requires n <= |s| && c !in s[..n] && (n < |s| ==> s[n] == c)
    ensures BeforeFirst(s, c) == s[..n]
  {
  }

  /** `len(line.strip()) > 0 and (not line.startswith('#'))`: the test is on
      the raw line, so an indented `#` line is not a comment. */
  predicate IsRequirementLine(line: string) {
    |Strip(line)| > 0 && !(|line| > 0 && line[0] == '#')
  }

  /** `line.strip().split('=')[0]` */
  function RequirementName(line: string): string {
    BeforeFirst(Strip(line), '=')
  }

  /** A name read from a line holds no `=` and does not begin with white
      space. */
  lemma {:induction false} RequirementNameIsPlain(line: string)
    ensures '=' !in RequirementName(line)
    ensures RequirementName(line) == [] || !IsSpace(RequirementName(line)[0])
  {
    var n := RequirementName(line);
    if n != [] {
      assert n[0] == Strip(line)[0] == StripStart(line)[0];
    }
  }

  /** A pinned line `name==version` gives back `name`, when the name holds no
      `=` and does not begin with white space. */
  lemma {:induction false} PinnedLineName(name: string, version: string)
    requires '=' !in name && (name == [] || !IsSpace(name[0]))
    ensures RequirementName(name + "==" + version + "\n") == name
  {
    var pinned := name + "==" + version + "\n";
    assert pinned[|name|] == '=';
    assert pinned[..|name|] == name;
    assert pinned[0] == if name == [] then '=' else name[0];
    assert StripStart(pinned) == pinned;
    var stripped := StripEnd(pinned);
    assert |stripped| > |name|;
    assert stripped[..|name|] == name;
    BeforeFirstAt(stripped, '=', |name|);
  }

  /** A name a pinned line gives back: no `=`, and no white space or `#`
      in front. */
  predicate IsPlainName(name: string) {
    '=' !in name && (name == [] || (!IsSpace(name[0]) && name[0] != '#'))
  }

  /** A pinned line `name==version` counts and gives back `name`. */
  lemma {:induction false} PinnedLineCounts(name: string, version: string)
    requires IsPlainName(name)
    ensures IsRequirementLine(name + "==" + version + "\n")
    ensures RequirementName(name + "==" + version + "\n") == name
  {
    var pinned := name + "==" + version + "\n";
    PinnedLineName(name, version);
    assert pinned[|name|] == '=';
    assert pinned[0] == if name == [] then '=' else name[0];
    assert StripStart(pinned) == pinned;
    assert |StripEnd(pinned)| > |name|;
  }

  /** What one line contributes: its name when it counts, nothing
      otherwise. */
  function LineNames(line: string): seq<string> {
    if IsRequirementLine(line) then [RequirementName(line)] else []
  }

  /** The names of a file's lines, in file order. */
  function PackageNames(lines: seq<string>): seq<string> {
    FlatMap(lines, LineNames)
  }

  /** A name is listed exactly when some line that counts gives it. */
  lemma {:induction false} PackageNamesMembership(lines: seq<string>, name: string)
    ensures name in PackageNames(lines) <==> exists i :: 0 <= i < |lines| && IsRequirementLine(lines[i]) && RequirementName(lines[i]) == name
  {
    FlatMapMembership(lines, LineNames, name);
  }

  /** The loop of pip4date.py:76-81 over the file's lines, appending each
      name it reads. */
  method ReadPackageNames(lines: seq<string>) returns (packages: seq<string>)
    ensures packages == PackageNames(lines)
  {
    packages := [];
    for i := 0 to |lines|
      invariant packages == PackageNames(lines[..i])
    {
      var line := lines[i];
      assert lines[..i + 1][..i] == lines[..i];
      if |Strip(line)| > 0 && !(|line| > 0 && line[0] == '#') {
        var p := BeforeFirst(Strip(line), '=');
        packages := packages + [p];
      }
    }
    assert lines[..|lines|] == lines;
  }

  /** A `#` line and a blank line give nothing. */
  lemma {:induction false} CommentAndBlankSkipped()
    ensures !IsRequirementLine("# pinned\n")
    ensures !IsRequirementLine("\n")
  {
    assert StripStart("\n") == StripStart("\n"[1..]);
  }

  /** The line `foo==1.2.3` gives `foo`. */
  lemma {:induction false} PinnedLineExample()
    ensures LineNames("foo==1.2.3\n") == ["foo"]
  {
    var name := "foo";
    assert name[0] == 'f' && name[1] == 'o' && name[2] == 'o';
    assert IsPlainName(name);
    PinnedLineCounts(name, "1.2.3");
    assert name + "==" + "1.2.3" + "\n" == "foo==1.2.3\n";
  }
}
