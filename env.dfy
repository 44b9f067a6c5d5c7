/**
 * src/env.rs: reading `KEY=value` files into a variable map, and keeping
 * only the files that exist. Reading a file and asking whether a path
 * exists are filesystem calls; they are passed in as functions. A file is
 * seen through its lines (`str::lines` is not modelled separately).
 */
module Env {
  import opened Wrappers

  type Vars = map<string, string>

  /** Reads a file: its lines, or None when `fs::read_to_string` fails. */
  type Reader = string -> Option<seq<string>>

  /** The error of `load_env_files`: the file that could not be read. */
  datatype LoadError = ReadFailed(file: string)

  /** Whitespace removed by `str::trim` (the ASCII part of Unicode White_Space). */
  const Whitespace: set<char> := {' ', '\t', '\n', '\r', '\U{000B}', '\U{000C}'}

  /** Removes every leading character in `cs`. */
  function StripStart(s: string, cs: set<char>): (r: string)
    ensures |r| <= |s| && r == s[|s| - |r|..]
    ensures forall k :: 0 <= k < |s| - |r| ==> s[k] in cs
    ensures r == [] || r[0] !in cs
  {
    if s != [] && s[0] in cs then StripStart(s[1..], cs) else s
  }

  /** Removes every trailing character in `cs`. */
  function StripEnd(s: string, cs: set<char>): (r: string)
    ensures |r| <= |s| && r == s[..|r|]
    ensures forall k :: |r| <= k < |s| ==> s[k] in cs
    ensures r == [] || r[|r| - 1] !in cs
  {
    if s != [] && s[|s| - 1] in cs then StripEnd(s[..|s| - 1], cs) else s
  }

  /** `str::trim`. */
  function Trim(s: string): (r: string)
    ensures |r| <= |s|
    ensures r == [] || (r[0] !in Whitespace && r[|r| - 1] !in Whitespace)
  {
    StripEnd(StripStart(s, Whitespace), Whitespace)
  }

  /** `str::trim_matches(c)`: strips every leading and trailing `c`. */
  function TrimMatches(s: string, c: char): string
  {
    StripEnd(StripStart(s, {c}), {c})
  }

  /** The value cleanup: strip double quotes, then single quotes, with no trim in between. */
  function Unquote(v: string): (r: string)
    ensures |r| <= |v|
    ensures r == [] || (r[0] != '\'' && r[|r| - 1] != '\'')
  {
    TrimMatches(TrimMatches(v, '"'), '\'')
  }

  /** `str::split_once(c)`: the parts before and after the first `c`. */
  function SplitOnce(s: string, c: char): (r: Option<(string, string)>)
    ensures r.None? <==> c !in s
    ensures r.Some? ==> s == r.value.0 + [c] + r.value.1 && c !in r.value.0
  {
    if s == [] then None
    else if s[0] == c then Some(([], s[1..]))
    else match SplitOnce(s[1..], c)
      case None => None
      case Some(parts) => Some(([s[0]] + parts.0, parts.1))
  }

  /** A split at a `c` with no `c` before it is the split `SplitOnce` finds. */
  lemma {:induction false} SplitOnceUnique(s: string, c: char, before: string, after: string)
    requires s == before + [c] + after && c !in before
    ensures SplitOnce(s, c) == Some((before, after))
  {
    if before == [] {
      assert s[1..] == after;
    } else {
      assert s[0] == before[0] && s[0] != c;
      assert s[1..] == before[1..] + [c] + after;
      SplitOnceUnique(s[1..], c, before[1..], after);
      assert [s[0]] + before[1..] == before;
    }
  }

  /** One line of an env file: the assignment it makes, if any (src/env.rs:12-19). */
  function ParseLine(line: string): (r: Option<(string, string)>)
    ensures r.Some? <==> Trim(line) != [] && Trim(line)[0] != '#' && '=' in Trim(line)
  {
    var t := Trim(line);
    if t == [] || t[0] == '#' then None
    else match SplitOnce(t, '=')
      case None => None
      case Some(parts) => Some((Trim(parts.0), Unquote(Trim(parts.1))))
  }

  /** The line assigns the variable `key`. */
  predicate Assigns(line: string, key: string)
  {
    SetsKey(ParseLine(line), key)
  }

  /**
   * A line is split at its first '=': the key is what precedes it, trimmed;
   * the value is all that follows, '=' included, trimmed and unquoted.
   */
  lemma ParseLineSplitsAtFirstEquals(line: string, key: string, value: string)
    requires Trim(line) == key + "=" + value && '=' !in key
    requires key == [] || key[0] != '#'
    ensures ParseLine(line) == Some((Trim(key), Unquote(Trim(value))))
  {
    var t := Trim(line);
    assert t[|key|] == '=';
    assert t[0] != '#' by {
      if key == [] { assert t[0] == '='; } else { assert t[0] == key[0]; }
    }
    SplitOnceUnique(t, '=', key, value);
  }

  /** Blank lines and comment lines assign nothing. */
  lemma ParseLineSkipsBlankAndComment(line: string)
    requires Trim(line) == [] || Trim(line)[0] == '#'
    ensures ParseLine(line) == None
  {
  }

  /** A line without '=' is ignored. */
  lemma ParseLineNeedsEquals(line: string)
    requires '=' !in line
    ensures ParseLine(line) == None
  {
  }

  /** Stripping stops at once when neither end matches. */
  lemma StripUnchanged(s: string, cs: set<char>)
    requires s == [] || (s[0] !in cs && s[|s| - 1] !in cs)
    ensures StripEnd(StripStart(s, cs), cs) == s
  {
  }

  /** A line whose trimmed form is `=value` is accepted, under the empty key. */
  lemma ParseLineEmptyKey(line: string, value: string)
    requires Trim(line) == ['='] + value
    requires value == [] || (value[0] !in Whitespace + {'"', '\''} && value[|value| - 1] !in Whitespace + {'"', '\''})
    ensures ParseLine(line) == Some(("", value))
  {
    assert Trim(line) == "" + "=" + value;
    ParseLineSplitsAtFirstEquals(line, "", value);
    assert Trim("") == "";
    StripUnchanged(value, Whitespace);
    StripUnchanged(value, {'"'});
    StripUnchanged(value, {'\''});
  }

  /** One matching character at the front, then a non-matching one. */
  lemma StripStartOne(s: string, cs: set<char>)
    requires |s| >= 2 && s[0] in cs && s[1] !in cs
    ensures StripStart(s, cs) == s[1..]
  {
  }

  /** One matching character at the back, then a non-matching one. */
  lemma StripEndOne(s: string, cs: set<char>)
    requires |s| >= 2 && s[|s| - 1] in cs && s[|s| - 2] !in cs
    ensures StripEnd(s, cs) == s[..|s| - 1]
  {
  }

  /** Double quotes are stripped first: `"'x'"` gives `x`. */
  lemma UnquoteDoubleThenSingle()
    ensures Unquote("\"'x'\"") == "x"
  {
    StripStartOne("\"'x'\"", {'"'});
    assert "\"'x'\""[1..] == "'x'\"";
    StripEndOne("'x'\"", {'"'});
    assert "'x'\""[..3] == "'x'";
    assert TrimMatches("\"'x'\"", '"') == "'x'";
    StripStartOne("'x'", {'\''});
    assert "'x'"[1..] == "x'";
    StripEndOne("x'", {'\''});
    assert "x'"[..1] == "x";
  }

  /** There is no re-trim between the two strips: `'"x"'` keeps `"x"`. */
  lemma UnquoteKeepsInnerDoubleQuotes()
    ensures Unquote("'\"x\"'") == "\"x\""
  {
    StripUnchanged("'\"x\"'", {'"'});
    StripStartOne("'\"x\"'", {'\''});
    StripEndOne("\"x\"'", {'\''});
  }

  /** What a line assigns, if anything. */
  type Assignment = Option<(string, string)>

  /** Records one assignment: a later one replaces an earlier one. */
  function Assign(vars: Vars, a: Assignment): Vars
  {
    match a
    case None => vars
    case Some(kv) => vars[kv.0 := kv.1]
  }

  /** The assignments of the lines, one per line. */
  function Parsed(lines: seq<string>): (r: seq<Assignment>)
    ensures |r| == |lines|
  {
    seq(|lines|, k requires 0 <= k < |lines| => ParseLine(lines[k]))
  }

  /** Records the assignments in order, from `vars` on. */
  function ApplyAll(vars: Vars, assignments: seq<Assignment>): Vars
    decreases |assignments|
  {
    if assignments == [] then vars
    else ApplyAll(Assign(vars, assignments[0]), assignments[1..])
  }

  /** The inner loop of `load_env_files` over the lines of one file, from `vars`. */
  function ApplyLines(vars: Vars, lines: seq<string>): Vars
  {
    ApplyAll(vars, Parsed(lines))
  }

  /** `load_env_files` from `vars` on: the first unreadable file stops the load. */
  function LoadFrom(vars: Vars, files: seq<string>, read: Reader): (r: Result<Vars, LoadError>)
    ensures r.Err? ==> r.error.file in files && read(r.error.file).None?
    decreases |files|
  {
    if files == [] then Ok(vars)
    else match read(files[0])
      case None => Err(ReadFailed(files[0]))
      case Some(lines) => LoadFrom(ApplyLines(vars, lines), files[1..], read)
  }

  /** `load_env_files(files)`, starting from no variables. */
  function LoadSpec(files: seq<string>, read: Reader): (r: Result<Vars, LoadError>)
    ensures r.Err? ==> r.error.file in files && read(r.error.file).None?
  {
    LoadFrom(map[], files, read)
  }

  /** `load_env_files`: for each file, read it, then record every assignment line. */
  method LoadEnvFiles(files: seq<string>, read: Reader) returns (r: Result<Vars, LoadError>)
    ensures r == LoadSpec(files, read)
  {
    var vars: Vars := map[];
    var i := 0;
    while i < |files|
      invariant 0 <= i <= |files|
      invariant LoadFrom(vars, files[i..], read) == LoadSpec(files, read)
    {
      var file := files[i];
      assert files[i..][1..] == files[i + 1..];
      match read(file) {
        case None =>
          return Err(ReadFailed(file));
        case Some(lines) =>
          var base := vars;
          var j := 0;
          while j < |lines|
            invariant 0 <= j <= |lines|
            invariant ApplyAll(vars, Parsed(lines)[j..]) == ApplyLines(base, lines)
          {
            assert Parsed(lines)[j..][1..] == Parsed(lines)[j + 1..];
            vars := Assign(vars, ParseLine(lines[j]));
            j := j + 1;
          }
      }
      i := i + 1;
    }
    return Ok(vars);
  }

  /** Applying assignments in two runs is applying their concatenation. */
  lemma {:induction false} ApplyAllAppend(vars: Vars, a: seq<Assignment>, b: seq<Assignment>)
    ensures ApplyAll(vars, a + b) == ApplyAll(ApplyAll(vars, a), b)
    decreases |a|
  {
    if a == [] {
      assert a + b == b;
    } else {
      assert (a + b)[1..] == a[1..] + b;
      ApplyAllAppend(Assign(vars, a[0]), a[1..], b);
    }
  }

  /** The lines of two runs are parsed as the two runs are. */
  lemma ParsedAppend(a: seq<string>, b: seq<string>)
    ensures Parsed(a + b) == Parsed(a) + Parsed(b)
  {
    var l, r := Parsed(a + b), Parsed(a) + Parsed(b);
    forall k | 0 <= k < |a + b| ensures l[k] == r[k] {
      if k < |a| {
        assert (a + b)[k] == a[k];
      } else {
        assert (a + b)[k] == b[k - |a|];
      }
    }
  }

  /** Applying lines in two runs is applying their concatenation. */
  lemma ApplyLinesAppend(vars: Vars, a: seq<string>, b: seq<string>)
    ensures ApplyLines(vars, a + b) == ApplyLines(ApplyLines(vars, a), b)
  {
    ParsedAppend(a, b);
    ApplyAllAppend(vars, Parsed(a), Parsed(b));
  }

  /** The assignment sets the variable `key`. */
  predicate SetsKey(a: Assignment, key: string)
  {
    a.Some? && a.value.0 == key
  }

  /** A variable no assignment sets keeps its earlier value, or stays unset. */
  lemma {:induction false} ApplyAllUnassigned(vars: Vars, assignments: seq<Assignment>, key: string)
    requires forall a :: a in assignments ==> !SetsKey(a, key)
    ensures key in ApplyAll(vars, assignments) <==> key in vars
    ensures key in vars ==> ApplyAll(vars, assignments)[key] == vars[key]
    decreases |assignments|
  {
    if assignments != [] {
      assert assignments[0] in assignments;
      ApplyAllUnassigned(Assign(vars, assignments[0]), assignments[1..], key);
    }
  }

  /** Later wins: a variable has the value of the last assignment that sets it. */
  lemma {:induction false} ApplyAllLastWins(vars: Vars, assignments: seq<Assignment>, i: nat, key: string, value: string)
    requires i < |assignments| && assignments[i] == Some((key, value))
    requires forall a :: a in assignments[i + 1..] ==> !SetsKey(a, key)
    ensures key in ApplyAll(vars, assignments) && ApplyAll(vars, assignments)[key] == value
    decreases i
  {
    var next := Assign(vars, assignments[0]);
    assert assignments[1..][i..] == assignments[i + 1..];
    if i == 0 {
      ApplyAllUnassigned(next, assignments[1..], key);
    } else {
      ApplyAllLastWins(next, assignments[1..], i - 1, key, value);
    }
  }

  /** A variable no line assigns keeps its earlier value, or stays unset. */
  lemma ApplyLinesUnassigned(vars: Vars, lines: seq<string>, key: string)
    requires forall j :: 0 <= j < |lines| ==> !Assigns(lines[j], key)
    ensures key in ApplyLines(vars, lines) <==> key in vars
    ensures key in vars ==> ApplyLines(vars, lines)[key] == vars[key]
  {
    ApplyAllUnassigned(vars, Parsed(lines), key);
  }

  /** Later wins: a variable has the value of the last line that assigns it. */
  lemma LastAssignmentWins(vars: Vars, lines: seq<string>, i: nat, key: string, value: string)
    requires i < |lines| && ParseLine(lines[i]) == Some((key, value))
    requires forall j :: i < j < |lines| ==> !Assigns(lines[j], key)
    ensures key in ApplyLines(vars, lines) && ApplyLines(vars, lines)[key] == value
  {
    LaterLinesSetOtherKeys(lines, i, key);
    ApplyAllLastWins(vars, Parsed(lines), i, key, value);
  }

  /** Lines after the `i`-th that do not assign a key parse to assignments that do not set it. */
  lemma LaterLinesSetOtherKeys(lines: seq<string>, i: nat, key: string)
    requires i < |lines|
    requires forall j :: i < j < |lines| ==> !Assigns(lines[j], key)
    ensures forall a :: a in Parsed(lines)[i + 1..] ==> !SetsKey(a, key)
  {
    var ps := Parsed(lines);
    forall a | a in ps[i + 1..] ensures !SetsKey(a, key) {
      var k :| 0 <= k < |ps[i + 1..]| && ps[i + 1..][k] == a;
      assert a == ps[i + 1 + k];
      assert !Assigns(lines[i + 1 + k], key);
    }
  }

  /** Every file is readable. */
  ghost predicate AllReadable(files: seq<string>, read: Reader)
  {
    forall i :: 0 <= i < |files| ==> read(files[i]).Some?
  }

  /** The lines of all files, in list order. */
  function AllLines(files: seq<string>, read: Reader): seq<string>
    requires AllReadable(files, read)
  {
    if files == [] then [] else read(files[0]).value + AllLines(files[1..], read)
  }

  /**
   * When every file can be read, the load succeeds and equals applying all
   * their lines in order: a later file overrides an earlier one.
   */
  lemma {:induction false} LoadReadableIsConcatenation(vars: Vars, files: seq<string>, read: Reader)
    requires AllReadable(files, read)
    ensures LoadFrom(vars, files, read) == Ok(ApplyLines(vars, AllLines(files, read)))
    decreases |files|
  {
    if files != [] {
      var lines := read(files[0]).value;
      LoadReadableIsConcatenation(ApplyLines(vars, lines), files[1..], read);
      ApplyLinesAppend(vars, lines, AllLines(files[1..], read));
    }
  }

  /** The load fails exactly at the first unreadable file, with no partial map. */
  lemma {:induction false} LoadFailsAtFirstUnreadable(vars: Vars, files: seq<string>, read: Reader, i: nat)
    requires i < |files| && read(files[i]).None?
    requires forall j :: 0 <= j < i ==> read(files[j]).Some?
    ensures LoadFrom(vars, files, read) == Err(ReadFailed(files[i]))
    decreases i
  {
    if i > 0 {
      LoadFailsAtFirstUnreadable(ApplyLines(vars, read(files[0]).value), files[1..], read, i - 1);
    }
  }

  /** The load succeeds only when every file can be read. */
  lemma {:induction false} LoadOkOnlyIfReadable(vars: Vars, files: seq<string>, read: Reader)
    requires LoadFrom(vars, files, read).Ok?
    ensures AllReadable(files, read)
    decreases |files|
  {
    if files != [] {
      LoadOkOnlyIfReadable(ApplyLines(vars, read(files[0]).value), files[1..], read);
      assert forall j :: 1 <= j < |files| ==> files[j] == files[1..][j - 1];
    }
  }

  /** `filter_existing`: the files that exist, in order, repeats included. */
  function FilterExisting(files: seq<string>, pathExists: string -> bool): (r: seq<string>)
    ensures forall f :: f in r ==> pathExists(f)
    ensures forall f :: multiset(r)[f] == if pathExists(f) then multiset(files)[f] else 0
  {
    if files == [] then []
    else
      assert files == [files[0]] + files[1..];
      (if pathExists(files[0]) then [files[0]] else []) + FilterExisting(files[1..], pathExists)
  }

  /** Filtering keeps the order: it distributes over concatenation. */
  lemma {:induction false} FilterExistingAppend(a: seq<string>, b: seq<string>, pathExists: string -> bool)
    ensures FilterExisting(a + b, pathExists) == FilterExisting(a, pathExists) + FilterExisting(b, pathExists)
  {
    if a == [] {
      assert a + b == b;
    } else {
      assert (a + b)[1..] == a[1..] + b;
      FilterExistingAppend(a[1..], b, pathExists);
    }
  }

  /** When every file exists, nothing is dropped. */
  lemma {:induction false} FilterExistingAllExist(files: seq<string>, pathExists: string -> bool)
    requires forall i :: 0 <= i < |files| ==> pathExists(files[i])
    ensures FilterExisting(files, pathExists) == files
  {
    if files != [] {
      FilterExistingAllExist(files[1..], pathExists);
    }
  }
}
