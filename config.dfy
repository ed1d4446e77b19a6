/**
 * The settings of rssbox/config.py that the core reads: the list of accepted file
 * extensions, the download directory and the log level. Environment variables and
 * the command line are parameters (`Option` for a variable that may be unset).
 */
module Config {
  import opened Common
  import Paths

  const DefaultFilterExtensions: string :=
    "mkv,mp4,avi,mpg,mpeg,webm,flv,wmv,mov,m4v,3gp,ogv,mkv,avi,mpg,mpeg,webm,flv,wmv,mov,m4v,3gp,ogv"

  const DefaultDownloadPath: string := "downloads"

  /** `s.replace(" ", "")`: the characters of `s` other than spaces, in order. */
  function RemoveSpaces(s: string): (r: string)
    ensures ' ' !in r
    ensures forall c :: c != ' ' ==> multiset(r)[c] == multiset(s)[c]
    ensures ' ' !in s ==> r == s
  {
    if s == [] then []
    else
      assert s == [s[0]] + s[1..];
      (if s[0] == ' ' then [] else [s[0]]) + RemoveSpaces(s[1..])
  }

  /**
   * `s.split(sep)` with an explicit separator: the pieces between consecutive
   * separators, so "" gives [""] and "a,,b" gives ["a", "", "b"].
   */
  function Split(s: string, sep: char): (parts: seq<string>)
    ensures |parts| >= 1
    ensures forall i :: 0 <= i < |parts| ==> sep !in parts[i]
    ensures forall i, c :: 0 <= i < |parts| && c in parts[i] ==> c in s
  {
    if s == [] then [""]
    else
      assert s == [s[0]] + s[1..];
      var rest := Split(s[1..], sep);
      if s[0] == sep then [""] + rest
      else [[s[0]] + rest[0]] + rest[1..]
  }

  /** There is one piece more than there are separators. */
  lemma {:induction false} SplitCount(s: string, sep: char)
    ensures |Split(s, sep)| == multiset(s)[sep] + 1
  {
    if s != [] {
      SplitCount(s[1..], sep);
      assert s == [s[0]] + s[1..];
      assert multiset(s) == multiset{s[0]} + multiset(s[1..]);
    }
  }

  /** `sep.join(parts)`. */
  function Join(parts: seq<string>, sep: char): string
    requires |parts| >= 1
  {
    if |parts| == 1 then parts[0] else parts[0] + [sep] + Join(parts[1..], sep)
  }

  /** Joining the pieces of a split gives back the original string. */
  lemma {:induction false} JoinSplit(s: string, sep: char)
    ensures Join(Split(s, sep), sep) == s
  {
    if s != [] {
      var rest := Split(s[1..], sep);
      JoinSplit(s[1..], sep);
      assert s == [s[0]] + s[1..];
      if s[0] == sep {
        assert Split(s, sep) == [""] + rest;
        JoinCons("", rest, sep);
      } else {
        assert Split(s, sep) == [[s[0]] + rest[0]] + rest[1..];
        JoinExtendsHead(s[0], rest, sep);
      }
    }
  }

  /** Joining a piece in front of at least one other piece puts one separator between. */
  lemma JoinCons(x: string, rest: seq<string>, sep: char)
    requires |rest| >= 1
    ensures Join([x] + rest, sep) == x + [sep] + Join(rest, sep)
  {
    assert ([x] + rest)[1..] == rest;
  }

  /** A character prefixed to the first piece is prefixed to the joined string. */
  lemma JoinExtendsHead(c: char, parts: seq<string>, sep: char)
    requires |parts| >= 1
    ensures Join([[c] + parts[0]] + parts[1..], sep) == [c] + Join(parts, sep)
  {
    if |parts| > 1 {
      JoinCons([c] + parts[0], parts[1..], sep);
      JoinCons(parts[0], parts[1..], sep);
      assert [parts[0]] + parts[1..] == parts;
    }
  }

  /** A separator-free piece followed by a separator splits off as one piece. */
  lemma {:induction false} SplitPrefix(p: string, rest: string, sep: char)
    requires sep !in p
    ensures Split(p + [sep] + rest, sep) == [p] + Split(rest, sep)
  {
    if p == [] {
      assert p + [sep] + rest == [sep] + rest;
      assert ([sep] + rest)[1..] == rest;
    } else {
      assert (p + [sep] + rest)[1..] == p[1..] + [sep] + rest;
      SplitPrefix(p[1..], rest, sep);
      assert [p[0]] + p[1..] == p;
    }
  }

  /** A string without the separator splits into itself. */
  lemma {:induction false} SplitWhole(p: string, sep: char)
    requires sep !in p
    ensures Split(p, sep) == [p]
  {
    if p != [] {
      SplitWhole(p[1..], sep);
      assert [p[0]] + p[1..] == p;
    }
  }

  /** Splitting a join of separator-free pieces gives back the pieces. */
  lemma {:induction false} SplitJoin(parts: seq<string>, sep: char)
    requires |parts| >= 1
    requires forall i :: 0 <= i < |parts| ==> sep !in parts[i]
    ensures Split(Join(parts, sep), sep) == parts
  {
    if |parts| == 1 {
      SplitWhole(parts[0], sep);
    } else {
      SplitJoin(parts[1..], sep);
      SplitPrefix(parts[0], Join(parts[1..], sep), sep);
      assert [parts[0]] + parts[1..] == parts;
    }
  }

  /** The configured value, or the default list when the variable is unset. */
  function RawFilterExtensions(env: Option<string>): string {
    env.GetOr(DefaultFilterExtensions)
  }

  /**
   * `FILTER_EXTENSIONS`: the raw value with spaces removed, split on ','. There is one
   * entry more than there are commas, no entry holds a space or a comma, and joining
   * the entries with ',' gives back the space-free string.
   */
  function FilterExtensions(env: Option<string>): (r: seq<string>)
    ensures |r| == multiset(RawFilterExtensions(env))[','] + 1
    ensures forall i :: 0 <= i < |r| ==> ' ' !in r[i] && ',' !in r[i]
    ensures Join(r, ',') == RemoveSpaces(RawFilterExtensions(env))
  {
    var r := Split(RemoveSpaces(RawFilterExtensions(env)), ',');
    JoinSplit(RemoveSpaces(RawFilterExtensions(env)), ',');
    SplitCount(RemoveSpaces(RawFilterExtensions(env)), ',');
    r
  }

  /** A string that ends with the separator splits with an empty last piece. */
  lemma {:induction false} SplitEndingInSeparator(s: string, sep: char)
    ensures var parts := Split(s + [sep], sep); |parts| >= 2 && parts[|parts| - 1] == ""
  {
    SplitCount(s + [sep], sep);
    assert multiset(s + [sep])[sep] >= 1;
    if s != [] {
      assert (s + [sep])[1..] == s[1..] + [sep];
      SplitEndingInSeparator(s[1..], sep);
    }
  }

  /** A trailing comma in the setting produces an empty entry. */
  lemma {:induction false} TrailingCommaGivesEmptyEntry(s: string)
    requires ' ' !in s
    ensures "" in FilterExtensions(Some(s + ","))
  {
    assert ' ' !in s + ",";
    SplitEndingInSeparator(s, ',');
  }

  /** `DOWNLOAD_PATH` before it is made absolute: the variable, or "downloads". */
  function RawDownloadPath(env: Option<string>): string {
    env.GetOr(DefaultDownloadPath)
  }

  /**
   * `os.path.abspath(DOWNLOAD_PATH)` against the working directory `cwd`. Python's
   * normalisation of "." and ".." segments is not modelled. Relative to an absolute
   * working directory the result is absolute, and the default lies directly under it.
   */
  function DownloadPath(env: Option<string>, cwd: string): (p: string)
    requires |cwd| > 0 && cwd[0] == '/'
    ensures |p| > 0 && p[0] == '/'
    ensures env.None? && cwd[|cwd| - 1] != '/' ==> p == cwd + "/" + DefaultDownloadPath
  {
    Paths.Join(cwd, RawDownloadPath(env))
  }

  /** `DEBUG`: a debug flag on the command line or `LOG_LEVEL=DEBUG` in the environment. */
  predicate Debug(argv: seq<string>, logLevelEnv: Option<string>) {
    "--debug" in argv || "--verbose" in argv || logLevelEnv.GetOr("INFO") == "DEBUG"
  }

  /** `LOG_LEVEL` is "DEBUG" exactly when `DEBUG` holds, and "INFO" otherwise. */
  function LogLevel(argv: seq<string>, logLevelEnv: Option<string>): (level: string)
    ensures level == "DEBUG" || level == "INFO"
    ensures level == "DEBUG" <==>
      ("--debug" in argv || "--verbose" in argv || logLevelEnv == Some("DEBUG"))
  {
    if Debug(argv, logLevelEnv) then "DEBUG" else "INFO"
  }
}
