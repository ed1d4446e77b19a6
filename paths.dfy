/**
 * The parts of Python's `posixpath` and `str` that the core relies on: `join`,
 * `dirname`, `splitext`, `lower` (ASCII letters only) and the decimal form of an int.
 */
module Paths {

  /** Index of the last `c` in `s`, or -1 (`str.rfind`). */
  function LastIndexOf(s: string, c: char): (i: int)
    ensures -1 <= i < |s|
    ensures i >= 0 ==> s[i] == c
  {
    if s == [] then -1
    else if s[|s| - 1] == c then |s| - 1
    else LastIndexOf(s[..|s| - 1], c)
  }

  /** No `c` follows the index `LastIndexOf` finds, and -1 means there is no `c` at all. */
  lemma {:induction false} LastIndexOfIsLast(s: string, c: char)
    ensures var i := LastIndexOf(s, c);
      (i >= 0 ==> c !in s[i + 1..]) && (i == -1 ==> c !in s)
  {
    LastIndexOfAfter(s, c);
    var i := LastIndexOf(s, c);
    var t := s[i + 1..];
    forall k | 0 <= k < |t| ensures t[k] != c {
      assert t[k] == s[i + 1 + k];
    }
    if i == -1 {
      assert t == s;
    }
  }

  /** Pointwise: no `c` at any index after the one `LastIndexOf` finds. */
  lemma {:induction false} LastIndexOfAfter(s: string, c: char)
    ensures forall j :: LastIndexOf(s, c) < j < |s| ==> s[j] != c
  {
    if s != [] && s[|s| - 1] != c {
      var init := s[..|s| - 1];
      LastIndexOfAfter(init, c);
      assert LastIndexOf(s, c) == LastIndexOf(init, c);
      forall j | LastIndexOf(s, c) < j < |s| - 1 ensures s[j] != c {
        assert s[j] == init[j];
      }
    }
  }

  /** An occurrence of `c` with no `c` after it is the one `LastIndexOf` finds. */
  lemma LastIndexOfAt(s: string, c: char, k: int)
    requires 0 <= k < |s| && s[k] == c && c !in s[k + 1..]
    ensures LastIndexOf(s, c) == k
  {
    LastIndexOfIsLast(s, c);
  }

  /** `posixpath.join(a, b)`: an absolute `b` replaces `a`; otherwise one '/' separates them. */
  function Join(a: string, b: string): (p: string)
    ensures |b| > 0 && b[0] == '/' ==> p == b
    ensures !(|b| > 0 && b[0] == '/') && |a| > 0 && a[|a| - 1] != '/' ==> p == a + "/" + b
  {
    if |b| > 0 && b[0] == '/' then b
    else if a == [] || a[|a| - 1] == '/' then a + b
    else a + "/" + b
  }

  /** True when every character of `s` is '/'. */
  predicate AllSlashes(s: string) {
    forall i :: 0 <= i < |s| ==> s[i] == '/'
  }

  /** `s.rstrip('/')`. */
  function RStripSlashes(s: string): (r: string)
    ensures |r| <= |s| && r == s[..|r|]
    ensures r == [] || r[|r| - 1] != '/'
  {
    if s == [] || s[|s| - 1] != '/' then s else RStripSlashes(s[..|s| - 1])
  }

  /**
   * `posixpath.dirname(p)`: everything up to the last '/', with trailing slashes
   * removed unless the head consists of slashes only.
   */
  function Dirname(p: string): string {
    var head := p[..LastIndexOf(p, '/') + 1];
    if head != [] && !AllSlashes(head) then RStripSlashes(head) else head
  }

  /** The directory part of `dir + "/" + name` is `dir`, when `name` has no '/'. */
  lemma {:induction false} DirnameOfChild(dir: string, name: string)
    requires dir != [] && dir[|dir| - 1] != '/'
    requires '/' !in name
    ensures Dirname(dir + "/" + name) == dir
  {
    var p := dir + "/" + name;
    var i := LastIndexOf(p, '/');
    assert p[|dir|] == '/';
    assert i == |dir| by {
      assert p[|dir| + 1..] == name;
      LastIndexOfAt(p, '/', |dir|);
    }
    var head := p[..i + 1];
    assert head == dir + "/";
    assert !AllSlashes(head) by {
      assert head[|dir| - 1] == dir[|dir| - 1];
    }
    assert RStripSlashes(head) == RStripSlashes(dir);
  }

  /** True when `s` has a character other than '.' . */
  predicate HasNonDot(s: string) {
    exists i :: 0 <= i < |s| && s[i] != '.'
  }

  /**
   * The extension `posixpath.splitext(p)` returns: from the last '.' of the last
   * path component, provided that component has a non-dot character before that
   * '.' (so ".bashrc" and "..." have no extension); otherwise "".
   */
  function Ext(p: string): (e: string)
    ensures |e| <= |p|
  {
    var sep := LastIndexOf(p, '/');
    var dot := LastIndexOf(p, '.');
    if dot > sep && HasNonDot(p[sep + 1..dot]) then p[dot..] else ""
  }

  /**
   * The extension is empty, or a suffix of the path that starts with its only '.' and
   * holds no '/'.
   */
  lemma ExtIsSuffix(p: string)
    ensures var e := Ext(p);
      e == p[|p| - |e|..] && (e == [] || (e[0] == '.' && '.' !in e[1..] && '/' !in e))
  {
    var sep := LastIndexOf(p, '/');
    var dot := LastIndexOf(p, '.');
    if dot > sep && HasNonDot(p[sep + 1..dot]) {
      var e := p[dot..];
      assert e == p[|p| - |e|..];
      LastIndexOfIsLast(p, '.');
      assert e[1..] == p[dot + 1..];
      LastIndexOfIsLast(p, '/');
      assert '/' !in e by {
        if sep >= 0 {
          assert e == p[sep + 1..][dot - sep - 1..];
        } else {
          assert e == p[dot..];
        }
      }
    }
  }

  /** Python's `ext[1:]`: the extension without its dot ("" stays ""). */
  function DropDot(e: string): string {
    if e == [] then [] else e[1..]
  }

  /** ASCII upper-case letters. */
  predicate IsUpper(c: char) {
    'A' <= c <= 'Z'
  }

  /** `str.lower()` restricted to ASCII: maps 'A'..'Z' to 'a'..'z' and keeps the rest. */
  function Lower(s: string): (r: string)
    ensures |r| == |s|
  {
    if s == [] then []
    else (if IsUpper(s[0]) then [(s[0] as int + 32) as char] else [s[0]]) + Lower(s[1..])
  }

  /**
   * `Lower` leaves no upper-case letter, keeps every other character and maps each
   * upper-case letter to its lower-case one.
   */
  lemma {:induction false} LowerMapsLetters(s: string)
    ensures var r := Lower(s);
      (forall i :: 0 <= i < |r| ==> !IsUpper(r[i])) &&
      (forall i :: 0 <= i < |s| && !IsUpper(s[i]) ==> r[i] == s[i]) &&
      (forall i :: 0 <= i < |s| && IsUpper(s[i]) ==> r[i] == (s[i] as int + 32) as char)
  {
    if s != [] {
      LowerMapsLetters(s[1..]);
      var head := if IsUpper(s[0]) then [(s[0] as int + 32) as char] else [s[0]];
      var r := Lower(s);
      assert r == head + Lower(s[1..]);
      forall i | 1 <= i < |s| ensures r[i] == Lower(s[1..])[i - 1] && s[i] == s[1..][i - 1] { }
    }
  }

  /** The decimal digits of `n` (`str(n)` for a natural number). */
  function NatToString(n: nat): (r: string)
    ensures r != []
  {
    var d := ['0' + (n % 10) as char];
    if n < 10 then d else NatToString(n / 10) + d
  }

  /** The decimal form of a natural number consists of digits. */
  lemma {:induction false} NatToStringDigits(n: nat)
    ensures forall i :: 0 <= i < |NatToString(n)| ==> '0' <= NatToString(n)[i] <= '9'
  {
    var d := ['0' + (n % 10) as char];
    assert '0' <= d[0] <= '9';
    if n >= 10 {
      NatToStringDigits(n / 10);
      var h := NatToString(n / 10);
      assert NatToString(n) == h + d;
      forall i | 0 <= i < |NatToString(n)| ensures '0' <= NatToString(n)[i] <= '9' {
        if i < |h| {
          assert NatToString(n)[i] == h[i];
        } else {
          assert NatToString(n)[i] == d[0];
        }
      }
    }
  }

  /** `str(i)` for an integer. */
  function IntToString(i: int): (r: string)
    ensures r != []
  {
    if i < 0 then "-" + NatToString(-i) else NatToString(i)
  }

  /** The decimal form of an integer holds no '/', so it is a single path component. */
  lemma IntToStringHasNoSlash(i: int)
    ensures '/' !in IntToString(i)
  {
    var r := IntToString(i);
    if i >= 0 {
      NatToStringDigits(i);
      assert r == NatToString(i);
      forall k | 0 <= k < |r| ensures r[k] != '/' {
        assert '0' <= r[k];
      }
    } else {
      NatToStringDigits(-i);
      var t := NatToString(-i);
      assert r == "-" + t;
      forall k | 0 <= k < |r| ensures r[k] != '/' {
        if k >= 1 {
          assert r[k] == t[k - 1];
          assert '0' <= t[k - 1];
        }
      }
    }
  }
}
