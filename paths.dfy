/**
 * Path strings as CPython's `pathlib` reads them (POSIX flavour): the final
 * component of a path, its suffix and its stem; ASCII lower-casing of a
 * suffix; joining a directory and a name; and the decimal text that an
 * f-string gives an integer user id.
 */
module Paths {

  type Path = string

  /** Index of the last occurrence of `c` in `s`, or -1 when there is none (`str.rfind`). */
  function LastIndexOf(s: string, c: char): (i: int)
    ensures -1 <= i < |s|
    ensures 0 <= i ==> s[i] == c
    ensures forall j :: i < j < |s| ==> s[j] != c
  {
    if s == [] then -1
    else if s[|s| - 1] == c then |s| - 1
    else LastIndexOf(s[..|s| - 1], c)
  }

  /**
   * `PurePath.name`: the last component of `p`, where empty components
   * (from repeated or trailing slashes) and "." components do not count;
   * "" when no component is left.
   */
  function Name(p: Path): (n: string)
    ensures '/' !in n && n != "."
    decreases |p|
  {
    var i := LastIndexOf(p, '/');
    var last := p[i + 1..];
    if last != "" && last != "." then
      assert forall k :: 0 <= k < |last| ==> last[k] == p[i + 1 + k];
      last
    else if i < 0 then ""
    else Name(p[..i])
  }

  /**
   * `PurePath.suffix` of a final component: the text from its last '.',
   * unless that dot is the first or the last character, in which case the
   * suffix is empty.
   */
  function Suffix(name: string): (s: string)
    ensures s == "" || (2 <= |s| < |name| && s[0] == '.' && '.' !in s[1..])
    ensures s == "" || s == name[|name| - |s|..]
  {
    var i := LastIndexOf(name, '.');
    if 0 < i < |name| - 1 then
      assert forall k :: 0 <= k < |name| - i - 1 ==> name[i..][1..][k] == name[i + 1 + k];
      name[i..]
    else ""
  }

  /** `PurePath.stem`: the final component without its suffix. */
  function Stem(name: string): (s: string)
    ensures s + Suffix(name) == name
    ensures Suffix(name) != "" ==> s != ""
  {
    var i := LastIndexOf(name, '.');
    if 0 < i < |name| - 1 then name[..i] else name
  }

  /** Splitting a name made of a non-empty stem and a one-dot extension gives both parts back. */
  lemma SplitJoinedName(stem: string, ext: string)
    requires stem != "" && 2 <= |ext| && ext[0] == '.' && '.' !in ext[1..]
    ensures Suffix(stem + ext) == ext
    ensures Stem(stem + ext) == stem
  {
    var s := stem + ext;
    var i := LastIndexOf(s, '.');
    assert s[|stem|] == '.';
    if i > |stem| {
      assert false;
    }
    assert s[i..] == ext;
    assert s[..i] == stem;
  }

  /** A single component without separators is its own name. */
  lemma NameOfComponent(n: string)
    requires '/' !in n && n != "" && n != "."
    ensures Name(n) == n
  {
    var i := LastIndexOf(n, '/');
    if 0 <= i {
      assert false;
    }
    assert n[i + 1..] == n;
  }

  /** ASCII lower-casing of one character. */
  function LowerChar(c: char): char
  {
    if 'A' <= c <= 'Z' then (c as int - 'A' as int + 'a' as int) as char else c
  }

  /** `str.lower()` restricted to ASCII letters: every other character is kept. */
  function Lower(s: string): (r: string)
    ensures |r| == |s|
    ensures forall i :: 0 <= i < |s| ==> r[i] == LowerChar(s[i])
  {
    if s == [] then [] else Lower(s[..|s| - 1]) + [LowerChar(s[|s| - 1])]
  }

  /** A string with no upper-case ASCII letter is left as it is by `Lower`. */
  lemma LowerOfLowercase(s: string)
    requires forall i :: 0 <= i < |s| ==> !('A' <= s[i] <= 'Z')
    ensures Lower(s) == s
  {
  }

  /** `dir / name`: `name` placed inside directory `dir`. */
  function Join(dir: Path, name: string): Path
  {
    dir + "/" + name
  }

  /** `p` lies somewhere below directory `dir`. */
  predicate IsUnder(p: Path, dir: Path)
  {
    dir + "/" <= p
  }

  /** A joined path lies below the directory, and the name is what follows its separator. */
  lemma JoinParts(dir: Path, name: string)
    ensures IsUnder(Join(dir, name), dir)
    ensures |Join(dir, name)| == |dir| + 1 + |name| && Join(dir, name)[|dir| + 1..] == name
  {
  }

  /** The name of a joined path is the component that was joined. */
  lemma NameOfJoin(dir: Path, name: string)
    requires '/' !in name && name != "" && name != "."
    ensures Name(Join(dir, name)) == name
  {
    var p := Join(dir, name);
    JoinParts(dir, name);
    var i := LastIndexOf(p, '/');
    assert p[|dir|] == '/';
    if i > |dir| {
      assert false;
    }
    assert p[i + 1..] == name;
  }

  /** Joining onto the same directory is injective in the name. */
  lemma JoinInjective(dir: Path, a: string, b: string)
    ensures Join(dir, a) == Join(dir, b) <==> a == b
  {
    JoinParts(dir, a);
    JoinParts(dir, b);
    if Join(dir, a) == Join(dir, b) {
      assert a == Join(dir, a)[|dir| + 1..];
    }
  }

  /** The decimal digit character for `d`. */
  function Digit(d: nat): (c: char)
    requires d < 10
    ensures '0' <= c <= '9' && c as int - '0' as int == d
  {
    ('0' as int + d) as char
  }

  /** `str(n)` for a non-negative integer: its decimal digits, most significant first. */
  function Decimal(n: nat): (s: string)
    ensures s != ""
    ensures forall i :: 0 <= i < |s| ==> '0' <= s[i] <= '9'
  {
    if n < 10 then [Digit(n)] else Decimal(n / 10) + [Digit(n % 10)]
  }

  /** The number a string of decimal digits denotes (`int(s)`). */
  function DecimalValue(s: string): nat
    requires forall i :: 0 <= i < |s| ==> '0' <= s[i] <= '9'
  {
    if s == [] then 0 else DecimalValue(s[..|s| - 1]) * 10 + (s[|s| - 1] as int - '0' as int)
  }

  /** Reading back the decimal text of `n` gives `n`. */
  lemma {:induction false} DecimalRoundTrip(n: nat)
    ensures DecimalValue(Decimal(n)) == n
  {
    if n >= 10 {
      DecimalRoundTrip(n / 10);
      var s := Decimal(n);
      assert s[..|s| - 1] == Decimal(n / 10);
    }
  }

  /** Two integers have the same decimal text exactly when they are equal. */
  lemma DecimalInjective(a: nat, b: nat)
    ensures Decimal(a) == Decimal(b) <==> a == b
  {
    DecimalRoundTrip(a);
    DecimalRoundTrip(b);
  }
}
