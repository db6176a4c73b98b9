/** The string operations the classifiers and the extractor apply to paths and
    file names: `str.lower()`, the substring test `sub in s`, `str.rfind`, and
    the `name` and `suffix` properties of a `pathlib.Path`. A path is modelled
    by its string form, `str(path)`. */
module Paths {

  /** `str(path)`: the path's string form. */
  type Path = string

  /** `str.lower()` on one character, for the ASCII letters. */
  function LowerChar(c: char): char {
    if 'A' <= c <= 'Z' then (c as int - 'A' as int + 'a' as int) as char else c
  }

  /** `str.lower()`. */
  function Lower(s: string): string {
    seq(|s|, i requires 0 <= i < |s| => LowerChar(s[i]))
  }

  /** A string with no upper-case letter is its own lower-case form. */
  lemma LowerKeeps(s: string)
    requires forall i :: 0 <= i < |s| ==> !('A' <= s[i] <= 'Z')
    ensures Lower(s) == s
  {
  }

  /** Lower-casing moves no '.': the last '.' stays where it was. */
  lemma {:induction false} RFindDotLower(s: string)
    ensures RFind(Lower(s), '.') == RFind(s, '.')
    decreases |s|
  {
    if |s| > 0 {
      assert Lower(s)[..|s| - 1] == Lower(s[..|s| - 1]);
      RFindDotLower(s[..|s| - 1]);
    }
  }

  /** Lower-casing twice is lower-casing once. */
  lemma LowerIdempotent(s: string)
    ensures Lower(Lower(s)) == Lower(s)
  {
  }

  /** `sub` occurs in `s` starting at position `i`. */
  predicate OccursAt(s: string, sub: string, i: int) {
    0 <= i && i + |sub| <= |s| && s[i..i + |sub|] == sub
  }

  /** Python's `sub in s` on two strings: `sub` occurs in `s` at some position. */
  predicate Contains(s: string, sub: string) {
    exists i | 0 <= i <= |s| - |sub| :: OccursAt(s, sub, i)
  }

  /** `s.rfind(c)`: the position of the last `c` in `s`, or -1 when there is none. */
  function RFind(s: string, c: char): (r: int)
    ensures r == -1 <==> c !in s
    ensures r != -1 ==> 0 <= r < |s| && s[r] == c && c !in s[r + 1..]
    decreases |s|
  {
    if |s| == 0 then -1
    else if s[|s| - 1] == c then |s| - 1
    else RFind(s[..|s| - 1], c)
  }

  /** `path.name`: the final component, everything after the last '/'. */
  function Name(p: Path): (r: string)
    ensures '/' !in r
    ensures |r| <= |p| && r == p[|p| - |r|..]
  {
    p[RFind(p, '/') + 1..]
  }

  /** Position `i` of `name` holds its last '.', and that '.' is neither the
      first nor the last character. */
  predicate InteriorLastDot(name: string, i: int) {
    0 < i < |name| - 1 && name[i] == '.' && '.' !in name[i + 1..]
  }

  /** `path.suffix`: for a name whose last '.' is neither its first nor its last
      character, the name from that dot on; otherwise the empty string. */
  function Suffix(p: Path): (r: string)
    ensures forall i :: InteriorLastDot(Name(p), i) ==> r == Name(p)[i..]
    ensures (forall i :: !InteriorLastDot(Name(p), i)) ==> r == ""
    ensures r != "" ==> |r| >= 2 && r[0] == '.' && '.' !in r[1..] && '/' !in r
  {
    var name := Name(p);
    var i := RFind(name, '.');
    LastDotUnique(name);
    if 0 < i < |name| - 1 then
      assert InteriorLastDot(name, i);
      name[i..]
    else ""
  }

  /** Only the position `RFind` gives can hold a last '.'. */
  lemma LastDotUnique(name: string)
    ensures forall i :: InteriorLastDot(name, i) ==> i == RFind(name, '.')
  {
    forall i | InteriorLastDot(name, i) ensures i == RFind(name, '.') {
      RFindAt(name, '.', i);
    }
  }

  /** A character with no copy after it is the last one `RFind` finds. */
  lemma RFindAt(s: string, c: char, i: nat)
    requires i < |s| && s[i] == c && c !in s[i + 1..]
    ensures RFind(s, c) == i
  {
    var r := RFind(s, c);
    assert r == i;
  }

  /** The suffix of a bare file name is read off at its last '.'. */
  lemma SuffixAt(p: Path, i: nat)
    requires '/' !in p && 0 < i < |p| - 1 && p[i] == '.' && '.' !in p[i + 1..]
    ensures Suffix(p) == p[i..]
  {
    assert Name(p) == p;
    assert InteriorLastDot(Name(p), i);
  }
}
