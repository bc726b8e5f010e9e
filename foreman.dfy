/**
  The display name `make_foreman_plots` in lobster/cmssw/plotting.py gives to
  a foreman log: the base name of the file, and, when that base name matches
  the regular expression `.*log+`, the part before its last dot with
  surrounding whitespace stripped.
*/
module Foreman {

  /** `s.rfind(ch)`: the index of the last `ch` in `s`, or -1 when there is none. */
  function RFind(s: string, ch: char): (r: int)
    ensures -1 <= r < |s|
    ensures r >= 0 ==> s[r] == ch && forall k :: r < k < |s| ==> s[k] != ch
    ensures r == -1 <==> ch !in s
  {
    if s == [] then -1
    else if s[|s| - 1] == ch then |s| - 1
    else
      var r := RFind(s[..|s| - 1], ch);
      assert ch in s ==> ch in s[..|s| - 1] by {
        if ch in s {
          var k :| 0 <= k < |s| && s[k] == ch;
          assert s[..|s| - 1][k] == ch;
        }
      }
      r
  }

  /** `os.path.basename(path)`: what follows the last slash. */
  function Basename(path: string): (b: string)
    ensures '/' !in b
    ensures |b| <= |path| && path[|path| - |b|..] == b
    ensures |b| < |path| ==> path[|path| - |b| - 1] == '/'
  {
    var i := RFind(path, '/');
    path[i + 1..]
  }

  /** `re.match('.*log+', s)`: "log" occurs with no newline before it (`.` does not match one). */
  predicate MatchesLog(s: string)
  {
    exists i :: 0 <= i && i + 3 <= |s| && s[i..i + 3] == "log" && '\n' !in s[..i]
  }

  /** The characters `string.strip` removes: `string.whitespace`. */
  predicate IsSpace(c: char)
  {
    c in " \t\n\r\U{0b}\U{0c}"
  }

  /** The text with its leading whitespace removed. */
  function StripLeft(s: string): (r: string)
    ensures |r| <= |s| && s[|s| - |r|..] == r
    ensures forall k :: 0 <= k < |s| - |r| ==> IsSpace(s[k])
    ensures r == [] || !IsSpace(r[0])
  {
    if s != [] && IsSpace(s[0]) then StripLeft(s[1..]) else s
  }

  /** The text with its trailing whitespace removed. */
  function StripRight(s: string): (r: string)
    ensures |r| <= |s| && s[..|r|] == r
    ensures forall k :: |r| <= k < |s| ==> IsSpace(s[k])
    ensures r == [] || !IsSpace(r[|r| - 1])
  {
    if s != [] && IsSpace(s[|s| - 1]) then StripRight(s[..|s| - 1]) else s
  }

  /** `string.strip(s)`. */
  function Strip(s: string): string
  {
    StripRight(StripLeft(s))
  }

  /**
    What `string.strip` returns is the slice `s[i..j]` of its input: only
    whitespace lies outside it, and it does not begin or end with whitespace.
  */
  lemma StripSlice(s: string) returns (i: nat, j: nat)
    ensures i <= j <= |s| && Strip(s) == s[i..j]
    ensures forall k :: 0 <= k < i ==> IsSpace(s[k])
    ensures forall k :: j <= k < |s| ==> IsSpace(s[k])
    ensures i < j ==> !IsSpace(s[i]) && !IsSpace(s[j - 1])
  {
    var l := StripLeft(s);
    var r := StripRight(l);
    i := |s| - |l|;
    j := i + |r|;
    SpacesAfter(s, l, |r|);
    assert r == s[i..j] by {
      assert l == s[i..];
    }
  }

  lemma SpacesAfter(s: string, l: string, n: nat)
    requires |l| <= |s| && s[|s| - |l|..] == l && n <= |l|
    requires forall k :: n <= k < |l| ==> IsSpace(l[k])
    ensures forall k :: |s| - |l| + n <= k < |s| ==> IsSpace(s[k])
  {
    var i := |s| - |l|;
    forall k | i + n <= k < |s| ensures IsSpace(s[k]) {
      assert s[k] == l[k - i];
    }
  }

  /** Text without whitespace at either end comes back from `string.strip` unchanged. */
  lemma StripTrimmed(s: string)
    requires s == [] || (!IsSpace(s[0]) && !IsSpace(s[|s| - 1]))
    ensures Strip(s) == s
  {
  }

  /** The end of a Python slice `s[:j]`, with a negative `j` counted from the end. */
  function SliceEnd(n: nat, j: int): (e: nat)
    ensures e <= n
    ensures 0 <= j <= n ==> e == j
    ensures -(n as int) <= j < 0 ==> e as int == n as int + j
  {
    if j >= 0 then (if j <= n then j else n)
    else if -j <= n then n + j else 0
  }

  /**
    The name as plotting.py:509-513 computes it. When the base name has no
    dot, `rfind` returns -1 and `foreman[:-1]` drops the last character.
  */
  function ForemanNameAsWritten(path: string): string
  {
    var b := Basename(path);
    if MatchesLog(b) then Strip(b[..SliceEnd(|b|, RFind(b, '.'))]) else b
  }

  /** The name with the extension removed only when there is one. */
  function ForemanName(path: string): string
  {
    var b := Basename(path);
    if MatchesLog(b) then
      var d := RFind(b, '.');
      Strip(b[..if d == -1 then |b| else d])
    else b
  }

  /** As written, a matching base name with no dot loses its last character. */
  lemma AsWrittenDropsLastChar(path: string)
    requires MatchesLog(Basename(path)) && '.' !in Basename(path)
    ensures var b := Basename(path);
            ForemanNameAsWritten(path) == Strip(b[..|b| - 1])
  {
    var b := Basename(path);
    var i :| 0 <= i && i + 3 <= |b| && b[i..i + 3] == "log" && '\n' !in b[..i];
    assert RFind(b, '.') == -1;
    assert |b| >= 1;
    assert SliceEnd(|b|, -1) == |b| - 1;
  }

  /**
    So a trimmed base name that matches and has no dot, such as `foremanlog`,
    is shown shorter than the corrected name, which keeps it whole.
  */
  lemma AsWrittenLosesChar(path: string)
    requires var b := Basename(path);
             MatchesLog(b) && '.' !in b && !IsSpace(b[0]) && !IsSpace(b[|b| - 1])
    ensures ForemanName(path) == Basename(path)
    ensures |ForemanNameAsWritten(path)| < |ForemanName(path)|
  {
    var b := Basename(path);
    assert b != [] && !IsSpace(b[0]) && !IsSpace(b[|b| - 1]);
    AsWrittenDropsLastChar(path);
    StripTrimmed(b);
    var i, j := StripSlice(b[..|b| - 1]);
  }

  /** The name `foremanlog` is one such base name. */
  lemma AsWrittenExample(p: string)
    requires p == "foremanlog"
    ensures ForemanNameAsWritten(p) != ForemanName(p)
  {
    assert p[7..10] == "log" && '\n' !in p[..7];
    BasenameOfName(p);
    AsWrittenLosesChar(p);
  }

  /** Whenever the base name contains a dot, the corrected name agrees with the name as written. */
  lemma AgreeWithDot(path: string)
    requires '.' in Basename(path)
    ensures ForemanName(path) == ForemanNameAsWritten(path)
  {
  }

  /** A name never contains a slash: it is a part of the base name. */
  lemma NameHasNoSlash(path: string)
    ensures '/' !in ForemanName(path)
  {
    var b := Basename(path);
    if MatchesLog(b) {
      var d := RFind(b, '.');
      var stem := b[..if d == -1 then |b| else d];
      var i, j := StripSlice(stem);
    }
  }

  /**
    The log of foreman `stem`, written as `dir/stem.log`, is shown as `stem`
    with surrounding whitespace stripped.
  */
  lemma {:induction false} NameOfLog(dir: string, stem: string)
    requires '/' !in stem && '\n' !in stem && '.' !in stem
    ensures ForemanName(dir + "/" + stem + ".log") == Strip(stem)
  {
    var b := stem + ".log";
    assert dir + "/" + stem + ".log" == (dir + "/") + b;
    BasenameAfterSlash(dir + "/", b);
    LogMatches(stem);
    LogDot(stem);
    assert b[..|stem|] == stem;
  }

  lemma LogMatches(stem: string)
    requires '\n' !in stem
    ensures MatchesLog(stem + ".log")
  {
    var b := stem + ".log";
    assert b[|stem| + 1..|stem| + 4] == "log";
    assert b[..|stem| + 1] == stem + ".";
  }

  lemma LogDot(stem: string)
    requires '.' !in stem
    ensures RFind(stem + ".log", '.') == |stem|
  {
    var b := stem + ".log";
    forall k | |stem| < k < |b| ensures b[k] != '.' {
      assert b[k] == ".log"[k - |stem|];
    }
    RFindLast(b, '.', |stem|);
  }

  /** A name without a slash is its own base name. */
  lemma BasenameOfName(p: string)
    requires '/' !in p
    ensures Basename(p) == p
  {
  }

  lemma {:induction false} BasenameAfterSlash(dir: string, b: string)
    requires |dir| > 0 && dir[|dir| - 1] == '/' && '/' !in b
    ensures Basename(dir + b) == b
  {
    var p := dir + b;
    RFindLast(p, '/', |dir| - 1);
  }

  /** `rfind` finds the index of a character with no copy of it after. */
  lemma {:induction false} RFindLast(s: string, ch: char, i: nat)
    requires i < |s| && s[i] == ch && forall k :: i < k < |s| ==> s[k] != ch
    ensures RFind(s, ch) == i
    decreases |s|
  {
    if i < |s| - 1 {
      var p := s[..|s| - 1];
      RFindLast(p, ch, i);
    }
  }
}
