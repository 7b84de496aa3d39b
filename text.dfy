/**
 * String helpers the puzzles' `__str__` methods share: Python's
 * `str.rstrip` with an explicit set of characters to strip, and the text
 * made of rows each followed by a newline.
 */
module Text {
  /**
   * `s.rstrip(chars)`: `s` without its longest suffix made of characters
   * in `strip`.
   */
  function RStrip(s: string, strip: set<char>): (r: string)
    ensures |r| <= |s| && r == s[..|r|]
    ensures forall i | |r| <= i < |s| :: s[i] in strip
    ensures r == [] || r[|r| - 1] !in strip
  {
    if s != [] && s[|s| - 1] in strip then RStrip(s[..|s| - 1], strip) else s
  }

  /** Stripping a string that ends in characters kept leaves it unchanged. */
  lemma RStripKeeps(s: string, strip: set<char>)
    requires s != [] && s[|s| - 1] !in strip
    ensures RStrip(s, strip) == s
  {
  }

  /** Appending characters that are stripped does not change the result. */
  lemma {:induction false} RStripSuffix(s: string, t: string, strip: set<char>)
    requires forall i | 0 <= i < |t| :: t[i] in strip
    ensures RStrip(s + t, strip) == RStrip(s, strip)
    decreases |t|
  {
    if t != [] {
      var u := s + t;
      assert u[..|u| - 1] == s + t[..|t| - 1];
      RStripSuffix(s, t[..|t| - 1], strip);
    } else {
      assert s + t == s;
    }
  }

  /** Every row in turn, each followed by a newline. */
  function Lines(rows: seq<string>): (r: string)
    ensures r == [] || r[|r| - 1] == '\n'
  {
    if rows == [] then "" else Lines(rows[..|rows| - 1]) + rows[|rows| - 1] + "\n"
  }

  /** No row holds a newline. */
  predicate NoNewline(rows: seq<string>)
  {
    forall j, i | 0 <= j < |rows| && 0 <= i < |rows[j]| :: rows[j][i] != '\n'
  }

  /** When the last row ends in a character kept, stripping removes exactly the final newline. */
  lemma StripFinalNewline(rows: seq<string>, strip: set<char>)
    requires rows != [] && rows[|rows| - 1] != [] && '\n' in strip
    requires rows[|rows| - 1][|rows[|rows| - 1]| - 1] !in strip
    ensures RStrip(Lines(rows), strip) + "\n" == Lines(rows)
  {
    var n := |rows| - 1;
    var body := Lines(rows[..n]) + rows[n];
    assert Lines(rows) == body + "\n";
    assert body[|body| - 1] == rows[n][|rows[n]| - 1];
    RStripKeeps(body, strip);
  }

  /** Rows that are all empty strip down to the empty string, whatever their number. */
  lemma {:induction false} EmptyLinesStripEmpty(rows: seq<string>, strip: set<char>)
    requires '\n' in strip && forall j | 0 <= j < |rows| :: rows[j] == []
    ensures RStrip(Lines(rows), strip) == ""
    decreases |rows|
  {
    if rows != [] {
      var n := |rows| - 1;
      EmptyLinesStripEmpty(rows[..n], strip);
      assert Lines(rows) == Lines(rows[..n]) + "\n";
      RStripSuffix(Lines(rows[..n]), "\n", strip);
    }
  }

  /**
   * Splitting after the last newline: `u` and `v` are empty or end with a
   * newline, `r` and `t` hold none.
   */
  lemma SplitAtLastNewline(u: string, r: string, v: string, t: string)
    requires u == [] || u[|u| - 1] == '\n'
    requires v == [] || v[|v| - 1] == '\n'
    requires '\n' !in r && '\n' !in t && u + r == v + t
    ensures u == v && r == t
  {
    if |r| != |t| {
      assert false;
    } else {
      assert u == (u + r)[..|u|] && v == (v + t)[..|v|];
      assert r == (u + r)[|u|..] && t == (v + t)[|v|..];
    }
  }

  /** Without newlines inside rows the lines determine the rows. */
  lemma {:induction false} LinesInjective(a: seq<string>, b: seq<string>)
    requires NoNewline(a) && NoNewline(b) && Lines(a) == Lines(b)
    ensures a == b
    decreases |a|
  {
    if a == [] || b == [] {
      if a != [] || b != [] {
        assert false;
      }
    } else {
      var n, k := |a| - 1, |b| - 1;
      var la, lb := Lines(a), Lines(b);
      assert la[..|la| - 1] == Lines(a[..n]) + a[n];
      assert lb[..|lb| - 1] == Lines(b[..k]) + b[k];
      assert '\n' !in a[n] by {
        assert forall i | 0 <= i < |a[n]| :: a[n][i] != '\n';
      }
      assert '\n' !in b[k] by {
        assert forall i | 0 <= i < |b[k]| :: b[k][i] != '\n';
      }
      SplitAtLastNewline(Lines(a[..n]), a[n], Lines(b[..k]), b[k]);
      LinesInjective(a[..n], b[..k]);
      assert a == a[..n] + [a[n]] && b == b[..k] + [b[k]];
    }
  }
}
