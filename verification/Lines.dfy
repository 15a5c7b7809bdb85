/** Text as lines: `split("\n")`, `join("\n")` and the replacement of `\r\n`. */
module Lines {

  function SplitLines(s: string): (r: seq<string>)
    ensures |r| > 0
    decreases |s|
  {
    if s == "" then [""]
    else if s[|s| - 1] == '\n' then SplitLines(s[..|s| - 1]) + [""]
    else
      var r := SplitLines(s[..|s| - 1]);
      r[|r| - 1 := r[|r| - 1] + [s[|s| - 1]]]
  }

  function JoinLines(lines: seq<string>): string
    decreases |lines|
  {
    if lines == [] then "" else if |lines| == 1 then lines[0]
    else JoinLines(lines[..|lines| - 1]) + "\n" + lines[|lines| - 1]
  }

  /** Joining undoes splitting. */
  lemma {:induction false} JoinSplit(s: string)
    ensures JoinLines(SplitLines(s)) == s && forall i :: 0 <= i < |SplitLines(s)| ==> '\n' !in SplitLines(s)[i]
    decreases |s|
  {
    if s == "" {
      assert SplitLines(s) == [""];
    } else {
      var n := |s| - 1;
      var r := SplitLines(s[..n]);
      JoinSplit(s[..n]);
      assert s == s[..n] + [s[n]];
      if s[n] == '\n' {
        assert (r + [""])[..|r|] == r;
      } else {
        JoinLonger(r, s[n]);
      }
    }
  }

  lemma JoinLonger(lines: seq<string>, c: char)
    requires lines != []
    ensures var n := |lines| - 1; JoinLines(lines[n := lines[n] + [c]]) == JoinLines(lines) + [c]
  {
    var n := |lines| - 1;
    assert lines[n := lines[n] + [c]][..n] == lines[..n];
  }

  lemma {:induction false} SplitAppend(s: string, l: string)
    requires '\n' !in l
    ensures SplitLines(s + "\n" + l) == SplitLines(s) + [l]
    decreases |l|
  {
    if l == "" {
      assert s + "\n" + l == s + "\n";
      assert (s + "\n")[..|s|] == s;
    } else {
      var n := |l| - 1;
      var t := s + "\n" + l;
      assert t[..|t| - 1] == s + "\n" + l[..n];
      SplitAppend(s, l[..n]);
      assert l == l[..n] + [l[n]];
      assert t[|t| - 1] == l[n];
    }
  }

  lemma SplitNext(s: string, c: char)
    ensures var r := SplitLines(s);
      SplitLines(s + [c]) == if c == '\n' then r + [""] else r[|r| - 1 := r[|r| - 1] + [c]]
  {
    assert (s + [c])[..|s|] == s;
  }

  lemma {:induction false} SplitOne(l: string)
    requires '\n' !in l
    ensures SplitLines(l) == [l]
    decreases |l|
  {
    if l != "" {
      SplitOne(l[..|l| - 1]);
      assert l == l[..|l| - 1] + [l[|l| - 1]];
    }
  }

  /** `replace(/\r\n/g, "\n")` */
  function Normalize(s: string): string
    decreases |s|
  {
    var n := |s|;
    if n == 0 then ""
    else if n >= 2 && s[n - 1] == '\n' && s[n - 2] == '\r' then Normalize(s[..n - 2]) + "\n"
    else Normalize(s[..n - 1]) + [s[n - 1]]
  }

  lemma {:induction false} NormalizeTail(s: string, l: string)
    requires '\n' !in l
    ensures Normalize(s + l) == Normalize(s) + l
    decreases |l|
  {
    if l == "" {
      assert s + l == s;
    } else {
      var t := s + l;
      var n := |l| - 1;
      assert t[..|t| - 1] == s + l[..n];
      assert t[|t| - 1] == l[n];
      NormalizeTail(s, l[..n]);
      assert l == l[..n] + [l[n]];
    }
  }
}
