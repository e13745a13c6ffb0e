/**
 * The two string operations the pathway reader uses: Python's `str.strip()` followed by
 * `str.split()` with no argument (whitespace-separated words), and `str.split(';')`
 * (separator-delimited items, empty items kept).
 */
module Text {

  /** The characters Python's `str.isspace()` accepts. */
  predicate IsSpace(c: char)
  {
    c == ' ' || c == '\t' || c == '\n' || c == '\r' || c == '\U{000B}' || c == '\U{000C}' ||
    ('\U{001C}' <= c <= '\U{001F}') || c == '\U{0085}' || c == '\U{00A0}' || c == '\U{1680}' ||
    ('\U{2000}' <= c <= '\U{200A}') || c == '\U{2028}' || c == '\U{2029}' || c == '\U{202F}' ||
    c == '\U{205F}' || c == '\U{3000}'
  }

  /** `s` contains no whitespace character. */
  predicate NoSpace(s: string)
  {
    forall k :: 0 <= k < |s| ==> !IsSpace(s[k])
  }

  /** `s` with its leading whitespace removed. */
  function LStrip(s: string): string
    decreases |s|
  {
    if s != [] && IsSpace(s[0]) then LStrip(s[1..]) else s
  }

  /** `s` with its trailing whitespace removed. */
  function RStrip(s: string): string
    decreases |s|
  {
    if s != [] && IsSpace(s[|s| - 1]) then RStrip(s[..|s| - 1]) else s
  }

  /** Python's `s.strip()`. */
  function Strip(s: string): string
  {
    RStrip(LStrip(s))
  }

  /** Left stripping drops a whitespace-only prefix and leaves a string that starts with no whitespace. */
  lemma {:induction false} LStripShape(s: string)
    ensures |LStrip(s)| <= |s| && LStrip(s) == s[|s| - |LStrip(s)|..]
    ensures forall k :: 0 <= k < |s| - |LStrip(s)| ==> IsSpace(s[k])
    ensures LStrip(s) == [] || !IsSpace(LStrip(s)[0])
    decreases |s|
  {
    if s != [] && IsSpace(s[0]) {
      LStripShape(s[1..]);
    }
  }

  /** Right stripping drops a whitespace-only suffix and leaves a string that ends with no whitespace. */
  lemma {:induction false} RStripShape(s: string)
    ensures |RStrip(s)| <= |s| && RStrip(s) == s[..|RStrip(s)|]
    ensures forall k :: |RStrip(s)| <= k < |s| ==> IsSpace(s[k])
    ensures RStrip(s) == [] || !IsSpace(RStrip(s)[|RStrip(s)| - 1])
    decreases |s|
  {
    if s != [] && IsSpace(s[|s| - 1]) {
      RStripShape(s[..|s| - 1]);
    }
  }

  /** The length of the leading run of non-whitespace characters. */
  function WordLen(s: string): (n: nat)
    ensures n <= |s|
    ensures forall k :: 0 <= k < n ==> !IsSpace(s[k])
    ensures n < |s| ==> IsSpace(s[n])
    decreases |s|
  {
    if s == [] || IsSpace(s[0]) then 0 else 1 + WordLen(s[1..])
  }

  /** Python's `s.split()`: the maximal runs of non-whitespace characters, in order. */
  function Words(s: string): (ws: seq<string>)
    ensures forall k :: 0 <= k < |ws| ==> ws[k] != [] && NoSpace(ws[k])
    decreases |s|
  {
    if s == [] then []
    else if IsSpace(s[0]) then Words(s[1..])
    else
      var n := WordLen(s);
      [s[..n]] + Words(s[n..])
  }

  /** Python's `s.split(c)`: the pieces between occurrences of `c`, empty pieces included. */
  function SplitOn(s: string, c: char): (r: seq<string>)
    ensures |r| >= 1
    ensures forall k :: 0 <= k < |r| ==> c !in r[k]
    decreases |s|
  {
    if s == [] then [""]
    else if s[0] == c then [""] + SplitOn(s[1..], c)
    else
      var rest := SplitOn(s[1..], c);
      [[s[0]] + rest[0]] + rest[1..]
  }

  /** Python's `c.join(ws)`. */
  function JoinOn(ws: seq<string>, c: char): string
  {
    if ws == [] then []
    else if |ws| == 1 then ws[0]
    else ws[0] + [c] + JoinOn(ws[1..], c)
  }

  /** A word followed by whitespace or the end of the string is taken whole. */
  lemma {:induction false} WordLenOfWord(w: string, rest: string)
    requires NoSpace(w)
    requires rest == [] || IsSpace(rest[0])
    ensures WordLen(w + rest) == |w|
    decreases |w|
  {
    if w != [] {
      assert (w + rest)[1..] == w[1..] + rest;
      WordLenOfWord(w[1..], rest);
    } else {
      assert w + rest == rest;
    }
  }

  /** Splitting on `c` undoes joining with `c`, provided no item contains `c`. */
  lemma {:induction false} SplitOnJoin(ws: seq<string>, c: char)
    requires ws != []
    requires forall k :: 0 <= k < |ws| ==> c !in ws[k]
    ensures SplitOn(JoinOn(ws, c), c) == ws
    decreases |ws|, |ws[0]|
  {
    if |ws| == 1 {
      SplitOnItem(ws[0], [], c);
      assert ws[0] + [] == ws[0];
    } else {
      SplitOnJoin(ws[1..], c);
      SplitOnItem(ws[0], [c] + JoinOn(ws[1..], c), c);
      assert ws[0] + [c] + JoinOn(ws[1..], c) == ws[0] + ([c] + JoinOn(ws[1..], c));
      assert ([c] + JoinOn(ws[1..], c))[1..] == JoinOn(ws[1..], c);
      assert [ws[0]] + ws[1..] == ws;
    }
  }

  /** Splitting an item without `c` followed by `rest` glues the item onto the first piece of `rest`. */
  lemma {:induction false} SplitOnItem(w: string, rest: string, c: char)
    requires c !in w
    ensures SplitOn(w + rest, c) == [w + SplitOn(rest, c)[0]] + SplitOn(rest, c)[1..]
    ensures rest != [] && rest[0] == c ==> SplitOn(w + rest, c) == [w] + SplitOn(rest[1..], c)
    decreases |w|
  {
    var r := SplitOn(rest, c);
    if w == [] {
      assert w + rest == rest;
      assert [r[0]] + r[1..] == r;
      assert w + r[0] == r[0];
    } else {
      assert (w + rest)[1..] == w[1..] + rest;
      assert w[0] != c;
      SplitOnItem(w[1..], rest, c);
      assert [w[0]] + (w[1..] + r[0]) == w + r[0];
    }
    if rest != [] && rest[0] == c {
      assert r == [""] + SplitOn(rest[1..], c);
      assert w + r[0] == w;
    }
  }

  /** Joining with `c` undoes splitting on `c`. */
  lemma {:induction false} JoinOnSplit(s: string, c: char)
    ensures JoinOn(SplitOn(s, c), c) == s
    decreases |s|
  {
    if s != [] {
      JoinOnSplit(s[1..], c);
      var rest := SplitOn(s[1..], c);
      if s[0] == c {
        assert SplitOn(s, c) == [""] + rest;
        assert JoinOn([""] + rest, c) == "" + [c] + JoinOn(rest, c);
      } else {
        JoinOnHead(rest, [s[0]], c);
        assert [s[0]] + s[1..] == s;
      }
    }
  }

  /** Prepending to the first item prepends to the joined string. */
  lemma {:induction false} JoinOnHead(ws: seq<string>, p: string, c: char)
    requires ws != []
    ensures JoinOn([p + ws[0]] + ws[1..], c) == p + JoinOn(ws, c)
  {
    var ws' := [p + ws[0]] + ws[1..];
    assert ws'[1..] == ws[1..];
    if |ws| > 1 {
      assert JoinOn(ws', c) == (p + ws[0]) + [c] + JoinOn(ws[1..], c);
    }
  }

  /** Splitting into words undoes joining nonempty space-free words with single spaces. */
  lemma {:induction false} WordsOfJoinSpaced(ws: seq<string>)
    requires forall k :: 0 <= k < |ws| ==> ws[k] != [] && NoSpace(ws[k])
    ensures Words(JoinOn(ws, ' ')) == ws
    decreases |ws|
  {
    if |ws| == 1 {
      WordsOfWord(ws[0], []);
      assert ws[0] + [] == ws[0];
    } else if |ws| > 1 {
      var tail := JoinOn(ws[1..], ' ');
      WordsOfJoinSpaced(ws[1..]);
      WordsOfWord(ws[0], " " + tail);
      WordsAfterSpace(tail);
      assert JoinOn(ws, ' ') == ws[0] + (" " + tail);
      assert [ws[0]] + ws[1..] == ws;
    }
  }

  /** A leading space does not change the words. */
  lemma WordsAfterSpace(s: string)
    ensures Words(" " + s) == Words(s)
  {
    assert (" " + s)[1..] == s;
  }

  /** A word followed by whitespace or the end of the string is the first word. */
  lemma WordsOfWord(w: string, rest: string)
    requires w != [] && NoSpace(w)
    requires rest == [] || IsSpace(rest[0])
    ensures Words(w + rest) == [w] + Words(rest)
  {
    WordLenOfWord(w, rest);
    assert (w + rest)[..|w|] == w;
    assert (w + rest)[|w|..] == rest;
  }
}
