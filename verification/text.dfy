/** The string operations of Python that the program relies on, written out with
    Python's own edge cases: `find`, slicing with negative bounds, `split()` on
    whitespace, `split(sep)`, `replace` and `os.path.join` (POSIX). */
module Text {

  /** Characters for which Python's `str.isspace()` holds: what `str.split()` and the
      regular-expression classes `\s`/`\S` treat as whitespace in a `str`. */
  const StrSpace: set<char> := {
    ' ', '\t', '\n', '\r', '\U{0B}', '\U{0C}', '\U{1C}', '\U{1D}', '\U{1E}', '\U{1F}',
    '\U{85}', '\U{A0}', '\U{1680}', '\U{2000}', '\U{2001}', '\U{2002}', '\U{2003}',
    '\U{2004}', '\U{2005}', '\U{2006}', '\U{2007}', '\U{2008}', '\U{2009}', '\U{200A}',
    '\U{2028}', '\U{2029}', '\U{202F}', '\U{205F}', '\U{3000}'
  }

  /** Bytes for which Python's `bytes.isspace()` holds: what `bytes.split()` splits on. */
  const ByteSpace: set<char> := {' ', '\t', '\n', '\r', '\U{0B}', '\U{0C}'}

  /** No character of `s` belongs to `cs`. */
  predicate NoneIn(s: string, cs: set<char>) {
    forall i :: 0 <= i < |s| ==> s[i] !in cs
  }

  // ---------------------------------------------------------------------------
  // find and slicing
  // ---------------------------------------------------------------------------

  /** Python's `s.find(c)` for one character: the first position of `c`, or -1. */
  function Find(s: string, c: char): (i: int)
    ensures -1 <= i < |s|
    ensures i == -1 <==> c !in s
    ensures 0 <= i ==> s[i] == c && c !in s[..i]
    decreases |s|
  {
    if |s| == 0 then -1
    else if s[0] == c then 0
    else
      var k := Find(s[1..], c);
      assert s == [s[0]] + s[1..];
      if k == -1 then -1
      else
        assert s[..k + 1] == [s[0]] + s[1..][..k];
        k + 1
  }

  /** How Python normalises one bound of `s[start:stop]` on a sequence of length `n`:
      a negative bound counts from the end, then the bound is clamped to [0, n]. */
  function SliceBound(i: int, n: nat): (b: nat)
    ensures b <= n
    ensures 0 <= i <= n ==> b == i
    ensures i < 0 && 0 <= i + n ==> b == i + n
  {
    if i < 0 then (if i + n < 0 then 0 else i + n)
    else if i > n then n
    else i
  }

  /** Python's `s[start:stop]`: empty unless the normalised start lies before the
      normalised stop. */
  function PySlice<T>(s: seq<T>, start: int, stop: int): (r: seq<T>)
    ensures |r| <= |s|
    ensures 0 <= start <= stop <= |s| ==> r == s[start..stop]
    ensures 0 <= stop <= start ==> r == []
  {
    var a := SliceBound(start, |s|);
    var b := SliceBound(stop, |s|);
    if a < b then s[a..b] else []
  }

  /** Slicing with bounds outside `[0, |s|]`: a negative bound counts from the end,
      so `s[-1:]` is the last element and `s[1:-1]` drops the first and the last,
      and a bound beyond either end is clamped to it. */
  lemma PySliceFromEnd<T>(s: seq<T>, start: int, stop: int)
    ensures var r := PySlice(s, start, stop);
      && (-|s| <= start < 0 && start + |s| <= stop <= |s| ==> r == s[start + |s|..stop])
      && (-|s| <= start < 0 && 0 <= stop < start + |s| ==> r == [])
      && (0 <= start && -|s| <= stop < 0 && start <= stop + |s| ==> r == s[start..stop + |s|])
      && (-|s| <= start <= stop < 0 ==> r == s[start + |s|..stop + |s|])
      && (start < -|s| && 0 <= stop <= |s| ==> r == s[..stop])
      && (0 <= start <= |s| < stop ==> r == s[start..])
  {
  }

  // ---------------------------------------------------------------------------
  // split() on whitespace
  // ---------------------------------------------------------------------------

  /** The longest prefix of `s` holding no character of `ws`. */
  function Word(s: string, ws: set<char>): (w: string)
    ensures |w| <= |s| && w == s[..|w|]
    ensures NoneIn(w, ws)
    ensures |w| == |s| || s[|w|] in ws
    decreases |s|
  {
    if |s| == 0 || s[0] in ws then ""
    else
      var rest := Word(s[1..], ws);
      assert s[..1 + |rest|] == [s[0]] + s[1..][..|rest|];
      [s[0]] + rest
  }

  /** Python's argument-less `split()`: the maximal runs of non-whitespace, in order;
      leading, trailing and repeated whitespace produce no empty pieces. */
  function Split(s: string, ws: set<char>): (r: seq<string>)
    ensures Words(r, ws)
    ensures NoneIn(s, ws) && |s| > 0 ==> r == [s]
    decreases |s|
  {
    if |s| == 0 then []
    else if s[0] in ws then Split(s[1..], ws)
    else
      var w := Word(s, ws);
      assert NoneIn(s, ws) ==> w == s && s[|w|..] == "";
      [w] + Split(s[|w|..], ws)
  }

  /** `split()` drops only whitespace: the pieces written one after another are the
      input with its whitespace taken out. */
  lemma {:induction false} SplitKeepsText(s: string, ws: set<char>)
    ensures Concat(Split(s, ws)) == Without(s, ws)
    decreases |s|
  {
    if |s| > 0 {
      if s[0] in ws {
        SplitKeepsText(s[1..], ws);
      } else {
        var w := Word(s, ws);
        var rest := Split(s[|w|..], ws);
        SplitKeepsText(s[|w|..], ws);
        assert s == w + s[|w|..];
        WithoutAppend(w, s[|w|..], ws);
        WithoutNone(w, ws);
        assert ([w] + rest)[1..] == rest;
      }
    }
  }

  /** Non-empty pieces free of the characters `ws`. */
  predicate Words(words: seq<string>, ws: set<char>) {
    forall i :: 0 <= i < |words| ==> |words[i]| > 0 && NoneIn(words[i], ws)
  }

  /** Every character of `s` belongs to `cs`. */
  predicate AllIn(s: string, cs: set<char>) {
    forall i :: 0 <= i < |s| ==> s[i] in cs
  }

  /** The pieces written one after the other. */
  function Concat(parts: seq<string>): string
    decreases |parts|
  {
    if |parts| == 0 then "" else parts[0] + Concat(parts[1..])
  }

  /** `s` with every character of `ws` taken out. */
  function Without(s: string, ws: set<char>): (r: string)
    ensures NoneIn(r, ws)
    decreases |s|
  {
    if |s| == 0 then ""
    else
      var rest := Without(s[1..], ws);
      if s[0] in ws then rest
      else
        assert forall i :: 1 <= i <= |rest| ==> ([s[0]] + rest)[i] == rest[i - 1];
        [s[0]] + rest
  }

  lemma {:induction false} WithoutAppend(a: string, b: string, ws: set<char>)
    ensures Without(a + b, ws) == Without(a, ws) + Without(b, ws)
    decreases |a|
  {
    if |a| > 0 {
      assert (a + b)[0] == a[0] && (a + b)[1..] == a[1..] + b;
      WithoutAppend(a[1..], b, ws);
    } else {
      assert a + b == b;
    }
  }

  lemma {:induction false} WithoutNone(w: string, ws: set<char>)
    requires NoneIn(w, ws)
    ensures Without(w, ws) == w
    decreases |w|
  {
    if |w| > 0 {
      WithoutNone(w[1..], ws);
      assert w == [w[0]] + w[1..];
    }
  }

  /** The text made of the runs `gaps` around the `words`:
      `gaps[0] + words[0] + gaps[1] + ... + words[n - 1] + gaps[n]`. */
  function Interleave(gaps: seq<string>, words: seq<string>): string
    requires |gaps| == |words| + 1
    decreases |words|
  {
    if |words| == 0 then gaps[0] else gaps[0] + words[0] + Interleave(gaps[1..], words[1..])
  }

  /** Runs that can surround words: made of whitespace only, and non-empty wherever
      they stand between two words. */
  predicate Separators(gaps: seq<string>, ws: set<char>) {
    && (forall i :: 0 <= i < |gaps| ==> AllIn(gaps[i], ws))
    && (forall i :: 0 < i < |gaps| - 1 ==> |gaps[i]| > 0)
  }

  /** The whitespace that `Split` drops: put back around the pieces, the runs give
      the input again, so no text is lost and neighbouring pieces are separated by
      whitespace in `s`. */
  function SplitGaps(s: string, ws: set<char>): (g: seq<string>)
    ensures |g| == |Split(s, ws)| + 1
    ensures Separators(g, ws)
    ensures |g[0]| > 0 <==> |s| > 0 && s[0] in ws
    ensures Interleave(g, Split(s, ws)) == s
    decreases |s|
  {
    if |s| == 0 then [""]
    else if s[0] in ws then
      var g := SplitGaps(s[1..], ws);
      InterleavePrefix([s[0]], g, Split(s[1..], ws));
      SeparatorsPrefix([s[0]], g, ws);
      assert s == [s[0]] + s[1..];
      [[s[0]] + g[0]] + g[1..]
    else
      var w := Word(s, ws);
      var rest := s[|w|..];
      var g := SplitGaps(rest, ws);
      assert |rest| == 0 ==> Split(rest, ws) == [];
      InterleaveWord(w, g, Split(rest, ws));
      SeparatorsEmpty(g, ws);
      assert s == w + rest;
      [""] + g
  }

  lemma {:induction false} InterleavePrefix(x: string, g: seq<string>, words: seq<string>)
    requires |g| == |words| + 1
    ensures Interleave([x + g[0]] + g[1..], words) == x + Interleave(g, words)
  {
    var h := [x + g[0]] + g[1..];
    assert h[1..] == g[1..];
  }

  lemma {:induction false} InterleaveWord(w: string, g: seq<string>, words: seq<string>)
    requires |g| == |words| + 1
    ensures Interleave([""] + g, [w] + words) == w + Interleave(g, words)
  {
    var h := [""] + g;
    var v := [w] + words;
    assert h[0] == "" && v[0] == w && h[1..] == g && v[1..] == words;
    assert Interleave(h, v) == "" + w + Interleave(g, words);
    assert "" + w == w;
  }

  lemma SeparatorsPrefix(x: string, g: seq<string>, ws: set<char>)
    requires |g| > 0 && AllIn(x, ws) && Separators(g, ws)
    ensures Separators([x + g[0]] + g[1..], ws)
  {
    var h := [x + g[0]] + g[1..];
    assert forall i :: 1 <= i < |h| ==> h[i] == g[i];
    assert AllIn(h[0], ws) by {
      assert forall i :: |x| <= i < |h[0]| ==> h[0][i] == g[0][i - |x|];
    }
  }

  lemma SeparatorsEmpty(g: seq<string>, ws: set<char>)
    requires |g| > 0 && Separators(g, ws)
    requires |g| > 1 ==> |g[0]| > 0
    ensures Separators([""] + g, ws)
  {
    var h := [""] + g;
    assert forall i :: 1 <= i < |h| ==> h[i] == g[i - 1];
  }

  /** Leading whitespace does not change the pieces. */
  lemma {:induction false} SplitSkipsSpace(g: string, t: string, ws: set<char>)
    requires AllIn(g, ws)
    ensures Split(g + t, ws) == Split(t, ws)
    decreases |g|
  {
    if |g| > 0 {
      assert (g + t)[0] == g[0] && (g + t)[1..] == g[1..] + t;
      SplitSkipsSpace(g[1..], t, ws);
    } else {
      assert g + t == t;
    }
  }

  /** The converse of `SplitGaps`: words laid out between whitespace runs split back
      into exactly those words. */
  lemma {:induction false} SplitOfGaps(gaps: seq<string>, words: seq<string>, ws: set<char>)
    requires |gaps| == |words| + 1 && Separators(gaps, ws) && Words(words, ws)
    ensures Split(Interleave(gaps, words), ws) == words
    decreases |words|
  {
    if |words| == 0 {
      SplitSkipsSpace(gaps[0], "", ws);
      assert gaps[0] + "" == gaps[0];
    } else {
      var rest := Interleave(gaps[1..], words[1..]);
      var t := words[0] + rest;
      assert Interleave(gaps, words) == gaps[0] + t;
      SplitSkipsSpace(gaps[0], t, ws);
      GapsTail(gaps, words, ws);
      SplitWordThen(words[0], rest, ws);
      SplitOfGaps(gaps[1..], words[1..], ws);
      assert words == [words[0]] + words[1..];
    }
  }

  /** What follows the first word of a layout is a layout of the remaining words
      that is empty or starts with whitespace. */
  lemma GapsTail(gaps: seq<string>, words: seq<string>, ws: set<char>)
    requires |gaps| == |words| + 1 && |words| > 0 && Separators(gaps, ws)
    ensures Separators(gaps[1..], ws)
    ensures var rest := Interleave(gaps[1..], words[1..]);
      |rest| == 0 || rest[0] in ws
  {
    assert forall i :: 0 <= i < |gaps[1..]| ==> gaps[1..][i] == gaps[i + 1];
    var g := gaps[1..];
    assert |g[0]| > 0 ==> Interleave(g, words[1..])[0] == g[0][0];
  }

  /** A word followed by nothing or by whitespace is split off as the first piece. */
  lemma SplitWordThen(w: string, rest: string, ws: set<char>)
    requires |w| > 0 && NoneIn(w, ws)
    requires |rest| == 0 || rest[0] in ws
    ensures Split(w + rest, ws) == [w] + Split(rest, ws)
  {
    WordOfPrefix(w, rest, ws);
    assert (w + rest)[0] == w[0];
    assert (w + rest)[|w|..] == rest;
  }

  /** `sep.join(parts)`. */
  function JoinWith(parts: seq<string>, sep: string): string
    decreases |parts|
  {
    if |parts| == 0 then ""
    else if |parts| == 1 then parts[0]
    else parts[0] + sep + JoinWith(parts[1..], sep)
  }

  /** A word followed by whitespace (or by nothing) is exactly what `Word` takes. */
  lemma {:induction false} WordOfPrefix(w: string, t: string, ws: set<char>)
    requires NoneIn(w, ws)
    requires |t| == 0 || t[0] in ws
    ensures Word(w + t, ws) == w
    decreases |w|
  {
    if |w| > 0 {
      assert (w + t)[1..] == w[1..] + t;
      WordOfPrefix(w[1..], t, ws);
    }
  }

  /** Splitting words that were joined with single spaces gives the words back. */
  lemma {:induction false} SplitJoin(words: seq<string>, ws: set<char>)
    requires ' ' in ws
    requires Words(words, ws)
    ensures Split(JoinWith(words, " "), ws) == words
    decreases |words|
  {
    if |words| == 1 {
      WordOfPrefix(words[0], "", ws);
      assert words[0] + "" == words[0];
    } else if |words| > 1 {
      var w := words[0];
      var rest := JoinWith(words[1..], " ");
      var s := w + " " + rest;
      assert s == w + (" " + rest);
      WordOfPrefix(w, " " + rest, ws);
      assert s[|w|..] == " " + rest;
      assert (" " + rest)[1..] == rest;
      SplitJoin(words[1..], ws);
      assert words == [w] + words[1..];
    }
  }

  /** Joining pieces that avoid `cs` with a separator that avoids `cs` avoids `cs`. */
  lemma {:induction false} JoinNoneIn(parts: seq<string>, sep: string, cs: set<char>)
    requires NoneIn(sep, cs)
    requires forall i :: 0 <= i < |parts| ==> NoneIn(parts[i], cs)
    ensures NoneIn(JoinWith(parts, sep), cs)
    decreases |parts|
  {
    if |parts| > 1 {
      JoinNoneIn(parts[1..], sep, cs);
      var rest := JoinWith(parts[1..], sep);
      var s := parts[0] + sep + rest;
      forall i | 0 <= i < |s| ensures s[i] !in cs {
        if i < |parts[0]| {
          assert s[i] == parts[0][i];
        } else if i < |parts[0]| + |sep| {
          assert s[i] == sep[i - |parts[0]|];
        } else {
          assert s[i] == rest[i - |parts[0]| - |sep|];
        }
      }
    }
  }

  // ---------------------------------------------------------------------------
  // split(sep) and replace
  // ---------------------------------------------------------------------------

  /** `pat` occurs in `s` at position `i`. */
  predicate OccursAt(s: string, pat: string, i: int) {
    0 <= i && i + |pat| <= |s| && s[i..i + |pat|] == pat
  }

  /** `pat in s` for strings. */
  predicate Contains(s: string, pat: string) {
    exists i :: 0 <= i <= |s| && OccursAt(s, pat, i)
  }

  lemma OccursAfterFirst(s: string, pat: string)
    requires |s| > 0
    ensures forall j :: 1 <= j ==> (OccursAt(s, pat, j) <==> OccursAt(s[1..], pat, j - 1))
  {
    forall j | 1 <= j
      ensures OccursAt(s, pat, j) <==> OccursAt(s[1..], pat, j - 1)
    {
      if j + |pat| <= |s| {
        assert s[1..][j - 1..j - 1 + |pat|] == s[j..j + |pat|];
      }
    }
  }

  lemma OccursInPrefix(s: string, pat: string, n: nat, j: int)
    requires n <= |s|
    requires OccursAt(s[..n], pat, j)
    ensures OccursAt(s, pat, j) && j + |pat| <= n
  {
    assert s[..n][j..j + |pat|] == s[j..j + |pat|];
  }

  /** Python's `s.find(pat)` for a non-empty pattern. */
  function IndexOf(s: string, pat: string): (i: int)
    requires |pat| > 0
    ensures -1 <= i
    ensures i == -1 <==> !Contains(s, pat)
    ensures 0 <= i ==> OccursAt(s, pat, i) && forall j :: 0 <= j < i ==> !OccursAt(s, pat, j)
    decreases |s|
  {
    if |s| < |pat| then -1
    else if s[..|pat|] == pat then
      assert OccursAt(s, pat, 0);
      0
    else
      assert !OccursAt(s, pat, 0);
      var k := IndexOf(s[1..], pat);
      OccursAfterFirst(s, pat);
      if k == -1 then
        -1
      else
        assert OccursAt(s, pat, k + 1);
        k + 1
  }

  /** Python's `s.split(sep)` for a non-empty separator: the text between the
      successive leftmost non-overlapping occurrences of `sep`. */
  function SplitOn(s: string, sep: string): (r: seq<string>)
    requires |sep| > 0
    ensures |r| >= 1
    ensures JoinWith(r, sep) == s
    ensures forall i :: 0 <= i < |r| ==> !Contains(r[i], sep)
    decreases |s|
  {
    var i := IndexOf(s, sep);
    if i < 0 then [s]
    else
      var head := s[..i];
      var rest := s[i + |sep|..];
      var tail := SplitOn(rest, sep);
      HeadAvoids(s, sep, i);
      JoinCons(head, tail, sep);
      assert s == head + sep + rest;
      [head] + tail
  }

  /** `SplitOn` cuts at the leftmost occurrence first: the result has one part
      exactly when `sep` is absent, and otherwise its first part runs up to the
      leftmost occurrence and the rest split what follows it. */
  lemma SplitOnLeftmost(s: string, sep: string)
    requires |sep| > 0
    ensures |SplitOn(s, sep)| == 1 <==> !Contains(s, sep)
    ensures var r := SplitOn(s, sep);
      |r| > 1 ==> IndexOf(s, sep) == |r[0]| && r[1..] == SplitOn(s[|r[0]| + |sep|..], sep)
  {
    var i := IndexOf(s, sep);
    if i >= 0 {
      var tail := SplitOn(s[i + |sep|..], sep);
      assert SplitOn(s, sep) == [s[..i]] + tail;
      assert ([s[..i]] + tail)[1..] == tail;
    }
  }

  lemma HeadAvoids(s: string, sep: string, i: nat)
    requires |sep| > 0 && i <= |s|
    requires forall j :: 0 <= j < i ==> !OccursAt(s, sep, j)
    ensures !Contains(s[..i], sep)
  {
    forall j | OccursAt(s[..i], sep, j) ensures false {
      OccursInPrefix(s, sep, i, j);
    }
  }

  lemma JoinCons(head: string, tail: seq<string>, sep: string)
    requires |tail| >= 1
    ensures JoinWith([head] + tail, sep) == head + sep + JoinWith(tail, sep)
  {
    assert ([head] + tail)[1..] == tail;
  }

  /** A name without the separator splits into itself. */
  lemma SplitOnAbsent(s: string, sep: string)
    requires |sep| > 0 && !Contains(s, sep)
    ensures SplitOn(s, sep) == [s]
  {
  }

  /** Splitting on a one-character separator at its first occurrence. */
  lemma SplitOnFirst(a: string, c: char, b: string)
    requires c !in a
    ensures SplitOn(a + [c] + b, [c]) == [a] + SplitOn(b, [c])
  {
    var s := a + [c] + b;
    assert OccursAt(s, [c], |a|);
    forall j | 0 <= j < |a| ensures !OccursAt(s, [c], j) {
      assert s[j] == a[j];
    }
    assert IndexOf(s, [c]) == |a|;
    assert s[..|a|] == a && s[|a| + 1..] == b;
  }

  /** Without the character, the one-character separator does not occur. */
  lemma AbsentChar(s: string, c: char)
    requires c !in s
    ensures !Contains(s, [c])
  {
    forall i | 0 <= i < |s| ensures !OccursAt(s, [c], i) {
      assert s[i] != c;
    }
  }

  /** The one-character strings of `s`, in order. */
  function Chars(s: string): (r: seq<string>)
    ensures |r| == |s|
    ensures forall i :: 0 <= i < |s| ==> r[i] == [s[i]]
  {
    seq(|s|, i requires 0 <= i < |s| => [s[i]])
  }

  /** `s` with every `c` turned into `d`, position by position. */
  function Substitute(s: string, c: char, d: char): (r: string)
    ensures |r| == |s|
  {
    seq(|s|, i requires 0 <= i < |s| => if s[i] == c then d else s[i])
  }

  /** Python's `s.replace(target, replacement)`. A target that does not occur leaves
      `s` as it is; a one-character target is replaced position by position; with an
      empty target Python inserts the replacement before every character and at the
      end. */
  function Replace(s: string, target: string, replacement: string): (r: string)
    ensures |target| > 0 && !Contains(s, target) ==> r == s
    ensures |target| == 1 && |replacement| == 1 ==> r == Substitute(s, target[0], replacement[0])
    ensures |target| == 0 && |replacement| == 1 ==>
      && |r| == 2 * |s| + 1 && r[2 * |s|] == replacement[0]
      && forall i :: 0 <= i < |s| ==> r[2 * i] == replacement[0] && r[2 * i + 1] == s[i]
  {
    if |target| == 0 then
      var r := JoinWith([""] + Chars(s) + [""], replacement);
      if |replacement| == 1 then
        assert replacement == [replacement[0]];
        InsertedEverywhere(s, replacement[0]);
        r
      else
        r
    else
      ReplaceSplit(s, target, replacement);
      JoinWith(SplitOn(s, target), replacement)
  }

  lemma ReplaceSplit(s: string, target: string, replacement: string)
    requires |target| > 0
    ensures var r := JoinWith(SplitOn(s, target), replacement);
      && (!Contains(s, target) ==> r == s)
      && (|target| == 1 && |replacement| == 1 ==> r == Substitute(s, target[0], replacement[0]))
  {
    if !Contains(s, target) {
      SplitOnAbsent(s, target);
    }
    if |target| == 1 && |replacement| == 1 {
      assert target == [target[0]] && replacement == [replacement[0]];
      SubstituteChar(s, target[0], replacement[0]);
    }
  }

  /** Replacing a character by splitting on it and joining with another character
      is the position-by-position substitution. */
  lemma {:induction false} SubstituteChar(s: string, c: char, d: char)
    ensures JoinWith(SplitOn(s, [c]), [d]) == Substitute(s, c, d)
    decreases |s|
  {
    if c !in s {
      AbsentChar(s, c);
      SplitOnAbsent(s, [c]);
      assert Substitute(s, c, d) == s;
    } else {
      var i := Find(s, c);
      var a := s[..i];
      var b := s[i + 1..];
      assert s == a + [c] + b;
      SplitOnFirst(a, c, b);
      JoinCons(a, SplitOn(b, [c]), [d]);
      SubstituteChar(b, c, d);
      SubstituteSplits(a, c, d, b);
    }
  }

  lemma SubstituteSplits(a: string, c: char, d: char, b: string)
    requires c !in a
    ensures Substitute(a + [c] + b, c, d) == a + [d] + Substitute(b, c, d)
  {
    var s := a + [c] + b;
    var r := a + [d] + Substitute(b, c, d);
    forall k | 0 <= k < |s| ensures Substitute(s, c, d)[k] == r[k] {
      if k < |a| {
        assert s[k] == a[k] && r[k] == a[k];
      } else if k > |a| {
        assert s[k] == b[k - |a| - 1] && r[k] == Substitute(b, c, d)[k - |a| - 1];
      }
    }
  }

  /** Inserting a character `d` before every character of `s` and at the end. */
  lemma InsertedEverywhere(s: string, d: char)
    ensures var r := JoinWith([""] + Chars(s) + [""], [d]);
      && |r| == 2 * |s| + 1 && r[2 * |s|] == d
      && forall i :: 0 <= i < |s| ==> r[2 * i] == d && r[2 * i + 1] == s[i]
  {
    var tail := Chars(s) + [""];
    assert [""] + Chars(s) + [""] == [""] + tail;
    JoinCons("", tail, [d]);
    CharsThenSep(s, d);
    var r := JoinWith([""] + tail, [d]);
    var t := JoinWith(tail, [d]);
    assert r == [d] + t;
    forall i | 0 <= i < |s| ensures r[2 * i] == d && r[2 * i + 1] == s[i] {
      if i > 0 {
        assert r[2 * i] == t[2 * (i - 1) + 1];
      }
      assert r[2 * i + 1] == t[2 * i];
    }
    if |s| > 0 {
      assert r[2 * |s|] == t[2 * (|s| - 1) + 1];
    }
  }

  /** `s[0] + d + s[1] + d + ...`: each character of `s` followed by `d`. */
  lemma {:induction false} CharsThenSep(s: string, d: char)
    ensures var t := JoinWith(Chars(s) + [""], [d]);
      |t| == 2 * |s| && forall i :: 0 <= i < |s| ==> t[2 * i] == s[i] && t[2 * i + 1] == d
    decreases |s|
  {
    if |s| == 0 {
      assert Chars(s) + [""] == [""];
    } else {
      var rest := Chars(s[1..]) + [""];
      assert Chars(s) + [""] == [[s[0]]] + rest;
      JoinCons([s[0]], rest, [d]);
      CharsThenSep(s[1..], d);
      var t := JoinWith(rest, [d]);
      assert forall i :: 1 <= i < |s| ==> s[i] == s[1..][i - 1];
    }
  }

  lemma {:induction false} JoinWithAvoids(parts: seq<string>, sep: string, c: char)
    requires c !in sep
    requires forall i :: 0 <= i < |parts| ==> c !in parts[i]
    ensures c !in JoinWith(parts, sep)
    decreases |parts|
  {
    if |parts| > 1 {
      JoinWithAvoids(parts[1..], sep, c);
    }
  }

  /** Replacing a one-character target by text that lacks it leaves no trace of it. */
  lemma ReplaceRemovesChar(s: string, target: string, replacement: string)
    requires |target| == 1 && target[0] !in replacement
    ensures target[0] !in Replace(s, target, replacement)
  {
    var parts := SplitOn(s, target);
    forall i | 0 <= i < |parts| ensures target[0] !in parts[i] {
      if target[0] in parts[i] {
        var j :| 0 <= j < |parts[i]| && parts[i][j] == target[0];
        assert OccursAt(parts[i], target, j);
      }
    }
    JoinWithAvoids(parts, replacement, target[0]);
  }

  // ---------------------------------------------------------------------------
  // os.path.join
  // ---------------------------------------------------------------------------

  /** A path that starts with `/`. */
  predicate Absolute(p: string) {
    |p| > 0 && p[0] == '/'
  }

  /** POSIX `os.path.join(a, b)`: an absolute `b` replaces `a`; otherwise `b` is
      appended after a single `/` unless `a` is empty or already ends in one. */
  function PathJoin(a: string, b: string): (r: string)
    ensures |b| <= |r| && r[|r| - |b|..] == b
    ensures !Absolute(b) ==> a <= r
    ensures Absolute(b) ==> r == b
    ensures !Absolute(b) && (|a| == 0 || a[|a| - 1] == '/') ==> r == a + b
    ensures !Absolute(b) && |a| > 0 && a[|a| - 1] != '/' ==> r == a + "/" + b
  {
    if |b| > 0 && b[0] == '/' then b
    else if |a| == 0 || a[|a| - 1] == '/' then a + b
    else a + "/" + b
  }

  /** Path components that join with exactly one `/` between them: non-empty, and
      neither starting nor ending with `/`. */
  predicate Components(parts: seq<string>) {
    forall i :: 0 <= i < |parts| ==>
      |parts[i]| > 0 && parts[i][0] != '/' && parts[i][|parts[i]| - 1] != '/'
  }

  /** POSIX `os.path.join(a, *parts)`: with no parts the path is `a`; components
      joined onto a directory that does not end in `/` are each preceded by one `/`. */
  function PathJoinAll(a: string, parts: seq<string>): (r: string)
    ensures |parts| == 0 ==> r == a
    ensures |parts| > 0 && Components(parts) && |a| > 0 && a[|a| - 1] != '/' ==>
      r == a + "/" + JoinWith(parts, "/")
    decreases |parts|
  {
    if |parts| == 0 then a
    else
      var next := PathJoin(a, parts[0]);
      assert |parts| > 0 && Components(parts) && |a| > 0 && a[|a| - 1] != '/' ==>
        next == a + "/" + parts[0] && next[|next| - 1] != '/' && Components(parts[1..]);
      PathJoinAll(next, parts[1..])
  }
}
