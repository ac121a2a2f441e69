/** Parsing one line of a LIST reply (section 7.2.2 of RFC 3501) into a folder
    descriptor, as all three copies of the folder-info class do it: the pattern
    `\((?P<flags>[\S ]*)\) (?P<delim>[\S]+) (?P<name>.+)` searched for in the
    line, the flags split on whitespace, and one pair of double quotes stripped
    from the delimiter and from the name. */
module FolderInfo {
  import opened Base
  import opened Text

  // ---------------------------------------------------------------------------
  // The pattern
  // ---------------------------------------------------------------------------

  /** `[\S ]`: any character that is not whitespace, or a space. */
  const FlagStop: set<char> := StrSpace - {' '}

  /** `.`: any character but a line feed. */
  const NameStop: set<char> := {'\n'}

  /** A match of the pattern by position: `(` at `st`, the flags text strictly
      between `st` and `e`, `) ` at `e`, the delimiter from `e + 2` up to the space
      at `de`, and the name after that space up to `ne`. */
  datatype Span = Span(st: nat, e: nat, de: nat, ne: nat)

  /** The tail of the pattern, `\) (?P<delim>[\S]+) (?P<name>.+)`, matches from `e`
      with the delimiter ending at `de` and the name ending at `ne`. */
  predicate TailFits(line: string, e: int, de: int, ne: int) {
    && 0 <= e && e + 2 < de && de + 1 < ne <= |line|
    && line[e] == ')' && line[e + 1] == ' '
    && (forall i :: e + 2 <= i < de ==> line[i] !in StrSpace)
    && line[de] == ' '
    && (forall i :: de < i < ne ==> line[i] !in NameStop)
  }

  /** The whole pattern matches at these positions. */
  predicate Fits(line: string, st: int, e: int, de: int, ne: int) {
    && TailFits(line, e, de, ne)
    && 0 <= st < e
    && line[st] == '('
    && (forall i :: st < i < e ==> line[i] !in FlagStop)
  }

  /** The match `re.search` reports precedes every other match: it starts first, and
      among matches starting there its groups are the longest in pattern order, as
      greedy repetition with backtracking chooses them. */
  ghost predicate Preferred(line: string, m: Span) {
    forall st, e, de, ne :: Fits(line, st, e, de, ne) ==>
      m.st < st || (m.st == st && (e < m.e || (e == m.e && de == m.de && ne <= m.ne)))
  }

  /** The end of the run of characters outside `stop` that begins at `i`. */
  function RunEnd(line: string, i: nat, stop: set<char>): (j: nat)
    requires i <= |line|
    ensures i <= j <= |line|
    ensures forall k :: i <= k < j ==> line[k] !in stop
    ensures j == |line| || line[j] in stop
    decreases |line| - i
  {
    if i == |line| || line[i] in stop then i else RunEnd(line, i + 1, stop)
  }

  /** The tail of the pattern at `e`, if it matches there: the delimiter is the whole
      run of non-whitespace after `) `, and the name the whole run of non-line-feed
      characters after the following space. */
  function MatchTail(line: string, e: nat): (r: Option<(nat, nat)>)
    ensures r.Some? ==> e + 2 < r.value.0 && r.value.0 + 1 < r.value.1 <= |line| && line[e] == ')'
  {
    if e + 2 >= |line| || line[e] != ')' || line[e + 1] != ' ' then None
    else
      var de := RunEnd(line, e + 2, StrSpace);
      if de == e + 2 || de >= |line| || line[de] != ' ' then None
      else
        var ne := RunEnd(line, de + 1, NameStop);
        if ne == de + 1 then None else Some((de, ne))
  }

  /** The tail reported at `e` matches, and every match of the tail at `e` has the
      same delimiter and a name no longer than the reported one; when none is
      reported the tail does not match at `e`. */
  lemma MatchTailSound(line: string, e: nat)
    ensures var r := MatchTail(line, e);
      && (r.Some? ==> TailFits(line, e, r.value.0, r.value.1))
      && (r.Some? ==> forall de, ne :: TailFits(line, e, de, ne) ==> de == r.value.0 && ne <= r.value.1)
      && (r.None? ==> forall de, ne :: !TailFits(line, e, de, ne))
  {
    if e + 2 < |line| && line[e] == ')' && line[e + 1] == ' ' {
      TailForced(line, e);
    }
  }

  /** Whatever matches the tail at `e` has the delimiter run through to its end and
      stops the name no later than the end of its run. */
  lemma TailForced(line: string, e: nat)
    requires e + 2 <= |line|
    ensures forall de, ne :: TailFits(line, e, de, ne) ==>
      de == RunEnd(line, e + 2, StrSpace) && ne <= RunEnd(line, de + 1, NameStop)
  {
  }

  /** The match starting at `st` whose `)` lies before `hi`, trying the closing
      position from the right as backtracking does. */
  function BestClose(line: string, st: nat, hi: nat): (r: Option<Span>)
    requires st < hi <= |line|
    ensures r.Some? ==> var m := r.value;
      m.st == st < m.e < hi && m.e + 2 < m.de && m.de + 1 < m.ne <= |line| && line[m.e] == ')'
    decreases hi
  {
    if hi == st + 1 then None
    else
      var e := hi - 1;
      match MatchTail(line, e)
      case Some((de, ne)) => Some(Span(st, e, de, ne))
      case None => BestClose(line, st, e)
  }

  /** When the flags run from `st` reaches `hi`, the match `BestClose` reports is
      the one with the rightmost `)` before `hi` and then the longest groups. */
  lemma {:induction false} BestCloseSound(line: string, st: nat, hi: nat)
    requires st < hi <= |line| && line[st] == '('
    requires forall i :: st < i < hi ==> line[i] !in FlagStop
    ensures var r := BestClose(line, st, hi);
      && (r.Some? ==> var m := r.value;
           && Fits(line, st, m.e, m.de, m.ne)
           && forall e, de, ne :: e < hi && Fits(line, st, e, de, ne) ==>
                e < m.e || (e == m.e && de == m.de && ne <= m.ne))
      && (r.None? ==> forall e, de, ne :: e < hi ==> !Fits(line, st, e, de, ne))
    decreases hi
  {
    if hi > st + 1 {
      MatchTailSound(line, hi - 1);
      if MatchTail(line, hi - 1).None? {
        BestCloseSound(line, st, hi - 1);
      }
    }
  }

  /** A match starting at `st` closes inside the run of flag characters after `(`,
      since `)` is itself a flag character. */
  lemma CloseWithinRun(line: string, st: nat)
    requires st < |line|
    ensures forall e, de, ne :: Fits(line, st, e, de, ne) ==> e < RunEnd(line, st + 1, FlagStop)
  {
    assert ')' !in FlagStop;
  }

  /** The preferred match starting at `st`, if any. */
  function MatchAt(line: string, st: nat): (r: Option<Span>)
    requires st < |line|
    ensures r.Some? ==> var m := r.value;
      m.st == st < m.e && m.e + 2 < m.de && m.de + 1 < m.ne <= |line| && line[st] == '(' && line[m.e] == ')'
  {
    if line[st] != '(' then None
    else BestClose(line, st, RunEnd(line, st + 1, FlagStop))
  }

  /** The match reported at `st` is a match, and precedes every other match starting
      at `st`; when none is reported no match starts at `st`. */
  lemma MatchAtSound(line: string, st: nat)
    requires st < |line|
    ensures var r := MatchAt(line, st);
      && (r.Some? ==> var m := r.value;
           && Fits(line, st, m.e, m.de, m.ne)
           && forall e, de, ne :: Fits(line, st, e, de, ne) ==>
                e < m.e || (e == m.e && de == m.de && ne <= m.ne))
      && (r.None? ==> forall e, de, ne :: !Fits(line, st, e, de, ne))
  {
    if line[st] == '(' {
      CloseWithinRun(line, st);
      BestCloseSound(line, st, RunEnd(line, st + 1, FlagStop));
    }
  }

  /** `re.search` from position `st` on: the first start position with a match wins. */
  function SearchFrom(line: string, st: nat): (r: Option<Span>)
    requires st <= |line|
    ensures r.Some? ==> var m := r.value;
      st <= m.st < m.e && m.e + 2 < m.de && m.de + 1 < m.ne <= |line| && line[m.st] == '(' && line[m.e] == ')'
    decreases |line| - st
  {
    if st == |line| then None
    else
      match MatchAt(line, st)
      case Some(m) => Some(m)
      case None => SearchFrom(line, st + 1)
  }

  /** The search from `st` reports a match starting at or after `st` that precedes
      every other such match, or none when there is none. */
  lemma {:induction false} SearchFromSound(line: string, st: nat)
    requires st <= |line|
    ensures var r := SearchFrom(line, st);
      && (r.Some? ==> var m := r.value;
           && Fits(line, m.st, m.e, m.de, m.ne)
           && forall st', e, de, ne :: st <= st' && Fits(line, st', e, de, ne) ==>
                m.st < st' || (m.st == st' && (e < m.e || (e == m.e && de == m.de && ne <= m.ne))))
      && (r.None? ==> forall st', e, de, ne :: st <= st' ==> !Fits(line, st', e, de, ne))
    decreases |line| - st
  {
    if st < |line| {
      MatchAtSound(line, st);
      if MatchAt(line, st).None? {
        SearchFromSound(line, st + 1);
      }
    }
  }

  /** `re.search(pattern, line)`: the match it reports, or None. */
  function Search(line: string): (r: Option<Span>)
    ensures r.Some? ==> var m := r.value;
      0 <= m.st < m.e && m.e + 2 < m.de && m.de + 1 < m.ne <= |line| && line[m.st] == '(' && line[m.e] == ')'
  {
    SearchFrom(line, 0)
  }

  /** The search reports a match of the pattern exactly when the line holds one. */
  lemma SearchSound(line: string)
    ensures Search(line).Some? ==> var m := Search(line).value; Fits(line, m.st, m.e, m.de, m.ne)
    ensures Search(line).None? ==> forall st, e, de, ne :: !Fits(line, st, e, de, ne)
  {
    SearchFromSound(line, 0);
  }

  /** The match the search reports is the preferred one: leftmost, then with the
      longest groups in pattern order. */
  lemma SearchPreferred(line: string)
    requires Search(line).Some?
    ensures Preferred(line, Search(line).value)
  {
    SearchFromSound(line, 0);
  }

  // ---------------------------------------------------------------------------
  // The descriptor
  // ---------------------------------------------------------------------------

  /** `_trimQuote`: one pair of surrounding double quotes is dropped. A lone `"`
      both starts and ends with a quote, and Python's `s[1:-1]` makes it empty. */
  function TrimQuote(s: string): (r: string)
    ensures |s| >= 2 && s[0] == '"' && s[|s| - 1] == '"' ==> r == s[1..|s| - 1]
    ensures s == "\"" ==> r == ""
    ensures (|s| == 0 || s[0] != '"' || s[|s| - 1] != '"') ==> r == s
  {
    if |s| > 0 && s[0] == '"' && s[|s| - 1] == '"' then PySlice(s, 1, -1) else s
  }

  /** Quoting a text and trimming the quotes gives the text back. */
  lemma TrimQuoted(x: string)
    ensures TrimQuote("\"" + x + "\"") == x
  {
    var q := "\"" + x + "\"";
    assert q[1..|q| - 1] == x;
  }

  /** Where the program keeps a folder locally: its directory, and the names of its
      mbox file and of its config file. */
  datatype LocalPaths = LocalPaths(mboxFolderName: string, mboxFileName: string, cfgFileName: string)

  /** A folder descriptor: the folder's name, hierarchy delimiter and flags as the
      server lists them, whether the line parsed, and its local paths once set. */
  datatype ImapFolderInfo = ImapFolderInfo(
    name: string, delimiter: string, flags: seq<string>, valid: bool, paths: Option<LocalPaths>)

  /** Building a descriptor from a LIST line. When the pattern does not match, the
      code reads the groups of a match that is None and raises AttributeError, so
      every descriptor it returns is valid. */
  function Describe(line: string): (r: Result<ImapFolderInfo>)
    ensures r.Raised? ==> r.message == "AttributeError"
    ensures r.Ok? <==> Search(line).Some?
    ensures r.Ok? ==> r.value.valid && r.value.paths.None?
    ensures r.Ok? ==> forall i :: 0 <= i < |r.value.flags| ==> |r.value.flags[i]| > 0 && NoneIn(r.value.flags[i], StrSpace)
  {
    match Search(line)
    case None => Raised("AttributeError")
    case Some(m) => Ok(Groups(line, m))
  }

  /** The descriptor read off a match: the name and delimiter groups with their
      quotes trimmed, and the words of the flags group. */
  function Groups(line: string, m: Span): ImapFolderInfo
    requires m.st < m.e && m.e + 2 <= m.de < m.ne <= |line|
  {
    ImapFolderInfo(
      TrimQuote(line[m.de + 1..m.ne]),
      TrimQuote(line[m.e + 2..m.de]),
      Split(line[m.st + 1..m.e], StrSpace),
      true,
      None)
  }

  /** Parsing raises exactly when the pattern matches nowhere in the line. */
  lemma DescribeRaises(line: string)
    ensures Describe(line).Raised? <==> forall st, e, de, ne :: !Fits(line, st, e, de, ne)
  {
    SearchSound(line);
  }

  /** The LIST line a server sends for a folder, flags separated by single spaces. */
  function Render(flags: seq<string>, delim: string, name: string): string {
    "(" + JoinWith(flags, " ") + ") " + delim + " " + name
  }

  /** A match that starts the line, runs to its end and is followed by no other `)`
      is the one the search reports. */
  lemma OnlyMatch(line: string, m: Span)
    requires m.st == 0 && m.ne == |line| && Fits(line, m.st, m.e, m.de, m.ne)
    requires forall i :: m.e < i < |line| ==> line[i] != ')'
    ensures Search(line) == Some(m)
  {
    SearchSound(line);
    var r := Search(line).value;
    SearchPreferred(line);
    assert r.st == 0 && m.e <= r.e;
  }

  lemma RenderedFits(flags: seq<string>, delim: string, name: string)
    requires forall i :: 0 <= i < |flags| ==> |flags[i]| > 0 && NoneIn(flags[i], StrSpace)
    requires |delim| > 0 && NoneIn(delim, StrSpace) && ')' !in delim
    requires |name| > 0 && '\n' !in name && ')' !in name
    ensures var line := Render(flags, delim, name);
      var e := 1 + |JoinWith(flags, " ")|;
      var de := e + 2 + |delim|;
      && Fits(line, 0, e, de, |line|)
      && (forall i :: e < i < |line| ==> line[i] != ')')
      && line[1..e] == JoinWith(flags, " ") && line[e + 2..de] == delim && line[de + 1..] == name
  {
    var f := JoinWith(flags, " ");
    var line := Render(flags, delim, name);
    var e := 1 + |f|;
    var de := e + 2 + |delim|;
    RenderedParts(f, delim, name);
    JoinNoneIn(flags, " ", FlagStop);
    SliceAvoids(line, 1, e, FlagStop);
    SliceAvoids(line, e + 2, de, StrSpace);
    SliceAvoids(line, e + 2, de, {')'});
    SliceAvoids(line, de + 1, |line|, NameStop);
    SliceAvoids(line, de + 1, |line|, {')'});
  }

  /** Where the parts of a rendered line sit. */
  lemma RenderedParts(f: string, delim: string, name: string)
    ensures var line := "(" + f + ") " + delim + " " + name;
      var e := 1 + |f|;
      var de := e + 2 + |delim|;
      && |line| == de + 1 + |name|
      && line[0] == '(' && line[e] == ')' && line[e + 1] == ' ' && line[de] == ' '
      && line[1..e] == f && line[e + 2..de] == delim && line[de + 1..] == name
  {
    var line := "(" + f + ") " + delim + " " + name;
    var e := 1 + |f|;
    var de := e + 2 + |delim|;
    assert line == "(" + (f + (") " + (delim + (" " + name))));
    assert line[1..e] == f;
    assert line[e + 2..de] == delim;
    assert line[de + 1..] == name;
  }

  /** A slice that avoids some characters spells out position by position. */
  lemma SliceAvoids(line: string, a: nat, b: nat, cs: set<char>)
    requires a <= b <= |line| && NoneIn(line[a..b], cs)
    ensures forall i :: a <= i < b ==> line[i] !in cs
  {
    forall i | a <= i < b ensures line[i] !in cs {
      assert line[i] == line[a..b][i - a];
    }
  }

  /** A rendered line parses back to its parts, provided the flags are words, the
      delimiter is one word, the name holds no line feed, and neither the delimiter
      nor the name holds a `)` the greedy flags group could stretch to. */
  lemma ParseRendered(flags: seq<string>, delim: string, name: string)
    requires forall i :: 0 <= i < |flags| ==> |flags[i]| > 0 && NoneIn(flags[i], StrSpace)
    requires |delim| > 0 && NoneIn(delim, StrSpace) && ')' !in delim
    requires |name| > 0 && '\n' !in name && ')' !in name
    ensures Describe(Render(flags, delim, name)) == Ok(ImapFolderInfo(TrimQuote(name), TrimQuote(delim), flags, true, None))
  {
    var line := Render(flags, delim, name);
    var f := JoinWith(flags, " ");
    var e := 1 + |f|;
    var m := Span(0, e, e + 2 + |delim|, |line|);
    assert Search(line) == Some(m) && line[m.st + 1..m.e] == f && line[m.e + 2..m.de] == delim && line[m.de + 1..m.ne] == name by {
      RenderedFits(flags, delim, name);
      OnlyMatch(line, m);
    }
    assert Split(f, StrSpace) == flags by {
      SplitJoin(flags, StrSpace);
    }
    DescribeFound(line, m);
    SameGroups(Describe(line), line, m, flags, delim, name);
  }

  /** The delimiter a descriptor carries is a non-empty run of non-whitespace
      characters of the line, with at most its surrounding quotes dropped. */
  lemma DescribeDelimiter(line: string)
    requires Describe(line).Ok?
    ensures var m := Search(line).value;
      && m.e + 2 < m.de <= |line|
      && NoneIn(line[m.e + 2..m.de], StrSpace)
      && Describe(line).value.delimiter == TrimQuote(line[m.e + 2..m.de])
  {
    var m := Search(line).value;
    SearchSound(line);
    var raw := line[m.e + 2..m.de];
    forall i | 0 <= i < |raw| ensures raw[i] !in StrSpace {
      assert raw[i] == line[m.e + 2 + i];
    }
  }

  /** Parsing reads its fields off the match `re.search` prefers: for the leftmost
      fit with the longest groups, the name and the delimiter are that fit's groups
      with their quotes trimmed, and the flags are the words of its flags group. */
  lemma DescribeMatch(line: string, st: nat, e: nat, de: nat, ne: nat)
    requires Fits(line, st, e, de, ne) && Preferred(line, Span(st, e, de, ne))
    ensures Describe(line) == Ok(Groups(line, Span(st, e, de, ne)))
  {
    SearchFinds(line, Span(st, e, de, ne));
  }

  /** The search reports the preferred fit. */
  lemma SearchFinds(line: string, n: Span)
    requires Fits(line, n.st, n.e, n.de, n.ne) && Preferred(line, n)
    ensures Search(line) == Some(n)
  {
    SearchSound(line);
    SearchPreferred(line);
    PreferredUnique(line, Search(line).value, n);
  }

  /** At most one fit is preferred. */
  lemma PreferredUnique(line: string, m: Span, n: Span)
    requires Fits(line, m.st, m.e, m.de, m.ne) && Preferred(line, m)
    requires Fits(line, n.st, n.e, n.de, n.ne) && Preferred(line, n)
    ensures m == n
  {
  }

  /** The groups of a found match. */
  lemma DescribeFound(line: string, m: Span)
    requires Search(line) == Some(m)
    ensures Describe(line) == Ok(ImapFolderInfo(
      TrimQuote(line[m.de + 1..m.ne]), TrimQuote(line[m.e + 2..m.de]), Split(line[m.st + 1..m.e], StrSpace), true, None))
  {
    var g := ImapFolderInfo(
      TrimQuote(line[m.de + 1..m.ne]), TrimQuote(line[m.e + 2..m.de]), Split(line[m.st + 1..m.e], StrSpace), true, None);
    assert Groups(line, m) == g;
    assert Describe(line) == Ok(Groups(line, m));
  }

  /** Groups equal to the given texts describe those texts. */
  lemma SameGroups(d: Result<ImapFolderInfo>, line: string, m: Span, flags: seq<string>, delim: string, name: string)
    requires 0 <= m.st < m.e && m.e + 2 <= m.de < m.ne <= |line|
    requires d == Ok(ImapFolderInfo(
      TrimQuote(line[m.de + 1..m.ne]), TrimQuote(line[m.e + 2..m.de]), Split(line[m.st + 1..m.e], StrSpace), true, None))
    requires Split(line[m.st + 1..m.e], StrSpace) == flags
    requires line[m.e + 2..m.de] == delim && line[m.de + 1..m.ne] == name
    ensures d == Ok(ImapFolderInfo(TrimQuote(name), TrimQuote(delim), flags, true, None))
  {
  }

  /** The documented example line `(\\HasChildren) "/" "folder_name"`. */
  lemma DocumentedExample()
    ensures Describe("(\\HasChildren) \"/\" \"folder_name\"")
      == Ok(ImapFolderInfo("folder_name", "/", ["\\HasChildren"], true, None))
  {
    var flags := ["\\HasChildren"];
    var delim := "\"/\"";
    var name := "\"folder_name\"";
    ExampleParts();
    ParseRendered(flags, delim, name);
  }

  lemma ExampleParts()
    ensures TrimQuote("\"/\"") == "/" && TrimQuote("\"folder_name\"") == "folder_name"
    ensures Render(["\\HasChildren"], "\"/\"", "\"folder_name\"") == "(\\HasChildren) \"/\" \"folder_name\""
    ensures NoneIn("\\HasChildren", StrSpace) && NoneIn("\"/\"", StrSpace)
    ensures ')' !in "\"/\"" && ')' !in "\"folder_name\"" && '\n' !in "\"folder_name\""
  {
    ExampleTrims();
    assert JoinWith(["\\HasChildren"], " ") == "\\HasChildren";
    ExampleWords();
  }

  lemma ExampleTrims()
    ensures TrimQuote("\"/\"") == "/" && TrimQuote("\"folder_name\"") == "folder_name"
  {
    assert "\"/\"" == "\"" + "/" + "\"";
    TrimQuoted("/");
    assert "\"folder_name\"" == "\"" + "folder_name" + "\"";
    TrimQuoted("folder_name");
  }

  lemma ExampleWords()
    ensures NoneIn("\\HasChildren", StrSpace) && NoneIn("\"/\"", StrSpace)
  {
    var w := "\\HasChildren";
    forall i | 0 <= i < |w| ensures w[i] !in StrSpace {
      assert w[i] in {'\\', 'H', 'a', 's', 'C', 'h', 'i', 'l', 'd', 'r', 'e', 'n'};
    }
  }

  /** An empty flag list `()` gives no flags. */
  lemma NoFlags(delim: string, name: string)
    requires |delim| > 0 && NoneIn(delim, StrSpace) && ')' !in delim
    requires |name| > 0 && '\n' !in name && ')' !in name
    ensures Render([], delim, name) == "() " + delim + " " + name
    ensures Describe("() " + delim + " " + name).Ok?
    ensures Describe("() " + delim + " " + name).value.flags == []
  {
    assert Render([], delim, name) == "() " + delim + " " + name by {
      assert JoinWith([], " ") == "";
    }
    ParseRendered([], delim, name);
  }

  /** The flags group is greedy and may hold `)`, so a name holding `) ` followed by
      two words is split at its last `) `: in `() / x) y z` the delimiter is `y` and
      the name `z`, not `/` and `x) y z`. */
  lemma GreedyFlags()
    ensures Describe("() / x) y z").Ok?
    ensures Describe("() / x) y z").value.delimiter == "y"
    ensures Describe("() / x) y z").value.name == "z"
  {
    var line := "() / x) y z";
    var m := Span(0, 6, 9, 11);
    GreedyLineFits(line);
    OnlyMatch(line, m);
    assert line[m.e + 2..m.de] == "y" && line[m.de + 1..m.ne] == "z";
  }

  lemma GreedyLineFits(line: string)
    requires line == "() / x) y z"
    ensures Fits(line, 0, 6, 9, 11)
    ensures forall i :: 6 < i < |line| ==> line[i] != ')'
  {
    assert |line| == 11;
    assert line[0] == '(' && line[1] == ')' && line[2] == ' ' && line[3] == '/' && line[4] == ' ' && line[5] == 'x';
    assert line[6] == ')' && line[7] == ' ' && line[8] == 'y' && line[9] == ' ' && line[10] == 'z';
    forall i | 0 < i < 6 ensures line[i] !in FlagStop {
      assert line[i] in {')', ' ', '/', 'x'};
    }
    assert TailFits(line, 6, 9, 11);
  }

  /** `setFileNames`: records the local paths; the server-side fields are kept. */
  function SetFileNames(info: ImapFolderInfo, mboxFolderName: string, mboxFileName: string, cfgFileName: string)
    : (r: ImapFolderInfo)
    ensures r.name == info.name && r.delimiter == info.delimiter && r.flags == info.flags && r.valid == info.valid
    ensures r.paths == Some(LocalPaths(mboxFolderName, mboxFileName, cfgFileName))
  {
    info.(paths := Some(LocalPaths(mboxFolderName, mboxFileName, cfgFileName)))
  }

  // ---------------------------------------------------------------------------
  // The folder filter
  // ---------------------------------------------------------------------------

  /** The special-use flags whose folders are not backed up. */
  const ExcludedMailboxes: seq<string> := ["\\Archive", "\\Junk", "\\Trash", "\\Sent", "\\Drafts"]

  /** `any(item in EXCLUDED_MAILBOXES for item in flags)`. */
  predicate Excluded(flags: seq<string>) {
    exists i :: 0 <= i < |flags| && flags[i] in ExcludedMailboxes
  }

  // ---------------------------------------------------------------------------
  // The flat file name of the older variants
  // ---------------------------------------------------------------------------

  /** `f"{root}/{name.replace(delim, '_')}.mbox"`: one file per folder directly
      under `root`, the hierarchy flattened by replacing each delimiter with `_`. */
  function FlatMboxPath(root: string, info: ImapFolderInfo): (p: string)
    ensures root + "/" <= p && |p| >= |root| + 6 && p[|p| - 5..] == ".mbox"
    ensures |info.delimiter| > 0 && !Contains(info.name, info.delimiter) ==> p == root + "/" + info.name + ".mbox"
    ensures |info.delimiter| == 1 ==> p == root + "/" + Substitute(info.name, info.delimiter[0], '_') + ".mbox"
    ensures |info.delimiter| == 1 && info.delimiter[0] != '_' ==>
      info.delimiter[0] !in p[|root| + 1..|p| - 5]
  {
    var flat := Replace(info.name, info.delimiter, "_");
    var p := root + "/" + flat + ".mbox";
    assert p[|root| + 1..|p| - 5] == flat;
    if |info.delimiter| == 1 && info.delimiter[0] != '_' then
      ReplaceRemovesChar(info.name, info.delimiter, "_");
      p
    else
      p
  }

  /** Every occurrence of a delimiter of any length becomes `_`, cutting at the
      leftmost occurrence first as `SplitOn` does; an empty delimiter puts `_`
      before every character and at the end, as Python's `replace` does. */
  lemma FlatDelimiterReplaced(root: string, info: ImapFolderInfo)
    ensures var p := FlatMboxPath(root, info);
      |info.delimiter| > 0 ==> p == root + "/" + JoinWith(SplitOn(info.name, info.delimiter), "_") + ".mbox"
    ensures var p := FlatMboxPath(root, info);
      |info.delimiter| == 0 ==> var flat := p[|root| + 1..|p| - 5];
      && |flat| == 2 * |info.name| + 1 && flat[2 * |info.name|] == '_'
      && forall i :: 0 <= i < |info.name| ==> flat[2 * i] == '_' && flat[2 * i + 1] == info.name[i]
  {
    var flat := Replace(info.name, info.delimiter, "_");
    var p := root + "/" + flat + ".mbox";
    assert p[|root| + 1..|p| - 5] == flat;
  }

  /** A delimiter is replaced as a whole string, however long: the `NIL` that a
      flat-namespace server reports is cut out of a name that spells it. */
  lemma FlatNilDelimiter(root: string, info: ImapFolderInfo)
    requires info.name == "UNILATERAL" && info.delimiter == "NIL"
    ensures FlatMboxPath(root, info) == root + "/U_ATERAL.mbox"
  {
    assert FlatMboxPath(root, info) == root + "/" + "U_ATERAL" + ".mbox" by {
      FlatDelimiterReplaced(root, info);
      NilFlattened();
    }
    assert root + "/" + "U_ATERAL" + ".mbox" == root + "/U_ATERAL.mbox" by {
      NilLiterals();
      assert root + "/" + "U_ATERAL" + ".mbox" == root + ("/" + "U_ATERAL" + ".mbox");
    }
  }

  /** `"UNILATERAL".replace("NIL", "_")` is `"U_ATERAL"`. */
  lemma NilFlattened()
    ensures JoinWith(SplitOn("UNILATERAL", "NIL"), "_") == "U_ATERAL"
  {
    SplitNil();
    var parts := ["U", "ATERAL"];
    assert JoinWith(parts[1..], "_") == "ATERAL";
    assert JoinWith(parts, "_") == parts[0] + "_" + JoinWith(parts[1..], "_");
    NilLiterals();
  }


  lemma NilLiterals()
    ensures "U" + "_" + "ATERAL" == "U_ATERAL"
    ensures "/" + "U_ATERAL" + ".mbox" == "/U_ATERAL.mbox"
  {
  }

  /** `"UNILATERAL".split("NIL")` is `["U", "ATERAL"]`. */
  lemma SplitNil()
    ensures SplitOn("UNILATERAL", "NIL") == ["U", "ATERAL"]
  {
    var s := "UNILATERAL";
    var r := SplitOn(s, "NIL");
    NilOnce();
    SplitOnLeftmost(s, "NIL");
    SplitOnLeftmost("ATERAL", "NIL");
    assert r[1..] == ["ATERAL"];
    assert |r| == 2 && r[1] == "ATERAL" && |r[0]| == 1;
    assert JoinWith(r[1..], "NIL") == "ATERAL";
    assert s == r[0] + "NIL" + "ATERAL";
    assert r[0][0] == s[0] == 'U';
    assert r[0] == "U";
  }

  /** `NIL` occurs in `UNILATERAL` only at index 1. */
  lemma NilOnce()
    ensures IndexOf("UNILATERAL", "NIL") == 1
    ensures "UNILATERAL"[1 + 3..] == "ATERAL"
    ensures !Contains("ATERAL", "NIL")
  {
    assert OccursAt("UNILATERAL", "NIL", 1);
    assert !OccursAt("UNILATERAL", "NIL", 0) by {
      assert "UNILATERAL"[0] == 'U';
    }
    var rest := "ATERAL";
    forall k | 0 <= k <= |rest| ensures !OccursAt(rest, "NIL", k) {
      if k + 3 <= |rest| {
        assert rest[k..k + 3][0] == rest[k] != 'N';
      }
    }
  }

  /** Flattening loses nothing when no folder name holds `_`: two folders with the
      same one-character delimiter share a file exactly when their names are equal. */
  lemma FlatNamesDistinct(root: string, a: ImapFolderInfo, b: ImapFolderInfo)
    requires |a.delimiter| == 1 && b.delimiter == a.delimiter && a.delimiter[0] != '_'
    requires '_' !in a.name && '_' !in b.name
    ensures FlatMboxPath(root, a) == FlatMboxPath(root, b) <==> a.name == b.name
  {
    var c := a.delimiter[0];
    var x := Substitute(a.name, c, '_');
    var y := Substitute(b.name, c, '_');
    if FlatMboxPath(root, a) == FlatMboxPath(root, b) {
      assert root + "/" + x + ".mbox" == root + "/" + y + ".mbox";
      assert x == y by {
        assert |x| == |y|;
        forall k | 0 <= k < |x| ensures x[k] == y[k] {
          assert (root + "/" + x + ".mbox")[|root| + 1 + k] == x[k];
          assert (root + "/" + y + ".mbox")[|root| + 1 + k] == y[k];
        }
      }
      SubstituteInjective(a.name, b.name, c);
    }
  }

  /** Turning `c` into `_` is reversible on texts without `_`. */
  lemma SubstituteInjective(u: string, v: string, c: char)
    requires c != '_' && '_' !in u && '_' !in v
    requires Substitute(u, c, '_') == Substitute(v, c, '_')
    ensures u == v
  {
    var x := Substitute(u, c, '_');
    forall k | 0 <= k < |u| ensures u[k] == v[k] {
      assert x[k] == (if u[k] == c then '_' else u[k]);
      assert x[k] == (if v[k] == c then '_' else v[k]);
    }
  }

  /** The flattened names collide: with delimiter `/`, the folder `a/b` and the
      top-level folder `a_b` share one mbox file. */
  lemma FlatNamesCollide(root: string, flags: seq<string>)
    ensures FlatMboxPath(root, ImapFolderInfo("a/b", "/", flags, true, None))
      == FlatMboxPath(root, ImapFolderInfo("a_b", "/", flags, true, None))
  {
    assert "a/b" == "a" + ['/'] + "b";
    SplitOnFirst("a", '/', "b");
    AbsentChar("b", '/');
    SplitOnAbsent("b", "/");
    assert SplitOn("a/b", "/") == ["a", "b"];
    AbsentChar("a_b", '/');
  }
}
