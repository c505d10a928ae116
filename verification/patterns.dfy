/**
 * The five regular expressions of gradepy/makecsv.py, each as a hand-written
 * matcher that follows the backtracking order of Python's `re.match` (an
 * anchored match at the start of the line; greedy groups try the longest
 * run first, the lazy prefix the shortest).
 *
 *   BAR_RE        `={50,}`
 *   HEADER_RE     `Automated testing for [\w/]*?(\w+)/(\w+).py`
 *   MAX_POINTS_RE `Maximum points: (\d+)`
 *   TEST_FUNC_RE  `-{3,}\( (\w+) \)-{3,}`
 *   POINT_RE      `\(\([ ]*-([.\d]+)[ ]*\)\)`, used with `finditer`
 */
module Patterns {
  import opened Basics

  predicate IsEquals(c: char) { c == '=' }
  predicate IsDash(c: char) { c == '-' }
  predicate IsDigitOrDot(c: char) { IsDigit(c) || c == '.' }
  predicate IsWordOrSlash(c: char) { IsWordChar(c) || c == '/' }

  predicate IsWord(s: string) {
    |s| >= 1 && forall k :: 0 <= k < |s| ==> IsWordChar(s[k])
  }

  // ---------------------------------------------------------------------
  // BAR_RE

  const BarMin: nat := 50

  /** `BAR_RE.match(line)`: the greedy run of `=` at the start is long enough. */
  predicate IsBar(line: string) {
    Run(line, 0, IsEquals) >= BarMin
  }

  /** A line is a bar exactly when its first 50 characters are `=`. */
  lemma IsBarIff(line: string)
    ensures IsBar(line) <==> |line| >= BarMin && forall k :: 0 <= k < BarMin ==> line[k] == '='
  {
    if |line| >= BarMin && forall k :: 0 <= k < BarMin ==> line[k] == '=' {
      RunAtLeast(line, 0, BarMin, IsEquals);
    }
  }

  /** The 70-character bar `TestBase.__init__` writes is recognised. */
  lemma BannerIsBar(rest: string)
    ensures IsBar(Repeat('=', 70) + rest)
  {
    IsBarIff(Repeat('=', 70) + rest);
  }

  // ---------------------------------------------------------------------
  // MAX_POINTS_RE

  const MaxPointsPrefix: string := "Maximum points: "

  /** `int(MAX_POINTS_RE.match(line).group(1))`, or `None` when no match. */
  function MatchMaxPoints(line: string): (r: Option<nat>) {
    if |line| < |MaxPointsPrefix| || line[..|MaxPointsPrefix|] != MaxPointsPrefix then None
    else
      var n := Run(line, |MaxPointsPrefix|, IsDigit);
      if n == 0 then None else Some(DigitsValue(line[|MaxPointsPrefix|..|MaxPointsPrefix| + n]))
  }

  /** A written maximum is read back, whatever follows a non-digit. */
  lemma MaxPointsRoundTrip(n: nat, rest: string)
    requires |rest| == 0 || !IsDigit(rest[0])
    ensures MatchMaxPoints(MaxPointsPrefix + NatToDigits(n) + rest) == Some(n)
  {
    var line := MaxPointsPrefix + NatToDigits(n) + rest;
    var d := NatToDigits(n);
    var p := |MaxPointsPrefix|;
    assert line[..p] == MaxPointsPrefix;
    assert forall k :: p <= k < p + |d| ==> line[k] == d[k - p];
    RunExact(line, p, |d|, IsDigit);
    assert line[p..p + |d|] == d;
    DigitsRoundTrip(n);
  }

  // ---------------------------------------------------------------------
  // TEST_FUNC_RE

  /** `TEST_FUNC_RE.match(line).group(1)`: a dash run of 3 or more, `( `, a
      word, ` )`, 3 or more dashes. Backtracking cannot help: a shorter dash
      run leaves a `-` where `(` is needed, a shorter word leaves a word
      character where a blank is needed. */
  function MatchTestFunc(line: string): (r: Option<string>) {
    var d := Run(line, 0, IsDash);
    if d < 3 || d + 2 > |line| || line[d] != '(' || line[d + 1] != ' ' then None
    else
      var w := Run(line, d + 2, IsWordChar);
      var e := d + 2 + w;
      if w == 0 || e + 2 > |line| || line[e] != ' ' || line[e + 1] != ')' then None
      else if Run(line, e + 2, IsDash) < 3 then None
      else Some(line[d + 2..e])
  }

  /** The text a test-function banner starts with: `a` dashes, the name in
      `( ` and ` )`, `b` dashes. */
  function TestFuncText(a: nat, name: string, b: nat): string {
    Repeat('-', a) + "( " + name + " )" + Repeat('-', b)
  }

  lemma TestFuncTextChars(a: nat, name: string, b: nat)
    ensures var t := TestFuncText(a, name, b);
            var e := a + 2 + |name|;
            && |t| == e + 2 + b
            && (forall k :: 0 <= k < a ==> t[k] == '-')
            && t[a] == '(' && t[a + 1] == ' '
            && (forall k :: a + 2 <= k < e ==> t[k] == name[k - a - 2])
            && t[e] == ' ' && t[e + 1] == ')'
            && (forall k :: e + 2 <= k < |t| ==> t[k] == '-')
  {
  }

  /** The strings the pattern matches at the start of a line, as a language. */
  ghost predicate IsTestFuncLine(line: string, name: string) {
    IsWord(name) &&
    exists a: nat, b: nat :: a >= 3 && b >= 3 && a + |name| + 4 + b <= |line| &&
      line[..a + |name| + 4 + b] == TestFuncText(a, name, b)
  }

  /** What a successful match has seen: at least three dashes, `( `, the
      name, ` )`, at least three dashes. */
  lemma MatchTestFuncParts(line: string, name: string)
    requires MatchTestFunc(line) == Some(name)
    ensures var d := Run(line, 0, IsDash);
            var e := d + 2 + |name|;
            && IsWord(name) && d >= 3 && e + 5 <= |line|
            && line[d] == '(' && line[d + 1] == ' ' && line[e] == ' ' && line[e + 1] == ')'
            && line[d + 2..e] == name
            && Run(line, e + 2, IsDash) >= 3
  {
  }

  lemma MatchTestFuncSound(line: string, name: string)
    requires MatchTestFunc(line) == Some(name)
    ensures IsTestFuncLine(line, name)
  {
    MatchTestFuncParts(line, name);
    var d := Run(line, 0, IsDash);
    var e := d + 2 + |name|;
    assert forall k :: d + 2 <= k < e ==> line[k] == line[d + 2..e][k - d - 2];
    LineCharsGiveBanner(line, name, d, 3);
  }

  /** The converse of `TestFuncLineChars`: a line with the banner's
      characters starts with the banner. */
  lemma LineCharsGiveBanner(line: string, name: string, a: nat, b: nat)
    requires a + |name| + 4 + b <= |line|
    requires var e := a + 2 + |name|;
             && (forall k :: 0 <= k < a ==> line[k] == '-')
             && line[a] == '(' && line[a + 1] == ' '
             && (forall k :: a + 2 <= k < e ==> line[k] == name[k - a - 2])
             && line[e] == ' ' && line[e + 1] == ')'
             && (forall k :: e + 2 <= k < e + 2 + b ==> line[k] == '-')
    ensures line[..a + |name| + 4 + b] == TestFuncText(a, name, b)
  {
    var t := TestFuncText(a, name, b);
    var e := a + 2 + |name|;
    TestFuncTextChars(a, name, b);
    forall k | 0 <= k < |t| ensures line[k] == t[k] {
      if k < a {
      } else if k < a + 2 {
      } else if k < e {
      } else if k < e + 2 {
      } else {
      }
    }
    assert line[..|t|] == t;
  }

  /** A line that starts with a banner has the banner's characters. */
  lemma TestFuncLineChars(line: string, name: string, a: nat, b: nat)
    requires a + |name| + 4 + b <= |line|
    requires line[..a + |name| + 4 + b] == TestFuncText(a, name, b)
    ensures var e := a + 2 + |name|;
            && (forall k :: 0 <= k < a ==> line[k] == '-')
            && line[a] == '(' && line[a + 1] == ' '
            && (forall k :: a + 2 <= k < e ==> line[k] == name[k - a - 2])
            && line[e] == ' ' && line[e + 1] == ')'
            && (forall k :: e + 2 <= k < e + 2 + b ==> line[k] == '-')
  {
    var t := TestFuncText(a, name, b);
    TestFuncTextChars(a, name, b);
    assert forall k :: 0 <= k < |t| ==> line[k] == t[k];
  }

  /** The runs `MatchTestFunc` measures on such a line. */
  lemma TestFuncLineRuns(line: string, name: string, a: nat, b: nat)
    requires IsWord(name) && a + |name| + 4 + b <= |line|
    requires var e := a + 2 + |name|;
             && (forall k :: 0 <= k < a ==> line[k] == '-')
             && line[a] == '('
             && (forall k :: a + 2 <= k < e ==> line[k] == name[k - a - 2])
             && line[e] == ' '
             && (forall k :: e + 2 <= k < e + 2 + b ==> line[k] == '-')
    ensures var e := a + 2 + |name|;
            && Run(line, 0, IsDash) == a
            && Run(line, a + 2, IsWordChar) == |name|
            && Run(line, e + 2, IsDash) >= b
            && line[a + 2..e] == name
  {
    var e := a + 2 + |name|;
    RunExact(line, 0, a, IsDash);
    RunExact(line, a + 2, |name|, IsWordChar);
    RunAtLeast(line, e + 2, b, IsDash);
    assert line[a + 2..e] == name;
  }

  /** Once the runs are known, the matcher gives the name. */
  lemma TestFuncRunsMatch(line: string, name: string, a: nat, b: nat)
    requires |name| >= 1 && a >= 3 && b >= 3 && a + |name| + 4 + b <= |line|
    requires var e := a + 2 + |name|;
             && line[a] == '(' && line[a + 1] == ' ' && line[e] == ' ' && line[e + 1] == ')'
             && Run(line, 0, IsDash) == a
             && Run(line, a + 2, IsWordChar) == |name|
             && Run(line, e + 2, IsDash) >= b
             && line[a + 2..e] == name
    ensures MatchTestFunc(line) == Some(name)
  {
  }

  lemma MatchTestFuncComplete(line: string, name: string, a: nat, b: nat)
    requires IsWord(name) && a >= 3 && b >= 3 && a + |name| + 4 + b <= |line|
    requires line[..a + |name| + 4 + b] == TestFuncText(a, name, b)
    ensures MatchTestFunc(line) == Some(name)
  {
    TestFuncLineChars(line, name, a, b);
    TestFuncLineRuns(line, name, a, b);
    TestFuncRunsMatch(line, name, a, b);
  }

  /** The matcher accepts exactly the lines of that language, and its group
      is the name inside the parentheses. */
  lemma MatchTestFuncIff(line: string, name: string)
    ensures MatchTestFunc(line) == Some(name) <==> IsTestFuncLine(line, name)
  {
    if MatchTestFunc(line) == Some(name) {
      MatchTestFuncSound(line, name);
    }
    if IsTestFuncLine(line, name) {
      var a: nat, b: nat :| a >= 3 && b >= 3 && a + |name| + 4 + b <= |line| &&
        line[..a + |name| + 4 + b] == TestFuncText(a, name, b);
      MatchTestFuncComplete(line, name, a, b);
    }
  }

  // ---------------------------------------------------------------------
  // HEADER_RE

  const HeaderPrefix: string := "Automated testing for "

  /** The `.` before `py`: in the pattern as written it matches any
      character except a newline; escaped, only a literal dot. */
  predicate DotMatches(c: char, literalDot: bool) {
    if literalDot then c == '.' else c != '\n'
  }

  /** `(\w+)` for the module, tried from `j` characters down to one, each
      followed by the dot and `py`. */
  function TryModule(line: string, p: nat, j: nat, literalDot: bool): (r: Option<string>)
    requires p + j <= |line| && j <= Run(line, p, IsWordChar)
    ensures r.Some? ==> IsWord(r.value)
    decreases j
  {
    if j == 0 then None
    else
      var e := p + j;
      if e + 3 <= |line| && DotMatches(line[e], literalDot) && line[e + 1] == 'p' && line[e + 2] == 'y'
      then Some(line[p..e])
      else TryModule(line, p, j - 1, literalDot)
  }

  /** `(\w+)/` for the netid, tried from `j` characters down to one. */
  function TryNetid(line: string, k: nat, j: nat, literalDot: bool): (r: Option<(string, string)>)
    requires k + j <= |line| && j <= Run(line, k, IsWordChar)
    ensures r.Some? ==> IsWord(r.value.0) && IsWord(r.value.1)
    decreases j
  {
    if j == 0 then None
    else
      var e := k + j;
      var m :=
        if e < |line| && line[e] == '/' then TryModule(line, e + 1, Run(line, e + 1, IsWordChar), literalDot)
        else None;
      if m.Some? then Some((line[k..e], m.value)) else TryNetid(line, k, j - 1, literalDot)
  }

  /** The rest of the pattern with the lazy prefix ending at `k`. */
  function AttemptAt(line: string, k: nat, literalDot: bool): (r: Option<(string, string)>)
    requires k <= |line|
    ensures r.Some? ==> IsWord(r.value.0) && IsWord(r.value.1)
  {
    TryNetid(line, k, Run(line, k, IsWordChar), literalDot)
  }

  /** The lazy `[\w/]*?`: the shortest prefix for which the rest matches. */
  function SearchFrom(line: string, k: nat, literalDot: bool): (r: Option<(string, string)>)
    requires k <= |line|
    ensures r.Some? ==> IsWord(r.value.0) && IsWord(r.value.1)
    decreases |line| - k
  {
    var r := AttemptAt(line, k, literalDot);
    if r.Some? then r
    else if k < |line| && IsWordOrSlash(line[k]) then SearchFrom(line, k + 1, literalDot)
    else None
  }

  /** `HEADER_RE.match(line).groups()` (with `literalDot` false), or the
      pattern with its dot escaped (`literalDot` true). */
  function MatchHeader(line: string, literalDot: bool): (r: Option<(string, string)>)
    ensures r.Some? ==> IsWord(r.value.0) && IsWord(r.value.1)
  {
    if |line| < |HeaderPrefix| || line[..|HeaderPrefix|] != HeaderPrefix then None
    else SearchFrom(line, |HeaderPrefix|, literalDot)
  }

  /** Only the longest netid can be followed by `/`: a shorter one is
      followed by another word character. */
  lemma {:induction false} NetidIsLongest(line: string, k: nat, j: nat, literalDot: bool)
    requires k + j <= |line| && j <= Run(line, k, IsWordChar)
    ensures TryNetid(line, k, j, literalDot) ==
              if j == Run(line, k, IsWordChar) && j > 0 && k + j < |line| && line[k + j] == '/' then
                var m := TryModule(line, k + j + 1, Run(line, k + j + 1, IsWordChar), literalDot);
                if m.Some? then Some((line[k..k + j], m.value)) else None
              else None
    decreases j
  {
    if j > 0 {
      NetidIsLongest(line, k, j - 1, literalDot);
    }
  }

  /** With the dot escaped, only the longest module name can be followed by
      `.`: a shorter one is followed by another word character. */
  lemma {:induction false} ModuleIsLongest(line: string, p: nat, j: nat)
    requires p + j <= |line| && j <= Run(line, p, IsWordChar)
    ensures TryModule(line, p, j, true) ==
              if j == Run(line, p, IsWordChar) && j > 0 && p + j + 3 <= |line|
                 && line[p + j] == '.' && line[p + j + 1] == 'p' && line[p + j + 2] == 'y'
              then Some(line[p..p + j]) else None
    decreases j
  {
    if j > 0 {
      ModuleIsLongest(line, p, j - 1);
    }
  }

  /** The line `TestBase.__init__` writes for a path `dirs + netid`, where
      `dirs` is empty or ends with `/`. */
  ghost predicate HeaderShape(line: string, dirs: string, netid: string, modName: string) {
    && IsWord(netid) && IsWord(modName)
    && (forall k :: 0 <= k < |dirs| ==> IsWordOrSlash(dirs[k]))
    && (|dirs| == 0 || dirs[|dirs| - 1] == '/')
    && |HeaderPrefix| + |dirs| + |netid| + 1 + |modName| + 3 <= |line|
    && line[..|HeaderPrefix| + |dirs| + |netid| + 1 + |modName| + 3]
         == HeaderPrefix + dirs + netid + "/" + modName + ".py"
  }

  lemma HeaderShapeChars(line: string, dirs: string, netid: string, modName: string)
    requires HeaderShape(line, dirs, netid, modName)
    ensures var h := |HeaderPrefix|;
            var n0 := h + |dirs|;
            var sl := n0 + |netid|;
            && line[..h] == HeaderPrefix
            && (forall k :: h <= k < n0 ==> line[k] == dirs[k - h])
            && (forall k :: n0 <= k < sl ==> line[k] == netid[k - n0])
            && line[sl] == '/'
            && (forall k :: sl + 1 <= k < sl + 1 + |modName| ==> line[k] == modName[k - sl - 1])
            && line[sl + 1 + |modName|] == '.'
            && line[sl + 2 + |modName|] == 'p' && line[sl + 3 + |modName|] == 'y'
  {
    var whole := HeaderPrefix + dirs + netid + "/" + modName + ".py";
    var h := |HeaderPrefix|;
    assert line[..|whole|] == whole;
    assert forall k :: 0 <= k < |whole| ==> line[k] == whole[k];
    assert line[..h] == whole[..h];
  }

  /** At `n0`: a word of `nl` characters, `/`, a word of `ml` characters,
      a character the dot accepts, `py`. */
  predicate WordsAt(line: string, n0: nat, nl: nat, ml: nat, literalDot: bool) {
    && nl >= 1 && ml >= 1 && n0 + nl + ml + 4 <= |line|
    && (forall k :: n0 <= k < n0 + nl ==> IsWordChar(line[k]))
    && line[n0 + nl] == '/'
    && (forall k :: n0 + nl + 1 <= k < n0 + nl + 1 + ml ==> IsWordChar(line[k]))
    && !IsWordChar(line[n0 + nl + 1 + ml]) && DotMatches(line[n0 + nl + 1 + ml], literalDot)
    && line[n0 + nl + 2 + ml] == 'p' && line[n0 + nl + 3 + ml] == 'y'
  }

  lemma AttemptAtWords(line: string, n0: nat, nl: nat, ml: nat, literalDot: bool)
    requires WordsAt(line, n0, nl, ml, literalDot)
    ensures AttemptAt(line, n0, literalDot)
              == Some((line[n0..n0 + nl], line[n0 + nl + 1..n0 + nl + 1 + ml]))
  {
    RunExact(line, n0, nl, IsWordChar);
    RunExact(line, n0 + nl + 1, ml, IsWordChar);
    NetidIsLongest(line, n0, nl, literalDot);
  }

  /** A header line has the netid and the module as words at the netid's
      start. */
  lemma HeaderShapeWords(line: string, dirs: string, netid: string, modName: string, literalDot: bool)
    requires HeaderShape(line, dirs, netid, modName)
    ensures var n0 := |HeaderPrefix| + |dirs|;
            var sl := n0 + |netid|;
            && WordsAt(line, n0, |netid|, |modName|, literalDot)
            && line[n0..sl] == netid
            && line[sl + 1..sl + 1 + |modName|] == modName
  {
    HeaderShapeChars(line, dirs, netid, modName);
    var n0 := |HeaderPrefix| + |dirs|;
    var sl := n0 + |netid|;
    assert !IsWordChar(line[sl + 1 + |modName|]) && DotMatches(line[sl + 1 + |modName|], literalDot);
    assert line[n0..sl] == netid;
    assert line[sl + 1..sl + 1 + |modName|] == modName;
  }

  /** Where the netid starts, the pattern reads the netid and the module. */
  lemma AttemptAtNetid(line: string, dirs: string, netid: string, modName: string, literalDot: bool)
    requires HeaderShape(line, dirs, netid, modName)
    ensures AttemptAt(line, |HeaderPrefix| + |dirs|, literalDot) == Some((netid, modName))
  {
    HeaderShapeWords(line, dirs, netid, modName, literalDot);
    AttemptAtWords(line, |HeaderPrefix| + |dirs|, |netid|, |modName|, literalDot);
  }

  /** Before a `/` that is followed by a word and another `/`, the escaped
      pattern never matches: the word after the first `/` is followed by
      `/`, not by `.`. */
  lemma AttemptBeforeTwoSlashesFails(line: string, k: nat, d: nat, sl: nat)
    requires k <= d < sl < |line| && line[d] == '/' && line[sl] == '/'
    requires forall q :: k <= q < sl ==> IsWordOrSlash(line[q])
    ensures AttemptAt(line, k, true) == None
  {
    var r1 := Run(line, k, IsWordChar);
    assert AttemptAt(line, k, true) == TryNetid(line, k, r1, true);
    NetidIsLongest(line, k, r1, true);
    if r1 > 0 {
      RunStopsAtSlash(line, k, d);
      var p := k + r1 + 1;
      var r2 := Run(line, p, IsWordChar);
      RunStopsAtSlash(line, p, sl);
      ModuleIsLongest(line, p, r2);
      assert line[p + r2] == '/';
      assert TryModule(line, p, r2, true) == None;
    }
  }

  /** Inside the leading directories, the escaped pattern never matches. */
  lemma AttemptInDirsFails(line: string, dirs: string, netid: string, modName: string, k: nat)
    requires HeaderShape(line, dirs, netid, modName)
    requires |HeaderPrefix| <= k < |HeaderPrefix| + |dirs|
    ensures AttemptAt(line, k, true) == None
  {
    HeaderShapeChars(line, dirs, netid, modName);
    var h := |HeaderPrefix|;
    var n0 := h + |dirs|;
    var sl := n0 + |netid|;
    assert forall q :: h <= q < sl ==> IsWordOrSlash(line[q]);
    AttemptBeforeTwoSlashesFails(line, k, n0 - 1, sl);
  }

  lemma {:induction false} SearchReachesNetid(line: string, dirs: string, netid: string, modName: string, k: nat)
    requires HeaderShape(line, dirs, netid, modName)
    requires |HeaderPrefix| <= k <= |HeaderPrefix| + |dirs|
    ensures SearchFrom(line, k, true) == Some((netid, modName))
    decreases |HeaderPrefix| + |dirs| - k
  {
    if k == |HeaderPrefix| + |dirs| {
      AttemptAtNetid(line, dirs, netid, modName, true);
    } else {
      HeaderShapeChars(line, dirs, netid, modName);
      AttemptInDirsFails(line, dirs, netid, modName, k);
      SearchReachesNetid(line, dirs, netid, modName, k + 1);
    }
  }

  /** With the dot escaped, the header pattern reads the last directory of
      the path as the netid and the file name as the module, for any number
      of leading directories. */
  lemma HeaderEscapedReadsLastTwo(line: string, dirs: string, netid: string, modName: string)
    requires HeaderShape(line, dirs, netid, modName)
    ensures MatchHeader(line, true) == Some((netid, modName))
  {
    HeaderShapeChars(line, dirs, netid, modName);
    SearchReachesNetid(line, dirs, netid, modName, |HeaderPrefix|);
  }

  /** As written, the pattern is right when the path is one directory. */
  lemma HeaderAsWrittenSingleDir(line: string, netid: string, modName: string)
    requires HeaderShape(line, "", netid, modName)
    ensures MatchHeader(line, false) == Some((netid, modName))
  {
    HeaderShapeChars(line, "", netid, modName);
    AttemptAtNetid(line, "", netid, modName, false);
  }

  const MisreadLine: string := "Automated testing for hw/jd42/pyramid.py"

  /** As written, the unescaped dot lets the match end early: with the path
      `hw/jd42` and the module `pyramid`, the `/` before `pyramid` plays the
      dot and `hw` is read as the netid. */
  lemma HeaderAsWrittenMisreads()
    ensures MatchHeader(MisreadLine, false) == Some(("hw", "jd42"))
  {
    var line := MisreadLine;
    var h := |HeaderPrefix|;
    assert line[..h] == HeaderPrefix;
    assert WordsAt(line, h, 2, 4, false);
    AttemptAtWords(line, h, 2, 4, false);
    assert line[h..h + 2] == "hw" && line[h + 3..h + 7] == "jd42";
  }

  /** The same line read with the dot escaped gives the intended groups. */
  lemma HeaderEscapedOnMisreadLine()
    ensures MatchHeader(MisreadLine, true) == Some(("jd42", "pyramid"))
  {
    assert MisreadLine[..|MisreadLine|] == HeaderPrefix + "hw/" + "jd42" + "/" + "pyramid" + ".py";
    HeaderEscapedReadsLastTwo(MisreadLine, "hw/", "jd42", "pyramid");
  }

  // ---------------------------------------------------------------------
  // POINT_RE

  /** The greedy ` *` of POINT_RE: how many blanks start at `i`. */
  function Blanks(s: string, i: nat): (n: nat)
    requires i <= |s|
    ensures i + n <= |s|
    ensures forall k :: i <= k < i + n ==> s[k] == ' '
    ensures i + n == |s| || s[i + n] != ' '
    decreases |s| - i
  {
    if i == |s| || s[i] != ' ' then 0 else 1 + Blanks(s, i + 1)
  }

  /** The greedy `[\d.]+` of POINT_RE: how many digits and dots start at
      `i`. */
  function DigitsDots(s: string, i: nat): (n: nat)
    requires i <= |s|
    ensures i + n <= |s|
    ensures forall k :: i <= k < i + n ==> IsDigitOrDot(s[k])
    ensures i + n == |s| || !IsDigitOrDot(s[i + n])
    decreases |s| - i
  {
    if i == |s| || !IsDigitOrDot(s[i]) then 0 else 1 + DigitsDots(s, i + 1)
  }

  /** The blanks at `i` are fixed by where they stop. */
  lemma {:induction false} BlanksExact(s: string, i: nat, n: nat)
    requires i + n <= |s|
    requires forall k :: i <= k < i + n ==> s[k] == ' '
    requires i + n == |s| || s[i + n] != ' '
    ensures Blanks(s, i) == n
    decreases n
  {
    if n > 0 {
      BlanksExact(s, i + 1, n - 1);
    }
  }

  /** The digits and dots at `i` are fixed by where they stop. */
  lemma {:induction false} DigitsDotsExact(s: string, i: nat, n: nat)
    requires i + n <= |s|
    requires forall k :: i <= k < i + n ==> IsDigitOrDot(s[k])
    requires i + n == |s| || !IsDigitOrDot(s[i + n])
    ensures DigitsDots(s, i) == n
    decreases n
  {
    if n > 0 {
      DigitsDotsExact(s, i + 1, n - 1);
    }
  }

  /** `POINT_RE.match(s, p)`: `((`, blanks, `-`, the amount, blanks, `))`.
      Gives the end of the match and the amount text. Each part is a greedy
      run that the next literal cannot start, so backtracking never helps. */
  function TokenAt(s: string, p: nat): (r: Option<(nat, string)>)
    requires p <= |s|
    ensures r.Some? ==> p < r.value.0 <= |s| && IsAmount(r.value.1)
  {
    if p + 2 > |s| || s[p] != '(' || s[p + 1] != '(' then None
    else
      var m := p + 2 + Blanks(s, p + 2);
      if m >= |s| || s[m] != '-' then None
      else AmountAt(s, m + 1)
  }

  /** The part of POINT_RE after the `-`: the amount, blanks, `))`. */
  function AmountAt(s: string, q: nat): (r: Option<(nat, string)>)
    requires q <= |s|
    ensures r.Some? ==> q < r.value.0 <= |s| && IsAmount(r.value.1)
  {
    var n := DigitsDots(s, q);
    var c := q + n + Blanks(s, q + n);
    if n == 0 || c + 2 > |s| || s[c] != ')' || s[c + 1] != ')' then None
    else Some((c + 2, s[q..q + n]))
  }

  /** `[d.group(1) for d in POINT_RE.finditer(s)]`: leftmost matches, each
      search resuming where the last match ended. POINT_RE has no anchor
      and looks at nothing before its match, so searching from a position
      is searching the text that remains. */
  function FindTokens(s: string): (r: seq<string>)
    ensures forall i :: 0 <= i < |r| ==> IsAmount(r[i])
    decreases |s|
  {
    if |s| == 0 then []
    else
      match TokenAt(s, 0)
      case Some((e, g)) => [g] + FindTokens(s[e..])
      case None => FindTokens(s[1..])
  }

  /** Text with no `((` holds no deduction. */
  lemma {:induction false} NoOpenNoTokens(s: string)
    requires forall k :: 0 <= k < |s| - 1 ==> !(s[k] == '(' && s[k + 1] == '(')
    ensures FindTokens(s) == []
    decreases |s|
  {
    if |s| > 0 {
      var t := s[1..];
      assert forall k :: 0 <= k < |t| ==> t[k] == s[k + 1];
      NoOpenNoTokens(t);
    }
  }

  /** A deduction as written by hand: `((`, blanks, `-`, the amount,
      blanks, `))`. */
  function DeductionText(pre: nat, amount: string, post: nat): string {
    "((" + Repeat(' ', pre) + "-" + amount + Repeat(' ', post) + "))"
  }

  lemma DeductionTextChars(pre: nat, amount: string, post: nat)
    ensures var t := DeductionText(pre, amount, post);
            var m := 2 + pre;
            var c := m + 1 + |amount| + post;
            && |t| == c + 2
            && t[0] == '(' && t[1] == '('
            && (forall k :: 2 <= k < m ==> t[k] == ' ')
            && t[m] == '-'
            && (forall k :: m + 1 <= k < m + 1 + |amount| ==> t[k] == amount[k - m - 1])
            && (forall k :: m + 1 + |amount| <= k < c ==> t[k] == ' ')
            && t[c] == ')' && t[c + 1] == ')'
  {
  }

  predicate IsAmount(amount: string) {
    |amount| >= 1 && forall k :: 0 <= k < |amount| ==> IsDigitOrDot(amount[k])
  }

  /** The runs `TokenAt` measures in a text laid out as a deduction. */
  lemma DeductionLayoutRuns(s: string, pre: nat, amount: string, post: nat)
    requires var m := 2 + pre;
             var c := m + 1 + |amount| + post;
             && c + 2 <= |s|
             && (forall k :: 2 <= k < m ==> s[k] == ' ')
             && s[m] == '-'
             && (forall k :: m + 1 <= k < m + 1 + |amount| ==> s[k] == amount[k - m - 1])
             && (forall k :: 0 <= k < |amount| ==> IsDigitOrDot(amount[k]))
             && (forall k :: m + 1 + |amount| <= k < c ==> s[k] == ' ')
             && s[c] == ')'
    ensures var m := 2 + pre;
            && Blanks(s, 2) == pre
            && DigitsDots(s, m + 1) == |amount|
            && Blanks(s, m + 1 + |amount|) == post
  {
    var m := 2 + pre;
    var q := m + 1;
    var c := q + |amount| + post;
    BlanksExact(s, 2, pre);
    assert q + |amount| < |s| && !IsDigitOrDot(s[q + |amount|]) by {
      if post > 0 { assert s[q + |amount|] == ' '; } else { assert s[q + |amount|] == ')'; }
    }
    AmountRun(s, q, amount);
    BlanksExact(s, q + |amount|, post);
  }

  lemma AmountRun(s: string, q: nat, amount: string)
    requires q + |amount| < |s| && !IsDigitOrDot(s[q + |amount|])
    requires forall k :: 0 <= k < |amount| ==> IsDigitOrDot(amount[k])
    requires forall k :: q <= k < q + |amount| ==> s[k] == amount[k - q]
    ensures DigitsDots(s, q) == |amount| && s[q..q + |amount|] == amount
  {
    DigitsDotsExact(s, q, |amount|);
    assert s[q..q + |amount|] == amount;
  }

  lemma SliceIs(s: string, q: nat, a: string)
    requires q + |a| <= |s|
    requires forall k :: q <= k < q + |a| ==> s[k] == a[k - q]
    ensures s[q..q + |a|] == a
  {
  }

  /** Once the runs are known, the amount and the closing `))` are
      matched, whatever follows. */
  lemma DeductionAmountFound(s: string, q: nat, amount: string, post: nat)
    requires |amount| >= 1
    requires var c := q + |amount| + post;
             && c + 2 <= |s| && s[c] == ')' && s[c + 1] == ')'
             && DigitsDots(s, q) == |amount|
             && Blanks(s, q + |amount|) == post
             && s[q..q + |amount|] == amount
    ensures AmountAt(s, q) == Some((q + |amount| + post + 2, amount))
  {
  }

  /** Once `((`, the blanks, the `-` and the rest of the match are known,
      the match is found at the start. */
  lemma TokenAtFromParts(s: string, m: nat, e: nat, g: string)
    requires 2 <= m < |s| && s[0] == '(' && s[1] == '(' && s[m] == '-'
    requires 2 + Blanks(s, 2) == m
    requires AmountAt(s, m + 1) == Some((e, g))
    ensures TokenAt(s, 0) == Some((e, g))
  {
  }

  /** A written deduction is found at its start, with its amount, and the
      match ends with it whatever text follows. */
  lemma WrittenDeductionFound(pre: nat, amount: string, post: nat, y: string)
    requires IsAmount(amount)
    ensures var t := DeductionText(pre, amount, post);
            TokenAt(t + y, 0) == Some((|t|, amount))
  {
    DeductionFollowedBy(pre, amount, post, y);
    DeductionRunsFound(DeductionText(pre, amount, post) + y, pre, amount, post);
  }

  /** The parts of a written deduction, read in the text it starts. */
  lemma DeductionFollowedBy(pre: nat, amount: string, post: nat, y: string)
    requires IsAmount(amount)
    ensures var t := DeductionText(pre, amount, post);
            var s := t + y;
            var m := 2 + pre;
            var c := m + 1 + |amount| + post;
            && |t| == c + 2 && c + 2 <= |s|
            && s[0] == '(' && s[1] == '(' && s[m] == '-' && s[c] == ')' && s[c + 1] == ')'
            && Blanks(s, 2) == pre
            && DigitsDots(s, m + 1) == |amount|
            && Blanks(s, m + 1 + |amount|) == post
            && s[m + 1..m + 1 + |amount|] == amount
  {
    var t := DeductionText(pre, amount, post);
    var s := t + y;
    DeductionTextChars(pre, amount, post);
    assert forall k :: 0 <= k < |t| ==> s[k] == t[k];
    DeductionLayoutRuns(s, pre, amount, post);
    SliceIs(s, 2 + pre + 1, amount);
  }

  /** Once the runs are known, the match ends after the closing `))`,
      whatever follows. */
  lemma DeductionRunsFound(s: string, pre: nat, amount: string, post: nat)
    requires |amount| >= 1
    requires var m := 2 + pre;
             var c := m + 1 + |amount| + post;
             && c + 2 <= |s|
             && s[0] == '(' && s[1] == '(' && s[m] == '-' && s[c] == ')' && s[c + 1] == ')'
             && Blanks(s, 2) == pre
             && DigitsDots(s, m + 1) == |amount|
             && Blanks(s, m + 1 + |amount|) == post
             && s[m + 1..m + 1 + |amount|] == amount
    ensures TokenAt(s, 0) == Some((2 + pre + 1 + |amount| + post + 2, amount))
  {
    var m := 2 + pre;
    DeductionAmountFound(s, m + 1, amount, post);
    TokenAtFromParts(s, m, m + 1 + |amount| + post + 2, amount);
  }

  // ---------------------------------------------------------------------
  // Searching for POINT_RE in composed text

  /** Text in front with no `((` that could start there, not even with the
      first character after it, holds no match and is passed over. */
  lemma {:induction false} NoOpenPrefixSkipped(x: string, rest: string)
    requires forall k :: 0 <= k < |x| ==>
               k + 1 == |x + rest| || (x + rest)[k] != '(' || (x + rest)[k + 1] != '('
    ensures FindTokens(x + rest) == FindTokens(rest)
    decreases |x|
  {
    if |x| > 0 {
      var s := x + rest;
      var t := x[1..] + rest;
      assert TokenAt(s, 0).None?;
      assert s[1..] == t;
      assert FindTokens(s) == FindTokens(t);
      assert forall k :: 0 <= k < |t| ==> t[k] == s[k + 1];
      NoOpenPrefixSkipped(x[1..], rest);
    } else {
      assert x + rest == rest;
    }
  }

  /** A deduction written after text that holds no `((` and does not end in
      `(`: the search finds that deduction first, and then exactly what it
      finds in the text that follows. */
  lemma FindTokensAroundDeduction(x: string, pre: nat, amount: string, post: nat, y: string)
    requires IsAmount(amount)
    requires forall k :: 0 <= k < |x| - 1 ==> !(x[k] == '(' && x[k + 1] == '(')
    requires |x| == 0 || x[|x| - 1] != '('
    ensures FindTokens(x + DeductionText(pre, amount, post) + y) == [amount] + FindTokens(y)
  {
    var t := DeductionText(pre, amount, post);
    var v := t + y;
    assert x + t + y == x + v;
    assert forall k :: 0 <= k < |x| ==> (x + v)[k] == x[k];
    assert |x| > 0 ==> (x + v)[|x|] == t[0] == '(';
    NoOpenPrefixSkipped(x, v);
    WrittenDeductionFound(pre, amount, post, y);
    assert v[|t|..] == y;
  }
}
