/**
 * gradepy/makecsv.py: reading a feedback report back into
 * (netid, module, earned points), and the per-test-function split of the
 * deductions (`_lost_points`).
 *
 * The shared line iterator of the source is an index into the list of
 * lines: each operation takes the index it starts from and says where the
 * iterator stands afterwards. Exceptions become `ParseFail` values; only
 * `NotFound` is the source's `ParseError`, the others escape `main`.
 */
module Feedback {
  import opened Basics
  import opened Patterns
  import TestBase

  datatype ParseFail =
    | NotFound(pattern: string)  // ParseError('regex not found: ' + pattern)
    | HeaderMismatch             // `.groups()` on a failed HEADER_RE match (AttributeError)
    | EndOfLines                 // `next(lines)` past the last line (StopIteration)
    | BadNumber(token: string)   // `float(token)` raises ValueError

  predicate IsParseError(f: ParseFail) {
    f.NotFound?
  }

  /** The three patterns `_scan` and `_take_until` are used with. */
  datatype Pattern = BarPat | MaxPointsPat | TestFuncPat

  /** The pattern's source text, as `ParseError` reports it. */
  function PatternText(p: Pattern): string {
    match p
    case BarPat => "={50,}"
    case MaxPointsPat => "Maximum points: (\\d+)"
    case TestFuncPat => "-{3,}\\( (\\w+) \\)-{3,}"
  }

  predicate Matches(p: Pattern, line: string) {
    match p
    case BarPat => IsBar(line)
    case MaxPointsPat => MatchMaxPoints(line).Some?
    case TestFuncPat => MatchTestFunc(line).Some?
  }

  // ---------------------------------------------------------------------
  // _scan and _take_until

  /** `_scan(lines, regex)`: the first line from `from` on that matches, after
      which the iterator stands on the next line. */
  function Scan(lines: seq<string>, from: nat, p: Pattern): (r: Result<nat, ParseFail>)
    requires from <= |lines|
    ensures r.Ok? ==> from <= r.value < |lines| && Matches(p, lines[r.value])
                      && forall j {:trigger Matches(p, lines[j])} :: from <= j < r.value ==> !Matches(p, lines[j])
    ensures r.Err? ==> r.error == NotFound(PatternText(p))
                       && forall j {:trigger Matches(p, lines[j])} :: from <= j < |lines| ==> !Matches(p, lines[j])
    decreases |lines| - from
  {
    if from == |lines| then Err(NotFound(PatternText(p)))
    else if Matches(p, lines[from]) then Ok(from)
    else Scan(lines, from + 1, p)
  }

  /** `_take_until(lines, regex)`: the lines before the first match, and the
      match's position; all remaining lines and `None` when nothing matches. */
  function TakeUntil(lines: seq<string>, from: nat, p: Pattern): (r: (seq<string>, Option<nat>))
    requires from <= |lines|
    ensures r.1.Some? ==> from <= r.1.value < |lines| && Matches(p, lines[r.1.value])
                          && r.0 == lines[from..r.1.value]
    ensures r.1.None? ==> r.0 == lines[from..]
    ensures forall j {:trigger Matches(p, lines[j])} :: from <= j < from + |r.0| ==> !Matches(p, lines[j])
    decreases |lines| - from
  {
    if from == |lines| then ([], None)
    else if Matches(p, lines[from]) then ([], Some(from))
    else
      var rest := TakeUntil(lines, from + 1, p);
      ([lines[from]] + rest.0, rest.1)
  }

  /** The two searches agree: `_take_until` stops where `_scan` would have
      matched, and finds nothing exactly when `_scan` fails. */
  lemma TakeUntilAgreesWithScan(lines: seq<string>, from: nat, p: Pattern)
    requires from <= |lines|
    ensures var t := TakeUntil(lines, from, p);
            var s := Scan(lines, from, p);
            (t.1.Some? <==> s.Ok?) && (s.Ok? ==> t.1.value == s.value)
  {
  }

  /** A matching line with no match before it is what `_scan` finds. */
  lemma ScanFinds(lines: seq<string>, from: nat, p: Pattern, i: nat)
    requires from <= i < |lines| && Matches(p, lines[i])
    requires forall j {:trigger Matches(p, lines[j])} :: from <= j < i ==> !Matches(p, lines[j])
    ensures Scan(lines, from, p) == Ok(i)
  {
  }

  // ---------------------------------------------------------------------
  // Deductions

  function Pow10(n: nat): (r: nat)
    ensures r >= 1
  {
    if n == 0 then 1 else 10 * Pow10(n - 1)
  }

  /** How many digits start at `i`. */
  function Digits(s: string, i: nat): (n: nat)
    requires i <= |s|
    ensures i + n <= |s|
    ensures forall k :: i <= k < i + n ==> IsDigit(s[k])
    ensures i + n == |s| || !IsDigit(s[i + n])
    decreases |s| - i
  {
    if i == |s| || !IsDigit(s[i]) then 0 else 1 + Digits(s, i + 1)
  }

  /** The digits at `i` are fixed by where they stop. */
  lemma {:induction false} DigitsExact(s: string, i: nat, n: nat)
    requires i + n <= |s|
    requires forall k :: i <= k < i + n ==> IsDigit(s[k])
    requires i + n == |s| || !IsDigit(s[i + n])
    ensures Digits(s, i) == n
    decreases n
  {
    if n > 0 {
      DigitsExact(s, i + 1, n - 1);
    }
  }

  /** The number written `whole.frac`, with `places` digits after the dot. */
  function Decimal(whole: nat, frac: nat, places: nat): real {
    whole as real + frac as real / Pow10(places) as real
  }

  /** `float(token)` for a run of digits and dots: one dot at most and at
      least one digit, otherwise `None` (a ValueError). */
  function DecimalValue(tok: string): (r: Option<real>)
    requires IsAmount(tok)
    ensures r.Some? <==> (exists k :: 0 <= k < |tok| && IsDigit(tok[k]))
                         && forall i, j :: 0 <= i < j < |tok| ==> !(tok[i] == '.' && tok[j] == '.')
    ensures r.Some? ==> r.value >= 0.0
  {
    var a := Digits(tok, 0);
    if a == |tok| then
      assert IsDigit(tok[0]);
      Some(DigitsValue(tok) as real)
    else
      assert tok[a] == '.';
      var b := Digits(tok, a + 1);
      if a + 1 + b < |tok| then
        assert tok[a + 1 + b] == '.';
        None
      else if a + b == 0 then
        assert tok == ".";
        None
      else
        assert if a > 0 then IsDigit(tok[0]) else IsDigit(tok[1]);
        assert forall i :: 0 <= i < |tok| && i != a ==> IsDigit(tok[i]);
        Some(Decimal(DigitsValue(tok[..a]), DigitsValue(tok[a + 1..]), b))
  }

  /** A whole number written without a dot reads as itself. */
  lemma DecimalOfDigits(n: nat)
    ensures IsAmount(NatToDigits(n)) && DecimalValue(NatToDigits(n)) == Some(n as real)
  {
    var d := NatToDigits(n);
    DigitsExact(d, 0, |d|);
    DigitsRoundTrip(n);
  }

  /** A written fraction reads as its value: `2.5` is two and a half. */
  lemma DecimalOfFraction()
    ensures DecimalValue("2.5") == Some(2.5)
  {
    var t := "2.5";
    DigitsExact(t, 0, 1);
    DigitsExact(t, 2, 1);
    assert t[..1] == "2" && t[2..] == "5";
    assert DigitsValue("2") == 2 by { assert "2"[..0] == ""; }
    assert DigitsValue("5") == 5 by { assert "5"[..0] == ""; }
  }

  /** A whole number, a dot and any digits read as the number plus the
      digits as a fraction of the matching power of ten. */
  lemma DecimalOfDecimalFraction(a: nat, d: string)
    requires forall k :: 0 <= k < |d| ==> IsDigit(d[k])
    ensures var tok := NatToDigits(a) + "." + d;
            && IsAmount(tok)
            && DecimalValue(tok) == Some(Decimal(a, DigitsValue(d), |d|))
  {
    DigitsRoundTrip(a);
    DecimalOfWritten(NatToDigits(a), d, a);
  }

  /** Digits worth `whole`, a dot and digits: the whole part plus the
      fraction. */
  lemma DecimalOfWritten(w: string, d: string, whole: nat)
    requires |w| >= 1 && forall k :: 0 <= k < |w| ==> IsDigit(w[k])
    requires forall k :: 0 <= k < |d| ==> IsDigit(d[k])
    requires DigitsValue(w) == whole
    ensures IsAmount(w + "." + d)
    ensures DecimalValue(w + "." + d) == Some(Decimal(whole, DigitsValue(d), |d|))
  {
    var tok := w + "." + d;
    FractionLayout(w, d);
    DecimalOfParts(tok, |w|, |d|, whole, DigitsValue(d));
  }

  /** The same layout, with the values of the two sides already known. */
  lemma DecimalOfParts(tok: string, a: nat, b: nat, whole: nat, frac: nat)
    requires IsAmount(tok) && a + 1 + b == |tok| && a + b > 0 && tok[a] == '.'
    requires Digits(tok, 0) == a && Digits(tok, a + 1) == b
    requires forall k :: 0 <= k < a ==> IsDigit(tok[k])
    requires forall k :: a + 1 <= k < |tok| ==> IsDigit(tok[k])
    requires DigitsValue(tok[..a]) == whole && DigitsValue(tok[a + 1..]) == frac
    ensures DecimalValue(tok) == Some(Decimal(whole, frac, b))
  {
    DecimalOfLayout(tok, a, b);
  }

  /** Digits, one dot and digits read as the whole part plus the fraction. */
  lemma DecimalOfLayout(tok: string, a: nat, b: nat)
    requires IsAmount(tok) && a + 1 + b == |tok| && a + b > 0 && tok[a] == '.'
    requires Digits(tok, 0) == a && Digits(tok, a + 1) == b
    ensures forall k :: 0 <= k < a ==> IsDigit(tok[k])
    ensures forall k :: a + 1 <= k < |tok| ==> IsDigit(tok[k])
    ensures DecimalValue(tok) == Some(Decimal(DigitsValue(tok[..a]), DigitsValue(tok[a + 1..]), b))
  {
  }

  /** Digits, a dot, digits: the runs `float` sees and the two sides. */
  lemma FractionLayout(w: string, d: string)
    requires |w| >= 1 && forall k :: 0 <= k < |w| ==> IsDigit(w[k])
    requires forall k :: 0 <= k < |d| ==> IsDigit(d[k])
    ensures var tok := w + "." + d;
            && IsAmount(tok) && tok[|w|] == '.'
            && Digits(tok, 0) == |w| && Digits(tok, |w| + 1) == |d|
            && tok[..|w|] == w && tok[|w| + 1..] == d
  {
    var tok := w + "." + d;
    assert forall k :: 0 <= k < |w| ==> tok[k] == w[k];
    assert forall k :: |w| + 1 <= k < |tok| ==> tok[k] == d[k - |w| - 1];
    DigitsExact(tok, 0, |w|);
    DigitsExact(tok, |w| + 1, |d|);
    assert tok[..|w|] == w;
    assert tok[|w| + 1..] == d;
  }

  /** `sum(float(t) for t in toks)`: a ValueError unless every token is a
      number (`SumAmountsOkIff`; which token is reported:
      `SumAmountsFirstBad`). */
  function SumAmounts(toks: seq<string>): (r: Result<real, ParseFail>)
    requires forall k :: 0 <= k < |toks| ==> IsAmount(toks[k])
    ensures r.Ok? ==> r.value >= 0.0
    ensures r.Err? ==> r.error.BadNumber?
  {
    if |toks| == 0 then Ok(0.0)
    else
      assert forall k :: 1 <= k < |toks| ==> toks[k] == toks[1..][k - 1];
      AddAmount(toks[0], SumAmounts(toks[1..]))
  }

  /** One step of the sum: the token's value added to the sum of the tokens
      after it, or the first ValueError, the token's own coming first. */
  function AddAmount(t: string, rest: Result<real, ParseFail>): (r: Result<real, ParseFail>)
    requires IsAmount(t)
  {
    match DecimalValue(t)
    case None => Err(BadNumber(t))
    case Some(v) => if rest.Err? then rest else Ok(v + rest.value)
  }

  /** The sum succeeds exactly when every token is a number. */
  lemma {:induction false} SumAmountsOkIff(toks: seq<string>)
    requires forall k :: 0 <= k < |toks| ==> IsAmount(toks[k])
    ensures SumAmounts(toks).Ok? <==> forall k :: 0 <= k < |toks| ==> DecimalValue(toks[k]).Some?
  {
    if |toks| > 0 {
      var tail := toks[1..];
      assert forall k :: 1 <= k < |toks| ==> toks[k] == tail[k - 1];
      SumAmountsOkIff(tail);
    }
  }

  /** The sum stops at the first token that is not a number and reports
      that token. */
  lemma {:induction false} SumAmountsFirstBad(toks: seq<string>, k: nat)
    requires forall j :: 0 <= j < |toks| ==> IsAmount(toks[j])
    requires k < |toks| && DecimalValue(toks[k]).None?
    requires forall j :: 0 <= j < k ==> DecimalValue(toks[j]).Some?
    ensures SumAmounts(toks) == Err(BadNumber(toks[k]))
  {
    if k > 0 {
      var tail := toks[1..];
      assert DecimalValue(toks[0]).Some?;
      assert tail[k - 1] == toks[k];
      assert forall j :: 0 <= j < k - 1 ==> tail[j] == toks[j + 1];
      SumAmountsFirstBad(tail, k - 1);
    }
  }

  /** The points a text deducts: every `(( -N ))` in it, summed. */
  function LostOf(text: string): (r: Result<real, ParseFail>)
    ensures r.Ok? ==> r.value >= 0.0
    ensures r.Err? ==> r.error.BadNumber?
  {
    SumAmounts(FindTokens(text))
  }

  /** Text without `((` deducts nothing. */
  lemma LostOfNothing(text: string)
    requires forall k :: 0 <= k < |text| - 1 ==> !(text[k] == '(' && text[k + 1] == '(')
    ensures LostOf(text) == Ok(0.0)
  {
    NoOpenNoTokens(text);
  }

  /** A report that is one written deduction of a whole number loses that
      number. */
  lemma LostOfOneDeduction(pre: nat, n: nat, post: nat)
    ensures LostOf(DeductionText(pre, NatToDigits(n), post)) == Ok(n as real)
  {
    var d := NatToDigits(n);
    var t := DeductionText(pre, d, post);
    DecimalOfDigits(n);
    WrittenDeductionFound(pre, d, post, "");
    assert t + "" == t;
    assert t[|t|..] == [];
    assert FindTokens(t) == [d];
    assert SumAmounts([d]) == Ok(n as real + 0.0) by {
      assert [d][1..] == [];
    }
  }

  /** A deduction after text with no `((` adds its amount to what the text
      after it deducts; an amount that is not a number is the error. */
  lemma LostOfDeductionThen(x: string, pre: nat, amount: string, post: nat, y: string)
    requires IsAmount(amount)
    requires forall k :: 0 <= k < |x| - 1 ==> !(x[k] == '(' && x[k + 1] == '(')
    requires |x| == 0 || x[|x| - 1] != '('
    ensures var r := LostOf(x + DeductionText(pre, amount, post) + y);
            && (DecimalValue(amount).None? ==> r == Err(BadNumber(amount)))
            && (DecimalValue(amount).Some? && LostOf(y).Err? ==> r == LostOf(y))
            && (DecimalValue(amount).Some? && LostOf(y).Ok? ==>
                  r == Ok(DecimalValue(amount).value + LostOf(y).value))
  {
    FindTokensAroundDeduction(x, pre, amount, post, y);
    LostOfTokensCons(x + DeductionText(pre, amount, post) + y, amount, y);
  }

  /** A text whose deductions are `amount` and then those of `y`. */
  lemma LostOfTokensCons(s: string, amount: string, y: string)
    requires IsAmount(amount)
    requires FindTokens(s) == [amount] + FindTokens(y)
    ensures LostOf(s) == AddAmount(amount, LostOf(y))
  {
    SumAmountsCons(amount, FindTokens(y));
  }

  /** The sum of a token and more: the token's value and the rest's sum, or
      the first error. */
  lemma SumAmountsCons(t: string, rest: seq<string>)
    requires IsAmount(t) && forall k :: 0 <= k < |rest| ==> IsAmount(rest[k])
    ensures SumAmounts([t] + rest) == AddAmount(t, SumAmounts(rest))
  {
    assert ([t] + rest)[0] == t && ([t] + rest)[1..] == rest;
  }

  // ---------------------------------------------------------------------
  // parse_feedback

  /** What `parse_feedback` returns: netid, module and earned points. */
  datatype Grade = Grade(netid: string, modName: string, earned: real)

  /** `parse_feedback(feedback)`: find the bar; the next line is the header,
      read with HEADER_RE as written (`literalDot` false) or with its dot
      escaped (`literalDot` true); the line after it is skipped; then the
      maximum is the first `Maximum points:` line, and the earned points are
      the maximum less every deduction in the whole text. */
  function ParseFeedbackWith(feedback: string, literalDot: bool): (r: Result<Grade, ParseFail>)
    ensures r.Ok? ==> IsWord(r.value.netid) && IsWord(r.value.modName)
  {
    var lines := Split(feedback, '\n');
    match Scan(lines, 0, BarPat)
    case Err(e) => Err(e)
    case Ok(b) =>
      if b + 1 >= |lines| then Err(EndOfLines)
      else
        match MatchHeader(lines[b + 1], literalDot)
        case None => Err(HeaderMismatch)
        case Some((netid, modName)) =>
          if b + 2 >= |lines| then Err(EndOfLines)
          else
            match Scan(lines, b + 3, MaxPointsPat)
            case Err(e) => Err(e)
            case Ok(m) =>
              Graded(netid, modName, MatchMaxPoints(lines[m]).value, LostOf(feedback))
  }

  /** `parse_feedback` with the dot of HEADER_RE escaped: the corrected
      parse, which the rest of the model states its properties about. */
  function ParseFeedback(feedback: string): (r: Result<Grade, ParseFail>)
    ensures r.Ok? ==> IsWord(r.value.netid) && IsWord(r.value.modName)
  {
    ParseFeedbackWith(feedback, true)
  }

  /** `max_points - lost_points`, once the deductions have been summed. */
  function Graded(netid: string, modName: string, maxPoints: nat, lost: Result<real, ParseFail>): (r: Result<Grade, ParseFail>) {
    match lost
    case Err(e) => Err(e)
    case Ok(l) => Ok(Grade(netid, modName, maxPoints as real - l))
  }

  /** A text with no bar line is the one `main` reports as unparseable
      before anything else is read. */
  lemma ParseFeedbackNoBarIff(feedback: string)
    ensures (ParseFeedback(feedback) == Err(NotFound(PatternText(BarPat)))) ==>
            (forall j :: 0 <= j < |Split(feedback, '\n')| ==> !IsBar(Split(feedback, '\n')[j]))
    ensures (forall j :: 0 <= j < |Split(feedback, '\n')| ==> !IsBar(Split(feedback, '\n')[j])) ==>
            (ParseFeedback(feedback) == Err(NotFound(PatternText(BarPat))))
  {
    var lines := Split(feedback, '\n');
    if Scan(lines, 0, BarPat).Ok? {
      assert PatternText(MaxPointsPat) != PatternText(BarPat) by {
        assert PatternText(MaxPointsPat)[0] != PatternText(BarPat)[0];
      }
      var b := Scan(lines, 0, BarPat).value;
      assert IsBar(lines[b]);
      if b + 2 < |lines| && MatchHeader(lines[b + 1], true).Some? {
        var s := Scan(lines, b + 3, MaxPointsPat);
        assert s.Err? ==> ParseFeedback(feedback) == Err(NotFound(PatternText(MaxPointsPat)));
        assert s.Ok? ==> ParseFeedback(feedback).Ok? || ParseFeedback(feedback).error.BadNumber?;
      }
      assert ParseFeedback(feedback) != Err(NotFound(PatternText(BarPat)));
      assert !(forall j :: 0 <= j < |Split(feedback, '\n')| ==> !IsBar(Split(feedback, '\n')[j]));
    } else {
      forall j | 0 <= j < |lines| ensures !IsBar(lines[j]) {
        assert !Matches(BarPat, lines[j]);
      }
    }
  }

  /** `parse_feedback` on a text whose first bar is line `b`, whose next
      line is a header for `dirs + netid` and `modName`, and whose first
      `Maximum points:` line from `b + 3` on is line `m`, reading `k`: the
      grade is `k` less the deductions of the whole text, or the error of
      reading a deduction. */
  lemma ParseFeedbackSteps(feedback: string, b: nat, dirs: string, netid: string, modName: string,
                           m: nat, k: nat)
    requires var lines := Split(feedback, '\n');
             && b + 3 <= m < |lines|
             && IsBar(lines[b]) && (forall j :: 0 <= j < b ==> !IsBar(lines[j]))
             && HeaderShape(lines[b + 1], dirs, netid, modName)
             && MatchMaxPoints(lines[m]) == Some(k)
             && (forall j :: b + 3 <= j < m ==> MatchMaxPoints(lines[j]).None?)
    ensures LostOf(feedback).Ok? ==>
              ParseFeedback(feedback) == Ok(Grade(netid, modName, k as real - LostOf(feedback).value))
    ensures LostOf(feedback).Err? ==> ParseFeedback(feedback) == Err(LostOf(feedback).error)
  {
    ParseFeedbackIsGraded(feedback, b, dirs, netid, modName, m, k);
    GradedCases(netid, modName, k, LostOf(feedback));
  }

  /** The same steps, before the deductions are looked at. */
  lemma ParseFeedbackIsGraded(feedback: string, b: nat, dirs: string, netid: string, modName: string,
                              m: nat, k: nat)
    requires var lines := Split(feedback, '\n');
             && b + 3 <= m < |lines|
             && IsBar(lines[b]) && (forall j :: 0 <= j < b ==> !IsBar(lines[j]))
             && HeaderShape(lines[b + 1], dirs, netid, modName)
             && MatchMaxPoints(lines[m]) == Some(k)
             && (forall j :: b + 3 <= j < m ==> MatchMaxPoints(lines[j]).None?)
    ensures ParseFeedback(feedback) == Graded(netid, modName, k, LostOf(feedback))
  {
    var lines := Split(feedback, '\n');
    FirstBarFound(lines, b);
    HeaderEscapedReadsLastTwo(lines[b + 1], dirs, netid, modName);
    FirstMaxFound(lines, b + 3, m);
  }

  /** A report for `hw/jd42/pyramid.py`: as written, `parse_feedback`
      credits netid `hw` with module `jd42`; corrected, netid `jd42` with
      module `pyramid`. */
  lemma ParseFeedbackOnMisreadLine(feedback: string, b: nat, m: nat, k: nat)
    requires var lines := Split(feedback, '\n');
             && b + 3 <= m < |lines|
             && IsBar(lines[b]) && (forall j :: 0 <= j < b ==> !IsBar(lines[j]))
             && lines[b + 1] == MisreadLine
             && MatchMaxPoints(lines[m]) == Some(k)
             && (forall j :: b + 3 <= j < m ==> MatchMaxPoints(lines[j]).None?)
    ensures ParseFeedbackWith(feedback, false) == Graded("hw", "jd42", k, LostOf(feedback))
    ensures ParseFeedback(feedback) == Graded("jd42", "pyramid", k, LostOf(feedback))
  {
    var lines := Split(feedback, '\n');
    FirstBarFound(lines, b);
    HeaderAsWrittenMisreads();
    HeaderEscapedOnMisreadLine();
    FirstMaxFound(lines, b + 3, m);
  }

  /** The grade is the maximum less the loss, or the loss's error. */
  lemma GradedCases(netid: string, modName: string, k: nat, lost: Result<real, ParseFail>)
    ensures lost.Ok? ==> Graded(netid, modName, k, lost) == Ok(Grade(netid, modName, k as real - lost.value))
    ensures lost.Err? ==> Graded(netid, modName, k, lost) == Err(lost.error)
  {
  }

  /** With a bar and a header but no `Maximum points:` line after them, the
      parse fails with the ParseError of MAX_POINTS_RE. */
  lemma ParseFeedbackNoMaxPoints(feedback: string, b: nat, dirs: string, netid: string, modName: string)
    requires var lines := Split(feedback, '\n');
             && b + 2 < |lines|
             && IsBar(lines[b]) && (forall j :: 0 <= j < b ==> !IsBar(lines[j]))
             && HeaderShape(lines[b + 1], dirs, netid, modName)
             && (forall j :: b + 3 <= j < |lines| ==> MatchMaxPoints(lines[j]).None?)
    ensures ParseFeedback(feedback) == Err(NotFound(PatternText(MaxPointsPat)))
  {
    var lines := Split(feedback, '\n');
    FirstBarFound(lines, b);
    HeaderEscapedReadsLastTwo(lines[b + 1], dirs, netid, modName);
  }

  /** The first bar is what `_scan` finds first. */
  lemma FirstBarFound(lines: seq<string>, b: nat)
    requires b < |lines| && IsBar(lines[b]) && forall j :: 0 <= j < b ==> !IsBar(lines[j])
    ensures Scan(lines, 0, BarPat) == Ok(b)
  {
    forall j | 0 <= j < b ensures !Matches(BarPat, lines[j]) {
    }
    ScanFinds(lines, 0, BarPat, b);
  }

  /** The first `Maximum points:` line from `from` on is what `_scan` finds. */
  lemma FirstMaxFound(lines: seq<string>, from: nat, m: nat)
    requires from <= m < |lines| && MatchMaxPoints(lines[m]).Some?
    requires forall j :: from <= j < m ==> MatchMaxPoints(lines[j]).None?
    ensures Scan(lines, from, MaxPointsPat) == Ok(m)
  {
    forall j | from <= j < m ensures !Matches(MaxPointsPat, lines[j]) {
    }
    ScanFinds(lines, from, MaxPointsPat, m);
  }

  /** Whenever the parse succeeds, the earned points are a `Maximum points:`
      line's number less the deductions of the whole text, which are never
      negative. */
  lemma ParseFeedbackEarnedAtMostMax(feedback: string)
    requires ParseFeedback(feedback).Ok?
    ensures LostOf(feedback).Ok? && LostOf(feedback).value >= 0.0
    ensures exists j :: 0 <= j < |Split(feedback, '\n')| && MatchMaxPoints(Split(feedback, '\n')[j]).Some?
                        && ParseFeedback(feedback).value.earned
                             == MatchMaxPoints(Split(feedback, '\n')[j]).value as real - LostOf(feedback).value
  {
    var lines := Split(feedback, '\n');
    var b := Scan(lines, 0, BarPat).value;
    var hd := MatchHeader(lines[b + 1], true).value;
    var m := Scan(lines, b + 3, MaxPointsPat).value;
    assert MatchMaxPoints(lines[m]).Some?;
    assert ParseFeedback(feedback) == Graded(hd.0, hd.1, MatchMaxPoints(lines[m]).value, LostOf(feedback));
    assert LostOf(feedback).Ok?;
    assert 0 <= m < |lines| && MatchMaxPoints(lines[m]).Some?
           && ParseFeedback(feedback).value.earned
                == MatchMaxPoints(lines[m]).value as real - LostOf(feedback).value;
  }

  /** No line of the report contains a newline, so splitting the report
      gives its lines back. */
  lemma ReportLinesAreLines(dirs: string, netid: string, modName: string, k: nat,
                            mid: seq<string>, body: seq<string>)
    requires forall q :: 0 <= q < |dirs| ==> IsWordOrSlash(dirs[q])
    requires IsWord(netid) && IsWord(modName)
    requires forall j :: 0 <= j < |mid| ==> '\n' !in mid[j]
    requires forall j :: 0 <= j < |body| ==> '\n' !in body[j]
    ensures var lines := TestBase.OpeningLines(dirs + netid, modName) + mid
                         + [MaxPointsPrefix + NatToDigits(k)] + body;
            Split(Join(lines, "\n"), '\n') == lines
  {
    var opening := TestBase.OpeningLines(dirs + netid, modName);
    var maxLine := MaxPointsPrefix + NatToDigits(k);
    var lines := opening + mid + [maxLine] + body;
    var path := dirs + netid;
    assert forall q :: 0 <= q < |path| ==> IsWordOrSlash(path[q]);
    assert '\n' !in opening[3] by {
      var header := opening[3];
      assert header == HeaderPrefix + path + "/" + modName + ".py";
      assert forall q :: 0 <= q < |header| ==> header[q] != '\n';
    }
    assert '\n' !in Repeat('=', 70);
    assert '\n' !in maxLine by {
      assert forall q :: 0 <= q < |maxLine| ==> maxLine[q] != '\n';
    }
    forall j | 0 <= j < |lines| ensures '\n' !in lines[j] {
      if j < 5 {
        assert lines[j] == opening[j];
      } else if j < 5 + |mid| {
        assert lines[j] == mid[j - 5];
      } else if j == 5 + |mid| {
        assert lines[j] == maxLine;
      } else {
        assert lines[j] == body[j - 6 - |mid|];
      }
    }
    JoinThenSplit(lines, '\n');
  }

  /** In a report, the first bar is the third line. */
  lemma ReportBarAt(lines: seq<string>)
    requires |lines| >= 3 && lines[0] == "" && lines[1] == "" && lines[2] == Repeat('=', 70)
    ensures Scan(lines, 0, BarPat) == Ok(2)
    ensures IsBar(lines[2]) && forall j :: 0 <= j < 2 ==> !IsBar(lines[j])
  {
    BannerIsBar("");
    assert Repeat('=', 70) + "" == Repeat('=', 70);
    ScanFinds(lines, 0, BarPat, 2);
  }

  /** In a report, the first maximum after the header is the written one. */
  lemma ReportMaxAt(lines: seq<string>, k: nat, nmid: nat)
    requires |lines| >= 6 + nmid
    requires forall j :: 5 <= j < 5 + nmid ==> MatchMaxPoints(lines[j]).None?
    requires lines[5 + nmid] == MaxPointsPrefix + NatToDigits(k)
    ensures Scan(lines, 5, MaxPointsPat) == Ok(5 + nmid)
    ensures MatchMaxPoints(lines[5 + nmid]) == Some(k)
  {
    var maxLine := MaxPointsPrefix + NatToDigits(k);
    MaxPointsRoundTrip(k, "");
    assert maxLine + "" == maxLine;
    ScanFinds(lines, 5, MaxPointsPat, 5 + nmid);
  }

  /** The header line of a report names the netid and the module. */
  lemma ReportHeaderRead(header: string, dirs: string, netid: string, modName: string)
    requires IsWord(netid) && IsWord(modName)
    requires forall q :: 0 <= q < |dirs| ==> IsWordOrSlash(dirs[q])
    requires |dirs| == 0 || dirs[|dirs| - 1] == '/'
    requires header == HeaderPrefix + dirs + netid + "/" + modName + ".py"
    ensures HeaderShape(header, dirs, netid, modName)
    ensures MatchHeader(header, true) == Some((netid, modName))
  {
    assert HeaderShape(header, dirs, netid, modName) by {
      assert header[..|header|] == header;
    }
    HeaderEscapedReadsLastTwo(header, dirs, netid, modName);
  }

  /** `parse_feedback` on a text whose lines are laid out as a report. */
  lemma ParseReportLines(text: string, lines: seq<string>, dirs: string, netid: string, modName: string,
                         k: nat, nmid: nat)
    requires Split(text, '\n') == lines
    requires IsWord(netid) && IsWord(modName)
    requires forall q :: 0 <= q < |dirs| ==> IsWordOrSlash(dirs[q])
    requires |dirs| == 0 || dirs[|dirs| - 1] == '/'
    requires && |lines| >= 6 + nmid
             && lines[0] == "" && lines[1] == "" && lines[2] == Repeat('=', 70)
             && lines[3] == HeaderPrefix + dirs + netid + "/" + modName + ".py"
             && (forall j :: 5 <= j < 5 + nmid ==> MatchMaxPoints(lines[j]).None?)
             && lines[5 + nmid] == MaxPointsPrefix + NatToDigits(k)
    ensures ParseFeedback(text) == Graded(netid, modName, k, LostOf(text))
  {
    ReportBarAt(lines);
    ReportHeaderRead(lines[3], dirs, netid, modName);
    ReportMaxAt(lines, k, nmid);
    ParseFeedbackSteps(text, 2, dirs, netid, modName, 5 + nmid, k);
  }

  /** A report as `TestBase` opens it — two blank lines, the bar, the
      `Automated testing for` line, the bar — followed by lines without a
      maximum, the maximum, and the rest, is read as the last directory of
      the path, the module, and the maximum less the deductions. */
  lemma ParseFeedbackReadsReport(dirs: string, netid: string, modName: string, k: nat,
                                 mid: seq<string>, body: seq<string>)
    requires IsWord(netid) && IsWord(modName)
    requires forall q :: 0 <= q < |dirs| ==> IsWordOrSlash(dirs[q])
    requires |dirs| == 0 || dirs[|dirs| - 1] == '/'
    requires forall j :: 0 <= j < |mid| ==> '\n' !in mid[j] && MatchMaxPoints(mid[j]).None?
    requires forall j :: 0 <= j < |body| ==> '\n' !in body[j]
    ensures var lines := TestBase.OpeningLines(dirs + netid, modName) + mid
                         + [MaxPointsPrefix + NatToDigits(k)] + body;
            var text := Join(lines, "\n");
            ParseFeedback(text) == Graded(netid, modName, k, LostOf(text))
  {
    var lines := TestBase.OpeningLines(dirs + netid, modName) + mid
                 + [MaxPointsPrefix + NatToDigits(k)] + body;
    var text := Join(lines, "\n");
    ReportLayout(dirs, netid, modName, k, mid, body, lines);
    ReportLinesAreLines(dirs, netid, modName, k, mid, body);
    ParseReportLines(text, lines, dirs, netid, modName, k, |mid|);
  }

  /** Where each part of a report sits among its lines. */
  lemma ReportLayout(dirs: string, netid: string, modName: string, k: nat,
                     mid: seq<string>, body: seq<string>, lines: seq<string>)
    requires forall j :: 0 <= j < |mid| ==> MatchMaxPoints(mid[j]).None?
    requires lines == TestBase.OpeningLines(dirs + netid, modName) + mid
                      + [MaxPointsPrefix + NatToDigits(k)] + body
    ensures && |lines| >= 6 + |mid|
            && lines[0] == "" && lines[1] == "" && lines[2] == Repeat('=', 70)
            && lines[3] == HeaderPrefix + dirs + netid + "/" + modName + ".py"
            && (forall j :: 5 <= j < 5 + |mid| ==> MatchMaxPoints(lines[j]).None?)
            && lines[5 + |mid|] == MaxPointsPrefix + NatToDigits(k)
  {
    assert forall j :: 5 <= j < 5 + |mid| ==> lines[j] == mid[j - 5];
  }

  // ---------------------------------------------------------------------
  // _parse_test_func and _lost_points

  /** What `_parse_test_func` gives back: the points its section deducts,
      the name of the next test function if another header was found, and
      where the iterator then stands. When no header follows, the lines are
      exhausted and `resume` is `|lines| + 1`, one past any index; `_lost_points`
      stops there and never reads it. */
  datatype Section = Section(lost: real, next: Option<string>, resume: nat)

  /** `_parse_test_func(lines)`: the section runs to the next test-function
      line; its lines are joined with no separator before the deductions in
      it are summed. */
  function ParseTestFunc(lines: seq<string>, from: nat): (r: Result<Section, ParseFail>)
    requires from <= |lines|
    ensures r.Ok? ==> r.value.lost >= 0.0 && from < r.value.resume <= |lines| + 1
    ensures r.Ok? && r.value.next.Some? ==>
              r.value.resume <= |lines| && MatchTestFunc(lines[r.value.resume - 1]) == r.value.next
              && forall j {:trigger Matches(TestFuncPat, lines[j])} :: from <= j < r.value.resume - 1 ==> !Matches(TestFuncPat, lines[j])
    ensures r.Ok? && r.value.next.None? ==> forall j {:trigger Matches(TestFuncPat, lines[j])} :: from <= j < |lines| ==> !Matches(TestFuncPat, lines[j])
  {
    var (taken, found) := TakeUntil(lines, from, TestFuncPat);
    match LostOf(Concat(taken))
    case Err(e) => Err(e)
    case Ok(lost) =>
      match found
      case None => Ok(Section(lost, None, |lines| + 1))
      case Some(i) => Ok(Section(lost, MatchTestFunc(lines[i]), i + 1))
  }

  /** A section is the text up to the next test-function line: its value is
      what that text deducts, its error that text's error, and it resumes
      just past the next test-function line. */
  lemma ParseTestFuncSection(lines: seq<string>, from: nat)
    requires from <= |lines|
    ensures var r := ParseTestFunc(lines, from);
            && (r.Ok? ==> r.value.resume == NextFuncLine(lines, from) + 1
                          && (r.value.next.Some? <==> NextFuncLine(lines, from) < |lines|))
            && (r.Ok? ==> LostOf(SectionText(lines, from)) == Ok(r.value.lost))
            && (r.Err? ==> LostOf(SectionText(lines, from)) == Err(r.error))
  {
    TakeUntilStopsAtNext(lines, from);
  }

  /** The rest of `_lost_points` once `name`'s header has been read: one
      entry for `name`, then one for each test-function line after it. */
  function Sections(lines: seq<string>, from: nat, name: string): (r: Result<seq<(string, real)>, ParseFail>)
    requires from <= |lines|
    ensures r.Ok? ==> Names(r.value) == [name] + FuncNames(lines, from)
    ensures r.Ok? ==> LossesNonNeg(r.value)
    ensures r.Err? ==> r.error.BadNumber?
    decreases |lines| - from
  {
    match ParseTestFunc(lines, from)
    case Err(e) => assert e.BadNumber?; Err(e)
    case Ok(sec) =>
      if sec.next.None? then
        FuncNamesSkip(lines, from, |lines|);
        NamesCons((name, sec.lost), []);
        Ok([(name, sec.lost)])
      else
        var i := sec.resume - 1;
        FuncNamesSkip(lines, from, i);
        FuncNamesAt(lines, i, sec.next.value);
        match Sections(lines, sec.resume, sec.next.value)
        case Err(e) => Err(e)
        case Ok(rest) =>
          NamesCons((name, sec.lost), rest);
          LossesNonNegCons((name, sec.lost), rest);
          Ok([(name, sec.lost)] + rest)
  }

  /** Every entry deducts a non-negative number of points. */
  predicate LossesNonNeg(entries: seq<(string, real)>) {
    forall k :: 0 <= k < |entries| ==> entries[k].1 >= 0.0
  }

  /** A non-negative loss in front of non-negative losses. */
  lemma LossesNonNegCons(e: (string, real), rest: seq<(string, real)>)
    requires e.1 >= 0.0 && LossesNonNeg(rest)
    ensures LossesNonNeg([e] + rest)
  {
    forall k | 0 <= k < |[e] + rest|
      ensures ([e] + rest)[k].1 >= 0.0
    {
      if k > 0 {
        assert ([e] + rest)[k] == rest[k - 1];
      }
    }
  }

  /** `list(_lost_points(lines))`: each test function with the points its
      section deducts, in report order, one entry per test-function line;
      ParseError exactly when there is no such line. */
  function LostPoints(lines: seq<string>, from: nat): (r: Result<seq<(string, real)>, ParseFail>)
    requires from <= |lines|
    ensures r.Ok? ==> Names(r.value) == FuncNames(lines, from)
    ensures r.Ok? ==> LossesNonNeg(r.value)
    ensures r.Err? && r.error.NotFound? <==> FuncNames(lines, from) == []
    ensures r.Err? && r.error.NotFound? ==> r.error == NotFound(PatternText(TestFuncPat))
  {
    match Scan(lines, from, TestFuncPat)
    case Err(e) =>
      FuncNamesSkip(lines, from, |lines|);
      Err(e)
    case Ok(i) =>
      var name := MatchTestFunc(lines[i]).value;
      FuncNamesSkip(lines, from, i);
      FuncNamesAt(lines, i, name);
      Sections(lines, i + 1, name)
  }

  /** Reference: the names on the test-function lines from `from` on. */
  function FuncNames(lines: seq<string>, from: nat): seq<string>
    requires from <= |lines|
    decreases |lines| - from
  {
    if from == |lines| then []
    else
      match MatchTestFunc(lines[from])
      case Some(n) => [n] + FuncNames(lines, from + 1)
      case None => FuncNames(lines, from + 1)
  }

  function Names(entries: seq<(string, real)>): seq<string> {
    if |entries| == 0 then [] else [entries[0].0] + Names(entries[1..])
  }

  lemma NamesCons(e: (string, real), rest: seq<(string, real)>)
    ensures Names([e] + rest) == [e.0] + Names(rest)
  {
    assert ([e] + rest)[1..] == rest;
  }

  /** Lines that do not name a test function do not change the names. */
  lemma {:induction false} FuncNamesSkip(lines: seq<string>, from: nat, to: nat)
    requires from <= to <= |lines|
    requires forall j {:trigger Matches(TestFuncPat, lines[j])} :: from <= j < to ==> !Matches(TestFuncPat, lines[j])
    ensures FuncNames(lines, from) == FuncNames(lines, to)
    decreases |lines| - from
  {
    if from < to {
      assert !Matches(TestFuncPat, lines[from]);
      FuncNamesPass(lines, from);
      FuncNamesSkip(lines, from + 1, to);
    }
  }

  /** Any other line contributes nothing. */
  lemma FuncNamesPass(lines: seq<string>, i: nat)
    requires i < |lines| && MatchTestFunc(lines[i]).None?
    ensures FuncNames(lines, i) == FuncNames(lines, i + 1)
  {
  }

  /** A test-function line contributes its name. */
  lemma FuncNamesAt(lines: seq<string>, i: nat, name: string)
    requires i < |lines| && MatchTestFunc(lines[i]) == Some(name)
    ensures FuncNames(lines, i) == [name] + FuncNames(lines, i + 1)
  {
  }

  /** Reference: the first test-function line from `from` on, or
      `|lines|` when there is none. */
  function NextFuncLine(lines: seq<string>, from: nat): (r: nat)
    requires from <= |lines|
    ensures from <= r <= |lines|
    ensures r < |lines| ==> Matches(TestFuncPat, lines[r])
    ensures forall j {:trigger Matches(TestFuncPat, lines[j])} :: from <= j < r ==> !Matches(TestFuncPat, lines[j])
    decreases |lines| - from
  {
    if from == |lines| || Matches(TestFuncPat, lines[from]) then from
    else NextFuncLine(lines, from + 1)
  }

  /** Reference: the text of the section that starts at `from`, its lines
      up to the next test-function line joined with no separator. */
  function SectionText(lines: seq<string>, from: nat): string
    requires from <= |lines|
  {
    Concat(lines[from..NextFuncLine(lines, from)])
  }

  /** Reference: the text of the section after each test-function line from
      `from` on, in order; one entry for each of `FuncNames(lines, from)`. */
  function SectionTexts(lines: seq<string>, from: nat): seq<string>
    requires from <= |lines|
    decreases |lines| - from
  {
    if from == |lines| then []
    else if Matches(TestFuncPat, lines[from]) then [SectionText(lines, from + 1)] + SectionTexts(lines, from + 1)
    else SectionTexts(lines, from + 1)
  }

  /** The first test-function line is fixed by the lines before it. */
  lemma NextFuncLineIs(lines: seq<string>, from: nat, i: nat)
    requires from <= i <= |lines|
    requires i < |lines| ==> Matches(TestFuncPat, lines[i])
    requires forall j {:trigger Matches(TestFuncPat, lines[j])} :: from <= j < i ==> !Matches(TestFuncPat, lines[j])
    ensures NextFuncLine(lines, from) == i
  {
  }

  /** `_take_until` with TEST_FUNC_RE takes exactly the lines before the
      next test-function line. */
  lemma TakeUntilStopsAtNext(lines: seq<string>, from: nat)
    requires from <= |lines|
    ensures var t := TakeUntil(lines, from, TestFuncPat);
            && t.0 == lines[from..NextFuncLine(lines, from)]
            && (t.1.Some? <==> NextFuncLine(lines, from) < |lines|)
            && (t.1.Some? ==> t.1.value == NextFuncLine(lines, from))
  {
    var t := TakeUntil(lines, from, TestFuncPat);
    var i := if t.1.Some? then t.1.value else |lines|;
    assert |t.0| == i - from;
    NextFuncLineIs(lines, from, i);
  }

  /** Lines that do not name a test function add no section. */
  lemma {:induction false} SectionTextsSkip(lines: seq<string>, from: nat, to: nat)
    requires from <= to <= |lines|
    requires forall j {:trigger Matches(TestFuncPat, lines[j])} :: from <= j < to ==> !Matches(TestFuncPat, lines[j])
    ensures SectionTexts(lines, from) == SectionTexts(lines, to)
    decreases |lines| - from
  {
    if from < to {
      assert !Matches(TestFuncPat, lines[from]);
      SectionTextsSkip(lines, from + 1, to);
    }
  }

  /** A test-function line opens the next section. */
  lemma SectionTextsAt(lines: seq<string>, i: nat)
    requires i < |lines| && Matches(TestFuncPat, lines[i])
    ensures SectionTexts(lines, i) == [SectionText(lines, i + 1)] + SectionTexts(lines, i + 1)
  {
  }

  /** What each of `texts` deducts, in order. */
  function LostsOf(texts: seq<string>): (r: seq<Result<real, ParseFail>>)
    ensures |r| == |texts|
  {
    if texts == [] then [] else [LostOf(texts[0])] + LostsOf(texts[1..])
  }

  /** The losses in `r` are, entry by entry, the values in `vs`; an error in
      `r` is the first error in `vs`. */
  ghost predicate Along(vs: seq<Result<real, ParseFail>>, r: Result<seq<(string, real)>, ParseFail>) {
    && (r.Ok? ==> |r.value| == |vs| && forall k :: 0 <= k < |vs| ==> vs[k] == Ok(r.value[k].1))
    && (r.Err? ==> exists k :: 0 <= k < |vs| && vs[k] == Err(r.error)
                               && forall j :: 0 <= j < k ==> vs[j].Ok?)
  }

  /** Prepending an entry that agrees with a value that is not an error
      keeps `Along`. */
  lemma AlongCons(v: Result<real, ParseFail>, name: string, vs: seq<Result<real, ParseFail>>, rest: Result<seq<(string, real)>, ParseFail>)
    requires v.Ok?
    requires Along(vs, rest)
    ensures Along([v] + vs, if rest.Ok? then Ok([(name, v.value)] + rest.value) else rest)
  {
    var all := [v] + vs;
    if rest.Ok? {
      var r := [(name, v.value)] + rest.value;
      forall k | 0 <= k < |all| ensures all[k] == Ok(r[k].1) {
        if k > 0 {
          assert all[k] == vs[k - 1] && r[k] == rest.value[k - 1];
        }
      }
    } else {
      var k :| 0 <= k < |vs| && vs[k] == Err(rest.error) && forall j :: 0 <= j < k ==> vs[j].Ok?;
      assert all[k + 1] == vs[k];
      assert forall j :: 1 <= j < k + 1 ==> all[j] == vs[j - 1];
    }
  }

  /** A first text with a deduction that is not a number stops the list
      with that error, whatever follows. */
  lemma AlongFirstErr(t: string, ts: seq<string>, e: ParseFail)
    requires LostOf(t) == Err(e)
    ensures Along(LostsOf([t] + ts), Err(e))
  {
    assert ([t] + ts)[0] == t;
    assert LostsOf([t] + ts)[0] == Err(e);
  }

  /** A last text that deducts `lost` gives the one entry `(name, lost)`. */
  lemma AlongLast(t: string, lost: real, name: string)
    requires LostOf(t) == Ok(lost)
    ensures Along(LostsOf([t]), Ok([(name, lost)]))
  {
    assert [t][1..] == [];
    assert LostsOf([t]) == [Ok(lost)];
  }

  /** A text that deducts `lost`, in front of texts that agree with `rest`,
      adds the entry `(name, lost)` in front of `rest`. */
  lemma AlongNext(t: string, ts: seq<string>, name: string, lost: real, rest: Result<seq<(string, real)>, ParseFail>)
    requires LostOf(t) == Ok(lost)
    requires Along(LostsOf(ts), rest)
    ensures Along(LostsOf([t] + ts), if rest.Ok? then Ok([(name, lost)] + rest.value) else rest)
  {
    assert ([t] + ts)[0] == t && ([t] + ts)[1..] == ts;
    AlongCons(LostOf(t), name, LostsOf(ts), rest);
  }

  /** `_lost_points` after the header at `from - 1`: each section's value is
      what its text deducts, and the first section whose text has a
      deduction that is not a number stops it with that error. */
  lemma {:induction false} SectionsLost(lines: seq<string>, from: nat, name: string)
    requires from <= |lines|
    ensures Along(LostsOf([SectionText(lines, from)] + SectionTexts(lines, from)), Sections(lines, from, name))
    decreases |lines| - from, 1
  {
    var sec := ParseTestFunc(lines, from);
    if sec.Err? {
      SectionsLostErr(lines, from, name);
    } else if sec.value.next.None? {
      SectionsLostLast(lines, from, name);
    } else {
      SectionsLostNext(lines, from, name);
    }
  }

  /** The section's own text has a deduction that is not a number. */
  lemma SectionsLostErr(lines: seq<string>, from: nat, name: string)
    requires from <= |lines| && ParseTestFunc(lines, from).Err?
    ensures Along(LostsOf([SectionText(lines, from)] + SectionTexts(lines, from)), Sections(lines, from, name))
  {
    var sec := ParseTestFunc(lines, from);
    ParseTestFuncSection(lines, from);
    assert Sections(lines, from, name) == Err(sec.error);
    AlongFirstErr(SectionText(lines, from), SectionTexts(lines, from), sec.error);
  }

  /** The last section: no test-function line follows. */
  lemma SectionsLostLast(lines: seq<string>, from: nat, name: string)
    requires from <= |lines| && ParseTestFunc(lines, from).Ok? && ParseTestFunc(lines, from).value.next.None?
    ensures Along(LostsOf([SectionText(lines, from)] + SectionTexts(lines, from)), Sections(lines, from, name))
  {
    var sec := ParseTestFunc(lines, from).value;
    ParseTestFuncSection(lines, from);
    SectionTextsSkip(lines, from, |lines|);
    assert Sections(lines, from, name) == Ok([(name, sec.lost)]);
    AlongLast(SectionText(lines, from), sec.lost, name);
    assert [SectionText(lines, from)] + SectionTexts(lines, from) == [SectionText(lines, from)];
  }

  /** A section followed by another test-function line: its entry comes
      before those of the sections after that line. */
  lemma {:induction false} SectionsLostNext(lines: seq<string>, from: nat, name: string)
    requires from <= |lines| && ParseTestFunc(lines, from).Ok? && ParseTestFunc(lines, from).value.next.Some?
    ensures Along(LostsOf([SectionText(lines, from)] + SectionTexts(lines, from)), Sections(lines, from, name))
    decreases |lines| - from, 0
  {
    var sec := ParseTestFunc(lines, from).value;
    var i, next := NextFuncLine(lines, from), sec.next.value;
    ParseTestFuncSection(lines, from);
    SectionsLost(lines, i + 1, next);
    SectionTextsSkip(lines, from, i);
    SectionTextsAt(lines, i);
    var rest := Sections(lines, i + 1, next);
    assert Sections(lines, from, name) == if rest.Ok? then Ok([(name, sec.lost)] + rest.value) else rest;
    AlongNext(SectionText(lines, from), SectionTexts(lines, from), name, sec.lost, rest);
  }

  /** `list(_lost_points(lines))`: one value per section after a
      test-function line, each what that section's text deducts; a
      deduction that is not a number stops the list with the first such
      section's error; ParseError means there is no section at all. */
  lemma LostPointsLost(lines: seq<string>, from: nat)
    requires from <= |lines|
    ensures LostPoints(lines, from).Err? && LostPoints(lines, from).error.NotFound? ==> SectionTexts(lines, from) == []
    ensures !(LostPoints(lines, from).Err? && LostPoints(lines, from).error.NotFound?) ==>
              Along(LostsOf(SectionTexts(lines, from)), LostPoints(lines, from))
  {
    match Scan(lines, from, TestFuncPat)
    case Err(e) =>
      SectionTextsSkip(lines, from, |lines|);
      assert LostPoints(lines, from) == Err(e);
    case Ok(i) =>
      var name := MatchTestFunc(lines[i]).value;
      SectionTextsSkip(lines, from, i);
      SectionTextsAt(lines, i);
      SectionsLost(lines, i + 1, name);
      var texts := SectionTexts(lines, from);
      assert texts == [SectionText(lines, i + 1)] + SectionTexts(lines, i + 1);
      LostPointsFrom(lines, from, i, name);
  }

  /** `_lost_points` hands the lines after the first header to the
      sections. */
  lemma LostPointsFrom(lines: seq<string>, from: nat, i: nat, name: string)
    requires from <= |lines| && Scan(lines, from, TestFuncPat) == Ok(i)
    requires MatchTestFunc(lines[i]) == Some(name)
    ensures LostPoints(lines, from) == Sections(lines, i + 1, name)
  {
    FuncNamesSkip(lines, from, i);
    FuncNamesAt(lines, i, name);
  }

  /** The centred name has dashes up to a blank, never `(`, and no
      newline. */
  lemma CenteredNameIsNoTestFunc(name: string)
    requires IsWord(name)
    ensures var c := TestBase.Center(" " + name + " ", 30, '-');
            MatchTestFunc(c).None? && '\n' !in c
  {
    CenteredNameDashes(name);
    CenteredNameOneLine(name);
  }

  lemma CenteredNameDashes(name: string)
    ensures var c := TestBase.Center(" " + name + " ", 30, '-');
            MatchTestFunc(c).None?
  {
    var s := " " + name + " ";
    var c := TestBase.Center(s, 30, '-');
    var left := (|c| - |s|) / 2;
    assert c[left] == s[0] == ' ';
    RunExact(c, 0, left, IsDash);
  }

  lemma CenteredNameOneLine(name: string)
    requires IsWord(name)
    ensures '\n' !in TestBase.Center(" " + name + " ", 30, '-')
  {
    var s := " " + name + " ";
    assert forall q :: 0 <= q < |s| ==> s[q] != '\n';
    PaddedHasNoNewline(TestBase.Center(s, 30, '-'), s, '-');
  }

  /** Text padded with a fill character around `s` has a newline only if
      `s` has one. */
  lemma PaddedHasNoNewline(c: string, s: string, fill: char)
    requires fill != '\n' && forall q :: 0 <= q < |s| ==> s[q] != '\n'
    requires |c| >= |s|
    requires var left := (|c| - |s|) / 2;
             && c[left..left + |s|] == s
             && (forall k :: 0 <= k < left ==> c[k] == fill)
             && (forall k :: left + |s| <= k < |c| ==> c[k] == fill)
    ensures '\n' !in c
  {
    var left := (|c| - |s|) / 2;
    forall q | 0 <= q < |c| ensures c[q] != '\n' {
      if left <= q < left + |s| {
        assert c[q] == c[left..left + |s|][q - left];
      }
    }
  }

  /** The per-test header `run_test` writes, `'{:-^30}'.format(' name ')`,
      has no parentheses around the name, so TEST_FUNC_RE never matches any
      line of it: `_lost_points` finds no section in a report written this
      way. */
  lemma GradeHeaderIsNoTestFunc(name: string)
    requires IsWord(name)
    ensures var lines := Split(TestBase.HeaderText(name), '\n');
            forall j {:trigger Matches(TestFuncPat, lines[j])} :: 0 <= j < |lines| ==> !Matches(TestFuncPat, lines[j])
  {
    var c := TestBase.Center(" " + name + " ", 30, '-');
    CenteredNameIsNoTestFunc(name);
    SplitNoSep(c, '\n');
    SplitSepPrefix("", c, '\n');
    assert "" + ['\n'] + c == TestBase.HeaderText(name);
    assert Split(TestBase.HeaderText(name), '\n') == ["", c];
    assert MatchTestFunc("").None?;
  }
}
