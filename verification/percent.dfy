/** The availability test of main.py: `re.match(r'^\d+(\.\d+)?%$', value)`,
    written out by hand. `\d` is read as an ASCII digit. */
module Percent {

  predicate IsDigit(c: char) {
    '0' <= c <= '9'
  }

  predicate AllDigits(s: string) {
    forall i :: 0 <= i < |s| ==> IsDigit(s[i])
  }

  /** The language of `\d+` */
  predicate IsDigits(s: string) {
    |s| > 0 && AllDigits(s)
  }

  /** The language of `\d+(\.\d+)?` */
  ghost predicate IsDecimal(s: string) {
    IsDigits(s) ||
    exists k :: 0 < k < |s| && s[k] == '.' && IsDigits(s[..k]) && IsDigits(s[k + 1..])
  }

  /** The language of `\d+(\.\d+)?%` */
  ghost predicate IsPercentLiteral(s: string) {
    |s| > 0 && s[|s| - 1] == '%' && IsDecimal(s[..|s| - 1])
  }

  /** What `re.match` with the anchored pattern accepts: `^` pins the match to
      the start, and Python's `$` holds at the very end of the string or just
      before a single newline that ends it. */
  ghost predicate PatternMatches(s: string) {
    IsPercentLiteral(s) ||
    (|s| > 0 && s[|s| - 1] == '\n' && IsPercentLiteral(s[..|s| - 1]))
  }

  /** Length of the longest run of digits at the front of `s` (the greedy `\d+`). */
  function DigitRun(s: string): (n: nat)
    ensures n <= |s| && AllDigits(s[..n])
    ensures n < |s| ==> !IsDigit(s[n])
  {
    if s == [] || !IsDigit(s[0]) then 0
    else
      var m := DigitRun(s[1..]);
      assert s[..m + 1] == [s[0]] + s[1..][..m];
      1 + m
  }

  /** `%$`: the percent sign, then the end of the string or one final newline */
  predicate PercentAtEnd(s: string) {
    s == "%" || s == "%\n"
  }

  /** The matcher: digits, optionally a point and digits, then `%$`.
      A digit run can only end at a non-digit, so greedy matching never
      needs to back off. */
  function MatchesPercent(s: string): (r: bool)
    ensures r ==> |s| >= 2 && IsDigit(s[0])
    ensures r ==> s[|s| - 1] == '%' || (s[|s| - 1] == '\n' && s[|s| - 2] == '%')
  {
    var n := DigitRun(s);
    n > 0 &&
    (PercentAtEnd(s[n..]) ||
     (n < |s| && s[n] == '.' &&
      var m := DigitRun(s[n + 1..]);
      m > 0 && PercentAtEnd(s[n + 1 + m..])))
  }

  /** The uniqueness half of DigitRun's contract: a digit run that stops at a
      non-digit (or at the end) is the one DigitRun finds. */
  lemma {:induction false} DigitRunExact(s: string, k: nat)
    requires k <= |s| && AllDigits(s[..k])
    requires k < |s| ==> !IsDigit(s[k])
    ensures DigitRun(s) == k
  {
    if k > 0 {
      assert s[..k][0] == s[0];
      assert s[1..][..k - 1] == s[..k][1..];
      DigitRunExact(s[1..], k - 1);
    }
  }

  /** A decimal followed by `%$` is what the pattern matches. */
  lemma DecimalThenPercent(body: string, tail: string)
    requires IsDecimal(body) && PercentAtEnd(tail)
    ensures PatternMatches(body + tail)
  {
    var t := body + "%";
    assert t[..|t| - 1] == body;
    if tail == "%" {
      assert body + tail == t;
    } else {
      assert body + tail == t + "\n";
      assert (body + tail)[..|body + tail| - 1] == t;
    }
  }

  lemma MatchesPercentSound(s: string)
    requires MatchesPercent(s)
    ensures PatternMatches(s)
  {
    var n := DigitRun(s);
    assert IsDigits(s[..n]);
    if PercentAtEnd(s[n..]) {
      assert s == s[..n] + s[n..];
      DecimalThenPercent(s[..n], s[n..]);
    } else {
      var r := s[n + 1..];
      var m := DigitRun(r);
      var e := n + 1 + m;
      var body := s[..e];
      assert r[m..] == s[e..];
      assert body[..n] == s[..n];
      assert body[n + 1..] == r[..m];
      assert IsDigits(r[..m]);
      assert body[n] == '.';
      assert IsDecimal(body);
      assert s == body + s[e..];
      DecimalThenPercent(body, s[e..]);
    }
  }

  /** `\d+` followed by `%$` is accepted. */
  lemma MatchesWhole(body: string, tail: string)
    requires IsDigits(body) && PercentAtEnd(tail)
    ensures MatchesPercent(body + tail)
  {
    var s := body + tail;
    assert s[..|body|] == body;
    DigitRunExact(s, |body|);
    assert s[|body|..] == tail;
  }

  /** `\d+\.\d+` followed by `%$` is accepted. */
  lemma MatchesFraction(whole: string, frac: string, tail: string)
    requires IsDigits(whole) && IsDigits(frac) && PercentAtEnd(tail)
    ensures MatchesPercent(whole + "." + frac + tail)
  {
    var s := whole + "." + frac + tail;
    var k := |whole|;
    assert s[..k] == whole;
    DigitRunExact(s, k);
    var r := s[k + 1..];
    assert r == frac + tail;
    assert r[..|frac|] == frac;
    DigitRunExact(r, |frac|);
    assert s[k + 1 + |frac|..] == tail;
  }

  /** The matcher accepts every `t` in `\d+(\.\d+)?%`, alone or followed by one newline. */
  lemma MatchesPercentComplete(t: string, s: string)
    requires IsPercentLiteral(t)
    requires s == t || s == t + "\n"
    ensures MatchesPercent(s)
  {
    var body := t[..|t| - 1];
    assert t == body + "%";
    var tail: string := if s == t then "%" else "%\n";
    assert s == body + tail;
    if IsDigits(body) {
      MatchesWhole(body, tail);
    } else {
      var k :| 0 < k < |body| && body[k] == '.' && IsDigits(body[..k]) && IsDigits(body[k + 1..]);
      assert body == body[..k] + "." + body[k + 1..];
      MatchesFraction(body[..k], body[k + 1..], tail);
    }
  }

  /** The hand-written matcher accepts exactly what `re.match` accepts. */
  lemma MatchesPercentIsPattern(s: string)
    ensures MatchesPercent(s) <==> PatternMatches(s)
  {
    if MatchesPercent(s) {
      MatchesPercentSound(s);
    } else if PatternMatches(s) {
      if IsPercentLiteral(s) {
        MatchesPercentComplete(s, s);
      } else {
        var t := s[..|s| - 1];
        assert s == t + "\n";
        MatchesPercentComplete(t, s);
      }
    }
  }

  /** Sample values the pattern accepts, including the trailing newline that `$` lets through. */
  lemma MatchesPercentAccepts()
    ensures MatchesPercent("0%") && MatchesPercent("0.5%") && MatchesPercent("100%")
    ensures MatchesPercent("87%\n") && MatchesPercent("12.5%")
  {
    DigitRunExact("0%", 1);
    DigitRunExact("0.5%", 1);
    DigitRunExact("5%", 1);
    DigitRunExact("100%", 3);
    DigitRunExact("87%\n", 2);
    DigitRunExact("12.5%", 2);
  }

  /** Sample values the pattern rejects: no digits first, or no `%` last. */
  lemma MatchesPercentRejects()
    ensures !MatchesPercent("%") && !MatchesPercent("abc%") && !MatchesPercent("50")
    ensures !MatchesPercent(".5%") && !MatchesPercent("n/a") && !MatchesPercent(" 87%")
  {
    DigitRunExact("%", 0);
    DigitRunExact("abc%", 0);
    DigitRunExact("50", 2);
    DigitRunExact(".5%", 0);
    DigitRunExact("n/a", 0);
    DigitRunExact(" 87%", 0);
  }

  /** Sample values the pattern rejects: a fraction without digits, or a second point. */
  lemma MatchesPercentRejectsFractions()
    ensures !MatchesPercent("5.%") && !MatchesPercent("1.2.3%")
  {
    DigitRunExact("5.%", 1);
    assert "5.%"[2..] == "%";
    DigitRunExact("%", 0);
    DigitRunExact("1.2.3%", 1);
    assert "1.2.3%"[2..] == "2.3%";
    DigitRunExact("2.3%", 1);
    assert "1.2.3%"[3..] == ".3%";
  }

  /** Only one newline may follow the `%`. */
  lemma MatchesPercentRejectsNewlines()
    ensures !MatchesPercent("87%\n\n")
  {
    DigitRunExact("87%\n\n", 2);
    assert "87%\n\n"[2..] == "%\n\n";
  }
}
