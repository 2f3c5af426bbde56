/** The check made of the command-line date before anything is fetched:
    `re.match(r'20\d\d-[0-1]\d-[0-3]\d', date)`. `re.match` anchors the
    pattern at the start of the string only, so the check reads the first
    ten characters and lets anything follow them. */
module DateArgument {
  import Timestamps

  /** The single-character pieces the pattern is made of. */
  datatype CharClass = Exactly(c: char) | AnyDigit | Within(lo: char, hi: char)

  predicate ClassMatches(k: CharClass, c: char) {
    match k
    case Exactly(d) => c == d
    case AnyDigit => Timestamps.IsDigit(c)
    case Within(lo, hi) => lo <= c <= hi
  }

  /** `20\d\d-[0-1]\d-[0-3]\d` */
  const DatePattern: seq<CharClass> := [
    Exactly('2'), Exactly('0'), AnyDigit, AnyDigit, Exactly('-'),
    Within('0', '1'), AnyDigit, Exactly('-'), Within('0', '3'), AnyDigit
  ]

  /** `re.match(p, s) is not None` for a pattern of single-character
      classes: each class consumes one character from the front, and the
      characters after the last one are not looked at. */
  function MatchesAtStart(p: seq<CharClass>, s: string): bool {
    if p == [] then true
    else s != [] && ClassMatches(p[0], s[0]) && MatchesAtStart(p[1..], s[1..])
  }

  /** A match at the start is a position-by-position match of the pattern
      against the string's first `|p|` characters. */
  lemma {:induction false} MatchesAtStartIffPositionwise(p: seq<CharClass>, s: string)
    ensures MatchesAtStart(p, s) <==>
      |s| >= |p| && forall k :: 0 <= k < |p| ==> ClassMatches(p[k], s[k])
  {
    if p != [] && s != [] {
      MatchesAtStartIffPositionwise(p[1..], s[1..]);
      if |s| >= |p| && forall k :: 0 <= k < |p| ==> ClassMatches(p[k], s[k]) {
        forall k | 0 <= k < |p[1..]|
          ensures ClassMatches(p[1..][k], s[1..][k])
        {
          assert p[1..][k] == p[k + 1] && s[1..][k] == s[k + 1];
        }
      }
      if MatchesAtStart(p, s) {
        forall k | 0 <= k < |p|
          ensures ClassMatches(p[k], s[k])
        {
          if k > 0 {
            assert p[1..][k - 1] == p[k] && s[1..][k - 1] == s[k];
          }
        }
      }
    }
  }

  /** The date argument passes the check. */
  predicate IsDateArgument(s: string) {
    MatchesAtStart(DatePattern, s)
  }

  /** The check accepts exactly the strings whose first ten characters are
      `20`, two digits, `-`, `0` or `1`, a digit, `-`, `0` to `3`, a digit. */
  lemma {:induction false} DateArgumentShape(s: string)
    ensures IsDateArgument(s) <==>
      && |s| >= 10
      && s[0] == '2' && s[1] == '0' && Timestamps.IsDigit(s[2]) && Timestamps.IsDigit(s[3]) && s[4] == '-'
      && '0' <= s[5] <= '1' && Timestamps.IsDigit(s[6]) && s[7] == '-'
      && '0' <= s[8] <= '3' && Timestamps.IsDigit(s[9])
  {
    MatchesAtStartIffPositionwise(DatePattern, s);
    if |s| >= 10 {
      assert ClassMatches(DatePattern[0], s[0]) <==> s[0] == '2';
    }
  }

  /** Only the first ten characters are looked at: appending anything to an
      accepted argument keeps it accepted. */
  lemma {:induction false} DateArgumentIgnoresSuffix(s: string, t: string)
    requires IsDateArgument(s)
    ensures IsDateArgument(s + t)
  {
    DateArgumentShape(s);
    DateArgumentShape(s + t);
  }

  /** An argument is accepted exactly when it has ten characters and they
      are accepted on their own. */
  lemma {:induction false} DateArgumentFirstTen(s: string)
    ensures IsDateArgument(s) <==> |s| >= 10 && IsDateArgument(s[..10])
  {
    DateArgumentShape(s);
    if |s| >= 10 {
      DateArgumentShape(s[..10]);
    }
  }

  /** The shape is checked, not the calendar: month 19 and day 39 pass. */
  lemma {:induction false} DateArgumentAcceptsImpossibleDate()
    ensures IsDateArgument("2021-19-39")
  {
    var s := "2021-19-39";
    assert s[0] == '2' && s[1] == '0' && s[2] == '2' && s[3] == '1' && s[4] == '-';
    assert s[5] == '1' && s[6] == '9' && s[7] == '-' && s[8] == '3' && s[9] == '9';
    DateArgumentShape(s);
  }

  /** A time of day after the date passes as well. */
  lemma {:induction false} DateArgumentAcceptsTrailingTime()
    ensures IsDateArgument("2021-12-01T10:00")
  {
    var t := "2021-12-01T10:00";
    assert t[0] == '2' && t[1] == '0' && t[2] == '2' && t[3] == '1' && t[4] == '-';
    assert t[5] == '1' && t[6] == '2' && t[7] == '-' && t[8] == '0' && t[9] == '1';
    DateArgumentShape(t);
  }

  /** A one-digit month or a year outside 2000-2099 is refused. */
  lemma {:induction false} DateArgumentRejectsShapes()
    ensures !IsDateArgument("2021-1-01")
    ensures !IsDateArgument("1999-12-01")
  {
    DateArgumentShape("2021-1-01");
    DateArgumentShape("1999-12-01");
  }
}
