/**
 * The `skip=` offset of a listing URL: `re.search(r'skip=(\d+)', url)` to read it and
 * `re.sub(r'skip=\d+', 'skip=<n>', url)` to rewrite it. Matches are leftmost, do not
 * overlap, and `\d+` is greedy.
 */
module SkipParam {

  import opened Basics
  import opened PyStr

  const Key: string := "skip="

  /** `skip=\d+` matches at the start of `s`. */
  predicate MatchAt(s: string) {
    |s| > 5 && s[..5] == Key && IsDigit(s[5])
  }

  /** The longest prefix of digits, which greedy `\d+` takes. */
  function DigitRun(s: string): (r: string)
    ensures |r| <= |s| && r == s[..|r|] && AllDigits(r)
    ensures |r| == |s| || !IsDigit(s[|r|])
  {
    if s != [] && IsDigit(s[0]) then [s[0]] + DigitRun(s[1..]) else []
  }

  /** A digit run ends where a non-digit starts. */
  lemma {:induction false} DigitRunConcat(d: string, t: string)
    requires AllDigits(d) && (t == [] || !IsDigit(t[0]))
    ensures DigitRun(d + t) == d
  {
    if d != [] {
      assert (d + t)[1..] == d[1..] + t;
      DigitRunConcat(d[1..], t);
    }
  }

  /** `re.search(r'skip=(\d+)', s)` followed by `int(m.group(1))`; `None` when nothing matches. */
  function SearchSkip(s: string): Option<nat>
    decreases |s|
  {
    if MatchAt(s) then Some(DecimalValue(DigitRun(s[5..])))
    else if s == [] then None
    else SearchSkip(s[1..])
  }

  /** The values of all matches, left to right, as `re.finditer` finds them. */
  function FindAllSkips(s: string): seq<nat>
    decreases |s|
  {
    if MatchAt(s) then
      var d := DigitRun(s[5..]);
      [DecimalValue(d)] + FindAllSkips(s[5 + |d|..])
    else if s == [] then []
    else FindAllSkips(s[1..])
  }

  /** `re.sub(r'skip=\d+', repl, s)`: every match replaced by `repl`, the rest copied. */
  function SubSkip(s: string, repl: string): string
    decreases |s|
  {
    if MatchAt(s) then repl + SubSkip(s[5 + |DigitRun(s[5..])|..], repl)
    else if s == [] then []
    else [s[0]] + SubSkip(s[1..], repl)
  }

  /** The replacement text `f'skip={n}'`. */
  function SkipText(n: nat): (r: string)
    ensures |r| > 5 && r[..5] == Key && r[0] == 's'
  {
    var r := Key + NatToString(n);
    assert r[..5] == Key;
    r
  }

  /** The search reports the first of all matches, and nothing exactly when there is none. */
  lemma {:induction false} SearchIsFirst(s: string)
    ensures SearchSkip(s) == if FindAllSkips(s) == [] then None else Some(FindAllSkips(s)[0])
    decreases |s|
  {
    if !MatchAt(s) && s != [] {
      SearchIsFirst(s[1..]);
    }
  }

  /** The first character `re.sub` produces is the replacement's or the input's own. */
  lemma LeadChar(s: string, repl: string)
    requires repl != []
    ensures SubSkip(s, repl) == [] <==> s == []
    ensures s != [] ==> SubSkip(s, repl)[0] == if MatchAt(s) then repl[0] else s[0]
  {
  }

  /** Peeling one copied character off the output of `re.sub`. */
  lemma Peel(x: string, repl: string, c: char)
    requires repl != [] && c != repl[0]
    requires SubSkip(x, repl) != [] && SubSkip(x, repl)[0] == c
    ensures x != [] && x[0] == c && SubSkip(x, repl)[1..] == SubSkip(x[1..], repl)
  {
  }

  /**
   * A match at the start of the output that does not come from a replacement was
   * already a match of the input: the substitution creates no new `skip=\d+`.
   */
  lemma MatchBack(s: string, n: nat)
    requires s != [] && MatchAt([s[0]] + SubSkip(s[1..], SkipText(n)))
    ensures MatchAt(s)
  {
    var r := SkipText(n);
    var u := [s[0]] + SubSkip(s[1..], r);
    assert u[0] == u[..5][0] == 's';
    assert u[1] == u[..5][1] == 'k';
    assert u[2] == u[..5][2] == 'i';
    assert u[3] == u[..5][3] == 'p';
    assert u[4] == u[..5][4] == '=';
    assert u[1..] == SubSkip(s[1..], r);
    Peel(s[1..], r, 'k');
    assert s[1..][1..] == s[2..];
    Peel(s[2..], r, 'i');
    assert s[2..][1..] == s[3..];
    Peel(s[3..], r, 'p');
    assert s[3..][1..] == s[4..];
    Peel(s[4..], r, '=');
    assert s[4..][1..] == s[5..];
    LeadChar(s[5..], r);
    assert s[..5] == Key;
  }

  /** `skip=` and a run of digits followed by a non-digit is one match: the run's value. */
  lemma DigitsMatch(d: string, t: string)
    requires d != [] && AllDigits(d) && (t == [] || !IsDigit(t[0]))
    ensures FindAllSkips(Key + d + t) == [DecimalValue(d)] + FindAllSkips(t)
  {
    var u := Key + d + t;
    assert u[..5] == Key && u[5..] == d + t;
    assert IsDigit(d[0]) && u[5] == d[0];
    DigitRunConcat(d, t);
    assert u[5 + |d|..] == t;
  }

  /** A replacement followed by a non-digit is read back as exactly one match of value `n`. */
  lemma ReplacementMatch(n: nat, t: string)
    requires t == [] || !IsDigit(t[0])
    ensures FindAllSkips(SkipText(n) + t) == [n] + FindAllSkips(t)
  {
    DigitsMatch(NatToString(n), t);
  }

  /** `re.sub` with `skip=<n>` leaves one match per original match, each worth `n`. */
  lemma {:induction false} FindAllSubSkip(s: string, n: nat)
    ensures FindAllSkips(SubSkip(s, SkipText(n))) == Repeat(n, |FindAllSkips(s)|)
    decreases |s|
  {
    var r := SkipText(n);
    if MatchAt(s) {
      var d := DigitRun(s[5..]);
      var rest := s[5 + |d|..];
      FindAllSubSkip(rest, n);
      LeadChar(rest, r);
      ReplacementMatch(n, SubSkip(rest, r));
    } else if s != [] {
      var t := SubSkip(s[1..], r);
      FindAllSubSkip(s[1..], n);
      if MatchAt([s[0]] + t) {
        MatchBack(s, n);
      }
      assert ([s[0]] + t)[1..] == t;
    }
  }

  /** Without a match, `re.sub` returns its input. */
  lemma {:induction false} SubSkipNoMatch(s: string, repl: string)
    requires FindAllSkips(s) == []
    ensures SubSkip(s, repl) == s
    decreases |s|
  {
    if s != [] {
      SubSkipNoMatch(s[1..], repl);
    }
  }

  /** Rewriting a URL that has an offset and reading the offset back gives the new value. */
  lemma SearchSubSkip(s: string, n: nat)
    requires SearchSkip(s).Some?
    ensures SearchSkip(SubSkip(s, SkipText(n))) == Some(n)
  {
    SearchIsFirst(s);
    FindAllSubSkip(s, n);
    SearchIsFirst(SubSkip(s, SkipText(n)));
  }

  /** Text with no `=` in front of a character that cannot continue `skip=` adds no match. */
  lemma {:induction false} SkipsAfterPlainPrefix(a: string, b: string)
    requires '=' !in a && b != [] && b[0] !in "kip="
    ensures FindAllSkips(a + b) == FindAllSkips(b)
    decreases |a|
  {
    if a != [] {
      var s := a + b;
      if |s| > 5 {
        if |a| >= 5 {
          assert s[4] == a[4];
          assert a[4] in a && s[..5][4] == s[4];
          assert s[..5] != Key;
        } else {
          assert s[..5][|a|] == b[0];
          assert Key[|a|] in "kip=";
          assert s[..5] != Key;
        }
      }
      assert !MatchAt(s);
      assert FindAllSkips(s) == FindAllSkips(s[1..]);
      assert '=' !in a[1..] by {
        forall i | 0 <= i < |a| - 1 ensures a[1..][i] != '=' {
          assert a[1..][i] == a[i + 1] && a[i + 1] in a;
        }
      }
      assert s[1..] == a[1..] + b;
      SkipsAfterPlainPrefix(a[1..], b);
    } else {
      assert a + b == b;
    }
  }

  /** Text without a `k` holds no match. */
  lemma {:induction false} NoSkipWithoutK(s: string)
    requires 'k' !in s
    ensures FindAllSkips(s) == []
    decreases |s|
  {
    if s != [] {
      if |s| > 5 {
        assert s[1] in s && s[..5][1] == s[1];
      }
      NoSkipWithoutK(s[1..]);
    }
  }
}
