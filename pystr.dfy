/** The optional value used throughout the model (`None` stands for Python's `None`) and small sequence helpers. */
module Basics {

  datatype Option<+T> = None | Some(value: T) {

    /** `x if x is not None else default` */
    function GetOr(default: T): T {
      match this
      case Some(v) => v
      case None => default
    }
  }

  /** The values of the `Some` entries, in order: what a loop that skips the `None` cases collects. */
  function Somes<T>(opts: seq<Option<T>>): (r: seq<T>)
    ensures |r| <= |opts|
  {
    if opts == [] then []
    else
      var prev := Somes(opts[..|opts| - 1]);
      match opts[|opts| - 1]
      case None => prev
      case Some(x) => prev + [x]
  }

  /** Collecting one more entry appends its value when it has one. */
  lemma SomesSnoc<T>(opts: seq<Option<T>>, i: nat)
    requires i < |opts|
    ensures Somes(opts[..i + 1]) == Somes(opts[..i]) + (if opts[i].Some? then [opts[i].value] else [])
  {
    assert opts[..i + 1][..i] == opts[..i];
  }

  /** Every collected value stands at some position of the input. */
  lemma {:induction false} SomesFrom<T>(opts: seq<Option<T>>, k: nat)
    requires k < |Somes(opts)|
    ensures exists i :: 0 <= i < |opts| && opts[i] == Some(Somes(opts)[k])
  {
    var init := opts[..|opts| - 1];
    var prev := Somes(init);
    if k < |prev| {
      SomesFrom(init, k);
      var i :| 0 <= i < |init| && init[i] == Some(prev[k]);
      assert opts[i] == init[i];
    } else {
      assert opts[|opts| - 1] == Some(Somes(opts)[k]);
    }
  }

  /** Every `Some` of the input is collected. */
  lemma {:induction false} SomesHas<T>(opts: seq<Option<T>>, i: nat)
    requires i < |opts| && opts[i].Some?
    ensures opts[i].value in Somes(opts)
  {
    var init := opts[..|opts| - 1];
    if i < |opts| - 1 {
      SomesHas(init, i);
      assert init[i] == opts[i];
    }
  }

  /** `[x] * k` */
  function Repeat(x: nat, k: nat): (r: seq<nat>)
    ensures |r| == k && forall i :: 0 <= i < k ==> r[i] == x
  {
    if k == 0 then [] else [x] + Repeat(x, k - 1)
  }
}

/**
 * The Python `str` operations the crawler relies on, over `seq<char>`:
 * `find`, `in`, `split`, `join`, `strip`, `replace(pat, '')`, `int(...)` and `str(n)`.
 * Each is defined the way CPython scans: leftmost, non-overlapping occurrences.
 */
module PyStr {

  import opened Basics

  /** `c.isspace()` for the characters CPython treats as whitespace. */
  predicate IsSpace(c: char) {
    ('\t' <= c <= '\r') || ('\U{1C}' <= c <= '\U{1F}') || c == ' '
    || c == '\U{85}' || c == '\U{A0}' || c == '\U{1680}'
    || ('\U{2000}' <= c <= '\U{200A}') || c == '\U{2028}' || c == '\U{2029}'
    || c == '\U{202F}' || c == '\U{205F}' || c == '\U{3000}'
  }

  /** An ASCII decimal digit (the digits `\d` and `int()` accept in this model). */
  predicate IsDigit(c: char) {
    '0' <= c <= '9'
  }

  predicate AllSpace(s: string) {
    forall i :: 0 <= i < |s| ==> IsSpace(s[i])
  }

  predicate AllDigits(s: string) {
    forall i :: 0 <= i < |s| ==> IsDigit(s[i])
  }

  /** Neither end of `s` is whitespace: `s.strip() == s`. */
  predicate NoEdgeSpace(s: string) {
    s == [] || (!IsSpace(s[0]) && !IsSpace(s[|s| - 1]))
  }

  // ---------------------------------------------------------------------
  // Searching
  // ---------------------------------------------------------------------

  /** `pat` occurs in `s` starting at position `k`. */
  predicate StartsAt(s: string, pat: string, k: nat) {
    k + |pat| <= |s| && s[k..k + |pat|] == pat
  }

  /** The first position at or after `k` where `pat` occurs in `s`, or -1. */
  function FindFrom(s: string, pat: string, k: nat): (r: int)
    requires k <= |s|
    decreases |s| - k
    ensures r == -1 || (k <= r <= |s| && StartsAt(s, pat, r))
    ensures forall j :: k <= j <= |s| && (r == -1 || j < r) ==> !StartsAt(s, pat, j)
  {
    if StartsAt(s, pat, k) then k
    else if k == |s| then -1
    else FindFrom(s, pat, k + 1)
  }

  /** `s.find(pat)`: the leftmost occurrence of `pat` in `s`, or -1. */
  function Find(s: string, pat: string): (r: int)
    ensures r == -1 || (0 <= r <= |s| && StartsAt(s, pat, r))
    ensures forall j :: 0 <= j <= |s| && (r == -1 || j < r) ==> !StartsAt(s, pat, j)
  {
    FindFrom(s, pat, 0)
  }

  /** `pat in s` */
  predicate Contains(s: string, pat: string) {
    Find(s, pat) >= 0
  }

  lemma ContainsIff(s: string, pat: string)
    ensures Contains(s, pat) <==> exists j :: 0 <= j <= |s| && StartsAt(s, pat, j)
  {
  }

  /** An occurrence in a slice of `s` is an occurrence in `s`. */
  lemma StartsAtSlice(s: string, pat: string, lo: nat, hi: nat, j: nat)
    requires lo <= hi <= |s|
    requires StartsAt(s[lo..hi], pat, j)
    ensures StartsAt(s, pat, lo + j)
  {
    forall m | 0 <= m < |pat| ensures s[lo + j + m] == pat[m] {
      assert s[lo..hi][j..j + |pat|][m] == pat[m];
    }
    assert s[lo + j..lo + j + |pat|] == pat;
  }

  /** An occurrence in `s` that lies inside a slice is an occurrence in the slice. */
  lemma StartsAtInSlice(s: string, pat: string, lo: nat, hi: nat, j: nat)
    requires lo <= j && j + |pat| <= hi <= |s|
    requires StartsAt(s, pat, j)
    ensures StartsAt(s[lo..hi], pat, j - lo)
  {
    forall m | 0 <= m < |pat| ensures s[lo..hi][j - lo + m] == pat[m] {
      assert s[j..j + |pat|][m] == pat[m];
    }
    assert s[lo..hi][j - lo..j - lo + |pat|] == pat;
  }

  /** A one-character pattern occurs in `s` iff its character does. */
  lemma ContainsSingle(s: string, pat: string)
    requires |pat| == 1
    ensures Contains(s, pat) <==> pat[0] in s
  {
    if pat[0] in s {
      var j :| 0 <= j < |s| && s[j] == pat[0];
      assert s[j..j + 1] == pat;
      assert StartsAt(s, pat, j);
    }
    if Contains(s, pat) {
      var r := Find(s, pat);
      assert s[r..r + 1][0] == s[r];
    }
  }

  // ---------------------------------------------------------------------
  // split / join
  // ---------------------------------------------------------------------

  /** `s.split(sep)` for a non-empty separator (an empty one raises `ValueError`). */
  function Split(s: string, sep: string): (parts: seq<string>)
    requires sep != []
    decreases |s|
    ensures |parts| >= 1
    ensures |parts| > 1 <==> Contains(s, sep)
    ensures parts[0] == if Contains(s, sep) then s[..Find(s, sep)] else s
    ensures forall i :: 0 <= i < |parts| ==> !Contains(parts[i], sep)
  {
    var i := Find(s, sep);
    if i < 0 then [s]
    else
      var head := s[..i];
      assert !Contains(head, sep) by {
        if Contains(head, sep) {
          StartsAtSlice(s, sep, 0, i, Find(head, sep));
        }
      }
      [head] + Split(s[i + |sep|..], sep)
  }

  /** `sep.join(parts)` */
  function Join(parts: seq<string>, sep: string): string
  {
    if |parts| == 0 then ""
    else if |parts| == 1 then parts[0]
    else parts[0] + sep + Join(parts[1..], sep)
  }

  /** `split` at an occurrence: the text before it, then the split of the text after it. */
  lemma SplitAtFind(s: string, sep: string)
    requires sep != [] && Find(s, sep) >= 0
    ensures Split(s, sep) == [s[..Find(s, sep)]] + Split(s[Find(s, sep) + |sep|..], sep)
  {
  }

  /** `join` of a list with at least two parts. */
  lemma JoinCons(a: string, rest: seq<string>, sep: string)
    requires |rest| >= 1
    ensures Join([a] + rest, sep) == a + sep + Join(rest, sep)
  {
    assert ([a] + rest)[1..] == rest;
  }

  /** Joining the pieces of a split with the same separator gives back the string. */
  lemma {:induction false} JoinSplit(s: string, sep: string)
    requires sep != []
    ensures Join(Split(s, sep), sep) == s
    decreases |s|
  {
    var i := Find(s, sep);
    if i >= 0 {
      var rest := s[i + |sep|..];
      var parts := Split(rest, sep);
      assert Join(parts, sep) == rest by { JoinSplit(rest, sep); }
      assert Split(s, sep) == [s[..i]] + parts by { SplitAtFind(s, sep); }
      assert Join([s[..i]] + parts, sep) == s[..i] + sep + rest by { JoinCons(s[..i], parts, sep); }
      assert s == s[..i] + sep + rest;
    }
  }

  /** When the first character of `pat` does not occur in `a`, the first `pat` in `a + pat + b` is right after `a`. */
  lemma FindAfter(a: string, pat: string, b: string)
    requires pat != [] && pat[0] !in a
    ensures Find(a + pat + b, pat) == |a|
  {
    var s := a + pat + b;
    assert s[|a|..|a| + |pat|] == pat;
    assert StartsAt(s, pat, |a|);
  }

  /** `(a + pat + b).split(pat)` is `[a] + b.split(pat)` when `pat` cannot start inside `a`. */
  lemma SplitAfter(a: string, pat: string, b: string)
    requires pat != [] && pat[0] !in a
    ensures Split(a + pat + b, pat) == [a] + Split(b, pat)
  {
    var s := a + pat + b;
    FindAfter(a, pat, b);
    assert s[..|a|] == a;
    assert s[|a| + |pat|..] == b;
  }

  /** A string lacking one of the characters of `pat` does not contain `pat`. */
  lemma NotContainsChar(s: string, pat: string, c: char)
    requires c in pat && c !in s
    ensures !Contains(s, pat)
  {
  }

  /**
   * Splitting a join with a one-character separator gives back the parts, when no part
   * contains the separator and there is at least one part.
   */
  lemma {:induction false} SplitJoin(parts: seq<string>, sep: string)
    requires |sep| == 1 && |parts| >= 1
    requires forall i :: 0 <= i < |parts| ==> sep[0] !in parts[i]
    ensures Split(Join(parts, sep), sep) == parts
    decreases |parts|
  {
    if |parts| == 1 {
      ContainsSingle(parts[0], sep);
    } else {
      var rest := Join(parts[1..], sep);
      FindAfter(parts[0], sep, rest);
      var s := parts[0] + sep + rest;
      assert s[..|parts[0]|] == parts[0];
      assert s[|parts[0]| + 1..] == rest;
      SplitJoin(parts[1..], sep);
    }
  }

  // ---------------------------------------------------------------------
  // strip
  // ---------------------------------------------------------------------

  /** `s.lstrip()` */
  function LStrip(s: string): (r: string)
    ensures |r| <= |s| && r == s[|s| - |r|..]
    ensures forall k :: 0 <= k < |s| - |r| ==> IsSpace(s[k])
    ensures r == [] || !IsSpace(r[0])
  {
    if s != [] && IsSpace(s[0]) then LStrip(s[1..]) else s
  }

  /** `s.rstrip()` */
  function RStrip(s: string): (r: string)
    ensures |r| <= |s| && r == s[..|r|]
    ensures forall k :: |r| <= k < |s| ==> IsSpace(s[k])
    ensures r == [] || !IsSpace(r[|r| - 1])
  {
    if s != [] && IsSpace(s[|s| - 1]) then RStrip(s[..|s| - 1]) else s
  }

  /** `s.strip()`: drops the whitespace at both ends and nothing else. */
  function Strip(s: string): (r: string)
    ensures |r| <= |s| && NoEdgeSpace(r)
    ensures NoEdgeSpace(s) ==> r == s
  {
    var l := LStrip(s);
    var r := RStrip(l);
    assert r != [] ==> r[0] == l[0];
    r
  }

  /** `lstrip` removes leading whitespace up to the first non-space character. */
  lemma {:induction false} LStripPadded(w: string, y: string)
    requires AllSpace(w) && (y == [] || !IsSpace(y[0]))
    ensures LStrip(w + y) == y
    decreases |w|
  {
    if w != [] {
      assert (w + y)[0] == w[0] && (w + y)[1..] == w[1..] + y;
      LStripPadded(w[1..], y);
    } else {
      assert w + y == y;
    }
  }

  /** `rstrip` removes trailing whitespace back to the last non-space character. */
  lemma {:induction false} RStripPadded(y: string, w: string)
    requires AllSpace(w) && (y == [] || !IsSpace(y[|y| - 1]))
    ensures RStrip(y + w) == y
    decreases |w|
  {
    if w != [] {
      var w' := w[..|w| - 1];
      assert (y + w)[|y + w| - 1] == w[|w| - 1] && (y + w)[..|y + w| - 1] == y + w';
      RStripPadded(y, w');
    } else {
      assert y + w == y;
    }
  }

  /** Whitespace around a string without edge whitespace is exactly what `strip` removes. */
  lemma StripPadded(w1: string, x: string, w2: string)
    requires AllSpace(w1) && AllSpace(w2) && NoEdgeSpace(x)
    ensures Strip(w1 + x + w2) == x
  {
    if x == [] {
      assert w1 + x + w2 == w1 + w2;
      LStripPadded(w1 + w2, []);
      assert w1 + w2 + [] == w1 + w2;
      assert RStrip([]) == [];
    } else {
      assert w1 + x + w2 == w1 + (x + w2);
      assert (x + w2)[0] == x[0];
      LStripPadded(w1, x + w2);
      RStripPadded(x, w2);
    }
  }

  // ---------------------------------------------------------------------
  // replace(pat, '')
  // ---------------------------------------------------------------------

  /** `s.replace(pat, '')`: every leftmost, non-overlapping occurrence of `pat` removed in one pass. */
  function RemoveAll(s: string, pat: string): (r: string)
    requires pat != []
    decreases |s|
    ensures |r| <= |s|
  {
    if s == [] then []
    else if StartsAt(s, pat, 0) then RemoveAll(s[|pat|..], pat)
    else [s[0]] + RemoveAll(s[1..], pat)
  }

  /** Removal copies a prefix in which `pat` does not start. */
  lemma {:induction false} RemoveAllCopies(s: string, pat: string, i: nat)
    requires pat != [] && i <= |s|
    requires Find(s, pat) == -1 || i <= Find(s, pat)
    ensures RemoveAll(s, pat) == s[..i] + RemoveAll(s[i..], pat)
    decreases i
  {
    if i > 0 {
      FindInTail(s, pat, i);
      RemoveAllCopies(s[1..], pat, i - 1);
      RemoveAllCopyStep(s, pat, i);
    } else {
      assert s[..0] == [] && s[0..] == s;
    }
  }

  /** No occurrence before `i` in `s` means none before `i - 1` in `s[1..]`. */
  lemma FindInTail(s: string, pat: string, i: nat)
    requires pat != [] && 0 < i <= |s|
    requires Find(s, pat) == -1 || i <= Find(s, pat)
    ensures Find(s[1..], pat) == -1 || i - 1 <= Find(s[1..], pat)
  {
    var r := Find(s[1..], pat);
    if r >= 0 {
      assert s[1..|s|] == s[1..];
      StartsAtSlice(s, pat, 1, |s|, r);
    }
  }

  /** One copied character: the copy of `s[1..]` up to `i - 1` extends to the copy of `s` up to `i`. */
  lemma RemoveAllCopyStep(s: string, pat: string, i: nat)
    requires pat != [] && 0 < i <= |s|
    requires Find(s, pat) == -1 || i <= Find(s, pat)
    requires RemoveAll(s[1..], pat) == s[1..][..i - 1] + RemoveAll(s[1..][i - 1..], pat)
    ensures RemoveAll(s, pat) == s[..i] + RemoveAll(s[i..], pat)
  {
    var t := s[1..];
    assert !StartsAt(s, pat, 0);
    assert RemoveAll(s, pat) == [s[0]] + RemoveAll(t, pat);
    assert t[i - 1..] == s[i..];
    assert s[..i] == [s[0]] + t[..i - 1];
    assert [s[0]] + (t[..i - 1] + RemoveAll(s[i..], pat)) == ([s[0]] + t[..i - 1]) + RemoveAll(s[i..], pat);
  }

  /** `replace` at an occurrence: the text before it, then the removal from the text after it. */
  lemma RemoveAllAtFind(s: string, pat: string)
    requires pat != [] && Find(s, pat) >= 0
    ensures RemoveAll(s, pat) == s[..Find(s, pat)] + RemoveAll(s[Find(s, pat) + |pat|..], pat)
  {
    var i := Find(s, pat);
    RemoveAllCopies(s, pat, i);
    assert s[i..][..|pat|] == pat;
    assert s[i..][|pat|..] == s[i + |pat|..];
  }

  /** Splitting at the only occurrence of `pat` gives the two sides. */
  lemma SplitOnlyOccurrence(a: string, pat: string, b: string)
    requires pat != [] && pat[0] !in a && !Contains(b, pat)
    ensures Split(a + pat + b, pat) == [a, b]
  {
    SplitAfter(a, pat, b);
    assert Split(b, pat) == [b];
  }

  /** Joining two parts with nothing between them concatenates them. */
  lemma JoinPair(a: string, b: string)
    ensures Join([a, b], "") == a + b
  {
    assert [a, b][1..] == [b];
    assert a + "" + b == a + b;
  }

  /** Removing the only occurrence of `pat` joins the text around it. */
  lemma RemoveOnlyOccurrence(a: string, pat: string, b: string)
    requires pat != [] && pat[0] !in a && !Contains(b, pat)
    ensures RemoveAll(a + pat + b, pat) == a + b
  {
    SplitOnlyOccurrence(a, pat, b);
    RemoveAllIsJoinOfSplit(a + pat + b, pat);
    JoinPair(a, b);
  }

  /** Without an occurrence, `replace` returns its input. */
  lemma RemoveAllNone(s: string, pat: string)
    requires pat != [] && Find(s, pat) < 0
    ensures RemoveAll(s, pat) == s
  {
    RemoveAllCopies(s, pat, |s|);
    assert s[|s|..] == [] && s[..|s|] == s;
  }

  /** Without an occurrence, `split` returns the input as the only part. */
  lemma SplitNone(s: string, sep: string)
    requires sep != [] && Find(s, sep) < 0
    ensures Split(s, sep) == [s]
  {
  }

  /** `''.join` of a list with at least two parts. */
  lemma JoinConsEmpty(a: string, rest: seq<string>)
    requires |rest| >= 1
    ensures Join([a] + rest, "") == a + Join(rest, "")
  {
    JoinCons(a, rest, "");
    assert a + "" == a;
  }

  /** The identity below for `s`, from the identity for the text after the first occurrence. */
  lemma RemoveAllJoinStep(s: string, pat: string)
    requires pat != [] && Find(s, pat) >= 0
    requires RemoveAll(s[Find(s, pat) + |pat|..], pat) == Join(Split(s[Find(s, pat) + |pat|..], pat), "")
    ensures RemoveAll(s, pat) == Join(Split(s, pat), "")
  {
    var i := Find(s, pat);
    var rest := s[i + |pat|..];
    RemoveAllAtFind(s, pat);
    SplitAtFind(s, pat);
    JoinConsEmpty(s[..i], Split(rest, pat));
  }

  /** CPython's identity `s.replace(pat, '') == ''.join(s.split(pat))`. */
  lemma {:induction false} RemoveAllIsJoinOfSplit(s: string, pat: string)
    requires pat != []
    ensures RemoveAll(s, pat) == Join(Split(s, pat), "")
    decreases |s|
  {
    if Find(s, pat) < 0 {
      RemoveAllNone(s, pat);
      SplitNone(s, pat);
    } else {
      RemoveAllIsJoinOfSplit(s[Find(s, pat) + |pat|..], pat);
      RemoveAllJoinStep(s, pat);
    }
  }

  // ---------------------------------------------------------------------
  // int(...) and str(n)
  // ---------------------------------------------------------------------

  function DigitValue(c: char): nat
    requires IsDigit(c)
  {
    (c as int) - ('0' as int)
  }

  function DigitChar(d: nat): (c: char)
    requires d < 10
    ensures IsDigit(c) && DigitValue(c) == d
  {
    ('0' as int + d) as char
  }

  /** The value of a string of decimal digits (leading zeros allowed, as in `int('007')`). */
  function DecimalValue(s: string): nat
    requires AllDigits(s)
  {
    if s == [] then 0 else 10 * DecimalValue(s[..|s| - 1]) + DigitValue(s[|s| - 1])
  }

  /** `str(n)` for a non-negative integer. */
  function NatToString(n: nat): (r: string)
    ensures r != [] && AllDigits(r) && DecimalValue(r) == n
    ensures |r| > 1 ==> r[0] != '0'
  {
    if n < 10 then [DigitChar(n)]
    else
      var r := NatToString(n / 10) + [DigitChar(n % 10)];
      assert r[..|r| - 1] == NatToString(n / 10);
      r
  }

  /**
   * `int(s)` for a `str` argument: surrounding whitespace, an optional sign and one or
   * more digits; anything else raises `ValueError`, which is `None` here.
   */
  function PyInt(s: string): Option<int>
  {
    var t := Strip(s);
    if t != [] && (t[0] == '+' || t[0] == '-') then
      var digits := t[1..];
      if digits != [] && AllDigits(digits) then
        var v: int := DecimalValue(digits);
        Some(if t[0] == '-' then -v else v)
      else None
    else if t != [] && AllDigits(t) then Some(DecimalValue(t))
    else None
  }

  /** `int(str(n))` with whitespace around it gives `n` back. */
  lemma PyIntOfNatToString(w1: string, n: nat, w2: string)
    requires AllSpace(w1) && AllSpace(w2)
    ensures PyInt(w1 + NatToString(n) + w2) == Some(n)
  {
    var d := NatToString(n);
    assert NoEdgeSpace(d) by {
      assert IsDigit(d[0]) && IsDigit(d[|d| - 1]);
    }
    StripPadded(w1, d, w2);
    assert IsDigit(d[0]);
  }

  /** `int()` rejects a string whose stripped form has a character other than a sign or a digit. */
  lemma PyIntRejects(s: string, k: nat)
    requires k < |Strip(s)| && !IsDigit(Strip(s)[k])
    requires k > 0 || (Strip(s)[0] != '+' && Strip(s)[0] != '-')
    ensures PyInt(s) == None
  {
    var t := Strip(s);
    if k > 0 && (t[0] == '+' || t[0] == '-') {
      assert t[1..][k - 1] == t[k];
    }
  }
}
