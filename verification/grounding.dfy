/** The post-processing of a finished answer: phrases grounded to image
    regions are written `<p>phrase</p>[x1,y1,x2,y2,...]`; the front end finds
    them all with the regular expression `<p>(.*?)<\/p>\s*(\[[\d.,;\s]*\])`,
    gives each the next colour of a five-colour palette, collects the
    `\d+\.\d+` numbers of its bracket, and recolours the first remaining
    `<p>phrase</p>` of the text. */
module Grounding {
  import opened Wrappers
  import opened PyStr

  const Palette: seq<string> := ["red", "blue", "green", "purple", "orange"]

  /** `\d`, read as the ASCII digits. */
  predicate IsDigit(c: char) {
    '0' <= c <= '9'
  }

  /** The character class `[\d.,;\s]` of the bracket. */
  predicate InListClass(c: char) {
    IsDigit(c) || c == '.' || c == ',' || c == ';' || IsSpace(c)
  }

  predicate NoNewline(s: string, a: nat, b: nat)
    requires a <= b <= |s|
  {
    forall x :: a <= x < b ==> s[x] != '\n'
  }

  // ---------------------------------------------------------------------------
  // Greedy runs

  /** End of the greedy `\s*` run from `i`. */
  function SkipSpace(s: string, i: nat): (r: nat)
    requires i <= |s|
    ensures i <= r <= |s|
    ensures forall x :: i <= x < r ==> IsSpace(s[x])
    ensures r == |s| || !IsSpace(s[r])
    decreases |s| - i
  {
    if i < |s| && IsSpace(s[i]) then SkipSpace(s, i + 1) else i
  }

  /** End of the greedy `[\d.,;\s]*` run from `i`. */
  function SkipListChars(s: string, i: nat): (r: nat)
    requires i <= |s|
    ensures i <= r <= |s|
    ensures forall x :: i <= x < r ==> InListClass(s[x])
    ensures r == |s| || !InListClass(s[r])
    decreases |s| - i
  {
    if i < |s| && InListClass(s[i]) then SkipListChars(s, i + 1) else i
  }

  /** End of the greedy `\d*` run from `i`. */
  function SkipDigits(s: string, i: nat): (r: nat)
    requires i <= |s|
    ensures i <= r <= |s|
    ensures forall x :: i <= x < r ==> IsDigit(s[x])
    ensures r == |s| || !IsDigit(s[r])
    decreases |s| - i
  {
    if i < |s| && IsDigit(s[i]) then SkipDigits(s, i + 1) else i
  }

  // ---------------------------------------------------------------------------
  // The part after the closing tag: `\s*(\[[\d.,;\s]*\])`

  /** Where the bracket opens and where the whole match ends. */
  datatype Tail = Tail(open: nat, end: nat)

  /** The ways `\s*(\[[\d.,;\s]*\])` can match from `k`: whitespace up to an
      opening bracket at `o`, list characters up to a closing bracket that
      ends at `e`. */
  predicate TailShape(s: string, k: nat, o: nat, e: nat) {
    && k <= o && o + 2 <= e <= |s|
    && (forall x :: k <= x < o ==> IsSpace(s[x]))
    && s[o] == '['
    && (forall x :: o < x < e - 1 ==> InListClass(s[x]))
    && s[e - 1] == ']'
  }

  /** The regex engine's attempt at the bracket part from `k`. */
  function TailAt(s: string, k: nat): (t: Option<Tail>)
    requires k <= |s|
    ensures t.Some? ==> k <= t.value.open && t.value.open + 2 <= t.value.end <= |s|
  {
    var w := SkipSpace(s, k);
    if w < |s| && s[w] == '[' then
      var r := SkipListChars(s, w + 1);
      if r < |s| && s[r] == ']' then Some(Tail(w, r + 1)) else None
    else None
  }

  /** Neither greedy run of the bracket part can give anything back (a bracket
      is neither whitespace nor a list character), so the bracket part matches
      in at most one way, and `TailAt` finds it whenever there is one. */
  lemma TailAtExact(s: string, k: nat)
    requires k <= |s|
    ensures forall o: nat, e: nat :: TailShape(s, k, o, e) <==> TailAt(s, k) == Some(Tail(o, e))
  {
    var w := SkipSpace(s, k);
    forall o: nat, e: nat | TailShape(s, k, o, e)
      ensures TailAt(s, k) == Some(Tail(o, e))
    {
      assert !IsSpace(s[o]);
      assert w == o;
      var r := SkipListChars(s, w + 1);
      assert !InListClass(s[e - 1]);
      assert r == e - 1;
    }
  }

  /** `</p>` at `j`, followed by a bracket list. */
  predicate ClosesAt(s: string, j: nat) {
    OccursAt(s, "</p>", j) && TailAt(s, j + 4).Some?
  }

  /** The lazy `(.*?)`: the first `j` from the given position at which the
      rest of the pattern matches, without crossing a newline. */
  function LazyClose(s: string, j: nat): (r: Option<nat>)
    requires j <= |s|
    ensures r.Some? ==>
      && j <= r.value <= |s| && NoNewline(s, j, r.value) && ClosesAt(s, r.value)
      && forall x :: j <= x < r.value ==> !ClosesAt(s, x)
    ensures r.None? ==> forall x :: j <= x <= |s| && NoNewline(s, j, x) ==> !ClosesAt(s, x)
    decreases |s| - j
  {
    if ClosesAt(s, j) then Some(j)
    else if j < |s| && s[j] != '\n' then LazyClose(s, j + 1)
    else None
  }

  // ---------------------------------------------------------------------------
  // Whole matches

  /** A match: `<p>` at `start`, `</p>` at `close`, the bracket list from
      `open` up to `end`, where the match ends. */
  datatype Match = Match(start: nat, close: nat, open: nat, end: nat)

  /** Group 1, the tagged phrase. */
  function MatchText(s: string, m: Match): string
    requires m.start + 3 <= m.close <= |s|
  {
    s[m.start + 3..m.close]
  }

  /** Group 2, the bracket list. */
  function MatchList(s: string, m: Match): string
    requires m.open <= m.end <= |s|
  {
    s[m.open..m.end]
  }

  /** Some match of the pattern begins at `i`. */
  predicate MatchesAt(s: string, i: nat) {
    && OccursAt(s, "<p>", i)
    && exists j :: i + 3 <= j <= |s| && NoNewline(s, i + 3, j) && ClosesAt(s, j)
  }

  /** The match the regex engine finds when it tries position `i`. */
  function MatchAt(s: string, i: nat): (r: Option<Match>)
    requires i <= |s|
    ensures r.Some? ==>
      && r.value.start == i && i + 3 <= r.value.close && r.value.close + 4 <= r.value.open
      && r.value.open + 2 <= r.value.end <= |s|
  {
    if OccursAt(s, "<p>", i) then
      match LazyClose(s, i + 3)
      case Some(j) =>
        var t := TailAt(s, j + 4).value;
        Some(Match(i, j, t.open, t.end))
      case None => None
    else None
  }

  /** What the engine finds at `i` is the declarative leftmost-shortest match:
      there is one exactly when some phrase without newline is followed by a
      closing tag and a bracket list, and the phrase found is the shortest. */
  lemma MatchAtExact(s: string, i: nat)
    requires i <= |s|
    ensures MatchAt(s, i).None? <==> !MatchesAt(s, i)
    ensures MatchAt(s, i).Some? ==>
      var m := MatchAt(s, i).value;
      && OccursAt(s, "<p>", i)
      && NoNewline(s, i + 3, m.close)
      && OccursAt(s, "</p>", m.close)
      && TailShape(s, m.close + 4, m.open, m.end)
      && forall x :: i + 3 <= x < m.close ==> !ClosesAt(s, x)
  {
    if OccursAt(s, "<p>", i) {
      var c := LazyClose(s, i + 3);
      if c.Some? {
        var j := c.value;
        var t := TailAt(s, j + 4);
        TailAtFound(s, j + 4);
        assert MatchAt(s, i) == Some(Match(i, j, t.value.open, t.value.end));
        assert MatchesAt(s, i) by {
          assert i + 3 <= j <= |s| && NoNewline(s, i + 3, j) && ClosesAt(s, j);
        }
      } else {
        assert MatchAt(s, i) == None;
      }
    } else {
      assert MatchAt(s, i) == None;
    }
  }

  /** The bracket part `TailAt` reports has the shape of the pattern. */
  lemma TailAtFound(s: string, k: nat)
    requires k <= |s| && TailAt(s, k).Some?
    ensures TailShape(s, k, TailAt(s, k).value.open, TailAt(s, k).value.end)
  {
  }

  /** The positions of a match are in order and inside the text. */
  predicate WellFormed(s: string, m: Match) {
    m.start + 3 <= m.close && m.close + 4 <= m.open && m.open + 2 <= m.end <= |s|
  }

  /** No match starts anywhere in `[a, b)`. */
  predicate NoMatchBetween(s: string, a: nat, b: nat) {
    forall x :: a <= x < b && x <= |s| ==> !MatchesAt(s, x)
  }

  /** `re.findall` from position `p`: the leftmost match, then the search
      resumes where it ended. */
  function FindAll(s: string, p: nat): (ms: seq<Match>)
    requires p <= |s|
    ensures forall k :: 0 <= k < |ms| ==> WellFormed(s, ms[k]) && p <= ms[k].start
    decreases |s| - p
  {
    if p == |s| then []
    else
      match MatchAt(s, p)
      case Some(m) => [m] + FindAll(s, m.end)
      case None => FindAll(s, p + 1)
  }

  /** Every match `findall` reports is the one the engine finds at its start. */
  lemma {:induction false} FindAllMatches(s: string, p: nat)
    requires p <= |s|
    ensures forall k :: 0 <= k < |FindAll(s, p)| ==>
      MatchAt(s, FindAll(s, p)[k].start) == Some(FindAll(s, p)[k])
    decreases |s| - p
  {
    if p < |s| {
      match MatchAt(s, p)
      case Some(m) =>
        FindAllMatches(s, m.end);
      case None =>
        FindAllMatches(s, p + 1);
    }
  }

  /** One step of the scan, with the engine's answer at `p` named. */
  lemma FindAllStep(s: string, p: nat)
    requires p < |s|
    ensures MatchAt(s, p).Some? ==> FindAll(s, p) == [MatchAt(s, p).value] + FindAll(s, MatchAt(s, p).value.end)
    ensures MatchAt(s, p).None? ==> FindAll(s, p) == FindAll(s, p + 1)
  {
  }

  /** Matches in order, each ending no later than the next one starts. */
  predicate Ordered(ms: seq<Match>) {
    forall k :: 0 <= k < |ms| - 1 ==> ms[k].end <= ms[k + 1].start
  }

  lemma OrderedCons(m: Match, rest: seq<Match>)
    requires Ordered(rest)
    requires |rest| > 0 ==> m.end <= rest[0].start
    ensures Ordered([m] + rest)
  {
    var ms := [m] + rest;
    assert forall k :: 1 <= k < |ms| ==> ms[k] == rest[k - 1];
  }

  /** The matches `findall` reports are in order and do not overlap. */
  lemma {:induction false} FindAllOrdered(s: string, p: nat)
    requires p <= |s|
    ensures Ordered(FindAll(s, p))
    decreases |s| - p
  {
    if p < |s| {
      FindAllStep(s, p);
      var r := MatchAt(s, p);
      if r.Some? {
        FindAllOrdered(s, r.value.end);
        OrderedCons(r.value, FindAll(s, r.value.end));
      } else {
        FindAllOrdered(s, p + 1);
      }
    }
  }

  /** No match of `s` starts in any gap a scan from `p` that reported `ms`
      skipped: before the first match, between two consecutive ones, or after
      the last. */
  predicate NoSkippedMatch(s: string, p: nat, ms: seq<Match>) {
    && (|ms| == 0 ==> NoMatchBetween(s, p, |s| + 1))
    && (|ms| > 0 ==> NoMatchBetween(s, p, ms[0].start))
    && (|ms| > 0 ==> NoMatchBetween(s, ms[|ms| - 1].end, |s| + 1))
    && (forall k :: 0 <= k < |ms| - 1 ==> NoMatchBetween(s, ms[k].end, ms[k + 1].start))
  }

  lemma NoSkippedMatchCons(s: string, m: Match, rest: seq<Match>)
    requires NoSkippedMatch(s, m.end, rest)
    ensures NoSkippedMatch(s, m.start, [m] + rest)
  {
    var ms := [m] + rest;
    assert forall k :: 1 <= k < |ms| ==> ms[k] == rest[k - 1];
    if |rest| > 0 {
      assert ms[|ms| - 1] == rest[|rest| - 1];
    }
  }

  lemma NoSkippedMatchSkip(s: string, p: nat, rest: seq<Match>)
    requires p <= |s| && !MatchesAt(s, p)
    requires NoSkippedMatch(s, p + 1, rest)
    requires |rest| > 0 ==> p < rest[0].start
    ensures NoSkippedMatch(s, p, rest)
  {
  }

  /** Together with `FindAllOrdered`: the matches `findall` reports are exactly
      the leftmost, non-overlapping matches. */
  lemma {:induction false} FindAllLeftmost(s: string, p: nat)
    requires p <= |s|
    ensures NoSkippedMatch(s, p, FindAll(s, p))
    decreases |s| - p
  {
    if p == |s| {
      assert !OccursAt(s, "<p>", p);
    } else {
      MatchAtExact(s, p);
      FindAllStep(s, p);
      var r := MatchAt(s, p);
      if r.Some? {
        FindAllLeftmost(s, r.value.end);
        NoSkippedMatchCons(s, r.value, FindAll(s, r.value.end));
      } else {
        FindAllLeftmost(s, p + 1);
        NoSkippedMatchSkip(s, p, FindAll(s, p + 1));
      }
    }
  }

  // ---------------------------------------------------------------------------
  // The numbers of a bracket: `re.findall(r'\d+\.\d+', list_str)`

  predicate AllDigits(x: string) {
    forall k :: 0 <= k < |x| ==> IsDigit(x[k])
  }

  /** Digits, a dot, digits: the shape `\d+\.\d+`. */
  predicate IsDecimalToken(x: string) {
    var d := SkipDigits(x, 0);
    0 < d < |x| - 1 && x[d] == '.' && SkipDigits(x, d + 1) == |x|
  }

  /** The greedy digit run is determined by where the digits stop. */
  lemma SkipDigitsIs(x: string, i: nat, r: nat)
    requires i <= r <= |x|
    requires forall k :: i <= k < r ==> IsDigit(x[k])
    requires r == |x| || !IsDigit(x[r])
    ensures SkipDigits(x, i) == r
  {
  }

  /** Where a `\d+\.\d+` match starting at `i` ends, if one starts there:
      the greedy digits, a dot, and at least one more digit. */
  function NumberEnd(t: string, i: nat): (e: Option<nat>)
    requires i <= |t|
    ensures e.Some? ==> i < e.value <= |t|
    ensures i < |t| && !IsDigit(t[i]) ==> e.None?
  {
    var a := SkipDigits(t, i);
    if a > i && a < |t| && t[a] == '.' && SkipDigits(t, a + 1) > a + 1 then Some(SkipDigits(t, a + 1))
    else None
  }

  /** What `NumberEnd` finds is a well-formed number. */
  lemma NumberEndToken(t: string, i: nat)
    requires i <= |t| && NumberEnd(t, i).Some?
    ensures IsDecimalToken(t[i..NumberEnd(t, i).value])
  {
    var a := SkipDigits(t, i);
    var b := SkipDigits(t, a + 1);
    var tok := t[i..b];
    assert forall k :: 0 <= k < |tok| ==> tok[k] == t[i + k];
    SkipDigitsIs(tok, 0, a - i);
    SkipDigitsIs(tok, a - i + 1, |tok|);
  }

  /** The `\d+\.\d+` tokens of `t` from position `i`, left to right. */
  function DecimalTokens(t: string, i: nat): (toks: seq<string>)
    requires i <= |t|
    ensures forall k :: 0 <= k < |toks| ==> IsDecimalToken(toks[k])
    decreases |t| - i
  {
    if i == |t| then []
    else
      match NumberEnd(t, i)
      case Some(b) =>
        NumberEndToken(t, i);
        [t[i..b]] + DecimalTokens(t, b)
      case None => DecimalTokens(t, i + 1)
  }

  /** A bracket without a dot holds no number. */
  lemma {:induction false} NoDotNoNumbers(t: string, i: nat)
    requires i <= |t| && '.' !in t
    ensures DecimalTokens(t, i) == []
    decreases |t| - i
  {
    if i < |t| {
      var a := SkipDigits(t, i);
      assert a < |t| ==> t[a] != '.';
      NoDotNoNumbers(t, i + 1);
    }
  }

  predicate NoDigits(w: string) {
    forall k :: 0 <= k < |w| ==> !IsDigit(w[k])
  }

  /** Numbers written one after another with `sep` between them, the way a
      box list is written. */
  function Listed(toks: seq<string>, sep: string): string {
    if |toks| == 0 then ""
    else if |toks| == 1 then toks[0]
    else toks[0] + sep + Listed(toks[1..], sep)
  }

  /** A number followed by a non-digit, or by the end, is read whole and the
      scan resumes right after it. */
  lemma TokenAt(t: string, i: nat, tok: string)
    requires IsDecimalToken(tok) && i + |tok| <= |t| && t[i..i + |tok|] == tok
    requires i + |tok| == |t| || !IsDigit(t[i + |tok|])
    ensures DecimalTokens(t, i) == [tok] + DecimalTokens(t, i + |tok|)
  {
    var d := SkipDigits(tok, 0);
    assert forall k :: i <= k < i + |tok| ==> t[k] == tok[k - i];
    SkipDigitsIs(t, i, i + d);
    SkipDigitsIs(t, i + d + 1, i + |tok|);
    assert NumberEnd(t, i) == Some(i + |tok|);
  }

  /** Characters that are not digits are passed over. */
  lemma {:induction false} SkipNoDigits(t: string, j: nat, w: string)
    requires NoDigits(w) && j + |w| <= |t| && t[j..j + |w|] == w
    ensures DecimalTokens(t, j) == DecimalTokens(t, j + |w|)
    decreases |w|
  {
    if |w| > 0 {
      assert t[j] == w[0];
      assert t[j + 1..j + |w|] == w[1..];
      SkipNoDigits(t, j + 1, w[1..]);
    }
  }

  /** Where the first number and the separator after it lie, when a listing
      of several numbers is found at `i`. */
  lemma ListedSplit(t: string, i: nat, toks: seq<string>, sep: string)
    requires |toks| > 1
    requires i + |Listed(toks, sep)| <= |t| && t[i..i + |Listed(toks, sep)|] == Listed(toks, sep)
    ensures var j := i + |toks[0]|;
      var k := j + |sep|;
      var m := Listed(toks[1..], sep);
      && k + |m| == i + |Listed(toks, sep)|
      && t[i..j] == toks[0] && t[j..k] == sep && t[k..k + |m|] == m
  {
    var l := Listed(toks, sep);
    var tok := toks[0];
    var m := Listed(toks[1..], sep);
    assert l == tok + sep + m;
    ThreeParts(t, i, tok, sep, m);
  }

  /** Where the three parts of `x + y + z` lie when it sits at `i` in `t`. */
  lemma ThreeParts(t: string, i: nat, x: string, y: string, z: string)
    requires i + |x + y + z| <= |t| && t[i..i + |x + y + z|] == x + y + z
    ensures t[i..i + |x|] == x
    ensures t[i + |x|..i + |x| + |y|] == y
    ensures t[i + |x| + |y|..i + |x| + |y| + |z|] == z
  {
    var n := |x + y + z|;
    forall p | 0 <= p < |x| ensures t[i + p] == x[p] {
      assert t[i..i + n][p] == (x + y + z)[p];
    }
    forall p | 0 <= p < |y| ensures t[i + |x| + p] == y[p] {
      assert t[i..i + n][|x| + p] == (x + y + z)[|x| + p];
    }
    forall p | 0 <= p < |z| ensures t[i + |x| + |y| + p] == z[p] {
      assert t[i..i + n][|x| + |y| + p] == (x + y + z)[|x| + |y| + p];
    }
  }

  lemma ConsAppend<T>(xs: seq<T>, r: seq<T>)
    requires |xs| > 0
    ensures [xs[0]] + (xs[1..] + r) == xs + r
  {
    assert xs == [xs[0]] + xs[1..];
  }

  /** A number and the separator after it: the number is read and the scan
      resumes after the separator. */
  lemma ReadWithSeparator(t: string, i: nat, tok: string, sep: string, k: nat)
    requires IsDecimalToken(tok) && |sep| > 0 && NoDigits(sep)
    requires i + |tok| + |sep| == k <= |t|
    requires t[i..i + |tok|] == tok && t[i + |tok|..k] == sep
    ensures DecimalTokens(t, i) == [tok] + DecimalTokens(t, k)
  {
    var j := i + |tok|;
    assert t[j] == t[j..k][0];
    TokenAt(t, i, tok);
    SkipNoDigits(t, j, sep);
  }

  /** Listed numbers are read back one by one, in order, and the scan goes
      on after them when no digit follows. */
  lemma {:induction false} ListedAt(t: string, i: nat, toks: seq<string>, sep: string)
    requires forall k :: 0 <= k < |toks| ==> IsDecimalToken(toks[k])
    requires |sep| > 0 && NoDigits(sep)
    requires i + |Listed(toks, sep)| <= |t| && t[i..i + |Listed(toks, sep)|] == Listed(toks, sep)
    requires i + |Listed(toks, sep)| == |t| || !IsDigit(t[i + |Listed(toks, sep)|])
    ensures DecimalTokens(t, i) == toks + DecimalTokens(t, i + |Listed(toks, sep)|)
    decreases |toks|, 1
  {
    if |toks| == 1 {
      TokenAt(t, i, toks[0]);
      assert toks == [toks[0]];
    } else if |toks| > 1 {
      ListedAtMany(t, i, toks, sep);
    }
  }

  lemma {:induction false} ListedAtMany(t: string, i: nat, toks: seq<string>, sep: string)
    requires |toks| > 1
    requires forall k :: 0 <= k < |toks| ==> IsDecimalToken(toks[k])
    requires |sep| > 0 && NoDigits(sep)
    requires i + |Listed(toks, sep)| <= |t| && t[i..i + |Listed(toks, sep)|] == Listed(toks, sep)
    requires i + |Listed(toks, sep)| == |t| || !IsDigit(t[i + |Listed(toks, sep)|])
    ensures DecimalTokens(t, i) == toks + DecimalTokens(t, i + |Listed(toks, sep)|)
    decreases |toks|, 0
  {
    ListedSplit(t, i, toks, sep);
    var k := i + |toks[0]| + |sep|;
    ReadWithSeparator(t, i, toks[0], sep, k);
    ListedAt(t, k, toks[1..], sep);
    ConsAppend(toks, DecimalTokens(t, i + |Listed(toks, sep)|));
  }

  /** A bracket listing well-formed numbers with a digit-free separator, such
      as `[0.12,0.3,0.5,0.77]`, yields exactly those numbers, in order. */
  lemma BracketTokens(toks: seq<string>, sep: string)
    requires forall k :: 0 <= k < |toks| ==> IsDecimalToken(toks[k])
    requires |sep| > 0 && NoDigits(sep)
    ensures DecimalTokens("[" + Listed(toks, sep) + "]", 0) == toks
  {
    var l := Listed(toks, sep);
    var t := "[" + l + "]";
    assert t[0..|t|] == t;
    ThreeParts(t, 0, "[", l, "]");
    SkipNoDigits(t, 0, "[");
    ListedAt(t, 1, toks, sep);
    SkipNoDigits(t, 1 + |l|, "]");
    assert toks + [] == toks;
  }

  /** Value of a string of decimal digits. */
  function DigitsValue(x: string): nat
    requires AllDigits(x)
  {
    if |x| == 0 then 0
    else 10 * DigitsValue(x[..|x| - 1]) + (x[|x| - 1] as int - '0' as int)
  }

  function Pow10(n: nat): (r: nat)
    ensures r >= 1
  {
    if n == 0 then 1 else 10 * Pow10(n - 1)
  }

  lemma {:induction false} DigitsBelowPow10(x: string)
    requires AllDigits(x)
    ensures DigitsValue(x) < Pow10(|x|)
    decreases |x|
  {
    if |x| > 0 {
      DigitsBelowPow10(x[..|x| - 1]);
    }
  }

  /** The digits before the dot of a token. */
  function IntegerPart(tok: string): (x: string)
    requires IsDecimalToken(tok)
    ensures AllDigits(x)
  {
    tok[..SkipDigits(tok, 0)]
  }

  /** The digits after the dot of a token. */
  function Fraction(tok: string): (x: string)
    requires IsDecimalToken(tok)
    ensures AllDigits(x)
  {
    tok[SkipDigits(tok, 0) + 1..]
  }

  /** `float(tok)` read exactly (binary rounding is not modelled): the integer
      part plus a fraction that lies in [0, 1). */
  function DecimalValue(tok: string): (v: real)
    requires IsDecimalToken(tok)
    ensures DigitsValue(IntegerPart(tok)) as real <= v < (DigitsValue(IntegerPart(tok)) + 1) as real
  {
    var frac := Fraction(tok);
    DigitsBelowPow10(frac);
    FractionBelowOne(DigitsValue(frac), Pow10(|frac|));
    DigitsValue(IntegerPart(tok)) as real + (DigitsValue(frac) as real) / (Pow10(|frac|) as real)
  }

  lemma FractionBelowOne(n: nat, d: nat)
    requires n < d
    ensures 0.0 <= (n as real) / (d as real) < 1.0
  {
    var q := (n as real) / (d as real);
    assert q * (d as real) == n as real;
  }

  // ---------------------------------------------------------------------------
  // extract_and_color

  /** One grounded phrase: its text, its number tokens and its colour. */
  datatype Annotation = Annotation(text: string, numbers: seq<string>, color: string)

  function TaggedSpan(text: string): string {
    "<p>" + text + "</p>"
  }

  function ColoredSpan(text: string, color: string): string {
    "<span style=\"color:" + color + "\">" + text + "</span>"
  }

  /** The markdown string after recolouring the annotations in order: each
      step replaces the leftmost remaining `<p>text</p>` of its phrase. */
  function Recolor(s: string, anns: seq<Annotation>): string
    decreases |anns|
  {
    if |anns| == 0 then s
    else
      var last := anns[|anns| - 1];
      ReplaceFirst(Recolor(s, anns[..|anns| - 1]), TaggedSpan(last.text), ColoredSpan(last.text, last.color))
  }

  /** The annotation the loop builds for the `i`-th match. */
  function AnnotationOf(s: string, m: Match, i: nat): Annotation
    requires WellFormed(s, m)
  {
    Annotation(MatchText(s, m), DecimalTokens(MatchList(s, m), 0), Palette[i % |Palette|])
  }

  /** The annotations of `s`, one per match in order: the reference the loop of
      `ExtractAndColor` is measured against. */
  function Annotations(s: string): (anns: seq<Annotation>)
    ensures |anns| == |FindAll(s, 0)|
    ensures forall i :: 0 <= i < |anns| ==>
      && anns[i].color == Palette[i % 5]
      && forall k :: 0 <= k < |anns[i].numbers| ==> IsDecimalToken(anns[i].numbers[k])
  {
    var ms := FindAll(s, 0);
    seq(|ms|, i requires 0 <= i < |ms| => AnnotationOf(s, ms[i], i))
  }

  /** `extract_and_color`: one annotation per match, in order, the `i`-th one
      coloured `Palette[i mod 5]`, and the text recoloured phrase by phrase. */
  method ExtractAndColor(s: string) returns (result: seq<Annotation>, markdown: string)
    ensures var ms := FindAll(s, 0);
      && |result| == |ms|
      && forall i :: 0 <= i < |ms| ==>
        && result[i].text == MatchText(s, ms[i])
        && result[i].numbers == DecimalTokens(MatchList(s, ms[i]), 0)
        && result[i].color == Palette[i % 5]
    ensures result == Annotations(s)
    ensures markdown == Recolor(s, result)
  {
    var matches := FindAll(s, 0);
    result := [];
    markdown := s;
    var colorIdx := 0;
    for i := 0 to |matches|
      invariant |result| == i
      invariant colorIdx == i % 5
      invariant AnnotatesPrefix(s, matches, result)
      invariant markdown == Recolor(s, result)
    {
      var m := matches[i];
      var text := MatchText(s, m);
      var numbers := DecimalTokens(MatchList(s, m), 0);
      var color := Palette[colorIdx];
      var a := Annotation(text, numbers, color);
      assert a == AnnotationOf(s, m, i);
      AnnotatesSnoc(s, matches, result, a);
      RecolorSnoc(s, result, a);
      markdown := ReplaceFirst(markdown, TaggedSpan(text), ColoredSpan(text, color));
      result := result + [a];
      NextColorIndex(i, colorIdx);
      colorIdx := (colorIdx + 1) % |Palette|;
    }
  }

  /** `anns` holds, in order, the annotations of the first `|anns|` matches. */
  predicate AnnotatesPrefix(s: string, ms: seq<Match>, anns: seq<Annotation>)
  {
    && |anns| <= |ms|
    && forall k :: 0 <= k < |anns| ==> WellFormed(s, ms[k]) && anns[k] == AnnotationOf(s, ms[k], k)
  }

  lemma AnnotatesSnoc(s: string, ms: seq<Match>, anns: seq<Annotation>, a: Annotation)
    requires AnnotatesPrefix(s, ms, anns)
    requires |anns| < |ms| && WellFormed(s, ms[|anns|])
    requires a == AnnotationOf(s, ms[|anns|], |anns|)
    ensures AnnotatesPrefix(s, ms, anns + [a])
  {
  }

  lemma RecolorSnoc(s: string, anns: seq<Annotation>, a: Annotation)
    ensures Recolor(s, anns + [a]) == ReplaceFirst(Recolor(s, anns), TaggedSpan(a.text), ColoredSpan(a.text, a.color))
  {
    assert (anns + [a])[..|anns|] == anns;
  }

  /** The colour index wraps around the palette in step with the match count. */
  lemma NextColorIndex(i: nat, c: int)
    requires c == i % 5
    ensures (c + 1) % |Palette| == (i + 1) % 5
  {
    assert |Palette| == 5;
    var q := i / 5;
    assert i == 5 * q + i % 5;
    if i % 5 < 4 {
      assert i + 1 == 5 * q + (i % 5 + 1);
    } else {
      assert i + 1 == 5 * (q + 1);
    }
  }
}
