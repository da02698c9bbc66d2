/** The few Python `str` operations the modelled code relies on:
    `isspace`, `strip`/`rstrip`, `find`, `replace` and `replace(..., 1)`. */
module PyStr {

  /** Python's notion of a whitespace character (`str.isspace`, and `\s` in a
      `str` regular expression). */
  predicate IsSpace(c: char) {
    || c == ' ' || c == '\t' || c == '\n' || c == '\r'
    || c == '\U{000B}' || c == '\U{000C}'
    || ('\U{001C}' <= c <= '\U{001F}')
    || c == '\U{0085}' || c == '\U{00A0}' || c == '\U{1680}'
    || ('\U{2000}' <= c <= '\U{200A}')
    || c == '\U{2028}' || c == '\U{2029}' || c == '\U{202F}'
    || c == '\U{205F}' || c == '\U{3000}'
  }

  predicate AllSpace(s: string) {
    forall i :: 0 <= i < |s| ==> IsSpace(s[i])
  }

  /** `s.isspace()`: true for a non-empty string of whitespace only. */
  predicate IsSpaceStr(s: string) {
    |s| > 0 && AllSpace(s)
  }

  /** `s.rstrip()`: the longest prefix of `s` that does not end in whitespace,
      and every character it drops is whitespace. */
  function RStrip(s: string): (r: string)
    ensures r <= s
    ensures |r| == 0 || !IsSpace(r[|r| - 1])
    ensures forall i :: |r| <= i < |s| ==> IsSpace(s[i])
  {
    if |s| > 0 && IsSpace(s[|s| - 1]) then RStrip(s[..|s| - 1]) else s
  }

  /** `s.lstrip()`: the suffix of `s` left after dropping leading whitespace. */
  function LStrip(s: string): (r: string)
    ensures |r| <= |s| && r == s[|s| - |r|..]
    ensures |r| == 0 || !IsSpace(r[0])
    ensures forall i :: 0 <= i < |s| - |r| ==> IsSpace(s[i])
  {
    if |s| > 0 && IsSpace(s[0]) then LStrip(s[1..]) else s
  }

  /** `s.strip()`: whitespace removed from both ends; nothing is left exactly
      when the string was whitespace only. */
  function Strip(s: string): (r: string)
    ensures |r| == 0 || (!IsSpace(r[0]) && !IsSpace(r[|r| - 1]))
    ensures |r| == 0 <==> AllSpace(s)
  {
    var l := LStrip(s);
    var r := RStrip(l);
    StripEmptyIffSpace(s, l, r);
    r
  }

  lemma StripEmptyIffSpace(s: string, l: string, r: string)
    requires l == LStrip(s) && r == RStrip(l)
    ensures |r| == 0 || !IsSpace(r[0])
    ensures |r| == 0 <==> AllSpace(s)
  {
    var a := |s| - |l|;
    if |r| > 0 {
      assert r[0] == l[0];
      assert s[a] == l[0];
    }
  }

  /** Stripping a string that is `x` padded with whitespace on both sides gives
      `x` back, provided `x` itself neither starts nor ends with whitespace. */
  lemma {:induction false} StripPadded(pre: string, x: string, post: string)
    requires AllSpace(pre) && AllSpace(post)
    requires |x| == 0 || (!IsSpace(x[0]) && !IsSpace(x[|x| - 1]))
    requires |x| > 0 || |pre| + |post| == 0
    ensures Strip(pre + x + post) == x
  {
    LStripSpaces(pre, x + post);
    assert pre + x + post == pre + (x + post);
    RStripSpaces(x, post);
  }

  lemma {:induction false} LStripSpaces(pre: string, rest: string)
    requires AllSpace(pre)
    requires |rest| == 0 || !IsSpace(rest[0])
    ensures LStrip(pre + rest) == rest
    decreases |pre|
  {
    if |pre| > 0 {
      assert (pre + rest)[1..] == pre[1..] + rest;
      LStripSpaces(pre[1..], rest);
    }
  }

  lemma {:induction false} RStripSpaces(rest: string, post: string)
    requires AllSpace(post)
    requires |rest| == 0 || !IsSpace(rest[|rest| - 1])
    ensures RStrip(rest + post) == rest
    decreases |post|
  {
    if |post| > 0 {
      var n := |post| - 1;
      assert (rest + post)[..|rest + post| - 1] == rest + post[..n];
      RStripSpaces(rest, post[..n]);
    } else {
      assert rest + post == rest;
    }
  }

  /** Stripping twice is stripping once. */
  lemma StripIdempotent(s: string)
    ensures Strip(Strip(s)) == Strip(s)
  {
    var r := Strip(s);
    StripPadded([], r, []);
    assert [] + r + [] == r;
  }

  /** A prefix of a string that keeps up to the rstripped end of the longer one
      rstrips to a prefix of it: `rstrip` is monotone for the prefix order. */
  lemma {:induction false} RStripMonotone(x: string, y: string)
    requires x <= y
    ensures RStrip(x) <= RStrip(y)
    decreases |y|
  {
    if |y| > |x| {
      if IsSpace(y[|y| - 1]) {
        RStripMonotone(x, y[..|y| - 1]);
      } else {
        assert RStrip(y) == y;
      }
    }
  }

  // ---------------------------------------------------------------------------
  // Occurrences

  predicate StartsWith(s: string, w: string) {
    |w| <= |s| && s[..|w|] == w
  }

  predicate OccursAt(s: string, w: string, i: int) {
    0 <= i && i + |w| <= |s| && s[i..i + |w|] == w
  }

  predicate Contains(s: string, w: string) {
    exists i :: 0 <= i <= |s| && OccursAt(s, w, i)
  }

  /** An occurrence is either at the front or somewhere in the tail. */
  lemma ContainsUnfold(s: string, w: string)
    ensures Contains(s, w) <==> StartsWith(s, w) || (|s| > 0 && Contains(s[1..], w))
  {
    if Contains(s, w) && !StartsWith(s, w) {
      var i :| 0 <= i <= |s| && OccursAt(s, w, i);
      assert 0 <= i && i + |w| <= |s|;
      assert i != 0;
      assert s[1..][i - 1..i - 1 + |w|] == s[i..i + |w|];
      assert OccursAt(s[1..], w, i - 1);
    }
    if |s| > 0 && Contains(s[1..], w) {
      var i :| 0 <= i <= |s[1..]| && OccursAt(s[1..], w, i);
      assert 0 <= i && i + |w| <= |s| - 1;
      assert s[1..][i..i + |w|] == s[i + 1..i + 1 + |w|];
      assert OccursAt(s, w, i + 1);
    }
    if StartsWith(s, w) {
      assert OccursAt(s, w, 0);
    }
  }

  /** A prefix of a string free of `w` is free of `w`. */
  lemma PrefixAvoids(x: string, y: string, w: string)
    requires x <= y && !Contains(y, w)
    ensures !Contains(x, w)
  {
    forall i | 0 <= i <= |x| ensures !OccursAt(x, w, i) {
      if i + |w| <= |x| {
        assert x[i..i + |w|] == y[i..i + |w|];
        assert !OccursAt(y, w, i);
      }
    }
  }

  /** `s.find(w)`: the lowest index at which `w` occurs, or -1. */
  function Find(s: string, w: string): (r: int)
    ensures r == -1 <==> !Contains(s, w)
    ensures r != -1 ==> OccursAt(s, w, r) && forall i :: 0 <= i < r ==> !OccursAt(s, w, i)
  {
    ContainsUnfold(s, w);
    if StartsWith(s, w) then
      assert OccursAt(s, w, 0);
      0
    else if |s| == 0 then
      -1
    else
      var k := Find(s[1..], w);
      if k == -1 then -1
      else
        assert forall i :: 1 <= i < k + 1 ==> OccursAt(s, w, i) == OccursAt(s[1..], w, i - 1);
        k + 1
  }

  /** `s.replace(pat, rep)` for a non-empty `pat`: every occurrence, scanned
      left to right without overlap, is replaced. */
  function Replace(s: string, pat: string, rep: string): (r: string)
    requires |pat| > 0
    ensures !Contains(s, pat) ==> r == s
    decreases |s|
  {
    ContainsUnfold(s, pat);
    if |s| == 0 then s
    else if StartsWith(s, pat) then rep + Replace(s[|pat|..], pat, rep)
    else [s[0]] + Replace(s[1..], pat, rep)
  }

  /** `s.replace(pat, rep, 1)`: only the leftmost occurrence is replaced; a
      string without `pat` is returned unchanged. */
  function ReplaceFirst(s: string, pat: string, rep: string): (r: string)
    ensures !Contains(s, pat) ==> r == s
    ensures Contains(s, pat) ==> exists p ::
      && OccursAt(s, pat, p)
      && (forall i :: 0 <= i < p ==> !OccursAt(s, pat, i))
      && r == s[..p] + rep + s[p + |pat|..]
  {
    var p := Find(s, pat);
    if p == -1 then s else s[..p] + rep + s[p + |pat|..]
  }

  // ---------------------------------------------------------------------------
  // How `replace` acts on strings of particular shapes

  /** A head character that cannot start `pat` is copied through. */
  lemma ReplaceConsNoMatch(c: char, t: string, pat: string, rep: string)
    requires |pat| > 0 && c != pat[0]
    ensures Replace([c] + t, pat, rep) == [c] + Replace(t, pat, rep)
  {
    assert ([c] + t)[1..] == t;
  }

  /** A head made only of characters that cannot start `pat` is copied through. */
  lemma {:induction false} ReplaceFreeHead(x: string, y: string, pat: string, rep: string)
    requires |pat| > 0 && pat[0] !in x
    ensures Replace(x + y, pat, rep) == x + Replace(y, pat, rep)
    decreases |x|
  {
    if |x| > 0 {
      assert x + y == [x[0]] + (x[1..] + y);
      ReplaceConsNoMatch(x[0], x[1..] + y, pat, rep);
      ReplaceFreeHead(x[1..], y, pat, rep);
      assert x == [x[0]] + x[1..];
    } else {
      assert x + y == y;
    }
  }

  /** `pat` at the head is replaced and the scan resumes after it. */
  lemma ReplaceHeadMatch(t: string, pat: string, rep: string)
    requires |pat| > 0
    ensures Replace(pat + t, pat, rep) == rep + Replace(t, pat, rep)
  {
    assert (pat + t)[..|pat|] == pat;
    assert (pat + t)[|pat|..] == t;
  }

  /** `replace` against `find`: the text before the leftmost occurrence is
      kept, that occurrence becomes `rep`, and the scan resumes after it. */
  lemma {:induction false} ReplaceAtFirst(s: string, pat: string, rep: string, p: nat)
    requires |pat| > 0 && OccursAt(s, pat, p)
    requires forall i :: 0 <= i < p ==> !OccursAt(s, pat, i)
    ensures Replace(s, pat, rep) == s[..p] + rep + Replace(s[p + |pat|..], pat, rep)
    decreases p, 1
  {
    if p == 0 {
      OccursAtFront(s, pat);
      ReplaceAtFront(s, pat, rep);
    } else {
      OccurrenceInTail(s, pat, p);
      ReplaceInTail(s, pat, rep, p);
    }
  }

  /** The inductive step: the leftmost occurrence lies in the tail. */
  lemma {:induction false} ReplaceInTail(s: string, pat: string, rep: string, p: nat)
    requires |pat| > 0 && 0 < p && p + |pat| <= |s| && !StartsWith(s, pat)
    requires OccursAt(s[1..], pat, p - 1)
    requires forall i :: 0 <= i < p - 1 ==> !OccursAt(s[1..], pat, i)
    ensures Replace(s, pat, rep) == s[..p] + rep + Replace(s[p + |pat|..], pat, rep)
    decreases p, 0
  {
    ReplaceAtFirst(s[1..], pat, rep, p - 1);
    ReplaceAfterHead(s, pat, rep, p);
  }

  lemma OccursAtFront(s: string, w: string)
    ensures OccursAt(s, w, 0) <==> StartsWith(s, w)
  {
  }

  /** An occurrence at the front: nothing is kept before it. */
  lemma {:induction false} ReplaceAtFront(s: string, pat: string, rep: string)
    requires |pat| > 0 && StartsWith(s, pat)
    ensures Replace(s, pat, rep) == s[..0] + rep + Replace(s[0 + |pat|..], pat, rep)
  {
    assert s[..0] + rep == rep;
  }

  /** A head character that does not start `pat` is kept in front of the
      tail's split at `p - 1`. */
  lemma ReplaceAfterHead(s: string, pat: string, rep: string, p: nat)
    requires |pat| > 0 && 0 < p && p + |pat| <= |s| && !StartsWith(s, pat)
    requires Replace(s[1..], pat, rep) == s[1..][..p - 1] + rep + Replace(s[1..][p - 1 + |pat|..], pat, rep)
    ensures Replace(s, pat, rep) == s[..p] + rep + Replace(s[p + |pat|..], pat, rep)
  {
    ReplaceNoHead(s, pat, rep);
    PrefixCons(s, p, |pat|, rep, Replace(s[p + |pat|..], pat, rep));
  }

  /** A text that does not start with `pat` keeps its head character. */
  lemma ReplaceNoHead(s: string, pat: string, rep: string)
    requires |pat| > 0 && |s| > 0 && !StartsWith(s, pat)
    ensures Replace(s, pat, rep) == [s[0]] + Replace(s[1..], pat, rep)
  {
  }

  /** The leftmost occurrence at `p > 0` is the leftmost one of the tail, at
      `p - 1`. */
  lemma OccurrenceInTail(s: string, w: string, p: nat)
    requires 0 < p && OccursAt(s, w, p)
    requires forall i :: 0 <= i < p ==> !OccursAt(s, w, i)
    ensures !StartsWith(s, w)
    ensures OccursAt(s[1..], w, p - 1)
    ensures forall i :: 0 <= i < p - 1 ==> !OccursAt(s[1..], w, i)
  {
    assert !OccursAt(s, w, 0);
    var t := s[1..];
    assert t[p - 1..p - 1 + |w|] == s[p..p + |w|];
    forall i | 0 <= i < p - 1 ensures !OccursAt(t, w, i) {
      assert !OccursAt(s, w, i + 1);
      if i + |w| <= |t| {
        assert t[i..i + |w|] == s[i + 1..i + 1 + |w|];
      }
    }
  }

  /** Re-attaching the head character to the tail's split. */
  lemma PrefixCons(s: string, p: nat, n: nat, x: string, y: string)
    requires 0 < p && p + n <= |s|
    ensures [s[0]] + (s[1..][..p - 1] + x + y) == s[..p] + x + y
    ensures s[1..][p - 1 + n..] == s[p + n..]
  {
    assert [s[0]] + s[1..][..p - 1] == s[..p];
  }

  /** `replace` in terms of `find`: no occurrence leaves the text alone; else
      the one `find` reports is replaced and the rest is scanned again. */
  lemma {:induction false} ReplaceAtFind(s: string, pat: string, rep: string, p: int)
    requires |pat| > 0 && p == Find(s, pat)
    ensures p == -1 ==> Replace(s, pat, rep) == s
    ensures p != -1 ==> 0 <= p && p + |pat| <= |s| && Replace(s, pat, rep) == s[..p] + rep + Replace(s[p + |pat|..], pat, rep)
  {
    if p == -1 {
      assert !Contains(s, pat);
    } else {
      assert OccursAt(s, pat, p);
      ReplaceAtFirst(s, pat, rep, p);
    }
  }

  /** A non-empty prefix is its head character followed by a prefix of the tail. */
  lemma StartsWithCons(x: string, w: string)
    requires |w| > 0
    ensures StartsWith(x, w) <==> |x| > 0 && x[0] == w[0] && StartsWith(x[1..], w[1..])
  {
    if |x| > 0 && |w| <= |x| {
      assert x[..|w|] == [x[0]] + x[1..][..|w| - 1];
      assert w == [w[0]] + w[1..];
    }
  }

  /** When the replacement is a single character `c` foreign to `w`, a prefix
      `w` of the result was already a prefix of the input. */
  lemma {:induction false} ReplacePrefixBack(t: string, pat: string, c: char, w: string)
    requires |pat| > 0 && c !in w
    ensures StartsWith(Replace(t, pat, [c]), w) ==> StartsWith(t, w)
    decreases |t|
  {
    if |w| > 0 && |t| > 0 {
      var out := Replace(t, pat, [c]);
      StartsWithCons(out, w);
      StartsWithCons(t, w);
      if StartsWith(t, pat) {
        assert out == [c] + Replace(t[|pat|..], pat, [c]);
        assert w[0] in w;
      } else {
        var r := Replace(t[1..], pat, [c]);
        assert out == [t[0]] + r;
        assert out[1..] == r;
        ReplacePrefixBack(t[1..], pat, c, w[1..]);
      }
    }
  }

  /** Replacing `pat` by a single character not in `pat` leaves no `pat`. */
  lemma {:induction false} ReplaceLeavesNoPattern(s: string, pat: string, c: char)
    requires |pat| > 0 && c !in pat
    ensures !Contains(Replace(s, pat, [c]), pat)
    decreases |s|
  {
    var r := Replace(s, pat, [c]);
    ContainsUnfold(r, pat);
    StartsWithCons(r, pat);
    if |s| > 0 {
      if StartsWith(s, pat) {
        var rest := Replace(s[|pat|..], pat, [c]);
        ReplaceLeavesNoPattern(s[|pat|..], pat, c);
        assert r == [c] + rest;
        assert r[1..] == rest;
        assert pat[0] in pat;
      } else {
        var rest := Replace(s[1..], pat, [c]);
        ReplaceLeavesNoPattern(s[1..], pat, c);
        assert r == [s[0]] + rest;
        assert r[1..] == rest;
        ReplacePrefixBack(s[1..], pat, c, pat[1..]);
        StartsWithCons(s, pat);
      }
    }
  }

  /** Replacing anything by a single character not in `w` cannot create `w`. */
  lemma {:induction false} ReplaceKeepsAbsent(s: string, pat: string, c: char, w: string)
    requires |pat| > 0 && |w| > 0 && c !in w
    requires !Contains(s, w)
    ensures !Contains(Replace(s, pat, [c]), w)
    decreases |s|
  {
    var r := Replace(s, pat, [c]);
    ContainsUnfold(s, w);
    ContainsUnfold(r, w);
    StartsWithCons(r, w);
    if |s| > 0 {
      if StartsWith(s, pat) {
        var rest := Replace(s[|pat|..], pat, [c]);
        SuffixAvoids(s, |pat|, w);
        ReplaceKeepsAbsent(s[|pat|..], pat, c, w);
        assert r == [c] + rest;
        assert r[1..] == rest;
        assert w[0] in w;
      } else {
        var rest := Replace(s[1..], pat, [c]);
        ReplaceKeepsAbsent(s[1..], pat, c, w);
        assert r == [s[0]] + rest;
        assert r[1..] == rest;
        ReplacePrefixBack(s[1..], pat, c, w[1..]);
        StartsWithCons(s, w);
      }
    }
  }

  /** A suffix of a string free of `w` is free of `w`. */
  lemma SuffixAvoids(s: string, k: nat, w: string)
    requires k <= |s| && !Contains(s, w)
    ensures !Contains(s[k..], w)
  {
    forall i | 0 <= i <= |s[k..]|
      ensures !OccursAt(s[k..], w, i)
    {
      if i + |w| <= |s| - k {
        assert s[k..][i..i + |w|] == s[i + k..i + k + |w|];
        assert !OccursAt(s, w, i + k);
      }
    }
  }
}
