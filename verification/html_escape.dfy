/** The angle-bracket escaping of the chat front end: text shown in the chat
    window has `<` and `>` turned into `&lt;` and `&gt;`, and the history sent
    back to the model workers has those two entities turned back. */
module HtmlEscape {
  import opened PyStr

  const LtEntity: string := "&lt;"
  const GtEntity: string := "&gt;"

  /** `s.replace("<", "&lt;").replace(">", "&gt;")`, applied to every chunk
      before it is displayed. */
  function Escape(s: string): (r: string)
    ensures '<' !in r && '>' !in r
  {
    EscapeIsCharwise(s);
    EscapeCharsNoBrackets(s);
    Replace(Replace(s, "<", LtEntity), ">", GtEntity)
  }

  /** `s.replace("&lt;", "<").replace("&gt;", ">")`, applied to every turn of
      the history copy sent to the workers. */
  function Unescape(s: string): (r: string)
    ensures !Contains(r, LtEntity) && !Contains(r, GtEntity)
    ensures !Contains(s, LtEntity) && !Contains(s, GtEntity) ==> r == s
  {
    var once := Replace(s, LtEntity, "<");
    ReplaceLeavesNoPattern(s, LtEntity, '<');
    ReplaceKeepsAbsent(once, GtEntity, '>', LtEntity);
    ReplaceLeavesNoPattern(once, GtEntity, '>');
    Replace(once, GtEntity, ">")
  }

  // ---------------------------------------------------------------------------
  // Character-wise reference definitions

  function EscapeChar(c: char): string {
    if c == '<' then LtEntity else if c == '>' then GtEntity else [c]
  }

  /** Escaping as a map over the characters, independent of `replace`. */
  function EscapeChars(s: string): string {
    if |s| == 0 then [] else EscapeChar(s[0]) + EscapeChars(s[1..])
  }

  /** Every `c` in `s` turned into `rep`, every other character kept. */
  function MapChar(s: string, c: char, rep: string): string {
    if |s| == 0 then []
    else (if s[0] == c then rep else [s[0]]) + MapChar(s[1..], c, rep)
  }

  /** Replacing a one-character pattern is a character map. */
  lemma {:induction false} ReplaceOneChar(s: string, c: char, rep: string)
    ensures Replace(s, [c], rep) == MapChar(s, c, rep)
    decreases |s|
  {
    if |s| > 0 {
      ReplaceOneChar(s[1..], c, rep);
      if s[0] == c {
        assert s[..1] == [c];
      }
    }
  }

  /** The two chained `replace` calls of the display escaping are the
      character-wise escape. */
  lemma EscapeIsCharwise(s: string)
    ensures Replace(Replace(s, "<", LtEntity), ">", GtEntity) == EscapeChars(s)
  {
    ReplaceOneChar(s, '<', LtEntity);
    MappedLtThenGt(s);
  }

  lemma {:induction false} MappedLtThenGt(s: string)
    ensures Replace(MapChar(s, '<', LtEntity), ">", GtEntity) == EscapeChars(s)
    decreases |s|
  {
    if |s| > 0 {
      var m := MapChar(s[1..], '<', LtEntity);
      MappedLtThenGt(s[1..]);
      if s[0] == '<' {
        ReplaceFreeHead(LtEntity, m, ">", GtEntity);
      } else if s[0] == '>' {
        ReplaceHeadMatch(m, ">", GtEntity);
      } else {
        ReplaceConsNoMatch(s[0], m, ">", GtEntity);
      }
    }
  }

  lemma {:induction false} EscapeCharsNoBrackets(s: string)
    ensures '<' !in EscapeChars(s) && '>' !in EscapeChars(s)
    decreases |s|
  {
    if |s| > 0 {
      EscapeCharsNoBrackets(s[1..]);
    }
  }

  /** A prefix free of `&` survives escaping only if it was already there. */
  lemma {:induction false} EscapeCharsPrefix(t: string, w: string)
    requires '&' !in w
    ensures StartsWith(EscapeChars(t), w) ==> StartsWith(t, w)
    decreases |t|
  {
    if |w| > 0 && |t| > 0 {
      var e := EscapeChars(t);
      StartsWithCons(e, w);
      StartsWithCons(t, w);
      if t[0] == '<' || t[0] == '>' {
        assert e[0] == '&';
        assert w[0] in w;
      } else {
        assert e == [t[0]] + EscapeChars(t[1..]);
        assert e[1..] == EscapeChars(t[1..]);
        EscapeCharsPrefix(t[1..], w[1..]);
      }
    }
  }

  /** The same for a single-character map whose replacement starts with a
      character foreign to `w`. */
  lemma {:induction false} MapCharPrefix(t: string, c: char, rep: string, w: string)
    requires |rep| > 0 && rep[0] !in w
    ensures StartsWith(MapChar(t, c, rep), w) ==> StartsWith(t, w)
    decreases |t|
  {
    if |w| > 0 && |t| > 0 {
      var m := MapChar(t, c, rep);
      StartsWithCons(m, w);
      StartsWithCons(t, w);
      if t[0] == c {
        assert m[0] == rep[0];
        assert w[0] in w;
      } else {
        assert m == [t[0]] + MapChar(t[1..], c, rep);
        assert m[1..] == MapChar(t[1..], c, rep);
        MapCharPrefix(t[1..], c, rep, w[1..]);
      }
    }
  }

  /** The first unescaping pass undoes the `<` half of the escaping, provided
      the text had no `&lt;` of its own. */
  lemma {:induction false} UnescapeLtPass(s: string)
    requires !Contains(s, LtEntity)
    ensures Replace(EscapeChars(s), LtEntity, "<") == MapChar(s, '>', GtEntity)
    decreases |s|
  {
    if |s| > 0 {
      ContainsUnfold(s, LtEntity);
      UnescapeLtPass(s[1..]);
      if s[0] == '&' {
        LtPassAmpersand(s);
      } else {
        LtPassStep(s);
      }
    }
  }

  /** One step of the first pass, for a head other than `&`. */
  lemma LtPassStep(s: string)
    requires |s| > 0 && s[0] != '&'
    requires Replace(EscapeChars(s[1..]), LtEntity, "<") == MapChar(s[1..], '>', GtEntity)
    ensures Replace(EscapeChars(s), LtEntity, "<") == MapChar(s, '>', GtEntity)
  {
    var e := EscapeChars(s[1..]);
    assert EscapeChars(s) == EscapeChar(s[0]) + e;
    if s[0] == '<' {
      ReplaceHeadMatch(e, LtEntity, "<");
    } else if s[0] == '>' {
      LtPassGt(e);
    } else {
      assert EscapeChar(s[0]) == [s[0]];
      ReplaceConsNoMatch(s[0], e, LtEntity, "<");
    }
  }

  /** An escaped `>` passes the first unescaping pass untouched. */
  lemma LtPassGt(e: string)
    ensures Replace(GtEntity + e, LtEntity, "<") == GtEntity + Replace(e, LtEntity, "<")
  {
    var x := GtEntity + e;
    assert x[1] == 'g';
    assert x[1..] == "gt;" + e;
    ReplaceFreeHead("gt;", e, LtEntity, "<");
    assert !StartsWith(x, LtEntity);
    assert "&" + ("gt;" + Replace(e, LtEntity, "<")) == GtEntity + Replace(e, LtEntity, "<");
  }

  /** One step of the first pass at an `&` that does not start `&lt;`. */
  lemma LtPassAmpersand(s: string)
    requires |s| > 0 && s[0] == '&' && !StartsWith(s, LtEntity)
    requires Replace(EscapeChars(s[1..]), LtEntity, "<") == MapChar(s[1..], '>', GtEntity)
    ensures Replace(EscapeChars(s), LtEntity, "<") == MapChar(s, '>', GtEntity)
  {
    var e := EscapeChars(s[1..]);
    var x := "&" + e;
    StartsWithCons(x, LtEntity);
    assert x[1..] == e;
    EscapeCharsPrefix(s[1..], "lt;");
    StartsWithCons(s, LtEntity);
  }

  /** The second unescaping pass undoes the `>` half, provided the text had no
      `&gt;` of its own. */
  lemma {:induction false} UnescapeGtPass(s: string)
    requires !Contains(s, GtEntity)
    ensures Replace(MapChar(s, '>', GtEntity), GtEntity, ">") == s
    decreases |s|
  {
    if |s| > 0 {
      ContainsUnfold(s, GtEntity);
      var m := MapChar(s[1..], '>', GtEntity);
      UnescapeGtPass(s[1..]);
      if s[0] == '>' {
        ReplaceHeadMatch(m, GtEntity, ">");
      } else if s[0] == '&' {
        var x := "&" + m;
        StartsWithCons(x, GtEntity);
        assert x[1..] == m;
        MapCharPrefix(s[1..], '>', GtEntity, "gt;");
        StartsWithCons(s, GtEntity);
      } else {
        ReplaceConsNoMatch(s[0], m, GtEntity, ">");
      }
    }
  }

  /** Unescaping in one left-to-right pass, independent of `replace`: each
      `&lt;` becomes `<`, each `&gt;` becomes `>`, anything else is copied. */
  function UnescapeChars(s: string): string
    decreases |s|
  {
    if |s| == 0 then []
    else if StartsWith(s, LtEntity) then "<" + UnescapeChars(s[|LtEntity|..])
    else if StartsWith(s, GtEntity) then ">" + UnescapeChars(s[|GtEntity|..])
    else [s[0]] + UnescapeChars(s[1..])
  }

  /** The two chained `replace` calls of the unescaping turn every entity into
      its bracket: the `&lt;` pass never makes or breaks a `&gt;`. */
  lemma {:induction false} UnescapeIsCharwise(s: string)
    ensures Unescape(s) == UnescapeChars(s)
    decreases |s|
  {
    if |s| > 0 {
      if StartsWith(s, LtEntity) {
        UnescapeLtHead(s);
      } else if StartsWith(s, GtEntity) {
        UnescapeGtHead(s);
      } else {
        UnescapeOtherHead(s);
      }
    }
  }

  lemma {:induction false} UnescapeLtHead(s: string)
    requires StartsWith(s, LtEntity)
    ensures Unescape(s) == UnescapeChars(s)
    decreases |s|, 0
  {
    var t := s[|LtEntity|..];
    assert s == LtEntity + t;
    ReplaceHeadMatch(t, LtEntity, "<");
    ReplaceConsNoMatch('<', Replace(t, LtEntity, "<"), GtEntity, ">");
    UnescapeIsCharwise(t);
  }

  lemma {:induction false} UnescapeGtHead(s: string)
    requires StartsWith(s, GtEntity)
    ensures Unescape(s) == UnescapeChars(s)
    decreases |s|, 0
  {
    var t := s[|GtEntity|..];
    assert s == GtEntity + t;
    assert !StartsWith(s, LtEntity) by { assert s[1] == 'g'; }
    LtPassGt(t);
    ReplaceHeadMatch(Replace(t, LtEntity, "<"), GtEntity, ">");
    UnescapeIsCharwise(t);
  }

  lemma {:induction false} UnescapeOtherHead(s: string)
    requires |s| > 0 && !StartsWith(s, LtEntity) && !StartsWith(s, GtEntity)
    ensures Unescape(s) == UnescapeChars(s)
    decreases |s|, 0
  {
    var t := s[1..];
    var y := Replace(t, LtEntity, "<");
    assert s == [s[0]] + t;
    if s[0] == '&' {
      assert Replace(s, LtEntity, "<") == [s[0]] + y;
      StartsWithCons(s, GtEntity);
      ReplacePrefixBack(t, LtEntity, '<', "gt;");
      StartsWithCons([s[0]] + y, GtEntity);
      assert ([s[0]] + y)[1..] == y;
      assert !StartsWith([s[0]] + y, GtEntity);
      assert Replace([s[0]] + y, GtEntity, ">") == [s[0]] + Replace(y, GtEntity, ">");
    } else {
      ReplaceConsNoMatch(s[0], t, LtEntity, "<");
      ReplaceConsNoMatch(s[0], y, GtEntity, ">");
    }
    UnescapeIsCharwise(t);
  }

  /** Unescaping undoes escaping for every text that does not itself contain
      `&lt;` or `&gt;`. */
  lemma UnescapeEscape(s: string)
    requires !Contains(s, LtEntity) && !Contains(s, GtEntity)
    ensures Unescape(Escape(s)) == s
  {
    EscapeIsCharwise(s);
    UnescapeLtPass(s);
    UnescapeGtPass(s);
  }
}
