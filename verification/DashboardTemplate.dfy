/** Variable substitution in dashboard templates. */
module DashboardTemplate {
  import opened Options
  import opened Text
  import opened JsonText
  import opened EnclosingObject

  // ---- replacing --------------------------------------------------------------------------------------

  /** A replacement text with its `$` patterns expanded, as `replaceAll` does for a text pattern. */
  function Expand(r: string, before: string, matched: string, after: string): string {
    if r == "" then ""
    else if r[0] == '$' && |r| > 1 && r[1] == '$' then "$" + Expand(r[2..], before, matched, after)
    else if r[0] == '$' && |r| > 1 && r[1] == '&' then matched + Expand(r[2..], before, matched, after)
    else if r[0] == '$' && |r| > 1 && r[1] == '`' then before + Expand(r[2..], before, matched, after)
    else if r[0] == '$' && |r| > 1 && r[1] == '\'' then after + Expand(r[2..], before, matched, after)
    else [r[0]] + Expand(r[1..], before, matched, after)
  }

  function ReplaceFrom(s: string, p: string, r: string, i: nat): string
    requires p != "" && i <= |s|
    decreases |s| - i
  {
    if i == |s| then ""
    else if OccursAt(s, p, i) then Expand(r, s[..i], p, s[i + |p|..]) + ReplaceFrom(s, p, r, i + |p|)
    else [s[i]] + ReplaceFrom(s, p, r, i + 1)
  }

  function ReplaceAll(s: string, p: string, r: string): string
    requires p != ""
  {
    ReplaceFrom(s, p, r, 0)
  }

  /** Plain replacement, left to right. */
  function Replace(s: string, p: string, r: string): string
    requires p != ""
  {
    if s == "" then ""
    else if p <= s then r + Replace(s[|p|..], p, r)
    else [s[0]] + Replace(s[1..], p, r)
  }

  /** The text begins with `$` and `$`, `&`, a backquote or an apostrophe, which stands for something else. */
  predicate StartsPattern(r: string) {
    |r| > 1 && r[0] == '$' && (r[1] == '$' || r[1] == '&' || r[1] == '`' || r[1] == '\'')
  }

  predicate NoPattern(r: string) {
    r != "" ==> !StartsPattern(r) && NoPattern(r[1..])
  }

  lemma {:induction false} ExpandKeeps(r: string, before: string, matched: string, after: string)
    requires NoPattern(r)
    ensures Expand(r, before, matched, after) == r
  {
    if r != "" {
      ExpandKeeps(r[1..], before, matched, after);
      assert [r[0]] + r[1..] == r;
    }
  }

  lemma {:induction false} ExpandShortens(r: string)
    ensures |Expand(r, "", "", "")| <= |r|
    ensures !NoPattern(r) ==> |Expand(r, "", "", "")| < |r|
  {
    if r != "" {
      if StartsPattern(r) {
        ExpandShortens(r[2..]);
      } else {
        ExpandShortens(r[1..]);
      }
    }
  }

  /** A replacement is inserted as it stands, wherever it goes, exactly when it has no such pattern. */
  lemma InsertedAsIsExactlyWhen(r: string)
    ensures NoPattern(r) <==> forall before, matched, after :: Expand(r, before, matched, after) == r
  {
    if NoPattern(r) {
      forall before, matched, after ensures Expand(r, before, matched, after) == r {
        ExpandKeeps(r, before, matched, after);
      }
    } else {
      ExpandShortens(r);
    }
  }

  lemma {:induction false} PlainHead(head: string, rest: string)
    requires Without(head, '$')
    ensures NoPattern(head + rest) <==> NoPattern(rest)
  {
    if head == "" {
      assert head + rest == rest;
    } else {
      PlainHead(head[1..], rest);
      assert (head + rest)[1..] == head[1..] + rest;
    }
  }

  /** Without patterns in the replacement, `replaceAll` is plain replacement. */
  lemma {:induction false} ReplaceAllIsPlain(s: string, p: string, r: string, i: nat)
    requires p != "" && i <= |s| && NoPattern(r)
    ensures ReplaceFrom(s, p, r, i) == Replace(s[i..], p, r)
    decreases |s| - i
  {
    if i < |s| {
      assert OccursAt(s, p, i) <==> p <= s[i..] by {
        if i + |p| <= |s| {
          assert s[i..][..|p|] == s[i..i + |p|];
        }
      }
      if OccursAt(s, p, i) {
        ExpandKeeps(r, s[..i], p, s[i + |p|..]);
        ReplaceAllIsPlain(s, p, r, i + |p|);
        assert s[i..][|p|..] == s[i + |p|..];
      } else {
        ReplaceAllIsPlain(s, p, r, i + 1);
        assert s[i..][1..] == s[i + 1..];
      }
    }
  }

  /** What the four patterns stand for: a dollar sign, the match, and the text before and behind it. */
  lemma PatternsStandFor(rest: string, before: string, matched: string, after: string)
    ensures var tail := Expand(rest, before, matched, after);
            && Expand("$$" + rest, before, matched, after) == "$" + tail
            && Expand("$&" + rest, before, matched, after) == matched + tail
            && Expand("$`" + rest, before, matched, after) == before + tail
            && Expand("$'" + rest, before, matched, after) == after + tail
  {
    assert ("$$" + rest)[2..] == ("$&" + rest)[2..] == ("$`" + rest)[2..] == ("$'" + rest)[2..] == rest;
  }

  lemma {:induction false} NothingLeftToReplace(s: string, p: string, r: string, i: nat)
    requires p != "" && i <= |s| && forall k: nat | k >= i :: !OccursAt(s, p, k)
    ensures ReplaceFrom(s, p, r, i) == s[i..]
    decreases |s| - i
  {
    if i < |s| {
      NothingLeftToReplace(s, p, r, i + 1);
      assert s[i..] == [s[i]] + s[i + 1..];
    }
  }

  lemma {:induction false} ReplacesFrom(s: string, p: string, r: string, i: nat, at: nat)
    requires p != "" && i <= at && OccursAt(s, p, at) && forall k: nat | k != at :: !OccursAt(s, p, k)
    ensures ReplaceFrom(s, p, r, i) == s[i..at] + Expand(r, s[..at], p, s[at + |p|..]) + s[at + |p|..]
    decreases at - i
  {
    if i < at {
      ReplacesFrom(s, p, r, i + 1, at);
      assert s[i..at] == [s[i]] + s[i + 1..at];
    } else {
      NothingLeftToReplace(s, p, r, at + |p|);
      assert s[i..at] == "";
    }
  }

  /** A sole occurrence is replaced where it stands, by the replacement expanded with the match and the texts around. */
  lemma SoleOccurrenceReplaced(before: string, p: string, after: string, r: string)
    requires p != "" && forall k: nat | k != |before| :: !OccursAt(before + p + after, p, k)
    ensures ReplaceAll(before + p + after, p, r) == before + Expand(r, before, p, after) + after
  {
    var s := before + p + after;
    assert s[|before|..|before| + |p|] == p;
    ReplacesFrom(s, p, r, 0, |before|);
    assert s[..|before|] == s[0..|before|] == before && s[|before| + |p|..] == after;
  }

  /** No `$` at the end or in front of `{`: whatever follows, no placeholder begins in such a text. */
  predicate Quiet(text: string) {
    text != "" ==> (text[0] == '$' ==> |text| > 1 && text[1] != '{') && Quiet(text[1..])
  }

  lemma {:induction false} NoDollarIsQuiet(text: string)
    requires Without(text, '$')
    ensures Quiet(text) && NoPattern(text)
  {
    if text != "" {
      NoDollarIsQuiet(text[1..]);
    }
  }

  lemma {:induction false} QuietBoth(a: string, b: string)
    requires Without(a, '$') && Quiet(b)
    ensures Quiet(a + b)
  {
    if a == "" {
      assert a + b == b;
    } else {
      QuietBoth(a[1..], b);
      assert (a + b)[1..] == a[1..] + b;
    }
  }

  lemma NothingOpensHere(text: string, rest: string)
    requires text != "" && Quiet(text)
    ensures !("${" <= text + rest)
  {
    assert "${"[0] == '$' && "${"[1] == '{';
  }

  lemma PrefixOpens(p: string, s: string)
    requires "${" <= p
    ensures p <= s ==> "${" <= s
  {
    if p <= s {
      assert s[..2] == p[..2];
    }
  }

  /** Quiet text passes through. */
  lemma {:induction false} ReplaceSkips(text: string, rest: string, p: string, r: string)
    requires "${" <= p && Quiet(text)
    ensures Replace(text + rest, p, r) == text + Replace(rest, p, r)
  {
    if text == "" {
      assert text + rest == rest;
    } else {
      NothingOpensHere(text, rest);
      PrefixOpens(p, text + rest);
      assert (text + rest)[1..] == text[1..] + rest;
      ReplaceSkips(text[1..], rest, p, r);
      assert [text[0]] + (text[1..] + Replace(rest, p, r)) == text + Replace(rest, p, r) by {
        assert [text[0]] + text[1..] == text;
      }
    }
  }

  // ---- the inserted text ------------------------------------------------------------------------------

  /** The escaped value with its placeholder openings hidden. */
  function Inserted(v: string): string {
    ReplaceAll(Escape(v), "${", "\\u0024{")
  }

  /** The same, character by character of the value. */
  function Guarded(v: string): string {
    if v == "" then ""
    else if "${" <= v then "\\u0024{" + Guarded(v[2..])
    else EscapeChar(v[0]) + Guarded(v[1..])
  }

  lemma EscapedOpening(v: string)
    ensures v != "" && v[0] == '{' <==> Escape(v) != "" && Escape(v)[0] == '{'
  {
    if v != "" {
      assert Escape(v)[0] == EscapeChar(v[0])[0];
    }
  }

  lemma {:induction false} ReplaceIsGuarded(v: string)
    ensures Replace(Escape(v), "${", "\\u0024{") == Guarded(v)
  {
    if v == "" {
    } else if "${" <= v {
      assert v[1..][1..] == v[2..];
      assert Escape(v) == "${" + Escape(v[2..]) by {
        assert Escape(v) == "$" + ("{" + Escape(v[2..]));
      }
      ReplaceIsGuarded(v[2..]);
      assert Escape(v)[2..] == Escape(v[2..]);
    } else {
      ReplaceIsGuarded(v[1..]);
      if v[0] == '$' {
        LoneDollar(v);
      } else {
        NoDollarIsQuiet(EscapeChar(v[0]));
        ReplaceSkips(EscapeChar(v[0]), Escape(v[1..]), "${", "\\u0024{");
      }
    }
  }

  lemma LoneDollar(v: string)
    requires v != "" && v[0] == '$' && !("${" <= v)
    ensures Replace(Escape(v), "${", "\\u0024{") == "$" + Replace(Escape(v[1..]), "${", "\\u0024{")
  {
    var e := Escape(v);
    assert e == "$" + Escape(v[1..]);
    EscapedOpening(v[1..]);
    if |v| > 1 {
      assert v[..2] == [v[0], v[1]];
    }
    assert |e| > 1 ==> e[1] == Escape(v[1..])[0] != '{';
    assert "${"[1] == '{';
    assert e[1..] == Escape(v[1..]);
  }

  lemma InsertedIsGuarded(v: string)
    ensures Inserted(v) == Guarded(v)
  {
    NoDollarIsQuiet("\\u0024{");
    ReplaceAllIsPlain(Escape(v), "${", "\\u0024{", 0);
    assert Escape(v)[0..] == Escape(v);
    ReplaceIsGuarded(v);
  }

  lemma DecodeHidden(rest: string)
    ensures Decode("\\u0024{" + rest) == Prepend('$', Prepend('{', Decode(rest)))
  {
    FourDigits("0024");
    assert '$' as int == 0x24;
    assert "\\u0024{" + rest == "\\u" + "0024" + ("{" + rest);
    DecodeUnicodeEscape("0024", "{" + rest);
    assert ("{" + rest)[1..] == rest;
  }

  lemma {:induction false} DecodeOfGuarded(v: string)
    ensures Decode(Guarded(v)) == Some(v)
  {
    if v == "" {
    } else if "${" <= v {
      DecodeOfGuarded(v[2..]);
      assert v == "$" + ("{" + v[2..]);
      DecodeHidden(Guarded(v[2..]));
    } else {
      DecodeOfGuarded(v[1..]);
      DecodeOfEscapedChar(v[0], Guarded(v[1..]));
      assert [v[0]] + v[1..] == v;
    }
  }

  /** Every inserted text is read as a JSON string with the supplied value. */
  lemma InsertedDecodes(v: string)
    ensures Decode(Inserted(v)) == Some(v)
  {
    InsertedIsGuarded(v);
    DecodeOfGuarded(v);
  }

  // ---- what a value does to the text around it ------------------------------------------------------------

  /** No pattern in a value, told from the value: a `$` that opens a placeholder is hidden and forms none. */
  predicate Unpatterned(v: string) {
    v != "" ==> !(StartsPattern(v) && !("${" <= v[1..])) && Unpatterned(v[1..])
  }

  lemma {:induction false} PatternsOfGuarded(v: string)
    ensures NoPattern(Guarded(v)) <==> Unpatterned(v)
  {
    if v == "" {
    } else if "${" <= v {
      PatternsOfGuarded(v[2..]);
      PlainHead("\\u0024{", Guarded(v[2..]));
      assert v[1] == "${"[1] == '{';
      assert v[1..][1..] == v[2..];
    } else {
      PatternsOfGuarded(v[1..]);
      if v[0] == '$' {
        DollarBefore(v[1..]);
        assert v == "$" + v[1..] && ("$" + Guarded(v[1..]))[1..] == Guarded(v[1..]);
      } else {
        PlainHead(EscapeChar(v[0]), Guarded(v[1..]));
      }
    }
  }

  lemma DollarBefore(w: string)
    ensures StartsPattern("$" + Guarded(w)) <==> StartsPattern("$" + w) && !("${" <= w)
  {
    if w != "" && !("${" <= w) {
      assert Guarded(w)[0] == EscapeChar(w[0])[0];
    }
  }

  const MARK: string := "\""

  /** A replacement inserted between quotation marks, read back. */
  function ReadBetweenMarks(r: string): Option<string> {
    Decode(Expand(r, MARK, MARK, MARK))
  }

  lemma {:induction false} ExpandPasses(head: string, rest: string, q: string)
    requires Without(head, '$')
    ensures Expand(head + rest, q, q, q) == head + Expand(rest, q, q, q)
  {
    if head == "" {
      assert head + rest == rest;
    } else {
      ExpandPasses(head[1..], rest, q);
      assert (head + rest)[1..] == head[1..] + rest;
      assert [head[0]] + (head[1..] + Expand(rest, q, q, q)) == head + Expand(rest, q, q, q) by {
        assert [head[0]] + head[1..] == head;
      }
    }
  }

  lemma HiddenRead(g: string)
    ensures ReadBetweenMarks("\\u0024{" + g) == Prepend('$', Prepend('{', ReadBetweenMarks(g)))
  {
    ExpandPasses("\\u0024{", g, MARK);
    DecodeHidden(Expand(g, MARK, MARK, MARK));
  }

  lemma CharacterRead(c: char, g: string)
    requires c != '$'
    ensures ReadBetweenMarks(EscapeChar(c) + g) == Prepend(c, ReadBetweenMarks(g))
  {
    ExpandPasses(EscapeChar(c), g, MARK);
    DecodeOfEscapedChar(c, Expand(g, MARK, MARK, MARK));
  }

  /** A `$`: itself, one for two of them, or a mark that ends the reading. */
  lemma DollarRead(g: string)
    ensures ReadBetweenMarks("$" + g) ==
            if !StartsPattern("$" + g) then Prepend('$', ReadBetweenMarks(g))
            else if g[0] == '$' then Prepend('$', ReadBetweenMarks(g[1..])) else None
  {
    var rest := Expand(if StartsPattern("$" + g) then g[1..] else g, MARK, MARK, MARK);
    assert ("$" + g)[1..] == g;
    assert g != "" ==> ("$" + g)[2..] == g[1..];
    assert ("$" + rest)[1..] == rest;
    assert Expand("$" + g, MARK, MARK, MARK)
        == if StartsPattern("$" + g) && g[0] != '$' then MARK + rest else "$" + rest;
  }

  lemma OpeningIsNoPattern(v: string)
    requires "${" <= v
    ensures Unpatterned(v) <==> Unpatterned(v[2..])
  {
    assert v[1] == "${"[1] == '{';
    assert v[1..][1..] == v[2..];
    assert Unpatterned(v) <==> Unpatterned(v[1..]);
  }

  /** Between quotation marks a pattern leaves nothing readable, or something too short. */
  lemma {:induction false} PatternsCostCharacters(v: string)
    ensures var read := ReadBetweenMarks(Guarded(v));
            read.Some? ==> |read.value| <= |v| && (!Unpatterned(v) ==> |read.value| < |v|)
  {
    if v == "" {
    } else if "${" <= v {
      PatternsCostCharacters(v[2..]);
      HiddenRead(Guarded(v[2..]));
      OpeningIsNoPattern(v);
    } else {
      var w := v[1..];
      PatternsCostCharacters(w);
      if v[0] != '$' {
        CharacterRead(v[0], Guarded(w));
      } else {
        DollarRead(Guarded(w));
        DollarBefore(w);
        assert v == "$" + w;
        if w != "" && w[0] == '$' && !("${" <= w) {
          assert Guarded(w)[1..] == Guarded(w[1..]);
          PatternsCostCharacters(w[1..]);
        }
      }
    }
  }

  /** A supplied value reaches the parsed JSON unchanged, wherever it is inserted, exactly when no `$` in it
      is followed by `&`, a backquote, an apostrophe, or a `$` that opens no placeholder. */
  lemma ValueArrivesExactlyWhen(v: string)
    ensures Unpatterned(v) <==> forall before, matched, after ::
              Expand(Inserted(v), before, matched, after) == Inserted(v)
    ensures Unpatterned(v) <==> forall before, matched, after ::
              Decode(Expand(Inserted(v), before, matched, after)) == Some(v)
  {
    InsertedIsGuarded(v);
    PatternsOfGuarded(v);
    InsertedAsIsExactlyWhen(Inserted(v));
    ReadsBackExactlyWhen(v);
  }

  lemma ReadsBackExactlyWhen(v: string)
    ensures Unpatterned(v) <==> forall before, matched, after ::
              Decode(Expand(Inserted(v), before, matched, after)) == Some(v)
  {
    InsertedIsGuarded(v);
    if Unpatterned(v) {
      PatternsOfGuarded(v);
      InsertedDecodes(v);
      forall before, matched, after ensures Decode(Expand(Inserted(v), before, matched, after)) == Some(v) {
        ExpandKeeps(Inserted(v), before, matched, after);
      }
    } else {
      ReadsOtherwise(v);
    }
  }

  lemma ReadsOtherwise(v: string)
    requires !Unpatterned(v)
    ensures exists before, matched, after :: Decode(Expand(Inserted(v), before, matched, after)) != Some(v)
  {
    InsertedIsGuarded(v);
    PatternsCostCharacters(v);
    assert ReadBetweenMarks(Inserted(v)) == Decode(Expand(Inserted(v), MARK, MARK, MARK));
  }

  /** The value arrives as it stands and its end cannot open a placeholder with the text behind it. */
  predicate Inert(v: string) {
    Unpatterned(v) && (v != "" ==> v[|v| - 1] != '$')
  }

  lemma {:induction false} GuardedIsQuiet(v: string)
    requires v != "" ==> v[|v| - 1] != '$'
    ensures Quiet(Guarded(v))
  {
    if v == "" {
    } else if "${" <= v {
      GuardedIsQuiet(v[2..]);
      QuietBoth("\\u0024{", Guarded(v[2..]));
    } else {
      GuardedIsQuiet(v[1..]);
      if v[0] == '$' {
        assert v[1] != '{' by {
          assert v[..2] == [v[0], v[1]];
        }
        assert Guarded(v) == "$" + Guarded(v[1..]) && Guarded(v)[1..] == Guarded(v[1..]);
        assert Guarded(v[1..])[0] != '{';
      } else {
        QuietBoth(EscapeChar(v[0]), Guarded(v[1..]));
      }
    }
  }

  lemma InsertedIsQuiet(v: string)
    requires Inert(v)
    ensures Quiet(Inserted(v)) && NoPattern(Inserted(v))
  {
    InsertedIsGuarded(v);
    GuardedIsQuiet(v);
    PatternsOfGuarded(v);
  }

  // ---- tokens -----------------------------------------------------------------------------------------

  datatype Token = Lit(text: string) | Hole(name: string)

  predicate PlainName(name: string) {
    forall i | 0 <= i < |name| :: name[i] != '$' && name[i] != '}'
  }

  predicate PlainToken(t: Token) {
    match t
    case Lit(text) => Quiet(text)
    case Hole(name) => PlainName(name)
  }

  predicate PlainTokens(tokens: seq<Token>) {
    forall i | 0 <= i < |tokens| :: PlainToken(tokens[i])
  }

  function RenderToken(t: Token): string {
    match t
    case Lit(text) => text
    case Hole(name) => Placeholder(name)
  }

  function Render(tokens: seq<Token>): string {
    if tokens == [] then "" else RenderToken(tokens[0]) + Render(tokens[1..])
  }

  /** In such a body every `$` starts a placeholder or stands before a character that begins none. */
  predicate Templated(s: string) {
    s == "" ||
    if "${" <= s then
      var n := IndexOf(s, "}");
      n >= 2 && PlainName(s[2..n]) && Templated(s[n + 1..])
    else (s[0] == '$' ==> |s| > 1 && !("${" <= s[1..])) && Templated(s[1..])
  }

  function Tokens(s: string): (tokens: seq<Token>)
    requires Templated(s)
    ensures s != "" ==> tokens != [] && if "${" <= s then tokens[0].Hole? else tokens[0].Lit? && tokens[0].text != ""
  {
    if s == "" then []
    else if "${" <= s then [Hole(s[2..IndexOf(s, "}")])] + Tokens(s[IndexOf(s, "}") + 1..])
    else
      var rest := Tokens(s[1..]);
      if s[0] == '$' then [Lit("$" + rest[0].text)] + rest[1..] else [Lit([s[0]])] + rest
  }

  lemma HoleText(s: string, n: nat)
    requires 2 <= n && OccursAt(s, "}", n) && s[0] == '$' && s[1] == '{'
    ensures s == Placeholder(s[2..n]) + s[n + 1..]
  {
    assert s[n..n + 1][0] == s[n];
  }

  lemma {:induction false} TokensRender(s: string)
    requires Templated(s)
    ensures PlainTokens(Tokens(s)) && Render(Tokens(s)) == s
  {
    if s == "" {
    } else if "${" <= s {
      TokensRender(s[IndexOf(s, "}") + 1..]);
      HoleTokens(s);
    } else {
      TokensRender(s[1..]);
      if s[0] == '$' {
        DollarTokens(s);
      } else {
        CharacterTokens(s);
      }
    }
  }

  lemma HoleTokens(s: string)
    requires Templated(s) && "${" <= s
    requires var rest := s[IndexOf(s, "}") + 1..]; PlainTokens(Tokens(rest)) && Render(Tokens(rest)) == rest
    ensures PlainTokens(Tokens(s)) && Render(Tokens(s)) == s
  {
    var n := IndexOf(s, "}");
    assert s[1] == "${"[1];
    HoleText(s, n);
    TokenJoins(Hole(s[2..n]), Tokens(s[n + 1..]));
  }

  lemma CharacterTokens(s: string)
    requires s != "" && Templated(s) && s[0] != '$'
    requires PlainTokens(Tokens(s[1..])) && Render(Tokens(s[1..])) == s[1..]
    ensures PlainTokens(Tokens(s)) && Render(Tokens(s)) == s
  {
    assert [s[0]][1..] == "";
    TokenJoins(Lit([s[0]]), Tokens(s[1..]));
    assert [s[0]] + s[1..] == s;
  }

  lemma DollarTokens(s: string)
    requires s != "" && Templated(s) && s[0] == '$' && !("${" <= s)
    requires PlainTokens(Tokens(s[1..])) && Render(Tokens(s[1..])) == s[1..]
    ensures PlainTokens(Tokens(s)) && Render(Tokens(s)) == s
  {
    var tokens := Tokens(s[1..]);
    assert s[..2] == [s[0], s[1]];
    assert PlainToken(tokens[0]);
    assert tokens[0].text + Render(tokens[1..]) == s[1..];
    DollarJoins(tokens[0].text, tokens[1..]);
    assert "$" + s[1..] == s;
  }

  lemma TokenJoins(t: Token, tokens: seq<Token>)
    requires PlainToken(t) && PlainTokens(tokens)
    ensures PlainTokens([t] + tokens) && Render([t] + tokens) == RenderToken(t) + Render(tokens)
  {
    assert ([t] + tokens)[1..] == tokens;
  }

  lemma DollarJoins(text: string, rest: seq<Token>)
    requires Quiet(text) && PlainTokens(rest) && text != "" && (text + Render(rest))[0] != '{'
    ensures PlainTokens([Lit("$" + text)] + rest)
    ensures Render([Lit("$" + text)] + rest) == "$" + (text + Render(rest))
  {
    assert text[0] == (text + Render(rest))[0];
    DollarIsQuiet(text);
    var longer := "$" + text;
    LiteralJoins(longer, rest);
    assert longer + Render(rest) == "$" + (text + Render(rest));
  }

  lemma LiteralJoins(text: string, rest: seq<Token>)
    requires Quiet(text) && PlainTokens(rest)
    ensures PlainTokens([Lit(text)] + rest) && Render([Lit(text)] + rest) == text + Render(rest)
  {
    TokenJoins(Lit(text), rest);
  }

  // ---- one variable -----------------------------------------------------------------------------------

  function FillOne(t: Token, name: string, r: string): Token {
    if t == Hole(name) then Lit(r) else t
  }

  function Fill(tokens: seq<Token>, name: string, r: string): (filled: seq<Token>)
    ensures |filled| == |tokens|
    ensures forall i | 0 <= i < |tokens| :: filled[i] == FillOne(tokens[i], name, r)
  {
    if tokens == [] then [] else [FillOne(tokens[0], name, r)] + Fill(tokens[1..], name, r)
  }

  lemma CharacterAt(n: string, rest: string, k: nat)
    requires k <= |n|
    ensures (Placeholder(n) + rest)[k + 2] == if k < |n| then n[k] else '}'
  {
  }

  /** Only the placeholder of the same name can begin where a placeholder begins. */
  lemma PlaceholderPrefix(n: string, m: string, rest: string)
    requires PlainName(n) && PlainName(m) && Placeholder(n) <= Placeholder(m) + rest
    ensures n == m
  {
    var p, s := Placeholder(n), Placeholder(m) + rest;
    var k := if |n| < |m| then |n| else |m|;
    assert p[k + 2] == s[k + 2];
    CharacterAt(n, "", k);
    CharacterAt(m, rest, k);
    assert p + "" == p;
    assert n == p[2..|n| + 2] && m == s[2..|m| + 2];
  }

  lemma {:induction false} ReplaceIsFill(tokens: seq<Token>, name: string, r: string)
    requires PlainTokens(tokens) && PlainName(name)
    ensures Replace(Render(tokens), Placeholder(name), r) == Render(Fill(tokens, name, r))
  {
    if tokens != [] {
      ReplaceIsFill(tokens[1..], name, r);
      assert Fill(tokens, name, r)[1..] == Fill(tokens[1..], name, r);
      TokenReplaced(tokens[0], Render(tokens[1..]), name, r);
    }
  }

  lemma TokenReplaced(t: Token, rest: string, name: string, r: string)
    requires PlainToken(t) && PlainName(name)
    ensures Replace(RenderToken(t) + rest, Placeholder(name), r)
         == RenderToken(FillOne(t, name, r)) + Replace(rest, Placeholder(name), r)
  {
    if t.Lit? {
      assert "${" <= Placeholder(name);
      ReplaceSkips(t.text, rest, Placeholder(name), r);
    } else if t.name == name {
      assert (Placeholder(name) + rest)[|Placeholder(name)|..] == rest;
    } else {
      OtherHoleKept(t.name, rest, name, r);
    }
  }

  lemma OtherHoleKept(m: string, rest: string, name: string, r: string)
    requires PlainName(m) && PlainName(name) && m != name
    ensures Replace(Placeholder(m) + rest, Placeholder(name), r) == Placeholder(m) + Replace(rest, Placeholder(name), r)
  {
    var p, s, tail := Placeholder(name), Placeholder(m) + rest, "{" + m + "}";
    NotAPrefix(name, m, rest);
    assert Placeholder(m) == "$" + tail;
    assert s[1..] == tail + rest;
    assert Replace(s, p, r) == "$" + Replace(tail + rest, p, r);
    NoDollarIsQuiet(tail);
    assert "${" <= p;
    ReplaceSkips(tail, rest, p, r);
    assert "$" + (tail + Replace(rest, p, r)) == ("$" + tail) + Replace(rest, p, r);
  }

  lemma NotAPrefix(n: string, m: string, rest: string)
    requires PlainName(n) && PlainName(m) && n != m
    ensures !(Placeholder(n) <= Placeholder(m) + rest)
  {
    if Placeholder(n) <= Placeholder(m) + rest {
      PlaceholderPrefix(n, m, rest);
    }
  }

  // ---- all variables ----------------------------------------------------------------------------------

  datatype Variable = Variable(name: string, value: string)

  /** The loop over the supplied variables, in their order. */
  function SubstituteAll(s: string, vars: seq<Variable>): string {
    if vars == [] then s
    else
      var v := vars[|vars| - 1];
      ReplaceAll(SubstituteAll(s, vars[..|vars| - 1]), Placeholder(v.name), Inserted(v.value))
  }

  function AsMap(vars: seq<Variable>): map<string, string> {
    if vars == [] then map[] else AsMap(vars[..|vars| - 1])[vars[|vars| - 1].name := vars[|vars| - 1].value]
  }

  predicate DistinctNames(vars: seq<Variable>) {
    forall i, j | 0 <= i < j < |vars| :: vars[i].name != vars[j].name
  }

  predicate PlainVariables(vars: seq<Variable>) {
    DistinctNames(vars) && forall i | 0 <= i < |vars| :: PlainName(vars[i].name) && Inert(vars[i].value)
  }

  function FillAny(t: Token, values: map<string, string>): Token {
    if t.Hole? && t.name in values then Lit(Inserted(values[t.name])) else t
  }

  /** Every placeholder at once. */
  function FillAll(tokens: seq<Token>, values: map<string, string>): (filled: seq<Token>) {
    seq(|tokens|, i requires 0 <= i < |tokens| => FillAny(tokens[i], values))
  }

  lemma {:induction false} NamesInMap(vars: seq<Variable>)
    ensures forall n :: n in AsMap(vars) <==> exists i :: 0 <= i < |vars| && vars[i].name == n
  {
    if vars != [] {
      var init, last := vars[..|vars| - 1], vars[|vars| - 1];
      NamesInMap(init);
      forall n ensures n in AsMap(vars) <==> exists i :: 0 <= i < |vars| && vars[i].name == n {
        if n in AsMap(init) {
          var i :| 0 <= i < |init| && init[i].name == n;
          assert vars[i].name == n;
        }
        if i :| 0 <= i < |vars| && vars[i].name == n {
          assert i < |init| ==> init[i].name == n;
        }
      }
    }
  }

  /** One variable at a time, in any order, is all variables at once. */
  lemma {:induction false} SequentialIsSimultaneous(tokens: seq<Token>, vars: seq<Variable>)
    requires PlainTokens(tokens) && PlainVariables(vars)
    ensures SubstituteAll(Render(tokens), vars) == Render(FillAll(tokens, AsMap(vars)))
    ensures PlainTokens(FillAll(tokens, AsMap(vars)))
  {
    if vars == [] {
      assert FillAll(tokens, map[]) == tokens;
    } else {
      var init, v := vars[..|vars| - 1], vars[|vars| - 1];
      SequentialIsSimultaneous(tokens, init);
      InsertedIsQuiet(v.value);
      var before := FillAll(tokens, AsMap(init));
      ReplaceAllIsPlain(Render(before), Placeholder(v.name), Inserted(v.value), 0);
      assert Render(before)[0..] == Render(before);
      ReplaceIsFill(before, v.name, Inserted(v.value));
      NewNameFills(tokens, init, v);
    }
  }

  lemma NewNameFills(tokens: seq<Token>, init: seq<Variable>, v: Variable)
    requires PlainVariables(init + [v]) && PlainTokens(FillAll(tokens, AsMap(init)))
    ensures Fill(FillAll(tokens, AsMap(init)), v.name, Inserted(v.value)) == FillAll(tokens, AsMap(init)[v.name :=
              v.value])
    ensures PlainTokens(FillAll(tokens, AsMap(init)[v.name := v.value]))
  {
    NamesInMap(init);
    var vars := init + [v];
    assert vars[|init|] == v;
    forall i | 0 <= i < |init| ensures init[i].name != v.name {
      assert vars[i].name != vars[|init|].name;
    }
    InsertedIsQuiet(v.value);
    var before, after := FillAll(tokens, AsMap(init)), FillAll(tokens, AsMap(init)[v.name := v.value]);
    forall i | 0 <= i < |tokens| ensures after[i] == FillOne(before[i], v.name, Inserted(v.value))
        && PlainToken(after[i]) {
      assert PlainToken(before[i]);
    }
  }

  /** The order of the variables does not matter. */
  lemma OrderDoesNotMatter(body: string, vars: seq<Variable>, others: seq<Variable>)
    requires Templated(body) && PlainVariables(vars) && PlainVariables(others) && AsMap(vars) == AsMap(others)
    ensures SubstituteAll(body, vars) == SubstituteAll(body, others)
  {
    TokensRender(body);
    SequentialIsSimultaneous(Tokens(body), vars);
    SequentialIsSimultaneous(Tokens(body), others);
  }

  // ---- the leftover check -------------------------------------------------------------------------------

  predicate IsNameChar(c: char) {
    'A' <= c <= 'Z' || '0' <= c <= '9' || c == '_'
  }

  lemma NameCharactersAre(c: char)
    ensures IsNameChar(c) <==> c in "ABCDEFGHIJKLMNOPQRSTUVWXYZ0123456789_"
  {
  }

  /** How many name characters `s` begins with. */
  function NameRun(s: string): (n: nat)
    ensures n <= |s|
  {
    if s != "" && IsNameChar(s[0]) then 1 + NameRun(s[1..]) else 0
  }

  /** The length of the placeholder `s` begins with, or 0. */
  function MatchLength(s: string): (n: nat)
    ensures n <= |s|
  {
    if "${" <= s then
      var k := NameRun(s[2..]);
      if k > 0 && k + 2 < |s| && s[k + 2] == '}' then k + 3 else 0
    else 0
  }

  /** The placeholders still in a text, left to right. */
  function Leftovers(s: string): seq<string> {
    if s == "" then []
    else if MatchLength(s) > 0 then [s[..MatchLength(s)]] + Leftovers(s[MatchLength(s)..])
    else Leftovers(s[1..])
  }

  predicate IsName(name: string) {
    name != "" && forall i | 0 <= i < |name| :: IsNameChar(name[i])
  }

  /** The named placeholders among the tokens. */
  function NamedHoles(tokens: seq<Token>): seq<string> {
    if tokens == [] then []
    else (if tokens[0].Hole? && IsName(tokens[0].name) then [Placeholder(tokens[0].name)]
        else []) + NamedHoles(tokens[1..])
  }

  lemma {:induction false} LeftoversSkip(text: string, rest: string)
    requires Quiet(text)
    ensures Leftovers(text + rest) == Leftovers(rest)
  {
    if text == "" {
      assert text + rest == rest;
    } else {
      assert (text + rest)[1..] == text[1..] + rest;
      NothingOpensHere(text, rest);
      LeftoversSkip(text[1..], rest);
    }
  }

  lemma {:induction false} NameRunIs(name: string, rest: string)
    ensures IsName(name) ==> NameRun(name + "}" + rest) == |name|
    ensures !IsName(name) && name != "" && Without(name, '}') ==>
              NameRun(name + "}" + rest) < |name| && (name + "}" + rest)[NameRun(name + "}" + rest)] != '}'
    ensures name == "" ==> NameRun(name + "}" + rest) == 0
  {
    var s := name + "}" + rest;
    if name != "" {
      NameRunIs(name[1..], rest);
      assert s[1..] == name[1..] + "}" + rest;
      if IsNameChar(name[0]) {
        assert IsName(name) <==> name[1..] == "" || IsName(name[1..]);
      }
    }
  }

  lemma HoleMatches(name: string, rest: string)
    requires PlainName(name)
    ensures MatchLength(Placeholder(name) + rest) == if IsName(name) then |name| + 3 else 0
  {
    var s := Placeholder(name) + rest;
    assert s[..2] == "${";
    assert s[2..] == name + "}" + rest;
    NameRunIs(name, rest);
    var k := NameRun(s[2..]);
    assert k + 2 < |s| ==> s[k + 2] == s[2..][k];
  }

  /** What is found is exactly the named placeholders. */
  lemma {:induction false} LeftoversAreHoles(tokens: seq<Token>)
    requires PlainTokens(tokens)
    ensures Leftovers(Render(tokens)) == NamedHoles(tokens)
  {
    if tokens != [] {
      var t, rest := tokens[0], Render(tokens[1..]);
      LeftoversAreHoles(tokens[1..]);
      match t
      case Lit(text) => LeftoversSkip(text, rest);
      case Hole(name) => LeftoversOfHole(name, rest);
    }
  }

  lemma LeftoversOfHole(name: string, rest: string)
    requires PlainName(name)
    ensures Leftovers(Placeholder(name) + rest) == (if IsName(name) then [Placeholder(name)] else []) + Leftovers(rest)
  {
    var s := Placeholder(name) + rest;
    HoleMatches(name, rest);
    if IsName(name) {
      assert s[..|name| + 3] == Placeholder(name) && s[|name| + 3..] == rest;
    } else {
      var tail := "{" + name + "}";
      assert s[1..] == tail + rest;
      NoDollarIsQuiet(tail);
      LeftoversSkip(tail, rest);
    }
  }

  lemma {:induction false} SomeNamedHole(tokens: seq<Token>)
    ensures NamedHoles(tokens) != [] <==> exists i :: 0 <= i < |tokens| && tokens[i].Hole? && IsName(tokens[i].name)
  {
    if tokens != [] {
      SomeNamedHole(tokens[1..]);
      if i :| 0 <= i < |tokens| && tokens[i].Hole? && IsName(tokens[i].name) {
        assert i > 0 ==> tokens[1..][i - 1] == tokens[i];
      }
      if j :| 0 <= j < |tokens[1..]| && tokens[1..][j].Hole? && IsName(tokens[1..][j].name) {
        assert tokens[j + 1] == tokens[1..][j];
      }
    }
  }

  predicate Occurs(s: string, p: string) {
    exists i :: 0 <= i <= |s| && p <= s[i..]
  }

  lemma OccursFromHere(s: string, p: string)
    requires s != ""
    ensures Occurs(s, p) <==> p <= s || Occurs(s[1..], p)
  {
    assert s[0..] == s;
    assert forall i | 1 <= i <= |s| :: s[i..] == s[1..][i - 1..];
    if p <= s {
      assert p <= s[0..];
    }
    if Occurs(s[1..], p) {
      var i :| 0 <= i <= |s[1..]| && p <= s[1..][i..];
      assert p <= s[i + 1..];
    }
    if Occurs(s, p) && !(p <= s) {
      var i :| 0 <= i <= |s| && p <= s[i..];
      assert p <= s[1..][i - 1..];
    }
  }

  /** What begins with a `$` does not occur where there is none. */
  lemma {:induction false} OccursBehind(s: string, m: nat, p: string)
    requires m <= |s| && Without(s[..m], '$') && p != "" && p[0] == '$'
    ensures Occurs(s, p) <==> Occurs(s[m..], p)
  {
    if m == 0 {
      assert s[0..] == s;
    } else {
      assert s[..m][0] == s[0];
      assert s[1..][..m - 1] == s[..m][1..];
      OccursFromHere(s, p);
      OccursBehind(s[1..], m - 1, p);
      assert s[1..][m - 1..] == s[m..];
    }
  }

  lemma {:induction false} NameRunIsName(s: string)
    ensures forall i | 0 <= i < NameRun(s) :: IsNameChar(s[i])
  {
    if s != "" && IsNameChar(s[0]) {
      NameRunIsName(s[1..]);
      assert forall i | 1 <= i < NameRun(s) :: s[i] == s[1..][i - 1];
    }
  }

  /** A match is a named placeholder. */
  lemma MatchIsPlaceholder(s: string)
    requires MatchLength(s) > 0
    ensures var m := MatchLength(s); m >= 4 && IsName(s[2..m - 1]) && s[..m] == Placeholder(s[2..m - 1])
  {
    var m := MatchLength(s);
    NameRunIsName(s[2..]);
    assert forall i | 0 <= i < m - 3 :: s[2..m - 1][i] == s[2..][i];
    assert s[0] == "${"[0] && s[1] == "${"[1];
  }

  lemma NamesArePlain(n: string)
    requires IsName(n)
    ensures PlainName(n)
  {
  }

  /** A named placeholder a text begins with is the match. */
  lemma PlaceholderIsMatch(s: string, n: string)
    requires IsName(n) && Placeholder(n) <= s
    ensures MatchLength(s) == |n| + 3 && s[..MatchLength(s)] == Placeholder(n)
  {
    NamesArePlain(n);
    HoleMatches(n, s[|n| + 3..]);
    assert s == Placeholder(n) + s[|n| + 3..];
  }

  lemma NoDollarInside(n: string)
    requires IsName(n)
    ensures Without(Placeholder(n)[1..], '$')
  {
    NamesArePlain(n);
    assert Placeholder(n)[1..] == "{" + n + "}";
  }

  /** Which named placeholders occur from a match on: itself, and those behind it. */
  lemma OccursFromMatch(s: string, n: string)
    requires IsName(n) && MatchLength(s) > 0
    ensures var m := MatchLength(s);
            Occurs(s, Placeholder(n)) <==> s[..m] == Placeholder(n) || Occurs(s[m..], Placeholder(n))
  {
    var m, p := MatchLength(s), Placeholder(n);
    MatchIsPlaceholder(s);
    NoDollarInside(s[2..m - 1]);
    OccursFromHere(s, p);
    assert s[1..][..m - 1] == s[..m][1..];
    OccursBehind(s[1..], m - 1, p);
    assert s[1..][m - 1..] == s[m..];
    if p <= s {
      PlaceholderIsMatch(s, n);
    }
  }

  lemma OccursPastNoMatch(s: string, n: string)
    requires IsName(n) && s != "" && MatchLength(s) == 0
    ensures Occurs(s, Placeholder(n)) <==> Occurs(s[1..], Placeholder(n))
  {
    OccursFromHere(s, Placeholder(n));
    if Placeholder(n) <= s {
      PlaceholderIsMatch(s, n);
    }
  }

  /** In any text whatever, the check finds exactly the named placeholders that occur anywhere in it. */
  lemma {:induction false} LeftoversAreAllThatOccur(s: string, n: string)
    requires IsName(n)
    ensures Placeholder(n) in Leftovers(s) <==> Occurs(s, Placeholder(n))
  {
    if s == "" {
    } else if MatchLength(s) > 0 {
      OccursFromMatch(s, n);
      LeftoversAreAllThatOccur(s[MatchLength(s)..], n);
    } else {
      OccursPastNoMatch(s, n);
      LeftoversAreAllThatOccur(s[1..], n);
    }
  }

  lemma {:induction false} LeftoversAreNamed(s: string, p: string)
    requires p in Leftovers(s)
    ensures exists n :: IsName(n) && p == Placeholder(n)
  {
    if MatchLength(s) > 0 && p == s[..MatchLength(s)] {
      MatchIsPlaceholder(s);
    } else {
      LeftoversAreNamed(if MatchLength(s) > 0 then s[MatchLength(s)..] else s[1..], p);
    }
  }

  /** The check finds something exactly when the body has a named placeholder that no variable fills. */
  lemma RejectsExactlyUndeclared(body: string, vars: seq<Variable>)
    requires Templated(body) && PlainVariables(vars)
    ensures Leftovers(SubstituteAll(body, vars)) != []
       <==> exists i :: 0 <= i < |Tokens(body)| && Tokens(body)[i].Hole? && IsName(Tokens(body)[i].name)
                        && Tokens(body)[i].name !in AsMap(vars)
  {
    var tokens := Tokens(body);
    var filled := FillAll(tokens, AsMap(vars));
    TokensRender(body);
    SequentialIsSimultaneous(tokens, vars);
    LeftoversAreHoles(filled);
    SomeNamedHole(filled);
    assert forall i | 0 <= i < |tokens| :: filled[i] == FillAny(tokens[i], AsMap(vars));
    if i :| 0 <= i < |tokens| && tokens[i].Hole? && IsName(tokens[i].name) && tokens[i].name !in AsMap(vars) {
      assert filled[i] == tokens[i];
    }
    if i :| 0 <= i < |filled| && filled[i].Hole? && IsName(filled[i].name) {
      assert filled[i] == tokens[i];
    }
  }

  // ---- where the hypothesis is needed ---------------------------------------------------------------------

  /** A value of two dollar signs arrives as one: the replacement text is itself a pattern. */
  lemma DoubledDollarIsHalved()
    ensures SubstituteAll("${A}", [Variable("A", "$$")]) == "$"
    ensures Decode("$") != Some("$$")
  {
    var vars := [Variable("A", "$$")];
    assert vars[..0] == [];
    InsertedIsGuarded("$$");
    assert Guarded("$$") == "$$" by {
      assert "$$"[1..] == "$" && "$"[1..] == "";
    }
    assert OccursAt("${A}", "${A}", 0);
    assert "${A}"[4..] == "" && "${A}"[..0] == "";
    assert "$$"[2..] == "";
    assert Expand("$$", "", "${A}", "") == "$";
    assert ReplaceFrom("${A}", "${A}", "$$", 4) == "";
  }

  // ---- for which values the loop is simultaneous ------------------------------------------------------------

  /** Whatever the template and the other, harmless variables, the loop is simultaneous substitution. */
  ghost predicate AlwaysSimultaneous(v: string) {
    forall tokens, vars | PlainTokens(tokens) && AmongInert(vars, v) :: SimultaneousOn(tokens, vars)
  }

  predicate SimultaneousOn(tokens: seq<Token>, vars: seq<Variable>) {
    SubstituteAll(Render(tokens), vars) == Render(FillAll(tokens, AsMap(vars)))
  }

  predicate AmongInert(vars: seq<Variable>, v: string) {
    && DistinctNames(vars)
    && forall i | 0 <= i < |vars| :: PlainName(vars[i].name) && (vars[i].value == v || Inert(vars[i].value))
  }

  /** A value leaves every substitution simultaneous, and so every order alike, exactly when it has no
      pattern and does not end in `$`. */
  lemma SimultaneousExactlyWhen(v: string)
    ensures AlwaysSimultaneous(v) <==> Inert(v)
  {
    if Inert(v) {
      forall tokens, vars | PlainTokens(tokens) && AmongInert(vars, v) ensures SimultaneousOn(tokens, vars) {
        SequentialIsSimultaneous(tokens, vars);
      }
    } else if Unpatterned(v) {
      InsertedIsGuarded("x");
      assert "x"[1..] == "";
      EndDiffers(v, "A", "B", "x");
    } else {
      PatternDiffers(v);
    }
  }

  function LongName(n: nat): (name: string)
    ensures |name| == n && PlainName(name)
  {
    seq(n, _ => 'A')
  }

  /** Expanded to a match longer than itself, a replacement with patterns grows, or has only patterns that shrink it. */
  lemma {:induction false} ExpandMoves(r: string, matched: string)
    ensures |Expand(r, "", matched, "")| <= |r| || |Expand(r, "", matched, "")| >= |matched|
    ensures !NoPattern(r) && |Expand(r, "", matched, "")| < |matched| ==> |Expand(r, "", matched, "")| < |r|
  {
    if r != "" {
      ExpandMoves(if StartsPattern(r) then r[2..] else r[1..], matched);
    }
  }

  lemma PatternDiffers(v: string)
    requires !Unpatterned(v)
    ensures !AlwaysSimultaneous(v)
  {
    InsertedIsGuarded(v);
    PatternsOfGuarded(v);
    var a := LongName(|Inserted(v)|);
    var tokens, vars := [Hole(a)], [Variable(a, v)];
    assert tokens[1..] == [] && Render(tokens) == Placeholder(a) + "" == Placeholder(a);
    OneHoleExpanded(a, v);
    ExpandMoves(Inserted(v), Placeholder(a));
    OneHoleFilled(a, v);
    OneDifference(tokens, vars, v);
  }

  lemma OneHoleExpanded(a: string, v: string)
    ensures SubstituteAll(Placeholder(a), [Variable(a, v)]) == Expand(Inserted(v), "", Placeholder(a), "")
  {
    var p, vars := Placeholder(a), [Variable(a, v)];
    assert vars[..0] == [];
    assert OccursAt(p, p, 0) && p[..0] == "" && p[|p|..] == "";
    assert ReplaceFrom(p, p, Inserted(v), |p|) == "";
    assert Expand(Inserted(v), "", p, "") + "" == Expand(Inserted(v), "", p, "");
  }

  lemma OneHoleFilled(a: string, v: string)
    ensures Render(FillAll([Hole(a)], AsMap([Variable(a, v)]))) == Inserted(v)
  {
    var vars := [Variable(a, v)];
    assert vars[..0] == [];
    assert AsMap(vars) == map[a := v];
    var filled := FillAll([Hole(a)], AsMap(vars));
    assert filled == [Lit(Inserted(v))] && filled[1..] == [];
    assert Inserted(v) + "" == Inserted(v);
  }

  lemma {:induction false} GuardedEnd(v: string)
    requires Unpatterned(v) && v != "" && v[|v| - 1] == '$'
    ensures Guarded(v) == Guarded(v[..|v| - 1]) + "$" && Quiet(Guarded(v[..|v| - 1]))
  {
    var u := v[..|v| - 1];
    if |v| == 1 {
      assert v == "$" && v[1..] == "" && u == "";
    } else if "${" <= v {
      assert v[1] == "${"[1] && |v| > 2;
      assert v[1..][1..] == v[2..] && v[2..][..|v| - 3] == u[2..];
      GuardedEnd(v[2..]);
      OpeningEnd(v, u);
    } else {
      assert v[1..][..|v| - 2] == u[1..];
      GuardedEnd(v[1..]);
      CharacterEnd(v, u);
    }
  }

  lemma CharacterEnd(v: string, u: string)
    requires |v| > 1 && !("${" <= v) && u == v[..|v| - 1] && Unpatterned(v) && v[|v| - 1] == '$'
    requires Guarded(v[1..]) == Guarded(u[1..]) + "$" && Quiet(Guarded(u[1..]))
    ensures Guarded(v) == Guarded(u) + "$" && Quiet(Guarded(u))
  {
    PrefixLacksOpening(v, u);
    assert EscapeChar(v[0]) + (Guarded(u[1..]) + "$") == (EscapeChar(v[0]) + Guarded(u[1..])) + "$";
    if v[0] != '$' {
      QuietBoth(EscapeChar(v[0]), Guarded(u[1..]));
    } else {
      DollarInside(v, u);
    }
  }

  lemma OpeningEnd(v: string, u: string)
    requires |v| > 2 && "${" <= v && u == v[..|v| - 1]
    requires Guarded(v[2..]) == Guarded(u[2..]) + "$" && Quiet(Guarded(u[2..]))
    ensures Guarded(v) == Guarded(u) + "$" && Quiet(Guarded(u))
  {
    assert u[..2] == v[..2];
    QuietBoth("\\u0024{", Guarded(u[2..]));
    assert "\\u0024{" + (Guarded(u[2..]) + "$") == ("\\u0024{" + Guarded(u[2..])) + "$";
  }

  lemma PrefixLacksOpening(v: string, u: string)
    requires u <= v && !("${" <= v)
    ensures !("${" <= u)
  {
    assert |u| > 1 ==> u[..2] == v[..2];
  }

  lemma DollarInside(v: string, u: string)
    requires Unpatterned(v) && |v| > 1 && u == v[..|v| - 1] && v[0] == '$' == v[|v| - 1] && !("${" <= v)
    requires Quiet(Guarded(u[1..]))
    ensures Quiet(Guarded(u))
  {
    SecondIsPlain(v);
    assert u[1..] != "" && u[1..][0] == v[1];
    GuardedBeginning(u[1..]);
    PrefixLacksOpening(v, u);
    DollarGuarded(u);
    DollarIsQuiet(Guarded(u[1..]));
  }

  lemma SecondIsPlain(v: string)
    requires Unpatterned(v) && |v| > 1 && v[0] == '$' == v[|v| - 1] && !("${" <= v)
    ensures |v| > 2 && v[1] != '{'
  {
    assert v[..2] == [v[0], v[1]];
    var rest := v[1..];
    assert |v| == 2 ==> |rest| == 1;
  }

  lemma DollarGuarded(u: string)
    requires u != "" && u[0] == '$' && !("${" <= u)
    ensures Guarded(u) == "$" + Guarded(u[1..])
  {
  }

  lemma GuardedBeginning(w: string)
    requires w != "" && w[0] != '{'
    ensures Guarded(w) != "" && Guarded(w)[0] != '{'
  {
    assert !("${" <= w) ==> Guarded(w)[0] == EscapeChar(w[0])[0];
  }

  lemma DollarIsQuiet(g: string)
    requires Quiet(g) && g != "" && g[0] != '{'
    ensures Quiet("$" + g)
  {
    assert ("$" + g)[1..] == g;
  }

  /** Text and braces behind a value that ends in `$`: the loop and the simultaneous form differ in length. */
  lemma EndDiffers(v: string, a: string, b: string, x: string)
    requires Unpatterned(v) && v != "" && v[|v| - 1] == '$'
    requires PlainName(a) && PlainName(b) && a != b && Inert(x) && |Inserted(x)| < |b| + 3
    ensures !AlwaysSimultaneous(v)
  {
    var rest := "{" + b + "}";
    var tokens, vars := [Hole(a), Lit(rest)], [Variable(a, v), Variable(b, x)];
    HoleAndBraces(a, b);
    TwoAmongInert(v, a, b, x);
    EndDiffersThere(v, a, b, x);
    OneDifference(tokens, vars, v);
  }

  lemma HoleAndBraces(a: string, b: string)
    requires PlainName(a) && PlainName(b)
    ensures PlainTokens([Hole(a), Lit("{" + b + "}")])
  {
    NoDollarIsQuiet("{" + b + "}");
  }

  lemma TwoAmongInert(v: string, a: string, b: string, x: string)
    requires PlainName(a) && PlainName(b) && a != b && Inert(x)
    ensures AmongInert([Variable(a, v), Variable(b, x)], v)
  {
  }

  lemma OneDifference(tokens: seq<Token>, vars: seq<Variable>, v: string)
    requires PlainTokens(tokens) && AmongInert(vars, v) && !SimultaneousOn(tokens, vars)
    ensures !AlwaysSimultaneous(v)
  {
  }

  lemma EndDiffersThere(v: string, a: string, b: string, x: string)
    requires Unpatterned(v) && v != "" && v[|v| - 1] == '$'
    requires PlainName(a) && PlainName(b) && a != b && Inert(x) && |Inserted(x)| < |b| + 3
    ensures !SimultaneousOn([Hole(a), Lit("{" + b + "}")], [Variable(a, v), Variable(b, x)])
  {
    TwoTokens(Placeholder(a), [Hole(a), Lit("{" + b + "}")]);
    var g := EndOpens(v);
    InsertedIsQuiet(x);
    LoopJoinsEnd(v, g, a, b, x);
    FilledKeepsEnd(v, a, b, x);
  }

  lemma EndOpens(v: string) returns (g: string)
    requires Unpatterned(v) && v != "" && v[|v| - 1] == '$'
    ensures Inserted(v) == g + "$" && Quiet(g) && NoPattern(Inserted(v))
  {
    InsertedIsGuarded(v);
    PatternsOfGuarded(v);
    GuardedEnd(v);
    g := Guarded(v[..|v| - 1]);
  }

  lemma TwoTokens(head: string, tokens: seq<Token>)
    requires |tokens| == 2 && RenderToken(tokens[0]) == head
    ensures Render(tokens) == head + RenderToken(tokens[1])
  {
    assert tokens[1..] == [tokens[1]] && tokens[1..][1..] == [];
    assert Render(tokens[1..]) == RenderToken(tokens[1]) + "" == RenderToken(tokens[1]);
  }

  /** The loop reads the `$` at the end of one value and the braces behind it as another placeholder. */
  lemma LoopJoinsEnd(v: string, g: string, a: string, b: string, x: string)
    requires PlainName(a) && PlainName(b) && NoPattern(Inserted(x))
    requires Inserted(v) == g + "$" && Quiet(g) && NoPattern(Inserted(v))
    ensures SubstituteAll(Placeholder(a) + ("{" + b + "}"), [Variable(a, v), Variable(b, x)]) == g + Inserted(x)
  {
    var rest := "{" + b + "}";
    BracesHaveNoDollar(b);
    FirstHoleReplaced(a, rest, Inserted(v));
    EndMeetsBraces(g, b);
    TwoVariables(Placeholder(a) + rest, Variable(a, v), Variable(b, x), g + Placeholder(b));
    HoleBehind(g, b, Inserted(x));
  }

  lemma BracesHaveNoDollar(b: string)
    requires PlainName(b)
    ensures Without("{" + b + "}", '$')
  {
  }

  lemma EndMeetsBraces(g: string, b: string)
    ensures (g + "$") + ("{" + b + "}") == g + Placeholder(b)
  {
  }

  lemma HoleBehind(g: string, b: string, r: string)
    requires Quiet(g) && NoPattern(r)
    ensures ReplaceAll(g + Placeholder(b), Placeholder(b), r) == g + r
  {
    var p := Placeholder(b);
    ReplaceAllIsPlain(g + p, p, r, 0);
    assert (g + p)[0..] == g + p;
    assert "${" <= p;
    ReplaceSkips(g, p, p, r);
    assert p[|p|..] == "";
    assert Replace(p, p, r) == r + Replace("", p, r) == r;
  }

  lemma FilledKeepsEnd(v: string, a: string, b: string, x: string)
    requires PlainName(a) && PlainName(b) && a != b
    ensures Render(FillAll([Hole(a), Lit("{" + b + "}")], AsMap([Variable(a, v), Variable(b, x)])))
         == Inserted(v) + ("{" + b + "}")
  {
    var tokens, vars := [Hole(a), Lit("{" + b + "}")], [Variable(a, v), Variable(b, x)];
    assert vars[..1] == [Variable(a, v)] && vars[..1][..0] == [];
    assert AsMap(vars[..1]) == map[a := v];
    assert AsMap(vars)[a] == v;
    TwoTokens(Inserted(v), FillAll(tokens, AsMap(vars)));
  }

  /** A value of one `$` can form a new placeholder with what follows, and then the order decides. */
  lemma LoneDollarMakesOrderMatter(a: string, b: string, x: string)
    requires PlainName(a) && PlainName(b) && a != b && Inert(x)
    ensures SubstituteAll(Placeholder(a) + ("{" + b + "}"), [Variable(a, "$"), Variable(b, x)]) == Inserted(x)
    ensures SubstituteAll(Placeholder(a) + ("{" + b + "}"), [Variable(b, x), Variable(a, "$")]) == Placeholder(b)
  {
    InsertedIsGuarded("$");
    assert Inserted("$") == "" + "$";
    InsertedIsQuiet(x);
    LoopJoinsEnd("$", "", a, b, x);
    assert "" + Inserted(x) == Inserted(x);
    OtherOrderLeavesPlaceholder("$", "", a, b, x);
    assert "" + Placeholder(b) == Placeholder(b);
  }

  lemma OtherOrderLeavesPlaceholder(v: string, g: string, a: string, b: string, x: string)
    requires PlainName(a) && PlainName(b) && a != b && NoPattern(Inserted(x))
    requires Inserted(v) == g + "$" && NoPattern(Inserted(v))
    ensures SubstituteAll(Placeholder(a) + ("{" + b + "}"), [Variable(b, x), Variable(a, v)]) == g + Placeholder(b)
  {
    var rest := "{" + b + "}";
    BracesHaveNoDollar(b);
    NoDollarIsQuiet(rest);
    NoSuchHole(a, b, rest, Inserted(x));
    TwoVariables(Placeholder(a) + rest, Variable(b, x), Variable(a, v), Placeholder(a) + rest);
    FirstHoleReplaced(a, rest, Inserted(v));
    EndMeetsBraces(g, b);
  }

  lemma TwoVariables(s: string, a: Variable, b: Variable, between: string)
    requires ReplaceAll(s, Placeholder(a.name), Inserted(a.value)) == between
    ensures SubstituteAll(s, [a, b]) == ReplaceAll(between, Placeholder(b.name), Inserted(b.value))
  {
    assert [a, b][..1] == [a] && [a][..0] == [];
    assert SubstituteAll(s, [a]) == ReplaceAll(s, Placeholder(a.name), Inserted(a.value));
  }

  lemma {:induction false} NothingToReplace(s: string, p: string, r: string, i: nat)
    requires p != "" && i <= |s| && Without(s[i..], p[0])
    ensures ReplaceFrom(s, p, r, i) == s[i..]
    decreases |s| - i
  {
    if i < |s| {
      assert s[i] == s[i..][0];
      assert s[i + 1..] == s[i..][1..];
      NothingToReplace(s, p, r, i + 1);
      assert i + |p| <= |s| ==> s[i..i + |p|][0] == s[i];
    }
  }

  lemma FirstHoleReplaced(a: string, rest: string, r: string)
    requires PlainName(a) && Without(rest, '$') && NoPattern(r)
    ensures ReplaceAll(Placeholder(a) + rest, Placeholder(a), r) == r + rest
  {
    var p := Placeholder(a);
    var s := p + rest;
    assert OccursAt(s, p, 0);
    assert s[|p|..] == rest;
    ExpandKeeps(r, s[..0], p, rest);
    NothingToReplace(s, p, r, |p|);
  }

  lemma NoSuchHole(a: string, b: string, rest: string, r: string)
    requires PlainName(a) && PlainName(b) && a != b && Quiet(rest) && NoPattern(r)
    ensures ReplaceAll(Placeholder(a) + rest, Placeholder(b), r) == Placeholder(a) + rest
  {
    var s := Placeholder(a) + rest;
    ReplaceAllIsPlain(s, Placeholder(b), r, 0);
    assert s[0..] == s;
    OtherHoleKept(a, rest, b, r);
    assert "${" <= Placeholder(b);
    ReplaceSkips(rest, "", Placeholder(b), r);
    assert rest + "" == rest;
  }

  // ---- the whole substitution ---------------------------------------------------------------------------

  datatype Outcome =
    | MissingVariables(names: seq<string>)
    | Unresolved(placeholders: set<string>)
    | InvalidJson
    | Substituted(text: string)

  predicate Supplied(name: string, vars: seq<Variable>) {
    exists i :: 0 <= i < |vars| && vars[i].name == name
  }

  function Missing(required: seq<string>, vars: seq<Variable>): seq<string> {
    if required == [] then []
    else (if Supplied(required[0], vars) then [] else [required[0]]) + Missing(required[1..], vars)
  }

  /** The text with the objects around one absent optional variable removed. */
  ghost predicate WithoutOptional(s: string, name: string, t: string) {
    exists texts :: Removed(texts, Placeholder(name)) && texts[0] == s && texts[|texts| - 1] == t
  }

  /** The body after each optional variable in turn. */
  ghost predicate Stages(stages: seq<string>, optional: seq<string>, vars: seq<Variable>) {
    && |stages| == |optional| + 1
    && forall i | 0 <= i < |optional| ::
         if Supplied(optional[i], vars) then stages[i + 1] == stages[i]
             else WithoutOptional(stages[i], optional[i], stages[i + 1])
  }

  function Finish(text: string, isJson: string -> bool): Outcome {
    if Leftovers(text) != [] then Unresolved(set p | p in Leftovers(text))
    else if !isJson(text) then InvalidJson
    else Substituted(text)
  }

  /** A named placeholder stands in the text. */
  ghost predicate Unfilled(text: string, p: string) {
    Occurs(text, p) && exists n :: IsName(n) && p == Placeholder(n)
  }

  /** What the outcome says of the text after substitution. */
  ghost predicate Judged(text: string, isJson: string -> bool, r: Outcome) {
    match r
    case MissingVariables(_) => false
    case Unresolved(found) => (exists p :: Unfilled(text, p)) && forall p :: p in found <==> Unfilled(text, p)
    case InvalidJson => (forall p :: !Unfilled(text, p)) && !isJson(text)
    case Substituted(t) => t == text && (forall p :: !Unfilled(text, p)) && isJson(text)
  }

  lemma UnfilledAreLeftovers(text: string, p: string)
    ensures Unfilled(text, p) <==> p in Leftovers(text)
  {
    if p in Leftovers(text) {
      LeftoversAreNamed(text, p);
    }
    if n :| IsName(n) && p == Placeholder(n) {
      LeftoversAreAllThatOccur(text, n);
    }
  }

  /** A text is handed out only if it is JSON without a named placeholder anywhere in it; if it has one, the outcome
      names exactly those it has. */
  lemma FinishIsJudged(text: string, isJson: string -> bool)
    ensures Judged(text, isJson, Finish(text, isJson))
  {
    forall p ensures Unfilled(text, p) <==> p in Leftovers(text) {
      UnfilledAreLeftovers(text, p);
    }
    if Leftovers(text) != [] {
      assert Leftovers(text)[0] in Leftovers(text);
    }
  }

  lemma HandedOutIsFilled(text: string, isJson: string -> bool, r: Outcome)
    requires Judged(text, isJson, r) && r.Substituted?
    ensures isJson(r.text) && forall n | IsName(n) :: !Occurs(r.text, Placeholder(n))
  {
    forall n | IsName(n) ensures !Occurs(r.text, Placeholder(n)) {
      assert !Unfilled(text, Placeholder(n));
    }
  }

  /** The objects around each absent optional variable are removed. */
  method StripOptional(body: string, variables: seq<Variable>, optional: seq<string>)
    returns (result: string, ghost stages: seq<string>)
    ensures Stages(stages, optional, variables) && stages[0] == body && stages[|optional|] == result
  {
    result := body;
    stages := [body];
    for i := 0 to |optional|
      invariant Stages(stages, optional[..i], variables) && stages[0] == body && stages[i] == result
    {
      if !Supplied(optional[i], variables) {
        result := RemoveEnclosingObject(result, Placeholder(optional[i]));
      }
      NextStage(stages, optional, i, variables, result);
      stages := stages + [result];
    }
    assert optional[..|optional|] == optional;
  }

  /** The variables go in one after the other. */
  method FillIn(stripped: string, variables: seq<Variable>) returns (result: string)
    ensures result == SubstituteAll(stripped, variables)
  {
    result := stripped;
    for i := 0 to |variables|
      invariant result == SubstituteAll(stripped, variables[..i])
    {
      var jsonEscaped := Escape(variables[i].value);
      var escaped := ReplaceAll(jsonEscaped, "${", "\\u0024{");
      assert variables[..i + 1][..i] == variables[..i];
      result := ReplaceAll(result, Placeholder(variables[i].name), escaped);
    }
    assert variables[..|variables|] == variables;
  }

  /** The checks after substitution; `isJson` stands for the parser's verdict. */
  method Check(text: string, isJson: string -> bool) returns (r: Outcome)
    ensures r == Finish(text, isJson) && Judged(text, isJson, r)
  {
    FinishIsJudged(text, isJson);
    var remaining := Leftovers(text);
    if remaining != [] {
      return Unresolved(set p | p in remaining);
    }
    if !isJson(text) {
      return InvalidJson;
    }
    return Substituted(text);
  }

  method Substitute(body: string, variables: seq<Variable>, required: seq<string>, optional: seq<string>,
      isJson: string -> bool)
    returns (r: Outcome)
    ensures Missing(required, variables) != [] ==> r == MissingVariables(Missing(required, variables))
    ensures Missing(required, variables) == [] ==>
              exists stages :: Stages(stages, optional, variables) && stages[0] == body
                            && r == Finish(SubstituteAll(stages[|optional|], variables), isJson)
                            && Judged(SubstituteAll(stages[|optional|], variables), isJson, r)
    ensures r.Substituted? ==> isJson(r.text) && forall n | IsName(n) :: !Occurs(r.text, Placeholder(n))
  {
    var missing := Missing(required, variables);
    if |missing| > 0 {
      return MissingVariables(missing);
    }
    var stripped, stages := StripOptional(body, variables, optional);
    var result := FillIn(stripped, variables);
    r := Check(result, isJson);
    if r.Substituted? {
      HandedOutIsFilled(result, isJson, r);
    }
  }

  lemma NextStage(stages: seq<string>, optional: seq<string>, i: nat, vars: seq<Variable>, next: string)
    requires i < |optional| && Stages(stages, optional[..i], vars)
    requires if Supplied(optional[i], vars) then next == stages[i] else WithoutOptional(stages[i], optional[i], next)
    ensures Stages(stages + [next], optional[..i + 1], vars)
  {
    var more := stages + [next];
    forall j | 0 <= j < i + 1
      ensures if Supplied(optional[..i + 1][j], vars) then more[j + 1] == more[j]
              else WithoutOptional(more[j], optional[..i + 1][j], more[j + 1])
    {
      if j < i {
        assert optional[..i][j] == optional[..i + 1][j];
      }
    }
  }

  lemma OptionalKeepsBalance(s: string, name: string, t: string)
    requires WithoutOptional(s, name, t) && Balanced(s)
    ensures Balanced(t)
  {
    var texts :| Removed(texts, Placeholder(name)) && texts[0] == s && texts[|texts| - 1] == t;
    RemovalOnBalancedBody(texts, Placeholder(name));
  }

  /** Removing absent optional variables keeps a balanced body balanced. */
  lemma {:induction false} StagesKeepBalance(stages: seq<string>, optional: seq<string>, vars: seq<Variable>, i: nat)
    requires Stages(stages, optional, vars) && Balanced(stages[0]) && i <= |optional|
    ensures Balanced(stages[i])
  {
    if i > 0 {
      StagesKeepBalance(stages, optional, vars, i - 1);
      if !Supplied(optional[i - 1], vars) {
        OptionalKeepsBalance(stages[i - 1], optional[i - 1], stages[i]);
      }
    }
  }

  lemma {:induction false} MissingAreTheUnsupplied(required: seq<string>, vars: seq<Variable>)
    ensures forall n :: n in Missing(required, vars) <==> n in required && !Supplied(n, vars)
  {
    if required != [] {
      MissingAreTheUnsupplied(required[1..], vars);
      assert required == [required[0]] + required[1..];
    }
  }

  /** A variable counts as supplied exactly when it would be filled in. */
  lemma SuppliedIsMapped(name: string, vars: seq<Variable>)
    ensures Supplied(name, vars) <==> name in AsMap(vars)
  {
    NamesInMap(vars);
  }

  /** A template all of whose named placeholders are supplied goes through with all values filled in at once, if that
      is JSON. */
  lemma FilledTemplateGoesThrough(body: string, vars: seq<Variable>, isJson: string -> bool)
    requires Templated(body) && PlainVariables(vars)
    requires forall i | 0 <= i < |Tokens(body)| && Tokens(body)[i].Hole? && IsName(Tokens(body)[i].name) ::
               Supplied(Tokens(body)[i].name, vars)
    ensures var text := Render(FillAll(Tokens(body), AsMap(vars)));
            Finish(SubstituteAll(body, vars), isJson) == if isJson(text) then Substituted(text) else InvalidJson
  {
    TokensRender(body);
    SequentialIsSimultaneous(Tokens(body), vars);
    RejectsExactlyUndeclared(body, vars);
    forall i | 0 <= i < |Tokens(body)| && Tokens(body)[i].Hole? && IsName(Tokens(body)[i].name)
      ensures Tokens(body)[i].name in AsMap(vars)
    {
      SuppliedIsMapped(Tokens(body)[i].name, vars);
    }
  }
}
