/** Removing the JSON object around a placeholder from a dashboard template. */
module EnclosingObject {
  import opened Options
  import opened Text

  function Placeholder(name: string): string {
    "${" + name + "}"
  }

  // ---- brace heights ----------------------------------------------------------------------------------

  function Step(c: char): int {
    if c == '{' then 1 else if c == '}' then -1 else 0
  }

  /** How many braces are open after the first `i` characters. */
  function Height(s: string, i: nat): int
    requires i <= |s|
  {
    if i == 0 then 0 else Height(s, i - 1) + Step(s[i - 1])
  }

  ghost predicate Balanced(s: string) {
    Height(s, |s|) == 0 && forall i | 0 <= i <= |s| :: Height(s, i) >= 0
  }

  /** The brace at `a` is closed by the one at `b`. */
  ghost predicate Block(s: string, a: int, b: int) {
    && 0 <= a < b < |s| && s[a] == '{' && s[b] == '}'
    && Height(s, b + 1) == Height(s, a)
    && forall k | a < k <= b :: Height(s, k) > Height(s, a)
  }

  /** The block lies around position `idx`, inside every other block around it. */
  ghost predicate Innermost(s: string, a: int, b: int, idx: int) {
    && Block(s, a, b) && a < idx <= b
    && forall c, d | Block(s, c, d) && c < idx <= d :: c <= a && b <= d
  }

  /** No block around `idx` opens before it. */
  ghost predicate AtTopLevel(s: string, idx: nat) {
    idx <= |s| && forall k | 0 <= k <= idx :: Height(s, k) >= Height(s, idx)
  }

  /** Walking backward to the brace that is still open at `idx`. */
  method FindOpening(s: string, idx: nat) returns (start: int)
    requires idx <= |s|
    ensures start >= -1 && (start == -1 <==> AtTopLevel(s, idx))
    ensures start >= 0 ==> start < idx && s[start] == '{' && Height(s, start) == Height(s, idx) - 1
    ensures start >= 0 ==> forall k | start < k <= idx :: Height(s, k) >= Height(s, idx)
  {
    var depth := 0;
    start := -1;
    var i := idx - 1;
    while i >= 0
      invariant -1 <= i < idx
      invariant start == -1 && depth == Height(s, i + 1) - Height(s, idx)
      invariant forall k | i + 1 <= k <= idx :: Height(s, k) >= Height(s, idx)
    {
      var ch := s[i];
      if ch == '}' {
        depth := depth + 1;
      } else if ch == '{' {
        if depth == 0 {
          start := i;
          break;
        }
        depth := depth - 1;
      }
      i := i - 1;
    }
    assert start >= 0 ==> Height(s, start) < Height(s, idx);
  }

  /** Walking forward to the brace that closes the one at `start`. */
  method FindClosing(s: string, start: nat) returns (end: int)
    requires start < |s| && s[start] == '{'
    ensures end >= 0 ==> Block(s, start, end)
    ensures end < 0 ==> end == -1 && forall k | start < k <= |s| :: Height(s, k) > Height(s, start)
  {
    var depth := 0;
    end := -1;
    var i := start;
    while i < |s|
      invariant start <= i <= |s|
      invariant end == -1 && depth == Height(s, i) - Height(s, start)
      invariant forall k | start < k <= i :: Height(s, k) > Height(s, start)
    {
      var ch := s[i];
      if ch == '{' {
        depth := depth + 1;
      } else if ch == '}' {
        depth := depth - 1;
        if depth == 0 {
          end := i;
          break;
        }
      }
      i := i + 1;
    }
  }

  // ---- separators -------------------------------------------------------------------------------------

  /** The white space a regular expression's `\s` matches. */
  predicate IsSpace(c: char) {
    || 9 <= c as int <= 13 || c == ' ' || c as int == 0xa0 || c as int == 0x1680 || 0x2000 <= c as int <= 0x200a
    || c as int in {0x2028, 0x2029, 0x202f, 0x205f, 0x3000, 0xfeff}
  }

  /** ECMAScript's white space and line terminators: the controls from tab to carriage return, the space separators of
      Unicode, the line and paragraph separators and the byte order mark. */
  const WHITE_SPACE: seq<int> := [
    9, 10, 11, 12, 13, 32, 160, 5760, 8192, 8193, 8194, 8195, 8196, 8197, 8198, 8199, 8200, 8201, 8202, 8232, 8233,
    8239, 8287, 12288, 65279]

  lemma SpacesAreWhiteSpace(c: char)
    ensures IsSpace(c) <==> c as int in WHITE_SPACE
  {
  }

  function LeadingSpaces(s: string): (n: nat)
    ensures n <= |s| && forall i | 0 <= i < n :: IsSpace(s[i])
    ensures n < |s| ==> !IsSpace(s[n])
  {
    if s != "" && IsSpace(s[0]) then 1 + LeadingSpaces(s[1..]) else 0
  }

  function TrailingSpaces(s: string): (n: nat)
    ensures n <= |s| && forall i | |s| - n <= i < |s| :: IsSpace(s[i])
    ensures n < |s| ==> !IsSpace(s[|s| - 1 - n])
  {
    if s != "" && IsSpace(s[|s| - 1]) then 1 + TrailingSpaces(s[..|s| - 1]) else 0
  }

  /** Length of white space, comma, white space at the start of `after`; 0 without the comma. */
  function TrailingMatch(after: string): (n: nat)
    ensures n <= |after| && forall i | 0 <= i < n :: IsSpace(after[i]) || after[i] == ','
  {
    var w := LeadingSpaces(after);
    if w < |after| && after[w] == ',' then w + 1 + LeadingSpaces(after[w + 1..]) else 0
  }

  /** Length of comma, white space at the end of `before`; 0 without the comma. */
  function LeadingMatch(before: string): (n: nat)
    ensures n <= |before| && forall i | |before| - n <= i < |before| :: IsSpace(before[i]) || before[i] == ','
  {
    var w := TrailingSpaces(before);
    if w < |before| && before[|before| - 1 - w] == ',' then w + 1 else 0
  }

  /** Where the removal of the block from `a` to `b` begins and ends. */
  function RemoveStart(s: string, a: nat, b: nat): (i: nat)
    requires a < b < |s|
    ensures i <= a
  {
    if TrailingMatch(s[b + 1..]) > 0 then a else a - LeadingMatch(s[..a])
  }

  function RemoveEnd(s: string, b: nat): (i: nat)
    requires b < |s|
    ensures b < i <= |s|
  {
    b + 1 + TrailingMatch(s[b + 1..])
  }

  function Cut(s: string, a: nat, b: nat): string
    requires a < b < |s|
  {
    s[..RemoveStart(s, a, b)] + s[RemoveEnd(s, b)..]
  }

  // ---- what a cut leaves of a list ------------------------------------------------------------------------

  predicate Spaces(w: string) {
    forall i | 0 <= i < |w| :: IsSpace(w[i])
  }

  predicate StartsBlank(s: string) {
    s != "" && IsSpace(s[0])
  }

  lemma {:induction false} LeadingSpacesAre(w: string, rest: string)
    requires Spaces(w) && !StartsBlank(rest)
    ensures LeadingSpaces(w + rest) == |w|
  {
    if w == "" {
      assert w + rest == rest;
    } else {
      LeadingSpacesAre(w[1..], rest);
      assert (w + rest)[1..] == w[1..] + rest;
    }
  }

  lemma {:induction false} TrailingSpacesAre(before: string, w: string)
    requires Spaces(w) && (before != "" ==> !IsSpace(before[|before| - 1]))
    ensures TrailingSpaces(before + w) == |w|
    decreases |w|
  {
    if w == "" {
      assert before + w == before;
    } else {
      TrailingSpacesAre(before, w[..|w| - 1]);
      assert (before + w)[..|before + w| - 1] == before + w[..|w| - 1];
    }
  }

  lemma SeparatorBehind(w1: string, w2: string, post: string)
    requires Spaces(w1) && Spaces(w2) && !StartsBlank(post)
    ensures TrailingMatch(w1 + "," + w2 + post) == |w1| + 1 + |w2|
  {
    var after := w1 + "," + w2 + post;
    assert after == w1 + ("," + w2 + post);
    LeadingSpacesAre(w1, "," + w2 + post);
    assert after[|w1| + 1..] == w2 + post;
    LeadingSpacesAre(w2, post);
  }

  lemma NoSeparatorBehind(blank: string, post: string)
    requires Spaces(blank) && !StartsBlank(post) && (post != "" ==> post[0] != ',')
    ensures TrailingMatch(blank + post) == 0
  {
    LeadingSpacesAre(blank, post);
  }

  lemma SeparatorBefore(pre: string, w: string)
    requires Spaces(w)
    ensures LeadingMatch(pre + "," + w) == |w| + 1
  {
    TrailingSpacesAre(pre + ",", w);
  }

  lemma NoSeparatorBefore(pre: string, w: string)
    requires Spaces(w) && (pre != "" ==> !IsSpace(pre[|pre| - 1]) && pre[|pre| - 1] != ',')
    ensures LeadingMatch(pre + w) == 0
  {
    TrailingSpacesAre(pre, w);
  }

  lemma CutInParts(before: string, block: string, after: string)
    requires |block| >= 2
    ensures var n := |before| - LeadingMatch(before);
            Cut(before + block + after, |before|, |before| + |block| - 1) ==
            if TrailingMatch(after) > 0 then before + after[TrailingMatch(after)..] else before[..n] + after
  {
    var s := before + block + after;
    assert s[|before| + |block|..] == after && s[..|before|] == before;
    var i, j := RemoveStart(s, |before|, |before| + |block| - 1), RemoveEnd(s, |before| + |block| - 1);
    assert s[..i] == before[..i];
    assert s[j..] == after[TrailingMatch(after)..];
  }

  /** An element with a comma behind it goes together with that comma and the blanks around it. */
  lemma CutBeforeComma(pre: string, block: string, w1: string, w2: string, post: string)
    requires |block| >= 2 && Spaces(w1) && Spaces(w2) && !StartsBlank(post)
    ensures Cut(pre + block + (w1 + "," + w2 + post), |pre|, |pre| + |block| - 1) == pre + post
  {
    CutInParts(pre, block, w1 + "," + w2 + post);
    SeparatorBehind(w1, w2, post);
    assert (w1 + "," + w2 + post)[|w1| + 1 + |w2|..] == post;
  }

  /** A last element goes together with the comma before it. */
  lemma CutAfterComma(pre: string, w: string, block: string, blank: string, post: string)
    requires |block| >= 2 && Spaces(w) && Spaces(blank) && !StartsBlank(post) && (post != "" ==> post[0] != ',')
    ensures var before := pre + "," + w;
            Cut(before + block + (blank + post), |before|, |before| + |block| - 1) == pre + (blank + post)
  {
    CutInParts(pre + "," + w, block, blank + post);
    NoSeparatorBehind(blank, post);
    SeparatorBefore(pre, w);
    assert (pre + "," + w)[..|pre|] == pre;
  }

  /** Without a comma on either side only the block itself goes. */
  lemma CutAlone(pre: string, w: string, before: string, block: string, blank: string, post: string)
    requires |block| >= 2 && Spaces(blank) && !StartsBlank(post) && (post != "" ==> post[0] != ',')
    requires before == pre + w && Spaces(w) && (pre != "" ==> !IsSpace(pre[|pre| - 1]) && pre[|pre| - 1] != ',')
    ensures Cut(before + block + (blank + post), |before|, |before| + |block| - 1) == before + (blank + post)
  {
    NoSeparatorBehind(blank, post);
    NoSeparatorBefore(pre, w);
    CutInParts(before, block, blank + post);
    assert before[..|before|] == before;
  }

  /** One pass: the first placeholder's innermost block goes, with a separator. */
  ghost predicate Pass(s: string, placeholder: string, t: string) {
    && IndexOf(s, placeholder) >= 0
    && exists a: nat, b: nat :: Innermost(s, a, b, IndexOf(s, placeholder)) && t == Cut(s, a, b)
  }

  /** A run of passes, text by text. */
  ghost predicate Passes(texts: seq<string>, placeholder: string) {
    |texts| > 0 && forall i | 0 < i < |texts| :: Pass(texts[i - 1], placeholder, texts[i])
  }

  lemma InnermostFound(s: string, a: nat, b: nat, idx: nat)
    requires Block(s, a, b) && a < idx <= |s|
    requires forall k | a < k <= idx :: Height(s, k) >= Height(s, idx)
    requires Height(s, a) == Height(s, idx) - 1
    ensures Innermost(s, a, b, idx)
  {
    var closed := Height(s, b + 1);
    forall c, d | Block(s, c, d) && c < idx <= d ensures c <= a && b <= d {
      assert Height(s, c) < Height(s, idx);
      var after := Height(s, d + 1);
    }
  }

  lemma {:induction false} HeightOfPrefix(x: string, y: string, i: nat)
    requires i <= |x|
    ensures Height(x + y, i) == Height(x, i)
  {
    if i > 0 {
      HeightOfPrefix(x, y, i - 1);
    }
  }

  lemma {:induction false} HeightBeyond(x: string, y: string, i: nat)
    requires i <= |y|
    ensures Height(x + y, |x| + i) == Height(x, |x|) + Height(y, i)
  {
    if i == 0 {
      HeightOfPrefix(x, y, |x|);
    } else {
      HeightBeyond(x, y, i - 1);
    }
  }

  lemma HeightAfterCut(s: string, i: nat, j: nat, k: nat)
    requires i <= j <= |s| && k <= |s| - j + i && Height(s, i) == Height(s, j)
    ensures Height(s[..i] + s[j..], k) == Height(s, if k <= i then k else k - i + j)
  {
    var x, y := s[..i], s[j..];
    if k <= i {
      HeightOfPrefix(x, y, k);
      assert s == x + s[i..];
      HeightOfPrefix(x, s[i..], k);
    } else {
      HeightBeyond(x, y, k - i);
      assert s == s[..j] + y;
      HeightBeyond(s[..j], y, k - i);
      HeightOfPrefix(s[..j], y, j);
      assert s == x + s[i..];
      HeightOfPrefix(x, s[i..], i);
    }
  }

  /** Cutting out a stretch between equal heights keeps the balance. */
  lemma LevelCutKeepsBalance(s: string, i: nat, j: nat)
    requires Balanced(s) && i <= j <= |s| && Height(s, i) == Height(s, j)
    ensures Balanced(s[..i] + s[j..])
  {
    var t := s[..i] + s[j..];
    forall k | 0 <= k <= |t| ensures Height(t, k) >= 0 {
      HeightAfterCut(s, i, j, k);
    }
    HeightAfterCut(s, i, j, |t|);
  }

  lemma {:induction false} LevelStretch(s: string, i: nat, j: nat)
    requires i <= j <= |s| && forall k | i <= k < j :: s[k] != '{' && s[k] != '}'
    ensures Height(s, i) == Height(s, j)
    decreases j
  {
    if i < j {
      LevelStretch(s, i, j - 1);
    }
  }

  lemma CutIsLevel(s: string, a: nat, b: nat)
    requires Block(s, a, b)
    ensures Height(s, RemoveStart(s, a, b)) == Height(s, RemoveEnd(s, b))
  {
    var i, j := RemoveStart(s, a, b), RemoveEnd(s, b);
    forall k | b + 1 <= k < j ensures s[k] != '{' && s[k] != '}' {
      assert s[k] == s[b + 1..][k - (b + 1)];
    }
    forall k | i <= k < a ensures s[k] != '{' && s[k] != '}' {
      assert s[k] == s[..a][k];
    }
    LevelStretch(s, b + 1, j);
    LevelStretch(s, i, a);
  }

  /** A pass keeps the rest balanced and makes the text strictly shorter. */
  lemma PassKeepsBalance(s: string, placeholder: string, t: string)
    requires Pass(s, placeholder, t)
    ensures |t| < |s|
    ensures Balanced(s) ==> Balanced(t)
  {
    var a: nat, b: nat :| Innermost(s, a, b, IndexOf(s, placeholder)) && t == Cut(s, a, b);
    CutIsLevel(s, a, b);
    if Balanced(s) {
      LevelCutKeepsBalance(s, RemoveStart(s, a, b), RemoveEnd(s, b));
    }
  }

  /** In balanced text every open brace closes, so the second safety break never happens. */
  lemma BalancedIsClosed(s: string, idx: nat)
    requires Balanced(s)
    ensures !Unclosed(s, idx)
  {
    forall a | 0 <= a < idx && a < |s| ensures exists k :: a < k <= |s| && Height(s, k) <= Height(s, a) {
      assert Height(s, |s|) <= Height(s, a);
    }
  }

  /** In balanced text "outside every block" means at height zero. */
  lemma TopLevelIsHeightZero(s: string, idx: nat)
    requires Balanced(s) && idx <= |s|
    ensures AtTopLevel(s, idx) <==> Height(s, idx) == 0
  {
    assert Height(s, 0) == 0;
  }

  predicate NoBraces(name: string) {
    forall i | 0 <= i < |name| :: name[i] != '{' && name[i] != '}'
  }

  lemma PlaceholderCharacters(s: string, name: string, idx: nat)
    requires OccursAt(s, Placeholder(name), idx)
    ensures s[idx] == '$' && s[idx + 1] == '{' && s[idx + |name| + 2] == '}'
    ensures forall k | idx + 2 <= k < idx + 2 + |name| :: s[k] == name[k - idx - 2]
  {
    var p := Placeholder(name);
    forall k | idx <= k < idx + |p| ensures s[k] == p[k - idx] {
      assert s[idx..idx + |p|][k - idx] == s[k];
    }
  }

  lemma PlaceholderHeights(s: string, name: string, idx: nat)
    requires NoBraces(name) && OccursAt(s, Placeholder(name), idx)
    ensures forall k | idx <= k <= idx + |name| + 3 :: Height(s, k) >= Height(s, idx)
  {
    PlaceholderCharacters(s, name, idx);
    var open := Height(s, idx + 1);
    forall k | idx + 2 <= k <= idx + 2 + |name| ensures Height(s, k) == Height(s, idx + 2) {
      LevelStretch(s, idx + 2, k);
    }
  }

  /** The whole placeholder lies inside the block that goes. */
  lemma PlaceholderGoes(s: string, name: string, a: nat, b: nat)
    requires NoBraces(name) && IndexOf(s, Placeholder(name)) >= 0
    requires Innermost(s, a, b, IndexOf(s, Placeholder(name)))
    ensures IndexOf(s, Placeholder(name)) + |Placeholder(name)| <= b
  {
    var idx := IndexOf(s, Placeholder(name));
    PlaceholderHeights(s, name, idx);
    assert Height(s, idx) > Height(s, a);
    var closed := Height(s, b + 1);
  }

  // ---- the loop ---------------------------------------------------------------------------------------

  /** Nothing more to do: the placeholder is gone, stands outside every block, or its block never closes. */
  ghost predicate Settled(s: string, placeholder: string) {
    var idx := IndexOf(s, placeholder);
    idx >= 0 ==> AtTopLevel(s, idx) || Unclosed(s, idx)
  }

  ghost predicate Unclosed(s: string, idx: nat) {
    exists a :: 0 <= a < idx && a < |s| && forall k | a < k <= |s| :: Height(s, k) > Height(s, a)
  }

  /** One turn of the loop: a pass, or nothing more to do. */
  method RemoveOnce(result: string, placeholder: string, idx: nat) returns (next: Option<string>)
    requires idx == IndexOf(result, placeholder)
    ensures next.Some? ==> Pass(result, placeholder, next.value)
    ensures next.None? ==> Settled(result, placeholder)
  {
    var start := FindOpening(result, idx);
    if start == -1 {
      return None;
    }
    var end := FindClosing(result, start);
    if end == -1 {
      assert Unclosed(result, idx);
      return None;
    }
    InnermostFound(result, start, end, idx);
    var removeStart := start;
    var removeEnd := end + 1;
    var trailing := TrailingMatch(result[removeEnd..]);
    if trailing > 0 {
      removeEnd := removeEnd + trailing;
    } else {
      removeStart := removeStart - LeadingMatch(result[..removeStart]);
    }
    assert removeStart == RemoveStart(result, start, end) && removeEnd == RemoveEnd(result, end);
    return Some(result[..removeStart] + result[removeEnd..]);
  }

  /** Up to 100 passes, and fewer only once settled. */
  ghost predicate Removed(texts: seq<string>, placeholder: string) {
    && Passes(texts, placeholder)
    && |texts| - 1 <= 100
    && (|texts| - 1 == 100 || Settled(texts[|texts| - 1], placeholder))
  }

  method RemoveEnclosingObject(body: string, placeholder: string) returns (result: string)
    ensures exists texts :: Removed(texts, placeholder) && texts[0] == body && texts[|texts| - 1] == result
  {
    result := body;
    var safety: nat := 0;
    ghost var texts := [body];
    while safety < 100
      invariant safety == |texts| - 1 <= 100
      invariant Passes(texts, placeholder) && texts[0] == body && texts[safety] == result
    {
      var idx := IndexOf(result, placeholder);
      if idx == -1 {
        break;
      }
      var next := RemoveOnce(result, placeholder, idx);
      if next.None? {
        break;
      }
      safety := safety + 1;
      result := next.value;
      texts := texts + [result];
    }
    assert Removed(texts, placeholder);
  }

  /** Any number of passes takes at least that many characters. */
  lemma {:induction false} PassesShorten(texts: seq<string>, placeholder: string)
    requires Passes(texts, placeholder)
    ensures |texts[|texts| - 1]| + |texts| - 1 <= |texts[0]|
    decreases |texts|
  {
    var n := |texts| - 1;
    if n > 0 {
      PassesShorten(texts[..n], placeholder);
      PassKeepsBalance(texts[n - 1], placeholder, texts[n]);
    }
  }

  lemma {:induction false} PassesKeepBalance(texts: seq<string>, placeholder: string, n: nat)
    requires Passes(texts, placeholder) && n < |texts| && Balanced(texts[0])
    ensures Balanced(texts[n])
    decreases n
  {
    if n > 0 {
      PassesKeepBalance(texts, placeholder, n - 1);
      PassKeepsBalance(texts[n - 1], placeholder, texts[n]);
    }
  }

  /** On a balanced body: balanced again, and short of 100 passes a first placeholder still there is at height zero. */
  lemma RemovalOnBalancedBody(texts: seq<string>, placeholder: string)
    requires Removed(texts, placeholder) && Balanced(texts[0])
    ensures var result := texts[|texts| - 1];
            && Balanced(result) && |result| + |texts| - 1 <= |texts[0]|
            && (|texts| <= 100 && IndexOf(result, placeholder) >= 0 ==>
                Height(result, IndexOf(result, placeholder)) == 0)
  {
    PassesShorten(texts, placeholder);
    PassesKeepBalance(texts, placeholder, |texts| - 1);
    var result := texts[|texts| - 1];
    var idx := IndexOf(result, placeholder);
    if idx >= 0 {
      BalancedIsClosed(result, idx);
      TopLevelIsHeightZero(result, idx);
    }
  }
}
