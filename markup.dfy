/**
 * The client's `formatOutput` (public/app.js): five global regular-expression
 * replacements applied one after the other to the generated text,
 *
 *   1. a fenced block  ```lang\n ... ```  becomes  <pre><code> ... </code></pre>
 *   2. inline code     ` ... `            becomes  <code> ... </code>
 *   3. bold            ** ... **          becomes  <strong> ... </strong>
 *   4. italic          * ... *            becomes  <em> ... </em>
 *   5. each newline                       becomes  <br>
 *
 * A global replacement scans from the left: where the pattern matches at the
 * current position, the match is replaced and scanning resumes after it;
 * elsewhere one character is copied. Each pass below is that scan, with the
 * match decided the way the regular expression's backtracking decides it.
 */
module Markup {
  import opened Wrappers

  /** The characters of the class `\w`. */
  predicate IsWordChar(c: char) {
    ('A' <= c <= 'Z') || ('a' <= c <= 'z') || ('0' <= c <= '9') || c == '_'
  }

  /** The first position at or after `from` that holds `c`, or |s| if there is none. */
  function NextIndexOf(s: string, c: char, from: nat): (k: nat)
    requires from <= |s|
    ensures from <= k <= |s|
    ensures k < |s| ==> s[k] == c
    ensures forall j :: from <= j < k ==> s[j] != c
    decreases |s| - from
  {
    if from == |s| || s[from] == c then from else NextIndexOf(s, c, from + 1)
  }

  /** The end of the run of word characters starting at `from`. */
  function WordRunEnd(s: string, from: nat): (k: nat)
    requires from <= |s|
    ensures from <= k <= |s|
    ensures k < |s| ==> !IsWordChar(s[k])
    ensures forall j :: from <= j < k ==> IsWordChar(s[j])
    decreases |s| - from
  {
    if from == |s| || !IsWordChar(s[from]) then from else WordRunEnd(s, from + 1)
  }

  /** Whether three backticks start at position `i`. */
  predicate FenceAt(s: string, i: int) {
    0 <= i && i + 3 <= |s| && s[i] == '`' && s[i + 1] == '`' && s[i + 2] == '`'
  }

  /** The first position at or after `from` where three backticks start, if any. */
  function NextFence(s: string, from: nat): (r: Option<nat>)
    requires from <= |s|
    ensures r.Some? ==> from <= r.value && FenceAt(s, r.value)
    ensures forall j :: from <= j && (r.None? || j < r.value) ==> !FenceAt(s, j)
    decreases |s| - from
  {
    if from + 3 > |s| then None
    else if FenceAt(s, from) then Some(from)
    else NextFence(s, from + 1)
  }

  /**
   * Where ```(\w+)?\n([\s\S]*?)``` matches at the start of `s`: the position of
   * the newline after the optional language tag, and the position of the
   * closing fence, which is the first one after that newline.
   */
  function FenceMatch(s: string): (m: Option<(nat, nat)>)
    ensures m.Some? ==> FenceAt(s, 0) && 3 <= m.value.0 < m.value.1 && m.value.1 + 3 <= |s|
    ensures m.Some? ==> (forall j :: 3 <= j < m.value.0 ==> IsWordChar(s[j])) && s[m.value.0] == '\n'
    ensures m.Some? ==> FenceAt(s, m.value.1) && forall j :: m.value.0 < j < m.value.1 ==> !FenceAt(s, j)
    ensures m.None? && FenceAt(s, 0) ==>
              forall nl, close :: 3 <= nl < close && FenceAt(s, close) && s[nl] == '\n' ==>
                exists j :: 3 <= j < nl && !IsWordChar(s[j])
  {
    if !FenceAt(s, 0) then None
    else
      var nl := WordRunEnd(s, 3);
      if nl == |s| || s[nl] != '\n' then None
      else
        match NextFence(s, nl + 1)
        case Some(close) => Some((nl, close))
        case None => None
  }

  /** Pass 1: fenced code blocks. Without three backticks in a row it changes nothing. */
  function FencedPass(s: string): (r: string)
    ensures NoFence(s) ==> r == s
    decreases |s|
  {
    if s == [] then []
    else
      match FenceMatch(s)
      case Some((nl, close)) => "<pre><code>" + s[nl + 1..close] + "</code></pre>" + FencedPass(s[close + 3..])
      case None =>
        assert NoFence(s) ==> NoFence(s[1..]) by {
          if NoFence(s) {
            forall i | 0 <= i < |s[1..]| ensures !FenceAt(s[1..], i) {
              assert FenceAt(s[1..], i) ==> FenceAt(s, i + 1);
            }
          }
        }
        [s[0]] + FencedPass(s[1..])
  }

  /**
   * Where `d([^d]+)d` matches at the start of `s`, for a one-character
   * delimiter `d` (a backtick for inline code, a star for italic): the
   * position of the closing delimiter.
   */
  function DelimitedMatch(s: string, d: char): (m: Option<nat>)
    ensures m.Some? ==> 1 < m.value < |s| && s[0] == d && s[m.value] == d
    ensures m.Some? ==> forall j :: 1 <= j < m.value ==> s[j] != d
    ensures m.None? && 0 < |s| && s[0] == d ==> forall k :: 1 < k < |s| && s[k] == d ==> d in s[1..k]
  {
    if |s| == 0 || s[0] != d then None
    else
      var k := NextIndexOf(s, d, 1);
      if 1 < k < |s| then Some(k) else None
  }

  /** Pass 2: inline code. Without a backtick it changes nothing. */
  function InlineCodePass(s: string): (r: string)
    ensures '`' !in s ==> r == s
    decreases |s|
  {
    if s == [] then []
    else
      match DelimitedMatch(s, '`')
      case Some(k) => "<code>" + s[1..k] + "</code>" + InlineCodePass(s[k + 1..])
      case None => [s[0]] + InlineCodePass(s[1..])
  }

  /** Where \*\*([^*]+)\*\* matches at the start of `s`: the position of the closing pair. */
  function BoldMatch(s: string): (m: Option<nat>)
    ensures m.Some? ==> 2 < m.value && m.value + 1 < |s| && s[0] == '*' && s[1] == '*'
    ensures m.Some? ==> s[m.value] == '*' && s[m.value + 1] == '*' && forall j :: 2 <= j < m.value ==> s[j] != '*'
    ensures m.None? && 2 <= |s| && s[0] == '*' && s[1] == '*' ==>
              forall k :: 2 < k && k + 1 < |s| && s[k] == '*' && s[k + 1] == '*' ==> '*' in s[2..k]
  {
    if |s| < 2 || s[0] != '*' || s[1] != '*' then None
    else
      var k := NextIndexOf(s, '*', 2);
      if 2 < k && k + 1 < |s| && s[k + 1] == '*' then Some(k) else None
  }

  /** Pass 3: bold. Without a star it changes nothing. */
  function BoldPass(s: string): (r: string)
    ensures '*' !in s ==> r == s
    decreases |s|
  {
    if s == [] then []
    else
      match BoldMatch(s)
      case Some(k) => "<strong>" + s[2..k] + "</strong>" + BoldPass(s[k + 2..])
      case None => [s[0]] + BoldPass(s[1..])
  }

  /** Pass 4: italic. Without a star it changes nothing. */
  function ItalicPass(s: string): (r: string)
    ensures '*' !in s ==> r == s
    decreases |s|
  {
    if s == [] then []
    else
      match DelimitedMatch(s, '*')
      case Some(k) => "<em>" + s[1..k] + "</em>" + ItalicPass(s[k + 1..])
      case None => [s[0]] + ItalicPass(s[1..])
  }

  /** Pass 5: every newline becomes a line break, and nothing else changes. */
  function NewlinePass(s: string): (r: string)
    ensures '\n' !in r
    ensures '\n' !in s ==> r == s
    decreases |s|
  {
    if s == [] then []
    else if s[0] == '\n' then "<br>" + NewlinePass(s[1..])
    else [s[0]] + NewlinePass(s[1..])
  }

  /** The HTML shown for generated text. */
  function FormatOutput(text: string): (html: string)
    ensures '\n' !in html
  {
    NewlinePass(ItalicPass(BoldPass(InlineCodePass(FencedPass(text)))))
  }

  /** No three backticks in a row. */
  predicate NoFence(s: string) {
    forall i :: 0 <= i < |s| ==> !FenceAt(s, i)
  }

  /** Text with no backtick, star or newline is shown as it is. */
  lemma FormatOutputPlain(s: string)
    requires '`' !in s && '*' !in s && '\n' !in s
    ensures FormatOutput(s) == s
  {
    assert NoFence(s);
  }

  /** NextIndexOf finds the first occurrence. */
  lemma {:induction false} NextIndexOfIs(s: string, c: char, from: nat, k: nat)
    requires from <= k < |s| && s[k] == c
    requires forall j :: from <= j < k ==> s[j] != c
    ensures NextIndexOf(s, c, from) == k
    decreases k - from
  {
    if from < k {
      NextIndexOfIs(s, c, from + 1, k);
    }
  }

  /** Pass 3 turns a star-free text between double stars into a bold element. */
  lemma BoldPassWrapped(x: string)
    requires x != [] && '*' !in x
    ensures BoldPass("**" + x + "**") == "<strong>" + x + "</strong>"
  {
    var s := "**" + x + "**";
    var k := |x| + 2;
    assert forall j :: 2 <= j < k ==> s[j] == x[j - 2];
    NextIndexOfIs(s, '*', 2, k);
    assert BoldMatch(s) == Some(k);
    assert s[2..k] == x && s[k + 2..] == [];
  }

  /** Pass 2 turns a backtick-free text between backticks into a code element. */
  lemma InlineCodePassWrapped(x: string)
    requires x != [] && '`' !in x
    ensures InlineCodePass("`" + x + "`") == "<code>" + x + "</code>"
  {
    var s := "`" + x + "`";
    var k := |x| + 1;
    assert forall j :: 1 <= j < k ==> s[j] == x[j - 1];
    NextIndexOfIs(s, '`', 1, k);
    assert DelimitedMatch(s, '`') == Some(k);
    assert s[1..k] == x && s[k + 1..] == [];
  }

  /** No backtick, star or newline: text that no pass changes. */
  predicate Plain(s: string) {
    '`' !in s && '*' !in s && '\n' !in s
  }

  /** The tags of pass 1 are plain. */
  lemma PreTagsArePlain()
    ensures Plain("<pre><code>") && Plain("</code></pre>")
  {
  }

  /** The tags of pass 2 are plain. */
  lemma CodeTagsArePlain()
    ensures Plain("<code>") && Plain("</code>")
  {
  }

  /** The tags of pass 3 are plain. */
  lemma StrongTagsArePlain()
    ensures Plain("<strong>") && Plain("</strong>")
  {
  }

  /** The tags of pass 4 are plain. */
  lemma EmTagsArePlain()
    ensures Plain("<em>") && Plain("</em>")
  {
  }

  /** Wrapping plain text in plain tags gives plain text. */
  lemma PlainWrap(open: string, x: string, close: string)
    requires Plain(open) && Plain(x) && Plain(close)
    ensures Plain(open + x + close)
  {
  }

  /** When pass 3 is the first to change plain-free text, the later passes leave its result alone. */
  lemma AfterBoldPass(s: string)
    requires InlineCodePass(FencedPass(s)) == s
    requires '*' !in BoldPass(s) && '\n' !in BoldPass(s)
    ensures FormatOutput(s) == BoldPass(s)
  {
  }

  /** When pass 2 is the first to change the text and leaves no star or newline, it decides the result. */
  lemma AfterInlineCodePass(s: string)
    requires FencedPass(s) == s
    requires '*' !in InlineCodePass(s) && '\n' !in InlineCodePass(s)
    ensures FormatOutput(s) == InlineCodePass(s)
  {
  }

  /** Text wrapped in double stars is shown in bold; pass 3 claims it before pass 4 could. */
  lemma FormatOutputBold(x: string)
    requires x != [] && '*' !in x && '`' !in x && '\n' !in x
    ensures FormatOutput("**" + x + "**") == "<strong>" + x + "</strong>"
  {
    var s := "**" + x + "**";
    assert '`' !in s;
    BoldPassWrapped(x);
    StrongTagsArePlain();
    PlainWrap("<strong>", x, "</strong>");
    AfterBoldPass(s);
  }

  /** Text wrapped in single backticks is shown as inline code. */
  lemma FormatOutputCode(x: string)
    requires x != [] && '*' !in x && '`' !in x && '\n' !in x
    ensures FormatOutput("`" + x + "`") == "<code>" + x + "</code>"
  {
    var s := "`" + x + "`";
    assert forall j :: 0 < j < |s| - 1 ==> s[j] == x[j - 1];
    InlineCodePassWrapped(x);
    CodeTagsArePlain();
    PlainWrap("<code>", x, "</code>");
    AfterInlineCodePass(s);
  }

  /** Pass 4 turns a star-free text between single stars into an emphasis element. */
  lemma ItalicPassWrapped(x: string)
    requires x != [] && '*' !in x
    ensures ItalicPass("*" + x + "*") == "<em>" + x + "</em>"
  {
    var s := "*" + x + "*";
    var k := |x| + 1;
    assert forall j :: 1 <= j < k ==> s[j] == x[j - 1];
    NextIndexOfIs(s, '*', 1, k);
    assert DelimitedMatch(s, '*') == Some(k);
    assert s[1..k] == x && s[k + 1..] == [];
  }

  /** Text wrapped in single stars is shown emphasised. */
  lemma FormatOutputItalic(x: string)
    requires x != [] && '*' !in x && '`' !in x && '\n' !in x
    ensures FormatOutput("*" + x + "*") == "<em>" + x + "</em>"
  {
    var s := "*" + x + "*";
    assert '`' !in s;
    BoldPassSingleStars(x);
    ItalicPassWrapped(x);
    EmTagsArePlain();
    PlainWrap("<em>", x, "</em>");
  }

  /** Pass 3 leaves a star-free text between single stars alone. */
  lemma BoldPassSingleStars(x: string)
    requires x != [] && '*' !in x
    ensures BoldPass("*" + x + "*") == "*" + x + "*"
  {
    var s := "*" + x + "*";
    assert forall j :: 0 < j < |s| - 1 ==> s[j] == x[j - 1];
    assert BoldMatch(s) == None;
    assert s[1..] == x + "*";
    BoldTrailingStar(x);
  }

  /** Pass 3 leaves star-free text followed by one star alone. */
  lemma BoldTrailingStar(x: string)
    requires '*' !in x
    ensures BoldPass(x + "*") == x + "*"
  {
    var s := x + "*";
    assert forall j :: 0 <= j < |s| - 1 ==> s[j] == x[j];
    BoldPassAfterLastStar(s);
  }

  /** Pass 3 never matches when only the last character is a star. */
  lemma {:induction false} BoldPassAfterLastStar(s: string)
    requires forall j :: 0 <= j < |s| - 1 ==> s[j] != '*'
    ensures BoldPass(s) == s
    decreases |s|
  {
    if s != [] {
      assert BoldMatch(s) == None;
      BoldPassAfterLastStar(s[1..]);
      assert s == [s[0]] + s[1..];
    }
  }

  /** Pass 1 turns a fenced block with an optional language tag into a preformatted code element. */
  lemma FencedPassBlock(lang: string, x: string)
    requires forall j :: 0 <= j < |lang| ==> IsWordChar(lang[j])
    requires '`' !in x
    ensures FencedPass("```" + lang + "\n" + x + "```") == "<pre><code>" + x + "</code></pre>"
  {
    var s := "```" + lang + "\n" + x + "```";
    var nl := 3 + |lang|;
    var close := nl + 1 + |x|;
    FenceLayout(lang, x);
    WordRunEndIs(s, 3, nl);
    NextFenceIs(s, nl + 1, close);
    WholeFence(s, nl, close);
  }

  /** Where the parts of a fenced block sit. */
  lemma FenceLayout(lang: string, x: string)
    requires forall j :: 0 <= j < |lang| ==> IsWordChar(lang[j])
    requires '`' !in x
    ensures var s, nl := "```" + lang + "\n" + x + "```", 3 + |lang|;
            |s| == nl + 1 + |x| + 3 && FenceAt(s, 0) && s[nl] == '\n' && !IsWordChar(s[nl]) &&
            FenceAt(s, nl + 1 + |x|) && s[nl + 1..nl + 1 + |x|] == x &&
            (forall j :: 3 <= j < nl ==> IsWordChar(s[j])) &&
            (forall j :: nl + 1 <= j < nl + 1 + |x| ==> s[j] != '`')
  {
    var head := "```" + lang + "\n";
    var s := head + (x + "```");
    assert s == "```" + lang + "\n" + x + "```";
    var nl := 3 + |lang|;
    forall j | 3 <= j < nl ensures IsWordChar(s[j]) {
      assert s[j] == head[j] == lang[j - 3];
    }
    forall j | nl + 1 <= j < nl + 1 + |x| ensures s[j] != '`' {
      assert s[j] == x[j - nl - 1];
    }
    assert s[nl + 1..nl + 1 + |x|] == x;
  }

  /** Text that is one fenced block from start to end becomes one preformatted element. */
  lemma WholeFence(s: string, nl: nat, close: nat)
    requires FenceAt(s, 0) && nl < |s| && s[nl] == '\n' && WordRunEnd(s, 3) == nl
    requires NextFence(s, nl + 1) == Some(close) && close + 3 == |s|
    ensures FencedPass(s) == "<pre><code>" + s[nl + 1..close] + "</code></pre>"
  {
    assert FenceMatch(s) == Some((nl, close));
    assert s[close + 3..] == [];
  }

  /** WordRunEnd stops at the first character outside `\w`. */
  lemma {:induction false} WordRunEndIs(s: string, from: nat, k: nat)
    requires from <= k < |s| && !IsWordChar(s[k])
    requires forall j :: from <= j < k ==> IsWordChar(s[j])
    ensures WordRunEnd(s, from) == k
    decreases k - from
  {
    if from < k {
      WordRunEndIs(s, from + 1, k);
    }
  }

  /** NextFence finds the first fence when no backtick comes before it. */
  lemma {:induction false} NextFenceIs(s: string, from: nat, k: nat)
    requires from <= k && FenceAt(s, k)
    requires forall j :: from <= j < k ==> s[j] != '`'
    ensures NextFence(s, from) == Some(k)
    decreases k - from
  {
    if from < k {
      NextFenceIs(s, from + 1, k);
    }
  }

  /** When pass 1 leaves plain text, the remaining passes leave it alone. */
  lemma AfterFencedPass(s: string)
    requires '`' !in FencedPass(s) && '*' !in FencedPass(s) && '\n' !in FencedPass(s)
    ensures FormatOutput(s) == FencedPass(s)
  {
    var t := FencedPass(s);
  }

  /** A fenced block whose body has no backtick, star or newline is shown as preformatted code. */
  lemma FormatOutputFence(lang: string, x: string)
    requires forall j :: 0 <= j < |lang| ==> IsWordChar(lang[j])
    requires '`' !in x && '*' !in x && '\n' !in x
    ensures FormatOutput("```" + lang + "\n" + x + "```") == "<pre><code>" + x + "</code></pre>"
  {
    FencedPassBlock(lang, x);
    PreTagsArePlain();
    PlainWrap("<pre><code>", x, "</code></pre>");
    AfterFencedPass("```" + lang + "\n" + x + "```");
  }
}
