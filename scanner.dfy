// The lexical layer of the KV3 reader: character classes, searches in the text,
// and where each skip routine of the parser stops. The search functions carry
// only their bounds; what they find is stated by the lemmas beside them.
module Scanner {

  /** The bound on the `iteration` counters of the skip and parse loops. A loop
      fails on entering its body once the counter has passed this value, so it
      may run its body at most LoopCap + 1 times. */
  const LoopCap: nat := 1000000

  /** The characters that end a key or a scalar value: `= \n{[}],` and nothing
      else (no tab, no carriage return). */
  const Delimiters: set<char> := {'=', ' ', '\n', '{', '[', '}', ']', ','}

  /** The characters `char.IsWhiteSpace` accepts: the controls U+0009 to U+000D,
      U+0085, and the Unicode space, line and paragraph separators. */
  predicate IsWhiteSpace(c: char) {
    c == ' ' || ('\t' <= c <= '\r') || c == '\U{0085}' || c == '\U{00A0}' ||
    c == '\U{1680}' || ('\U{2000}' <= c <= '\U{200A}') || c == '\U{2028}' ||
    c == '\U{2029}' || c == '\U{202F}' || c == '\U{205F}' || c == '\U{3000}'
  }

  // ---------------------------------------------------------------------------
  // Searching the text

  /** The first position at or after `i` holding a character of `cs`, or `|s|`
      when there is none. */
  function FirstFrom(s: string, i: nat, cs: set<char>): (r: nat)
    requires i <= |s|
    ensures i <= r <= |s|
    decreases |s| - i
  {
    if i == |s| || s[i] in cs then i else FirstFrom(s, i + 1, cs)
  }

  /** The search passes over no character of `cs` and stops on one, unless it
      runs off the end. */
  lemma {:induction false} FirstFromFinds(s: string, i: nat, cs: set<char>)
    requires i <= |s|
    ensures forall k :: i <= k < FirstFrom(s, i, cs) ==> s[k] !in cs
    ensures FirstFrom(s, i, cs) < |s| ==> s[FirstFrom(s, i, cs)] in cs
    decreases |s| - i
  {
    if i < |s| && s[i] !in cs {
      FirstFromFinds(s, i + 1, cs);
    }
  }

  /** A position preceded by no character of `cs` and holding one (or the end)
      is where the search stops. */
  lemma {:induction false} FirstFromAt(s: string, i: nat, cs: set<char>, j: nat)
    requires i <= j <= |s|
    requires forall k :: i <= k < j ==> s[k] !in cs
    requires j == |s| || s[j] in cs
    ensures FirstFrom(s, i, cs) == j
    decreases j - i
  {
    if i < j {
      FirstFromAt(s, i + 1, cs, j);
    }
  }

  /** The text's `IndexOf`/`IndexOfAny`: the first position at or after `i`
      holding a character of `cs`, or -1 when there is none. */
  function IndexOfAny(s: string, cs: set<char>, i: nat): (r: int)
    requires i <= |s|
    ensures r == -1 || i <= r < |s|
    ensures r == -1 <==> FirstFrom(s, i, cs) == |s|
    ensures r == -1 <==> forall k :: i <= k < |s| ==> s[k] !in cs
    ensures r != -1 ==> s[r] in cs && forall k :: i <= k < r ==> s[k] !in cs
  {
    FirstFromFinds(s, i, cs);
    var k := FirstFrom(s, i, cs);
    if k == |s| then -1 else k
  }

  /** The end of a key or scalar that starts at `i`. */
  function TokenEnd(s: string, i: nat): (r: nat)
    requires i <= |s|
    ensures i <= r <= |s|
  {
    FirstFrom(s, i, Delimiters)
  }

  /** A key or scalar holds no delimiter and is ended by one or by the end of the text. */
  lemma TokenEndStops(s: string, i: nat)
    requires i <= |s|
    ensures forall k :: i <= k < TokenEnd(s, i) ==> s[k] !in Delimiters
    ensures TokenEnd(s, i) < |s| ==> s[TokenEnd(s, i)] in Delimiters
  {
    FirstFromFinds(s, i, Delimiters);
  }

  /** The position just after the next newline at or after `i`, or `|s|` if there is none. */
  function NextLine(s: string, i: nat): (r: nat)
    requires i < |s|
    ensures i < r <= |s|
  {
    var n := FirstFrom(s, i, {'\n'});
    if n == |s| then |s| else n + 1
  }

  /** Jumping to the next line lands just after the first newline from `i`,
      or at the end when there is none. */
  lemma NextLineAfterNewline(s: string, i: nat)
    requires i < |s|
    ensures NextLine(s, i) < |s| ==> s[NextLine(s, i) - 1] == '\n'
    ensures forall k :: i <= k < NextLine(s, i) - 1 ==> s[k] != '\n'
  {
    FirstFromFinds(s, i, {'\n'});
  }

  // ---------------------------------------------------------------------------
  // Where the skip routines stop

  /** Where skipping white space from `i` stops. */
  function WhiteSpaceEnd(s: string, i: nat): (r: nat)
    requires i <= |s|
    ensures i <= r <= |s|
    decreases |s| - i
  {
    if i == |s| || !IsWhiteSpace(s[i]) then i else WhiteSpaceEnd(s, i + 1)
  }

  /** Skipping white space passes only white space, stops at the end or on a
      character that is not white space, and does nothing when there is none. */
  lemma {:induction false} WhiteSpaceEndStops(s: string, i: nat)
    requires i <= |s|
    ensures forall k :: i <= k < WhiteSpaceEnd(s, i) ==> IsWhiteSpace(s[k])
    ensures WhiteSpaceEnd(s, i) == |s| || !IsWhiteSpace(s[WhiteSpaceEnd(s, i)])
    ensures (i == |s| || !IsWhiteSpace(s[i])) ==> WhiteSpaceEnd(s, i) == i
    decreases |s| - i
  {
    if i < |s| && IsWhiteSpace(s[i]) {
      WhiteSpaceEndStops(s, i + 1);
    }
  }

  /** Where skipping comment lines from `i` stops: each line starting with `/`
      is skipped up to and including its newline. */
  function CommentsEnd(s: string, i: nat): (r: nat)
    requires i <= |s|
    ensures i <= r <= |s|
    decreases |s| - i
  {
    if i < |s| && s[i] == '/' then CommentsEnd(s, NextLine(s, i)) else i
  }

  /** Skipping comments stops at the end or on a character other than `/`, and
      does nothing when the cursor is not on a `/`. */
  lemma {:induction false} CommentsEndStops(s: string, i: nat)
    requires i <= |s|
    ensures CommentsEnd(s, i) == |s| || s[CommentsEnd(s, i)] != '/'
    ensures (i == |s| || s[i] != '/') ==> CommentsEnd(s, i) == i
    decreases |s| - i
  {
    if i < |s| && s[i] == '/' {
      CommentsEndStops(s, NextLine(s, i));
    }
  }

  /** How many lines skipping comments from `i` jumps over. */
  function CommentJumps(s: string, i: nat): (n: nat)
    requires i <= |s|
    decreases |s| - i
  {
    if i < |s| && s[i] == '/' then 1 + CommentJumps(s, NextLine(s, i)) else 0
  }

  /** Where skipping the header from `i` stops: every line whose first
      character is not `{` is skipped whole. */
  function HeaderEnd(s: string, i: nat): (r: nat)
    requires i <= |s|
    ensures i <= r <= |s|
    decreases |s| - i
  {
    if i < |s| && s[i] != '{' then HeaderEnd(s, NextLine(s, i)) else i
  }

  /** How many lines skipping the header from `i` jumps over. */
  function HeaderJumps(s: string, i: nat): (n: nat)
    requires i <= |s|
    decreases |s| - i
  {
    if i < |s| && s[i] != '{' then 1 + HeaderJumps(s, NextLine(s, i)) else 0
  }

  /** Skipping the header from the start of a line stops at the end of the
      text or on a `{` that is the first character of its line; only the first
      character of each line is looked at. */
  lemma {:induction false} HeaderEndStartsLine(s: string, i: nat)
    requires i <= |s|
    requires i == 0 || i == |s| || s[i - 1] == '\n'
    ensures var r := HeaderEnd(s, i);
            r == |s| || (s[r] == '{' && (r == 0 || s[r - 1] == '\n'))
    ensures forall k :: i <= k < HeaderEnd(s, i) && (k == 0 || s[k - 1] == '\n') ==> s[k] != '{'
    decreases |s| - i
  {
    if i < |s| && s[i] != '{' {
      NextLineAfterNewline(s, i);
      HeaderEndStartsLine(s, NextLine(s, i));
    }
  }

  // ---------------------------------------------------------------------------
  // Byte-blob normalisation: split on ' ' dropping empty pieces, rejoin with ' '.

  /** The pieces of `s` between runs of `' '`, empty pieces dropped. */
  function Words(s: string): (ws: seq<string>)
    ensures forall k :: 0 <= k < |ws| ==> ws[k] != [] && ' ' !in ws[k]
    decreases |s|
  {
    if s == [] then []
    else if s[0] == ' ' then Words(s[1..])
    else
      var e := FirstFrom(s, 0, {' '});
      FirstFromFinds(s, 0, {' '});
      [s[..e]] + Words(s[e..])
  }

  /** The pieces joined with a single `' '` between neighbours. */
  function Join(ws: seq<string>): string {
    if ws == [] then []
    else if |ws| == 1 then ws[0]
    else ws[0] + " " + Join(ws[1..])
  }

  /** The byte-blob text as the parser stores it. */
  function Normalize(raw: string): string {
    Join(Words(raw))
  }

  /** The characters of `s` other than `' '`, in order. */
  function NonSpace(s: string): string {
    if s == [] then [] else (if s[0] == ' ' then [] else [s[0]]) + NonSpace(s[1..])
  }

  /** The pieces concatenated without separators. */
  function Concat(ws: seq<string>): string {
    if ws == [] then [] else ws[0] + Concat(ws[1..])
  }

  /** No leading or trailing space and no two spaces side by side. */
  predicate SingleSpaced(t: string) {
    (t != [] ==> t[0] != ' ' && t[|t| - 1] != ' ') &&
    forall k :: 0 <= k < |t| - 1 ==> !(t[k] == ' ' && t[k + 1] == ' ')
  }

  lemma {:induction false} NonSpaceAppend(a: string, b: string)
    ensures NonSpace(a + b) == NonSpace(a) + NonSpace(b)
    decreases |a|
  {
    if a == [] {
      assert a + b == b;
    } else {
      assert (a + b)[1..] == a[1..] + b;
      NonSpaceAppend(a[1..], b);
    }
  }

  lemma {:induction false} NonSpaceOfSpaceless(w: string)
    requires ' ' !in w
    ensures NonSpace(w) == w
    decreases |w|
  {
    if w != [] {
      NonSpaceOfSpaceless(w[1..]);
    }
  }

  lemma {:induction false} WordsKeepNonSpace(s: string)
    ensures Concat(Words(s)) == NonSpace(s)
    decreases |s|
  {
    if s == [] {
    } else if s[0] == ' ' {
      WordsKeepNonSpace(s[1..]);
    } else {
      var e := FirstFrom(s, 0, {' '});
      FirstFromFinds(s, 0, {' '});
      assert s == s[..e] + s[e..];
      NonSpaceAppend(s[..e], s[e..]);
      NonSpaceOfSpaceless(s[..e]);
      WordsKeepNonSpace(s[e..]);
    }
  }

  lemma SingleSpacedCons(w: string, rest: string)
    requires w != [] && ' ' !in w
    requires rest != [] && SingleSpaced(rest)
    ensures SingleSpaced(w + " " + rest)
  {
    var t := w + " " + rest;
    forall k | 0 <= k < |t| - 1
      ensures !(t[k] == ' ' && t[k + 1] == ' ')
    {
      if k < |w| {
        assert t[k] == w[k];
      } else if k == |w| {
        assert t[k + 1] == rest[0];
      } else {
        assert t[k] == rest[k - |w| - 1] && t[k + 1] == rest[k - |w|];
      }
    }
    assert t[|t| - 1] == rest[|rest| - 1];
    assert t[0] == w[0];
  }

  lemma {:induction false} JoinSingleSpaced(ws: seq<string>)
    requires forall k :: 0 <= k < |ws| ==> ws[k] != [] && ' ' !in ws[k]
    ensures SingleSpaced(Join(ws))
    ensures ws != [] ==> Join(ws) != []
    decreases |ws|
  {
    if |ws| > 1 {
      JoinSingleSpaced(ws[1..]);
      SingleSpacedCons(ws[0], Join(ws[1..]));
    }
  }

  lemma {:induction false} JoinNonSpace(ws: seq<string>)
    requires forall k :: 0 <= k < |ws| ==> ' ' !in ws[k]
    ensures NonSpace(Join(ws)) == Concat(ws)
    decreases |ws|
  {
    if ws == [] {
    } else if |ws| == 1 {
      NonSpaceOfSpaceless(ws[0]);
      assert Concat(ws[1..]) == [];
      assert ws[0] + [] == ws[0];
    } else {
      var w, rest := ws[0], Join(ws[1..]);
      JoinNonSpace(ws[1..]);
      NonSpaceAppend(w + " ", rest);
      NonSpaceAppend(w, " ");
      NonSpaceOfSpaceless(w);
    }
  }

  /** A word on its own is its only piece. */
  lemma WordsOfWord(w: string)
    requires w != [] && ' ' !in w
    ensures Words(w) == [w]
  {
    FirstFromAt(w, 0, {' '}, |w|);
    assert w[..|w|] == w && w[|w|..] == [];
  }

  /** A `' '` always separates pieces: the pieces of `a + " " + b` are those
      of `a` followed by those of `b`, so no piece spans a space. */
  lemma {:induction false} WordsSpaced(a: string, b: string)
    ensures Words(a + " " + b) == Words(a) + Words(b)
    decreases |a|
  {
    var s := a + " " + b;
    if a == [] {
      assert s[1..] == b;
    } else if a[0] == ' ' {
      assert s[1..] == a[1..] + " " + b;
      WordsSpaced(a[1..], b);
    } else {
      var e := FirstFrom(a, 0, {' '});
      FirstFromFinds(a, 0, {' '});
      SpacedPrefix(a, b, s);
      FirstFromAt(s, 0, {' '}, e);
      assert s[..e] == a[..e];
      assert s[e..] == a[e..] + " " + b;
      assert Words(s) == [a[..e]] + Words(a[e..] + " " + b);
      assert Words(a) == [a[..e]] + Words(a[e..]);
      WordsSpaced(a[e..], b);
    }
  }

  /** A run of spaces in front of the text adds no pieces. */
  lemma {:induction false} WordsSkipSpaces(p: string, s: string)
    requires forall k :: 0 <= k < |p| ==> p[k] == ' '
    ensures Words(p + s) == Words(s)
    decreases |p|
  {
    if p == [] {
      assert p + s == s;
    } else {
      assert (p + s)[0] == ' ';
      assert (p + s)[1..] == p[1..] + s;
      WordsSkipSpaces(p[1..], s);
    }
  }

  lemma SpacedPrefix(a: string, b: string, s: string)
    requires s == a + " " + b
    ensures forall k :: 0 <= k < |a| ==> s[k] == a[k]
    ensures s[|a|] == ' '
  {
  }

  /** Splitting a join of non-empty space-free words gives those words back. */
  lemma {:induction false} WordsJoin(ws: seq<string>)
    requires forall k :: 0 <= k < |ws| ==> ws[k] != [] && ' ' !in ws[k]
    ensures Words(Join(ws)) == ws
    decreases |ws|
  {
    if |ws| == 1 {
      WordsOfWord(ws[0]);
    } else if |ws| > 1 {
      WordsOfWord(ws[0]);
      WordsSpaced(ws[0], Join(ws[1..]));
      WordsJoin(ws[1..]);
    }
  }

  /** The blob text as stored keeps exactly the non-space characters of the raw
      text, in order, separated by single spaces with none at either end, and
      it splits into the same pieces as the raw text. */
  lemma NormalizeShape(raw: string)
    ensures SingleSpaced(Normalize(raw))
    ensures NonSpace(Normalize(raw)) == NonSpace(raw)
    ensures Words(Normalize(raw)) == Words(raw)
  {
    JoinSingleSpaced(Words(raw));
    JoinNonSpace(Words(raw));
    WordsKeepNonSpace(raw);
    WordsJoin(Words(raw));
  }
}
