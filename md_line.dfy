/** The per-line rewrite pipeline of the Markdown renderer (scripts/md2html.py,
    `convert_markdown`, the part after the code-fence handling): HTML escaping,
    headers, the inline substitutions, then the line-level rules.

    Each `re.sub` of the source is modelled as an explicit left-to-right scan
    that rewrites non-overlapping matches, each match being what Python's
    backtracking matcher would find at that position. The lines this pipeline
    receives come from splitting the input on newlines, so they never hold a
    newline; the models of `.` and `$` rely on that. */
module Markdown {
  import opened Wrappers
  import opened Strings

  /** The characters for which Python's `str.isspace()` holds: what `str.strip()`
      removes and what the regex class `\s` matches on `str` patterns. */
  predicate IsPySpace(c: char)
  {
    '\t' <= c <= '\r' || '\U{001C}' <= c <= ' ' || c == '\U{0085}' || c == '\U{00A0}'
    || c == '\U{1680}' || '\U{2000}' <= c <= '\U{200A}' || c == '\U{2028}' || c == '\U{2029}'
    || c == '\U{202F}' || c == '\U{205F}' || c == '\U{3000}'
  }

  /** Python's `s.strip()`. */
  function Strip(s: string): string
  {
    Trim(s, IsPySpace)
  }

  // ---------------------------------------------------------------- escaping

  /** `line.replace('&', '&amp;').replace('<', '&lt;').replace('>', '&gt;')`. */
  function Escape(line: string): (r: string)
    ensures '<' !in r && '>' !in r
    ensures '\n' !in line ==> '\n' !in r
  {
    var a := ReplaceChar(line, '&', "&amp;");
    var b := ReplaceChar(a, '<', "&lt;");
    var r := ReplaceChar(b, '>', "&gt;");
    assert '<' !in r by {
      if '<' in r { ReplaceCharFrom(b, '>', "&gt;", '<'); }
    }
    assert '\n' !in line ==> '\n' !in r by {
      if '\n' !in line && '\n' in r {
        ReplaceCharFrom(b, '>', "&gt;", '\n');
        ReplaceCharFrom(a, '<', "&lt;", '\n');
        ReplaceCharFrom(line, '&', "&amp;", '\n');
      }
    }
    r
  }

  /** Reference definition: the entity each character stands for. */
  function EscapeChar(c: char): string
  {
    if c == '&' then "&amp;" else if c == '<' then "&lt;" else if c == '>' then "&gt;" else [c]
  }

  function EscapeEach(s: string): string
    decreases |s|
  {
    if s == [] then [] else EscapeChar(s[0]) + EscapeEach(s[1..])
  }

  lemma EscapeAppend(a: string, b: string)
    ensures Escape(a + b) == Escape(a) + Escape(b)
  {
    ReplaceAppend(a, b, '&', "&amp;");
    var a1, b1 := ReplaceChar(a, '&', "&amp;"), ReplaceChar(b, '&', "&amp;");
    ReplaceAppend(a1, b1, '<', "&lt;");
    ReplaceAppend(ReplaceChar(a1, '<', "&lt;"), ReplaceChar(b1, '<', "&lt;"), '>', "&gt;");
  }

  lemma ReplaceSingle(c: char, x: char, rep: string)
    ensures ReplaceChar([c], x, rep) == if c == x then rep else [c]
  {
    assert [c][1..] == [];
  }

  lemma EscapeSingle(c: char)
    ensures Escape([c]) == EscapeChar(c)
  {
    ReplaceSingle(c, '&', "&amp;");
    if c == '&' {
      assert '<' !in "&amp;" && '>' !in "&amp;";
    } else {
      ReplaceSingle(c, '<', "&lt;");
      if c == '<' {
        assert '>' !in "&lt;";
      } else {
        ReplaceSingle(c, '>', "&gt;");
      }
    }
  }

  /** Because `&` is replaced first, no entity produced by the later passes is
      escaped again: the three passes escape each character independently. */
  lemma {:induction false} EscapeIsCharwise(s: string)
    ensures Escape(s) == EscapeEach(s)
    decreases |s|
  {
    if s != [] {
      EscapeIsCharwise(s[1..]);
      assert s == [s[0]] + s[1..];
      EscapeAppend([s[0]], s[1..]);
      EscapeSingle(s[0]);
    }
  }

  /** Decoding of the three entities, left to right: the inverse of escaping. */
  function Unescape(s: string): string
    decreases |s|
  {
    if s == [] then []
    else if "&amp;" <= s then "&" + Unescape(s[5..])
    else if "&lt;" <= s then "<" + Unescape(s[4..])
    else if "&gt;" <= s then ">" + Unescape(s[4..])
    else [s[0]] + Unescape(s[1..])
  }

  /** Escaping loses nothing: the original line is recoverable. */
  lemma {:induction false} UnescapeEscape(s: string)
    ensures Unescape(Escape(s)) == s
  {
    EscapeIsCharwise(s);
    UnescapeEscapeEach(s);
  }

  lemma {:induction false} UnescapeEscapeEach(s: string)
    ensures Unescape(EscapeEach(s)) == s
    decreases |s|
  {
    if s != [] {
      UnescapeEscapeEach(s[1..]);
      var e := EscapeEach(s);
      var rest := EscapeEach(s[1..]);
      assert e == EscapeChar(s[0]) + rest;
      if s[0] == '&' {
        assert "&amp;" <= e && e[5..] == rest;
      } else if s[0] == '<' {
        assert e[1] == 'l';
        assert !("&amp;" <= e) && "&lt;" <= e && e[4..] == rest;
      } else if s[0] == '>' {
        assert e[1] == 'g';
        assert !("&amp;" <= e) && !("&lt;" <= e) && "&gt;" <= e && e[4..] == rest;
      } else {
        assert e[0] == s[0] && e[1..] == rest;
      }
      assert [s[0]] + s[1..] == s;
    }
  }

  predicate HasSpecial(s: string)
  {
    '&' in s || '<' in s || '>' in s
  }

  lemma {:induction false} EscapeEachFacts(s: string)
    ensures EscapeEach(s) == s <==> !HasSpecial(s)
    ensures HasSpecial(s) ==> '&' in EscapeEach(s)
    ensures |EscapeEach(s)| >= |s|
    decreases |s|
  {
    if s != [] {
      EscapeEachFacts(s[1..]);
      assert s == [s[0]] + s[1..];
      var e := EscapeEach(s);
      assert e == EscapeChar(s[0]) + EscapeEach(s[1..]);
      if HasSpecial([s[0]]) {
        assert e[0] == '&';
      } else {
        assert EscapeChar(s[0]) == [s[0]];
        if HasSpecial(s[1..]) {
          assert '&' in EscapeEach(s[1..]);
          assert e[1..] == EscapeEach(s[1..]);
        }
      }
    }
  }

  /** A line is left unchanged by escaping exactly when it holds none of the
      three special characters; escaping twice therefore differs from escaping
      once as soon as there was anything to escape (an `&amp;` already in the
      text would be escaped again). */
  lemma EscapeIdempotentIff(s: string)
    ensures Escape(s) == s <==> !HasSpecial(s)
    ensures Escape(Escape(s)) == Escape(s) <==> !HasSpecial(s)
  {
    EscapeIsCharwise(s);
    EscapeEachFacts(s);
    EscapeIsCharwise(Escape(s));
    EscapeEachFacts(Escape(s));
  }

  // ------------------------------------------------ `\s+(.+)$` after a marker

  /** A character missing from `s` is missing from each of its slices. */
  lemma NotInSlice(s: string, i: nat, j: nat, x: char)
    requires i <= j <= |s| && x !in s
    ensures x !in s[i..j]
  {
    forall k | 0 <= k < j - i ensures s[i..j][k] != x {
      assert s[i..j][k] == s[i + k];
    }
  }

  /** The capture of `\s+(.+)$` matched at the start of `s` (the text after a
      header, bullet or quote marker). `\s+` is greedy, but gives back one
      whitespace character when nothing else is left for `.+`. */
  function SpaceThenText(s: string): (r: Option<string>)
    ensures r.Some? <==> |s| >= 2 && IsPySpace(s[0])
    ensures r.Some? ==> 0 < |r.value| < |s| && r.value == s[|s| - |r.value|..]
    ensures r.Some? ==> forall k :: 0 <= k < |s| - |r.value| ==> IsPySpace(s[k])
    ensures r.Some? ==> !IsPySpace(r.value[0]) || |r.value| == 1
    ensures r.Some? && '\n' !in s ==> '\n' !in r.value
  {
    var k := SkipFrom(s, IsPySpace, 0);
    if k == 0 then None
    else if k < |s| then
      assert '\n' !in s ==> '\n' !in s[k..] by {
        if '\n' !in s { NotInSlice(s, k, |s|, '\n'); }
      }
      Some(s[k..])
    else if k >= 2 then
      assert '\n' !in s ==> '\n' !in s[k - 1..] by {
        if '\n' !in s { NotInSlice(s, k - 1, |s|, '\n'); }
      }
      Some(s[k - 1..])
    else None
  }

  /** The capture is the text after the whitespace run, whenever that text
      does not itself start with whitespace. */
  lemma SpaceThenTextOf(w: string, text: string)
    requires w != [] && AllIn(w, IsPySpace)
    requires text != [] && !IsPySpace(text[0])
    ensures SpaceThenText(w + text) == Some(text)
  {
    var s := w + text;
    assert s[|w|] == text[0];
    assert forall k :: 0 <= k < |w| ==> IsPySpace(s[k]);
    assert SkipFrom(s, IsPySpace, 0) == |w|;
    assert s[|w|..] == text;
  }

  // ----------------------------------------------------------------- headers

  function Hashes(n: nat): (r: string)
  {
    seq(n, _ => '#')
  }

  function HeaderTag(n: nat, text: string): string
    requires 1 <= n <= 6
  {
    var d := "123456"[n - 1];
    "<h" + [d] + ">" + text + "</h" + [d] + ">"
  }

  /** `re.sub(r'^#{n}\s+(.+)$', r'<hn>\1</hn>', line)`. */
  function HeaderSub(line: string, n: nat): (r: string)
    requires 1 <= n <= 6
    requires Hashes(n) <= line
    ensures r == line || (r != [] && r[0] == '<')
    ensures '\n' !in line ==> '\n' !in r
  {
    assert '\n' !in line ==> '\n' !in line[n..];
    match SpaceThenText(line[n..])
    case Some(text) => HeaderTag(n, text)
    case None => line
  }

  /** The `if`/`elif` chain on `line.startswith('######')` down to
      `line.startswith('#')`: the number of hashes of the branch taken, 0 for none. */
  function MarkerLevel(line: string): (n: nat)
    ensures n <= 6
  {
    if Hashes(6) <= line then 6
    else if Hashes(5) <= line then 5
    else if Hashes(4) <= line then 4
    else if Hashes(3) <= line then 3
    else if Hashes(2) <= line then 2
    else if Hashes(1) <= line then 1
    else 0
  }

  /** The header rule: only the branch for the longest `#` prefix is tried. */
  function Headers(line: string): (r: string)
    ensures r == line || (r != [] && r[0] == '<')
    ensures '\n' !in line ==> '\n' !in r
  {
    var n := MarkerLevel(line);
    if n == 0 then line else HeaderSub(line, n)
  }

  /** Number of `#` characters at the start of `s`. */
  function HashRun(s: string): (k: nat)
    ensures k <= |s|
    decreases |s|
  {
    if s != [] && s[0] == '#' then 1 + HashRun(s[1..]) else 0
  }

  lemma {:induction false} HashesPrefix(s: string, m: nat)
    ensures Hashes(m) <= s <==> m <= HashRun(s)
    decreases m
  {
    if m > 0 && s != [] {
      HashesPrefix(s[1..], m - 1);
      assert Hashes(m) == ['#'] + Hashes(m - 1);
      if s[0] == '#' {
        assert Hashes(m) <= s <==> Hashes(m - 1) <= s[1..] by {
          assert s == [s[0]] + s[1..];
        }
      }
    }
  }

  /** The branch taken is that of the longest run of hashes, capped at six. */
  lemma MarkerLevelIsLongestRun(line: string)
    ensures MarkerLevel(line) == if HashRun(line) < 6 then HashRun(line) else 6
  {
    HashesPrefix(line, 6);
    HashesPrefix(line, 5);
    HashesPrefix(line, 4);
    HashesPrefix(line, 3);
    HashesPrefix(line, 2);
    HashesPrefix(line, 1);
  }

  lemma {:induction false} HashRunOf(n: nat, rest: string)
    requires rest == [] || rest[0] != '#'
    ensures HashRun(Hashes(n) + rest) == n
    decreases n
  {
    if n > 0 {
      HashRunOf(n - 1, rest);
      assert (Hashes(n) + rest)[1..] == Hashes(n - 1) + rest;
    }
  }

  /** The capture of `\s+(.+)$` on a run made only of whitespace: the last
      character when there are at least two, no match otherwise. */
  lemma SpaceThenTextAllSpace(w: string)
    requires AllIn(w, IsPySpace)
    ensures SpaceThenText(w) == if |w| >= 2 then Some(w[|w| - 1..]) else None
  {
  }

  /** The header rule on a line of n hashes (1 to 6) followed by `rest`, when
      `rest` does not start with another hash: the level-n pattern is tried on `rest`. */
  lemma HeaderAfterHashes(n: nat, rest: string)
    requires 1 <= n <= 6
    requires rest == [] || rest[0] != '#'
    ensures Headers(Hashes(n) + rest)
            == match SpaceThenText(rest)
               case Some(text) => HeaderTag(n, text)
               case None => Hashes(n) + rest
  {
    var line := Hashes(n) + rest;
    HashRunOf(n, rest);
    MarkerLevelIsLongestRun(line);
    assert line[n..] == rest;
  }

  /** n hashes (1 to 6), a whitespace run and text become a level-n header. */
  lemma HeaderLevel(n: nat, w: string, text: string)
    requires 1 <= n <= 6
    requires w != [] && AllIn(w, IsPySpace)
    requires text != [] && !IsPySpace(text[0])
    ensures Headers(Hashes(n) + w + text) == HeaderTag(n, text)
  {
    assert Hashes(n) + w + text == Hashes(n) + (w + text);
    assert !IsPySpace('#');
    HeaderAfterHashes(n, w + text);
    SpaceThenTextOf(w, text);
  }

  /** Seven or more hashes take the six-hash branch, whose pattern then fails:
      the line is left as it is. */
  lemma SevenHashesStay(line: string)
    requires Hashes(7) <= line
    ensures Headers(line) == line
  {
    HashesPrefix(line, 7);
    MarkerLevelIsLongestRun(line);
    assert line[6] == '#';
  }

  /** A marker followed by whitespace only is still a header when there are two
      or more whitespace characters, since `\s+` gives the last one back to
      `(.+)`; with a single whitespace character the line stays as it is. */
  lemma HeaderOfSpaces(n: nat, w: string)
    requires 1 <= n <= 6
    requires w != [] && AllIn(w, IsPySpace)
    ensures Headers(Hashes(n) + w)
            == if |w| >= 2 then HeaderTag(n, w[|w| - 1..]) else Hashes(n) + w
  {
    assert !IsPySpace('#');
    HeaderAfterHashes(n, w);
    SpaceThenTextAllSpace(w);
  }

  // --------------------------------------------------------- inline patterns

  /** The five inline substitutions, in the order the source applies them. */
  datatype InlineRule = BoldItalic | Bold | Italic | InlineCode | Link

  /** A match found at the start of the remaining text: how many characters it
      consumes and what replaces them. */
  datatype Match = Match(len: nat, out: string)

  /** The delimiter of an emphasis or code span. */
  function Delimiter(rule: InlineRule): (d: string)
    ensures d != []
  {
    match rule
    case BoldItalic => "***"
    case Bold => "**"
    case Italic => "*"
    case InlineCode => "`"
    case Link => "["
  }

  function OpenTag(rule: InlineRule): string
  {
    match rule
    case BoldItalic => "<strong><em>"
    case Bold => "<strong>"
    case Italic => "<em>"
    case InlineCode => "<code class=\"inline-code\">"
    case Link => "<a href=\""
  }

  function CloseTag(rule: InlineRule): string
  {
    match rule
    case BoldItalic => "</em></strong>"
    case Bold => "</strong>"
    case Italic => "</em>"
    case InlineCode => "</code>"
    case Link => "</a>"
  }

  /** `\[([^\]]+)\]\(([^)]+)\)` with the replacement `<a href="\2" target="_blank">\1</a>`. */
  function Anchor(caption: string, target: string): string
  {
    "<a href=\"" + target + "\" target=\"_blank\">" + caption + "</a>"
  }

  /** The match of `D([^c]+)D` at the start of `s`, where c is the first
      character of the delimiter D. The body cannot hold c, so the only
      candidate body is the longest c-free run, which must then be followed by D. */
  function SpanAt(d: string, open: string, close: string, s: string): (m: Option<Match>)
    requires d != []
    ensures m.Some? ==> 0 < m.value.len <= |s| && s[0] == d[0]
    ensures m.Some? && '\n' !in s && '\n' !in open && '\n' !in close ==> '\n' !in m.value.out
    ensures m.Some? && open != [] ==> m.value.out != [] && m.value.out[0] == open[0]
  {
    if d <= s then
      var body := s[|d|..];
      var k := RunLen(body, d[0]);
      if k > 0 && d <= body[k..] then
        assert body[..k] == s[|d|..|d| + k];
        assert '\n' !in s ==> '\n' !in body[..k] by {
          if '\n' !in s { NotInSlice(s, |d|, |d| + k, '\n'); }
        }
        Some(Match(2 * |d| + k, open + body[..k] + close))
      else None
    else None
  }

  lemma AnchorFacts(caption: string, target: string)
    ensures Anchor(caption, target) != [] && Anchor(caption, target)[0] == '<'
    ensures '\n' !in caption && '\n' !in target ==> '\n' !in Anchor(caption, target)
  {
  }

  /** The match of the link pattern at the start of `s`; again each capture can
      only be the longest run free of its closing bracket. */
  function LinkAt(s: string): (m: Option<Match>)
    ensures m.Some? ==> 0 < m.value.len <= |s| && s[0] == '['
    ensures m.Some? && '\n' !in s ==> '\n' !in m.value.out
    ensures m.Some? ==> m.value.out != [] && m.value.out[0] == '<'
  {
    if s != [] && s[0] == '[' then
      var k1 := RunLen(s[1..], ']');
      var after := s[1 + k1..];
      if k1 > 0 && "](" <= after then
        var rest := after[2..];
        var k2 := RunLen(rest, ')');
        if k2 > 0 && k2 < |rest| then
          var caption, target := s[1..1 + k1], rest[..k2];
          assert target == s[k1 + 3..k1 + 3 + k2];
          assert '\n' !in s ==> '\n' !in caption && '\n' !in target by {
            if '\n' !in s { NotInSlice(s, 1, 1 + k1, '\n'); NotInSlice(s, k1 + 3, k1 + 3 + k2, '\n'); }
          }
          AnchorFacts(caption, target);
          Some(Match(4 + k1 + k2, Anchor(s[1..1 + k1], rest[..k2])))
        else None
      else None
    else None
  }

  /** The match of the rule's pattern at the start of `s`, if any. */
  function MatchAt(rule: InlineRule, s: string): (m: Option<Match>)
    ensures m.Some? ==> 0 < m.value.len <= |s| && s[0] == Delimiter(rule)[0]
    ensures m.Some? ==> m.value.out != [] && m.value.out[0] == '<'
    ensures m.Some? && '\n' !in s ==> '\n' !in m.value.out
  {
    if rule == Link then LinkAt(s)
    else
      TagsAreSimple(rule);
      SpanAt(Delimiter(rule), OpenTag(rule), CloseTag(rule), s)
  }

  lemma TagsAreSimple(rule: InlineRule)
    ensures OpenTag(rule) != [] && OpenTag(rule)[0] == '<'
    ensures '\n' !in OpenTag(rule) && '\n' !in CloseTag(rule)
  {
  }

  lemma SpanAtOf(d: string, open: string, close: string, body: string, tail: string)
    requires d != [] && body != [] && d[0] !in body
    ensures SpanAt(d, open, close, d + body + d + tail)
            == Some(Match(2 * |d| + |body|, open + body + close))
  {
    var s := d + body + d + tail;
    assert s == d + (body + (d + tail));
    assert d <= s;
    var b := s[|d|..];
    assert b == body + (d + tail);
    assert RunLen(b, d[0]) == |body| by {
      RunLenOf(body, d[0], d + tail);
    }
    assert b[|body|..] == d + tail && b[..|body|] == body;
    assert d <= b[|body|..];
  }

  /** The regex meaning of a span pattern: delimiter, a non-empty body free of
      the delimiter's character, delimiter. */
  lemma SpanMatch(rule: InlineRule, body: string, tail: string)
    requires rule != Link
    requires body != [] && Delimiter(rule)[0] !in body
    ensures MatchAt(rule, Delimiter(rule) + body + Delimiter(rule) + tail)
            == Some(Match(2 * |Delimiter(rule)| + |body|, OpenTag(rule) + body + CloseTag(rule)))
  {
    SpanAtOf(Delimiter(rule), OpenTag(rule), CloseTag(rule), body, tail);
  }

  /** The regex meaning of the link pattern. */
  lemma LinkMatch(caption: string, target: string, tail: string)
    requires caption != [] && ']' !in caption
    requires target != [] && ')' !in target
    ensures MatchAt(Link, "[" + caption + "](" + target + ")" + tail)
            == Some(Match(4 + |caption| + |target|, Anchor(caption, target)))
  {
    LinkAtOf(caption, target, tail);
  }

  lemma LinkAtOf(caption: string, target: string, tail: string)
    requires caption != [] && ']' !in caption
    requires target != [] && ')' !in target
    ensures LinkAt("[" + caption + "](" + target + ")" + tail)
            == Some(Match(4 + |caption| + |target|, Anchor(caption, target)))
  {
    var s := "[" + caption + "](" + target + ")" + tail;
    LinkPieces(caption, target, tail);
    LinkAtWhen(s, |caption|, |target|);
  }

  /** The runs of a written-out link: the caption ends at its `]`, the target
      at its `)`. */
  lemma LinkPieces(caption: string, target: string, tail: string)
    requires caption != [] && ']' !in caption
    requires target != [] && ')' !in target
    ensures var s := "[" + caption + "](" + target + ")" + tail;
      var k1 := |caption|;
      s != [] && s[0] == '[' && 1 + k1 <= |s|
      && RunLen(s[1..], ']') == k1 && "](" <= s[1 + k1..]
      && RunLen(s[1 + k1..][2..], ')') == |target| && |target| < |s[1 + k1..][2..]|
      && s[1..1 + k1] == caption && s[1 + k1..][2..][..|target|] == target
  {
    var s := "[" + caption + "](" + target + ")" + tail;
    var after := "](" + target + ")" + tail;
    var rest := target + ")" + tail;
    assert s[0] == '[';
    assert RunLen(s[1..], ']') == |caption| by {
      assert s == "[" + (caption + after);
      assert s[1..] == caption + after;
      RunLenOf(caption, ']', after);
    }
    assert s[1 + |caption|..] == after;
    assert "](" <= after;
    assert after[2..] == rest;
    assert RunLen(rest, ')') == |target| by {
      assert rest == target + (")" + tail);
      RunLenOf(target, ')', ")" + tail);
    }
    assert s[1..1 + |caption|] == caption && rest[..|target|] == target;
  }

  /** The link pattern when both bracket runs are non-empty and closed. */
  lemma LinkAtWhen(s: string, k1: nat, k2: nat)
    requires s != [] && s[0] == '[' && 1 + k1 <= |s|
    requires RunLen(s[1..], ']') == k1 && k1 > 0 && "](" <= s[1 + k1..]
    requires RunLen(s[1 + k1..][2..], ')') == k2 && 0 < k2 < |s[1 + k1..][2..]|
    ensures LinkAt(s) == Some(Match(4 + k1 + k2, Anchor(s[1..1 + k1], s[1 + k1..][2..][..k2])))
  {
  }

  /** Conversely, every span match is the pattern `D([^c]+)D`: the consumed
      text is the delimiter, a non-empty body free of the delimiter's first
      character, and the delimiter again, and it is replaced by the tagged body. */
  lemma SpanAtSound(d: string, open: string, close: string, s: string)
    requires d != [] && SpanAt(d, open, close, s).Some?
    ensures var m := SpanAt(d, open, close, s).value;
      var k := m.len - 2 * |d|;
      var body := s[|d|..|d| + k];
      k > 0 && m.len <= |s| && s[..m.len] == d + body + d && d[0] !in body
      && m.out == open + body + close
  {
    var b := s[|d|..];
    var k := RunLen(b, d[0]);
    assert d <= s && k > 0 && d <= b[k..];
    assert b[..k] == s[|d|..|d| + k];
    assert b[k..][..|d|] == d;
    assert s[..2 * |d| + k] == s[..|d|] + s[|d|..|d| + k] + s[|d| + k..2 * |d| + k];
  }

  /** A link match at the start of `s` has its caption end at the first `]`. */
  function CaptionLen(s: string): nat
    requires s != []
  {
    RunLen(s[1..], ']')
  }

  /** Conversely, every link match is the pattern `\[([^\]]+)\]\(([^)]+)\)`: a
      non-empty `]`-free caption in brackets, then a non-empty `)`-free target
      in parentheses, replaced by the anchor of the two. */
  lemma LinkAtSound(s: string)
    requires LinkAt(s).Some?
    ensures var m := LinkAt(s).value;
      var k1 := CaptionLen(s);
      var k2 := m.len - 4 - k1;
      var caption := s[1..1 + k1];
      var target := s[3 + k1..3 + k1 + k2];
      k1 > 0 && k2 > 0 && m.len <= |s|
      && s[..m.len] == "[" + caption + "](" + target + ")"
      && ']' !in caption && ')' !in target
      && m.out == Anchor(caption, target)
  {
    LinkAtCases(s);
    var k1 := CaptionLen(s);
    var rest := s[1 + k1..][2..];
    var k2 := RunLen(rest, ')');
    LinkSoundFrom(s, k1, k2);
    var m := LinkAt(s).value;
    assert m.len == 4 + k1 + k2 && m.len - 4 - k1 == k2;
    assert m.out == Anchor(s[1..1 + k1], s[3 + k1..3 + k1 + k2]);
  }

  /** Unfolding a link match: both runs are non-empty and closed. */
  lemma LinkAtCases(s: string)
    requires LinkAt(s).Some?
    ensures s != [] && s[0] == '[' && 1 + CaptionLen(s) <= |s|
    ensures var k1 := CaptionLen(s);
      var rest := s[1 + k1..][2..];
      var k2 := RunLen(rest, ')');
      k1 > 0 && "](" <= s[1 + k1..] && 0 < k2 < |rest|
      && LinkAt(s).value == Match(4 + k1 + k2, Anchor(s[1..1 + k1], rest[..k2]))
  {
  }

  /** The link read off the two runs of `s`. */
  lemma LinkSoundFrom(s: string, k1: nat, k2: nat)
    requires s != [] && s[0] == '[' && 1 + k1 <= |s|
    requires k1 == RunLen(s[1..], ']') && k1 > 0 && "](" <= s[1 + k1..]
    requires k2 == RunLen(s[1 + k1..][2..], ')') && 0 < k2 < |s[1 + k1..][2..]|
    ensures 4 + k1 + k2 <= |s|
    ensures s[..4 + k1 + k2] == "[" + s[1..1 + k1] + "](" + s[3 + k1..3 + k1 + k2] + ")"
    ensures ']' !in s[1..1 + k1] && ')' !in s[3 + k1..3 + k1 + k2]
    ensures s[1 + k1..][2..][..k2] == s[3 + k1..3 + k1 + k2]
  {
    var rest := s[1 + k1..][2..];
    assert rest[..k2] == s[3 + k1..3 + k1 + k2] && rest[k2] == s[3 + k1 + k2] == ')';
    assert ']' !in s[1..1 + k1] by {
      assert s[1..][..k1] == s[1..1 + k1];
    }
    assert s[1 + k1..3 + k1] == "](" by {
      assert s[1 + k1..][..2] == s[1 + k1..3 + k1];
    }
    LinkShape(s, k1, k2);
  }

  /** The pieces of a link, put back together. */
  lemma LinkShape(s: string, k1: nat, k2: nat)
    requires 4 + k1 + k2 <= |s| && s[0] == '[' && s[1 + k1..3 + k1] == "](" && s[3 + k1 + k2] == ')'
    ensures s[..4 + k1 + k2] == "[" + s[1..1 + k1] + "](" + s[3 + k1..3 + k1 + k2] + ")"
  {
    var n := 4 + k1 + k2;
    assert s[..n] == [s[0]] + s[1..1 + k1] + s[1 + k1..3 + k1] + s[3 + k1..3 + k1 + k2] + [s[3 + k1 + k2]];
  }

  /** What each rule's match consumes and what it is replaced by. */
  lemma MatchAtSound(rule: InlineRule, s: string)
    requires MatchAt(rule, s).Some?
    ensures rule != Link ==>
      var d := Delimiter(rule);
      var m := MatchAt(rule, s).value;
      var body := s[|d|..m.len - |d|];
      |d| < m.len - |d| && m.len <= |s| && s[..m.len] == d + body + d && d[0] !in body
      && m.out == OpenTag(rule) + body + CloseTag(rule)
    ensures rule == Link ==>
      var m := MatchAt(rule, s).value;
      var k1 := CaptionLen(s);
      var caption := s[1..1 + k1];
      var target := s[3 + k1..m.len - 1];
      0 < k1 && 3 + k1 < m.len <= |s|
      && s[..m.len] == "[" + caption + "](" + target + ")"
      && ']' !in caption && ')' !in target
      && m.out == Anchor(caption, target)
  {
    if rule == Link {
      LinkAtSound(s);
    } else {
      SpanAtSound(Delimiter(rule), OpenTag(rule), CloseTag(rule), s);
    }
  }

  /** Every match a matcher reports consumes at least one character of the
      text and no more than all of it. */
  ghost predicate Consumes(m: string -> Option<Match>)
  {
    forall x :: m(x).Some? ==> 0 < m(x).value.len <= |x|
  }

  /** Every match starts at the character `c`. */
  ghost predicate OpensWith(m: string -> Option<Match>, c: char)
  {
    forall x :: m(x).Some? ==> x != [] && x[0] == c
  }

  /** A match in newline-free text is replaced by newline-free text. */
  ghost predicate KeepsLines(m: string -> Option<Match>)
  {
    forall x :: m(x).Some? && '\n' !in x ==> '\n' !in m(x).value.out
  }

  /** Every replacement starts with a tag. */
  ghost predicate OutputsTag(m: string -> Option<Match>)
  {
    forall x :: m(x).Some? ==> m(x).value.out != [] && m(x).value.out[0] == '<'
  }

  /** `re.sub` with the matcher `m`: scan left to right; at each position
      either rewrite the match found there and continue after it, or copy one
      character and move on. */
  function Scan(m: string -> Option<Match>, s: string): string
    requires Consumes(m)
    decreases |s|
  {
    if s == [] then []
    else
      match m(s)
      case Some(mt) => mt.out + Scan(m, s[mt.len..])
      case None => [s[0]] + Scan(m, s[1..])
  }

  /** Where nothing matches, one character is copied. */
  lemma ScanNoMatch(m: string -> Option<Match>, s: string)
    requires Consumes(m) && s != [] && m(s).None?
    ensures Scan(m, s) == [s[0]] + Scan(m, s[1..])
  {
  }

  /** A match is rewritten as a whole and the scan resumes right after it. */
  lemma ScanAtMatch(m: string -> Option<Match>, s: string)
    requires Consumes(m) && s != [] && m(s).Some?
    ensures Scan(m, s) == m(s).value.out + Scan(m, s[m(s).value.len..])
  {
  }

  /** Text free of the opening character of every match is copied as it is,
      and the scan resumes after it. */
  lemma {:induction false} ScanSkip(m: string -> Option<Match>, c: char, p: string, q: string)
    requires Consumes(m) && OpensWith(m, c) && c !in p
    ensures Scan(m, p + q) == p + Scan(m, q)
    decreases |p|
  {
    if p != [] {
      var t := p[1..];
      assert Scan(m, p + q) == [p[0]] + Scan(m, t + q) by {
        var s := p + q;
        assert s[0] == p[0] && s[1..] == t + q;
        assert p[0] in p;
        ScanNoMatch(m, s);
      }
      assert Scan(m, t + q) == t + Scan(m, q) by {
        NotInSlice(p, 1, |p|, c);
        assert p[1..|p|] == t;
        ScanSkip(m, c, t, q);
      }
      ConsAssoc(p, Scan(m, q));
    } else {
      assert p + q == q;
    }
  }

  /** Re-bracketing after the first element. */
  lemma ConsAssoc<T>(p: seq<T>, q: seq<T>)
    requires p != []
    ensures [p[0]] + (p[1..] + q) == p + q
  {
    assert p == [p[0]] + p[1..];
  }

  /** A text without the opening character is left unchanged. */
  lemma ScanFree(m: string -> Option<Match>, c: char, s: string)
    requires Consumes(m) && OpensWith(m, c) && c !in s
    ensures Scan(m, s) == s
  {
    ScanSkip(m, c, s, []);
    assert s + [] == s;
  }

  /** Newline-free text stays newline-free. */
  lemma {:induction false} ScanKeepsLines(m: string -> Option<Match>, s: string)
    requires Consumes(m) && KeepsLines(m) && '\n' !in s
    ensures '\n' !in Scan(m, s)
    decreases |s|
  {
    if s != [] {
      match m(s)
      case Some(mt) =>
        NotInSlice(s, mt.len, |s|, '\n');
        ScanKeepsLines(m, s[mt.len..]);
      case None =>
        NotInSlice(s, 1, |s|, '\n');
        ScanKeepsLines(m, s[1..]);
    }
  }

  /** The result starts with the text's first character or with a tag. */
  lemma ScanHead(m: string -> Option<Match>, s: string)
    requires Consumes(m) && OutputsTag(m)
    ensures Scan(m, s) != [] ==> s != [] && (Scan(m, s)[0] == s[0] || Scan(m, s)[0] == '<')
  {
  }

  /** The matcher of an inline rule. */
  function Matcher(rule: InlineRule): string -> Option<Match>
  {
    s => MatchAt(rule, s)
  }

  lemma MatcherFacts(rule: InlineRule)
    ensures Consumes(Matcher(rule)) && OpensWith(Matcher(rule), Delimiter(rule)[0])
    ensures KeepsLines(Matcher(rule)) && OutputsTag(Matcher(rule))
  {
  }

  /** `re.sub(pattern, replacement, s)` for one of the inline rules. */
  function Sub(rule: InlineRule, s: string): (r: string)
    ensures Delimiter(rule)[0] !in s ==> r == s
    ensures '\n' !in s ==> '\n' !in r
    ensures r != [] ==> s != [] && (r[0] == s[0] || r[0] == '<')
  {
    MatcherFacts(rule);
    var m := Matcher(rule);
    assert Delimiter(rule)[0] !in s ==> Scan(m, s) == s by {
      if Delimiter(rule)[0] !in s { ScanFree(m, Delimiter(rule)[0], s); }
    }
    assert '\n' !in s ==> '\n' !in Scan(m, s) by {
      if '\n' !in s { ScanKeepsLines(m, s); }
    }
    ScanHead(m, s);
    Scan(m, s)
  }

  /** A pattern that matches at the start is rewritten as a whole and the scan
      resumes right after it. */
  lemma SubAtMatch(rule: InlineRule, s: string)
    requires s != [] && MatchAt(rule, s).Some?
    ensures Sub(rule, s) == MatchAt(rule, s).value.out + Sub(rule, s[MatchAt(rule, s).value.len..])
  {
    MatcherFacts(rule);
    ScanAtMatch(Matcher(rule), s);
  }

  /** The inline substitutions in the source's order: triple, double and single
      star emphasis, then code spans, then links. */
  function Inline(line: string): (r: string)
    ensures '\n' !in line ==> '\n' !in r
    ensures r != [] ==> line != [] && (r[0] == line[0] || r[0] == '<')
  {
    Sub(Link, Sub(InlineCode, Sub(Italic, Sub(Bold, Sub(BoldItalic, line)))))
  }

  /** Text free of the rule's first delimiter character is copied as it is,
      and the scan resumes after it. */
  lemma SubSkip(rule: InlineRule, p: string, q: string)
    requires Delimiter(rule)[0] !in p
    ensures Sub(rule, p + q) == p + Sub(rule, q)
  {
    MatcherFacts(rule);
    ScanSkip(Matcher(rule), Delimiter(rule)[0], p, q);
  }

  /** Where the pattern does not match, one character is copied. */
  lemma SubNoMatch(rule: InlineRule, s: string)
    requires s != [] && s[0] != Delimiter(rule)[0]
    ensures Sub(rule, s) == [s[0]] + Sub(rule, s[1..])
  {
    MatcherFacts(rule);
    ScanNoMatch(Matcher(rule), s);
  }

  /** Where the rule's delimiter does not start the text, one character is copied. */
  lemma SubNoOpen(rule: InlineRule, s: string)
    requires rule != Link && s != [] && !(Delimiter(rule) <= s)
    ensures Sub(rule, s) == [s[0]] + Sub(rule, s[1..])
  {
    MatcherFacts(rule);
    assert MatchAt(rule, s).None?;
    ScanNoMatch(Matcher(rule), s);
  }

  /** A lone star, not followed by another, opens no bold or bold-italic span. */
  lemma LoneStar(rule: InlineRule, t: string)
    requires rule == BoldItalic || rule == Bold
    requires t == [] || t[0] != '*'
    ensures Sub(rule, "*" + t) == "*" + Sub(rule, t)
  {
    var s := "*" + t;
    assert !(Delimiter(rule) <= s) by {
      if |s| >= 2 { assert s[1] != '*'; }
    }
    assert s[1..] == t;
  }

  /** Two single stars around star-free text are left to the single-star rule:
      the bold rules, which run first, do not touch them. */
  lemma StarsStay(rule: InlineRule, a: string, b: string, c: string)
    requires rule == BoldItalic || rule == Bold
    requires '*' !in a && '*' !in b && '*' !in c && b != []
    ensures Sub(rule, a + ("*" + (b + ("*" + c)))) == a + ("*" + (b + ("*" + c)))
  {
    SubSkip(rule, a, "*" + (b + ("*" + c)));
    LoneStar(rule, b + ("*" + c));
    SubSkip(rule, b, "*" + c);
    LoneStar(rule, c);
  }

  /** No tag holds a character that a later inline rule looks for. */
  lemma TagsAreInert(rule: InlineRule)
    ensures '*' !in OpenTag(rule) && '*' !in CloseTag(rule)
    ensures '`' !in OpenTag(rule) && '`' !in CloseTag(rule)
    ensures '[' !in OpenTag(rule) && '[' !in CloseTag(rule)
  {
    var o, c := OpenTag(rule), CloseTag(rule);
    assert AllIn(o, IsInert) && AllIn(c, IsInert);
    AllInExcludes(o, IsInert, '*');
    AllInExcludes(o, IsInert, '`');
    AllInExcludes(o, IsInert, '[');
    AllInExcludes(c, IsInert, '*');
    AllInExcludes(c, IsInert, '`');
    AllInExcludes(c, IsInert, '[');
  }

  predicate IsInert(c: char)
  {
    c != '*' && c != '`' && c != '['
  }

  /** The single-star rule on star-free text around one star pair. */
  lemma ItalicSpan(a: string, b: string, c: string)
    requires '*' !in a && '*' !in b && '*' !in c && b != []
    ensures Sub(Italic, a + ("*" + (b + ("*" + c))))
            == a + (OpenTag(Italic) + b + CloseTag(Italic)) + c
  {
    var t := "*" + (b + ("*" + c));
    var e := OpenTag(Italic) + b + CloseTag(Italic);
    assert Sub(Italic, t) == e + c by {
      assert t == Delimiter(Italic) + b + Delimiter(Italic) + c;
      SpanMatch(Italic, b, c);
      SubAtMatch(Italic, t);
      assert t[2 + |b|..] == c;
    }
    SubSkip(Italic, a, t);
  }

  /** The code-span rule on a backtick-free body between two backticks. */
  lemma CodeSpan(body: string)
    requires '`' !in body && body != []
    ensures Sub(InlineCode, "`" + body + "`") == OpenTag(InlineCode) + body + CloseTag(InlineCode)
  {
    var t := "`" + body + "`";
    assert t == Delimiter(InlineCode) + body + Delimiter(InlineCode) + [];
    SpanMatch(InlineCode, body, []);
    SubAtMatch(InlineCode, t);
    assert t[|t|..] == [];
  }

  /** Emphasis runs before code spans, so a star pair inside backticks becomes
      emphasis inside the code element. */
  lemma EmphasisInsideCode(a: string, b: string, c: string)
    requires '*' !in a && '*' !in b && '*' !in c && b != []
    requires '`' !in a && '`' !in b && '`' !in c
    requires '[' !in a && '[' !in b && '[' !in c
    ensures Inline("`" + a + "*" + b + "*" + c + "`")
            == OpenTag(InlineCode) + (a + (OpenTag(Italic) + b + CloseTag(Italic)) + c)
               + CloseTag(InlineCode)
  {
    var s := "`" + a + "*" + b + "*" + c + "`";
    var e := OpenTag(Italic) + b + CloseTag(Italic);
    var body := a + e + c;
    var coded := OpenTag(InlineCode) + body + CloseTag(InlineCode);
    assert Sub(Italic, Sub(Bold, Sub(BoldItalic, s))) == "`" + body + "`" by {
      var a1, c1 := "`" + a, c + "`";
      assert s == a1 + ("*" + (b + ("*" + c1)));
      StarsStay(BoldItalic, a1, b, c1);
      StarsStay(Bold, a1, b, c1);
      ItalicSpan(a1, b, c1);
      Regroup("`", a, e, c, "`");
    }
    assert Sub(InlineCode, "`" + body + "`") == coded by {
      TagsAreInert(Italic);
      CodeSpan(body);
    }
    assert Sub(Link, coded) == coded by {
      TagsAreInert(Italic);
      TagsAreInert(InlineCode);
    }
    calc {
      Inline(s);
      Sub(Link, Sub(InlineCode, Sub(Italic, Sub(Bold, Sub(BoldItalic, s)))));
      Sub(Link, Sub(InlineCode, "`" + body + "`"));
      Sub(Link, coded);
      coded;
    }
  }

  /** The triple-star rule leaves a double-star pair around star-free text. */
  lemma PairStays(b: string)
    requires b != [] && '*' !in b
    ensures Sub(BoldItalic, "**" + b + "**") == "**" + b + "**"
  {
    var two := "**";
    var u := b + two;
    var t := "*" + u;
    var s := "*" + t;
    assert s == "**" + b + "**";
    assert Sub(BoldItalic, two) == two by {
      assert |two| == 2 && two[0] == '*' && two[1..] == "*";
      SubNoOpen(BoldItalic, two);
      assert "*" == "*" + [];
      LoneStar(BoldItalic, []);
    }
    assert Sub(BoldItalic, u) == u by {
      SubSkip(BoldItalic, b, two);
    }
    assert Sub(BoldItalic, t) == t by {
      assert b[0] in b;
      assert u[0] == b[0];
      LoneStar(BoldItalic, u);
    }
    assert Sub(BoldItalic, s) == s by {
      assert b[0] in b;
      assert s[2] == b[0] && s[1..] == t;
      SubNoOpen(BoldItalic, s);
    }
  }

  /** A double-star pair around text is bold, not two italics: the triple-star
      rule leaves it, and the double-star rule runs before the single-star one. */
  lemma BoldBeforeItalic(b: string)
    requires b != [] && '*' !in b && '`' !in b && '[' !in b
    ensures Inline("**" + b + "**") == OpenTag(Bold) + b + CloseTag(Bold)
  {
    var s := "**" + b + "**";
    var bold := OpenTag(Bold) + b + CloseTag(Bold);
    assert Sub(BoldItalic, s) == s by {
      PairStays(b);
    }
    assert Sub(Bold, s) == bold by {
      assert s == Delimiter(Bold) + b + Delimiter(Bold) + [];
      SpanMatch(Bold, b, []);
      SubAtMatch(Bold, s);
      assert s[|s|..] == [];
    }
    TagsAreInert(Bold);
    assert Sub(Link, Sub(InlineCode, Sub(Italic, bold))) == bold;
  }

  /** A link is rendered as an anchor that opens in a new tab. */
  lemma LinkRendered(caption: string, target: string)
    requires caption != [] && ']' !in caption
    requires target != [] && ')' !in target
    ensures Sub(Link, "[" + caption + "](" + target + ")") == Anchor(caption, target)
  {
    var s := "[" + caption + "](" + target + ")";
    LinkMatch(caption, target, "");
    assert s + "" == s;
    SubAtMatch(Link, s);
    assert 4 + |caption| + |target| == |s|;
    assert s[|s|..] == [];
  }

  // -------------------------------------------------------- line-level rules

  /** `---` becomes a rule; a non-empty run of `═` becomes a double rule. */
  function HorizontalRule(line: string): (r: string)
    ensures r == line || (r != [] && r[0] == '<')
    ensures '\n' !in line ==> '\n' !in r
  {
    RuleTagsFacts();
    var t := Strip(line);
    if t == "---" then RuleTag
    else if t != [] && AllIn(t, IsDoubleLine) then DoubleRuleTag
    else line
  }

  const RuleTag := "<hr>"
  const DoubleRuleTag := "<hr class=\"double\">"

  lemma RuleTagsFacts()
    ensures RuleTag[0] == '<' && DoubleRuleTag[0] == '<'
    ensures '\n' !in RuleTag && '\n' !in DoubleRuleTag
  {
  }

  /** The box-drawing character `═`. */
  predicate IsDoubleLine(c: char)
  {
    c == '\U{2550}'
  }

  /** The bullet characters of the list rule: `•`, `-` and `*`. */
  predicate IsBullet(c: char)
  {
    c == '\U{2022}' || c == '-' || c == '*'
  }

  /** `if re.match(r'^[•\-\*]\s+', line): line = re.sub(r'^[•\-\*]\s+(.+)$', r'<li>\1</li>', line)`. */
  function ListItem(line: string): (r: string)
    ensures r == line || (r != [] && r[0] == '<')
    ensures '\n' !in line ==> '\n' !in r
  {
    if |line| >= 2 && IsBullet(line[0]) && IsPySpace(line[1]) then
      match SpaceThenText(line[1..])
      case Some(text) => "<li>" + text + "</li>"
      case None => line
    else line
  }

  function CheckboxMarker(done: bool): string
  {
    if done then "- [x] " else "- [ ] "
  }

  /** `re.sub(r'^- \[ \] (.+)$', ...)` and its `[x]` twin. */
  function CheckboxItem(line: string, done: bool): (r: string)
    ensures r == line || (r != [] && r[0] == '<')
    ensures '\n' !in line ==> '\n' !in r
  {
    var marker := CheckboxMarker(done);
    if marker <= line && |line| > |marker| then
      var text := line[|marker|..];
      if done then "<li class=\"done\">\U{2611} " + text + "</li>"
      else "<li class=\"todo\">\U{2610} " + text + "</li>"
    else line
  }

  /** `if line.startswith('>'): line = re.sub(r'^>\s+(.+)$', r'<blockquote>\1</blockquote>', line)`. */
  function Blockquote(line: string): (r: string)
    ensures r == line || (r != [] && r[0] == '<')
    ensures '\n' !in line ==> '\n' !in r
  {
    if ">" <= line then
      match SpaceThenText(line[1..])
      case Some(text) => "<blockquote>" + text + "</blockquote>"
      case None => line
    else line
  }

  /** A line that is still blank becomes a line break. */
  function BlankLine(line: string): (r: string)
    ensures Strip(r) != []
    ensures Strip(line) != [] ==> r == line
    ensures Strip(line) == [] ==> r == BreakTag
    ensures '\n' !in line ==> '\n' !in r
  {
    BreakTagFacts();
    if Strip(line) == [] then BreakTag else line
  }

  const BreakTag := "<br>"

  lemma BreakTagFacts()
    ensures '\n' !in BreakTag && Strip(BreakTag) != []
  {
    assert !IsPySpace(BreakTag[0]);
  }

  /** The horizontal-rule, list and checkbox rules, in the source's order. */
  function LineRules(line: string): (r: string)
    ensures '\n' !in line ==> '\n' !in r
    ensures r == line || (r != [] && r[0] == '<')
  {
    CheckboxItem(CheckboxItem(ListItem(HorizontalRule(line)), false), true)
  }

  /** Every step up to and including the checkbox rules. No step puts a `>`
      at the start of the line: escaping removes every `>`, and each later step
      either keeps the line or produces one that starts with a tag. */
  function ThroughCheckboxes(line: string): (r: string)
    ensures '\n' !in line ==> '\n' !in r
    ensures !StartsWithGt(r)
  {
    var escaped := Escape(line);
    assert !StartsWithGt(escaped) by { if escaped != [] { assert escaped[0] in escaped; } }
    LineRules(Inline(Headers(escaped)))
  }

  /** The rendering of a line outside a code block. */
  function RenderLine(line: string): (r: string)
    ensures '\n' !in line ==> '\n' !in r
    ensures Strip(r) != []
  {
    BlankLine(Blockquote(ThroughCheckboxes(line)))
  }

  // ----------------------------------------------- what the ordering implies

  /** The list rule runs first and rewrites every line the checkbox patterns
      could match, so the checkbox rules never change anything. */
  lemma CheckboxRulesNeverFire(line: string)
    ensures LineRules(line) == ListItem(HorizontalRule(line))
  {
    ListItemUnmarked(HorizontalRule(line), false);
    ListItemUnmarked(HorizontalRule(line), true);
  }

  /** What the list rule emits never starts with a checkbox marker that has
      text after it: such a line is a list item already. */
  lemma ListItemUnmarked(x: string, done: bool)
    ensures CheckboxItem(ListItem(x), done) == ListItem(x)
  {
    var mk := CheckboxMarker(done);
    CheckboxMarkerFacts(done);
    assert mk <= x && |x| > |mk| ==>
      |x| >= 2 && IsBullet(x[0]) && IsPySpace(x[1]) && SpaceThenText(x[1..]).Some? by {
      if mk <= x && |x| > |mk| {
        assert x[0] == mk[0] && x[1] == mk[1] && x[1..][0] == x[1];
      }
    }
  }

  lemma CheckboxMarkerFacts(done: bool)
    ensures |CheckboxMarker(done)| == 6
    ensures CheckboxMarker(done)[0] == '-' && CheckboxMarker(done)[1] == ' '
    ensures CheckboxMarker(done)[2] == '['
  {
  }

  /** A bullet, a whitespace run and text become a list item. */
  lemma ListItemOf(b: char, w: string, text: string)
    requires IsBullet(b)
    requires w != [] && AllIn(w, IsPySpace)
    requires text != [] && !IsPySpace(text[0])
    ensures ListItem([b] + w + text) == "<li>" + text + "</li>"
  {
    var line := [b] + w + text;
    assert line[1..] == w + text;
    assert line[1] == w[0];
    SpaceThenTextOf(w, text);
  }

  /** Because the list rule comes first, a checkbox line becomes an ordinary
      list item that keeps its `[ ]` or `[x]`. */
  lemma CheckboxLineIsItem(done: bool, text: string)
    ensures ListItem(CheckboxMarker(done) + text)
            == "<li>" + (CheckboxMarker(done)[2..] + text) + "</li>"
  {
    var mk := CheckboxMarker(done);
    CheckboxMarkerFacts(done);
    var rest := mk[2..] + text;
    assert rest[0] == '[';
    assert mk + text == [mk[0]] + [mk[1]] + rest;
    assert AllIn([mk[1]], IsPySpace);
    ListItemOf(mk[0], [mk[1]], rest);
  }

  predicate StartsWithGt(s: string)
  {
    s != [] && s[0] == '>'
  }

  /** `>` is escaped before the blockquote test, and no later step puts a `>`
      at the start of a line, so the blockquote rule never fires. */
  lemma BlockquoteNeverFires(line: string)
    ensures Blockquote(ThroughCheckboxes(line)) == ThroughCheckboxes(line)
  {
  }

  /** A character none of the escaping, header and inline rules looks at. */
  predicate IsPlain(c: char)
  {
    c != '&' && c != '<' && c != '>' && c != '#' && c != '*' && c != '`' && c != '['
  }

  /** A line made only of plain characters leaves escaping, headers and the
      inline substitutions unchanged. */
  lemma PlainLine(line: string)
    requires AllIn(line, IsPlain)
    ensures Inline(Headers(Escape(line))) == line
  {
    assert Escape(line) == line by {
      AllInExcludes(line, IsPlain, '&');
      AllInExcludes(line, IsPlain, '<');
      AllInExcludes(line, IsPlain, '>');
      EscapeIdempotentIff(line);
    }
    assert Headers(line) == line by {
      AllInExcludes(line, IsPlain, '#');
      HashesPrefix(line, 1);
      MarkerLevelIsLongestRun(line);
    }
    PlainInline(line);
  }

  /** The inline substitutions leave a plain line alone. */
  lemma PlainInline(line: string)
    requires AllIn(line, IsPlain)
    ensures Inline(line) == line
  {
    AllInExcludes(line, IsPlain, '*');
    AllInExcludes(line, IsPlain, '`');
    AllInExcludes(line, IsPlain, '[');
    assert Sub(BoldItalic, line) == line;
    assert Sub(Bold, line) == line;
    assert Sub(Italic, line) == line;
    assert Sub(InlineCode, line) == line;
    assert Sub(Link, line) == line;
  }

  /** A line whose stripped text is plain is plain, since whitespace is. */
  lemma StrippedPlain(line: string)
    requires AllIn(Strip(line), IsPlain)
    ensures AllIn(line, IsPlain)
  {
    forall i | 0 <= i < |line| ensures IsPlain(line[i]) {
      if !IsPySpace(line[i]) {
        TrimKeeps(line, IsPySpace, line[i]);
      }
    }
  }

  /** A tag that begins with `<`, on a line of its own, is left alone by the
      list, checkbox, blockquote and blank-line rules. */
  lemma TagSurvives(t: string)
    requires t != [] && t[0] == '<'
    ensures ListItem(t) == t && CheckboxItem(t, false) == t && CheckboxItem(t, true) == t
    ensures Blockquote(t) == t && BlankLine(t) == t
  {
    assert ListItem(t) == t;
    assert CheckboxItem(t, false) == t && CheckboxItem(t, true) == t by {
      CheckboxMarkerFacts(false);
      CheckboxMarkerFacts(true);
    }
    assert Blockquote(t) == t;
    assert BlankLine(t) == t by {
      assert !IsPySpace(t[0]);
      TrimKeeps(t, IsPySpace, t[0]);
    }
  }

  /** A line whose stripped text is `---` renders as a horizontal rule. */
  lemma RuleLine(line: string)
    requires Strip(line) == "---"
    ensures RenderLine(line) == RuleTag
  {
    StrippedPlain(line);
    PlainLine(line);
    assert HorizontalRule(line) == RuleTag;
    RuleTagsFacts();
    TagSurvives(RuleTag);
  }

  /** A line whose stripped text is a non-empty run of `═` renders as a double rule. */
  lemma DoubleRuleLine(line: string)
    requires Strip(line) != [] && AllIn(Strip(line), IsDoubleLine)
    ensures RenderLine(line) == DoubleRuleTag
  {
    assert Strip(line) != "---" by {
      assert IsDoubleLine(Strip(line)[0]);
      assert !IsDoubleLine('-');
    }
    StrippedPlain(line);
    PlainLine(line);
    assert HorizontalRule(line) == DoubleRuleTag;
    RuleTagsFacts();
    TagSurvives(DoubleRuleTag);
  }

  /** Whitespace is plain, and the line rules leave a blank line alone. */
  lemma BlankLineKept(line: string)
    requires AllIn(line, IsPySpace)
    ensures ThroughCheckboxes(line) == line
  {
    assert Inline(Headers(Escape(line))) == line by {
      forall i | 0 <= i < |line| ensures IsPlain(line[i]) {
        assert IsPySpace(line[i]);
      }
      PlainLine(line);
    }
    assert LineRules(line) == line by {
      BlankLineRules(line);
    }
  }

  lemma BlankLineRules(line: string)
    requires AllIn(line, IsPySpace)
    ensures LineRules(line) == line
  {
    assert line != [] ==> IsPySpace(line[0]);
    assert HorizontalRule(line) == line by {
      assert Strip(line) == [];
    }
    assert ListItem(line) == line;
    assert CheckboxItem(line, false) == line by {
      CheckboxMarkerFacts(false);
    }
    assert CheckboxItem(line, true) == line by {
      CheckboxMarkerFacts(true);
    }
  }

  /** A blank or all-whitespace line renders as `<br>`. */
  lemma BlankLineIsBreak(line: string)
    requires AllIn(line, IsPySpace)
    ensures RenderLine(line) == BreakTag
  {
    BlankLineKept(line);
    assert line != [] ==> IsPySpace(line[0]);
    assert Blockquote(line) == line;
    assert BlankLine(line) == BreakTag by {
      assert Strip(line) == [];
    }
  }

  lemma EmptyLineIsBreak()
    ensures RenderLine("") == "<br>"
  {
    BlankLineIsBreak("");
  }
}
