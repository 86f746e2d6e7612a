/** `get_regexp` (gfwlist2acl.py:21-36): translate one Adblock Plus filter
    into a regular expression and hand it to `get_rules`. */
module Regexp {
  import opened Text
  import opened Splitter

  /** What an Adblock `^` (separator) turns into (line 29). */
  const Separator := "([^a-zA-Z0-9_-.%]|$)"
  /** What a leading `||` (domain anchor) turns into (line 32); `re.sub`
      keeps the backslash of `\.` in its replacement. */
  const DomainAnchor := "(^|\\.)"

  /** The characters line 24 escapes: `.*+?^${}()|[]\`. */
  predicate IsMeta(c: char) {
    c == '.' || c == '*' || c == '+' || c == '?' || c == '^' || c == '$' || c == '{'
    || c == '}' || c == '(' || c == ')' || c == '|' || c == '[' || c == ']' || c == '\\'
  }

  function EscapeChar(c: char): string {
    if IsMeta(c) then ['\\', c] else [c]
  }

  /** Line 24: a backslash in front of every special character. Text
      without one is left as it is. */
  function Escape(s: string): (r: string)
    ensures |s| <= |r| <= 2 * |s|
    ensures Plain(s) ==> r == s
  {
    if s == [] then [] else EscapeChar(s[0]) + Escape(s[1..])
  }

  /** Removes the backslash in front of each escaped special character. */
  function Unescape(t: string): string
  {
    if |t| >= 2 && t[0] == '\\' && IsMeta(t[1]) then [t[1]] + Unescape(t[2..])
    else if t == [] then []
    else [t[0]] + Unescape(t[1..])
  }

  /** Escaping loses nothing: it is undone by Unescape. */
  lemma {:induction false} EscapeRoundTrip(s: string)
    ensures Unescape(Escape(s)) == s
    decreases |s|
  {
    if s != [] {
      var e := Escape(s[1..]);
      EscapeRoundTrip(s[1..]);
      if IsMeta(s[0]) {
        assert Escape(s) == ['\\', s[0]] + e;
        assert (['\\', s[0]] + e)[2..] == e;
      } else {
        assert Escape(s) == [s[0]] + e;
        assert ([s[0]] + e)[1..] == e;
      }
      assert s == [s[0]] + s[1..];
    }
  }

  /** The combined effect of lines 24, 27 and 29 on one character of the
      filter: `*` becomes `.+`, `^` the separator class, any other special
      character gets a backslash, and everything else is kept. */
  function Token(c: char): (t: string)
    ensures t != []
  {
    if c == '*' then ".+"
    else if c == '^' then Separator
    else EscapeChar(c)
  }

  /** The filter translated character by character. */
  function MapChars(s: string): string
  {
    if s == [] then [] else Token(s[0]) + MapChars(s[1..])
  }

  /** What line 27 leaves of one character's escape. */
  function StarToken(c: char): string {
    if c == '*' then ".+" else EscapeChar(c)
  }

  /** The text after line 27: escaped, with each escaped `*` now `.+`. */
  function AfterStars(s: string): string
  {
    if s == [] then [] else StarToken(s[0]) + AfterStars(s[1..])
  }

  lemma EscapeHead(s: string)
    requires Escape(s) != []
    ensures Escape(s)[0] != '*'
  {
  }

  lemma AfterStarsHead(s: string)
    requires AfterStars(s) != []
    ensures AfterStars(s)[0] != '^'
  {
  }

  /** Line 27 on one escaped character followed by the escape of the rest. */
  lemma StarStep(c: char, e: string)
    requires e == [] || e[0] != '*'
    ensures ReplaceAll(EscapeChar(c) + e, "\\*", ".+") == StarToken(c) + ReplaceAll(e, "\\*", ".+")
  {
    if c == '*' {
      ReplaceAllAtHead(e, "\\*", ".+");
    } else if IsMeta(c) {
      ReplaceAllSkipsEscape(c, e, "\\*", ".+");
    } else {
      ReplaceAllSkipsHead(c, e, "\\*", ".+");
    }
  }

  /** Line 29 on one character's token after line 27. */
  lemma CaretStep(c: char, a: string)
    requires a == [] || a[0] != '^'
    ensures ReplaceAll(StarToken(c) + a, "\\^", Separator) == Token(c) + ReplaceAll(a, "\\^", Separator)
  {
    if c == '*' {
      CaretStepStar(a);
    } else if c == '^' {
      ReplaceAllAtHead(a, "\\^", Separator);
    } else {
      CaretStepOther(c, a);
    }
  }

  lemma CaretStepStar(a: string)
    ensures ReplaceAll(".+" + a, "\\^", Separator) == ".+" + ReplaceAll(a, "\\^", Separator)
  {
    assert ".+" + a == ['.'] + (['+'] + a);
    ReplaceAllSkipsHead('.', ['+'] + a, "\\^", Separator);
    ReplaceAllSkipsHead('+', a, "\\^", Separator);
  }

  lemma CaretStepOther(c: char, a: string)
    requires c != '*' && c != '^'
    requires a == [] || a[0] != '^'
    ensures ReplaceAll(EscapeChar(c) + a, "\\^", Separator) == EscapeChar(c) + ReplaceAll(a, "\\^", Separator)
  {
    if IsMeta(c) {
      ReplaceAllSkipsEscape(c, a, "\\^", Separator);
    } else {
      ReplaceAllSkipsHead(c, a, "\\^", Separator);
    }
  }

  /** Line 27 replaces exactly the escaped stars: no `\*` straddles two
      escaped characters. */
  lemma {:induction false} StarsExpanded(s: string)
    ensures ReplaceAll(Escape(s), "\\*", ".+") == AfterStars(s)
    decreases |s|
  {
    if s != [] {
      var e := Escape(s[1..]);
      assert Escape(s) == EscapeChar(s[0]) + e;
      StarsExpanded(s[1..]);
      if e != [] { EscapeHead(s[1..]); }
      StarStep(s[0], e);
    }
  }

  /** Line 29 replaces exactly the escaped carets. */
  lemma {:induction false} CaretsExpanded(s: string)
    ensures ReplaceAll(AfterStars(s), "\\^", Separator) == MapChars(s)
    decreases |s|
  {
    if s != [] {
      var a := AfterStars(s[1..]);
      assert AfterStars(s) == StarToken(s[0]) + a;
      CaretsExpanded(s[1..]);
      if a != [] { AfterStarsHead(s[1..]); }
      CaretStep(s[0], a);
    }
  }

  /** Lines 24-29 together translate the filter character by character. */
  lemma ExpandTokens(s: string)
    ensures ReplaceAll(ReplaceAll(Escape(s), "\\*", ".+"), "\\^", Separator) == MapChars(s)
  {
    StarsExpanded(s);
    CaretsExpanded(s);
  }

  /** Line 32: a leading `\|\|`, with the scheme after it, becomes `(^|\.)`. */
  function AnchorDomain(s: string): (r: string)
    ensures StartsWith(s, "\\|\\|") ==>
              StartsWith(r, DomainAnchor) && |r| - |DomainAnchor| <= |s| - 4
              && EndsWith(s, r[|DomainAnchor|..])
    ensures !StartsWith(s, "\\|\\|") ==> r == s
  {
    if StartsWith(s, "\\|\\|") then DomainAnchor + s[4 + SchemeLen(s[4..])..] else s
  }

  /** Line 33: a leading `\|`, with the scheme after it, becomes `^`. */
  function AnchorStart(s: string): (r: string)
    ensures StartsWith(s, "\\|") ==>
              StartsWith(r, "^") && |r| - 1 <= |s| - 2 && EndsWith(s, r[1..])
    ensures !StartsWith(s, "\\|") ==> r == s
  {
    if StartsWith(s, "\\|") then "^" + s[2 + SchemeLen(s[2..])..] else s
  }

  /** Line 34: a trailing `\|` becomes `$`. */
  function AnchorEnd(s: string): (r: string)
    ensures EndsWith(s, "\\|") ==>
              |r| == |s| - 1 && r[|r| - 1] == '$' && r[..|r| - 1] == s[..|s| - 2]
    ensures !EndsWith(s, "\\|") ==> r == s
  {
    if EndsWith(s, "\\|") then s[..|s| - 2] + "$" else s
  }

  /** Lines 24-34: the regular expression `get_regexp` passes to `get_rules`. */
  function Translate(line: string): string
  {
    var escaped := Escape(line);
    var starred := ReplaceAll(escaped, "\\*", ".+");
    var separated := ReplaceAll(starred, "\\^", Separator);
    AnchorEnd(AnchorStart(AnchorDomain(separated)))
  }

  // ---------------------------------------------------------------------
  // The anchors, read off the filter itself.

  /** `http://` or `https://` at the head of a filter. The `\??` of lines
      32-33 never matches there, because an input `?` is escaped first. */
  function PlainSchemeLen(t: string): nat
  {
    if StartsWith(t, "https://") then 8 else if StartsWith(t, "http://") then 7 else 0
  }

  datatype Anchored = Anchored(head: string, core: string, tail: string)

  /** The leading anchor of a filter, `||` (host or any subdomain) or `|`
      (start of address), each with an optional scheme, as its translation
      and the text after it. */
  function LeadingAnchor(line: string): (string, string)
  {
    if StartsWith(line, "||") then (DomainAnchor, line[2 + PlainSchemeLen(line[2..])..])
    else if StartsWith(line, "|") then ("^", line[1 + PlainSchemeLen(line[1..])..])
    else ("", line)
  }

  /** The trailing anchor `|` (end of address) of the text after the head. */
  function TrailingAnchor(head: string, rest: string): Anchored
  {
    if EndsWith(rest, "|") then Anchored(head, rest[..|rest| - 1], "$")
    else Anchored(head, rest, "")
  }

  /** Adblock anchors of a filter. */
  function ParseAnchors(line: string): (a: Anchored)
    ensures a.head in {DomainAnchor, "^", ""} && a.tail in {"$", ""}
  {
    var (head, rest) := LeadingAnchor(line);
    TrailingAnchor(head, rest)
  }

  lemma {:induction false} MapCharsAppend(a: string, b: string)
    ensures MapChars(a + b) == MapChars(a) + MapChars(b)
    decreases |a|
  {
    if a != [] {
      assert (a + b)[1..] == a[1..] + b;
      MapCharsAppend(a[1..], b);
    } else {
      assert a + b == b;
    }
  }

  /** Only a character that is not special has a token that starts with one
      that is not, and its token is itself. */
  lemma TokenPlain(c: char)
    ensures !IsMeta(Token(c)[0]) ==> !IsMeta(c) && Token(c) == [c]
  {
  }

  /** A token starts `\|` exactly when it is the token of `|`. */
  lemma TokenStartsWithBar(c: char, u: string)
    ensures StartsWith(Token(c) + u, "\\|") <==> c == '|'
  {
    if c == '*' {
      assert (Token(c) + u)[0] == '.';
    } else if c == '^' {
      assert (Token(c) + u)[0] == '(';
    } else if IsMeta(c) {
      assert (Token(c) + u)[..2] == ['\\', c];
    } else {
      assert (Token(c) + u)[0] == c;
    }
  }

  /** A translation that starts with a character that is not special
      starts with that character of the filter. */
  lemma MapCharsPlainHead(t: string)
    requires MapChars(t) != [] && !IsMeta(MapChars(t)[0])
    ensures t != [] && !IsMeta(t[0]) && MapChars(t) == [t[0]] + MapChars(t[1..])
  {
    assert MapChars(t) == Token(t[0]) + MapChars(t[1..]);
    assert MapChars(t)[0] == Token(t[0])[0];
    TokenPlain(t[0]);
  }

  predicate Plain(p: string) {
    forall i :: 0 <= i < |p| ==> !IsMeta(p[i])
  }

  lemma {:induction false} MapCharsPlainPrefix(t: string, p: string)
    requires StartsWith(MapChars(t), p)
    requires Plain(p)
    ensures StartsWith(t, p) && MapChars(t) == p + MapChars(t[|p|..])
    decreases |p|
  {
    if p != [] {
      PlainPrefixStep(t, p);
      MapCharsPlainPrefix(t[1..], p[1..]);
      PlainPrefixJoin(t, p, MapChars(t[1..]), MapChars(t[|p|..]));
    } else {
      assert t[0..] == t;
      assert p + MapChars(t[|p|..]) == MapChars(t);
    }
  }

  /** The first character of MapCharsPlainPrefix. */
  lemma PlainPrefixStep(t: string, p: string)
    requires p != [] && StartsWith(MapChars(t), p) && Plain(p)
    ensures t != [] && t[0] == p[0] && MapChars(t) == [p[0]] + MapChars(t[1..])
    ensures StartsWith(MapChars(t[1..]), p[1..]) && Plain(p[1..])
  {
    var p' := p[1..];
    assert t != [] && MapChars(t) == [p[0]] + MapChars(t[1..]) && t[0] == p[0] by {
      assert MapChars(t)[0] == p[0];
      MapCharsPlainHead(t);
    }
    assert Plain(p') by {
      forall i | 0 <= i < |p'| ensures !IsMeta(p'[i]) { assert p'[i] == p[i + 1]; }
    }
    assert MapChars(t[1..]) == MapChars(t)[1..];
  }

  /** The sequence bookkeeping that closes MapCharsPlainPrefix. */
  lemma PlainPrefixJoin(t: string, p: string, m1: string, r: string)
    requires p != [] && t != [] && t[0] == p[0]
    requires StartsWith(t[1..], p[1..]) && m1 == p[1..] + r
    ensures StartsWith(t, p) && [p[0]] + m1 == p + r
  {
    assert t[..|p|] == [t[0]] + t[1..][..|p| - 1];
    assert p == [p[0]] + p[1..];
  }

  /** A text without special characters is its own translation. */
  lemma {:induction false} MapCharsPlain(p: string)
    requires Plain(p)
    ensures MapChars(p) == p
    decreases |p|
  {
    if p != [] {
      MapCharsPlain(p[1..]);
      assert p == [p[0]] + p[1..];
    }
  }

  /** No token starts with `?`: an input `?` is escaped. */
  lemma TokenHeadNotQuery(c: char)
    ensures Token(c)[0] != '?'
  {
  }

  /** A filter that starts with a scheme keeps it in its translation. */
  lemma MappedScheme(lit: string, rest: string)
    requires lit == "http://" || lit == "https://"
    ensures MapChars(lit + rest) == lit + MapChars(rest)
    ensures SchemeLen(lit + MapChars(rest)) == |lit|
  {
    assert MapChars(lit) == lit by {
      MapCharsPlain(lit);
    }
    MapCharsAppend(lit, rest);
    SchemeLenOfLiteral(lit, MapChars(rest));
  }

  lemma SchemeLenOfLiteral(lit: string, y: string)
    requires lit == "http://" || lit == "https://"
    ensures SchemeLen(lit + y) == |lit|
  {
    var x := lit + y;
    assert x[..|lit|] == lit;
    assert x[0] == 'h' && x[1] == 't' && x[2] == 't' && x[3] == 'p';
    if lit == "https://" {
      assert x[4] == 's' && x[5] == ':' && x[6] == '/' && x[7] == '/';
    } else {
      assert x[4] == ':' && x[5] == '/' && x[6] == '/';
    }
  }

  /** A translation that starts with a scheme comes from a filter that
      starts with `http://` or `https://`. */
  lemma MappedSchemeSource(t: string)
    ensures SchemeLen(MapChars(t)) > 0 ==> PlainSchemeLen(t) > 0
  {
    var u := MapChars(t);
    if SchemeLen(u) > 0 {
      if u[4] == 's' {
        SchemeSourceCase(t, "https", "https://");
      } else {
        assert u[..4] == "http";
        SchemeSourceCase(t, "http", "http://");
      }
    }
  }

  /** The scheme names and schemes hold no special character. */
  lemma SchemesPlain()
    ensures Plain("http") && Plain("https") && Plain("http://") && Plain("https://")
  {
  }

  /** A translation never starts with `?`: an input `?` is escaped. */
  lemma MapCharsHeadNotQuery(t: string)
    requires MapChars(t) != []
    ensures MapChars(t)[0] != '?'
  {
    assert MapChars(t) == Token(t[0]) + MapChars(t[1..]);
    TokenHeadNotQuery(t[0]);
  }

  /** A scheme match whose name is not followed by `?` is the plain scheme. */
  lemma SchemeWithoutQuery(u: string, w: string, lit: string)
    requires (w == "http" && lit == "http://") || (w == "https" && lit == "https://")
    requires SchemeLen(u) > 0 && StartsWith(u, w)
    requires u[4] == 's' <==> w == "https"
    requires u[|w|] != '?'
    ensures StartsWith(u, lit)
  {
  }

  /** The step of MappedSchemeSource once the scheme name is known. */
  lemma SchemeSourceCase(t: string, w: string, lit: string)
    requires (w == "http" && lit == "http://") || (w == "https" && lit == "https://")
    requires SchemeLen(MapChars(t)) > 0 && StartsWith(MapChars(t), w)
    requires MapChars(t)[4] == 's' <==> w == "https"
    ensures StartsWith(t, lit)
  {
    var u := MapChars(t);
    SchemesPlain();
    MapCharsPlainPrefix(t, w);
    var v := MapChars(t[|w|..]);
    assert u == w + v;
    MapCharsHeadNotQuery(t[|w|..]);
    assert u[|w|] == v[0];
    SchemeWithoutQuery(u, w, lit);
    MapCharsPlainPrefix(t, lit);
  }

  /** The translation of `t` starts with `http://` or `https://` exactly when
      `t` does, and the rest is the translation of the rest. */
  lemma SchemeOfMapped(t: string)
    ensures SchemeLen(MapChars(t)) == PlainSchemeLen(t)
    ensures MapChars(t)[SchemeLen(MapChars(t))..] == MapChars(t[PlainSchemeLen(t)..])
  {
    var n := PlainSchemeLen(t);
    if n > 0 {
      var lit := if n == 8 then "https://" else "http://";
      assert t == lit + t[n..];
      MappedScheme(lit, t[n..]);
      assert MapChars(t)[n..] == MapChars(t[n..]);
    } else {
      MappedSchemeSource(t);
      assert t[0..] == t;
    }
  }

  /** The translation starts with `\|` exactly when the filter starts with `|`. */
  lemma MappedStartsWithBar(t: string)
    ensures StartsWith(MapChars(t), "\\|") <==> StartsWith(t, "|")
    ensures StartsWith(t, "|") ==> MapChars(t) == "\\|" + MapChars(t[1..])
  {
    if t != [] {
      assert MapChars(t) == Token(t[0]) + MapChars(t[1..]);
      TokenStartsWithBar(t[0], MapChars(t[1..]));
    }
  }

  /** The translation ends with `|` exactly when the filter does, and then
      with `\|`. */
  lemma MappedEndsWithBar(t: string)
    ensures t != [] && t[|t| - 1] == '|' ==> MapChars(t) == MapChars(t[..|t| - 1]) + "\\|"
    ensures t != [] && t[|t| - 1] != '|' ==>
              MapChars(t) != [] && MapChars(t)[|MapChars(t)| - 1] != '|'
  {
    if t != [] {
      var n := |t|;
      assert t == t[..n - 1] + [t[n - 1]];
      MapCharsAppend(t[..n - 1], [t[n - 1]]);
      assert MapChars([t[n - 1]]) == Token(t[n - 1]);
    }
  }

  /** Line 34 on a translated body behind one of the heads. */
  lemma AnchorEndOnMapped(head: string, rest: string)
    requires head in {DomainAnchor, "^", ""}
    ensures var a := TrailingAnchor(head, rest);
            AnchorEnd(head + MapChars(rest)) == a.head + MapChars(a.core) + a.tail
  {
    if EndsWith(rest, "|") {
      AnchorEndBar(head, rest);
    } else {
      assert !EndsWith(head, "\\|");
      AnchorEndNoBar(head, rest);
      assert head + MapChars(rest) + "" == head + MapChars(rest);
    }
  }

  /** A trailing `|` of the filter becomes `$`. */
  lemma AnchorEndBar(head: string, rest: string)
    requires EndsWith(rest, "|")
    ensures AnchorEnd(head + MapChars(rest)) == head + MapChars(rest[..|rest| - 1]) + "$"
  {
    var m := MapChars(rest[..|rest| - 1]);
    var x := head + MapChars(rest);
    assert x == (head + m) + "\\|" by {
      MappedEndsWithBar(rest);
      assert rest[|rest| - 1..] == "|";
      AppendAssoc(head, m, "\\|");
    }
    SuffixOfAppend(head + m, "\\|");
  }

  /** Without a trailing `|` in the filter, line 34 changes nothing. */
  lemma AnchorEndNoBar(head: string, rest: string)
    requires !EndsWith(rest, "|") && !EndsWith(head, "\\|")
    ensures AnchorEnd(head + MapChars(rest)) == head + MapChars(rest)
  {
    var x := head + MapChars(rest);
    MappedEndsWithBar(rest);
    if rest != [] {
      assert rest[|rest| - 1..] == [rest[|rest| - 1]];
      assert x[|x| - 1] == MapChars(rest)[|MapChars(rest)| - 1];
    } else {
      assert x == head;
    }
  }

  /** Lines 32-33 on the translation of a filter that starts with `||`. */
  lemma DomainAnchorCase(line: string)
    requires StartsWith(line, "||")
    ensures var rest := line[2 + PlainSchemeLen(line[2..])..];
            AnchorStart(AnchorDomain(MapChars(line))) == DomainAnchor + MapChars(rest)
  {
    var t := line[2..];
    var x := MapChars(line);
    MappedStartsWithBar(line);
    assert line[1..][0] == '|' && line[1..][1..] == t;
    MappedStartsWithBar(line[1..]);
    assert x == "\\|\\|" + MapChars(t);
    assert x[..4] == "\\|\\|" && x[4..] == MapChars(t);
    SchemeOfMapped(t);
    var rest := t[PlainSchemeLen(t)..];
    assert AnchorDomain(x) == DomainAnchor + MapChars(rest);
    assert (DomainAnchor + MapChars(rest))[0] == '(';
  }

  /** Lines 32-33 on the translation of a filter that starts with one `|`. */
  lemma StartAnchorCase(line: string)
    requires StartsWith(line, "|") && !StartsWith(line, "||")
    ensures var rest := line[1 + PlainSchemeLen(line[1..])..];
            AnchorStart(AnchorDomain(MapChars(line))) == "^" + MapChars(rest)
  {
    var t := line[1..];
    var x := MapChars(line);
    MappedStartsWithBar(line);
    MappedStartsWithBar(t);
    assert t == [] || t[0] == line[1];
    assert x == "\\|" + MapChars(t);
    assert !StartsWith(x, "\\|\\|");
    assert x[..2] == "\\|" && x[2..] == MapChars(t);
    SchemeOfMapped(t);
  }

  /** Lines 32-33 leave the translation of a filter without a leading `|`
      alone. */
  lemma NoStartAnchorCase(line: string)
    requires !StartsWith(line, "|")
    ensures AnchorStart(AnchorDomain(MapChars(line))) == MapChars(line)
  {
    var x := MapChars(line);
    MappedStartsWithBar(line);
    assert !StartsWith(x, "\\|\\|");
  }

  /** What lines 24-34 do, stated on the filter: the anchors become `(^|\.)`,
      `^` and `$`, a scheme after a leading anchor goes, and the rest is
      translated character by character. */
  lemma TranslateAnchors(line: string)
    ensures var a := ParseAnchors(line);
            Translate(line) == a.head + MapChars(a.core) + a.tail
  {
    var (head, rest) := LeadingAnchor(line);
    var a := ParseAnchors(line);
    var t := AnchorStart(AnchorDomain(MapChars(line)));
    assert a == TrailingAnchor(head, rest) && head == a.head;
    assert Translate(line) == AnchorEnd(t) by {
      ExpandTokens(line);
    }
    assert t == head + MapChars(rest) by {
      LeadTranslated(line);
    }
    assert AnchorEnd(head + MapChars(rest)) == a.head + MapChars(a.core) + a.tail by {
      AnchorEndOnMapped(head, rest);
    }
  }


  /** Lines 32-33 on the translation of a filter: its leading anchor is
      translated and the rest is translated character by character. */
  lemma LeadTranslated(line: string)
    ensures var (head, rest) := LeadingAnchor(line);
            AnchorStart(AnchorDomain(MapChars(line))) == head + MapChars(rest)
  {
    if StartsWith(line, "||") {
      DomainAnchorCase(line);
    } else if StartsWith(line, "|") {
      StartAnchorCase(line);
    } else {
      NoStartAnchorCase(line);
      assert "" + MapChars(line) == MapChars(line);
    }
  }

  /** gfwlist2acl.py:21-36. */
  method GetRegexp(line: string) returns (rules: seq<string>)
    ensures rules == Rules(Translate(line))
    ensures var a := ParseAnchors(line);
            rules == Rules(a.head + MapChars(a.core) + a.tail)
  {
    var s := Escape(line);
    s := ReplaceAll(s, "\\*", ".+");
    s := ReplaceAll(s, "\\^", Separator);
    s := AnchorDomain(s);
    s := AnchorStart(s);
    s := AnchorEnd(s);
    TranslateAnchors(line);
    rules := GetRules(s);
  }
}
