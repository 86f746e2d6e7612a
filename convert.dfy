/** `convert_line` (gfwlist2acl.py:61-77): decide what kind of gfwlist entry
    a line is and turn it into ACL rules. */
module Converter {
  import opened Text
  import opened Splitter
  import opened Regexp

  /** The characters of the IP pattern `[\d.:/]` at line 70, with `\d`
      read as the ASCII digits. */
  predicate IsIpChar(c: char) {
    ('0' <= c <= '9') || c == '.' || c == ':' || c == '/'
  }

  /** A whole line the IP pattern at line 70 matches. */
  predicate IsIpText(s: string) {
    s != [] && forall i :: 0 <= i < |s| ==> IsIpChar(s[i])
  }

  /** Line 67: every `\/` becomes `/`, so the line can only get shorter. */
  function Unslash(line: string): (r: string)
    ensures |r| <= |line|
  {
    ReplaceAll(line, "\\/", "/")
  }

  /** `line[1:-1]`: the text between the first and the last character, empty
      for a line of one character. */
  function Inner(s: string): (r: string)
    ensures |s| >= 2 ==> s == s[..1] + r + s[|s| - 1..]
    ensures |s| < 2 ==> r == []
  {
    if |s| >= 2 then s[1..|s| - 1] else []
  }

  /** The kinds of gfwlist entries `convert_line` tells apart. */
  datatype Kind = Blank | IpLiteral | RegexLiteral | Pattern

  /** Which branch of `convert_line` a line takes. */
  function Classify(line: string): (k: Kind)
    ensures k == Blank <==> line == []
    ensures k == IpLiteral <==> line != [] && IsIpText(Unslash(line))
    ensures k == RegexLiteral <==>
              line != [] && !IsIpText(Unslash(line))
              && StartsWith(Unslash(line), "/") && EndsWith(Unslash(line), "/")
  {
    if line == [] then Blank
    else
      var u := Unslash(line);
      if IsIpText(u) then IpLiteral
      else if StartsWith(u, "/") && EndsWith(u, "/") then RegexLiteral
      else Pattern
  }

  /** What `convert_line` returns: nothing for an empty line, the line
      itself for an IP line, and otherwise rules shorter than
      MaxRuleLength. */
  function Convert(line: string): (rules: seq<string>)
    ensures line == [] ==> rules == []
    ensures Classify(line) == IpLiteral ==> rules == [Unslash(line)]
    ensures Classify(line) != IpLiteral ==> forall r :: r in rules ==> |r| < MaxRuleLength
  {
    match Classify(line)
    case Blank => []
    case IpLiteral => [Unslash(line)]
    case RegexLiteral => Rules(Inner(Unslash(line)))
    case Pattern => Rules(Translate(Unslash(line)))
  }

  /** A pattern entry: its Adblock anchors become `(^|\.)`, `^` and `$`, a
      scheme behind a leading anchor goes, and each other character is
      translated on its own, before `get_rules` normalises and splits. */
  lemma ConvertPattern(line: string)
    requires Classify(line) == Pattern
    ensures var a := ParseAnchors(Unslash(line));
            Convert(line) == Rules(a.head + MapChars(a.core) + a.tail)
  {
    TranslateAnchors(Unslash(line));
  }

  /** A line wrapped in slashes is handed to `get_rules` as it stands
      between them: nothing is escaped or translated. */
  lemma ConvertRegexLiteral(line: string)
    requires Classify(line) == RegexLiteral
    ensures var u := Unslash(line);
            && |u| >= 2 && u == "/" + Inner(u) + "/"
            && Convert(line) == Rules(Inner(u))
  {
    var u := Unslash(line);
    SlashIsIp();
    assert u[..1] == "/" && u[|u| - 1..] == "/";
  }

  /** A lone `/` is taken for an IP line, so the `/…/` branch always has
      two slashes around its text. */
  lemma SlashIsIp()
    ensures IsIpText("/")
  {
  }

  /** Line 67 changes nothing in a line without a backslash. */
  lemma UnslashPlain(line: string)
    requires '\\' !in line
    ensures Unslash(line) == line
  {
    ReplaceAllAbsent(line, "\\/", "/");
  }

  /** gfwlist2acl.py:61-77. */
  method ConvertLine(line: string) returns (rules: seq<string>)
    ensures rules == Convert(line)
    ensures line == [] ==> rules == []
    ensures line != [] && IsIpText(Unslash(line)) ==> rules == [Unslash(line)]
    ensures !IsIpText(Unslash(line)) ==> forall r :: r in rules ==> |r| < MaxRuleLength
  {
    if line == [] {
      return [];
    }
    var s := ReplaceAll(line, "\\/", "/");
    if IsIpText(s) {
      return [s];
    }
    if StartsWith(s, "/") && EndsWith(s, "/") {
      rules := GetRules(Inner(s));
      return;
    }
    rules := GetRegexp(s);
  }
}
