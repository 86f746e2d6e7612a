/** The input loop of `main` (gfwlist2acl.py:80-107): every stripped gfwlist
    line is either skipped as a comment or converted, its rules going to the
    proxy list or, for an `@@` exception, to the bypass list; the output is a
    fixed header followed by the two lists. */
module Driver {
  import opened Text
  import opened Converter

  const HomePage := "https://github.com/NateScarlet/gfwlist.acl"
  const ListUrl := "https://raw.githubusercontent.com/NateScarlet/gfwlist.acl/master/gfwlist.acl"

  /** The head of the ACL file (lines 81-90); `date` stands for the
      ISO-formatted time the file is written. */
  function Header(date: string): (h: seq<string>)
    ensures |h| == 7 && h[|h| - 1] == "[bypass_all]"
  {
    ["#", "# Date: " + date, "# Home Page: " + HomePage, "# URL: " + ListUrl, "#", "", "[bypass_all]"]
  }

  /** The opening lines of the two lists (lines 91-92). */
  const ProxyHeader: seq<string> := ["", "[proxy_list]", ""]
  const BypassHeader: seq<string> := ["", "[bypass_list]", ""]

  /** Comment lines and the `[AutoProxy …]` banner (line 97). */
  predicate IsComment(line: string) {
    StartsWith(line, "!") || StartsWith(line, "[AutoProxy")
  }

  /** An exception entry (line 101). */
  predicate IsException(line: string) {
    StartsWith(line, "@@")
  }

  /** The proxy list and the bypass list. */
  datatype Lists = Lists(proxy: seq<string>, bypass: seq<string>)

  /** What one input line adds to the two lists (lines 95-104). */
  function Contribution(raw: string): Lists
  {
    var line := Strip(raw);
    if IsComment(line) then Lists([], [])
    else if IsException(line) then Lists([], Convert(line[2..]))
    else Lists(Convert(line), [])
  }

  /** Comments and empty entries add nothing; rules of an `@@` line go to
      the bypass list only, those of any other line to the proxy list only. */
  lemma ContributionRoutes(raw: string)
    ensures var c := Contribution(raw);
            && (IsComment(Strip(raw)) ==> c == Lists([], []))
            && (Strip(raw) == [] || Strip(raw) == "@@" ==> c == Lists([], []))
            && (c.bypass != [] ==> IsException(Strip(raw)) && !IsComment(Strip(raw)))
            && (c.proxy != [] ==> !IsException(Strip(raw)) && !IsComment(Strip(raw)))
            && (c.proxy == [] || c.bypass == [])
  {
    var line := Strip(raw);
    if IsComment(line) {
    } else if IsException(line) {
      ExceptionContribution(raw);
    } else {
      OtherContribution(raw);
    }
  }

  /** An `@@` line feeds the bypass list only, and a bare `@@` nothing. */
  lemma ExceptionContribution(raw: string)
    requires !IsComment(Strip(raw)) && IsException(Strip(raw))
    ensures Contribution(raw).proxy == []
    ensures Strip(raw) == "@@" ==> Contribution(raw).bypass == []
  {
    var line := Strip(raw);
    if line == "@@" {
      assert line[2..] == [];
    }
  }

  /** Any other line feeds the proxy list only, and an empty line nothing. */
  lemma OtherContribution(raw: string)
    requires !IsComment(Strip(raw)) && !IsException(Strip(raw))
    ensures Contribution(raw).bypass == []
    ensures Strip(raw) == [] ==> Contribution(raw).proxy == []
  {
  }

  /** The proxy rules one input line gives. */
  function ProxyOf(raw: string): seq<string> {
    Contribution(raw).proxy
  }

  /** The bypass rules one input line gives. */
  function BypassOf(raw: string): seq<string> {
    Contribution(raw).bypass
  }

  /** The two lists after the lines of `lines` are read: each its header
      followed by the rules of the lines that go to it, in input order. */
  function Collect(lines: seq<string>): (l: Lists)
    ensures |l.proxy| >= 3 && l.proxy[..3] == ProxyHeader
    ensures |l.bypass| >= 3 && l.bypass[..3] == BypassHeader
  {
    Lists(ProxyHeader + FlatMap(ProxyOf, lines), BypassHeader + FlatMap(BypassOf, lines))
  }

  /** Reading one more line appends its rules to the list it goes to and
      leaves the other list alone. */
  lemma CollectSnoc(lines: seq<string>, raw: string)
    ensures var l := Collect(lines);
            Collect(lines + [raw]) == Lists(l.proxy + ProxyOf(raw), l.bypass + BypassOf(raw))
  {
    FlatMapSnoc(ProxyOf, lines, raw);
    FlatMapSnoc(BypassOf, lines, raw);
    AppendAssoc(ProxyHeader, FlatMap(ProxyOf, lines), ProxyOf(raw));
    AppendAssoc(BypassHeader, FlatMap(BypassOf, lines), BypassOf(raw));
  }

  /** Without an `@@` line the bypass list holds only its header. */
  lemma NoExceptionNoBypass(lines: seq<string>)
    requires forall i :: 0 <= i < |lines| ==> !IsException(Strip(lines[i]))
    ensures Collect(lines).bypass == BypassHeader
  {
    forall i | 0 <= i < |lines| ensures BypassOf(lines[i]) == [] {
      ContributionRoutes(lines[i]);
    }
    FlatMapEmpty(BypassOf, lines);
  }

  /** Comment lines can be dropped from the input without changing either
      list. */
  lemma CommentsIgnored(a: seq<string>, raw: string, b: seq<string>)
    requires IsComment(Strip(raw))
    ensures Collect(a + [raw] + b) == Collect(a + b)
  {
    ContributionRoutes(raw);
    FlatMapSnoc(ProxyOf, a, raw);
    FlatMapSnoc(BypassOf, a, raw);
    FlatMapAppend(ProxyOf, a + [raw], b);
    FlatMapAppend(BypassOf, a + [raw], b);
    FlatMapAppend(ProxyOf, a, b);
    FlatMapAppend(BypassOf, a, b);
    assert FlatMap(ProxyOf, a) + [] == FlatMap(ProxyOf, a);
    assert FlatMap(BypassOf, a) + [] == FlatMap(BypassOf, a);
  }

  /** The ACL file: header, proxy list, bypass list (lines 106-107). */
  function Document(lines: seq<string>, date: string): (d: seq<string>)
    ensures var l := Collect(lines);
            && |d| == 7 + |l.proxy| + |l.bypass|
            && d[..7] == Header(date)
            && d[7..7 + |l.proxy|] == l.proxy
            && d[7 + |l.proxy|..] == l.bypass
  {
    var l := Collect(lines);
    SliceOfConcat(Header(date), l.proxy, l.bypass, |l.proxy|);
    Header(date) + l.proxy + l.bypass
  }

  /** Lines 95-104 for one input line: what it adds to each list. */
  method ReadLine(raw: string) returns (toProxy: seq<string>, toBypass: seq<string>)
    ensures Lists(toProxy, toBypass) == Contribution(raw)
  {
    var line := Strip(raw);
    if IsComment(line) {
      return [], [];
    }
    var isWhitelist := StartsWith(line, "@@");
    if isWhitelist {
      line := line[2..];
    }
    var rules := ConvertLine(line);
    if isWhitelist {
      toProxy, toBypass := [], rules;
    } else {
      toProxy, toBypass := rules, [];
    }
  }

  /** Lines 91-104: the two lists grow as the lines are read. */
  method Partition(lines: seq<string>) returns (blacklist: seq<string>, whitelist: seq<string>)
    ensures Lists(blacklist, whitelist) == Collect(lines)
  {
    blacklist := ProxyHeader;
    whitelist := BypassHeader;
    var i := 0;
    while i < |lines|
      invariant 0 <= i <= |lines|
      invariant Lists(blacklist, whitelist) == Collect(lines[..i])
    {
      var toProxy, toBypass := ReadLine(lines[i]);
      TakeSnoc(lines, i);
      CollectSnoc(lines[..i], lines[i]);
      blacklist := blacklist + toProxy;
      whitelist := whitelist + toBypass;
      i := i + 1;
    }
    assert lines[..i] == lines;
  }

  /** gfwlist2acl.py:80-107, with the output returned instead of printed. */
  method BuildAcl(lines: seq<string>, date: string) returns (output: seq<string>)
    ensures output == Document(lines, date)
    ensures output[..7] == Header(date)
    ensures output[7..10] == ProxyHeader
  {
    var blacklist, whitelist := Partition(lines);
    var header := Header(date);
    output := header + blacklist + whitelist;
    SliceOfConcat(header, blacklist, whitelist, 3);
  }
}
