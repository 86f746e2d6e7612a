# gfwlist2acl in Dafny

`gfwlist2acl.py` turns the gfwlist, an Adblock Plus style list of filters
for blocked sites, into an ACL file for a ShadowsocksR style proxy. Each
filter becomes zero or more regular-expression rules. Rules from ordinary
filters go to `[proxy_list]`. Rules from `@@` exception filters go to
`[bypass_list]`. This project models the whole conversion, with the
program's regular-expression substitutions written out as string
functions:

- `text.dfy` (module `Text`): the Python string operations the program
  uses. These are `str.replace`, `str.split` / `str.join`, `str.strip`,
  `startswith` / `endswith` and slicing, plus generic sequence lemmas.
- `rules.dfy` (module `Splitter`): `get_rules`, in three stages.
  - Normalisation: scheme stripping, removal of a trailing `.*` run, and a
    trailing `/` turned into `$`.
  - Splitting: the group of an over-long rule is cut into rules of ten
    alternatives each.
  - Filtering: rules of 500 characters or more are dropped.
  - `GetRules` and `SplitGroup` keep the source's loop.
- `regexp.dfy` (module `Regexp`): `get_regexp`. It escapes the
  special characters, expands `*` and `^`, and rewrites the leading double-bar, leading bar and
  trailing bar anchors. It then hands the result to `get_rules`.
- `convert.dfy` (module `Converter`): `convert_line`. It classifies a
  line as blank, an IP literal, a `/regex/` literal or a pattern filter.
- `driver.dfy` (module `Driver`): the input loop of `main`. It strips
  each line, skips comments, routes exceptions and writes the file in
  order: header, proxy list, bypass list.

Python's `re` calls are modelled by what they do on single-line text.
- `re.sub(r'[.*+?^${}()|[\]\\]', …)` is `Escape`.
- `\^?https?\??://` is `DropSchemes` over `SchemeLen`.
- `(\.\*)+$` is `DropTrailingDotStars`.
- The greedy `(.*)\((.*)\)(.*)` is `FindGroup`, which takes the last `(`
  before the last `)`.
- `^[\d.:/]+$` is `IsIpText`.

Each method is proved equal to a specification function: `GetRules` to
`Rules`, `GetRegexp` to `Rules(Translate(…))`, `ConvertLine` to `Convert`,
`Partition` to `Collect`, and `BuildAcl` to `Document`. The properties
the program relies on are proved as lemmas about those functions.

Two behaviours of the code worth knowing:
- Line 40 is unanchored. Every match of `\^?https?\??://` is replaced by
  `^`, wherever it occurs in the rule. That covers `http://`, `https://`,
  `http?://` and `https?://`, and a `^` right in front of the match is
  swallowed with it.
- Line 46's greedy match takes the last `(` before the last `)` as the
  group's opening. In a rule with several or nested groups, the body runs
  from that `(` to the last `)` and may itself contain a `)`.

## Model

| member | source | states |
|---|---|---|
| Splitter.GetRules | gfwlist2acl.py:39-59 | The rules returned are `Rules(regexp)` (normalise, split, filter), and every one of them is shorter than 500 characters. |
| Splitter.SplitGroup | gfwlist2acl.py:51-55 | The loop builds exactly one wrapped rule per chunk of ten alternatives, in order. |
| Splitter.Normalise | gfwlist2acl.py:40-42 | After lines 40-42 the rule contains no scheme match anywhere, does not end with `.*` and does not end with `/`. |
| Splitter.NormaliseIdempotent | gfwlist2acl.py:40-42 | Normalising an already normalised rule changes nothing. |
| Splitter.DropSchemesLeavesNone | gfwlist2acl.py:40 | After the scheme substitution, no `https?\??://` match starts at any position of the result. |
| Splitter.DropSchemesKeepsSchemeFree | gfwlist2acl.py:40 | A rule without any scheme is left unchanged by line 40. |
| Splitter.DropSchemesCopiesUntilCaret | gfwlist2acl.py:40 | Up to the first `^` it writes, the substitution copies its input unchanged. |
| Splitter.CopiedHeadStartsNoScheme | gfwlist2acl.py:40 | A character the substitution copies does not start a scheme in the output. |
| Splitter.SchemeLen | gfwlist2acl.py:40 | A scheme match is 7 to 9 characters long, starts with `http` and ends with `://`. |
| Splitter.SchemeLenMatches | gfwlist2acl.py:40 | `https?\??://` matches at the head of a text exactly when it starts with `http://`, `https://`, `http?://` or `https?://`, and the match is that literal. |
| Splitter.DropSchemes | gfwlist2acl.py:40 | The substitution never lengthens the rule. Its lemmas state that no scheme is left and that scheme-free text is unchanged. |
| Splitter.SchemePrefixDetermines | gfwlist2acl.py:40 | Whether a scheme matches depends only on the characters it spans. |
| Splitter.NoSchemePrefix | gfwlist2acl.py:40-41 | Cutting off the end of a scheme-free rule (line 41) keeps it scheme-free. |
| Splitter.NoSchemeLastReplaced | gfwlist2acl.py:40-42 | Replacing the last character with `$` (line 42) keeps a rule scheme-free. |
| Splitter.SlashToDollar | gfwlist2acl.py:42 | The length is kept and no trailing `/` is left. A trailing `/` becomes `$`, every other character is kept, and a rule without a trailing `/` is unchanged. |
| Splitter.DropTrailingDotStars | gfwlist2acl.py:41 | The result is a prefix of the input, the removed part is a whole run of `.*` pairs, and the result no longer ends with `.*`. |
| Splitter.FindGroup | gfwlist2acl.py:46-50 | The match exists exactly when some `(` precedes some `)`. The rule is prefix + `(` + body + `)` + suffix, with no `(` in the body and no `)` in the suffix (greedy matching). |
| Splitter.Chunks | gfwlist2acl.py:52-54 | There are ceil(n/10) chunks, and chunk k is the slice `items[10k:10k+10]`. |
| Splitter.ChunksFlatten | gfwlist2acl.py:52-54 | Concatenating the chunks gives back the alternatives exactly: none lost, added or reordered. |
| Splitter.Candidates | gfwlist2acl.py:44-55 | There is always at least one candidate. A rule of at most 80 characters, or one without a group, is its own only candidate. |
| Splitter.Rules | gfwlist2acl.py:39-59 | Every rule returned is shorter than 500, and a normalised rule of at most 80 characters comes back alone. |
| Splitter.CandidatesSplit | gfwlist2acl.py:44-55 | A rule over 80 characters with a group becomes ceil(n/10) rules, at least one. Rule k wraps chunk k with the original prefix and suffix, and every chunk holds 1 to 10 alternatives, which can be split back out of it. |
| Splitter.CandidatesFewAlternatives | gfwlist2acl.py:44-55 | A group with at most ten alternatives is rebuilt exactly, so splitting leaves the rule as it was. |
| Splitter.KeepShort | gfwlist2acl.py:58 | The filter never keeps more rules than it is given. |
| Splitter.KeepShortMembers | gfwlist2acl.py:58 | A rule is kept exactly when it is in the input and shorter than 500: nothing is added. |
| Splitter.KeepShortOne | gfwlist2acl.py:58 | A single rule is kept exactly when it is shorter than 500. |
| Splitter.KeepShortAppend | gfwlist2acl.py:58 | The filter works rule by rule and keeps the order. |
| Regexp.GetRegexp | gfwlist2acl.py:21-36 | The result is `get_rules` applied to the translated filter. The translation is head anchor + translated core + tail anchor, as read off the filter. |
| Regexp.Escape | gfwlist2acl.py:24 | Escaping at most doubles the length and leaves text without special characters unchanged. EscapeRoundTrip is its inverse. |
| Regexp.Translate | gfwlist2acl.py:21-34 | Lines 24-34 in order. ExpandTokens and TranslateAnchors state its effect on the filter. |
| Regexp.AnchorDomain | gfwlist2acl.py:32 | A leading escaped double bar is replaced by the domain anchor group. What follows is a suffix of the text, at least 4 characters shorter. Any other text is unchanged. |
| Regexp.AnchorStart | gfwlist2acl.py:33 | A leading escaped bar is replaced by `^`. What follows is a suffix of the text, at least 2 characters shorter. Any other text is unchanged. |
| Regexp.AnchorEnd | gfwlist2acl.py:34 | A trailing escaped bar becomes `$`, the rest is kept, and any other text is unchanged. |
| Regexp.EscapeRoundTrip | gfwlist2acl.py:24 | The escaping at line 24 loses nothing: removing the backslashes gives the filter back. |
| Regexp.ExpandTokens | gfwlist2acl.py:24-29 | Lines 24, 27 and 29 together translate the filter one character at a time. `*` becomes `.+`, `^` the separator class, other special characters are escaped and the rest is kept. |
| Regexp.StarsExpanded | gfwlist2acl.py:27 | The `\*` replacement hits exactly the escaped stars and no pair straddling two escapes. |
| Regexp.CaretsExpanded | gfwlist2acl.py:29 | The `\^` replacement hits exactly the escaped carets. |
| Regexp.TranslateAnchors | gfwlist2acl.py:24-34 | A leading double bar becomes the domain anchor group and a leading single bar becomes `^`, each dropping a following `http://` or `https://`. A trailing bar becomes `$`, and everything else is translated character by character. |
| Regexp.LeadTranslated | gfwlist2acl.py:32-33 | Lines 32-33 turn the filter's leading anchor into its translation and leave the rest translated. |
| Regexp.AnchorEndOnMapped | gfwlist2acl.py:34 | Line 34 turns a trailing bar of the filter into `$` and otherwise changes nothing. |
| Regexp.ParseAnchors | gfwlist2acl.py:32-34 | The head is the domain anchor group, `^` or empty, and the tail is `$` or empty. |
| Regexp.SchemeOfMapped | gfwlist2acl.py:32-33 | The translation starts with a scheme exactly when the filter starts with `http://` or `https://`. The `\??` never matches, because an input `?` is escaped. |
| Regexp.MappedStartsWithBar | gfwlist2acl.py:32-33 | The translation starts with an escaped bar exactly when the filter starts with a bar. |
| Regexp.MappedEndsWithBar | gfwlist2acl.py:34 | The translation ends with an escaped bar when the filter ends with a bar, and otherwise does not end with a bar. |
| Regexp.MapCharsPlain | gfwlist2acl.py:24-29 | Text without special characters translates to itself. |
| Regexp.MapCharsAppend | gfwlist2acl.py:24-29 | The translation of a concatenation is the concatenation of the translations. |
| Converter.Convert | gfwlist2acl.py:61-77 | An empty line gives nothing, and an IP line gives itself with `\/` unescaped. Every rule of any other line is shorter than 500. |
| Converter.Unslash | gfwlist2acl.py:67 | Replacing `\/` by `/` never lengthens the line. UnslashPlain gives the identity case. |
| Converter.IsIpText | gfwlist2acl.py:70 | A nonempty line made only of ASCII digits, `.`, `:` and `/`. Classify states that it takes precedence over the other kinds. |
| Converter.SlashIsIp | gfwlist2acl.py:70-75 | A lone `/` is taken by the IP branch, so the `/…/` branch always sees two slashes. |
| Converter.ConvertLine | gfwlist2acl.py:61-77 | The result is `Convert(line)`. An empty line gives nothing and an IP line gives itself with `\/` unescaped. Every rule of any other line is shorter than 500. |
| Converter.Classify | gfwlist2acl.py:64-77 | Each branch is taken exactly when its condition holds: empty line; whole line in `[\d.:/]+`; starts and ends with `/`; otherwise a pattern. |
| Converter.ConvertRegexLiteral | gfwlist2acl.py:74-75 | A `/…/` line has at least two characters, is `/` + its inner text + `/`, and that inner text goes to `get_rules` neither escaped nor translated. |
| Converter.ConvertPattern | gfwlist2acl.py:77 | A pattern line yields `get_rules` of its anchors translated plus its core translated character by character. |
| Converter.Inner | gfwlist2acl.py:75 | `line[1:-1]` is what lies between the first and last character, and is empty for a one-character line. |
| Converter.UnslashPlain | gfwlist2acl.py:67 | Line 67 changes nothing in a line without a backslash. |
| Driver.Partition | gfwlist2acl.py:91-104 | The two lists built by the loop are `Collect(lines)`: each is its header followed by the rules of the lines routed to it, in input order. |
| Driver.ReadLine | gfwlist2acl.py:95-104 | One stripped line adds nothing if it is a comment. It adds its rules to the bypass list if it starts with `@@` (after removing `@@`), and to the proxy list otherwise. |
| Driver.Contribution | gfwlist2acl.py:95-104 | What one line adds to each list. ContributionRoutes states its routing. |
| Driver.ContributionRoutes | gfwlist2acl.py:95-104 | Comments, empty lines and a bare `@@` add nothing, and bypass rules only come from `@@` lines. Proxy rules only come from other non-comment lines, and no line feeds both lists. |
| Driver.Collect | gfwlist2acl.py:91-92 | Each list starts with its three-line header. |
| Driver.CollectSnoc | gfwlist2acl.py:94-104 | Reading one more line appends its rules to the list it goes to and leaves the other list unchanged. |
| Driver.NoExceptionNoBypass | gfwlist2acl.py:100-104 | Without an `@@` line, the bypass list is only its header. |
| Driver.CommentsIgnored | gfwlist2acl.py:96-98 | Removing a comment line from the input changes neither list. |
| Driver.Document | gfwlist2acl.py:106-107 | The file is exactly the seven-line header, then the proxy list, then the bypass list, with nothing in between. |
| Driver.BuildAcl | gfwlist2acl.py:80-107 | The output is the seven-line header, then the proxy list, then the bypass list. |
| Driver.Header | gfwlist2acl.py:81-90 | The header has seven lines and ends with `[bypass_all]`. |
| Text.Strip | gfwlist2acl.py:95 | The stripped line is no longer than the line and has no white space at either end. It is empty exactly when the line is all white space. |
| Text.ReplaceAll | gfwlist2acl.py:27-29 | `str.replace` with a replacement no longer than the pattern never lengthens the text (also line 67). ReplaceAllAbsent, ReplaceAllAtHead and ReplaceAllSkipsHead give its behaviour at the head. |
| Text.JoinSplit | gfwlist2acl.py:49 | Joining the pieces of a split on the bar with the bar gives the text back. |
| Text.SplitJoin | gfwlist2acl.py:55 | Splitting a join of separator-free pieces gives the pieces back. |

## Left out

- Reading the input through `fileinput` and printing the output are not modelled. The input is a sequence of lines and the output a sequence of output lines.
- The timestamp `datetime.now(ChinaTimezone()).isoformat()` at line 83 and the `ChinaTimezone` class are not modelled. The date text is a parameter of `Header`, `Document` and `BuildAcl`.
- Lines are assumed to hold no line break, as `strip()` guarantees for the lines `main` reads. Python's `$` also matching before a final `\n`, and `.` not matching `\n`, are therefore not modelled.
- Text.Strip: only the ASCII whitespace characters are stripped, not the other Unicode whitespace Python's `str.strip` removes.
- Converter.IsIpText: `\d` is read as the ASCII digits only, not every Unicode decimal digit Python's `re` accepts.
- What the produced regular expressions match is not modelled. The model fixes the rule text only. One example: the separator class `[^a-zA-Z0-9_-.%]` holds the reversed range `_-.`, so it is not a valid class for Python's `re`.
